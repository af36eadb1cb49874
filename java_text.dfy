/**
 * The parts of java.lang.String the trading core relies on: `trim`,
 * `String.join`, `split` with a one-character separator, and `indexOf`.
 * Strings are `seq<char>`, whose elements are Unicode scalar values, so every
 * index and length here counts characters where Java counts UTF-16 code
 * units; the two agree on text without supplementary characters.
 */
module JavaText {

  /** `String.trim` strips every character at or below U+0020 from both ends. */
  predicate IsTrimmable(c: char) {
    c <= ' '
  }

  /** The leading loop of `trim`: drop trimmable characters from the front. */
  function TrimLeading(s: string): (r: string)
    ensures |r| <= |s| && r == s[|s| - |r|..]
    ensures r == [] || !IsTrimmable(r[0])
    ensures forall i :: 0 <= i < |s| - |r| ==> IsTrimmable(s[i])
  {
    if s != [] && IsTrimmable(s[0]) then TrimLeading(s[1..]) else s
  }

  /** The trailing loop of `trim`: drop trimmable characters from the back. */
  function TrimTrailing(s: string): (r: string)
    ensures |r| <= |s| && r == s[..|r|]
    ensures r == [] || !IsTrimmable(r[|r| - 1])
    ensures forall i :: |r| <= i < |s| ==> IsTrimmable(s[i])
  {
    if s != [] && IsTrimmable(s[|s| - 1]) then TrimTrailing(s[..|s| - 1]) else s
  }

  /**
   * `r` is the slice of `s` that starts at `lead` and everything outside the
   * slice is trimmable.
   */
  ghost predicate IsTrimOf(s: string, lead: int, r: string) {
    && 0 <= lead && lead + |r| <= |s|
    && r == s[lead..lead + |r|]
    && (forall i :: 0 <= i < lead ==> IsTrimmable(s[i]))
    && (forall i :: lead + |r| <= i < |s| ==> IsTrimmable(s[i]))
  }

  /** `String.trim`. */
  function Trim(s: string): (r: string)
    ensures r == [] || (!IsTrimmable(r[0]) && !IsTrimmable(r[|r| - 1]))
    ensures IsTrimOf(s, |s| - |TrimLeading(s)|, r)
    ensures r == [] <==> forall i :: 0 <= i < |s| ==> IsTrimmable(s[i])
  {
    TrimLoops(s);
    TrimTrailing(TrimLeading(s))
  }

  /** The two loops of `trim`, one after the other, leave the trim of `s`. */
  lemma TrimLoops(s: string)
    ensures var r := TrimTrailing(TrimLeading(s));
      && (r == [] || (!IsTrimmable(r[0]) && !IsTrimmable(r[|r| - 1])))
      && IsTrimOf(s, |s| - |TrimLeading(s)|, r)
      && (r == [] <==> forall i :: 0 <= i < |s| ==> IsTrimmable(s[i]))
  {
    var t := TrimLeading(s);
    var r := TrimTrailing(t);
    TrimOfBothLoops(s, t, r);
    TrimOfEmpty(s, |s| - |t|, r);
  }

  /** Running the trailing loop after the leading one leaves a trim of `s`. */
  lemma TrimOfBothLoops(s: string, t: string, r: string)
    requires |t| <= |s| && t == s[|s| - |t|..]
    requires t == [] || !IsTrimmable(t[0])
    requires forall i :: 0 <= i < |s| - |t| ==> IsTrimmable(s[i])
    requires |r| <= |t| && r == t[..|r|]
    requires forall i :: |r| <= i < |t| ==> IsTrimmable(t[i])
    ensures IsTrimOf(s, |s| - |t|, r)
    ensures r == [] || !IsTrimmable(r[0])
  {
    var lead := |s| - |t|;
    forall i | lead + |r| <= i < |s|
      ensures IsTrimmable(s[i])
    {
      assert s[i] == t[i - lead];
    }
    assert s[lead..lead + |r|] == r;
  }

  /** A trim is empty exactly when the whole string is trimmable. */
  lemma TrimOfEmpty(s: string, lead: int, r: string)
    requires IsTrimOf(s, lead, r)
    requires r == [] || !IsTrimmable(r[0])
    ensures r == [] <==> forall i :: 0 <= i < |s| ==> IsTrimmable(s[i])
  {
    if r != [] {
      assert s[lead] == r[0];
    }
  }

  /** The ends of a nonempty trim are the outermost untrimmable characters. */
  lemma TrimOfEnds(s: string, lead: int, r: string)
    requires IsTrimOf(s, lead, r) && r != []
    requires !IsTrimmable(r[0]) && !IsTrimmable(r[|r| - 1])
    ensures !IsTrimmable(s[lead]) && !IsTrimmable(s[lead + |r| - 1])
  {
    assert s[lead] == r[0];
    assert s[lead + |r| - 1] == r[|r| - 1];
  }

  /** The contract of `Trim` determines its result: there is only one trim of a string. */
  lemma TrimCharacterized(s: string, lead: int, r: string)
    requires IsTrimOf(s, lead, r)
    requires r == [] || (!IsTrimmable(r[0]) && !IsTrimmable(r[|r| - 1]))
    ensures r == Trim(s)
  {
    var t := Trim(s);
    var lead' := |s| - |TrimLeading(s)|;
    TrimOfEmpty(s, lead, r);
    if r != [] {
      TrimOfEnds(s, lead, r);
      TrimOfEnds(s, lead', t);
      assert lead == lead';
      assert |r| == |t|;
    }
  }

  /** A string that is already trimmed is left alone, so `trim` is idempotent. */
  lemma TrimTrimmed(s: string)
    requires s == [] || (!IsTrimmable(s[0]) && !IsTrimmable(s[|s| - 1]))
    ensures Trim(s) == s
  {
    assert IsTrimOf(s, 0, s);
    TrimCharacterized(s, 0, s);
  }

  /** `String.join(String.valueOf(sep), pieces)`. */
  function Join(pieces: seq<string>, sep: char): string
  {
    if pieces == [] then ""
    else if |pieces| == 1 then pieces[0]
    else pieces[0] + [sep] + Join(pieces[1..], sep)
  }

  /**
   * Every piece between separators, trailing empty ones included; `Join`
   * undoes it.
   */
  function SplitAll(s: string, sep: char): (pieces: seq<string>)
    ensures |pieces| >= 1
    ensures forall i :: 0 <= i < |pieces| ==> sep !in pieces[i]
    ensures Join(pieces, sep) == s
  {
    if s == [] then [""]
    else
      var rest := SplitAll(s[1..], sep);
      if s[0] == sep then
        assert s == [sep] + s[1..];
        [""] + rest
      else
        var first := [s[0]] + rest[0];
        assert ([first] + rest[1..])[1..] == rest[1..];
        assert s == [s[0]] + s[1..];
        [first] + rest[1..]
  }

  lemma {:induction false} SplitAtSeparator(a: string, b: string, sep: char)
    requires sep !in a
    ensures SplitAll(a + [sep] + b, sep) == [a] + SplitAll(b, sep)
  {
    if a == [] {
      assert a + [sep] + b == [sep] + b;
      assert ([sep] + b)[1..] == b;
    } else {
      var s := a + [sep] + b;
      assert s[0] == a[0] != sep;
      assert s[1..] == a[1..] + [sep] + b;
      SplitAtSeparator(a[1..], b, sep);
      var rest := SplitAll(s[1..], sep);
      assert rest[0] == a[1..] && rest[1..] == SplitAll(b, sep);
      assert SplitAll(s, sep) == [[s[0]] + rest[0]] + rest[1..];
      assert [a[0]] + a[1..] == a;
    }
  }

  lemma {:induction false} SplitWithoutSeparator(a: string, sep: char)
    requires sep !in a
    ensures SplitAll(a, sep) == [a]
  {
    if a != [] {
      SplitWithoutSeparator(a[1..], sep);
      assert [a[0]] + a[1..] == a;
    }
  }

  /** Splitting a join of separator-free pieces gives the pieces back. */
  lemma {:induction false} SplitJoin(pieces: seq<string>, sep: char)
    requires |pieces| >= 1
    requires forall i :: 0 <= i < |pieces| ==> sep !in pieces[i]
    ensures SplitAll(Join(pieces, sep), sep) == pieces
  {
    if |pieces| == 1 {
      SplitWithoutSeparator(pieces[0], sep);
    } else {
      SplitJoin(pieces[1..], sep);
      SplitAtSeparator(pieces[0], Join(pieces[1..], sep), sep);
      assert [pieces[0]] + pieces[1..] == pieces;
    }
  }

  /** `split` with limit 0 drops every trailing empty string. */
  function DropTrailingEmpty(pieces: seq<string>): (r: seq<string>)
    ensures |r| <= |pieces| && r == pieces[..|r|]
    ensures r == [] || r[|r| - 1] != []
    ensures forall i :: |r| <= i < |pieces| ==> pieces[i] == []
  {
    if pieces != [] && pieces[|pieces| - 1] == [] then DropTrailingEmpty(pieces[..|pieces| - 1])
    else pieces
  }

  /**
   * `s.split(sep)` for a one-character, non-metacharacter separator: the
   * string itself when the separator does not occur, otherwise the pieces
   * with trailing empty strings removed.
   */
  function JavaSplit(s: string, sep: char): (r: seq<string>)
    ensures forall i :: 0 <= i < |r| ==> sep !in r[i]
  {
    if sep !in s then [s] else DropTrailingEmpty(SplitAll(s, sep))
  }

  /** Splitting a join gives the pieces back when the last one is not empty. */
  lemma JavaSplitJoin(pieces: seq<string>, sep: char)
    requires |pieces| >= 1
    requires forall i :: 0 <= i < |pieces| ==> sep !in pieces[i]
    requires pieces[|pieces| - 1] != []
    ensures JavaSplit(Join(pieces, sep), sep) == pieces
  {
    if |pieces| == 1 {
    } else {
      var s := Join(pieces, sep);
      assert s[|pieces[0]|] == sep;
      SplitJoin(pieces, sep);
    }
  }

  /** `pat` occurs in `s` starting at index `i`. */
  predicate OccursAt(s: string, pat: string, i: int) {
    0 <= i && i + |pat| <= |s| && s[i..i + |pat|] == pat
  }

  /** `s.indexOf(pat, from)` for a non-empty `pat`: the first occurrence at or after `from`, or -1. */
  function IndexOf(s: string, pat: string, from: nat): (r: int)
    requires pat != []
    ensures r == -1 || (from <= r && OccursAt(s, pat, r))
    ensures forall i :: from <= i && (r == -1 || i < r) ==> !OccursAt(s, pat, i)
    decreases |s| - from
  {
    if |s| < from + |pat| then -1
    else if s[from..from + |pat|] == pat then from
    else IndexOf(s, pat, from + 1)
  }
}
