/**
 * The trade summary: every ledger line is read (`split` and `parseInt`) and
 * the quantities are summed per `user-symbol` group (`groupingBy` with
 * `summingInt`). Any line that cannot be read aborts the whole summary.
 *
 * `Summarize` reads the lines and folds the readings left to right;
 * `Totals` is an independent definition of the intended result, so the fold
 * is shown to be order-independent and to agree with any cut of the ledger
 * into chunks whose partial maps are merged, which is what a parallel stream
 * does.
 */
module TradeSummary {
  import opened Wrappers
  import opened JavaInt
  import opened TradeRecords

  /** What reading one line gives: its entry, or `None` when reading throws. */
  type Reading = Option<Entry>

  /** Removing one element removes one occurrence from the multiset. */
  lemma RemoveAt<T>(s: seq<T>, j: int)
    requires 0 <= j < |s|
    ensures s == s[..j] + [s[j]] + s[j + 1..]
    ensures multiset(s[..j] + s[j + 1..]) == multiset(s) - multiset{s[j]}
  {
    assert s == s[..j] + [s[j]] + s[j + 1..];
  }

  /** `f` applied to every element, in order (the stream's `map` step). */
  function Apply<A, B>(f: A -> B, s: seq<A>): (r: seq<B>)
    ensures |r| == |s| && forall i :: 0 <= i < |s| ==> r[i] == f(s[i])
  {
    if s == [] then [] else [f(s[0])] + Apply(f, s[1..])
  }

  lemma ApplyConcat<A, B>(f: A -> B, a: seq<A>, b: seq<A>)
    ensures Apply(f, a + b) == Apply(f, a) + Apply(f, b)
  {
    var whole, parts := Apply(f, a + b), Apply(f, a) + Apply(f, b);
    forall i | 0 <= i < |whole|
      ensures whole[i] == parts[i]
    {
      if i < |a| {
        assert (a + b)[i] == a[i];
      } else {
        assert (a + b)[i] == b[i - |a|];
      }
    }
    assert whole == parts;
  }

  lemma ApplyInsert<A, B>(f: A -> B, p: seq<A>, x: A, q: seq<A>)
    ensures multiset(Apply(f, p + [x] + q)) == multiset(Apply(f, p + q)) + multiset{f(x)}
  {
    ApplyConcat(f, p + [x], q);
    ApplyConcat(f, p, [x]);
    ApplyConcat(f, p, q);
    assert Apply(f, [x]) == [f(x)];
  }

  /** Mapping a permutation gives a permutation. */
  lemma {:induction false} ApplyPermutation<A, B>(f: A -> B, a: seq<A>, b: seq<A>)
    requires multiset(a) == multiset(b)
    ensures multiset(Apply(f, a)) == multiset(Apply(f, b))
  {
    if a == [] {
      assert |b| == |multiset(b)| == 0;
    } else {
      var x := a[0];
      assert x in multiset(b);
      var j :| 0 <= j < |b| && b[j] == x;
      RemoveAt(b, j);
      RemoveAt(a, 0);
      assert a[..0] + a[1..] == a[1..];
      ApplyPermutation(f, a[1..], b[..j] + b[j + 1..]);
      ApplyInsert(f, b[..j], x, b[j + 1..]);
      ApplyInsert(f, [], x, a[1..]);
      assert [] + [x] + a[1..] == a;
      assert [] + a[1..] == a[1..];
    }
  }
  /** The readings of the ledger lines, in ledger order. */
  function Readings(lines: seq<string>): seq<Reading> {
    Apply(DecodeLine, lines)
  }

  /** A map lookup that reads a missing key as zero. */
  function Get(m: map<string, int>, key: string): int {
    if key in m then m[key] else 0
  }

  /** Adds one quantity to its group (the `summingInt` accumulator). */
  function AddTo(m: map<string, int>, key: string, quantity: int): map<string, int> {
    m[key := Get(m, key) + quantity]
  }

  /** The grouping fold over the readings, first to last; a failed reading aborts. */
  function Group(rs: seq<Reading>): Option<map<string, int>>
  {
    if rs == [] then Some(map[])
    else
      match Group(rs[..|rs| - 1])
      case None => None
      case Some(m) =>
        match rs[|rs| - 1]
        case None => None
        case Some(e) => Some(AddTo(m, e.key, e.quantity as int))
  }

  /** The summary of the ledger. */
  function Summarize(lines: seq<string>): Option<map<string, int>> {
    Group(Readings(lines))
  }

  /** Every reading succeeded. */
  predicate AllRead(rs: seq<Reading>) {
    forall i :: 0 <= i < |rs| ==> rs[i].Some?
  }

  /** The group keys of the successful readings. */
  function KeysOf(rs: seq<Reading>): set<string> {
    set i | 0 <= i < |rs| && rs[i].Some? :: rs[i].value.key
  }

  /** What one reading adds to group `key`. */
  function Contribution(r: Reading, key: string): int {
    match r
    case Some(e) => if e.key == key then e.quantity as int else 0
    case None => 0
  }

  /** The total quantity of group `key`, summed front to back. */
  function SumFor(rs: seq<Reading>, key: string): int {
    if rs == [] then 0 else Contribution(rs[0], key) + SumFor(rs[1..], key)
  }

  /** The intended summary: each key present, with its total. */
  function Totals(rs: seq<Reading>): map<string, int> {
    map key | key in KeysOf(rs) :: SumFor(rs, key)
  }

  lemma {:induction false} SumForConcat(a: seq<Reading>, b: seq<Reading>, key: string)
    ensures SumFor(a + b, key) == SumFor(a, key) + SumFor(b, key)
  {
    if a != [] {
      SumForConcat(a[1..], b, key);
      assert (a + b)[1..] == a[1..] + b;
    } else {
      assert a + b == b;
    }
  }

  lemma {:induction false} SumForAbsent(rs: seq<Reading>, key: string)
    requires key !in KeysOf(rs)
    ensures SumFor(rs, key) == 0
  {
    if rs != [] {
      assert rs[0].Some? ==> rs[0].value.key in KeysOf(rs);
      forall i | 0 <= i < |rs[1..]| && rs[1..][i].Some?
        ensures rs[1..][i].value.key in KeysOf(rs)
      {
        assert rs[1..][i] == rs[i + 1];
      }
      SumForAbsent(rs[1..], key);
    }
  }

  lemma SumForInsert(p: seq<Reading>, x: Reading, q: seq<Reading>, key: string)
    ensures SumFor(p + [x] + q, key) == SumFor(p + q, key) + Contribution(x, key)
  {
    SumForConcat(p + [x], q, key);
    SumForConcat(p, [x], key);
    SumForConcat(p, q, key);
  }

  /** Taking the first element of `a` out of `b` leaves two permutations of each other. */
  lemma RemoveMatching<T>(a: seq<T>, b: seq<T>, j: int)
    requires multiset(a) == multiset(b) && a != []
    requires 0 <= j < |b| && b[j] == a[0]
    ensures b == b[..j] + [a[0]] + b[j + 1..]
    ensures multiset(a[1..]) == multiset(b[..j] + b[j + 1..])
  {
    RemoveAt(b, j);
    RemoveAt(a, 0);
    assert a[..0] + a[1..] == a[1..];
  }

  /** The sum of a group does not depend on the order of the readings. */
  lemma {:induction false} SumForPermutation(a: seq<Reading>, b: seq<Reading>, key: string)
    requires multiset(a) == multiset(b)
    ensures SumFor(a, key) == SumFor(b, key)
  {
    if a == [] {
      assert |b| == |multiset(b)| == 0;
    } else {
      var x := a[0];
      assert x in multiset(b);
      var j :| 0 <= j < |b| && b[j] == x;
      var p, q := b[..j], b[j + 1..];
      RemoveMatching(a, b, j);
      SumForPermutation(a[1..], p + q, key);
      SumForInsert(p, x, q, key);
    }
  }

  /** The fold computes `Totals` when every reading succeeds, and aborts otherwise. */
  lemma {:induction false} GroupIsTotals(rs: seq<Reading>)
    ensures Group(rs) == if AllRead(rs) then Some(Totals(rs)) else None
  {
    if rs != [] {
      var init, last := rs[..|rs| - 1], rs[|rs| - 1];
      assert rs == init + [last];
      GroupIsTotals(init);
      AllReadConcat(init, [last]);
      if AllRead(rs) {
        var e := last.value;
        TotalsConcat(init, [last]);
        TotalsSingle(e);
        MergeSingle(Totals(init), e.key, e.quantity as int);
      }
    }
  }

  lemma TotalsSingle(e: Entry)
    ensures Totals([Some(e)]) == map[e.key := e.quantity as int]
  {
    var rs := [Some(e)];
    assert KeysOf(rs) == {e.key} by {
      assert rs[0].Some? && rs[0].value.key == e.key;
    }
    assert SumFor(rs, e.key) == e.quantity as int;
  }

  lemma MergeSingle(m: map<string, int>, key: string, quantity: int)
    ensures Merge(m, map[key := quantity]) == AddTo(m, key, quantity)
  {
  }

  /** A permutation of the readings keeps the set of keys. */
  lemma KeysOfPermutation(a: seq<Reading>, b: seq<Reading>)
    requires multiset(a) == multiset(b)
    ensures KeysOf(a) <= KeysOf(b)
    ensures !AllRead(a) ==> !AllRead(b)
  {
    forall k | k in KeysOf(a) ensures k in KeysOf(b) {
      var i :| 0 <= i < |a| && a[i].Some? && a[i].value.key == k;
      assert a[i] in multiset(b);
    }
    if !AllRead(a) {
      var i :| 0 <= i < |a| && a[i].None?;
      assert a[i] in multiset(b);
    }
  }

  /** Grouping does not depend on the order of the readings. */
  lemma GroupOrderIndependent(ra: seq<Reading>, rb: seq<Reading>)
    requires multiset(ra) == multiset(rb)
    ensures Group(ra) == Group(rb)
  {
    GroupIsTotals(ra);
    GroupIsTotals(rb);
    KeysOfPermutation(ra, rb);
    KeysOfPermutation(rb, ra);
    assert KeysOf(ra) == KeysOf(rb);
    forall k | k in KeysOf(ra)
      ensures Totals(ra)[k] == Totals(rb)[k]
    {
      SumForPermutation(ra, rb, k);
    }
    assert Totals(ra) == Totals(rb);
  }

  /** Order independence: any permutation of the ledger gives the same summary. */
  lemma SummarizeOrderIndependent(a: seq<string>, b: seq<string>)
    requires multiset(a) == multiset(b)
    ensures Summarize(a) == Summarize(b)
  {
    ApplyPermutation(DecodeLine, a, b);
    GroupOrderIndependent(Readings(a), Readings(b));
  }

  /** A summary aborts exactly when some line of the ledger cannot be read. */
  lemma SummarizeAborts(lines: seq<string>)
    ensures Summarize(lines).None? <==> exists i :: 0 <= i < |lines| && DecodeLine(lines[i]).None?
  {
    GroupIsTotals(Readings(lines));
  }

  /**
   * A ledger holding a trade by a user whose name has one comma, in one of
   * the offered symbols, cannot be summarised: its line throws when read.
   */
  lemma CommaInUserAbortsSummary(lines: seq<string>, t: Trade, first: string, second: string)
    requires t.user == first + "," + second && ',' !in first && ',' !in second
    requires t.symbol in OfferedSymbols
    requires ',' !in t.price && t.price != []
    requires Encode(t) in lines
    ensures Summarize(lines) == None
  {
    OfferedSymbolIsWord(t.symbol);
    CommaInUserAbortsRead(t, first, second);
    var i :| 0 <= i < |lines| && lines[i] == Encode(t);
    SummarizeAborts(lines);
  }

  /**
   * When it succeeds, the summary has a key for exactly the groups present
   * in the ledger, each with the total quantity of its lines.
   */
  lemma SummarizeContents(lines: seq<string>, m: map<string, int>)
    requires Summarize(lines) == Some(m)
    ensures m.Keys == KeysOf(Readings(lines))
    ensures forall k :: k in m ==> m[k] == SumFor(Readings(lines), k)
  {
    GroupIsTotals(Readings(lines));
  }

  /** The combiner of the parallel collector: partial sums of the same group are added. */
  function Merge(m1: map<string, int>, m2: map<string, int>): map<string, int> {
    map key | key in m1.Keys + m2.Keys :: Get(m1, key) + Get(m2, key)
  }

  /** Merging two partial summaries; an aborted one aborts the result. */
  function Combine(r1: Option<map<string, int>>, r2: Option<map<string, int>>): Option<map<string, int>> {
    if r1.Some? && r2.Some? then Some(Merge(r1.value, r2.value)) else None
  }

  lemma AllReadConcat(a: seq<Reading>, b: seq<Reading>)
    ensures AllRead(a + b) <==> AllRead(a) && AllRead(b)
  {
    if AllRead(a + b) {
      forall i | 0 <= i < |a| ensures a[i].Some? { assert (a + b)[i] == a[i]; }
      forall i | 0 <= i < |b| ensures b[i].Some? { assert (a + b)[i + |a|] == b[i]; }
    }
  }

  lemma KeysOfConcat(a: seq<Reading>, b: seq<Reading>)
    ensures KeysOf(a + b) == KeysOf(a) + KeysOf(b)
  {
    forall k | k in KeysOf(a + b) ensures k in KeysOf(a) + KeysOf(b) {
      var i :| 0 <= i < |a + b| && (a + b)[i].Some? && (a + b)[i].value.key == k;
      if i < |a| { assert (a + b)[i] == a[i]; } else { assert (a + b)[i] == b[i - |a|]; }
    }
    forall k | k in KeysOf(a) ensures k in KeysOf(a + b) {
      var i :| 0 <= i < |a| && a[i].Some? && a[i].value.key == k;
      assert (a + b)[i] == a[i];
    }
    forall k | k in KeysOf(b) ensures k in KeysOf(a + b) {
      var i :| 0 <= i < |b| && b[i].Some? && b[i].value.key == k;
      assert (a + b)[i + |a|] == b[i];
    }
  }

  lemma TotalsConcat(a: seq<Reading>, b: seq<Reading>)
    ensures Totals(a + b) == Merge(Totals(a), Totals(b))
  {
    KeysOfConcat(a, b);
    forall k | k in KeysOf(a + b)
      ensures Totals(a + b)[k] == Merge(Totals(a), Totals(b))[k]
    {
      SumForConcat(a, b, k);
      if k !in KeysOf(a) { SumForAbsent(a, k); }
      if k !in KeysOf(b) { SumForAbsent(b, k); }
    }
  }

  /** Grouping two halves separately and merging equals grouping the whole. */
  lemma GroupSplit(a: seq<Reading>, b: seq<Reading>)
    ensures Group(a + b) == Combine(Group(a), Group(b))
  {
    GroupIsTotals(a);
    GroupIsTotals(b);
    GroupIsTotals(a + b);
    AllReadConcat(a, b);
    TotalsConcat(a, b);
  }

  /** The ledger cut into consecutive chunks, one per worker. */
  function Flatten(chunks: seq<seq<string>>): seq<string> {
    if chunks == [] then [] else chunks[0] + Flatten(chunks[1..])
  }

  /** Each chunk summarized on its own, then the partial results merged. */
  function SummarizeChunks(chunks: seq<seq<string>>): Option<map<string, int>> {
    if chunks == [] then Some(map[]) else Combine(Summarize(chunks[0]), SummarizeChunks(chunks[1..]))
  }

  /** Worker-count independence: however the ledger is cut, the merged result is the summary. */
  lemma {:induction false} SummarizeAnyChunking(chunks: seq<seq<string>>)
    ensures SummarizeChunks(chunks) == Summarize(Flatten(chunks))
  {
    if chunks != [] {
      SummarizeAnyChunking(chunks[1..]);
      ApplyConcat(DecodeLine, chunks[0], Flatten(chunks[1..]));
      GroupSplit(Readings(chunks[0]), Readings(Flatten(chunks[1..])));
    }
  }

  lemma GroupAppend(rs: seq<Reading>, r: Reading)
    ensures Group(rs + [r]) == if Group(rs).Some? && r.Some?
      then Some(AddTo(Group(rs).value, r.value.key, r.value.quantity as int)) else None
  {
    assert (rs + [r])[..|rs|] == rs;
  }

  /** A trade that reads back adds its quantity to its own group and changes no other. */
  lemma SummarizeAfterTrade(lines: seq<string>, t: Trade, m: map<string, int>)
    requires Encodable(t)
    requires Summarize(lines) == Some(m)
    ensures Summarize(lines + [Encode(t)]) == Some(AddTo(m, GroupKey(t.user, t.symbol), t.quantity as int))
  {
    var line := Encode(t);
    DecodeEncode(t);
    SummarizeAppend(lines, line);
    GroupAppend(Readings(lines), DecodeLine(line));
  }

  /** Summarizing one more line folds its reading into the summary of the others. */
  lemma SummarizeAppend(lines: seq<string>, line: string)
    ensures Summarize(lines + [line]) == Group(Readings(lines) + [DecodeLine(line)])
  {
    ApplyConcat(DecodeLine, lines, [line]);
    assert Readings([line]) == [DecodeLine(line)];
  }

  /**
   * Two purchases of AAPL by alice, 10 then 5, sum to 15 under the key
   * `alice-AAPL`, whatever prices they were made at.
   */
  lemma AliceBuysAaplTwice(price1: string, price2: string)
    requires ',' !in price1 && price1 != [] && ',' !in price2 && price2 != []
    ensures Summarize([Encode(Trade("alice", "AAPL", 10, price1)), Encode(Trade("alice", "AAPL", 5, price2))])
         == Some(map["alice-AAPL" := 15])
  {
    var first := Trade("alice", "AAPL", 10, price1);
    var second := Trade("alice", "AAPL", 5, price2);
    var key := GroupKey("alice", "AAPL");
    assert key == "alice-AAPL";
    var l1, l2 := Encode(first), Encode(second);
    assert Summarize([]) == Some(map[]);
    SummarizeAfterTrade([], first, map[]);
    assert [] + [l1] == [l1];
    SummarizeAfterTrade([l1], second, map[key := 10]);
    assert [l1] + [l2] == [l1, l2];
    var m := map[key := 10];
    assert Get(m, key) + 5 == 15;
    assert m[key := 15] == map["alice-AAPL" := 15];
  }
}
