/**
 * Extracting the price text from the body of a GLOBAL_QUOTE response: find
 * the marker `"05. price": "`, then take the text from just after it up to
 * the next double quote. `None` stands for the exception that sends the
 * price fetch to its random fallback.
 */
module QuoteParsing {
  import opened Wrappers
  import opened JavaText

  /** The 14-character marker that precedes the quoted price. */
  const PriceMarker: string := "\"05. price\": \""

  /**
   * The extraction as written: the result of the marker search is not
   * checked, so when the marker is missing (-1) the text is read from
   * offset 13 instead. A closing quote must follow the start, or
   * `substring` throws.
   */
  function ExtractPrice(body: string): (r: Option<string>)
    ensures var start := IndexOf(body, PriceMarker, 0) + |PriceMarker|;
      && (r.None? <==> forall i :: start <= i < |body| ==> body[i] != '"')
      && (r.Some? ==>
            && start + |r.value| < |body|
            && body[start..start + |r.value|] == r.value
            && body[start + |r.value|] == '"'
            && '"' !in r.value)
  {
    var index := IndexOf(body, PriceMarker, 0);
    var start := index + |PriceMarker|;
    var end := IndexOf(body, "\"", start);
    if end < 0 then
      NoQuoteBetween(body, start, |body|);
      None
    else
      NoQuoteBetween(body, start, end);
      assert body[end..end + 1] == "\"";
      assert body[end] == '"';
      var v := body[start..end];
      assert forall i :: 0 <= i < |v| ==> v[i] == body[start + i];
      Some(v)
  }

  /** No quote is found at any index of `body` in `[from, to)`. */
  lemma NoQuoteBetween(body: string, from: int, to: int)
    requires 0 <= from && to <= |body|
    requires forall i :: from <= i && i < to ==> !OccursAt(body, "\"", i)
    ensures forall i :: from <= i < to ==> body[i] != '"'
  {
    forall i | from <= i < to
      ensures body[i] != '"'
    {
      assert !OccursAt(body, "\"", i);
      assert body[i..i + 1] == [body[i]];
    }
  }

  /** An occurrence with none before it is what `IndexOf` finds. */
  lemma IndexOfFirst(s: string, pat: string, from: nat, n: int)
    requires pat != [] && from <= n && OccursAt(s, pat, n)
    requires forall i :: from <= i < n ==> !OccursAt(s, pat, i)
    ensures IndexOf(s, pat, from) == n
  {
  }

  /** Occurrences that start inside a prefix are decided by the prefix. */
  lemma OccursInPrefix(s: string, t: string, pat: string, i: int)
    requires 0 <= i && i + |pat| <= |s|
    ensures OccursAt(s + t, pat, i) == OccursAt(s, pat, i)
  {
    assert (s + t)[i..i + |pat|] == s[i..i + |pat|];
  }

  /** The first marker of a body whose prefix holds none starts right after the prefix. */
  lemma MarkerAfterPrefix(prefix: string, tail: string)
    requires forall i :: 0 <= i < |prefix| ==> !OccursAt(prefix + PriceMarker, PriceMarker, i)
    ensures IndexOf(prefix + PriceMarker + tail, PriceMarker, 0) == |prefix|
  {
    var head := prefix + PriceMarker;
    var n := |prefix|;
    assert head[n..|head|] == PriceMarker;
    OccursInPrefix(head, tail, PriceMarker, n);
    forall i | 0 <= i < n
      ensures !OccursAt(head + tail, PriceMarker, i)
    {
      OccursInPrefix(head, tail, PriceMarker, i);
    }
    IndexOfFirst(head + tail, PriceMarker, 0, n);
  }

  /** The next quote after a quote-free value is the one that closes it. */
  lemma QuoteAfterValue(head: string, value: string, rest: string)
    requires '"' !in value
    ensures IndexOf(head + value + "\"" + rest, "\"", |head|) == |head| + |value|
  {
    var body := head + value + "\"" + rest;
    var start, close := |head|, |head| + |value|;
    assert body[close..close + 1] == "\"";
    forall i | start <= i < close
      ensures !OccursAt(body, "\"", i)
    {
      assert body[i..i + 1] == [value[i - start]];
    }
    IndexOfFirst(body, "\"", start, close);
  }

  /** Once both searches are known, the extraction is the text between them. */
  lemma ExtractPriceBetween(body: string, start: int, close: int, value: string)
    requires IndexOf(body, PriceMarker, 0) + |PriceMarker| == start
    requires 0 <= close && IndexOf(body, "\"", start) == close
    requires start <= close <= |body| && body[start..close] == value
    ensures ExtractPrice(body) == Some(value)
  {
  }

  /**
   * A body holding the marker once, followed by a value without quotes and
   * a closing quote, yields that value.
   */
  lemma ExtractPriceFindsValue(prefix: string, value: string, rest: string)
    requires forall i :: 0 <= i < |prefix| ==> !OccursAt(prefix + PriceMarker, PriceMarker, i)
    requires '"' !in value
    ensures ExtractPrice(prefix + PriceMarker + value + "\"" + rest) == Some(value)
  {
    var head := prefix + PriceMarker;
    var body := head + value + "\"" + rest;
    assert body == prefix + PriceMarker + (value + "\"" + rest);
    MarkerAfterPrefix(prefix, value + "\"" + rest);
    QuoteAfterValue(head, value, rest);
    MiddleSlice(head, value, "\"", rest);
    ExtractPriceBetween(body, |head|, |head| + |value|, value);
  }

  /** The slice of a concatenation that covers its middle part is that part. */
  lemma MiddleSlice(head: string, value: string, close: string, rest: string)
    ensures (head + value + close + rest)[|head|..|head| + |value|] == value
  {
    var whole := head + value + close + rest;
    forall i | 0 <= i < |value|
      ensures whole[|head|..|head| + |value|][i] == value[i]
    {
      assert whole[|head| + i] == (head + value)[|head| + i];
    }
  }

  /**
   * The missing-marker case as written: this body has no price field, yet
   * the text from offset 13 up to the next quote is taken, and it is a
   * number.
   */
  lemma ExtractPriceWithoutMarker()
    ensures IndexOf("{\"Note\":\"x\", 42\"}", PriceMarker, 0) == -1
    ensures ExtractPrice("{\"Note\":\"x\", 42\"}") == Some("42")
  {
    var body := "{\"Note\":\"x\", 42\"}";
    forall i | 0 <= i
      ensures !OccursAt(body, PriceMarker, i)
    {
      if i + |PriceMarker| <= |body| {
        assert body[i..i + |PriceMarker|][1] == body[i + 1];
        assert body[i..i + |PriceMarker|][0] == body[i];
      }
    }
    assert IndexOf(body, PriceMarker, 0) == -1;
    assert body[13..15] == "42";
    assert body[15..16] == "\"";
    assert body[13..14] == [body[13]] && body[13] == '4';
    assert body[14..15] == [body[14]] && body[14] == '2';
    assert !OccursAt(body, "\"", 13) && !OccursAt(body, "\"", 14);
    assert IndexOf(body, "\"", 13) == 15;
  }

  /**
   * The extraction with the missing marker handled: a value only when the
   * marker occurs, and then the quote-free text right after its first
   * occurrence, as the extraction as written gives.
   */
  function ExtractPriceChecked(body: string): (r: Option<string>)
    ensures IndexOf(body, PriceMarker, 0) < 0 ==> r == None
    ensures IndexOf(body, PriceMarker, 0) >= 0 ==> r == ExtractPrice(body)
    ensures r.Some? ==>
      var index := IndexOf(body, PriceMarker, 0);
      && OccursAt(body, PriceMarker, index)
      && (forall i :: 0 <= i < index ==> !OccursAt(body, PriceMarker, i))
      && body[index + |PriceMarker|..index + |PriceMarker| + |r.value|] == r.value
      && body[index + |PriceMarker| + |r.value|] == '"'
      && '"' !in r.value
  {
    var index := IndexOf(body, PriceMarker, 0);
    if index < 0 then None else ExtractPrice(body)
  }

  /** The corrected extraction rejects the body that the one as written misreads. */
  lemma ExtractPriceCheckedRejectsMissingMarker()
    ensures ExtractPriceChecked("{\"Note\":\"x\", 42\"}") == None
  {
    ExtractPriceWithoutMarker();
  }
}
