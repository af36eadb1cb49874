/**
 * The comma-separated trade line appended to the ledger, and the way the
 * summary reads it back: split on commas, group key from fields 0 and 1,
 * quantity parsed from field 2.
 */
module TradeRecords {
  import opened Wrappers
  import opened JavaText
  import opened JavaInt

  /**
   * One trade. `price` is the text `String.valueOf(double)` produced, kept
   * opaque.
   */
  datatype Trade = Trade(user: string, symbol: string, quantity: int32, price: string)

  /** What the summary takes from one line: its group key and its quantity. */
  datatype Entry = Entry(key: string, quantity: int32)

  /** The summary's group key: user, a hyphen, symbol. */
  function GroupKey(user: string, symbol: string): string {
    user + "-" + symbol
  }

  /** `String.join(",", user, symbol, String.valueOf(qty), String.valueOf(price))`. */
  function Encode(t: Trade): string {
    Join([t.user, t.symbol, IntToString(t.quantity), t.price], ',')
  }

  /**
   * A trade whose line reads back field for field: no comma in user, symbol
   * or price, and a non-empty price (as every `String.valueOf(double)` is).
   */
  predicate Encodable(t: Trade) {
    ',' !in t.user && ',' !in t.symbol && ',' !in t.price && t.price != []
  }

  /**
   * Reading a line in the summary: `split(",")`, then `arr[0] + "-" + arr[1]`
   * and `Integer.parseInt(arr[2])`. `None` is the exception (index out of
   * bounds or number format) that aborts the whole summary.
   */
  function DecodeLine(line: string): (r: Option<Entry>)
    ensures r.Some? ==> ',' !in r.value.key
  {
    var fields := JavaSplit(line, ',');
    if |fields| < 3 then None
    else
      match ParseInt(fields[2])
      case None => None
      case Some(q) =>
        assert ',' !in fields[0] && ',' !in fields[1];
        Some(Entry(GroupKey(fields[0], fields[1]), q))
  }

  /** An encoded line splits into exactly its four fields. */
  lemma EncodeSplits(t: Trade)
    requires Encodable(t)
    ensures JavaSplit(Encode(t), ',') == [t.user, t.symbol, IntToString(t.quantity), t.price]
  {
    JavaSplitJoin([t.user, t.symbol, IntToString(t.quantity), t.price], ',');
  }

  /** Round trip: the summary reads an encoded trade as its own key and quantity. */
  lemma DecodeEncode(t: Trade)
    requires Encodable(t)
    ensures DecodeLine(Encode(t)) == Some(Entry(GroupKey(t.user, t.symbol), t.quantity))
  {
    EncodeSplits(t);
    ParseIntToString(t.quantity);
  }

  /** The symbols the Buy form offers. */
  const OfferedSymbols: seq<string> := ["AAPL", "GOOGL", "MSFT"]

  /** An offered symbol is a plain word: no comma, no hyphen, and not a number. */
  lemma OfferedSymbolIsWord(symbol: string)
    requires symbol in OfferedSymbols
    ensures symbol != [] && ',' !in symbol && '-' !in symbol
    ensures ParseInt(symbol) == None
  {
    ParseIntRejectsWord(symbol);
  }

  /** A comma in the user name shifts the fields: the line is never read as its own trade. */
  lemma CommaInUserMisreads(t: Trade)
    requires ',' in t.user
    ensures DecodeLine(Encode(t)) != Some(Entry(GroupKey(t.user, t.symbol), t.quantity))
  {
    var i :| 0 <= i < |t.user| && t.user[i] == ',';
    assert GroupKey(t.user, t.symbol)[i] == ',';
  }

  /**
   * With one comma in the user name, field 2 is the symbol; a symbol such as
   * `AAPL` does not parse, so reading the line throws.
   */
  lemma CommaInUserAbortsRead(t: Trade, first: string, second: string)
    requires t.user == first + "," + second
    requires ',' !in first && ',' !in second && ',' !in t.symbol
    requires ',' !in t.price && t.price != []
    requires ParseInt(t.symbol) == None
    ensures DecodeLine(Encode(t)) == None
  {
    var pieces := [first, second, t.symbol, IntToString(t.quantity), t.price];
    assert Join(pieces, ',') == Encode(t);
    JavaSplitJoin(pieces, ',');
  }

  /** In a group key whose symbol has no hyphen, the user ends at the last hyphen. */
  lemma LastHyphen(user: string, symbol: string)
    requires '-' !in symbol
    ensures GroupKey(user, symbol)[|user|] == '-'
    ensures forall i :: |user| < i < |GroupKey(user, symbol)| ==> GroupKey(user, symbol)[i] != '-'
  {
    var k := GroupKey(user, symbol);
    forall i | |user| < i < |k|
      ensures k[i] != '-'
    {
      assert k[i] == symbol[i - |user| - 1];
    }
  }

  /**
   * When symbols contain no hyphen (the offered ones are AAPL, GOOGL and
   * MSFT) a group key names exactly one user and one symbol.
   */
  lemma GroupKeyInjective(user: string, symbol: string, user': string, symbol': string)
    requires '-' !in symbol && '-' !in symbol'
    requires GroupKey(user, symbol) == GroupKey(user', symbol')
    ensures user == user' && symbol == symbol'
  {
    var k := GroupKey(user, symbol);
    LastHyphen(user, symbol);
    LastHyphen(user', symbol');
    assert |user| == |user'|;
    assert user == k[..|user|] == user';
    assert symbol == k[|user| + 1..] == symbol';
  }
}
