/**
 * The Buy action: parse the quantity, resolve the display name, record the
 * trade line at the price the quote service gave, and save the ledger.
 */
module TradingDesk {
  import opened Wrappers
  import opened JavaInt
  import opened Username
  import opened TradeRecords
  import opened TradeLedger

  /** The process-wide session: the current display name and the ledger. */
  class TradingSystem {
    var username: string
    const ledger: Ledger

    constructor (savedFile: string)
      ensures username == Anonymous
      ensures fresh(ledger) && ledger.lines == [] && ledger.file == savedFile
    {
      username := Anonymous;
      ledger := new Ledger(savedFile);
    }

    /**
     * One click on Buy. `price` is the text of the price the quote service
     * returned. A quantity that does not parse throws before anything
     * changes; otherwise the name is resolved, exactly one line is appended
     * and the file is rewritten from the whole ledger.
     */
    method Buy(symbol: string, quantityText: string, nameText: string, price: string) returns (placed: bool)
      modifies this, ledger
      ensures placed <==> ParseInt(quantityText).Some?
      ensures !placed ==> username == old(username) && ledger.lines == old(ledger.lines) && ledger.file == old(ledger.file)
      ensures placed ==> username == ResolveName(nameText)
      ensures placed ==> ledger.lines == old(ledger.lines) + [Encode(Trade(username, symbol, ParseInt(quantityText).value, price))]
      ensures placed ==> ledger.file == FileText(ledger.lines)
    {
      var quantity := ParseInt(quantityText);
      if quantity.None? {
        return false;
      }
      username := ResolveName(nameText);
      ledger.Append(Encode(Trade(username, symbol, quantity.value, price)));
      ledger.Persist();
      placed := true;
    }
  }
}
