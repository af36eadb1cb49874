/**
 * The trade ledger: the shared list of encoded trade lines, appended to by
 * every trade and written out in full to `trades_local.csv` after each one.
 */
module TradeLedger {
  import opened JavaText

  /** The text of the saved file: every line followed by a newline, in ledger order. */
  function FileText(lines: seq<string>): string {
    if lines == [] then "" else lines[0] + "\n" + FileText(lines[1..])
  }

  lemma {:induction false} FileTextConcat(a: seq<string>, b: seq<string>)
    ensures FileText(a + b) == FileText(a) + FileText(b)
  {
    if a == [] {
      assert a + b == b;
    } else {
      FileTextConcat(a[1..], b);
      assert (a + b)[1..] == a[1..] + b;
    }
  }

  /** Reading the saved file back: the newline-terminated lines of the text. */
  function FileLines(text: string): seq<string> {
    var pieces := SplitAll(text, '\n');
    pieces[..|pieces| - 1]
  }

  lemma {:induction false} SplitFileText(lines: seq<string>)
    requires forall i :: 0 <= i < |lines| ==> '\n' !in lines[i]
    ensures SplitAll(FileText(lines), '\n') == lines + [""]
  {
    if lines != [] {
      SplitFileText(lines[1..]);
      SplitAtSeparator(lines[0], FileText(lines[1..]), '\n');
      assert lines[0] + "\n" + FileText(lines[1..]) == lines[0] + ['\n'] + FileText(lines[1..]);
      assert lines == [lines[0]] + lines[1..];
    }
  }

  /** Reading the saved file gives back exactly the ledger, in order. */
  lemma PersistedFileReadsBack(lines: seq<string>)
    requires forall i :: 0 <= i < |lines| ==> '\n' !in lines[i]
    ensures FileLines(FileText(lines)) == lines
  {
    SplitFileText(lines);
    assert (lines + [""])[..|lines|] == lines;
  }

  /** The writing loop of the save: each line, then a newline, in ledger order. */
  method WriteLines(lines: seq<string>) returns (text: string)
    ensures text == FileText(lines)
  {
    text := "";
    for i := 0 to |lines|
      invariant text == FileText(lines[..i])
    {
      FileTextConcat(lines[..i], [lines[i]]);
      assert lines[..i + 1] == lines[..i] + [lines[i]];
      text := text + lines[i] + "\n";
    }
    assert lines[..|lines|] == lines;
  }

  /** The in-memory trade list together with the file it is saved to. */
  class Ledger {
    /** The encoded trade lines, oldest first. */
    var lines: seq<string>
    /** The contents of `trades_local.csv`. */
    var file: string

    constructor (savedFile: string)
      ensures lines == [] && file == savedFile
    {
      lines := [];
      file := savedFile;
    }

    /** Records one trade line at the end; earlier lines and the file are untouched. */
    method Append(line: string)
      modifies this`lines
      ensures lines == old(lines) + [line]
      ensures |lines| == |old(lines)| + 1 && lines[..|old(lines)|] == old(lines)
    {
      lines := lines + [line];
      assert lines[..|old(lines)|] == old(lines);
    }

    /**
     * Saves the ledger: the file is overwritten, whatever it held before,
     * with the text of every line; the ledger itself is unchanged.
     */
    method Persist()
      modifies this`file
      ensures file == FileText(lines)
    {
      file := WriteLines(lines);
    }
  }
}
