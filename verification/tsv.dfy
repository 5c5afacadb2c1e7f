/** Tab-separated clipboard text, shared by the two table exporters: cells are
    joined by TAB, lines by LF, and TAB or LF inside a cell becomes a space. */
module Tsv {
  import opened Text

  predicate IsSeparator(c: char) {
    c == '\t' || c == '\n'
  }

  /** A cell that can be placed in a table without breaking its layout. */
  predicate Clean(cell: string) {
    '\t' !in cell && '\n' !in cell
  }

  predicate AllClean(cells: seq<string>) {
    forall k :: 0 <= k < |cells| ==> Clean(cells[k])
  }

  lemma AllCleanConcat(a: seq<string>, b: seq<string>)
    requires AllClean(a) && AllClean(b)
    ensures AllClean(a + b)
  {
    assert forall k :: |a| <= k < |a + b| ==> (a + b)[k] == b[k - |a|];
  }

  /** `String(v).replace(/\t|\n/g, " ")`: every TAB and every LF becomes one
      space and every other character, CR included, is kept. */
  function ReplaceSeparators(s: string): (r: string)
    ensures Clean(r)
    ensures |r| == |s|
    ensures forall i :: 0 <= i < |s| && !IsSeparator(s[i]) ==> r[i] == s[i]
    ensures forall i :: 0 <= i < |s| && IsSeparator(s[i]) ==> r[i] == ' '
  {
    if |s| == 0 then ""
    else
      var rest := ReplaceSeparators(s[1..]);
      (if IsSeparator(s[0]) then " " else [s[0]]) + rest
  }

  /** A cell that is already clean is exported as it is. */
  lemma ReplaceSeparatorsKeepsClean(s: string)
    requires Clean(s)
    ensures ReplaceSeparators(s) == s
  {
  }

  function Line(cells: seq<string>): string {
    Join(cells, "\t")
  }

  /** `[headers.join("\t"), ...rows].join("\n")`. */
  function Encode(header: seq<string>, rows: seq<seq<string>>): (text: string)
    ensures StartsWith(text, Line(header))
    ensures |rows| == 0 ==> text == Line(header)
  {
    Join([Line(header)] + seq(|rows|, k requires 0 <= k < |rows| => Line(rows[k])), "\n")
  }

  /** How a spreadsheet reads the text back: lines on LF, cells on TAB. */
  function Decode(text: string): seq<seq<string>> {
    var lines := Split(text, '\n');
    seq(|lines|, k requires 0 <= k < |lines| => Split(lines[k], '\t'))
  }

  /** A header and rows of `n` clean cells each form a table of `n` clean cells
      per line, with one line more than there are rows. */
  lemma TableClean(header: seq<string>, rows: seq<seq<string>>, n: nat)
    requires |header| == n && AllClean(header)
    requires forall k :: 0 <= k < |rows| ==> |rows[k]| == n && AllClean(rows[k])
    ensures var table := [header] + rows;
      && |table| == |rows| + 1
      && forall k :: 0 <= k < |table| ==> |table[k]| == n && AllClean(table[k])
  {
    var table := [header] + rows;
    assert forall k :: 0 < k < |table| ==> table[k] == rows[k - 1];
  }

  lemma LineIsClean(cells: seq<string>)
    requires AllClean(cells)
    ensures '\n' !in Line(cells)
  {
    JoinExcludes(cells, "\t", '\n');
  }

  lemma LineCells(cells: seq<string>)
    requires |cells| >= 1 && AllClean(cells)
    ensures Split(Line(cells), '\t') == cells
  {
    SplitJoin(cells, '\t');
  }

  /** Round trip: reading the text back gives the header followed by the rows,
      cell for cell, so the text has one line per row plus the header line. */
  lemma EncodeDecode(header: seq<string>, rows: seq<seq<string>>)
    requires |header| >= 1 && AllClean(header)
    requires forall k :: 0 <= k < |rows| ==> |rows[k]| >= 1 && AllClean(rows[k])
    ensures Decode(Encode(header, rows)) == [header] + rows
  {
    var lines := [Line(header)] + seq(|rows|, k requires 0 <= k < |rows| => Line(rows[k]));
    var table := [header] + rows;
    assert |lines| == |table|;
    forall k | 0 <= k < |lines|
      ensures '\n' !in lines[k] && Split(lines[k], '\t') == table[k]
    {
      LineIsClean(table[k]);
      LineCells(table[k]);
    }
    SplitJoin(lines, '\n');
  }
}
