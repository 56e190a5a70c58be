/**
 * The table view of display_contacts (app.py): a header row, a rule of dashes
 * and one row per record, every cell padded to a fixed display width. The
 * scrolled text widget is modelled as the sequence of texts inserted into
 * it, one per `insert`, each without its final newline. A field holding a
 * newline of its own is not split into several lines.
 */
module Render {
  import opened Width
  import opened Parse

  const Headers: seq<string> := ["姓名", "分機", "Email"]
  const Widths: seq<int> := [20, 20, 30]

  function Sum(ws: seq<int>): int {
    if ws == [] then 0 else ws[0] + Sum(ws[1..])
  }

  /** `''.join(pad_to_width(cell, width) for cell, width in zip(cells, widths))`. */
  function JoinPadded(isWide: WideTable, cells: seq<string>, widths: seq<int>): string {
    if cells == [] || widths == [] then []
    else PadToWidth(isWide, cells[0], widths[0]) + JoinPadded(isWide, cells[1..], widths[1..])
  }

  /** Every cell fits the column it is put in. */
  predicate CellsFit(isWide: WideTable, cells: seq<string>, widths: seq<int>) {
    |cells| == |widths| && forall i :: 0 <= i < |cells| ==> DisplayWidth(isWide, cells[i]) <= widths[i]
  }

  /** A row of cells that fit their columns is exactly as wide as the columns
      together; a cell too wide pushes the rest of its row to the right. */
  lemma {:induction false} JoinPaddedWidth(isWide: WideTable, cells: seq<string>, widths: seq<int>)
    requires |cells| == |widths|
    ensures DisplayWidth(isWide, JoinPadded(isWide, cells, widths)) >= Sum(widths)
    ensures CellsFit(isWide, cells, widths) ==> DisplayWidth(isWide, JoinPadded(isWide, cells, widths)) == Sum(widths)
  {
    if cells != [] {
      JoinPaddedWidth(isWide, cells[1..], widths[1..]);
      WidthAppend(isWide, PadToWidth(isWide, cells[0], widths[0]), JoinPadded(isWide, cells[1..], widths[1..]));
      if CellsFit(isWide, cells, widths) {
        assert CellsFit(isWide, cells[1..], widths[1..]) by {
          forall i | 0 <= i < |cells| - 1
            ensures DisplayWidth(isWide, cells[1..][i]) <= widths[1..][i]
          {
            assert cells[1..][i] == cells[i + 1] && widths[1..][i] == widths[i + 1];
          }
        }
      }
    }
  }

  function HeaderLine(isWide: WideTable): string {
    JoinPadded(isWide, Headers, Widths)
  }

  /** `"-" * sum(widths)`. */
  function Separator(): string {
    Repeat('-', Sum(Widths))
  }

  function FormatRow(isWide: WideTable, c: Contact): string {
    JoinPadded(isWide, [c.name, c.ext, c.email], Widths)
  }

  /** One formatted row per record, in input order. */
  function Rows(isWide: WideTable, results: seq<Contact>): (r: seq<string>)
    ensures |r| == |results|
    ensures forall i :: 0 <= i < |r| ==> r[i] == FormatRow(isWide, results[i])
  {
    if results == [] then [] else [FormatRow(isWide, results[0])] + Rows(isWide, results[1..])
  }

  /** Everything display_contacts leaves in the text widget, one inserted text per line written. */
  function Rendered(isWide: WideTable, results: seq<Contact>): seq<string> {
    [HeaderLine(isWide), Separator()] + Rows(isWide, results)
  }

  /** The layout: `2 + |results|` inserted texts; a header; a rule of exactly
      70 dashes; then the row of record i as text i + 2. */
  lemma RenderedShape(isWide: WideTable, results: seq<Contact>)
    ensures var lines := Rendered(isWide, results);
      && |lines| == 2 + |results|
      && lines[0] == HeaderLine(isWide)
      && |lines[1]| == 70 && AllChar(lines[1], '-')
      && forall i :: 0 <= i < |results| ==> lines[i + 2] == FormatRow(isWide, results[i])
  {
    assert Sum(Widths) == 70;
  }

  /** A row is the record's name, extension and address, each padded to its
      column: 20, 20 and 30 cells. */
  lemma RowCells(isWide: WideTable, c: Contact)
    ensures FormatRow(isWide, c)
      == PadToWidth(isWide, c.name, 20) + PadToWidth(isWide, c.ext, 20) + PadToWidth(isWide, c.email, 30)
  {
    var cells := [c.name, c.ext, c.email];
    assert cells[1..] == [c.ext, c.email] && cells[1..][1..] == [c.email];
    assert Widths[1..] == [20, 30] && Widths[1..][1..] == [30];
    assert [c.email][1..] == [] && [30][1..] == [];
    var last := JoinPadded(isWide, [c.email], [30]);
    assert last == PadToWidth(isWide, c.email, 30) + JoinPadded(isWide, [], []);
    assert JoinPadded(isWide, [c.ext, c.email], [20, 30]) == PadToWidth(isWide, c.ext, 20) + last;
  }

  /** The rule under the header is 70 cells wide. */
  lemma SeparatorWidth(isWide: WideTable)
    ensures DisplayWidth(isWide, Separator()) == 70
  {
    assert Sum(Widths) == 70;
    NarrowRunWidth(isWide, Separator(), '-');
  }

  /** Each title fits its column, whatever the width table says of the two
      ideographs, so the header is exactly as wide as the rule. */
  lemma HeaderWidth(isWide: WideTable)
    ensures DisplayWidth(isWide, HeaderLine(isWide)) == 70
  {
    assert Sum(Widths) == 70;
    assert |Headers[0]| == 2 && |Headers[1]| == 2 && |Headers[2]| == 5;
    assert CellsFit(isWide, Headers, Widths);
    JoinPaddedWidth(isWide, Headers, Widths);
  }

  /** A row never falls short of the rule, and a row whose cells fit their
      columns is exactly as wide as it, so the columns line up. */
  lemma RowWidth(isWide: WideTable, c: Contact)
    ensures DisplayWidth(isWide, FormatRow(isWide, c)) >= 70
    ensures DisplayWidth(isWide, c.name) <= 20 && DisplayWidth(isWide, c.ext) <= 20
        && DisplayWidth(isWide, c.email) <= 30
        <==> DisplayWidth(isWide, FormatRow(isWide, c)) == 70
  {
    var a, b, d := PadToWidth(isWide, c.name, 20), PadToWidth(isWide, c.ext, 20), PadToWidth(isWide, c.email, 30);
    assert DisplayWidth(isWide, FormatRow(isWide, c))
        == DisplayWidth(isWide, a) + DisplayWidth(isWide, b) + DisplayWidth(isWide, d) by {
      RowCells(isWide, c);
      WidthAppend(isWide, a, b);
      WidthAppend(isWide, a + b, d);
    }
  }

  /** The scrolled text widget, as the texts inserted into it. */
  class OutputText {
    var lines: seq<string>

    constructor ()
      ensures lines == []
    {
      lines := [];
    }

    /** `delete("1.0", tk.END)`. */
    method Clear()
      modifies this
      ensures lines == []
    {
      lines := [];
    }

    /** `insert(tk.END, line + "\n")`. */
    method Insert(line: string)
      modifies this
      ensures lines == old(lines) + [line]
    {
      lines := lines + [line];
    }
  }

  /** Extending a prefix of `s` by one element is appending that element. */
  lemma PrefixSnoc<T>(head: seq<T>, s: seq<T>, i: int)
    requires 0 <= i < |s|
    ensures head + s[..i + 1] == head + s[..i] + [s[i]]
  {
    assert s[..i + 1] == s[..i] + [s[i]];
  }

  /** The empty prefix adds nothing, and the full prefix is the whole. */
  lemma PrefixEnds<T>(head: seq<T>, s: seq<T>)
    ensures head + s[..0] == head
    ensures head + s[..|s|] == head + s
  {
    assert s[..0] == [] && s[..|s|] == s;
  }

  /** display_contacts: clears the widget, then writes the header, the rule and
      one row per record. */
  method DisplayContacts(isWide: WideTable, results: seq<Contact>, output: OutputText)
    modifies output
    ensures output.lines == Rendered(isWide, results)
  {
    var header, rule := HeaderLine(isWide), Separator();
    ghost var rows := Rows(isWide, results);
    output.Clear();
    output.Insert(header);
    output.Insert(rule);
    PrefixEnds([header, rule], rows);
    var i := 0;
    while i < |results|
      invariant 0 <= i <= |results|
      invariant output.lines == [header, rule] + rows[..i]
    {
      output.Insert(FormatRow(isWide, results[i]));
      PrefixSnoc([header, rule], rows, i);
      i := i + 1;
    }
  }
}
