/** `exportToCSV`: a header line with nine column names, then one line per
    record, cells joined with ',' and lines with '\n', nothing quoted. The
    partner of the serialiser is `Split` (`String.prototype.split`): when no
    cell holds a separator, splitting the text gives back the lines and cells. */
module CsvExport {
  import opened Records

  /** `parts.join([sep])` */
  function Join(parts: seq<string>, sep: char): (r: string)
    ensures parts != [] ==> |parts[0]| <= |r| && r[..|parts[0]|] == parts[0]
    decreases |parts|
  {
    if parts == [] then ""
    else if |parts| == 1 then parts[0]
    else parts[0] + [sep] + Join(parts[1..], sep)
  }

  /** `s.split(sep)`: the pieces between separators; there is always at least one. */
  function Split(s: string, sep: char): (r: seq<string>)
    ensures |r| >= 1
    decreases |s|
  {
    if s == [] then [""]
    else
      var rest := Split(s[1..], sep);
      if s[0] == sep then [""] + rest
      else [[s[0]] + rest[0]] + rest[1..]
  }

  lemma {:induction false} SplitWithoutSep(a: string, sep: char)
    requires sep !in a
    ensures Split(a, sep) == [a]
    decreases |a|
  {
    if a != [] {
      SplitWithoutSep(a[1..], sep);
      assert [a[0]] + a[1..] == a;
    }
  }

  lemma {:induction false} SplitAfterPiece(a: string, b: string, sep: char)
    requires sep !in a
    ensures Split(a + [sep] + b, sep) == [a] + Split(b, sep)
    decreases |a|
  {
    var s := a + [sep] + b;
    if a == [] {
      assert s[1..] == b;
    } else {
      assert s[1..] == a[1..] + [sep] + b;
      SplitAfterPiece(a[1..], b, sep);
      assert [a[0]] + a[1..] == a;
    }
  }

  /** Splitting a join gives back its parts, when no part holds the separator. */
  lemma {:induction false} SplitJoin(parts: seq<string>, sep: char)
    requires |parts| >= 1
    requires forall i :: 0 <= i < |parts| ==> sep !in parts[i]
    ensures Split(Join(parts, sep), sep) == parts
    decreases |parts|
  {
    if |parts| == 1 {
      SplitWithoutSep(parts[0], sep);
    } else {
      SplitJoin(parts[1..], sep);
      SplitAfterPiece(parts[0], Join(parts[1..], sep), sep);
      assert [parts[0]] + parts[1..] == parts;
    }
  }

  /** A character that no part holds and that is not the separator is not in the join. */
  lemma {:induction false} JoinAvoids(parts: seq<string>, sep: char, c: char)
    requires c != sep
    requires forall i :: 0 <= i < |parts| ==> c !in parts[i]
    ensures c !in Join(parts, sep)
    decreases |parts|
  {
    if |parts| > 1 {
      JoinAvoids(parts[1..], sep, c);
    }
  }

  const Header: seq<string> := [
    "id", "step1_who_element", "step2_where_parent", "step3a_category", "step3b_subcategory",
    "step4_condition_type", "step4_condition_value", "step5_action", "step6_output"]

  /** The nine cells of a record, in the column order of the header. */
  function Cells(h: Heuristic): (r: seq<string>)
    ensures |r| == |Header| == 9
  {
    [h.id, h.fields.element, h.fields.parent, h.fields.category, h.fields.subcategory,
     h.fields.conditionType, h.fields.conditionValue, h.fields.action, h.fields.output]
  }

  function Rows(hs: seq<Heuristic>): (r: seq<string>)
    ensures |r| == |hs|
  {
    seq(|hs|, i requires 0 <= i < |hs| => Join(Cells(hs[i]), ','))
  }

  /** The export opens with the header line and, with no records, is that line alone. */
  function ExportCsv(hs: seq<Heuristic>): (r: string)
    ensures |Join(Header, ',')| <= |r| && r[..|Join(Header, ',')|] == Join(Header, ',')
    ensures hs == [] ==> r == Join(Header, ',')
  {
    Join([Join(Header, ',')] + Rows(hs), '\n')
  }

  /** No cell of any record holds `c`. */
  predicate CellsAvoid(hs: seq<Heuristic>, c: char) {
    forall i, k :: 0 <= i < |hs| && 0 <= k < 9 ==> c !in Cells(hs[i])[k]
  }

  lemma {:induction false} HeaderLineAvoidsBreak()
    ensures '\n' !in Join(Header, ',')
  {
    forall i | 0 <= i < |Header| ensures '\n' !in Header[i] {
      var name := Header[i];
      assert forall k :: 0 <= k < |name| ==> name[k] != '\n';
    }
    JoinAvoids(Header, ',', '\n');
  }

  lemma {:induction false} RowsAvoid(hs: seq<Heuristic>, c: char)
    requires CellsAvoid(hs, c) && c != ','
    ensures forall i :: 0 <= i < |hs| ==> c !in Rows(hs)[i]
  {
    var rows := Rows(hs);
    forall i | 0 <= i < |hs| ensures c !in rows[i] {
      JoinAvoids(Cells(hs[i]), ',', c);
    }
  }

  /** When no cell holds a line break, the export has exactly one line more than
      there are records: the header line, then each record's line in order. */
  lemma {:induction false} ExportLines(hs: seq<Heuristic>)
    requires CellsAvoid(hs, '\n')
    ensures var lines := Split(ExportCsv(hs), '\n');
      && |lines| == 1 + |hs|
      && lines[0] == Join(Header, ',')
      && forall i :: 0 <= i < |hs| ==> lines[i + 1] == Join(Cells(hs[i]), ',')
  {
    RowsAvoid(hs, '\n');
    HeaderLineAvoidsBreak();
    LinesSplit(Join(Header, ','), Rows(hs));
  }

  lemma {:induction false} LinesSplit(header: string, rows: seq<string>)
    requires '\n' !in header
    requires forall i :: 0 <= i < |rows| ==> '\n' !in rows[i]
    ensures Split(Join([header] + rows, '\n'), '\n') == [header] + rows
  {
    SplitJoin([header] + rows, '\n');
  }

  /** The header line splits back into the column names. */
  lemma {:induction false} HeaderSplits()
    ensures Split(Join(Header, ','), ',') == Header
  {
    forall i | 0 <= i < |Header| ensures ',' !in Header[i] {
      var name := Header[i];
      assert forall k :: 0 <= k < |name| ==> name[k] != ',';
    }
    SplitJoin(Header, ',');
  }

  /** A record line splits back into its cells, when no cell holds ','. */
  lemma {:induction false} RowSplits(h: Heuristic)
    requires forall k :: 0 <= k < 9 ==> ',' !in Cells(h)[k]
    ensures Split(Join(Cells(h), ','), ',') == Cells(h)
  {
    SplitJoin(Cells(h), ',');
  }

  /** When no cell holds ',' or a line break, every line of the export splits
      back into nine cells: the column names, then each record's cells. */
  lemma {:induction false} ExportCells(hs: seq<Heuristic>)
    requires CellsAvoid(hs, '\n') && CellsAvoid(hs, ',')
    ensures var lines := Split(ExportCsv(hs), '\n');
      && |lines| == 1 + |hs|
      && Split(lines[0], ',') == Header
      && forall i :: 0 <= i < |hs| ==> Split(lines[i + 1], ',') == Cells(hs[i])
  {
    ExportLines(hs);
    HeaderSplits();
    forall i | 0 <= i < |hs| ensures Split(Join(Cells(hs[i]), ','), ',') == Cells(hs[i]) {
      RowSplits(hs[i]);
    }
  }
}
