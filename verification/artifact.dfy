/** The flattened artifact of one document and `save_cleaned_data`, which
    writes it as text: a header, the paragraphs one per line, a blank line
    and a `Tables:` header, then every table as its tab-separated rows
    followed by a blank line. The file write is modelled as the string
    written. `Parse` reads that layout back. */
module Artifact {
  import opened Wrappers
  import opened Strings

  type Row = seq<string>
  type Table = seq<Row>

  /** The paragraph texts and the tables of one document, in document
      order. */
  datatype Artifact = Artifact(text: seq<string>, tables: seq<Table>)

  const TextHeader := "Text Content:\n"
  const TablesHeader := "\n\nTables:\n"

  function RowLine(row: Row): string
  {
    Join("\t", row)
  }

  /** What the loop writes for one table: each row's line ended by a
      newline, then one more newline. */
  function TableText(t: Table): (r: string)
    ensures |r| > 0 && r[|r| - 1] == '\n'
  {
    if |t| == 0 then "\n" else RowLine(t[0]) + "\n" + TableText(t[1..])
  }

  function TablesText(ts: seq<Table>): (r: string)
    ensures |ts| > 0 ==> |r| > 0 && r[|r| - 1] == '\n'
  {
    if |ts| == 0 then "" else TableText(ts[0]) + TablesText(ts[1..])
  }

  /** `save_cleaned_data(text, tables, ...)`: the string written to the
      file. */
  function Save(a: Artifact): (r: string)
    ensures TextHeader <= r
    ensures r[|r| - 1] == '\n'
  {
    TextHeader + Join("\n", a.text) + TablesHeader + TablesText(a.tables)
  }

  function TotalRows(ts: seq<Table>): nat
  {
    if |ts| == 0 then 0 else |ts[0]| + TotalRows(ts[1..])
  }

  // ---------------------------------------------------------------------
  // Reading the artifact back

  /** The first empty line, if any. */
  function FirstEmptyLine(lines: seq<string>, from: nat): (r: Option<nat>)
    decreases |lines| - from
    ensures r.Some? ==> from <= r.value < |lines| && lines[r.value] == ""
    ensures r.Some? ==> forall k :: from <= k < r.value ==> lines[k] != ""
    ensures r.None? ==> forall k :: from <= k < |lines| ==> lines[k] != ""
  {
    if from >= |lines| then None
    else if lines[from] == "" then Some(from)
    else FirstEmptyLine(lines, from + 1)
  }

  /** The lines of the tables section, split into tables at empty lines and
      into cells at tabs. Every table must be closed by an empty line. */
  function ParseTables(lines: seq<string>): Option<seq<Table>>
    decreases |lines|
  {
    if |lines| == 0 then Some([])
    else
      match FirstEmptyLine(lines, 0)
      case None => None
      case Some(j) =>
        var t := SplitRows(lines[..j]);
        match ParseTables(lines[j + 1..])
        case None => None
        case Some(rest) => Some([t] + rest)
  }

  /** Every line split into its cells at tabs. */
  function SplitRows(lines: seq<string>): (r: seq<Row>)
    ensures |r| == |lines|
    ensures forall k :: 0 <= k < |lines| ==> r[k] == Split(lines[k], '\t')
  {
    seq(|lines|, k requires 0 <= k < |lines| => Split(lines[k], '\t'))
  }

  /** Reads a saved artifact: the text header, the paragraphs up to the first
      tables header, and the newline-terminated tables section. */
  function Parse(s: string): Option<Artifact>
  {
    if |s| < |TextHeader| || s[..|TextHeader|] != TextHeader then None
    else
      var rest := s[|TextHeader|..];
      match FindFrom(rest, TablesHeader, 0)
      case None => None
      case Some(k) =>
        var body := rest[..k];
        var text := if body == "" then [] else Split(body, '\n');
        var lines := Split(rest[k + |TablesHeader|..], '\n');
        if lines[|lines| - 1] != "" then None
        else
          match ParseTables(lines[..|lines| - 1])
          case None => None
          case Some(tables) => Some(Artifact(text, tables))
  }

  /** A paragraph that survives the round trip: non-empty, on one line. */
  predicate ParagraphOk(p: string)
  {
    p != "" && '\n' !in p
  }

  /** A row that survives the round trip: its line is not empty (it has a
      cell and is not one empty cell) and no cell holds a tab or newline. */
  predicate RowOk(row: Row)
  {
    && |row| > 0 && row != [""]
    && forall c :: 0 <= c < |row| ==> '\t' !in row[c] && '\n' !in row[c]
  }

  predicate TableOk(t: Table)
  {
    forall r :: 0 <= r < |t| ==> RowOk(t[r])
  }

  predicate Savable(a: Artifact)
  {
    && (forall i :: 0 <= i < |a.text| ==> ParagraphOk(a.text[i]))
    && (forall i :: 0 <= i < |a.tables| ==> TableOk(a.tables[i]))
  }

  // ---------------------------------------------------------------------
  // Properties of the layout

  function RowLines(t: Table): (r: seq<string>)
    ensures |r| == |t|
    ensures forall k :: 0 <= k < |t| ==> r[k] == RowLine(t[k])
  {
    seq(|t|, k requires 0 <= k < |t| => RowLine(t[k]))
  }

  /** The tables section as lines: each table's row lines then an empty
      line. */
  function TableLines(ts: seq<Table>): seq<string>
  {
    if |ts| == 0 then [] else RowLines(ts[0]) + [""] + TableLines(ts[1..])
  }

  lemma {:induction false} TableTextIsLines(t: Table)
    ensures TableText(t) == Terminated(RowLines(t) + [""])
  {
    if |t| > 0 {
      TableTextIsLines(t[1..]);
      assert RowLines(t) + [""] == [RowLine(t[0])] + (RowLines(t[1..]) + [""]);
    }
  }

  lemma {:induction false} TablesTextIsLines(ts: seq<Table>)
    ensures TablesText(ts) == Terminated(TableLines(ts))
  {
    if |ts| > 0 {
      TablesTextIsLines(ts[1..]);
      TableTextIsLines(ts[0]);
      TerminatedAppend(RowLines(ts[0]) + [""], TableLines(ts[1..]));
    }
  }

  /** With no newline inside a cell, the tables section holds one newline per
      row and one per table. */
  lemma {:induction false} TablesNewlineCount(ts: seq<Table>)
    requires forall i, r, c :: 0 <= i < |ts| && 0 <= r < |ts[i]| && 0 <= c < |ts[i][r]| ==> '\n' !in ts[i][r][c]
    ensures CountChar(TablesText(ts), '\n') == TotalRows(ts) + |ts|
  {
    if |ts| > 0 {
      TableNewlineCount(ts[0]);
      TablesNewlineCount(ts[1..]);
      CountCharAppend(TableText(ts[0]), TablesText(ts[1..]), '\n');
    }
  }

  lemma {:induction false} TableNewlineCount(t: Table)
    requires forall r, c :: 0 <= r < |t| && 0 <= c < |t[r]| ==> '\n' !in t[r][c]
    ensures CountChar(TableText(t), '\n') == |t| + 1
  {
    if |t| > 0 {
      TableNewlineCount(t[1..]);
      JoinAvoids("\t", t[0], '\n');
      CountCharAbsent(RowLine(t[0]), '\n');
      CountCharAppend(RowLine(t[0]), "\n", '\n');
      CountCharAppend(RowLine(t[0]) + "\n", TableText(t[1..]), '\n');
    }
  }

  lemma {:induction false} ParseTableLines(ts: seq<Table>)
    requires forall i :: 0 <= i < |ts| ==> TableOk(ts[i])
    ensures ParseTables(TableLines(ts)) == Some(ts)
  {
    if |ts| > 0 {
      var t := ts[0];
      var lines := TableLines(ts);
      forall r | 0 <= r < |t|
        ensures RowLine(t[r]) != "" && Split(RowLine(t[r]), '\t') == t[r]
      {
        assert RowOk(t[r]);
        JoinEmpty("\t", t[r]);
        SplitJoin(t[r], '\t');
      }
      assert FirstEmptyLine(lines, 0) == Some(|t|) by {
        assert lines[|t|] == "";
      }
      assert lines[|t| + 1..] == TableLines(ts[1..]);
      ParseTableLines(ts[1..]);
      assert SplitRows(lines[..|t|]) == t;
      assert [t] + ts[1..] == ts;
    }
  }

  /** The tables header first occurs right after the paragraphs. */
  lemma HeaderFoundAfterText(j: string, tail: string)
    requires NoBlankLine(j)
    ensures FindFrom(j + TablesHeader + tail, TablesHeader, 0) == Some(|j|)
  {
    var s := j + TablesHeader + tail;
    assert s[|j|..|j| + |TablesHeader|] == TablesHeader;
    assert OccursAt(s, TablesHeader, |j|);
    forall k | 0 <= k < |j|
      ensures !OccursAt(s, TablesHeader, k)
    {
      assert s[k] == j[k];
      if k + 1 < |j| {
        assert s[k + 1] == j[k + 1];
      }
    }
  }

  /** Reading a saved artifact gives it back, when every paragraph is one
      non-empty line and every row is a non-empty line of tab-free,
      newline-free cells. */
  lemma RoundTrip(a: Artifact)
    requires Savable(a)
    ensures Parse(Save(a)) == Some(a)
  {
    var j := Join("\n", a.text);
    var section := TablesText(a.tables);
    var s := Save(a);
    assert s[..|TextHeader|] == TextHeader;
    var rest := s[|TextHeader|..];
    assert rest == j + TablesHeader + section;
    JoinHasNoBlankLine(a.text);
    HeaderFoundAfterText(j, section);
    assert rest[..|j|] == j;
    assert rest[|j| + |TablesHeader|..] == section;
    // the paragraphs
    JoinEmpty("\n", a.text);
    if |a.text| > 0 {
      assert a.text != [""] by {
        assert ParagraphOk(a.text[0]);
      }
      SplitJoin(a.text, '\n');
    }
    // the tables
    TablesTextIsLines(a.tables);
    TableLinesHaveNoNewline(a.tables);
    SplitTerminated(TableLines(a.tables));
    var lines := TableLines(a.tables) + [""];
    assert lines[..|lines| - 1] == TableLines(a.tables);
    ParseTableLines(a.tables);
  }

  lemma {:induction false} TableLinesHaveNoNewline(ts: seq<Table>)
    requires forall i :: 0 <= i < |ts| ==> TableOk(ts[i])
    ensures forall k :: 0 <= k < |TableLines(ts)| ==> '\n' !in TableLines(ts)[k]
  {
    if |ts| > 0 {
      TableLinesHaveNoNewline(ts[1..]);
      forall r | 0 <= r < |ts[0]|
        ensures '\n' !in RowLine(ts[0][r])
      {
        assert RowOk(ts[0][r]);
        JoinAvoids("\t", ts[0][r], '\n');
      }
    }
  }

  /** A row whose cells were all empty, which the flattener keeps, is saved
      as an empty line and read back as the end of its table: the table
      comes back split in two. */
  lemma EmptyRowSplitsTable()
    ensures Parse(Save(Artifact([], [[[], ["a"]]]))) == Some(Artifact([], [[], [["a"]]]))
  {
    var ts: seq<Table> := [[[], ["a"]]];
    var section := TablesText(ts);
    TablesTextIsLines(ts);
    var lines := TableLines(ts);
    assert RowLine(["a"]) == "a";
    assert lines == ["", "a", ""] by {
      assert TableLines(ts[1..]) == [];
      assert RowLines(ts[0]) == ["", "a"];
    }
    SplitTerminated(lines);
    HeaderFoundAfterText("", section);
    var s := Save(Artifact([], ts));
    assert s[..|TextHeader|] == TextHeader;
    var rest := s[|TextHeader|..];
    assert rest == TablesHeader + section;
    assert rest[|TablesHeader|..] == section;
    assert Split("a", '\t') == ["a"] by {
      SplitWhole("a", '\t');
    }
    assert ParseTables(["a", ""]) == Some([[["a"]]]) by {
      var l2: seq<string> := ["a", ""];
      assert FirstEmptyLine(l2, 0) == Some(1);
      assert l2[2..] == [];
      var t := SplitRows(l2[..1]);
      assert t == [["a"]];
      var want: seq<Table> := [[["a"]]];
      assert [t] + [] == want;
    }
    assert ParseTables(lines) == Some([[], [["a"]]]) by {
      assert FirstEmptyLine(lines, 0) == Some(0);
      assert lines[1..] == ["a", ""];
      var t: Table := [];
      var want: seq<Table> := [[], [["a"]]];
      assert [t] + [[["a"]]] == want;
    }
    assert (lines + [""])[..|lines + [""]| - 1] == lines;
  }
}
