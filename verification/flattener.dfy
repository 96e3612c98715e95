/** `extract_text_with_tables`: a pre-order walk over a parsed document that
    collects the non-empty text of every `p` element and, for every `table`
    element, the non-empty cell texts of each of its `tr` descendants. The
    parsed document is an abstract tree; the two text extractions of the
    markup library are parameters: `paraText` stands for
    `get_text(strip=True)` and `cellText` for `.text.strip()`. */
module Flattener {
  import opened Wrappers
  import opened Artifact

  /** An element with its tag name and children, or a text node (which has
      no tag name). */
  datatype Node = Element(name: string, children: seq<Node>) | Text(content: string)

  function Children(n: Node): seq<Node>
  {
    match n
    case Element(_, kids) => kids
    case Text(_) => []
  }

  predicate IsNamed(n: Node, names: set<string>)
  {
    n.Element? && n.name in names
  }

  /** `recursiveChildGenerator` over a forest: every node, each one before
      its descendants and after everything earlier in the document. */
  function Walk(ns: seq<Node>): (r: seq<Node>)
    ensures |ns| <= |r|
    ensures |ns| > 0 ==> r[0] == ns[0]
    ensures forall k :: 0 <= k < |ns| ==> ns[k] in r
    decreases ns
  {
    if |ns| == 0 then []
    else
      match ns[0]
      case Element(_, kids) => [ns[0]] + Walk(kids) + Walk(ns[1..])
      case Text(_) => [ns[0]] + Walk(ns[1..])
  }

  /** The nodes of a sequence whose tag is one of `names`, in order. */
  function Named(ns: seq<Node>, names: set<string>): (r: seq<Node>)
    ensures forall k :: 0 <= k < |r| ==> IsNamed(r[k], names)
    ensures forall m :: m in r <==> m in ns && IsNamed(m, names)
  {
    if |ns| == 0 then []
    else
      var init := Named(ns[..|ns| - 1], names);
      if IsNamed(ns[|ns| - 1], names) then init + [ns[|ns| - 1]] else init
  }

  /** `n.find_all(names)`: the descendants of `n` (not `n` itself) with one
      of the tags, in document order. */
  function FindAll(n: Node, names: set<string>): (r: seq<Node>)
    ensures forall m :: m in r <==> m in Walk(Children(n)) && IsNamed(m, names)
  {
    Named(Walk(Children(n)), names)
  }

  /** `[ele for ele in cols if ele]`: the non-empty strings, in order. */
  function NonEmpty(xs: seq<string>): (r: seq<string>)
    ensures |r| <= |xs|
    ensures forall k :: 0 <= k < |r| ==> r[k] != ""
    ensures forall x :: x in r <==> x in xs && x != ""
  {
    if |xs| == 0 then []
    else
      var init := NonEmpty(xs[..|xs| - 1]);
      var x := xs[|xs| - 1];
      assert xs == xs[..|xs| - 1] + [x];
      if x != "" then init + [x] else init
  }

  function CellTexts(cells: seq<Node>, cellText: Node -> string): (r: seq<string>)
    ensures |r| == |cells|
    ensures forall k :: 0 <= k < |cells| ==> r[k] == cellText(cells[k])
  {
    seq(|cells|, k requires 0 <= k < |cells| => cellText(cells[k]))
  }

  /** One row: the non-empty trimmed texts of the `td` and `th` cells below
      the `tr` element. */
  function RowOf(tr: Node, cellText: Node -> string): (r: Row)
    ensures forall c :: c in r <==>
      c != "" && exists k :: 0 <= k < |FindAll(tr, {"td", "th"})| && cellText(FindAll(tr, {"td", "th"})[k]) == c
  {
    NonEmpty(CellTexts(FindAll(tr, {"td", "th"}), cellText))
  }

  /** The rows of the `tr` elements `trs`, one each, in order. */
  function Rows(trs: seq<Node>, cellText: Node -> string): (r: Table)
    ensures |r| == |trs|
    ensures forall k :: 0 <= k < |r| ==> r[k] == RowOf(trs[k], cellText)
  {
    if |trs| == 0 then []
    else Rows(trs[..|trs| - 1], cellText) + [RowOf(trs[|trs| - 1], cellText)]
  }

  /** Extending the `tr` elements by one adds that element's row. */
  lemma RowsStep(trs: seq<Node>, j: int, cellText: Node -> string)
    requires 0 <= j < |trs|
    ensures Rows(trs[..j + 1], cellText) == Rows(trs[..j], cellText) + [RowOf(trs[j], cellText)]
  {
    assert trs[..j + 1][..j] == trs[..j];
  }

  /** One table: a row for every `tr` below the `table` element. */
  function TableOf(table: Node, cellText: Node -> string): (r: Table)
    ensures |r| == |FindAll(table, {"tr"})|
    ensures forall k :: 0 <= k < |r| ==> r[k] == RowOf(FindAll(table, {"tr"})[k], cellText)
    ensures |r| == TreeCount(Children(table), n => IsNamed(n, {"tr"}))
  {
    NamedCount(Walk(Children(table)), {"tr"});
    WalkCount(Children(table), n => IsNamed(n, {"tr"}));
    Rows(FindAll(table, {"tr"}), cellText)
  }

  predicate IsParagraph(n: Node, paraText: Node -> string)
  {
    IsNamed(n, {"p"}) && paraText(n) != ""
  }

  /** The text list the loop builds over the walked nodes `ns`. */
  function ParagraphTexts(ns: seq<Node>, paraText: Node -> string): (r: seq<string>)
    ensures forall k :: 0 <= k < |r| ==> r[k] != ""
  {
    if |ns| == 0 then []
    else
      var init := ParagraphTexts(ns[..|ns| - 1], paraText);
      var n := ns[|ns| - 1];
      if IsParagraph(n, paraText) then init + [paraText(n)] else init
  }

  /** The table list the loop builds over the walked nodes `ns`. */
  function TablesOf(ns: seq<Node>, cellText: Node -> string): seq<Table>
  {
    if |ns| == 0 then []
    else
      var init := TablesOf(ns[..|ns| - 1], cellText);
      var n := ns[|ns| - 1];
      if IsNamed(n, {"table"}) then init + [TableOf(n, cellText)] else init
  }

  /** `extract_text_with_tables(soup)`: the loop over the walk of the
      document's descendants. A `p` element with empty text falls through to
      the `table` test, which it fails. */
  method ExtractTextWithTables(soup: Node, paraText: Node -> string, cellText: Node -> string)
    returns (a: Artifact)
    ensures a.text == ParagraphTexts(Walk(Children(soup)), paraText)
    ensures a.tables == TablesOf(Walk(Children(soup)), cellText)
  {
    var walk := Walk(Children(soup));
    var textContent: seq<string> := [];
    var tableContent: seq<Table> := [];
    var i := 0;
    while i < |walk|
      invariant 0 <= i <= |walk|
      invariant textContent == ParagraphTexts(walk[..i], paraText)
      invariant tableContent == TablesOf(walk[..i], cellText)
    {
      var element := walk[i];
      assert walk[..i + 1][..i] == walk[..i];
      if element.Element? && element.name == "p" && paraText(element) != "" {
        textContent := textContent + [paraText(element)];
      } else if element.Element? && element.name == "table" {
        var table := ExtractTable(element, cellText);
        assert table == TableOf(element, cellText);
        tableContent := tableContent + [table];
      }
      i := i + 1;
    }
    assert walk[..i] == walk;
    return Artifact(textContent, tableContent);
  }

  /** The inner loop of `extract_text_with_tables` for one `table` element:
      one row per `tr` below it, in document order, each holding the
      non-empty cell texts of that `tr`. */
  method ExtractTable(element: Node, cellText: Node -> string) returns (table: Table)
    ensures table == Rows(FindAll(element, {"tr"}), cellText)
  {
    var rows := FindAll(element, {"tr"});
    table := [];
    var j := 0;
    while j < |rows|
      invariant 0 <= j <= |rows|
      invariant table == Rows(rows[..j], cellText)
    {
      var row := RowOf(rows[j], cellText);
      RowsStep(rows, j, cellText);
      table := table + [row];
      j := j + 1;
    }
    assert rows[..j] == rows;
  }

  // ---------------------------------------------------------------------
  // Counting over the tree

  /** How many nodes of a sequence satisfy `P`. */
  function FlatCount(ns: seq<Node>, P: Node -> bool): nat
  {
    if |ns| == 0 then 0 else FlatCount(ns[..|ns| - 1], P) + (if P(ns[|ns| - 1]) then 1 else 0)
  }

  /** How many nodes of a forest, at any depth, satisfy `P`. */
  function TreeCount(ns: seq<Node>, P: Node -> bool): nat
    decreases ns
  {
    if |ns| == 0 then 0
    else
      match ns[0]
      case Element(_, kids) => (if P(ns[0]) then 1 else 0) + TreeCount(kids, P) + TreeCount(ns[1..], P)
      case Text(_) => (if P(ns[0]) then 1 else 0) + TreeCount(ns[1..], P)
  }

  lemma {:induction false} FlatCountAppend(a: seq<Node>, b: seq<Node>, P: Node -> bool)
    ensures FlatCount(a + b, P) == FlatCount(a, P) + FlatCount(b, P)
    decreases |b|
  {
    if |b| == 0 {
      assert a + b == a;
    } else {
      assert (a + b)[..|a + b| - 1] == a + b[..|b| - 1];
      FlatCountAppend(a, b[..|b| - 1], P);
    }
  }

  /** The walk visits every node of the forest exactly once. */
  lemma {:induction false} WalkCount(ns: seq<Node>, P: Node -> bool)
    ensures FlatCount(Walk(ns), P) == TreeCount(ns, P)
    decreases ns
  {
    if |ns| > 0 {
      WalkCount(ns[1..], P);
      assert FlatCount([ns[0]], P) == (if P(ns[0]) then 1 else 0) by {
        assert [ns[0]][..0] == [];
      }
      match ns[0]
      case Element(_, kids) =>
        WalkCount(kids, P);
        FlatCountAppend([ns[0]], Walk(kids), P);
        FlatCountAppend([ns[0]] + Walk(kids), Walk(ns[1..]), P);
      case Text(_) =>
        FlatCountAppend([ns[0]], Walk(ns[1..]), P);
    }
  }

  lemma {:induction false} NamedCount(ns: seq<Node>, names: set<string>)
    ensures |Named(ns, names)| == FlatCount(ns, n => IsNamed(n, names))
  {
    if |ns| > 0 {
      NamedCount(ns[..|ns| - 1], names);
    }
  }

  /** The text list holds, in pre-order, the text of every `p` element whose
      text is non-empty: one entry per such element, each non-empty. */
  lemma {:induction false} ParagraphCount(ns: seq<Node>, paraText: Node -> string)
    ensures |ParagraphTexts(Walk(ns), paraText)| == TreeCount(ns, n => IsParagraph(n, paraText))
  {
    FlatParagraphCount(Walk(ns), paraText);
    WalkCount(ns, n => IsParagraph(n, paraText));
  }

  lemma {:induction false} FlatParagraphCount(ns: seq<Node>, paraText: Node -> string)
    ensures |ParagraphTexts(ns, paraText)| == FlatCount(ns, n => IsParagraph(n, paraText))
  {
    if |ns| > 0 {
      FlatParagraphCount(ns[..|ns| - 1], paraText);
    }
  }

  lemma {:induction false} FlatTableCount(ns: seq<Node>, cellText: Node -> string)
    ensures |TablesOf(ns, cellText)| == FlatCount(ns, n => IsNamed(n, {"table"}))
  {
    if |ns| > 0 {
      FlatTableCount(ns[..|ns| - 1], cellText);
    }
  }

  /** One table per `table` element at any depth, nested ones included. */
  lemma TableCount(ns: seq<Node>, cellText: Node -> string)
    ensures |TablesOf(Walk(ns), cellText)| == TreeCount(ns, n => IsNamed(n, {"table"}))
  {
    FlatTableCount(Walk(ns), cellText);
    WalkCount(ns, n => IsNamed(n, {"table"}));
  }

  /** One row per `tr` element anywhere below the table, nested tables'
      rows included. */
  lemma RowCount(table: Node, cellText: Node -> string)
    ensures |TableOf(table, cellText)| == TreeCount(Children(table), n => IsNamed(n, {"tr"}))
  {
    NamedCount(Walk(Children(table)), {"tr"});
    WalkCount(Children(table), n => IsNamed(n, {"tr"}));
  }

  /** A row is empty exactly when every one of its cells has empty text; it
      is kept in the table all the same. */
  lemma EmptyRow(tr: Node, cellText: Node -> string)
    ensures |RowOf(tr, cellText)| == 0 <==>
            forall c :: c in FindAll(tr, {"td", "th"}) ==> cellText(c) == ""
  {
    var cells := FindAll(tr, {"td", "th"});
    var texts := CellTexts(cells, cellText);
    var row := RowOf(tr, cellText);
    if |row| == 0 {
      forall c | c in cells
        ensures cellText(c) == ""
      {
        var k :| 0 <= k < |cells| && cells[k] == c;
        assert texts[k] in texts;
      }
    } else {
      assert row[0] in row;
    }
  }

  /** Dropping empty cells keeps the order of the others: it distributes
      over concatenation. */
  lemma {:induction false} NonEmptyAppend(a: seq<string>, b: seq<string>)
    ensures NonEmpty(a + b) == NonEmpty(a) + NonEmpty(b)
    decreases |b|
  {
    if |b| == 0 {
      assert a + b == a;
    } else {
      assert (a + b)[..|a + b| - 1] == a + b[..|b| - 1];
      NonEmptyAppend(a, b[..|b| - 1]);
    }
  }

  /** `find_all` keeps document order and each match once: selecting from a
      sequence split in two selects from each part, in order. */
  lemma {:induction false} NamedAppend(a: seq<Node>, b: seq<Node>, names: set<string>)
    ensures Named(a + b, names) == Named(a, names) + Named(b, names)
    decreases |b|
  {
    if |b| == 0 {
      assert a + b == a;
    } else {
      assert (a + b)[..|a + b| - 1] == a + b[..|b| - 1];
      NamedAppend(a, b[..|b| - 1], names);
    }
  }

  // ---------------------------------------------------------------------
  // The flattened document can be saved and read back

  predicate CellsNonEmpty(ts: seq<Table>)
  {
    forall i, r, c :: 0 <= i < |ts| && 0 <= r < |ts[i]| && 0 <= c < |ts[i][r]| ==> ts[i][r][c] != ""
  }

  /** Every cell the flattener emits is non-empty. */
  lemma {:induction false} TablesCellsNonEmpty(ns: seq<Node>, cellText: Node -> string)
    ensures CellsNonEmpty(TablesOf(ns, cellText))
  {
    if |ns| > 0 {
      var init := TablesOf(ns[..|ns| - 1], cellText);
      TablesCellsNonEmpty(ns[..|ns| - 1], cellText);
      var n := ns[|ns| - 1];
      if IsNamed(n, {"table"}) {
        var t := TableOf(n, cellText);
        var rows := FindAll(n, {"tr"});
        forall r, c | 0 <= r < |t| && 0 <= c < |t[r]|
          ensures t[r][c] != ""
        {
          assert t[r] == RowOf(rows[r], cellText);
        }
        var ts := init + [t];
        forall i, r, c | 0 <= i < |ts| && 0 <= r < |ts[i]| && 0 <= c < |ts[i][r]|
          ensures ts[i][r][c] != ""
        {
          if i < |init| {
            assert ts[i] == init[i];
          }
        }
      }
    }
  }

  predicate CleanText(s: string)
  {
    '\t' !in s && '\n' !in s
  }

  /** The walk below a walked node is part of the walk. */
  lemma {:induction false} WalkClosed(ns: seq<Node>, n: Node, m: Node)
    requires n in Walk(ns) && m in Walk(Children(n))
    ensures m in Walk(ns)
    decreases ns
  {
    var rest := Walk(ns[1..]);
    match ns[0]
    case Element(_, kids) =>
      assert Walk(ns) == [ns[0]] + Walk(kids) + rest;
      if n != ns[0] {
        if n in Walk(kids) {
          WalkClosed(kids, n, m);
        } else {
          WalkClosed(ns[1..], n, m);
        }
      }
    case Text(_) =>
      assert Walk(ns) == [ns[0]] + rest;
      if n != ns[0] {
        WalkClosed(ns[1..], n, m);
      }
  }

  lemma {:induction false} NamedSubset(ns: seq<Node>, names: set<string>, m: Node)
    requires m in Named(ns, names)
    ensures m in ns
  {
    if m != ns[|ns| - 1] {
      NamedSubset(ns[..|ns| - 1], names, m);
    }
  }

  /** Every table in the list is the table of a `table` node of the walk. */
  lemma {:induction false} TablesComeFromNodes(ns: seq<Node>, cellText: Node -> string, i: int)
    requires 0 <= i < |TablesOf(ns, cellText)|
    ensures exists n :: n in ns && IsNamed(n, {"table"}) && TablesOf(ns, cellText)[i] == TableOf(n, cellText)
  {
    var init := TablesOf(ns[..|ns| - 1], cellText);
    if i < |init| {
      TablesComeFromNodes(ns[..|ns| - 1], cellText, i);
      var n :| n in ns[..|ns| - 1] && IsNamed(n, {"table"}) && init[i] == TableOf(n, cellText);
      assert n in ns;
    } else {
      assert ns[|ns| - 1] in ns;
    }
  }

  /** Under the conditions of the round trip, the table of a walked `table`
      node can be saved. */
  lemma TableNodeOk(ns: seq<Node>, t: Node, cellText: Node -> string)
    requires t in Walk(ns)
    requires forall n :: n in Walk(ns) && IsNamed(n, {"td", "th"}) ==> CleanText(cellText(n))
    requires forall n :: n in Walk(ns) && IsNamed(n, {"tr"}) ==> |RowOf(n, cellText)| > 0
    ensures TableOk(TableOf(t, cellText))
  {
    var rows := FindAll(t, {"tr"});
    var table := TableOf(t, cellText);
    forall r | 0 <= r < |table|
      ensures RowOk(table[r])
    {
      var tr := rows[r];
      NamedSubset(Walk(Children(t)), {"tr"}, tr);
      WalkClosed(ns, t, tr);
      var cells := FindAll(tr, {"td", "th"});
      var texts := CellTexts(cells, cellText);
      var row := RowOf(tr, cellText);
      assert table[r] == row;
      forall c | 0 <= c < |row|
        ensures CleanText(row[c])
      {
        assert row[c] in row;
        var k :| 0 <= k < |texts| && texts[k] == row[c];
        NamedSubset(Walk(Children(tr)), {"td", "th"}, cells[k]);
        WalkClosed(ns, tr, cells[k]);
        assert IsNamed(cells[k], {"td", "th"});
      }
      assert row[0] != "";
    }
  }

  /** When no `p` text spans lines, no `td`/`th` text spans lines or holds a
      tab, and every `tr` has a non-empty cell, saving the flattened document and reading it back
      gives the same paragraphs and tables. */
  lemma FlattenedRoundTrip(soup: Node, paraText: Node -> string, cellText: Node -> string)
    requires forall n :: n in Walk(Children(soup)) && IsNamed(n, {"p"}) ==> '\n' !in paraText(n)
    requires forall n :: n in Walk(Children(soup)) && IsNamed(n, {"td", "th"}) ==> CleanText(cellText(n))
    requires forall n :: n in Walk(Children(soup)) && IsNamed(n, {"tr"}) ==> |RowOf(n, cellText)| > 0
    ensures var a := Artifact(ParagraphTexts(Walk(Children(soup)), paraText), TablesOf(Walk(Children(soup)), cellText));
            Parse(Save(a)) == Some(a)
  {
    var walk := Walk(Children(soup));
    var a := Artifact(ParagraphTexts(walk, paraText), TablesOf(walk, cellText));
    SavableTexts(walk, paraText);
    forall i | 0 <= i < |a.tables|
      ensures TableOk(a.tables[i])
    {
      TablesComeFromNodes(walk, cellText, i);
      var n :| n in walk && IsNamed(n, {"table"}) && a.tables[i] == TableOf(n, cellText);
      TableNodeOk(Children(soup), n, cellText);
    }
    RoundTrip(a);
  }

  lemma {:induction false} SavableTexts(ns: seq<Node>, paraText: Node -> string)
    requires forall n :: n in ns && IsNamed(n, {"p"}) ==> '\n' !in paraText(n)
    ensures forall k :: 0 <= k < |ParagraphTexts(ns, paraText)| ==> ParagraphOk(ParagraphTexts(ns, paraText)[k])
  {
    if |ns| > 0 {
      SavableTexts(ns[..|ns| - 1], paraText);
    }
  }
}
