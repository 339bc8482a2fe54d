/** The part of the jsoup document a FitTable works on: a `<table>` element with its
    attributes and classes, its `<tr>` elements and their `<td>` cells. Element identity
    matters (a FitRow keeps a reference to its `<tr>`), so rows are objects; a cell is a
    value that is replaced when it is annotated. */
module Markup {
  import opened Constants

  /** A `<td>`: its content (text, or HTML set with html()) and its CSS classes. */
  datatype Td = Td(text: string, classes: set<string>)

  /** A `<tr>` element. */
  class Tr {
    var cells: seq<Td>
    /** What ParserUtils.isIgnored reports for this row when the table is parsed; the rule
        it applies is not part of this model. */
    const ignored: bool

    constructor (ignored: bool, cells: seq<Td>)
      ensures this.ignored == ignored && this.cells == cells
    {
      this.ignored := ignored;
      this.cells := cells;
    }

    /** `select("td").first()` takes new content and a class. */
    method Relabel(content: string, css: string)
      requires cells != []
      modifies this`cells
      ensures cells == Relabelled(old(cells), content, css)
    {
      cells := [Td(content, cells[0].classes + {css})] + cells[1..];
    }
  }

  /** A `<table>` element. `select("tr")` yields the rows prepended directly to the table
      (by prependElement, ahead of its `<tbody>`) followed by the children of the `<tbody>`. */
  class Table {
    const attributes: seq<(string, string)>
    var classes: set<string>
    var prepended: seq<Tr>
    var body: seq<Tr>

    constructor (attributes: seq<(string, string)>, classes: set<string>, body: seq<Tr>)
      ensures this.attributes == attributes && this.classes == classes
      ensures prepended == [] && this.body == body
    {
      this.attributes := attributes;
      this.classes := classes;
      prepended := [];
      this.body := body;
    }

    /** `select("tr")`, in document order. */
    function Trs(): seq<Tr>
      reads this
    {
      prepended + body
    }

    /** An element occurs once in a document. */
    ghost predicate Valid()
      reads this
    {
      Distinct(Trs())
    }

    /** The cells of every `<tr>`, row by row. */
    ghost function Grid(): seq<seq<Td>>
      reads this, prepended, body
    {
      CellsOf(Trs())
    }

    /** prependElement("tr"): a new empty row ahead of everything else. */
    method PrependTr() returns (tr: Tr)
      requires Valid()
      modifies this`prepended
      ensures Valid()
      ensures fresh(tr) && tr.cells == [] && !tr.ignored
      ensures prepended == [tr] + old(prepended)
      ensures Grid() == [[]] + old(Grid())
    {
      ghost var before := Trs();
      tr := new Tr(false, []);
      prepended := [tr] + prepended;
      assert Trs() == [tr] + before;
      DistinctCons(tr, before);
      CellsOfCons(tr, before);
    }

    /** A feedback cell in front of every `<tr>`, after prepending a new empty `<tr>`
        when newTr holds. */
    method AddFeedbackCells(newTr: bool)
      requires Valid()
      modifies this`prepended, Trs()
      ensures Valid() && body == old(body)
      ensures !newTr ==> prepended == old(prepended)
      ensures newTr ==>
        && |prepended| == old(|prepended|) + 1
        && fresh(prepended[0]) && prepended[1..] == old(prepended)
        && prepended[0].cells == [FeedbackTd()]
      ensures forall t :: t in old(Trs()) ==> t.cells == [FeedbackTd()] + old(t.cells)
      ensures Grid() == WithFeedbackColumn((if newTr then [[]] else []) + old(Grid()))
    {
      if newTr {
        PrependTrWithFeedback();
      } else {
        assert [] + Grid() == Grid();
        PrependFeedbackCellsToAll();
      }
    }

    /** A new empty `<tr>` in front, then a feedback cell in front of every `<tr>`. */
    method PrependTrWithFeedback()
      requires Valid()
      modifies this`prepended, Trs()
      ensures Valid() && body == old(body)
      ensures |prepended| == old(|prepended|) + 1
      ensures fresh(prepended[0]) && prepended[1..] == old(prepended)
      ensures prepended[0].cells == [FeedbackTd()]
      ensures forall t :: t in old(Trs()) ==> t.cells == [FeedbackTd()] + old(t.cells)
      ensures Grid() == WithFeedbackColumn([[]] + old(Grid()))
    {
      var tr := PrependTr();
      ghost var g := Grid();
      PrependFeedbackCellsToAll();
      assert tr.cells == [FeedbackTd()];
      assert Grid() == WithFeedbackColumn(g);
    }

    /** A feedback cell in front of every `<tr>`. */
    method PrependFeedbackCellsToAll()
      requires Valid()
      modifies Trs()
      ensures Valid() && prepended == old(prepended) && body == old(body)
      ensures forall t :: t in Trs() ==> t.cells == [FeedbackTd()] + old(t.cells)
      ensures Grid() == WithFeedbackColumn(old(Grid()))
    {
      PrependFeedbackCells(Trs());
    }

    /** The first cell of the first `<tr>` takes new content and a class. */
    method RelabelFirstCell(content: string, css: string)
      requires Valid() && |Trs()| > 0 && Trs()[0].cells != []
      modifies Trs()
      ensures Grid() == WithFirstCell(old(Grid()), content, css)
    {
      var first := Trs()[0];
      first.Relabel(content, css);
    }

    /** `<tbody>`.insertChildren(p, tr). */
    method InsertChild(p: int, tr: Tr)
      requires 0 <= p <= |body|
      requires Valid() && tr !in Trs()
      modifies this`body
      ensures Valid()
      ensures body == old(body)[..p] + [tr] + old(body)[p..]
    {
      ghost var before := Trs();
      DistinctInsert(before, |prepended| + p, tr);
      body := body[..p] + [tr] + body[p..];
      assert Trs() == before[..|prepended| + p] + [tr] + before[|prepended| + p..];
    }

    /** `select("tr").get(p).remove()`. */
    method RemoveTr(p: int)
      requires 0 <= p < |Trs()|
      requires Valid()
      modifies this`prepended, this`body
      ensures Valid()
      ensures Trs() == old(Trs()[..p] + Trs()[p + 1..])
      ensures p < old(|prepended|) ==> body == old(body)
      ensures old(|prepended|) <= p ==> prepended == old(prepended)
    {
      ghost var before := Trs();
      DistinctRemove(before, p);
      if p < |prepended| {
        prepended := prepended[..p] + prepended[p + 1..];
      } else {
        var q := p - |prepended|;
        body := body[..q] + body[q + 1..];
      }
      assert Trs() == before[..p] + before[p + 1..];
    }
  }

  /** No element occurs twice. */
  ghost predicate Distinct<T>(s: seq<T>) {
    forall i, j :: 0 <= i < j < |s| ==> s[i] != s[j]
  }

  lemma DistinctInsert<T>(s: seq<T>, k: int, x: T)
    requires Distinct(s) && x !in s && 0 <= k <= |s|
    ensures Distinct(s[..k] + [x] + s[k..])
  {
    var t := s[..k] + [x] + s[k..];
    forall i, j | 0 <= i < j < |t|
      ensures t[i] != t[j]
    {
      if j < k {
        assert t[i] == s[i] && t[j] == s[j];
      } else if j == k {
        assert t[i] == s[i] && t[j] == x;
      } else if i == k {
        assert t[i] == x && t[j] == s[j - 1];
      } else if i < k {
        assert t[i] == s[i] && t[j] == s[j - 1];
      } else {
        assert t[i] == s[i - 1] && t[j] == s[j - 1];
      }
    }
  }

  lemma DistinctCons<T>(x: T, s: seq<T>)
    requires Distinct(s) && x !in s
    ensures Distinct([x] + s)
  {
    DistinctInsert(s, 0, x);
    assert s[..0] + [x] + s[0..] == [x] + s;
  }

  lemma DistinctRemove<T>(s: seq<T>, k: int)
    requires Distinct(s) && 0 <= k < |s|
    ensures Distinct(s[..k] + s[k + 1..])
  {
    var t := s[..k] + s[k + 1..];
    forall i, j | 0 <= i < j < |t|
      ensures t[i] != t[j]
    {
      if j < k {
        assert t[i] == s[i] && t[j] == s[j];
      } else if i < k {
        assert t[i] == s[i] && t[j] == s[j + 1];
      } else {
        assert t[i] == s[i + 1] && t[j] == s[j + 1];
      }
    }
  }

  /** The loop of addFeedbackColumn: a feedback cell in front of every `<tr>` of trs. */
  method PrependFeedbackCells(trs: seq<Tr>)
    requires Distinct(trs)
    modifies trs
    ensures forall t :: t in trs ==> t.cells == [FeedbackTd()] + old(t.cells)
    ensures CellsOf(trs) == WithFeedbackColumn(old(CellsOf(trs)))
  {
    var i := 0;
    while i < |trs|
      invariant 0 <= i <= |trs|
      invariant forall k :: 0 <= k < i ==> trs[k].cells == [FeedbackTd()] + old(trs[k].cells)
      invariant forall k :: i <= k < |trs| ==> trs[k].cells == old(trs[k].cells)
    {
      trs[i].cells := [FeedbackTd()] + trs[i].cells;
      i := i + 1;
    }
    forall t | t in trs
      ensures t.cells == [FeedbackTd()] + old(t.cells)
    {
      var k :| 0 <= k < |trs| && trs[k] == t;
    }
  }

  ghost function CellsOf(ts: seq<Tr>): (g: seq<seq<Td>>)
    reads ts
    ensures |g| == |ts| && forall i :: 0 <= i < |ts| ==> g[i] == ts[i].cells
  {
    seq(|ts|, i requires 0 <= i < |ts| reads ts => ts[i].cells)
  }

  lemma CellsOfCons(t: Tr, ts: seq<Tr>)
    ensures CellsOf([t] + ts) == [t.cells] + CellsOf(ts)
  {
  }

  /** The empty cell that prependElement("td").addClass(CSS_FEEDBACK_COLUMN) creates. */
  function FeedbackTd(): Td {
    Td("", {CSS_FEEDBACK_COLUMN})
  }

  /** Every row with a feedback cell in front. */
  function WithFeedbackColumn(g: seq<seq<Td>>): (r: seq<seq<Td>>)
    ensures |r| == |g| && forall i :: 0 <= i < |g| ==> r[i] == [FeedbackTd()] + g[i]
  {
    seq(|g|, i requires 0 <= i < |g| => [FeedbackTd()] + g[i])
  }

  /** A row whose first cell has its content replaced and a class added. */
  function Relabelled(cells: seq<Td>, content: string, css: string): (r: seq<Td>)
    requires cells != []
    ensures |r| == |cells| && r[1..] == cells[1..]
    ensures r[0].text == content && r[0].classes == cells[0].classes + {css}
  {
    [Td(content, cells[0].classes + {css})] + cells[1..]
  }

  /** The first cell of the first row with its content replaced and a class added. */
  function WithFirstCell(g: seq<seq<Td>>, content: string, css: string): seq<seq<Td>>
    requires |g| > 0 && |g[0]| > 0
  {
    g[0 := Relabelled(g[0], content, css)]
  }

  /** One row of pretty(): each cell's text followed by " | ". */
  function RowText(r: seq<Td>): string {
    if r == [] then "" else RowText(r[..|r| - 1]) + r[|r| - 1].text + " | "
  }

  /** pretty(): one line per `<tr>`. */
  function PrettyText(g: seq<seq<Td>>): string {
    if g == [] then "" else PrettyText(g[..|g| - 1]) + RowText(g[|g| - 1]) + "\n"
  }

  function Occurrences(s: string, c: char): nat {
    if s == [] then 0 else Occurrences(s[..|s| - 1], c) + (if s[|s| - 1] == c then 1 else 0)
  }

  lemma {:induction false} OccurrencesAppend(a: string, b: string, c: char)
    ensures Occurrences(a + b, c) == Occurrences(a, c) + Occurrences(b, c)
    decreases |b|
  {
    if b != [] {
      assert (a + b)[..|a + b| - 1] == a + b[..|b| - 1];
      OccurrencesAppend(a, b[..|b| - 1], c);
    } else {
      assert a + b == a;
    }
  }

  lemma {:induction false} RowTextLines(r: seq<Td>)
    requires forall k :: 0 <= k < |r| ==> '\n' !in r[k].text
    ensures Occurrences(RowText(r), '\n') == 0
    decreases |r|
  {
    if r != [] {
      var last := r[|r| - 1].text;
      RowTextLines(r[..|r| - 1]);
      OccurrencesAppend(RowText(r[..|r| - 1]), last, '\n');
      OccurrencesAppend(RowText(r[..|r| - 1]) + last, " | ", '\n');
      assert Occurrences(last, '\n') == 0 by { NoOccurrence(last, '\n'); }
      assert Occurrences(" | ", '\n') == 0 by { NoOccurrence(" | ", '\n'); }
    }
  }

  lemma {:induction false} NoOccurrence(s: string, c: char)
    requires c !in s
    ensures Occurrences(s, c) == 0
    decreases |s|
  {
    if s != [] {
      assert s[..|s| - 1] <= s;
      NoOccurrence(s[..|s| - 1], c);
    }
  }

  /** pretty() puts one line per `<tr>`: when no cell text holds a line break, its output
      holds exactly as many line breaks as the table has rows. */
  lemma {:induction false} PrettyLines(g: seq<seq<Td>>)
    requires forall i, k :: 0 <= i < |g| && 0 <= k < |g[i]| ==> '\n' !in g[i][k].text
    ensures Occurrences(PrettyText(g), '\n') == |g|
    decreases |g|
  {
    if g != [] {
      var init := g[..|g| - 1];
      PrettyLines(init);
      RowTextLines(g[|g| - 1]);
      OccurrencesAppend(PrettyText(init), RowText(g[|g| - 1]), '\n');
      OccurrencesAppend(PrettyText(init) + RowText(g[|g| - 1]), "\n", '\n');
    }
  }
}
