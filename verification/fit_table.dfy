/** FitTable: a parsed HTML test table. It checks and parses a `<table>` element into a
    fixture class, an argument map and a list of FitRows, supports inserting and removing
    rows, records row-level errors, and on finishing paints the results into the markup. */
module FitTables {
  import opened Wrappers
  import opened Text
  import opened Constants
  import opened ArgumentPattern
  import opened Markup
  import opened TableParsing

  /** The four counters of a Counts object. */
  datatype Counts = Counts(right: int, wrong: int, ignored: int, exceptions: int)

  /** State of a row-level error. */
  datatype State = Wrong | Exception

  function StateClass(s: State): string {
    match s
    case Wrong => CSS_WRONG
    case Exception => CSS_EXCEPTION
  }

  /** The one class finishExecution paints on the table once the counts are final. */
  function SummaryClass(c: Counts): string {
    if c.exceptions > 0 then CSS_EXCEPTION
    else if c.wrong > 0 then CSS_WRONG
    else CSS_RIGHT
  }

  /** FitCell.finishExecution(counts), which is not part of this model: any step that
      looks at a cell and the counts and yields new counts and a new cell. */
  type CellStep = (Counts, Td) -> (Counts, Td)

  /** The cells of one row finished left to right, threading the counts. */
  function FinishRow(step: CellStep, c: Counts, cells: seq<Td>): (r: (Counts, seq<Td>))
    ensures |r.1| == |cells|
  {
    if cells == [] then (c, [])
    else
      var (c1, done) := FinishRow(step, c, cells[..|cells| - 1]);
      var (c2, td) := step(c1, cells[|cells| - 1]);
      (c2, done + [td])
  }

  /** The cells of every row finished, row after row, threading the counts. */
  function FinishGrid(step: CellStep, c: Counts, grid: seq<seq<Td>>): (r: (Counts, seq<seq<Td>>))
    ensures |r.1| == |grid| && forall i :: 0 <= i < |grid| ==> |r.1[i]| == |grid[i]|
  {
    if grid == [] then (c, [])
    else
      var (c1, done) := FinishGrid(step, c, grid[..|grid| - 1]);
      var (c2, row) := FinishRow(step, c1, grid[|grid| - 1]);
      (c2, done + [row])
  }

  /** Finishing two blocks of rows one after the other is finishing them together: the
      counts the first block ends with are the counts the second starts from. */
  lemma {:induction false} FinishGridAppend(step: CellStep, c: Counts, a: seq<seq<Td>>, b: seq<seq<Td>>)
    ensures FinishGrid(step, c, a + b)
            == (FinishGrid(step, FinishGrid(step, c, a).0, b).0,
                FinishGrid(step, c, a).1 + FinishGrid(step, FinishGrid(step, c, a).0, b).1)
    decreases |b|
  {
    if b == [] {
      assert a + b == a;
      assert FinishGrid(step, c, a).1 + [] == FinishGrid(step, c, a).1;
    } else {
      var init := b[..|b| - 1];
      assert (a + b)[..|a + b| - 1] == a + init;
      assert (a + b)[|a + b| - 1] == b[|b| - 1];
      FinishGridAppend(step, c, a, init);
      var (ca, ga) := FinishGrid(step, c, a);
      var (c1, done) := FinishGrid(step, ca, init);
      var (c2, row) := FinishRow(step, c1, b[|b| - 1]);
      assert FinishGrid(step, c, a + init) == (c1, ga + done);
      assert FinishGrid(step, c, a + b) == (c2, (ga + done) + [row]);
      assert FinishGrid(step, ca, b) == (c2, done + [row]);
      assert (ga + done) + [row] == ga + (done + [row]);
    }
  }

  /** Splicing a `<tr>` into the markup at index + start and into the row `<tr>`s at index
      keeps the row `<tr>`s equal to the markup's from start on. */
  lemma SpliceKeepsAlignment(rowTrs: seq<Tr>, trs: seq<Tr>, start: int, index: int, tr: Tr)
    requires 0 <= start <= |trs| && rowTrs == trs[start..] && 0 <= index <= |rowTrs|
    ensures rowTrs[..index] + [tr] + rowTrs[index..] == (trs[..index + start] + [tr] + trs[index + start..])[start..]
  {
  }

  /** The same, stated for the row `<tr>`s and the `<tbody>` before and after insert. */
  lemma InsertKeepsAlignment(rowTrs: seq<Tr>, rowTrs': seq<Tr>, body: seq<Tr>, body': seq<Tr>,
                             start: int, index: int, tr: Tr)
    requires 0 <= start <= |[] + body| && rowTrs == ([] + body)[start..] && 0 <= index <= |rowTrs|
    requires rowTrs' == rowTrs[..index] + [tr] + rowTrs[index..]
    requires body' == body[..index + start] + [tr] + body[index + start..]
    ensures 0 <= start <= |[] + body'| && rowTrs' == ([] + body')[start..]
  {
  }

  /** Dropping the `<tr>` at index + start of the markup and at index of the row `<tr>`s
      keeps them equal in the same way. */
  lemma DropKeepsAlignment(rowTrs: seq<Tr>, trs: seq<Tr>, start: int, index: int)
    requires 0 <= start <= |trs| && rowTrs == trs[start..] && 0 <= index < |rowTrs|
    ensures rowTrs[..index] + rowTrs[index + 1..] == (trs[..index + start] + trs[index + start + 1..])[start..]
  {
  }

  /** A row-level error painted on a row: its first cell takes the message as text and
      the state's class. */
  function Annotated(cells: seq<Td>, message: string, state: State): seq<Td>
    requires cells != []
  {
    Relabelled(cells, message, StateClass(state))
  }

  function ExceptionRows(states: map<int, State>): set<int> {
    set k | k in states && states[k] == Exception
  }

  function WrongRows(states: map<int, State>): set<int> {
    set k | k in states && states[k] == Wrong
  }

  function TrsOf(rows: seq<FitRow>): (r: seq<Tr>)
    ensures |r| == |rows| && forall i :: 0 <= i < |rows| ==> r[i] == rows[i].tr
  {
    seq(|rows|, i requires 0 <= i < |rows| => rows[i].tr)
  }

  /** finishExecution on every cell of one `<tr>`, left to right. */
  method FinishTr(step: CellStep, c: Counts, tr: Tr) returns (c': Counts)
    modifies tr`cells
    ensures (c', tr.cells) == FinishRow(step, c, old(tr.cells))
  {
    ghost var cells := tr.cells;
    c' := c;
    var j := 0;
    while j < |tr.cells|
      invariant 0 <= j <= |tr.cells| == |cells|
      invariant c' == FinishRow(step, c, cells[..j]).0
      invariant tr.cells[..j] == FinishRow(step, c, cells[..j]).1
      invariant tr.cells[j..] == cells[j..]
    {
      assert cells[..j + 1][..j] == cells[..j];
      assert tr.cells[j] == cells[j];
      ghost var prev := tr.cells;
      var (c1, td) := step(c', tr.cells[j]);
      c' := c1;
      tr.cells := tr.cells[j := td];
      assert tr.cells[..j + 1] == prev[..j] + [td];
      assert tr.cells[j + 1..] == prev[j + 1..];
      j := j + 1;
    }
    assert tr.cells == tr.cells[..j] && cells == cells[..j];
  }

  /** finishExecution on every cell of every `<tr>` of trs, in order. */
  method FinishTrs(step: CellStep, c: Counts, trs: seq<Tr>) returns (c': Counts)
    requires Distinct(trs)
    modifies trs
    ensures (c', CellsOf(trs)) == FinishGrid(step, c, old(CellsOf(trs)))
  {
    ghost var g := CellsOf(trs);
    c' := c;
    var i := 0;
    while i < |trs|
      invariant 0 <= i <= |trs|
      invariant CellsOf(trs) == FinishGrid(step, c, g[..i]).1 + g[i..]
      invariant c' == FinishGrid(step, c, g[..i]).0
    {
      c' := FinishTrAt(step, c', trs, i, c, g);
      i := i + 1;
    }
    assert g[..i] == g && g[i..] == [];
    assert CellsOf(trs) == FinishGrid(step, c, g).1 + [];
    assert CellsOf(trs) == FinishGrid(step, c, g).1;
  }

  /** One step of that loop: the `<tr>` at i is finished. */
  method FinishTrAt(step: CellStep, c': Counts, trs: seq<Tr>, i: int, ghost c: Counts, ghost g: seq<seq<Td>>)
    returns (c'': Counts)
    requires Distinct(trs) && 0 <= i < |trs| == |g|
    requires CellsOf(trs) == FinishGrid(step, c, g[..i]).1 + g[i..]
    requires c' == FinishGrid(step, c, g[..i]).0
    modifies trs[i]
    ensures CellsOf(trs) == FinishGrid(step, c, g[..i + 1]).1 + g[i + 1..]
    ensures c'' == FinishGrid(step, c, g[..i + 1]).0
  {
    ghost var before := CellsOf(trs);
    FinishGridStep(step, c, g, i);
    ReplaceAtSeam(FinishGrid(step, c, g[..i]).1, g[i..], FinishRow(step, c', g[i]).1);
    assert g[i..][1..] == g[i + 1..];
    c'' := FinishTr(step, c', trs[i]);
    assert CellsOf(trs) == before[i := FinishRow(step, c', g[i]).1];
  }

  lemma FinishGridStep(step: CellStep, c: Counts, g: seq<seq<Td>>, i: int)
    requires 0 <= i < |g|
    ensures FinishGrid(step, c, g[..i + 1])
            == (FinishRow(step, FinishGrid(step, c, g[..i]).0, g[i]).0,
                FinishGrid(step, c, g[..i]).1 + [FinishRow(step, FinishGrid(step, c, g[..i]).0, g[i]).1])
  {
    assert g[..i + 1][..i] == g[..i];
  }

  lemma ReplaceAtSeam<T>(a: seq<T>, b: seq<T>, x: T)
    requires b != []
    ensures (a + b)[|a| := x] == (a + [x]) + b[1..]
  {
  }

  /** Row error k, as processRowErrors paints it, in the counts. */
  lemma CountRowError(states: map<int, State>, done: set<int>, k: int)
    requires k in states && k !in done
    ensures |ExceptionRows(states) * (done + {k})|
            == |ExceptionRows(states) * done| + (if states[k] == State.Exception then 1 else 0)
    ensures |WrongRows(states) * (done + {k})|
            == |WrongRows(states) * done| + (if states[k] == Wrong then 1 else 0)
  {
    if states[k] == State.Exception {
      assert ExceptionRows(states) * (done + {k}) == ExceptionRows(states) * done + {k};
      assert WrongRows(states) * (done + {k}) == WrongRows(states) * done;
    } else {
      assert WrongRows(states) * (done + {k}) == WrongRows(states) * done + {k};
      assert ExceptionRows(states) * (done + {k}) == ExceptionRows(states) * done;
    }
  }

  /** Every recorded row has a first cell to paint. */
  predicate Paintable(g: seq<seq<Td>>, states: map<int, State>, messages: map<int, string>) {
    states.Keys == messages.Keys && forall k :: k in messages ==> 0 <= k < |g| && g[k] != []
  }

  /** The cells of trs once the rows in done are painted with their row errors. */
  function Painted(g: seq<seq<Td>>, states: map<int, State>, messages: map<int, string>, done: set<int>)
    : (r: seq<seq<Td>>)
    requires Paintable(g, states, messages) && done <= messages.Keys
    ensures |r| == |g|
    ensures forall i :: 0 <= i < |g| ==>
      r[i] == if i in done then Annotated(g[i], messages[i], states[i]) else g[i]
  {
    seq(|g|, i requires 0 <= i < |g| =>
      if i in done then Annotated(g[i], messages[i], states[i]) else g[i])
  }

  /** The counts once the row errors of the rows in done are counted. */
  function CountedErrors(c: Counts, states: map<int, State>, done: set<int>): Counts {
    c.(wrong := c.wrong + |WrongRows(states) * done|,
       exceptions := c.exceptions + |ExceptionRows(states) * done|)
  }

  /** The loop of processRowErrors: each recorded row's first cell takes the message and
      the state's class, and exactly one counter goes up per recorded row. The map's
      iteration order is left open: any order gives the same result. */
  method PaintRows(trs: seq<Tr>, states: map<int, State>, messages: map<int, string>, c: Counts)
    returns (c': Counts)
    requires Distinct(trs) && Paintable(CellsOf(trs), states, messages)
    modifies trs
    ensures c' == c.(wrong := c.wrong + |WrongRows(states)|,
                     exceptions := c.exceptions + |ExceptionRows(states)|)
    ensures CellsOf(trs) == Painted(old(CellsOf(trs)), states, messages, messages.Keys)
  {
    ghost var g := CellsOf(trs);
    c' := c;
    var todo := messages.Keys;
    PaintedNone(g, states, messages);
    CountedNone(c, states);
    while todo != {}
      invariant todo <= messages.Keys
      invariant c' == CountedErrors(c, states, messages.Keys - todo)
      invariant CellsOf(trs) == Painted(g, states, messages, messages.Keys - todo)
      decreases todo
    {
      todo, c' := PaintRowError(trs, states, messages, todo, c', c, g);
    }
    CountedAll(c, states, messages.Keys - todo);
  }

  /** Every recorded row is WRONG or EXCEPTION and never both, so processRowErrors raises
      exactly one counter per recorded row. */
  lemma RowErrorsPartition(states: map<int, State>)
    ensures WrongRows(states) !! ExceptionRows(states)
    ensures WrongRows(states) + ExceptionRows(states) == states.Keys
    ensures |WrongRows(states)| + |ExceptionRows(states)| == |states|
  {
    forall k | k in states
      ensures k in WrongRows(states) + ExceptionRows(states)
    {
      if states[k] == Wrong { assert k in WrongRows(states); } else { assert k in ExceptionRows(states); }
    }
    assert |states.Keys| == |states|;
  }

  lemma TakeKey(keys: set<int>, todo: set<int>, k: int)
    requires k in todo && todo <= keys
    ensures keys - (todo - {k}) == (keys - todo) + {k}
  {
  }

  lemma PaintedNone(g: seq<seq<Td>>, states: map<int, State>, messages: map<int, string>)
    requires Paintable(g, states, messages)
    ensures Painted(g, states, messages, messages.Keys - messages.Keys) == g
  {
    assert messages.Keys - messages.Keys == {};
  }

  lemma CountedNone(c: Counts, states: map<int, State>)
    ensures CountedErrors(c, states, states.Keys - states.Keys) == c
  {
    assert states.Keys - states.Keys == {};
    assert WrongRows(states) * {} == {};
    assert ExceptionRows(states) * {} == {};
  }

  lemma CountedAll(c: Counts, states: map<int, State>, done: set<int>)
    requires done == states.Keys
    ensures CountedErrors(c, states, done)
            == c.(wrong := c.wrong + |WrongRows(states)|, exceptions := c.exceptions + |ExceptionRows(states)|)
  {
    assert WrongRows(states) * done == WrongRows(states);
    assert ExceptionRows(states) * done == ExceptionRows(states);
  }

  /** Some key of the set: the iteration order of a HashMap's entries is unspecified. */
  method PickKey(keys: set<int>) returns (key: int)
    requires keys != {} && forall k :: k in keys ==> 0 <= k
    ensures key in keys
  {
    var naturals: set<nat> := keys;
    key :| key in naturals;
  }

  lemma PaintedStep(g: seq<seq<Td>>, states: map<int, State>, messages: map<int, string>,
                    done: set<int>, k: int)
    requires Paintable(g, states, messages) && done <= messages.Keys && k in messages && k !in done
    ensures Painted(g, states, messages, done)[k] == g[k]
    ensures Painted(g, states, messages, done + {k})
            == Painted(g, states, messages, done)[k := Annotated(g[k], messages[k], states[k])]
  {
  }

  /** One step of that loop: some row k not yet visited is painted and counted. */
  method PaintRowError(trs: seq<Tr>, states: map<int, State>, messages: map<int, string>,
                       todo: set<int>, c': Counts, ghost c: Counts, ghost g: seq<seq<Td>>)
    returns (todo': set<int>, c'': Counts)
    requires Distinct(trs) && Paintable(g, states, messages)
    requires todo <= messages.Keys && todo != {}
    requires CellsOf(trs) == Painted(g, states, messages, messages.Keys - todo)
    requires c' == CountedErrors(c, states, messages.Keys - todo)
    modifies trs
    ensures todo' < todo
    ensures CellsOf(trs) == Painted(g, states, messages, messages.Keys - todo')
    ensures c'' == CountedErrors(c, states, messages.Keys - todo')
  {
    var k := PickKey(todo);
    c'' := PaintRowAt(trs, states, messages, k, c', c, g, todo);
    todo' := todo - {k};
  }

  /** Row k is painted and counted. */
  method PaintRowAt(trs: seq<Tr>, states: map<int, State>, messages: map<int, string>, k: int,
                    c': Counts, ghost c: Counts, ghost g: seq<seq<Td>>, ghost todo: set<int>)
    returns (c'': Counts)
    requires Distinct(trs) && Paintable(g, states, messages)
    requires todo <= messages.Keys && k in todo
    requires CellsOf(trs) == Painted(g, states, messages, messages.Keys - todo)
    requires c' == CountedErrors(c, states, messages.Keys - todo)
    modifies trs
    ensures CellsOf(trs) == Painted(g, states, messages, messages.Keys - (todo - {k}))
    ensures c'' == CountedErrors(c, states, messages.Keys - (todo - {k}))
  {
    ghost var done := messages.Keys - todo;
    TakeKey(messages.Keys, todo, k);
    CountRowError(states, done, k);
    PaintedStep(g, states, messages, done, k);
    trs[k].Relabel(messages[k], StateClass(states[k]));
    if states[k] == State.Exception {
      c'' := c'.(exceptions := c'.exceptions + 1);
    } else {
      c'' := c'.(wrong := c'.wrong + 1);
    }
  }

  /** The loop of parseTable: a FitRow for every `<tr>` that is not ignored. */
  method ContentFitRows(trs: seq<Tr>) returns (rows: seq<FitRow>)
    ensures TrsOf(rows) == ContentRows(trs)
    ensures forall i :: 0 <= i < |rows| ==> fresh(rows[i])
  {
    rows := [];
    var i := 0;
    while i < |trs|
      invariant 0 <= i <= |trs|
      invariant TrsOf(rows) == ContentRows(trs[..i])
      invariant forall k :: 0 <= k < |rows| ==> fresh(rows[k])
    {
      assert trs[..i + 1][..i] == trs[..i];
      if !trs[i].ignored {
        var row := new FitRow(trs[i]);
        rows := rows + [row];
      }
      i := i + 1;
    }
    assert trs[..i] == trs;
  }

  /** Every row's index is its position. */
  ghost predicate Indexed(rows: seq<FitRow>)
    reads rows
  {
    forall i :: 0 <= i < |rows| ==> rows[i].index == i
  }

  /** A FitRow: a `<tr>` element and its position among the table's rows. */
  class FitRow {
    const tr: Tr
    var index: int

    constructor (tr: Tr)
      ensures this.tr == tr && index == 0
    {
      this.tr := tr;
      index := 0;
    }
  }

  /** How the Java constructor ends: normally, with IllegalArgumentException after
      annotating an incomplete table, or with a NullPointerException when a legacy
      header row has no cell. */
  datatype Outcome = Constructed | InvalidTable | MissingHeaderCell

  datatype ConstructionError = IllegalArgument | NullPointer

  const INCOMPLETE_TABLE := "Incomplete table definition"

  class FitTable {
    const table: Table
    var newStyleTable: bool
    var counts: Counts
    var hasFeedbackColumn: bool
    var errorStates: map<int, State>
    var errorMessages: map<int, string>
    var fixtureClass: string
    var arguments: map<string, string>
    var rows: seq<FitRow>
    var contentStart: int

    /** The field initialisers; the rest of the Java constructor is Construct. The null
        fixture class and argument map are "" and the empty map here. */
    constructor (table: Table)
      ensures this.table == table && Initial()
    {
      this.table := table;
      newStyleTable := false;
      counts := Counts(0, 0, 0, 0);
      hasFeedbackColumn := false;
      errorStates := map[];
      errorMessages := map[];
      fixtureClass := "";
      arguments := map[];
      rows := [];
      contentStart := 0;
    }

    ghost predicate Initial()
      reads this
    {
      && !newStyleTable && counts == Counts(0, 0, 0, 0) && !hasFeedbackColumn
      && errorStates == map[] && errorMessages == map[]
      && fixtureClass == "" && arguments == map[] && rows == [] && contentStart == 0
    }

    /** The `<tr>` elements of the rows. */
    ghost function RowTrSet(): set<Tr>
      reads this
    {
      set i | 0 <= i < |rows| :: rows[i].tr
    }

    /** The object invariant: the markup is a document, no two rows share a `<tr>`, and
        the two error maps have the same keys. That every row's index is its position is
        Indexed(rows), which only the operations that change rows need to restore. */
    ghost predicate Valid()
      reads this, table
    {
      && table.Valid()
      && Distinct(TrsOf(rows))
      && errorStates.Keys == errorMessages.Keys
    }

    /** The rows stand for the `<tr>`s of select("tr") from contentStart on, one to one
        and in order: the case in which insert and remove address the same row in the
        markup and in the list. */
    ghost predicate Aligned()
      reads this, table
    {
      0 <= contentStart <= |table.Trs()| && TrsOf(rows) == table.Trs()[contentStart..]
    }

    /** What parseTable establishes about the header and the arguments. */
    ghost predicate HeaderParsed()
      reads this, table, table.prepended, table.body
    {
      && newStyleTable == HasAttr(table.attributes, ATTR_FIXTURE)
      && contentStart == (if newStyleTable then 0 else 1)
      && contentStart <= |table.Trs()|
      && (newStyleTable ==>
            fixtureClass == AttrValue(table.attributes, ATTR_FIXTURE)
            && arguments == NewStyleArgs(table.attributes))
      && (!newStyleTable ==>
            table.Trs()[0].cells != []
            && fixtureClass == table.Trs()[0].cells[0].text
            && arguments == OldStyleArgs(Texts(table.Trs()[0].cells[1..])))
    }

    /** What parseTable establishes: the header, and a row for every content `<tr>` that
        is not ignored, in document order. */
    ghost predicate Parsed()
      reads this, table, table.prepended, table.body
    {
      HeaderParsed() && 0 <= contentStart && TrsOf(rows) == ContentRows(table.Trs()[contentStart..])
    }

    // -------------------------------------------------------------------------------
    // Construction

    /** The body of the Java constructor: checkTable, then finishExecution and the
        IllegalArgumentException when the table is incomplete, else parseTable. */
    method Construct() returns (outcome: Outcome)
      requires Valid() && Initial()
      modifies this`newStyleTable, this`counts, this`hasFeedbackColumn, this`fixtureClass
      modifies this`arguments, this`rows, this`contentStart
      modifies table`prepended, table`classes, table.Trs()
      ensures Valid()
      ensures outcome == InvalidTable <==> !IsComplete(old(table.Grid()))
      ensures outcome == InvalidTable ==>
        && !newStyleTable && rows == [] && hasFeedbackColumn
        && counts == Counts(0, 0, 0, 1)
        && table.classes == old(table.classes) + {CSS_EXCEPTION}
        && table.Grid() == WithFirstCell(
             WithFeedbackColumn(if old(table.Grid()) == [] then [[]] else old(table.Grid())),
             INCOMPLETE_TABLE, CSS_EXCEPTION)
      ensures outcome == MissingHeaderCell <==>
        IsComplete(old(table.Grid())) && !HasAttr(table.attributes, ATTR_FIXTURE)
        && old(table.Trs()[0].cells) == []
      ensures outcome != InvalidTable ==>
        && table.Trs() == old(table.Trs()) && table.Grid() == old(table.Grid())
        && table.classes == old(table.classes)
        && counts == Counts(0, 0, 0, 0) && !hasFeedbackColumn
        && errorStates == map[] && errorMessages == map[]
      ensures outcome == MissingHeaderCell ==> rows == []
      ensures outcome == Constructed ==> Parsed() && Indexed(rows) && forall r :: r in rows ==> fresh(r)
    {
      var complete := CheckOrFinish();
      if !complete {
        outcome := InvalidTable;
      } else {
        outcome := ConstructComplete();
      }
    }

    /** The constructor's first statement: checkTable, and finishExecution on the
        annotated table when the check fails. */
    method CheckOrFinish() returns (complete: bool)
      requires Valid() && Initial()
      modifies this`counts, this`hasFeedbackColumn, table`prepended, table`classes, table.Trs()
      ensures Valid()
      ensures complete == IsComplete(old(table.Grid()))
      ensures complete ==>
        && !hasFeedbackColumn && counts == Counts(0, 0, 0, 0)
        && table.Trs() == old(table.Trs()) && table.Grid() == old(table.Grid())
        && table.classes == old(table.classes)
      ensures !complete ==>
        && hasFeedbackColumn && counts == Counts(0, 0, 0, 1)
        && table.classes == old(table.classes) + {CSS_EXCEPTION}
        && table.Grid() == WithFirstCell(
             WithFeedbackColumn(if old(table.Grid()) == [] then [[]] else old(table.Grid())),
             INCOMPLETE_TABLE, CSS_EXCEPTION)
    {
      ghost var p0, b0, g0 := table.prepended, table.body, table.Grid();
      complete := CheckTable();
      if !complete {
        FinishIncomplete(p0, b0, g0);
      }
    }

    /** finishExecution on the table checkTable has just annotated: the exception it
        counted makes the exception class the summary. */
    method FinishIncomplete(ghost p0: seq<Tr>, ghost b0: seq<Tr>, ghost g0: seq<seq<Td>>)
      requires Valid() && rows == [] && errorStates == map[]
      requires IncompleteReported(Counts(0, 0, 0, 0), p0, b0, g0)
      modifies this`counts, this`hasFeedbackColumn, table`prepended, table`classes, table.Trs()
      ensures Valid() && hasFeedbackColumn && counts == Counts(0, 0, 0, 1)
      ensures table.classes == old(table.classes) + {CSS_EXCEPTION}
      ensures table.Grid() == WithFirstCell(WithFeedbackColumn(if g0 == [] then [[]] else g0),
                                            INCOMPLETE_TABLE, CSS_EXCEPTION)
    {
      FinishWithoutRows();
    }

    /** The constructor once checkTable has accepted the table: parseTable. */
    method ConstructComplete() returns (outcome: Outcome)
      requires Valid() && rows == [] && |table.Trs()| > 0
      modifies this`newStyleTable, this`fixtureClass, this`arguments, this`contentStart, this`rows
      ensures Valid() && outcome != InvalidTable
      ensures outcome == MissingHeaderCell <==>
        !HasAttr(table.attributes, ATTR_FIXTURE) && table.Trs()[0].cells == []
      ensures outcome == MissingHeaderCell ==> rows == []
      ensures outcome == Constructed ==> Parsed() && Indexed(rows) && forall r :: r in rows ==> fresh(r)
    {
      var parsed := ParseTable();
      outcome := if parsed then Constructed else MissingHeaderCell;
    }

    /** finishExecution on a table that has no rows and no row errors yet: it changes
        nothing but the summary class. No cell is finished, so the cell step does not
        matter. */
    method FinishWithoutRows()
      requires Valid() && rows == [] && errorStates == map[]
      modifies this`counts, this`hasFeedbackColumn, table`prepended, table`classes, table.Trs()
      ensures Valid() && hasFeedbackColumn == old(hasFeedbackColumn) && counts == old(counts)
      ensures table.classes == old(table.classes) + {SummaryClass(counts)}
      ensures table.Trs() == old(table.Trs()) && table.Grid() == old(table.Grid())
    {
      assert RowTrSet() == {};
      assert |WrongRows(errorStates)| == 0 && |ExceptionRows(errorStates)| == 0;
      ghost var trs := table.Trs();
      FinishExecution((c, td) => (c, td));
      assert forall i :: 0 <= i < |trs| ==> trs[i] in trs;
    }

    /** checkTable: an incomplete table is annotated through exception(...). */
    method CheckTable() returns (ok: bool)
      requires Valid() && !hasFeedbackColumn && !newStyleTable
      modifies this`hasFeedbackColumn, this`counts, table`prepended, table.Trs()
      ensures Valid()
      ensures ok == IsComplete(old(table.Grid()))
      ensures ok ==>
        && hasFeedbackColumn == old(hasFeedbackColumn) && counts == old(counts)
        && table.Trs() == old(table.Trs()) && table.Grid() == old(table.Grid())
      ensures !ok ==> IncompleteReported(old(counts), old(table.prepended), old(table.body), old(table.Grid()))
      ensures !ok && old(|table.Trs()|) == 0 ==> fresh(table.prepended[0])
    {
      var trs := table.Trs();
      ok := |trs| > 0 && exists i :: 0 <= i < |trs| && trs[i].cells != [];
      assert table.Grid() == CellsOf(trs);
      if !ok {
        ReportIncomplete();
      }
    }

    /** How checkTable leaves an incomplete table: exception(...) has run once. */
    ghost predicate IncompleteReported(counts0: Counts, prepended0: seq<Tr>, body0: seq<Tr>,
                                       grid0: seq<seq<Td>>)
      reads this, table, table.prepended, table.body
    {
      && hasFeedbackColumn
      && counts == counts0.(exceptions := counts0.exceptions + 1)
      && table.body == body0
      && (|prepended0 + body0| > 0 ==> table.prepended == prepended0)
      && (|prepended0 + body0| == 0 ==> |table.prepended| == 1 && table.prepended[1..] == prepended0)
      && table.Grid() == WithFirstCell(WithFeedbackColumn(if grid0 == [] then [[]] else grid0),
                                       INCOMPLETE_TABLE, CSS_EXCEPTION)
    }

    /** The failing branch of checkTable. */
    method ReportIncomplete()
      requires Valid() && !hasFeedbackColumn && !newStyleTable && !IsComplete(table.Grid())
      modifies this`hasFeedbackColumn, this`counts, table`prepended, table.Trs()
      ensures Valid()
      ensures IncompleteReported(old(counts), old(table.prepended), old(table.body), old(table.Grid()))
      ensures old(|table.Trs()|) == 0 ==> fresh(table.prepended[0])
    {
      ghost var g := table.Grid();
      assert NeedsNewTr(true) == (g == []);
      assert FeedbackGrid(true) == WithFeedbackColumn(if g == [] then [[]] else g) by {
        if g != [] {
          assert [] + g == g;
        }
      }
      Exception(INCOMPLETE_TABLE);
    }

    /** parseTable; returns false where the legacy header row has no cell and
        `tds.first().text()` throws a NullPointerException. */
    method ParseTable() returns (ok: bool)
      requires Valid() && rows == [] && |table.Trs()| > 0
      modifies this`newStyleTable, this`fixtureClass, this`arguments, this`contentStart, this`rows
      ensures Valid()
      ensures newStyleTable == HasAttr(table.attributes, ATTR_FIXTURE)
      ensures ok <==> newStyleTable || table.Trs()[0].cells != []
      ensures ok ==> Parsed() && Indexed(rows) && forall r :: r in rows ==> fresh(r)
      ensures !ok ==> rows == []
    {
      ok := ParseHeader();
      if ok {
        ParseRows();
      }
    }

    /** The header half of parseTable. */
    method ParseHeader() returns (ok: bool)
      requires |table.Trs()| > 0
      modifies this`newStyleTable, this`fixtureClass, this`arguments, this`contentStart
      ensures newStyleTable == HasAttr(table.attributes, ATTR_FIXTURE)
      ensures ok <==> newStyleTable || table.Trs()[0].cells != []
      ensures ok ==> HeaderParsed()
    {
      var trs := table.Trs();
      newStyleTable := HasAttr(table.attributes, ATTR_FIXTURE);
      if newStyleTable {
        fixtureClass, arguments := ParseNewStyleHeader();
        contentStart := 0;
      } else {
        if trs[0].cells == [] {
          return false;
        }
        fixtureClass, arguments := ParseOldStyleHeader(trs[0]);
        contentStart := 1;
      }
      ok := true;
    }

    /** The row half of parseTable: a FitRow for every content `<tr>` that is not ignored,
        then updateIndices. */
    method ParseRows()
      requires Valid() && 0 <= contentStart <= |table.Trs()|
      modifies this`rows
      ensures Valid() && Indexed(rows)
      ensures TrsOf(rows) == ContentRows(table.Trs()[contentStart..])
      ensures forall i :: 0 <= i < |rows| ==> fresh(rows[i])
    {
      var content := table.Trs()[contentStart..];
      assert Distinct(content);
      ContentRowsDistinct(content);
      rows := ContentFitRows(content);
      UpdateIndices();
    }

    /** parseOldStyleHeader: the first cell names the fixture; argument cell i stores its
        value under its lower-cased key (when it reads key=value) and under "i". */
    method ParseOldStyleHeader(tr: Tr) returns (fixture: string, args: map<string, string>)
      requires tr.cells != []
      ensures fixture == tr.cells[0].text
      ensures args == OldStyleArgs(Texts(tr.cells[1..]))
    {
      var tds := tr.cells;
      fixture := tds[0].text;
      var subList := tds[1..];
      args := map[];
      var i := 0;
      while i < |subList|
        invariant 0 <= i <= |subList|
        invariant args == OldStyleArgs(Texts(subList[..i]))
      {
        assert Texts(subList[..i + 1])[..i] == Texts(subList[..i]);
        var text := subList[i].text;
        ghost var prev := args;
        match ParseArgument(text) {
          case Some((key, value)) =>
            args := args[ToLower(key) := value][NatToString(i) := value];
          case None =>
            args := args[NatToString(i) := text];
        }
        assert args == PutHeaderCell(prev, i, text);
        i := i + 1;
      }
      assert subList[..i] == subList;
    }

    /** parseNewStyleHeader: the fixture attribute names the fixture; every attribute whose
        lower-cased name starts with the argument prefix stores its value under the rest
        of that name. */
    method ParseNewStyleHeader() returns (fixture: string, args: map<string, string>)
      ensures fixture == AttrValue(table.attributes, ATTR_FIXTURE)
      ensures args == NewStyleArgs(table.attributes)
    {
      fixture := AttrValue(table.attributes, ATTR_FIXTURE);
      var attributes := table.attributes;
      args := map[];
      var i := 0;
      while i < |attributes|
        invariant 0 <= i <= |attributes|
        invariant args == NewStyleArgs(attributes[..i])
      {
        assert attributes[..i + 1][..i] == attributes[..i];
        var name := ToLower(attributes[i].0);
        if StartsWith(name, ATTR_ARGUMENT_PREFIX) {
          args := args[name[|ATTR_ARGUMENT_PREFIX|..] := attributes[i].1];
        }
        i := i + 1;
      }
      assert attributes[..i] == attributes;
    }

    // -------------------------------------------------------------------------------
    // Feedback column and table-level exception

    /** Whether addFeedbackColumn(newRow) prepends a `<tr>` when it runs. */
    predicate NeedsNewTr(newRow: bool)
      reads this, table
    {
      |table.Trs()| == 0 || (newStyleTable && newRow)
    }

    /** The cells of t once the feedback column is there. */
    ghost function WithFeedback(t: Tr): seq<Td>
      reads this, table, t
    {
      if !hasFeedbackColumn && t in table.Trs() then [FeedbackTd()] + t.cells else t.cells
    }

    /** The grid once addFeedbackColumn(newRow) has run. */
    ghost function FeedbackGrid(newRow: bool): seq<seq<Td>>
      reads this, table, table.prepended, table.body
    {
      if hasFeedbackColumn then table.Grid()
      else WithFeedbackColumn((if NeedsNewTr(newRow) then [[]] else []) + table.Grid())
    }

    /** addFeedbackColumn: the first call adds a `<tr>` when NeedsNewTr, then a feedback
        cell in front of every `<tr>`; later calls change nothing. */
    method AddFeedbackColumn(newRow: bool)
      requires Valid()
      modifies this`hasFeedbackColumn, table`prepended, table.Trs()
      ensures Valid() && hasFeedbackColumn
      ensures table.body == old(table.body)
      ensures old(hasFeedbackColumn || !NeedsNewTr(newRow)) ==> table.prepended == old(table.prepended)
      ensures old(!hasFeedbackColumn && NeedsNewTr(newRow)) ==>
        && |table.prepended| == old(|table.prepended|) + 1
        && fresh(table.prepended[0]) && table.prepended[1..] == old(table.prepended)
        && table.prepended[0].cells == [FeedbackTd()]
      ensures forall t :: t in old(table.Trs()) ==> t.cells == old(WithFeedback(t))
      ensures table.Grid() == old(FeedbackGrid(newRow))
    {
      if hasFeedbackColumn {
        return;
      }
      ghost var grid := table.Grid();
      assert FeedbackGrid(newRow) == WithFeedbackColumn((if NeedsNewTr(newRow) then [[]] else []) + grid);
      assert forall t :: t in table.Trs() ==> WithFeedback(t) == [FeedbackTd()] + t.cells;
      AddFeedbackColumnFirst(newRow);
    }

    /** The first call of addFeedbackColumn. */
    method AddFeedbackColumnFirst(newRow: bool)
      requires Valid() && !hasFeedbackColumn
      modifies this`hasFeedbackColumn, table`prepended, table.Trs()
      ensures Valid() && hasFeedbackColumn
      ensures table.body == old(table.body)
      ensures old(!NeedsNewTr(newRow)) ==> table.prepended == old(table.prepended)
      ensures old(NeedsNewTr(newRow)) ==>
        && |table.prepended| == old(|table.prepended|) + 1
        && fresh(table.prepended[0]) && table.prepended[1..] == old(table.prepended)
        && table.prepended[0].cells == [FeedbackTd()]
      ensures forall t :: t in old(table.Trs()) ==> t.cells == [FeedbackTd()] + old(t.cells)
      ensures table.Grid() == WithFeedbackColumn((if old(NeedsNewTr(newRow)) then [[]] else []) + old(table.Grid()))
    {
      hasFeedbackColumn := true;
      table.AddFeedbackCells(|table.Trs()| == 0 || (newStyleTable && newRow));
    }

    /** exception(html): the feedback column is ensured, the exception count goes up by
        one, and the first cell of the first `<tr>` takes html and the exception class. */
    method Exception(html: string)
      requires Valid()
      requires hasFeedbackColumn ==> |table.Trs()| > 0 && table.Trs()[0].cells != []
      modifies this`hasFeedbackColumn, this`counts, table`prepended, table.Trs()
      ensures Valid() && hasFeedbackColumn
      ensures counts == old(counts).(exceptions := old(counts.exceptions) + 1)
      ensures table.body == old(table.body)
      ensures old(hasFeedbackColumn || !NeedsNewTr(true)) ==> table.prepended == old(table.prepended)
      ensures old(!hasFeedbackColumn && NeedsNewTr(true)) ==>
        && |table.prepended| == old(|table.prepended|) + 1
        && fresh(table.prepended[0]) && table.prepended[1..] == old(table.prepended)
      ensures |old(FeedbackGrid(true))| > 0 && old(FeedbackGrid(true))[0] != []
      ensures table.Grid() == WithFirstCell(old(FeedbackGrid(true)), html, CSS_EXCEPTION)
    {
      ghost var grid := FeedbackGrid(true);
      AddFeedbackColumn(true);
      assert table.Grid() == grid && |grid| > 0 && grid[0] != [];
      MarkException(html);
    }

    /** The rest of exception(html), once the feedback column is there. */
    method MarkException(html: string)
      requires Valid() && |table.Trs()| > 0 && table.Trs()[0].cells != []
      modifies this`counts, table.Trs()
      ensures counts == old(counts).(exceptions := old(counts.exceptions) + 1)
      ensures table.Grid() == WithFirstCell(old(table.Grid()), html, CSS_EXCEPTION)
    {
      counts := counts.(exceptions := counts.exceptions + 1);
      table.RelabelFirstCell(html, CSS_EXCEPTION);
    }

    // -------------------------------------------------------------------------------
    // Row-level errors

    /** exceptionRow: always records EXCEPTION with the message. */
    method ExceptionRow(row: int, text: string)
      requires Valid()
      modifies this`errorStates, this`errorMessages
      ensures Valid()
      ensures errorMessages == old(errorMessages)[row := text]
      ensures errorStates == old(errorStates)[row := State.Exception]
    {
      errorMessages := errorMessages[row := text];
      errorStates := errorStates[row := State.Exception];
    }

    /** wrongRow: records WRONG with the message unless the row already holds EXCEPTION,
        which is never downgraded. */
    method WrongRow(row: int, text: string)
      requires Valid()
      modifies this`errorStates, this`errorMessages
      ensures Valid()
      ensures old(row in errorStates && errorStates[row] == State.Exception) ==>
        errorStates == old(errorStates) && errorMessages == old(errorMessages)
      ensures old(row !in errorStates || errorStates[row] != State.Exception) ==>
        errorStates == old(errorStates)[row := Wrong] && errorMessages == old(errorMessages)[row := text]
    {
      if row !in errorStates || errorStates[row] != State.Exception {
        errorMessages := errorMessages[row := text];
        errorStates := errorStates[row := Wrong];
      }
    }

    /** Every recorded row exists, and its `<tr>` will have a first cell once the feedback
        column is there (otherwise rows.get or td.text throws). */
    ghost predicate RowErrorsPaintable()
      reads this, table, RowTrSet()
    {
      forall k :: k in errorMessages ==>
        0 <= k < |rows| && (rows[k].tr.cells != [] || (!hasFeedbackColumn && rows[k].tr in table.Trs()))
    }

    ghost function CountsAfterRowErrors(): Counts
      reads this
    {
      counts.(wrong := counts.wrong + |WrongRows(errorStates)|,
              exceptions := counts.exceptions + |ExceptionRows(errorStates)|)
    }

    /** The cells of row i once processRowErrors has run. */
    ghost function RowCellsAfterErrors(i: int): seq<Td>
      requires Valid() && RowErrorsPaintable() && 0 <= i < |rows|
      reads this, table, RowTrSet()
    {
      if errorStates == map[] then rows[i].tr.cells
      else
        var c := WithFeedback(rows[i].tr);
        if i in errorMessages then Annotated(c, errorMessages[i], errorStates[i]) else c
    }

    ghost function CellsAfterRowErrors(): (g: seq<seq<Td>>)
      requires Valid() && RowErrorsPaintable()
      reads this, table, RowTrSet()
      ensures |g| == |rows| && forall i :: 0 <= i < |rows| ==> g[i] == RowCellsAfterErrors(i)
    {
      seq(|rows|, i requires 0 <= i < |rows| && Valid() && RowErrorsPaintable()
                    reads this, table, RowTrSet() => RowCellsAfterErrors(i))
    }

    /** The loop of processRowErrors over the recorded rows. */
    method PaintRowErrors()
      requires Valid()
      requires forall k :: k in errorMessages ==> 0 <= k < |rows| && rows[k].tr.cells != []
      modifies this`counts, RowTrSet()
      ensures Valid()
      ensures counts == old(CountsAfterRowErrors())
      ensures forall i :: 0 <= i < |rows| ==>
        rows[i].tr.cells == if i in errorMessages
                            then Annotated(old(rows[i].tr.cells), errorMessages[i], errorStates[i])
                            else old(rows[i].tr.cells)
    {
      var trs := TrsOf(rows);
      counts := PaintRows(trs, errorStates, errorMessages, counts);
      assert forall i :: 0 <= i < |rows| ==> rows[i].tr.cells == CellsOf(trs)[i];
    }

    /** processRowErrors: when any row error is recorded, the feedback column is ensured
        and every recorded row is painted. */
    method ProcessRowErrors()
      requires Valid() && RowErrorsPaintable()
      modifies this`counts, this`hasFeedbackColumn, table`prepended, table.Trs(), RowTrSet()
      ensures Valid()
      ensures hasFeedbackColumn == (old(hasFeedbackColumn) || errorStates != map[])
      ensures counts == old(CountsAfterRowErrors())
      ensures forall i :: 0 <= i < |rows| ==> rows[i].tr.cells == old(RowCellsAfterErrors(i))
      ensures forall t :: t in old(table.Trs()) && t !in RowTrSet() ==>
        t.cells == old(if errorStates == map[] then t.cells else WithFeedback(t))
      ensures table.body == old(table.body)
      ensures old(errorStates != map[] && !hasFeedbackColumn && |table.Trs()| == 0) ==>
        && |table.prepended| == old(|table.prepended|) + 1
        && fresh(table.prepended[0]) && table.prepended[1..] == old(table.prepended)
        && table.prepended[0].cells == [FeedbackTd()]
      ensures !old(errorStates != map[] && !hasFeedbackColumn && |table.Trs()| == 0) ==>
        table.prepended == old(table.prepended)
    {
      if errorStates != map[] {
        AddFeedbackColumn(false);
        PaintRowErrors();
      }
    }

    /** The per-cell finishing loop of finishExecution. */
    method FinishCells(step: CellStep)
      requires Valid()
      modifies this`counts, RowTrSet()
      ensures Valid()
      ensures (counts, CellsOf(TrsOf(rows))) == FinishGrid(step, old(counts), old(CellsOf(TrsOf(rows))))
    {
      counts := FinishTrs(step, counts, TrsOf(rows));
    }

    /** finishExecution: row errors, then every cell, then exactly one summary class on
        the table, chosen from the final counts. */
    method FinishExecution(step: CellStep)
      requires Valid() && RowErrorsPaintable()
      modifies this`counts, this`hasFeedbackColumn, table`prepended, table`classes
      modifies table.Trs(), RowTrSet()
      ensures Valid()
      ensures hasFeedbackColumn == (old(hasFeedbackColumn) || errorStates != map[])
      ensures (counts, CellsOf(TrsOf(rows))) == FinishGrid(step, old(CountsAfterRowErrors()), old(CellsAfterRowErrors()))
      ensures table.classes == old(table.classes) + {SummaryClass(counts)}
      ensures forall t :: t in old(table.Trs()) && t !in RowTrSet() ==>
        t.cells == old(if errorStates == map[] then t.cells else WithFeedback(t))
      ensures table.body == old(table.body)
      ensures old(errorStates != map[] && !hasFeedbackColumn && |table.Trs()| == 0) ==>
        && |table.prepended| == old(|table.prepended|) + 1
        && fresh(table.prepended[0]) && table.prepended[1..] == old(table.prepended)
        && table.prepended[0].cells == [FeedbackTd()]
      ensures !old(errorStates != map[] && !hasFeedbackColumn && |table.Trs()| == 0) ==>
        table.prepended == old(table.prepended)
    {
      ProcessAndFinishCells(step);
      ghost var finished := CellsOf(TrsOf(rows));
      PaintSummary();
      assert CellsOf(TrsOf(rows)) == finished;
    }

    /** The part of finishExecution before the summary class. */
    method ProcessAndFinishCells(step: CellStep)
      requires Valid() && RowErrorsPaintable()
      modifies this`counts, this`hasFeedbackColumn, table`prepended
      modifies table.Trs(), RowTrSet()
      ensures Valid()
      ensures hasFeedbackColumn == (old(hasFeedbackColumn) || errorStates != map[])
      ensures (counts, CellsOf(TrsOf(rows))) == FinishGrid(step, old(CountsAfterRowErrors()), old(CellsAfterRowErrors()))
      ensures forall t :: t in old(table.Trs()) && t !in RowTrSet() ==>
        t.cells == old(if errorStates == map[] then t.cells else WithFeedback(t))
      ensures table.body == old(table.body)
      ensures old(errorStates != map[] && !hasFeedbackColumn && |table.Trs()| == 0) ==>
        && |table.prepended| == old(|table.prepended|) + 1
        && fresh(table.prepended[0]) && table.prepended[1..] == old(table.prepended)
        && table.prepended[0].cells == [FeedbackTd()]
      ensures !old(errorStates != map[] && !hasFeedbackColumn && |table.Trs()| == 0) ==>
        table.prepended == old(table.prepended)
    {
      ghost var g1 := CellsAfterRowErrors();
      ghost var c1 := CountsAfterRowErrors();
      ProcessRowErrors();
      assert CellsOf(TrsOf(rows)) == g1;
      FinishCells(step);
    }

    /** The summary class of finishExecution, chosen from the final counts. */
    method PaintSummary()
      modifies table`classes
      ensures table.classes == old(table.classes) + {SummaryClass(counts)}
    {
      if counts.exceptions > 0 {
        table.classes := table.classes + {CSS_EXCEPTION};
      } else if counts.wrong > 0 {
        table.classes := table.classes + {CSS_WRONG};
      } else {
        table.classes := table.classes + {CSS_RIGHT};
      }
    }

    // -------------------------------------------------------------------------------
    // Structural edits

    /** updateIndices: every row's index becomes its position. */
    method UpdateIndices()
      requires Distinct(TrsOf(rows))
      modifies rows
      ensures Indexed(rows)
    {
      var i := 0;
      while i < |rows|
        invariant 0 <= i <= |rows|
        invariant forall j :: 0 <= j < i ==> rows[j].index == j
      {
        rows[i].index := i;
        i := i + 1;
      }
    }

    /** insert(index): a new empty `<tr>` goes into the `<tbody>` at index + contentStart
        and its new row into the row list at index. The caller must make the two positions
        agree; ignored rows and a prepended feedback row are not accounted for. */
    method Insert(index: int) returns (row: FitRow)
      requires Valid()
      requires 0 <= index <= |rows|
      requires 0 <= index + contentStart <= |table.body|
      modifies this`rows, table`body, rows
      ensures Valid() && Indexed(rows)
      ensures fresh(row) && fresh(row.tr) && row.tr.cells == [] && !row.tr.ignored
      ensures rows == old(rows)[..index] + [row] + old(rows)[index..]
      ensures table.body == old(table.body)[..index + contentStart] + [row.tr] + old(table.body)[index + contentStart..]
      ensures old(table.prepended == [] && Aligned()) ==> Aligned()
    {
      ghost var rowTrs := TrsOf(rows);
      ghost var aligned := table.prepended == [] && Aligned();
      var tr := new Tr(false, []);
      row := new FitRow(tr);
      assert tr !in table.Trs() && tr !in TrsOf(rows);
      table.InsertChild(index + contentStart, tr);
      DistinctInsert(TrsOf(rows), index, tr);
      rows := rows[..index] + [row] + rows[index..];
      assert TrsOf(rows) == rowTrs[..index] + [tr] + rowTrs[index..];
      UpdateIndices();
      if aligned {
        InsertKeepsAlignment(rowTrs, TrsOf(rows), old(table.body), table.body, contentStart, index, tr);
      }
    }

    /** appendRow: insert at the end of the row list. */
    method AppendRow() returns (row: FitRow)
      requires Valid()
      requires |rows| + contentStart <= |table.body| && 0 <= |rows| + contentStart
      modifies this`rows, table`body, rows
      ensures Valid() && Indexed(rows)
      ensures fresh(row) && fresh(row.tr) && row.tr.cells == []
      ensures rows == old(rows) + [row]
      ensures table.body == old(table.body)[..old(|rows|) + contentStart] + [row.tr]
                            + old(table.body)[old(|rows|) + contentStart..]
    {
      row := Insert(|rows|);
      assert old(rows)[..old(|rows|)] == old(rows);
    }

    /** remove(index): the `<tr>` at index + contentStart of select("tr") leaves the
        markup and the row at index leaves the row list. */
    method Remove(index: int)
      requires Valid()
      requires 0 <= index < |rows|
      requires 0 <= index + contentStart < |table.Trs()|
      modifies this`rows, table`prepended, table`body, rows
      ensures Valid() && Indexed(rows)
      ensures rows == old(rows)[..index] + old(rows)[index + 1..]
      ensures table.Trs() == old(table.Trs())[..index + contentStart] + old(table.Trs())[index + contentStart + 1..]
      ensures old(Aligned()) ==> Aligned()
    {
      ghost var rowTrs := TrsOf(rows);
      ghost var trs := table.Trs();
      ghost var aligned := Aligned();
      table.RemoveTr(index + contentStart);
      DistinctRemove(TrsOf(rows), index);
      rows := rows[..index] + rows[index + 1..];
      assert TrsOf(rows) == rowTrs[..index] + rowTrs[index + 1..];
      UpdateIndices();
      if aligned {
        DropKeepsAlignment(rowTrs, trs, contentStart, index);
      }
    }

    // -------------------------------------------------------------------------------
    // Rendering

    /** pretty(): every `<tr>` as its cells' texts, each followed by " | ", and a line break. */
    method Pretty() returns (s: string)
      ensures s == PrettyText(table.Grid())
    {
      var trs := table.Trs();
      ghost var g := table.Grid();
      s := "";
      var i := 0;
      while i < |trs|
        invariant 0 <= i <= |trs|
        invariant s == PrettyText(g[..i])
      {
        var line := PrettyRow(trs[i].cells);
        assert g[..i + 1][..i] == g[..i];
        s := s + line + "\n";
        i := i + 1;
      }
      assert g[..i] == g;
    }
  }

  /** The inner loop of pretty(): every cell's text followed by " | ". */
  method PrettyRow(tds: seq<Td>) returns (line: string)
    ensures line == RowText(tds)
  {
    line := "";
    var j := 0;
    while j < |tds|
      invariant 0 <= j <= |tds|
      invariant line == RowText(tds[..j])
    {
      assert tds[..j + 1][..j] == tds[..j];
      line := line + tds[j].text + " | ";
      j := j + 1;
    }
    assert tds[..j] == tds;
  }

  /** new FitTable(table): a FitTable, or the exception the Java constructor throws. */
  method NewFitTable(table: Table) returns (r: Result<FitTable, ConstructionError>)
    requires table.Valid()
    modifies table`prepended, table`classes, table.Trs()
    ensures r == Failure(IllegalArgument) <==> !IsComplete(old(table.Grid()))
    ensures r == Failure(NullPointer) <==>
      IsComplete(old(table.Grid())) && !HasAttr(table.attributes, ATTR_FIXTURE)
      && old(table.Trs()[0].cells) == []
    ensures r == Failure(IllegalArgument) ==>
      && table.classes == old(table.classes) + {CSS_EXCEPTION}
      && table.Grid() == WithFirstCell(
           WithFeedbackColumn(if old(table.Grid()) == [] then [[]] else old(table.Grid())),
           INCOMPLETE_TABLE, CSS_EXCEPTION)
    ensures r == Failure(NullPointer) ==>
      table.Grid() == old(table.Grid()) && table.classes == old(table.classes)
    ensures r.Success? ==>
      && fresh(r.value) && r.value.table == table && r.value.Valid() && r.value.Parsed()
      && Indexed(r.value.rows)
      && table.Trs() == old(table.Trs())
      && table.Grid() == old(table.Grid()) && table.classes == old(table.classes)
      && r.value.counts == Counts(0, 0, 0, 0) && !r.value.hasFeedbackColumn
      && r.value.errorStates == map[] && r.value.errorMessages == map[]
  {
    var ft := new FitTable(table);
    var outcome := ft.Construct();
    match outcome
    case Constructed => r := Success(ft);
    case InvalidTable => r := Failure(IllegalArgument);
    case MissingHeaderCell => r := Failure(NullPointer);
  }
}
