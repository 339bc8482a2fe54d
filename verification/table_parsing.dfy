/** What a FitTable reads out of its markup when it is constructed: whether the table is
    complete, the argument map of either header style, and the content rows. */
module TableParsing {
  import opened Wrappers
  import opened Text
  import opened Constants
  import opened ArgumentPattern
  import opened Markup

  /** checkTable: at least one `<tr>`, and at least one `<td>` in all of them together. */
  predicate IsComplete(g: seq<seq<Td>>) {
    |g| > 0 && exists i :: 0 <= i < |g| && g[i] != []
  }

  function Texts(cells: seq<Td>): (r: seq<string>)
    ensures |r| == |cells| && forall i :: 0 <= i < |cells| ==> r[i] == cells[i].text
  {
    seq(|cells|, i requires 0 <= i < |cells| => cells[i].text)
  }

  // ---------------------------------------------------------------------------------
  // Legacy header: the first row is "Fixture | key=value | ... | plain | ...".

  /** The lower-cased group 1 of a header cell that matches the argument pattern. */
  function NamedKey(text: string): Option<string> {
    match ParseArgument(text)
    case Some((key, _)) => Some(ToLower(key))
    case None => None
  }

  /** What a header cell stores: group 2 when it matches, its raw text otherwise. */
  function CellValue(text: string): string {
    match ParseArgument(text)
    case Some((_, value)) => value
    case None => text
  }

  /** The puts parseOldStyleHeader makes for argument cell k (0-based, after the fixture
      cell): the named key first, then the positional key. */
  function PutHeaderCell(args: map<string, string>, k: nat, text: string): map<string, string> {
    match ParseArgument(text)
    case Some((key, value)) => args[ToLower(key) := value][NatToString(k) := value]
    case None => args[NatToString(k) := text]
  }

  /** The argument map after all argument cells, in order. */
  function OldStyleArgs(texts: seq<string>): map<string, string> {
    if texts == [] then map[]
    else PutHeaderCell(OldStyleArgs(texts[..|texts| - 1]), |texts| - 1, texts[|texts| - 1])
  }

  /** Argument cell k puts something under key x. */
  predicate HeaderCellWrites(texts: seq<string>, k: nat, x: string)
    requires k < |texts|
  {
    x == NatToString(k) || NamedKey(texts[k]) == Some(x)
  }

  /** A key is in the legacy argument map exactly when some argument cell writes it, and
      it holds the value of the last cell that does. */
  lemma OldStyleArgsLookup(texts: seq<string>, x: string)
    ensures x in OldStyleArgs(texts) <==> exists k :: 0 <= k < |texts| && HeaderCellWrites(texts, k, x)
    ensures forall k :: (0 <= k < |texts| && HeaderCellWrites(texts, k, x)
                         && (forall j :: k < j < |texts| ==> !HeaderCellWrites(texts, j, x)))
                        ==> x in OldStyleArgs(texts) && OldStyleArgs(texts)[x] == CellValue(texts[k])
  {
    OldStyleArgsKeys(texts, x);
    forall k | 0 <= k < |texts| && HeaderCellWrites(texts, k, x)
        && (forall j :: k < j < |texts| ==> !HeaderCellWrites(texts, j, x))
      ensures x in OldStyleArgs(texts) && OldStyleArgs(texts)[x] == CellValue(texts[k])
    {
      OldStyleArgsValue(texts, x, k);
    }
  }

  /** The argument cells before the last one write what they wrote on their own. */
  lemma HeaderCellWritesInit(texts: seq<string>, k: nat, x: string)
    requires k < |texts| - 1
    ensures HeaderCellWrites(texts[..|texts| - 1], k, x) == HeaderCellWrites(texts, k, x)
  {
    assert texts[..|texts| - 1][k] == texts[k];
  }

  lemma {:induction false} OldStyleArgsKeys(texts: seq<string>, x: string)
    ensures x in OldStyleArgs(texts) <==> exists k :: 0 <= k < |texts| && HeaderCellWrites(texts, k, x)
    decreases |texts|
  {
    if texts != [] {
      var n := |texts| - 1;
      var init := texts[..n];
      OldStyleArgsKeys(init, x);
      PutHeaderCellLookup(OldStyleArgs(init), n, texts[n], x);
      if x in OldStyleArgs(texts) && !HeaderCellWrites(texts, n, x) {
        var k :| 0 <= k < n && HeaderCellWrites(init, k, x);
        HeaderCellWritesInit(texts, k, x);
      }
      if k :| 0 <= k < n && HeaderCellWrites(texts, k, x) {
        HeaderCellWritesInit(texts, k, x);
      }
    }
  }

  lemma {:induction false} OldStyleArgsValue(texts: seq<string>, x: string, k: nat)
    requires k < |texts| && HeaderCellWrites(texts, k, x)
    requires forall j :: k < j < |texts| ==> !HeaderCellWrites(texts, j, x)
    ensures x in OldStyleArgs(texts) && OldStyleArgs(texts)[x] == CellValue(texts[k])
    decreases |texts|
  {
    var n := |texts| - 1;
    var init := texts[..n];
    assert OldStyleArgs(texts) == PutHeaderCell(OldStyleArgs(init), n, texts[n]);
    PutHeaderCellLookup(OldStyleArgs(init), n, texts[n], x);
    if k < n {
      assert !HeaderCellWrites(texts, n, x);
      HeaderCellWritesInit(texts, k, x);
      forall j | k < j < n
        ensures !HeaderCellWrites(init, j, x)
      {
        HeaderCellWritesInit(texts, j, x);
      }
      OldStyleArgsValue(init, x, k);
      assert texts[k] == init[k];
    }
  }

  /** The effect of one argument cell on key x. */
  lemma PutHeaderCellLookup(args: map<string, string>, k: nat, text: string, x: string)
    ensures var r := PutHeaderCell(args, k, text);
      && (x in r <==> x in args || x == NatToString(k) || NamedKey(text) == Some(x))
      && (x == NatToString(k) || NamedKey(text) == Some(x) ==> x in r && r[x] == CellValue(text))
      && (x != NatToString(k) && NamedKey(text) != Some(x) && x in args ==> r[x] == args[x])
  {
  }

  // ---------------------------------------------------------------------------------
  // Attribute-style header: <table fixture="..." arg-name="value" ...>.

  predicate HasAttr(attributes: seq<(string, string)>, name: string) {
    exists i :: 0 <= i < |attributes| && attributes[i].0 == name
  }

  /** attr(name): the value of the attribute called name, "" when there is none. */
  function AttrValue(attributes: seq<(string, string)>, name: string): (v: string)
    ensures HasAttr(attributes, name) ==> exists i :: 0 <= i < |attributes| && attributes[i] == (name, v)
    ensures !HasAttr(attributes, name) ==> v == ""
  {
    if attributes == [] then ""
    else if attributes[0].0 == name then attributes[0].1
    else
      var v := AttrValue(attributes[1..], name);
      assert HasAttr(attributes[1..], name) ==> exists i :: 1 <= i < |attributes| && attributes[i] == (name, v);
      v
  }

  /** The argument key an attribute contributes: its lower-cased name without the prefix,
      when the lower-cased name starts with the prefix. */
  function ArgumentKey(name: string): Option<string> {
    var lower := ToLower(name);
    if StartsWith(lower, ATTR_ARGUMENT_PREFIX) then Some(lower[|ATTR_ARGUMENT_PREFIX|..]) else None
  }

  function NewStyleArgs(attributes: seq<(string, string)>): map<string, string> {
    if attributes == [] then map[]
    else
      var args := NewStyleArgs(attributes[..|attributes| - 1]);
      var (name, value) := attributes[|attributes| - 1];
      match ArgumentKey(name)
      case Some(key) => args[key := value]
      case None => args
  }

  /** A key is in the attribute-style argument map exactly when some argument attribute
      yields it, and it holds the value of the last such attribute; other attributes add
      nothing. */
  lemma {:induction false} NewStyleArgsLookup(attributes: seq<(string, string)>, x: string)
    ensures x in NewStyleArgs(attributes) <==>
      exists k :: 0 <= k < |attributes| && ArgumentKey(attributes[k].0) == Some(x)
    ensures forall k :: (0 <= k < |attributes| && ArgumentKey(attributes[k].0) == Some(x)
                         && (forall j :: k < j < |attributes| ==> ArgumentKey(attributes[j].0) != Some(x)))
                        ==> x in NewStyleArgs(attributes) && NewStyleArgs(attributes)[x] == attributes[k].1
    decreases |attributes|
  {
    if attributes != [] {
      var n := |attributes| - 1;
      var init := attributes[..n];
      NewStyleArgsLookup(init, x);
      assert forall k :: 0 <= k < n ==> init[k] == attributes[k];
    }
  }

  // ---------------------------------------------------------------------------------
  // Content rows.

  /** The rows that become FitRows: those ParserUtils.isIgnored does not reject, in order. */
  function ContentRows(trs: seq<Tr>): (r: seq<Tr>)
    ensures |r| <= |trs|
    ensures forall i :: 0 <= i < |r| ==> r[i] in trs && !r[i].ignored
    ensures forall i :: 0 <= i < |trs| && !trs[i].ignored ==> trs[i] in r
  {
    if trs == [] then []
    else
      var last := trs[|trs| - 1];
      assert trs == trs[..|trs| - 1] + [last];
      ContentRows(trs[..|trs| - 1]) + (if last.ignored then [] else [last])
  }

  /** Filtering keeps document order: it distributes over concatenation. */
  lemma {:induction false} ContentRowsAppend(a: seq<Tr>, b: seq<Tr>)
    ensures ContentRows(a + b) == ContentRows(a) + ContentRows(b)
    decreases |b|
  {
    if b == [] {
      assert a + b == a;
    } else {
      var init := b[..|b| - 1];
      assert (a + b)[..|a + b| - 1] == a + init;
      ContentRowsAppend(a, init);
    }
  }

  /** Filtering keeps elements distinct. */
  lemma {:induction false} ContentRowsDistinct(trs: seq<Tr>)
    requires Distinct(trs)
    ensures Distinct(ContentRows(trs))
    decreases |trs|
  {
    if trs != [] {
      var init := trs[..|trs| - 1];
      var last := trs[|trs| - 1];
      assert Distinct(init);
      ContentRowsDistinct(init);
      assert last !in init;
    }
  }
}
