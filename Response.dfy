/**
  * response.go: a parsed server answer, path lookups into it, the table convention, and the
  * recognition of error answers.
  */
module Response {
  import opened Wrappers
  import opened Text

  // ---------------------------------------------------------------------------
  // The parsed document and path lookups
  // ---------------------------------------------------------------------------

  /**
    * A parsed XML document as the map library represents it: a text value, an element whose
    * children and attributes are named fields (attributes under a "-" prefix), or the list of the
    * values of an element name that occurs more than once.
    */
  datatype Node = Str(s: string) | Obj(fields: map<string, Node>) | Arr(items: seq<Node>)

  /** One step of a dotted path: a field name, or a field name with a list index ("row[3]"). */
  datatype Segment = Key(name: string) | At(name: string, index: nat)

  /**
    * A path as its dot-separated names, e.g. ["BroadsoftDocument", "command", "summary"]; the
    * library cuts the dotted text at its dots before it reads each name.
    */
  type Path = seq<string>

  /** Why a lookup found nothing. */
  datatype LookupError = BadPath(path: Path) | NotFound(path: Path)

  /** Reads one step of a path: "name" or "name[digits]"; None for any other use of '['. */
  function ParseSegment(s: string): (r: Option<Segment>)
    ensures r.Some? && r.value.Key? ==> r.value.name == s && '[' !in s
  {
    var j := IndexOf(s, '[');
    if j == |s| then Some(Key(s))
    else if j + 3 <= |s| && s[|s| - 1] == ']' && AllDigits(s[j + 1..|s| - 1]) then
      Some(At(s[..j], DecimalValue(s[j + 1..|s| - 1])))
    else None
  }

  /** Reads every step of a path, or None when one of them is malformed. */
  function ParsePath(path: Path): (r: Option<seq<Segment>>)
    ensures r.Some? ==> |r.value| == |path|
  {
    Collect(Steps(path))
  }

  /** Each name of a path read on its own. */
  function Steps(path: Path): (r: seq<Option<Segment>>)
    ensures |r| == |path|
  {
    seq(|path|, i requires 0 <= i < |path| => ParseSegment(path[i]))
  }

  /** The steps, in order, when every one of them was read; None as soon as one was malformed. */
  function Collect(steps: seq<Option<Segment>>): (r: Option<seq<Segment>>)
    ensures r.Some? ==> |r.value| == |steps|
  {
    if steps == [] then Some([])
    else
      var rest := Collect(steps[1..]);
      if steps[0].None? || rest.None? then None else Some([steps[0].value] + rest.value)
  }

  /**
    * Every value a path reaches. A list met on the way is searched element by element, and a list
    * at the end of the path contributes its elements, so that the values of a repeated element are
    * listed in document order. An index counts among those values: an element that occurs once is
    * index 0.
    */
  function Values(n: Node, path: seq<Segment>): seq<Node>
    decreases n, 1
  {
    if path == [] then Listed(n)
    else
      match n
      case Str(_) => []
      case Arr(items) => ValuesEach(items, path)
      case Obj(fields) =>
        if path[0].name !in fields then []
        else
          match path[0]
          case Key(name) => Values(fields[name], path[1..])
          case At(name, i) =>
            var v := fields[name];
            if v.Arr? then (if i < |v.items| then Values(v.items[i], path[1..]) else [])
            else if i == 0 then Values(v, path[1..])
            else []
  }

  function ValuesEach(xs: seq<Node>, path: seq<Segment>): seq<Node>
    decreases xs, 0
  {
    if xs == [] then [] else Values(xs[0], path) + ValuesEach(xs[1..], path)
  }

  /** mxj's ValuesForPath: every value at the path, or an error when there is none. */
  function ValuesForPath(doc: Node, path: Path): (r: Result<seq<Node>, LookupError>)
    ensures r.Ok? ==> ParsePath(path).Some? && r.value == Values(doc, ParsePath(path).value) && r.value != []
    ensures r.Err? ==> r.error == BadPath(path) || r.error == NotFound(path)
    ensures r.Err? <==> ParsePath(path).None? || Values(doc, ParsePath(path).value) == []
  {
    match ParsePath(path)
    case None => Err(BadPath(path))
    case Some(p) =>
      var vs := Values(doc, p);
      if vs == [] then Err(NotFound(path)) else Ok(vs)
  }

  /** mxj's ValueForPath: the first value at the path. */
  function ValueForPath(doc: Node, path: Path): (r: Result<Node, LookupError>)
    ensures r.Ok? <==> ValuesForPath(doc, path).Ok?
    ensures r.Ok? ==> r.value == ValuesForPath(doc, path).value[0]
  {
    match ValuesForPath(doc, path)
    case Err(e) => Err(e)
    case Ok(vs) => Ok(vs[0])
  }

  /** The steps are collected exactly when each was read, and in their own order. */
  lemma {:induction false} CollectSteps(steps: seq<Option<Segment>>)
    ensures Collect(steps).Some? <==> forall i :: 0 <= i < |steps| ==> steps[i].Some?
    ensures Collect(steps).Some? ==> forall i :: 0 <= i < |steps| ==> Collect(steps).value[i] == steps[i].value
  {
    if steps != [] {
      CollectSteps(steps[1..]);
      if !steps[0].Some? {
        assert !(forall i :: 0 <= i < |steps| ==> steps[i].Some?);
      } else if Collect(steps).Some? {
        forall i | 0 < i < |steps|
          ensures Collect(steps).value[i] == steps[i].value
        {
          assert steps[1..][i - 1] == steps[i];
        }
      } else {
        assert !steps[1..][0].Some? || exists i :: 0 <= i < |steps[1..]| && !steps[1..][i].Some?;
      }
    }
  }

  /** A path reads as one step per name, each name read on its own. */
  lemma ParsePathSteps(path: Path)
    ensures ParsePath(path).Some? <==> forall i :: 0 <= i < |path| ==> ParseSegment(path[i]).Some?
    ensures ParsePath(path).Some? ==> forall i :: 0 <= i < |path| ==> ParsePath(path).value[i] == ParseSegment(path[i]).value
  {
    var steps := Steps(path);
    CollectSteps(steps);
    assert forall i :: 0 <= i < |path| ==> steps[i] == ParseSegment(path[i]);
  }

  /** Collecting the steps of two paths one after the other. */
  lemma {:induction false} CollectAppend(x: seq<Option<Segment>>, y: seq<Option<Segment>>)
    requires Collect(x).Some? && Collect(y).Some?
    ensures Collect(x + y) == Some(Collect(x).value + Collect(y).value)
  {
    if x == [] {
      assert x + y == y && Collect(x).value == [];
      assert Collect(x).value + Collect(y).value == Collect(y).value;
    } else {
      assert (x + y)[1..] == x[1..] + y;
      CollectAppend(x[1..], y);
      var u, v := Collect(x[1..]).value, Collect(y).value;
      assert [x[0].value] + (u + v) == ([x[0].value] + u) + v;
    }
  }

  /** Paths are read step by step: the steps of a longer path extend those of its prefix. */
  lemma ParsePathAppend(a: Path, b: Path)
    requires ParsePath(a).Some? && ParsePath(b).Some?
    ensures ParsePath(a + b) == Some(ParsePath(a).value + ParsePath(b).value)
  {
    StepsAppend(a, b);
    CollectAppend(Steps(a), Steps(b));
  }

  /** The names of two paths one after the other are read as each path's names. */
  lemma StepsAppend(a: Path, b: Path)
    ensures Steps(a + b) == Steps(a) + Steps(b)
  {
    var x, y, z := Steps(a), Steps(b), Steps(a + b);
    forall i | 0 <= i < |a + b|
      ensures z[i] == (x + y)[i]
    {
      if i < |a| {
        assert (a + b)[i] == a[i] && (x + y)[i] == x[i];
      } else {
        assert (a + b)[i] == b[i - |a|] && (x + y)[i] == y[i - |a|];
      }
    }
  }

  /** A path of two names reads as their two steps. */
  lemma ParsePathPair(x: string, y: string)
    requires ParseSegment(x).Some? && ParseSegment(y).Some?
    ensures ParsePath([x, y]) == Some([ParseSegment(x).value, ParseSegment(y).value])
  {
    var p := [x, y];
    ParsePathSteps(p);
    assert p[0] == x && p[1] == y;
    var w := ParsePath(p).value;
    assert w[0] == ParseSegment(x).value && w[1] == ParseSegment(y).value;
    assert w == [ParseSegment(x).value, ParseSegment(y).value];
  }

  /** A name without '[' is one plain step. */
  lemma PlainStep(name: string)
    requires '[' !in name
    ensures ParsePath([name]) == Some([Key(name)])
  {
    assert IndexOf(name, '[') == |name|;
    ParsePathSteps([name]);
    assert [name][0] == name;
    assert ParsePath([name]).value == [Key(name)];
  }

  // ---------------------------------------------------------------------------
  // Response paths
  // ---------------------------------------------------------------------------

  const COMMAND_PATH: Path := ["BroadsoftDocument", "command"]
  const SUMMARY_PATH: Path := ["BroadsoftDocument", "command", "summary"]
  const NONCE_PATH: Path := ["BroadsoftDocument", "command", "nonce"]

  /** A path of names without '[' is read as those names, one plain step each. */
  lemma {:induction false} PlainPath(names: Path)
    requires forall i :: 0 <= i < |names| ==> '[' !in names[i]
    ensures ParsePath(names).Some?
    ensures forall i :: 0 <= i < |names| ==> ParsePath(names).value[i] == Key(names[i])
  {
    if names != [] {
      PlainStep(names[0]);
      PlainPath(names[1..]);
      ParsePathAppend([names[0]], names[1..]);
      assert names == [names[0]] + names[1..];
    }
  }

  /** The values an element name stands for: the items of a repeated element, or the element itself. */
  function Listed(v: Node): seq<Node> {
    if v.Arr? then v.items else [v]
  }

  /**
    * The node that plain names lead to from n through elements, or None when a name is missing or
    * a node on the way is not an element.
    */
  function Descend(n: Node, names: seq<string>): Option<Node> {
    if names == [] then Some(n)
    else if n.Obj? && names[0] in n.fields then Descend(n.fields[names[0]], names[1..])
    else None
  }

  /** No node met before the last name is a list, which a lookup would search element by element. */
  predicate ListFree(n: Node, names: seq<string>) {
    names == [] ||
    (!n.Arr? && (n.Obj? && names[0] in n.fields ==> ListFree(n.fields[names[0]], names[1..])))
  }

  /** Plain steps through elements reach the values of the node the names lead to, or nothing. */
  lemma {:induction false} ValuesDescend(n: Node, names: seq<string>, p: seq<Segment>)
    requires |p| == |names| && forall i :: 0 <= i < |p| ==> p[i] == Key(names[i])
    requires ListFree(n, names)
    ensures Values(n, p) == if Descend(n, names).Some? then Listed(Descend(n, names).value) else []
    decreases names
  {
    if names != [] && n.Obj? && names[0] in n.fields {
      assert p[0] == Key(names[0]);
      ValuesDescend(n.fields[names[0]], names[1..], p[1..]);
    }
  }

  /**
    * A lookup by plain names through elements finds what the names lead to: that element, or the
    * items of a repeated last element; it fails with NotFound when a name is missing.
    */
  lemma PlainLookup(doc: Node, names: Path)
    requires forall i :: 0 <= i < |names| ==> '[' !in names[i]
    requires ListFree(doc, names)
    ensures Descend(doc, names).None? ==> ValuesForPath(doc, names) == Err(NotFound(names))
    ensures Descend(doc, names).Some? && Listed(Descend(doc, names).value) != [] ==>
              ValuesForPath(doc, names) == Ok(Listed(Descend(doc, names).value))
    ensures Descend(doc, names).Some? && Listed(Descend(doc, names).value) == [] ==>
              ValuesForPath(doc, names) == Err(NotFound(names))
  {
    PlainPath(names);
    ValuesDescend(doc, names, ParsePath(names).value);
  }

  /** Indexing a name addresses the values found for it: the i-th of them, then the rest of the path. */
  lemma IndexAddressesListed(fields: map<string, Node>, name: string, i: nat, rest: seq<Segment>)
    requires name in fields && i < |Listed(fields[name])|
    ensures Values(Obj(fields), [Key(name)]) == Listed(fields[name])
    ensures Values(Obj(fields), [At(name, i)] + rest) == Values(Listed(fields[name])[i], rest)
  {
    assert ([At(name, i)] + rest)[0] == At(name, i) && ([At(name, i)] + rest)[1..] == rest;
  }

  // ---------------------------------------------------------------------------
  // Tables (GetTable, response.go:56-77)
  // ---------------------------------------------------------------------------

  /**
    * What GetTable needs of one row so as not to panic: the headings and the cells under them are
    * texts, and the row has at least as many cells as there are headings.
    */
  predicate CellsText(headings: seq<Node>, cols: seq<Node>) {
    |headings| <= |cols| && forall j :: 0 <= j < |headings| ==> headings[j].Str? && cols[j].Str?
  }

  /** The map of a row once its first n headings are assigned their cells, in order. */
  function RowMap(headings: seq<Node>, cols: seq<Node>, n: nat): map<string, string>
    requires n <= |headings| && CellsText(headings, cols)
  {
    if n == 0 then map[] else RowMap(headings, cols, n - 1)[headings[n - 1].s := cols[n - 1].s]
  }

  /** The path of the cells of row i: path + ".row[i].col". */
  function RowPath(path: Path, i: nat): Path {
    path + ["row[" + Decimal(i) + "]", "col"]
  }

  /** Rows i..n-1, visited in order up to the first whose cells are missing, have text cells. */
  predicate RowsReadable(doc: Node, path: Path, headings: seq<Node>, i: nat, n: nat)
    decreases n - i
  {
    i >= n ||
    match ValuesForPath(doc, RowPath(path, i))
    case Err(_) => true
    case Ok(cols) => CellsText(headings, cols) && RowsReadable(doc, path, headings, i + 1, n)
  }

  /** The maps of rows i..n-1, or the error of the first of them whose cells are missing. */
  function RowsFrom(doc: Node, path: Path, headings: seq<Node>, i: nat, n: nat)
    : (r: Result<seq<map<string, string>>, LookupError>)
    requires i <= n && RowsReadable(doc, path, headings, i, n)
    ensures r.Ok? ==> |r.value| == n - i
    decreases n - i
  {
    if i == n then Ok([])
    else
      match ValuesForPath(doc, RowPath(path, i))
      case Err(e) => Err(e)
      case Ok(cols) =>
        match RowsFrom(doc, path, headings, i + 1, n)
        case Err(e) => Err(e)
        case Ok(rest) => Ok([RowMap(headings, cols, |headings|)] + rest)
  }

  /** Rows i..n-1 are built in order, and the build fails exactly when some row's cells are missing. */
  /** All n rows of a table: what they hold when they are built, and which error when they are not. */
  lemma RowsOutcome(doc: Node, path: Path, headings: seq<Node>, n: nat)
    requires RowsReadable(doc, path, headings, 0, n)
    ensures var r := RowsFrom(doc, path, headings, 0, n);
      r.Ok? ==>
        |r.value| == n &&
        forall i :: 0 <= i < n ==>
          ValuesForPath(doc, RowPath(path, i)).Ok? &&
          CellsText(headings, ValuesForPath(doc, RowPath(path, i)).value) &&
          r.value[i] == RowMap(headings, ValuesForPath(doc, RowPath(path, i)).value, |headings|)
    ensures var r := RowsFrom(doc, path, headings, 0, n);
      (r.Err? <==> exists i :: 0 <= i < n && ValuesForPath(doc, RowPath(path, i)).Err?) &&
      (r.Err? ==> ValuesForPath(doc, RowPath(path, FirstMissingRow(doc, path, 0, n))) == Err(r.error))
  {
    RowsFromSpec(doc, path, headings, 0, n);
    RowsFromFirstError(doc, path, headings, 0, n);
    FirstMissingRowIs(doc, path, 0, n);
  }

  /** The first of rows i..n-1 whose cells are missing, or n when none is. */
  function FirstMissingRow(doc: Node, path: Path, i: nat, n: nat): (k: nat)
    requires i <= n
    ensures i <= k <= n
    decreases n - i
  {
    if i == n || ValuesForPath(doc, RowPath(path, i)).Err? then i else FirstMissingRow(doc, path, i + 1, n)
  }

  /** Every row before the first missing one has its cells, and that one has none. */
  lemma {:induction false} FirstMissingRowIs(doc: Node, path: Path, i: nat, n: nat)
    requires i <= n
    ensures var k := FirstMissingRow(doc, path, i, n);
      (forall j :: i <= j < k ==> ValuesForPath(doc, RowPath(path, j)).Ok?) &&
      (k < n ==> ValuesForPath(doc, RowPath(path, k)).Err?)
    decreases n - i
  {
    if i < n && ValuesForPath(doc, RowPath(path, i)).Ok? {
      FirstMissingRowIs(doc, path, i + 1, n);
      var k := FirstMissingRow(doc, path, i, n);
      forall j | i <= j < k
        ensures ValuesForPath(doc, RowPath(path, j)).Ok?
      {
        if j > i {
          assert i + 1 <= j < FirstMissingRow(doc, path, i + 1, n);
        }
      }
    }
  }

  /**
    * The rows fail exactly when one of them has no cells, and then with the error of the first
    * such row.
    */
  lemma {:induction false} RowsFromFirstError(doc: Node, path: Path, headings: seq<Node>, i: nat, n: nat)
    requires i <= n && RowsReadable(doc, path, headings, i, n)
    ensures RowsFrom(doc, path, headings, i, n).Err? <==> FirstMissingRow(doc, path, i, n) < n
    ensures RowsFrom(doc, path, headings, i, n).Err? ==>
              ValuesForPath(doc, RowPath(path, FirstMissingRow(doc, path, i, n))) == Err(RowsFrom(doc, path, headings, i, n).error)
    decreases n - i
  {
    if i < n && ValuesForPath(doc, RowPath(path, i)).Ok? {
      RowsFromFirstError(doc, path, headings, i + 1, n);
      assert FirstMissingRow(doc, path, i, n) == FirstMissingRow(doc, path, i + 1, n);
    }
  }

  lemma {:induction false} RowsFromSpec(doc: Node, path: Path, headings: seq<Node>, i: nat, n: nat)
    requires i <= n && RowsReadable(doc, path, headings, i, n)
    ensures var r := RowsFrom(doc, path, headings, i, n);
      r.Ok? ==>
        forall k :: i <= k < n ==>
          ValuesForPath(doc, RowPath(path, k)).Ok? &&
          CellsText(headings, ValuesForPath(doc, RowPath(path, k)).value) &&
          r.value[k - i] == RowMap(headings, ValuesForPath(doc, RowPath(path, k)).value, |headings|)
    ensures RowsFrom(doc, path, headings, i, n).Err? <==> exists k :: i <= k < n && ValuesForPath(doc, RowPath(path, k)).Err?
    decreases n - i
  {
    if i < n && ValuesForPath(doc, RowPath(path, i)).Ok? {
      RowsFromSpec(doc, path, headings, i + 1, n);
      var r := RowsFrom(doc, path, headings, i, n);
      if r.Ok? {
        forall k | i <= k < n
          ensures ValuesForPath(doc, RowPath(path, k)).Ok? &&
                  CellsText(headings, ValuesForPath(doc, RowPath(path, k)).value) &&
                  r.value[k - i] == RowMap(headings, ValuesForPath(doc, RowPath(path, k)).value, |headings|)
        {
          RowBuilt(doc, path, headings, i, n, k);
        }
      }
    }
  }

  /** Row k of a successful build is the map of the cells found at row k's path. */
  lemma {:induction false} RowBuilt(doc: Node, path: Path, headings: seq<Node>, i: nat, n: nat, k: nat)
    requires i <= k < n && RowsReadable(doc, path, headings, i, n)
    requires RowsFrom(doc, path, headings, i, n).Ok?
    ensures ValuesForPath(doc, RowPath(path, k)).Ok?
    ensures CellsText(headings, ValuesForPath(doc, RowPath(path, k)).value)
    ensures RowsFrom(doc, path, headings, i, n).value[k - i]
         == RowMap(headings, ValuesForPath(doc, RowPath(path, k)).value, |headings|)
    decreases k - i
  {
    if k == i {
      FirstRowBuilt(doc, path, headings, i, n);
    } else {
      RowsFromCons(doc, path, headings, i, n);
      RowBuilt(doc, path, headings, i + 1, n, k);
      var row := RowMap(headings, ValuesForPath(doc, RowPath(path, i)).value, |headings|);
      LaterRow(row, RowsFrom(doc, path, headings, i + 1, n).value, k - i);
    }
  }

  /** The first row of a successful build is the map of the cells at its path. */
  lemma FirstRowBuilt(doc: Node, path: Path, headings: seq<Node>, i: nat, n: nat)
    requires i < n && RowsReadable(doc, path, headings, i, n)
    requires RowsFrom(doc, path, headings, i, n).Ok?
    ensures ValuesForPath(doc, RowPath(path, i)).Ok?
    ensures CellsText(headings, ValuesForPath(doc, RowPath(path, i)).value)
    ensures RowsFrom(doc, path, headings, i, n).value[0]
         == RowMap(headings, ValuesForPath(doc, RowPath(path, i)).value, |headings|)
  {
    RowsFromCons(doc, path, headings, i, n);
  }

  /** A successful build is row i's map followed by the build of the rows after it. */
  lemma RowsFromCons(doc: Node, path: Path, headings: seq<Node>, i: nat, n: nat)
    requires i < n && RowsReadable(doc, path, headings, i, n)
    requires RowsFrom(doc, path, headings, i, n).Ok?
    ensures ValuesForPath(doc, RowPath(path, i)).Ok?
    ensures CellsText(headings, ValuesForPath(doc, RowPath(path, i)).value)
    ensures RowsReadable(doc, path, headings, i + 1, n) && RowsFrom(doc, path, headings, i + 1, n).Ok?
    ensures RowsFrom(doc, path, headings, i, n).value
         == [RowMap(headings, ValuesForPath(doc, RowPath(path, i)).value, |headings|)] + RowsFrom(doc, path, headings, i + 1, n).value
  {
  }

  /** Past the first row, the rows are those that follow it. */
  lemma LaterRow(row: map<string, string>, rest: seq<map<string, string>>, j: nat)
    requires 0 < j <= |rest|
    ensures ([row] + rest)[j] == rest[j - 1]
  {
  }

  /** Prefixes the rows already built to the outcome of the remaining ones. */
  function Prepend(rows: seq<map<string, string>>, r: Result<seq<map<string, string>>, LookupError>)
    : Result<seq<map<string, string>>, LookupError>
  {
    match r
    case Err(e) => Err(e)
    case Ok(rest) => Ok(rows + rest)
  }

  /** What GetTable needs of a document so as not to panic. */
  predicate TableReadable(doc: Node, path: Path) {
    match ValuesForPath(doc, path + ["colHeading"])
    case Err(_) => true
    case Ok(headings) =>
      match ValuesForPath(doc, path + ["row"])
      case Err(_) => true
      case Ok(rows) => RowsReadable(doc, path, headings, 0, |rows|)
  }

  /**
    * The table at path: one map per row, in row order, from each heading to the cell at its
    * position; or the error of the headings, of the rows, or of the first row without cells.
    */
  function Table(doc: Node, path: Path): (r: Result<seq<map<string, string>>, LookupError>)
    requires TableReadable(doc, path)
    ensures ValuesForPath(doc, path + ["colHeading"]).Err? ==> r == Err(ValuesForPath(doc, path + ["colHeading"]).error)
    ensures ValuesForPath(doc, path + ["colHeading"]).Ok? && ValuesForPath(doc, path + ["row"]).Err? ==>
              r == Err(ValuesForPath(doc, path + ["row"]).error)
    ensures r.Ok? ==>
              var headings := ValuesForPath(doc, path + ["colHeading"]).value;
              var rows := ValuesForPath(doc, path + ["row"]).value;
              |r.value| == |rows| &&
              forall i :: 0 <= i < |rows| ==>
                ValuesForPath(doc, RowPath(path, i)).Ok? &&
                CellsText(headings, ValuesForPath(doc, RowPath(path, i)).value) &&
                r.value[i] == RowMap(headings, ValuesForPath(doc, RowPath(path, i)).value, |headings|)
    ensures ValuesForPath(doc, path + ["colHeading"]).Ok? && ValuesForPath(doc, path + ["row"]).Ok? ==>
              var rows := ValuesForPath(doc, path + ["row"]).value;
              (r.Err? <==> exists i :: 0 <= i < |rows| && ValuesForPath(doc, RowPath(path, i)).Err?) &&
              (r.Err? ==> ValuesForPath(doc, RowPath(path, FirstMissingRow(doc, path, 0, |rows|))) == Err(r.error))
  {
    match ValuesForPath(doc, path + ["colHeading"])
    case Err(e) => Err(e)
    case Ok(headings) =>
      match ValuesForPath(doc, path + ["row"])
      case Err(e) => Err(e)
      case Ok(rows) =>
        RowsOutcome(doc, path, headings, |rows|);
        RowsFrom(doc, path, headings, 0, |rows|)
  }

  /** Each heading is mapped to the cell of its last occurrence: a later equal heading wins. */
  lemma {:induction false} RowMapLastWins(headings: seq<Node>, cols: seq<Node>, n: nat, j: nat)
    requires n <= |headings| && CellsText(headings, cols)
    requires j < n && forall k :: j < k < n ==> headings[k].s != headings[j].s
    ensures headings[j].s in RowMap(headings, cols, n)
    ensures RowMap(headings, cols, n)[headings[j].s] == cols[j].s
  {
    if j < n - 1 {
      RowMapLastWins(headings, cols, n - 1, j);
    }
  }

  /** A row's map has exactly the headings as keys. */
  lemma {:induction false} RowMapKeys(headings: seq<Node>, cols: seq<Node>, n: nat)
    requires n <= |headings| && CellsText(headings, cols)
    ensures RowMap(headings, cols, n).Keys == set j | 0 <= j < n :: headings[j].s
  {
    if n > 0 {
      RowMapKeys(headings, cols, n - 1);
      assert (set j | 0 <= j < n :: headings[j].s) == (set j | 0 <= j < n - 1 :: headings[j].s) + {headings[n - 1].s};
    }
  }

  /** The cells of row i are found at the parsed path of the table, then row[i], then col. */
  lemma RowPathParses(path: Path, i: nat)
    requires ParsePath(path).Some?
    ensures ParsePath(RowPath(path, i)) == Some(ParsePath(path).value + [At("row", i), Key("col")])
  {
    var d := Decimal(i);
    var step := "row[" + d + "]";
    assert step[..3] == "row" && step[3] == '[';
    assert forall j :: 0 <= j < 3 ==> step[j] != '[';
    assert IndexOf(step, '[') == 3;
    assert step[4..|step| - 1] == d;
    DecimalRoundTrip(i);
    assert ParseSegment(step) == Some(At("row", i));
    PlainStep("col");
    ParsePathSteps(["col"]);
    ParsePathPair(step, "col");
    ParsePathAppend(path, [step, "col"]);
  }

  // ---------------------------------------------------------------------------
  // Error answers (response.go:80-106)
  // ---------------------------------------------------------------------------

  /**
    * What IsError needs of a document so as not to panic: when there is a command, it is an element
    * with a text type attribute.
    */
  predicate CommandTyped(doc: Node) {
    var v := ValueForPath(doc, COMMAND_PATH);
    v.Ok? ==> v.value.Obj? && "-type" in v.value.fields && v.value.fields["-type"].Str?
  }

  /** What GetErrorDetails needs of a document so as not to panic: a summary, when there is one, is text. */
  predicate SummaryText(doc: Node) {
    var v := ValueForPath(doc, SUMMARY_PATH);
    v.Ok? ==> v.value.Str?
  }

  const ERROR_TYPE := "c:ErrorResponse"

  /** Whether the document's command, if it has one, is typed "c:ErrorResponse". */
  predicate ErrorCommand(doc: Node)
    requires CommandTyped(doc)
  {
    match ValueForPath(doc, COMMAND_PATH)
    case Err(_) => false
    case Ok(v) => v.fields["-type"].s == ERROR_TYPE
  }
  const ERROR_MARKER := "[Error "

  /** The pattern \[Error (\d+)\] matches at i: the marker, a maximal run of digits, then ']'. */
  predicate MatchAt(s: string, i: nat) {
    i + 7 <= |s| && s[i..i + 7] == ERROR_MARKER &&
    var k := DigitRun(s, i + 7);
    1 <= k && i + 7 + k < |s| && s[i + 7 + k] == ']'
  }

  /** The leftmost position at or after i where the pattern matches. */
  function FirstMatch(s: string, i: nat): (r: Option<nat>)
    requires i <= |s|
    ensures r.Some? ==> i <= r.value && r.value + 7 <= |s|
    decreases |s| - i
  {
    if i == |s| then None else if MatchAt(s, i) then Some(i) else FirstMatch(s, i + 1)
  }

  /** FirstMatch finds a match exactly when there is one, and then the leftmost. */
  lemma {:induction false} FirstMatchLeftmost(s: string, i: nat)
    requires i <= |s|
    ensures FirstMatch(s, i).Some? ==> MatchAt(s, FirstMatch(s, i).value)
    ensures FirstMatch(s, i).Some? ==> forall j :: i <= j < FirstMatch(s, i).value ==> !MatchAt(s, j)
    ensures FirstMatch(s, i).None? ==> forall j :: i <= j < |s| ==> !MatchAt(s, j)
    decreases |s| - i
  {
    if i < |s| && !MatchAt(s, i) {
      FirstMatchLeftmost(s, i + 1);
      var r := FirstMatch(s, i + 1);
      assert FirstMatch(s, i) == r;
      if r.Some? {
        forall j | i <= j < r.value
          ensures !MatchAt(s, j)
        {
          if j > i {
            assert i + 1 <= j < FirstMatch(s, i + 1).value;
          }
        }
      } else {
        forall j | i <= j < |s|
          ensures !MatchAt(s, j)
        {
          if j > i {
            assert i + 1 <= j < |s|;
          }
        }
      }
    }
  }

  /** The largest value of Go's 64-bit int, where Atoi clamps a number too large to hold. */
  const MAX_INT: nat := 0x7fff_ffff_ffff_ffff

  /**
    * The code of a summary: the digits of the leftmost match, read as a number (clamped at MAX_INT,
    * as Atoi does), or 0 without a match.
    */
  function ErrorCode(summary: string): (code: nat)
    ensures code <= MAX_INT
  {
    var m := FirstMatch(summary, 0);
    if m.None? then 0 else CodeAt(summary, m.value)
  }

  /** The number in the match at i. */
  function CodeAt(summary: string, i: nat): (code: nat)
    requires i + 7 <= |summary|
    ensures code <= MAX_INT
  {
    Clamp(DecimalValue(summary[i + 7..i + 7 + DigitRun(summary, i + 7)]))
  }

  /** What Atoi returns for a run of digits worth v: v itself, or MAX_INT when v does not fit. */
  function Clamp(v: nat): (c: nat)
    ensures c <= MAX_INT
    ensures v <= MAX_INT ==> c == v
  {
    if v > MAX_INT then MAX_INT else v
  }

  /** DigitRun stops exactly at the first character that is not a digit. */
  lemma DigitRunIs(s: string, i: nat, k: nat)
    requires i + k <= |s|
    requires forall j :: i <= j < i + k ==> IsDigit(s[j])
    requires i + k == |s| || !IsDigit(s[i + k])
    ensures DigitRun(s, i) == k
  {
  }

  /** The marker, a run of digits and ']' at position i make a match there. */
  lemma MarkerMatches(s: string, i: nat, d: string)
    requires i + 7 + |d| < |s| && 1 <= |d| && AllDigits(d)
    requires s[i..i + 7] == ERROR_MARKER && s[i + 7..i + 7 + |d|] == d && s[i + 7 + |d|] == ']'
    ensures MatchAt(s, i) && DigitRun(s, i + 7) == |d|
  {
    forall j | i + 7 <= j < i + 7 + |d|
      ensures IsDigit(s[j])
    {
      assert s[j] == d[j - (i + 7)];
    }
    DigitRunIs(s, i + 7, |d|);
  }

  /** No match starts inside a prefix that holds no '['. */
  lemma NoMatchBefore(s: string, pre: string)
    requires |pre| <= |s| && s[..|pre|] == pre && '[' !in pre
    ensures forall j :: 0 <= j < |pre| ==> !MatchAt(s, j)
  {
    forall j | 0 <= j < |pre|
      ensures !MatchAt(s, j)
    {
      assert s[j] == pre[j];
      if j + 7 <= |s| {
        assert s[j..j + 7][0] == s[j];
      }
    }
  }

  /**
    * A summary whose first '[' opens "[Error n]" has code n: the marker is found at its leftmost
    * position and its digits are read back.
    */
  lemma ErrorCodeOf(pre: string, n: nat, post: string)
    requires '[' !in pre && n <= MAX_INT
    ensures ErrorCode(pre + ERROR_MARKER + Decimal(n) + "]" + post) == n
  {
    var d := Decimal(n);
    var s := pre + ERROR_MARKER + d + "]" + post;
    var i := |pre|;
    MarkerAt(pre, d, post);
    MarkerMatches(s, i, d);
    NoMatchBefore(s, pre);
    FirstMatchIs(s, 0, i);
    ErrorCodeAt(s, i);
    CodeAtDigits(s, i, n);
  }

  /** Where the pieces of pre "[Error " d "]" post lie. */
  lemma MarkerAt(pre: string, d: string, post: string)
    ensures var s := pre + ERROR_MARKER + d + "]" + post;
      var i := |pre|;
      i + 7 + |d| < |s| && s[..i] == pre && s[i..i + 7] == ERROR_MARKER &&
      s[i + 7..i + 7 + |d|] == d && s[i + 7 + |d|] == ']'
  {
    var u := ERROR_MARKER + (d + ("]" + post));
    var s := pre + u;
    assert s == pre + ERROR_MARKER + d + "]" + post;
    var i := |pre|;
    assert s[..i] == pre && s[i..] == u;
    assert u[..7] == ERROR_MARKER && u[7..7 + |d|] == d && u[7 + |d|] == ']';
    assert s[i..i + 7] == u[..7] && s[i + 7..i + 7 + |d|] == u[7..7 + |d|];
  }

  /** A match with none before it is the leftmost one. */
  lemma {:induction false} FirstMatchIs(s: string, k: nat, i: nat)
    requires k <= i < |s| && MatchAt(s, i)
    requires forall j :: k <= j < i ==> !MatchAt(s, j)
    ensures FirstMatch(s, k) == Some(i)
    decreases i - k
  {
    if k < i {
      assert !MatchAt(s, k);
      FirstMatchIs(s, k + 1, i);
    }
  }

  /** The code of a summary whose leftmost match is at i is the number in that match. */
  lemma ErrorCodeAt(s: string, i: nat)
    requires FirstMatch(s, 0) == Some(i)
    ensures i + 7 <= |s| && ErrorCode(s) == CodeAt(s, i)
  {
  }

  /** The number in a match whose digits are those of n is n. */
  lemma CodeAtDigits(s: string, i: nat, n: nat)
    requires i + 7 + |Decimal(n)| <= |s| && n <= MAX_INT
    requires DigitRun(s, i + 7) == |Decimal(n)| && s[i + 7..i + 7 + |Decimal(n)|] == Decimal(n)
    ensures CodeAt(s, i) == n
  {
    DecimalRoundTrip(n);
  }

  /** A summary that opens with "[Error n]" has code n. */
  lemma ErrorCodeAtStart(n: nat, post: string)
    requires n <= MAX_INT
    ensures ErrorCode(ERROR_MARKER + Decimal(n) + "]" + post) == n
  {
    ErrorCodeOf("", n, post);
    assert "" + ERROR_MARKER == ERROR_MARKER;
  }

  /** A summary without '[' has no marker, so its code is 0. */
  lemma ErrorCodeWithoutMarker(summary: string)
    requires '[' !in summary
    ensures ErrorCode(summary) == 0
  {
    assert summary[..|summary|] == summary;
    NoMatchBefore(summary, summary);
    FirstMatchLeftmost(summary, 0);
  }

  /** The summary of a rejected login, "[Error 4500] Invalid password", has code 4500. */
  lemma ErrorCodeExample()
    ensures ErrorCode("[Error " + "4500" + "]" + " Invalid password") == 4500
  {
    assert Decimal(4500) == "4500";
    ErrorCodeAtStart(4500, " Invalid password");
  }

  /** A summary without a marker, "Invalid password", has code 0. */
  lemma NoErrorCodeExample()
    ensures ErrorCode("Invalid password") == 0
  {
    ErrorCodeWithoutMarker("Invalid password");
  }

  /** A server error: its code and summary. */
  datatype ErrorDetails = ErrorDetails(code: int, summary: string) {

    /** The error's text, "BSFT error <code>: <summary>" (response.go:104-106). */
    function Error(): string {
      ERROR_TEXT_PREFIX + Itoa(code) + ": " + summary
    }
  }

  const ERROR_TEXT_PREFIX := "BSFT error "

  /** Reads an error text back into its code and summary. */
  function ParseErrorText(s: string): Option<ErrorDetails> {
    var n := |ERROR_TEXT_PREFIX|;
    if |s| < n || s[..n] != ERROR_TEXT_PREFIX then None else ParseCodeAndSummary(s[n..])
  }

  /** Reads "<code>: <summary>", the code an optionally signed decimal. */
  function ParseCodeAndSummary(t: string): Option<ErrorDetails> {
    if t != [] && t[0] == '-' then
      match ParseUnsigned(t[1..])
      case None => None
      case Some(d) => Some(ErrorDetails(-(d.0 as int), d.1))
    else
      match ParseUnsigned(t)
      case None => None
      case Some(d) => Some(ErrorDetails(d.0, d.1))
  }

  /** Reads "<digits>: <summary>" into the digits' value and the summary. */
  function ParseUnsigned(u: string): Option<(nat, string)> {
    var k := DigitRun(u, 0);
    if k == 0 || k + 2 > |u| || u[k..k + 2] != ": " then None
    else Some((DecimalValue(u[..k]), u[k + 2..]))
  }

  /** The digits of v followed by ": " and a summary are read back as v and the summary. */
  lemma UnsignedRoundTrip(v: nat, summary: string)
    ensures ParseUnsigned(Decimal(v) + ": " + summary) == Some((v, summary))
  {
    var digits := Decimal(v);
    var rest := ": " + summary;
    var u := digits + rest;
    assert u == digits + ": " + summary;
    assert u[..|digits|] == digits;
    assert u[|digits|..] == rest;
    assert u[|digits|] == ':';
    DigitRunIs(u, 0, |digits|);
    assert u[|digits|..|digits| + 2] == rest[..2];
    assert u[|digits| + 2..] == rest[2..];
    DecimalRoundTrip(v);
  }

  /** The digits of v, with an optional minus sign before them, are read back with the summary after them. */
  lemma CodeAndSummaryRoundTrip(sign: string, v: nat, summary: string)
    requires sign == "" || sign == "-"
    ensures ParseCodeAndSummary(sign + Decimal(v) + ": " + summary)
         == Some(ErrorDetails(if sign == "" then v else -(v as int), summary))
  {
    var u := Decimal(v) + ": " + summary;
    UnsignedRoundTrip(v, summary);
    RegroupSigned(sign, Decimal(v), summary);
    SignedParse(sign, u, v, summary);
  }

  lemma RegroupSigned(sign: string, digits: string, summary: string)
    ensures sign + digits + ": " + summary == sign + (digits + ": " + summary)
  {
  }

  /** A code read without its sign is read with it once the sign is put back. */
  lemma SignedParse(sign: string, u: string, v: nat, summary: string)
    requires sign == "" || sign == "-"
    requires ParseUnsigned(u) == Some((v, summary))
    ensures ParseCodeAndSummary(sign + u) == Some(ErrorDetails(if sign == "" then v else -(v as int), summary))
  {
    if sign == "-" {
      assert (sign + u)[0] == '-' && (sign + u)[1..] == u;
    } else {
      assert sign + u == u && IsDigit(u[0]);
    }
  }

  /** The error text determines the error: its code and its whole summary are read back from it. */
  lemma ErrorTextRoundTrip(e: ErrorDetails)
    ensures ParseErrorText(e.Error()) == Some(e)
  {
    var sign := if e.code < 0 then "-" else "";
    var v: nat := if e.code < 0 then -e.code else e.code;
    var t := sign + Decimal(v) + ": " + e.summary;
    assert Itoa(e.code) == sign + Decimal(v);
    assert e.Error() == ERROR_TEXT_PREFIX + t;
    CodeAndSummaryRoundTrip(sign, v, e.summary);
  }

  // ---------------------------------------------------------------------------
  // The response (response.go:14-77)
  // ---------------------------------------------------------------------------

  /** A server answer: its text, whether it is an error, the error's summary, and its parsed tree. */
  datatype BSResponse = BSResponse(body: string, error: bool, errorText: string, parsed: Node) {

    /** The first value at path (response.go:51-53). */
    function Get(path: Path): (r: Result<Node, LookupError>)
      ensures r.Ok? <==> ValuesForPath(parsed, path).Ok?
      ensures r.Ok? ==> r.value == ValuesForPath(parsed, path).value[0]
    {
      ValueForPath(parsed, path)
    }

    /**
      * Whether the answer's command is typed "c:ErrorResponse" (response.go:80-86); an answer
      * without a command is not an error.
      */
    function IsError(): (r: bool)
      requires CommandTyped(parsed)
      ensures Get(COMMAND_PATH).Err? ==> !r
      ensures Get(COMMAND_PATH).Ok? ==> (r <==> Get(COMMAND_PATH).value.fields["-type"] == Str(ERROR_TYPE))
    {
      ErrorCommand(parsed)
    }

    /**
      * The code and summary of an error answer (response.go:91-102): the summary's text and the
      * number in its first "[Error n]", or 0; the lookup's error when there is no summary.
      */
    function GetErrorDetails(): (r: Result<ErrorDetails, LookupError>)
      requires SummaryText(parsed)
      ensures r.Err? <==> ValuesForPath(parsed, SUMMARY_PATH).Err?
      ensures r.Err? ==> r.error == ValuesForPath(parsed, SUMMARY_PATH).error
      ensures r.Ok? ==> Get(SUMMARY_PATH) == Ok(Str(r.value.summary))
      ensures r.Ok? ==> r.value.code == ErrorCode(r.value.summary) && r.value.code <= MAX_INT
    {
      match Get(SUMMARY_PATH)
      case Err(e) => Err(e)
      case Ok(v) => Ok(ErrorDetails(ErrorCode(v.s), v.s))
    }

    /**
      * The table at path (response.go:56-77), built row by row into a fresh array: the same
      * outcome as Table.
      */
    method GetTable(path: Path) returns (r: Result<seq<map<string, string>>, LookupError>)
      requires TableReadable(parsed, path)
      ensures r == Table(parsed, path)
    {
      var hs := ValuesForPath(parsed, path + ["colHeading"]);
      if hs.Err? {
        return Err(hs.error);
      }
      var headings := hs.value;
      var rs := ValuesForPath(parsed, path + ["row"]);
      if rs.Err? {
        return Err(rs.error);
      }
      var n := |rs.value|;
      var result := new map<string, string>[n];
      PrependNone(RowsFrom(parsed, path, headings, 0, n));
      for i := 0 to n
        invariant RowsReadable(parsed, path, headings, i, n)
        invariant RowsFrom(parsed, path, headings, 0, n) == Prepend(result[..i], RowsFrom(parsed, path, headings, i, n))
      {
        var cs := ValuesForPath(parsed, RowPath(path, i));
        if cs.Err? {
          return Err(cs.error);
        }
        var m := BuildRow(headings, cs.value);
        RowsFromStep(parsed, path, headings, i, n, result[..i]);
        result[i] := m;
        assert result[..i + 1] == result[..i] + [m];
      }
      assert result[..n] == result[..];
      PrependAll(result[..]);
      return Ok(result[..]);
    }
  }

  /**
    * Get by plain names through elements returns the node they lead to (the first item, for a
    * repeated element), and NotFound when a name is missing.
    */
  lemma GetPlain(r: BSResponse, names: Path)
    requires forall i :: 0 <= i < |names| ==> '[' !in names[i]
    requires ListFree(r.parsed, names)
    ensures Descend(r.parsed, names).None? ==> r.Get(names) == Err(NotFound(names))
    ensures Descend(r.parsed, names).Some? && !Descend(r.parsed, names).value.Arr? ==>
              r.Get(names) == Ok(Descend(r.parsed, names).value)
    ensures Descend(r.parsed, names).Some? && Descend(r.parsed, names).value.Arr? ==>
              r.Get(names) == if Descend(r.parsed, names).value.items == [] then Err(NotFound(names))
                              else Ok(Descend(r.parsed, names).value.items[0])
  {
    PlainLookup(r.parsed, names);
  }

  /** The inner loop of GetTable: assigns each heading its cell, in heading order. */
  method BuildRow(headings: seq<Node>, cols: seq<Node>) returns (m: map<string, string>)
    requires CellsText(headings, cols)
    ensures m == RowMap(headings, cols, |headings|)
  {
    m := map[];
    for j := 0 to |headings|
      invariant m == RowMap(headings, cols, j)
    {
      m := m[headings[j].s := cols[j].s];
    }
  }

  lemma PrependNone(r: Result<seq<map<string, string>>, LookupError>)
    ensures Prepend([], r) == r
  {
    if r.Ok? {
      assert [] + r.value == r.value;
    }
  }

  lemma PrependAll(rows: seq<map<string, string>>)
    ensures Prepend(rows, Ok([])) == Ok(rows)
  {
    assert rows + [] == rows;
  }

  /** Building row i moves it from the rows still to come to the rows already built. */
  lemma RowsFromStep(doc: Node, path: Path, headings: seq<Node>, i: nat, n: nat, built: seq<map<string, string>>)
    requires i < n && RowsReadable(doc, path, headings, i, n)
    requires ValuesForPath(doc, RowPath(path, i)).Ok?
    ensures RowsReadable(doc, path, headings, i + 1, n)
    ensures CellsText(headings, ValuesForPath(doc, RowPath(path, i)).value)
    ensures Prepend(built, RowsFrom(doc, path, headings, i, n))
         == Prepend(built + [RowMap(headings, ValuesForPath(doc, RowPath(path, i)).value, |headings|)],
                    RowsFrom(doc, path, headings, i + 1, n))
  {
    var row := RowMap(headings, ValuesForPath(doc, RowPath(path, i)).value, |headings|);
    match RowsFrom(doc, path, headings, i + 1, n) {
      case Err(_) =>
      case Ok(rest) => assert built + ([row] + rest) == (built + [row]) + rest;
    }
  }

  /**
    * The response to b as written (response.go:28-48). The tree is mxj's parse of b, given as a
    * parameter: a failed parse is the constructor's error. Its error test is inverted, so the
    * summary is never copied and an error answer without a summary dereferences nil: such answers
    * are excluded here.
    */
  predicate AsWrittenDefined(tree: Result<Node, string>) {
    tree.Ok? ==>
      CommandTyped(tree.value) &&
      (ErrorCommand(tree.value) ==>
         SummaryText(tree.value) && ValuesForPath(tree.value, SUMMARY_PATH).Ok?)
  }

  function NewBSResponseAsWritten(b: string, tree: Result<Node, string>): (r: Result<BSResponse, string>)
    requires AsWrittenDefined(tree)
    ensures r.Err? <==> tree.Err?
    ensures r.Err? ==> r.error == tree.error
    ensures r.Ok? ==> r.value.body == b && r.value.parsed == tree.value && r.value.errorText == ""
    ensures r.Ok? ==> r.value.error == r.value.IsError()
  {
    match tree
    case Err(e) => Err(e)
    case Ok(m) =>
      var r0 := BSResponse(b, false, "", m);
      var isError := r0.IsError();
      var r1 := r0.(error := isError);
      if isError then
        match r1.GetErrorDetails()
        case Ok(_) => Ok(r1)
        case Err(_) => assert false; Ok(r1)
      else Ok(r1)
  }

  /** What the corrected constructor needs: a typed command, and a text summary on error answers. */
  predicate ResponseReadable(tree: Result<Node, string>) {
    tree.Ok? ==>
      CommandTyped(tree.value) &&
      (ErrorCommand(tree.value) ==> SummaryText(tree.value))
  }

  /**
    * The response to b as intended: an error answer carries its summary as its error text, or ""
    * when it has none.
    */
  function NewBSResponse(b: string, tree: Result<Node, string>): (r: Result<BSResponse, string>)
    requires ResponseReadable(tree)
    ensures r.Err? <==> tree.Err?
    ensures r.Err? ==> r.error == tree.error
    ensures r.Ok? ==> r.value.body == b && r.value.parsed == tree.value && r.value.error == r.value.IsError()
    ensures r.Ok? && r.value.error && r.value.GetErrorDetails().Ok? ==>
              r.value.errorText == r.value.GetErrorDetails().value.summary
    ensures r.Ok? && !(r.value.error && r.value.GetErrorDetails().Ok?) ==> r.value.errorText == ""
  {
    match tree
    case Err(e) => Err(e)
    case Ok(m) =>
      var r0 := BSResponse(b, false, "", m);
      var r1 := r0.(error := r0.IsError());
      if r1.error then
        match r1.GetErrorDetails()
        case Ok(details) => Ok(r1.(errorText := details.summary))
        case Err(_) => Ok(r1)
      else Ok(r1)
  }

  // ---------------------------------------------------------------------------
  // Answers of a known shape
  // ---------------------------------------------------------------------------

  /**
    * An answer: BroadsoftDocument holds the envelope's attributes and children (the protocol, the
    * session id, ...) and one command with the given attributes and children.
    */
  function AnswerDocument(envelope: map<string, Node>, command: map<string, Node>): Node {
    Obj(map["BroadsoftDocument" := Obj(envelope["command" := Obj(command)])])
  }

  /** Below BroadsoftDocument.command, a lookup in an answer is a lookup in its command. */
  lemma AnswerDescend(envelope: map<string, Node>, command: map<string, Node>, rest: seq<string>)
    requires |rest| <= 1 && forall i :: 0 <= i < |rest| ==> '[' !in rest[i]
    ensures forall i :: 0 <= i < |COMMAND_PATH + rest| ==> '[' !in (COMMAND_PATH + rest)[i]
    ensures Descend(AnswerDocument(envelope, command), COMMAND_PATH + rest) == Descend(Obj(command), rest)
    ensures ListFree(AnswerDocument(envelope, command), COMMAND_PATH + rest)
  {
    var p := COMMAND_PATH + rest;
    var doc := AnswerDocument(envelope, command);
    assert p[0] == "BroadsoftDocument" && p[1..][0] == "command" && p[1..][1..] == rest;
    forall i | 0 <= i < |p|
      ensures '[' !in p[i]
    {
      if i >= 2 {
        assert p[i] == rest[i - 2];
      }
    }
    var inner := doc.fields["BroadsoftDocument"];
    assert Descend(inner, p[1..]) == Descend(Obj(command), rest);
    if rest != [] {
      assert rest[1..] == [];
      assert rest[0] in command ==> ListFree(command[rest[0]], rest[1..]);
    }
    assert ListFree(Obj(command), rest);
    assert ListFree(inner, p[1..]);
  }

  /** The command of an answer is found at BroadsoftDocument.command. */
  lemma CommandFound(envelope: map<string, Node>, command: map<string, Node>)
    ensures ValueForPath(AnswerDocument(envelope, command), COMMAND_PATH) == Ok(Obj(command))
  {
    AnswerDescend(envelope, command, []);
    assert COMMAND_PATH + [] == COMMAND_PATH;
    PlainLookup(AnswerDocument(envelope, command), COMMAND_PATH);
  }

  /** The lookup of BroadsoftDocument.command.summary in an answer is the lookup of summary in its command. */
  lemma SummaryLookup(envelope: map<string, Node>, command: map<string, Node>)
    ensures ValuesForPath(AnswerDocument(envelope, command), SUMMARY_PATH) ==
              if "summary" !in command || Listed(command["summary"]) == [] then Err(NotFound(SUMMARY_PATH))
              else Ok(Listed(command["summary"]))
  {
    SummaryDescend(envelope, command);
    PlainLookup(AnswerDocument(envelope, command), SUMMARY_PATH);
  }

  lemma SummaryDescend(envelope: map<string, Node>, command: map<string, Node>)
    ensures forall i :: 0 <= i < |SUMMARY_PATH| ==> '[' !in SUMMARY_PATH[i]
    ensures ListFree(AnswerDocument(envelope, command), SUMMARY_PATH)
    ensures Descend(AnswerDocument(envelope, command), SUMMARY_PATH) ==
              if "summary" in command then Some(command["summary"]) else None
  {
    AnswerDescend(envelope, command, ["summary"]);
    assert COMMAND_PATH + ["summary"] == SUMMARY_PATH;
    if "summary" in command {
      assert Descend(Obj(command), ["summary"]) == Descend(command["summary"], []);
    }
  }

  /** Its summary is found at BroadsoftDocument.command.summary when the command has a text one. */
  lemma SummaryFound(envelope: map<string, Node>, command: map<string, Node>)
    ensures "summary" in command && command["summary"].Str? ==>
              ValueForPath(AnswerDocument(envelope, command), SUMMARY_PATH) == Ok(command["summary"])
    ensures "summary" !in command ==> ValueForPath(AnswerDocument(envelope, command), SUMMARY_PATH) == Err(NotFound(SUMMARY_PATH))
  {
    SummaryLookup(envelope, command);
    if "summary" in command && command["summary"].Str? {
      assert Listed(command["summary"]) == [command["summary"]];
    }
  }

  /** An answer with a command is an error exactly when the command's type is "c:ErrorResponse". */
  lemma IsErrorIffErrorType(b: string, envelope: map<string, Node>, command: map<string, Node>, t: string)
    requires "-type" in command && command["-type"] == Str(t)
    ensures CommandTyped(AnswerDocument(envelope, command))
    ensures BSResponse(b, false, "", AnswerDocument(envelope, command)).IsError() <==> t == ERROR_TYPE
  {
    CommandFound(envelope, command);
  }

  /** An answer without a command is never an error. */
  lemma NoCommandIsNoError(b: string, doc: Node)
    requires ValuesForPath(doc, COMMAND_PATH).Err?
    ensures CommandTyped(doc) && !BSResponse(b, false, "", doc).IsError()
  {
  }

  /** The details of an error answer are its summary and the code read from it. */
  lemma DetailsOfSummary(b: string, envelope: map<string, Node>, summary: string)
    ensures
      var doc := AnswerDocument(envelope, map["-type" := Str(ERROR_TYPE), "summary" := Str(summary)]);
      SummaryText(doc) &&
      BSResponse(b, true, "", doc).GetErrorDetails() == Ok(ErrorDetails(ErrorCode(summary), summary))
  {
    SummaryFound(envelope, map["-type" := Str(ERROR_TYPE), "summary" := Str(summary)]);
  }

  /** The details of an error answer whose summary opens with "[Error n]" carry n and the summary. */
  lemma ErrorDetailsOfAnswer(b: string, envelope: map<string, Node>, n: nat, rest: string)
    requires n <= MAX_INT
    ensures
      var summary := ERROR_MARKER + Decimal(n) + "]" + rest;
      var doc := AnswerDocument(envelope, map["-type" := Str(ERROR_TYPE), "summary" := Str(summary)]);
      SummaryText(doc) &&
      BSResponse(b, true, "", doc).GetErrorDetails() == Ok(ErrorDetails(n, summary))
  {
    var summary := ERROR_MARKER + Decimal(n) + "]" + rest;
    DetailsOfSummary(b, envelope, summary);
    ErrorCodeAtStart(n, rest);
  }

  /** Both constructors on an error answer with a text summary: as written and as intended. */
  lemma ErrorAnswerWithSummary(b: string, envelope: map<string, Node>, command: map<string, Node>, summary: string)
    requires "-type" in command && command["-type"] == Str(ERROR_TYPE)
    requires "summary" in command && command["summary"] == Str(summary)
    ensures
      var doc := AnswerDocument(envelope, command);
      ResponseReadable(Ok(doc)) && AsWrittenDefined(Ok(doc)) &&
      NewBSResponse(b, Ok(doc)) == Ok(BSResponse(b, true, summary, doc)) &&
      NewBSResponseAsWritten(b, Ok(doc)) == Ok(BSResponse(b, true, "", doc))
  {
    var doc := AnswerDocument(envelope, command);
    IsErrorIffErrorType(b, envelope, command, ERROR_TYPE);
    SummaryFound(envelope, command);
    assert ErrorCommand(doc);
    assert BSResponse(b, true, "", doc).GetErrorDetails() == Ok(ErrorDetails(ErrorCode(summary), summary));
  }

  /** The intended constructor gives an error answer its summary as error text. */
  lemma ErrorAnswerCarriesSummary(b: string, envelope: map<string, Node>, summary: string)
    ensures
      var doc := AnswerDocument(envelope, map["-type" := Str(ERROR_TYPE), "summary" := Str(summary)]);
      ResponseReadable(Ok(doc)) &&
      NewBSResponse(b, Ok(doc)) == Ok(BSResponse(b, true, summary, doc))
  {
    ErrorAnswerWithSummary(b, envelope, map["-type" := Str(ERROR_TYPE), "summary" := Str(summary)], summary);
  }

  /** A command of any other type is a plain answer, with no error text. */
  lemma OtherAnswerHasNoErrorText(b: string, envelope: map<string, Node>, command: map<string, Node>, t: string)
    requires "-type" in command && command["-type"] == Str(t) && t != ERROR_TYPE
    ensures
      var doc := AnswerDocument(envelope, command);
      ResponseReadable(Ok(doc)) && AsWrittenDefined(Ok(doc)) &&
      NewBSResponse(b, Ok(doc)) == Ok(BSResponse(b, false, "", doc)) &&
      NewBSResponseAsWritten(b, Ok(doc)) == Ok(BSResponse(b, false, "", doc))
  {
    IsErrorIffErrorType(b, envelope, command, t);
  }

  /** As written, the constructor loses the summary of an error answer; the intended one keeps it. */
  lemma ErrorTextLost(b: string, envelope: map<string, Node>, summary: string)
    ensures
      var doc := AnswerDocument(envelope, map["-type" := Str(ERROR_TYPE), "summary" := Str(summary)]);
      AsWrittenDefined(Ok(doc)) &&
      NewBSResponseAsWritten(b, Ok(doc)) == Ok(BSResponse(b, true, "", doc))
  {
    ErrorAnswerWithSummary(b, envelope, map["-type" := Str(ERROR_TYPE), "summary" := Str(summary)], summary);
  }

  /** As written, the constructor cannot take an error answer without a summary; the intended one can. */
  lemma SummaryMissingRejected(b: string, envelope: map<string, Node>)
    ensures
      var bare := AnswerDocument(envelope, map["-type" := Str(ERROR_TYPE)]);
      !AsWrittenDefined(Ok(bare)) && ResponseReadable(Ok(bare)) &&
      NewBSResponse(b, Ok(bare)) == Ok(BSResponse(b, true, "", bare))
  {
    var command := map["-type" := Str(ERROR_TYPE)];
    var bare := AnswerDocument(envelope, command);
    CommandFound(envelope, command);
    SummaryFound(envelope, command);
    assert BSResponse("", false, "", bare).IsError();
    assert BSResponse(b, true, "", bare).GetErrorDetails().Err?;
  }
}
