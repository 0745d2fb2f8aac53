/**
  * The request serialisers are fmt.Sprintf calls over a fixed format string whose verbs (%s, %v)
  * each take the next argument. A format is modelled as a sequence of literal pieces and verbs;
  * Render is Sprintf, and Parse reads the arguments back out of a rendered text.
  */
module Format {
  import opened Wrappers
  import opened Text

  /**
    * A format string cut at its verbs: Then(l, rest) is the literal l, then a verb taking the next
    * argument, then rest; End(l) is the closing literal.
    */
  datatype Template = End(last: string) | Then(lit: string, rest: Template)

  /** The number of arguments a format consumes. */
  function Verbs(t: Template): nat {
    match t
    case End(_) => 0
    case Then(_, rest) => 1 + Verbs(rest)
  }

  /** The total length of a format's literal pieces. */
  function LiteralLength(t: Template): nat {
    match t
    case End(l) => |l|
    case Then(l, rest) => |l| + LiteralLength(rest)
  }

  /** fmt.Sprintf: each verb is replaced by the next argument, already rendered as text. */
  function Render(t: Template, args: seq<string>): string
    requires |args| == Verbs(t)
  {
    match t
    case End(l) => l
    case Then(l, rest) => l + args[0] + Render(rest, args[1..])
  }

  /** The literal a format opens with. */
  function Head(t: Template): string {
    match t
    case End(l) => l
    case Then(l, _) => l
  }

  /** The literal a format closes with. */
  function Last(t: Template): string {
    match t
    case End(l) => l
    case Then(_, rest) => Last(rest)
  }

  /** A rendered text opens with the format's first literal and closes with its last. */
  lemma {:induction false} RenderEnds(t: Template, args: seq<string>)
    requires |args| == Verbs(t)
    ensures |Head(t)| <= |Render(t, args)| && Render(t, args)[..|Head(t)|] == Head(t)
    ensures EndsWith(Render(t, args), Last(t))
  {
    if t.Then? {
      RenderEnds(t.rest, args[1..]);
      var inner := Render(t.rest, args[1..]);
      assert Render(t, args) == (t.lit + args[0]) + inner;
    }
  }

  /** "%v" of a Go bool. */
  function BoolText(b: bool): string {
    if b then "true" else "false"
  }

  /** The rendered text is as long as the literal pieces and the arguments together. */
  lemma {:induction false} RenderLength(t: Template, args: seq<string>)
    requires |args| == Verbs(t)
    ensures |Render(t, args)| == LiteralLength(t) + SumLengths(args)
  {
    if t.Then? {
      RenderLength(t.rest, args[1..]);
    }
  }

  /**
    * Each argument but the last is followed by a non-empty literal whose first character it does
    * not contain, so that the rendered text can be cut back into its arguments. (The last argument
    * is cut off by the length of the closing literal.)
    */
  predicate Separated(t: Template, args: seq<string>)
    requires |args| == Verbs(t)
  {
    match t
    case End(_) => true
    case Then(_, rest) =>
      && (rest.Then? ==> rest.lit != [] && rest.lit[0] !in args[0])
      && Separated(rest, args[1..])
  }

  /** A three-argument format is separated when the literals after the first two arguments start with a character those arguments lack. */
  lemma SeparatedThree(a: string, b: string, c: string, d: string, x: string, y: string, z: string)
    requires b != [] && b[0] !in x && c != [] && c[0] !in y
    ensures Verbs(Then(a, Then(b, Then(c, End(d))))) == 3 && Separated(Then(a, Then(b, Then(c, End(d)))), [x, y, z])
  {
    var args := [x, y, z];
    assert Verbs(Then(c, End(d))) == 1;
    assert Separated(Then(c, End(d)), [z]);
    assert Separated(Then(b, Then(c, End(d))), [y, z]);
    assert args[1..] == [y, z] && args[1..][1..] == [z];
  }

  /** Reads the arguments back out of a text rendered from t, or None when the text does not fit t. */
  function Parse(t: Template, s: string): Option<seq<string>>
    decreases t, 0
  {
    match t
    case End(l) => if s == l then Some([]) else None
    case Then(l, rest) =>
      if |l| <= |s| && s[..|l|] == l then ParseArgument(rest, s[|l|..]) else None
  }

  /** Reads one argument followed by the text of rest: up to the first character of rest's opening literal. */
  function ParseArgument(rest: Template, s: string): Option<seq<string>>
    decreases rest, 1
  {
    match rest
    case End(l) =>
      if EndsWith(s, l) then Some([s[..|s| - |l|]]) else None
    case Then(l, _) =>
      if l == [] then None
      else
        var i := IndexOf(s, l[0]);
        match Parse(rest, s[i..])
        case None => None
        case Some(more) => Some([s[..i]] + more)
  }

  /** Parsing a rendered text gives back the arguments. */
  lemma {:induction false} ParseRender(t: Template, args: seq<string>)
    requires |args| == Verbs(t) && Separated(t, args)
    ensures Parse(t, Render(t, args)) == Some(args)
    decreases t, 0
  {
    match t
    case End(_) =>
    case Then(l, rest) =>
      var tail := args[0] + Render(rest, args[1..]);
      assert Render(t, args) == l + tail;
      assert (l + tail)[|l|..] == tail;
      ParseArgumentRender(rest, args);
  }

  lemma {:induction false} ParseArgumentRender(rest: Template, args: seq<string>)
    requires |args| == 1 + Verbs(rest) && Separated(rest, args[1..])
    requires rest.Then? ==> rest.lit != [] && rest.lit[0] !in args[0]
    ensures ParseArgument(rest, args[0] + Render(rest, args[1..])) == Some(args)
    decreases rest, 1
  {
    var inner := Render(rest, args[1..]);
    var s := args[0] + inner;
    match rest
    case End(l) =>
      assert s[..|s| - |l|] == args[0];
      assert args == [args[0]];
    case Then(l, _) =>
      assert inner[0] == l[0];
      CutAtFirst(args[0], inner, l[0]);
      ParseRender(rest, args[1..]);
      assert args == [args[0]] + args[1..];
  }

  /** A text that lacks c, followed by one that starts with c, is cut back apart at the first c. */
  lemma CutAtFirst(a: string, b: string, c: char)
    requires c !in a && b != [] && b[0] == c
    ensures IndexOf(a + b, c) == |a| && (a + b)[..|a|] == a && (a + b)[|a|..] == b
  {
    assert (a + b)[|a|] == c;
  }

  /** Two argument lists that render alike under a separated format are the same list. */
  lemma RenderInjective(t: Template, a: seq<string>, b: seq<string>)
    requires |a| == Verbs(t) && Separated(t, a)
    requires |b| == Verbs(t) && Separated(t, b)
    requires Render(t, a) == Render(t, b)
    ensures a == b
  {
    ParseRender(t, a);
    ParseRender(t, b);
  }
}
