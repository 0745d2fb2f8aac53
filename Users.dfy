/** users.go: search criteria and the two user-directory requests. */
module Users {
  import opened Wrappers
  import opened Text
  import opened Format

  // ---------------------------------------------------------------------------
  // Search modes and fields (users.go:31-51)
  // ---------------------------------------------------------------------------

  datatype SearchMode = StartsWith | Equals | Contains {

    /** The string value of the Go constant. */
    function Literal(): string {
      match this
      case StartsWith => "Starts With"
      case Equals => "Equals"
      case Contains => "Contains"
    }
  }

  datatype SearchField = UserLastName | UserFirstName | UserId {

    /** The string value of the Go constant. */
    function Literal(): string {
      match this
      case UserLastName => "UserLastName"
      case UserFirstName => "UserFirstName"
      case UserId => "UserId"
    }
  }

  function ParseSearchMode(s: string): (m: Option<SearchMode>)
    ensures m.Some? ==> m.value.Literal() == s
  {
    if s == "Starts With" then Some(StartsWith)
    else if s == "Equals" then Some(Equals)
    else if s == "Contains" then Some(Contains)
    else None
  }

  function ParseSearchField(s: string): (f: Option<SearchField>)
    ensures f.Some? ==> f.value.Literal() == s
  {
    if s == "UserLastName" then Some(UserLastName)
    else if s == "UserFirstName" then Some(UserFirstName)
    else if s == "UserId" then Some(UserId)
    else None
  }

  function ParseBool(s: string): (b: Option<bool>)
    ensures b.Some? ==> BoolText(b.value) == s
  {
    if s == "true" then Some(true) else if s == "false" then Some(false) else None
  }

  /** The constants are distinct texts: each one is read back as itself. */
  lemma LiteralsRoundTrip(m: SearchMode, f: SearchField, b: bool)
    ensures ParseSearchMode(m.Literal()) == Some(m)
    ensures ParseSearchField(f.Literal()) == Some(f)
    ensures ParseBool(BoolText(b)) == Some(b)
  {
  }

  // ---------------------------------------------------------------------------
  // SearchCriteria
  // ---------------------------------------------------------------------------

  /**
    * The format of SearchCriteria.Prepare (users.go:76-80). The element's name is "searchCriteria"
    * followed by the field, in the opening and in the closing tag alike.
    */
  const CRITERIA_TEMPLATE: Template :=
    Then("<searchCriteria",
    Then(">\n\t<mode>",
    Then("</mode>\n\t<value>",
    Then("</value>\n\t<isCaseInsensitive>",
    Then("</isCaseInsensitive>\n\t</searchCriteria",
    End(">"))))))

  datatype SearchCriteria = SearchCriteria(mode: SearchMode, field: SearchField, value: string, caseSensitive: bool) {

    /** The isCaseInsensitive element is given the caseSensitive flag as it is, not its negation. */
    function Prepare(): string {
      Render(CRITERIA_TEMPLATE, [field.Literal(), mode.Literal(), value, BoolText(caseSensitive), field.Literal()])
    }
  }

  /** NewSearchCriteria never fails: its error result is always nil. */
  function NewSearchCriteria(mode: SearchMode, field: SearchField, value: string, caseSensitive: bool)
    : (r: Result<SearchCriteria, string>)
    ensures r.Ok?
    ensures r.value.mode == mode && r.value.field == field
    ensures r.value.value == value && r.value.caseSensitive == caseSensitive
  {
    Ok(SearchCriteria(mode, field, value, caseSensitive))
  }

  /**
    * Reads a criterion back out of its fragment: the two tag names must agree, and each text must
    * be one of the constants.
    */
  function ParseCriteria(s: string): Option<SearchCriteria> {
    match Parse(CRITERIA_TEMPLATE, s)
    case None => None
    case Some(args) =>
      if |args| != 5 || args[0] != args[4] then None
      else
        match (ParseSearchField(args[0]), ParseSearchMode(args[1]), ParseBool(args[3]))
        case (Some(f), Some(m), Some(b)) => Some(SearchCriteria(m, f, args[2], b))
        case _ => None
  }

  /**
    * Every field of a criterion can be read back from its fragment (when its value holds no '<'):
    * the field names both tags, the mode and value are embedded verbatim, and isCaseInsensitive
    * holds the caseSensitive flag unchanged.
    */
  lemma CriteriaRoundTrip(c: SearchCriteria)
    requires '<' !in c.value
    ensures Parse(CRITERIA_TEMPLATE, c.Prepare())
         == Some([c.field.Literal(), c.mode.Literal(), c.value, BoolText(c.caseSensitive), c.field.Literal()])
    ensures ParseCriteria(c.Prepare()) == Some(c)
  {
    var args := [c.field.Literal(), c.mode.Literal(), c.value, BoolText(c.caseSensitive), c.field.Literal()];
    CriteriaSeparated(c);
    ParseRender(CRITERIA_TEMPLATE, args);
    LiteralsRoundTrip(c.mode, c.field, c.caseSensitive);
  }

  /** No argument of a criterion's fragment holds the character that follows it. */
  lemma CriteriaSeparated(c: SearchCriteria)
    requires '<' !in c.value
    ensures var args := [c.field.Literal(), c.mode.Literal(), c.value, BoolText(c.caseSensitive), c.field.Literal()];
      Separated(CRITERIA_TEMPLATE, args)
  {
    LiteralsUnbracketed(c.mode, c.field, c.caseSensitive);
    CriteriaArgsSeparated(c.field.Literal(), c.mode.Literal(), c.value, BoolText(c.caseSensitive));
  }

  /** The constants hold no angle bracket. */
  lemma LiteralsUnbracketed(m: SearchMode, f: SearchField, b: bool)
    ensures '<' !in m.Literal() && '>' !in f.Literal() && '<' !in BoolText(b)
  {
  }

  lemma CriteriaArgsSeparated(f: string, m: string, v: string, b: string)
    requires '>' !in f && '<' !in m && '<' !in v && '<' !in b
    ensures Separated(CRITERIA_TEMPLATE, [f, m, v, b, f])
  {
    var args := [f, m, v, b, f];
    var t := CRITERIA_TEMPLATE;
    assert Separated(t.rest.rest.rest.rest, args[4..]);
    assert Separated(t.rest.rest.rest, args[3..]) by { assert args[3..][1..] == args[4..]; }
    assert Separated(t.rest.rest, args[2..]) by { assert args[2..][1..] == args[3..]; }
    assert Separated(t.rest, args[1..]) by { assert args[1..][1..] == args[2..]; }
  }

  /** The criterion's fragment written out piece by piece. */
  lemma CriteriaText(c: SearchCriteria)
    ensures c.Prepare()
         == "<searchCriteria" + c.field.Literal()
          + (">\n\t<mode>" + c.mode.Literal()
          + ("</mode>\n\t<value>" + c.value
          + ("</value>\n\t<isCaseInsensitive>" + BoolText(c.caseSensitive)
          + ("</isCaseInsensitive>\n\t</searchCriteria" + c.field.Literal() + ">"))))
  {
    var t := CRITERIA_TEMPLATE;
    var f, m, b := c.field.Literal(), c.mode.Literal(), BoolText(c.caseSensitive);
    var args := [f, m, c.value, b, f];
    var r4 := "</isCaseInsensitive>\n\t</searchCriteria" + f + ">";
    assert Render(t.rest.rest.rest.rest, args[4..]) == r4;
    var r3 := "</value>\n\t<isCaseInsensitive>" + b + r4;
    assert Render(t.rest.rest.rest, args[3..]) == r3 by {
      assert args[3..][1..] == args[4..];
    }
    var r2 := "</mode>\n\t<value>" + c.value + r3;
    assert Render(t.rest.rest, args[2..]) == r2 by {
      assert args[2..][1..] == args[3..];
    }
    var r1 := ">\n\t<mode>" + m + r2;
    assert Render(t.rest, args[1..]) == r1 by {
      assert args[1..][1..] == args[2..];
    }
  }

  /** The fragment for a case-sensitive "Starts With" search on the user id "john". */
  lemma StartsWithUserIdExample()
    ensures SearchCriteria(StartsWith, UserId, "john", true).Prepare()
         == "<searchCriteriaUserId"
          + (">\n\t<mode>Starts With"
          + ("</mode>\n\t<value>john"
          + ("</value>\n\t<isCaseInsensitive>true"
          + "</isCaseInsensitive>\n\t</searchCriteriaUserId>")))
  {
    CriteriaText(SearchCriteria(StartsWith, UserId, "john", true));
    assert "<searchCriteria" + "UserId" == "<searchCriteriaUserId";
    assert ">\n\t<mode>" + "Starts With" == ">\n\t<mode>Starts With";
    assert "</mode>\n\t<value>" + "john" == "</mode>\n\t<value>john";
    assert "</value>\n\t<isCaseInsensitive>" + "true" == "</value>\n\t<isCaseInsensitive>true";
    assert "</isCaseInsensitive>\n\t</searchCriteria" + "UserId" + ">" == "</isCaseInsensitive>\n\t</searchCriteriaUserId>";
  }

  // ---------------------------------------------------------------------------
  // UserGetListInSystemRequest
  // ---------------------------------------------------------------------------

  /** The format of UserGetListInSystemRequest.Prepare (users.go:64-66): one slot for the criteria. */
  const LIST_TEMPLATE: Template :=
    Then("<command xmlns=\"\" xsi:type=\"UserGetListInSystemRequest\">\n\t",
    End("\n\t</command>"))

  datatype UserGetListInSystemRequest = UserGetListInSystemRequest(typeName: string, criteria: seq<SearchCriteria>) {

    /** The criteria's fragments, in order. */
    function PreparedCriteria(): seq<string> {
      seq(|criteria|, k requires 0 <= k < |criteria| => criteria[k].Prepare())
    }

    /** The text Prepare returns: the criteria's fragments joined by newlines, in the slot. */
    function Rendered(): string {
      Render(LIST_TEMPLATE, [Join(PreparedCriteria(), "\n")])
    }

    /** Fills a slice with the criteria's fragments, in an indexed loop, then joins them (users.go:59-67). */
    method Prepare() returns (s: string)
      ensures s == Rendered()
    {
      var prepared := new string[|criteria|];
      for i := 0 to |criteria|
        invariant forall k :: 0 <= k < i ==> prepared[k] == criteria[k].Prepare()
      {
        prepared[i] := criteria[i].Prepare();
      }
      assert prepared[..] == PreparedCriteria();
      s := Render(LIST_TEMPLATE, [Join(prepared[..], "\n")]);
    }
  }

  /** A new listing request has no criteria, so its slot is empty. */
  function NewUserGetListInSystemRequest(): (r: UserGetListInSystemRequest)
    ensures r.typeName == "UserGetListInSystemRequest" && r.criteria == []
    ensures r.Rendered() == "<command xmlns=\"\" xsi:type=\"UserGetListInSystemRequest\">\n\t\n\t</command>"
  {
    UserGetListInSystemRequest("UserGetListInSystemRequest", [])
  }

  /**
    * The slot can be read back out of the fragment, and appending a criterion appends a newline and
    * its fragment to the slot: the criteria appear in order, one per line-separated piece.
    */
  lemma ListRendersCriteriaInOrder(r: UserGetListInSystemRequest, c: SearchCriteria)
    ensures Parse(LIST_TEMPLATE, r.Rendered()) == Some([Join(r.PreparedCriteria(), "\n")])
    ensures var r' := r.(criteria := r.criteria + [c]);
            Join(r'.PreparedCriteria(), "\n")
              == if r.criteria == [] then c.Prepare() else Join(r.PreparedCriteria(), "\n") + "\n" + c.Prepare()
  {
    ParseRender(LIST_TEMPLATE, [Join(r.PreparedCriteria(), "\n")]);
    var r' := r.(criteria := r.criteria + [c]);
    assert r'.PreparedCriteria() == r.PreparedCriteria() + [c.Prepare()];
    if r.criteria != [] {
      JoinAppend(r.PreparedCriteria(), c.Prepare(), "\n");
    }
  }

  // ---------------------------------------------------------------------------
  // UserGetRequest
  // ---------------------------------------------------------------------------

  /** The format of UserGetRequest.Prepare (users.go:90-92). */
  const USER_GET_TEMPLATE: Template :=
    Then("<command xmlns=\"\" xsi:type=\"",
    Then("\">\n    <userId>",
    End("</userId>\n</command>")))

  datatype UserGetRequest = UserGetRequest(typeName: string, userId: string) {

    function Prepare(): string {
      Render(USER_GET_TEMPLATE, [typeName, userId])
    }
  }

  function NewUserGetRequest(name: string, userId: string): (r: UserGetRequest)
    ensures r.typeName == name && r.userId == userId
  {
    UserGetRequest(name, userId)
  }

  /**
    * The fragment carries the command type and then the user id, both verbatim: they are read
    * back out of it when the type holds no '"'.
    */
  lemma UserGetRoundTrip(name: string, userId: string)
    requires '"' !in name
    ensures Parse(USER_GET_TEMPLATE, NewUserGetRequest(name, userId).Prepare()) == Some([name, userId])
  {
    ParseRender(USER_GET_TEMPLATE, [name, userId]);
  }
}
