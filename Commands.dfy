/**
  * The BSCommand interface (connection.go:126-129): anything with a Prepare method. The request
  * types of the client are a closed set, so the interface becomes a sum type.
  */
module Commands {
  import opened Text
  import opened Format
  import Authentication
  import Users
  import Sca
  import SystemRequests

  datatype Command =
    | Authenticate(auth: Authentication.AuthenticationRequest)
    | Login(login: Authentication.LoginRequest)
    | UserGetList(list: Users.UserGetListInSystemRequest)
    | UserGet(user: Users.UserGetRequest)
    | SharedCallAppearance(sca: Sca.UserSharedCallAppearanceGetEndpointRequest)
    | System(system: SystemRequests.SystemRequest)
  {
    /** The fragment the command's own Prepare returns. */
    function Fragment(): string {
      match this
      case Authenticate(r) => r.Prepare()
      case Login(r) => r.Prepare()
      case UserGetList(r) => r.Rendered()
      case UserGet(r) => r.Prepare()
      case SharedCallAppearance(r) => r.Prepare()
      case System(r) => r.Prepare()
    }

    /** BSCommand.Prepare, dispatched to the request type. */
    method Prepare() returns (s: string)
      ensures s == Fragment()
    {
      match this
      case UserGetList(r) =>
        s := r.Prepare();
      case _ =>
        s := Fragment();
    }
  }

  /** How every command's fragment opens: the command tag up to the value of its xsi:type attribute. */
  const COMMAND_OPEN := "<command xmlns=\"\" xsi:type=\""
  /** How every command's fragment closes. */
  const COMMAND_CLOSE := "</command>"

  /** A text that opens with the command tag and its xsi:type attribute and ends with the closing command tag. */
  predicate CommandElement(s: string) {
    |COMMAND_OPEN| <= |s| && s[..|COMMAND_OPEN|] == COMMAND_OPEN && EndsWith(s, COMMAND_CLOSE)
  }

  /** A fragment rendered from a format whose literals open and close a command is a command element. */
  lemma RenderedFrame(t: Template, args: seq<string>)
    requires |args| == Verbs(t)
    requires |COMMAND_OPEN| <= |Head(t)| && Head(t)[..|COMMAND_OPEN|] == COMMAND_OPEN
    requires EndsWith(Last(t), COMMAND_CLOSE)
    ensures CommandElement(Render(t, args))
  {
    RenderEnds(t, args);
    var s, h, l := Render(t, args), Head(t), Last(t);
    assert s[..|COMMAND_OPEN|] == s[..|h|][..|COMMAND_OPEN|];
    assert s[|s| - |COMMAND_CLOSE|..] == s[|s| - |l|..][|l| - |COMMAND_CLOSE|..];
  }

  lemma AuthenticationFrame(r: Authentication.AuthenticationRequest)
    ensures CommandElement(r.Prepare())
  {
    var h := Authentication.AUTHENTICATION_TEMPLATE.lit;
    var y := "<command xmlns=\"\" xsi:type=\"AuthenticationReq";
    assert h[..45] == y && y[..28] == COMMAND_OPEN;
    assert h[..|COMMAND_OPEN|] == h[..45][..|COMMAND_OPEN|];
    RenderedFrame(Authentication.AUTHENTICATION_TEMPLATE, [r.userId]);
  }

  lemma LoginFrame(r: Authentication.LoginRequest)
    ensures CommandElement(r.Prepare())
  {
    RenderedFrame(Authentication.LOGIN_TEMPLATE, [r.userId, r.encodedPassword]);
  }

  lemma ListFrame(r: Users.UserGetListInSystemRequest)
    ensures CommandElement(r.Rendered())
  {
    var h := Users.LIST_TEMPLATE.lit;
    var y := "<command xmlns=\"\" xsi:type=\"UserGetList";
    assert h[..39] == y && y[..28] == COMMAND_OPEN;
    assert h[..|COMMAND_OPEN|] == h[..39][..|COMMAND_OPEN|];
    RenderedFrame(Users.LIST_TEMPLATE, [Join(r.PreparedCriteria(), "\n")]);
  }

  lemma UserGetFrame(r: Users.UserGetRequest)
    ensures CommandElement(r.Prepare())
  {
    RenderedFrame(Users.USER_GET_TEMPLATE, [r.typeName, r.userId]);
  }

  lemma ScaFrame(r: Sca.UserSharedCallAppearanceGetEndpointRequest)
    ensures CommandElement(r.Prepare())
  {
    RenderedFrame(Sca.SCA_TEMPLATE, [r.userId, r.deviceName, r.linePort]);
  }

  lemma SystemFrame(r: SystemRequests.SystemRequest)
    ensures CommandElement(r.Prepare())
  {
    RenderedFrame(SystemRequests.SYSTEM_TEMPLATE, [r.typeName]);
  }

  /**
    * Every fragment is one command element, as the server expects of each command in a document.
    */
  lemma FragmentIsCommandElement(c: Command)
    ensures CommandElement(c.Fragment())
  {
    match c
    case Authenticate(r) => AuthenticationFrame(r);
    case Login(r) => LoginFrame(r);
    case UserGetList(r) => ListFrame(r);
    case UserGet(r) => UserGetFrame(r);
    case SharedCallAppearance(r) => ScaFrame(r);
    case System(r) => SystemFrame(r);
  }
}
