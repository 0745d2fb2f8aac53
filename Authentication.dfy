/**
  * authentication.go: the two requests of the login handshake, and the signed password that
  * answers the server's nonce.
  */
module Authentication {
  import opened Wrappers
  import opened Text
  import opened Format

  // ---------------------------------------------------------------------------
  // AuthenticationRequest
  // ---------------------------------------------------------------------------

  /** The format of AuthenticationRequest.Prepare (authentication.go:25-27). */
  const AUTHENTICATION_TEMPLATE: Template :=
    Then("<command xmlns=\"\" xsi:type=\"AuthenticationRequest\">\n\t<userId>",
    End("</userId>\n\t</command>"))

  datatype AuthenticationRequest = AuthenticationRequest(typeName: string, userId: string) {

    function Prepare(): string {
      Render(AUTHENTICATION_TEMPLATE, [userId])
    }
  }

  /** The user id is what the fragment carries, and it can be read back whatever it holds. */
  function NewAuthenticationRequest(userId: string): (r: AuthenticationRequest)
    ensures r.typeName == "AuthenticationRequest" && r.userId == userId
  {
    AuthenticationRequest("AuthenticationRequest", userId)
  }

  /** The user id is read back out of the prepared text, whatever characters it holds. */
  lemma AuthenticationPrepareRoundTrip(r: AuthenticationRequest)
    ensures Parse(AUTHENTICATION_TEMPLATE, r.Prepare()) == Some([r.userId])
  {
    ParseRender(AUTHENTICATION_TEMPLATE, [r.userId]);
  }

  // ---------------------------------------------------------------------------
  // The signed password
  // ---------------------------------------------------------------------------

  /**
    * h is a digest function (SHA-1, MD5) whose output always has n bytes. The digests themselves
    * are taken as parameters: their internals are not modelled.
    */
  ghost predicate IsDigest(h: string -> seq<byte>, n: nat) {
    forall s :: |h(s)| == n
  }

  /** The text MD5 is applied to: the nonce, a colon, and the lower-case hex SHA-1 of the password. */
  function SignedInput(nonce: string, passwordDigest: seq<byte>): string {
    nonce + ":" + LowerHex(passwordDigest)
  }

  /**
    * The signed input determines both the nonce and the password digest: the hex part has a fixed
    * length, so the split point is known.
    */
  lemma SignedInputInjective(nonce1: string, digest1: seq<byte>, nonce2: string, digest2: seq<byte>)
    requires |digest1| == 20 && |digest2| == 20
    requires SignedInput(nonce1, digest1) == SignedInput(nonce2, digest2)
    ensures nonce1 == nonce2 && digest1 == digest2
  {
    var s := SignedInput(nonce1, digest1);
    var h1, h2 := LowerHex(digest1), LowerHex(digest2);
    assert s[|s| - 40..] == h1 && s[|s| - 40..] == h2;
    assert s[..|s| - 41] == nonce1 && s[..|s| - 41] == nonce2;
    LowerHexInjective(digest1, digest2);
  }

  // ---------------------------------------------------------------------------
  // LoginRequest
  // ---------------------------------------------------------------------------

  /**
    * The format of LoginRequest.Prepare (authentication.go:49-52). Its xsi:type is the fixed
    * "LoginRequest14sp4", whatever the request's own type field says.
    */
  const LOGIN_TEMPLATE: Template :=
    Then("<command xmlns=\"\" xsi:type=\"LoginRequest14sp4\">\n\t\t<userId>",
    Then("</userId>\n\t\t<signedPassword>",
    End("</signedPassword>\n\t</command>")))

  datatype LoginRequest = LoginRequest(typeName: string, userId: string, encodedPassword: string) {

    function Prepare(): string {
      Render(LOGIN_TEMPLATE, [userId, encodedPassword])
    }
  }

  /**
    * The login request for the given nonce: its signed password is 32 lower-case hex digits that
    * decode to the MD5 digest of nonce ":" lowerhex(SHA1(password)).
    */
  function NewLoginRequest(userId: string, password: string, nonce: string,
                           sha1: string -> seq<byte>, md5: string -> seq<byte>): (r: LoginRequest)
    requires IsDigest(sha1, 20) && IsDigest(md5, 16)
    ensures r.typeName == "LoginRequest" && r.userId == userId
    ensures |r.encodedPassword| == 32
    ensures forall i :: 0 <= i < 32 ==> IsLowerHex(r.encodedPassword[i])
    ensures ParseHex(r.encodedPassword) == Some(md5(SignedInput(nonce, sha1(password))))
  {
    var inner := LowerHex(sha1(password));
    var digest := md5(nonce + ":" + inner);
    HexRoundTrip(digest);
    LoginRequest("LoginRequest", userId, LowerHex(digest))
  }

  /**
    * Two logins with the same signed password had MD5 inputs with the same digest; when MD5 also
    * agrees on them, they were answers to the same nonce for passwords with the same SHA-1.
    */
  lemma SignedPasswordDetermines(u1: string, p1: string, n1: string, u2: string, p2: string, n2: string,
                                 sha1: string -> seq<byte>, md5: string -> seq<byte>)
    requires IsDigest(sha1, 20) && IsDigest(md5, 16)
    requires NewLoginRequest(u1, p1, n1, sha1, md5).encodedPassword
          == NewLoginRequest(u2, p2, n2, sha1, md5).encodedPassword
    ensures md5(SignedInput(n1, sha1(p1))) == md5(SignedInput(n2, sha1(p2)))
    ensures SignedInput(n1, sha1(p1)) == SignedInput(n2, sha1(p2)) ==> n1 == n2 && sha1(p1) == sha1(p2)
  {
    if SignedInput(n1, sha1(p1)) == SignedInput(n2, sha1(p2)) {
      SignedInputInjective(n1, sha1(p1), n2, sha1(p2));
    }
  }

  /**
    * The login fragment carries the user id and the signed password, in that order, and both can
    * be read back when the user id holds no '<'.
    */
  lemma LoginPrepareRoundTrip(r: LoginRequest)
    requires '<' !in r.userId
    ensures Parse(LOGIN_TEMPLATE, r.Prepare()) == Some([r.userId, r.encodedPassword])
  {
    ParseRender(LOGIN_TEMPLATE, [r.userId, r.encodedPassword]);
  }

  /**
    * The login fragment always announces xsi:type="LoginRequest14sp4", while the request built by
    * NewLoginRequest names its type "LoginRequest": the type field is never serialised.
    */
  lemma LoginTypeNotSerialised(r: LoginRequest, typeName: string)
    ensures r.Prepare() == r.(typeName := typeName).Prepare()
    ensures r.Prepare()[..47] == "<command xmlns=\"\" xsi:type=\"LoginRequest14sp4\">"
  {
    var s := r.Prepare();
    var head := "<command xmlns=\"\" xsi:type=\"LoginRequest14sp4\">\n\t\t<userId>";
    assert s == head + (r.userId + Render(LOGIN_TEMPLATE.rest, [r.encodedPassword]));
    assert s[..47] == head[..47];
  }
}
