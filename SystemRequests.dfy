/** system.go: a request that carries nothing but its command type. */
module SystemRequests {
  import opened Wrappers
  import opened Text
  import opened Format

  /** The format of SystemRequest.Prepare (system.go:21-22); the type goes unescaped into xsi:type. */
  const SYSTEM_TEMPLATE: Template :=
    Then("<command xmlns=\"\" xsi:type=\"", End("\">\n\t</command>"))

  datatype SystemRequest = SystemRequest(typeName: string) {

    function Prepare(): string {
      Render(SYSTEM_TEMPLATE, [typeName])
    }
  }

  function NewSystemRequest(name: string): (r: SystemRequest)
    ensures r.typeName == name
    ensures Parse(SYSTEM_TEMPLATE, r.Prepare()) == Some([name])
  {
    PrepareRoundTrip(SystemRequest(name));
    SystemRequest(name)
  }

  /** The command type can be read back out of the fragment, whatever characters it holds. */
  lemma PrepareRoundTrip(r: SystemRequest)
    ensures Parse(SYSTEM_TEMPLATE, r.Prepare()) == Some([r.typeName])
  {
    ParseRender(SYSTEM_TEMPLATE, [r.typeName]);
  }

  /**
    * The fragment opens the command element with the type attribute, closes it, and is exactly
    * the fixed text plus the type: nothing is escaped or added.
    */
  lemma PrepareShape(r: SystemRequest)
    ensures |r.Prepare()| == 42 + |r.typeName|
    ensures r.Prepare()[..28] == "<command xmlns=\"\" xsi:type=\""
    ensures r.Prepare()[28..28 + |r.typeName|] == r.typeName
    ensures EndsWith(r.Prepare(), "</command>")
  {
    var s, a, b := r.Prepare(), SYSTEM_TEMPLATE.lit, SYSTEM_TEMPLATE.rest.last;
    assert [r.typeName][1..] == [] && Render(SYSTEM_TEMPLATE.rest, []) == b;
    assert s == a + r.typeName + b;
    assert |a| == 28 && |b| == 14 && b[4..] == "</command>";
    assert s[..28] == a && s[28..28 + |r.typeName|] == r.typeName;
    assert s[|s| - 10..] == b[4..];
  }
}
