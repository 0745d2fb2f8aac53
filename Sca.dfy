/** sca.go: the request for a user's shared-call-appearance endpoints. */
module Sca {
  import opened Wrappers
  import opened Text
  import opened Format

  /**
    * The format of UserSharedCallAppearanceGetEndpointRequest.Prepare (sca.go:25-31): the user id,
    * then the device name and the line port inside the accessDeviceEndpoint element.
    */
  const SCA_TEMPLATE: Template :=
    Then("<command xmlns=\"\" xsi:type=\"" + SCA_TYPE + "\">\n    <userId>", SCA_REST)

  /** The xsi:type the fragment always carries. */
  const SCA_TYPE := "UserSharedCallAppearanceGetEndpointRequest"

  /** The format after the user id. */
  const SCA_REST: Template :=
    Then("</userId>\n\t<accessDeviceEndpoint>\n\t\t<accessDevice>",
    Then("</accessDevice>\n\t\t<linePort>",
    End("</linePort>\n\t</accessDeviceEndpoint>\n</command>")))

  datatype UserSharedCallAppearanceGetEndpointRequest = UserSharedCallAppearanceGetEndpointRequest(
    typeName: string, userId: string, deviceName: string, deviceLevel: string, linePort: string)
  {
    /** Only the user id, the device name and the line port are written; the type and level are not. */
    function Prepare(): string {
      Render(SCA_TEMPLATE, [userId, deviceName, linePort])
    }
  }

  /**
    * The constructor as written (sca.go:19-20): it copies the device name, level and line port, but
    * leaves the user id empty whatever userID it is given.
    */
  function NewUserSharedCallAppearanceGetEndpointRequest(userId: string, deviceName: string, deviceLevel: string,
                                                         linePort: string)
    : (r: UserSharedCallAppearanceGetEndpointRequest)
    ensures r.typeName == "UserSharedCallAppearanceGetEndpointRequest"
    ensures r.deviceName == deviceName && r.deviceLevel == deviceLevel && r.linePort == linePort
    ensures r.userId == ""
  {
    UserSharedCallAppearanceGetEndpointRequest("UserSharedCallAppearanceGetEndpointRequest", "", deviceName,
                                                deviceLevel, linePort)
  }

  /** The constructor as evidently intended: every argument lands in its own field. */
  function NewUserSharedCallAppearanceGetEndpointRequestCorrected(userId: string, deviceName: string,
                                                                  deviceLevel: string, linePort: string)
    : (r: UserSharedCallAppearanceGetEndpointRequest)
    ensures r.typeName == "UserSharedCallAppearanceGetEndpointRequest"
    ensures r.userId == userId && r.deviceName == deviceName && r.deviceLevel == deviceLevel
    ensures r.linePort == linePort
  {
    UserSharedCallAppearanceGetEndpointRequest("UserSharedCallAppearanceGetEndpointRequest", userId, deviceName,
                                                deviceLevel, linePort)
  }

  /**
    * The fragment carries the user id, the device name and the line port in that order, and all
    * three are read back out of it when the first two hold no '<'.
    */
  lemma PrepareRoundTrip(r: UserSharedCallAppearanceGetEndpointRequest)
    requires '<' !in r.userId && '<' !in r.deviceName
    ensures Parse(SCA_TEMPLATE, r.Prepare()) == Some([r.userId, r.deviceName, r.linePort])
  {
    var t := SCA_TEMPLATE;
    assert t.rest.lit == "</userId>" + t.rest.lit[9..] && t.rest.rest.lit == "</accessDevice>" + t.rest.rest.lit[15..];
    SeparatedThree(t.lit, t.rest.lit, t.rest.rest.lit, t.rest.rest.rest.last, r.userId, r.deviceName, r.linePort);
    ParseRender(SCA_TEMPLATE, [r.userId, r.deviceName, r.linePort]);
  }

  /**
    * The fragment depends on neither the device level nor the type field: the xsi:type is the
    * fixed literal.
    */
  lemma PrepareIgnoresLevelAndType(r: UserSharedCallAppearanceGetEndpointRequest, typeName: string, level: string)
    ensures r.(typeName := typeName, deviceLevel := level).Prepare() == r.Prepare()
    ensures r.Prepare()[28..28 + |SCA_TYPE|] == SCA_TYPE
  {
    var s := r.Prepare();
    var head := SCA_TEMPLATE.lit;
    assert s == head + (r.userId + Render(SCA_TEMPLATE.rest, [r.deviceName, r.linePort]));
    assert s[28..28 + |SCA_TYPE|] == head[28..28 + |SCA_TYPE|];
  }

  /**
    * Whatever user id the caller passes, the request the constructor builds asks for the endpoints
    * of the empty user id: the fragment holds an empty userId element.
    */
  lemma UserIdDropped(userId: string, deviceName: string, deviceLevel: string, linePort: string)
    requires '<' !in deviceName
    ensures var r := NewUserSharedCallAppearanceGetEndpointRequest(userId, deviceName, deviceLevel, linePort);
            Parse(SCA_TEMPLATE, r.Prepare()) == Some(["", deviceName, linePort])
    ensures userId != "" ==>
              NewUserSharedCallAppearanceGetEndpointRequest(userId, deviceName, deviceLevel, linePort).Prepare()
              != NewUserSharedCallAppearanceGetEndpointRequestCorrected(userId, deviceName, deviceLevel, linePort)
                   .Prepare()
  {
    var r := NewUserSharedCallAppearanceGetEndpointRequest(userId, deviceName, deviceLevel, linePort);
    var c := NewUserSharedCallAppearanceGetEndpointRequestCorrected(userId, deviceName, deviceLevel, linePort);
    PrepareRoundTrip(r);
    if userId != "" && '<' !in userId {
      PrepareRoundTrip(c);
    } else if userId != "" {
      // A user id holding '<' cannot be read back, but the two fragments already differ in length.
      RenderLength(SCA_TEMPLATE, [r.userId, r.deviceName, r.linePort]);
      RenderLength(SCA_TEMPLATE, [c.userId, c.deviceName, c.linePort]);
    }
  }

  /** With the corrected constructor the fragment carries the caller's user id. */
  lemma CorrectedCarriesUserId(userId: string, deviceName: string, deviceLevel: string, linePort: string)
    requires '<' !in userId && '<' !in deviceName
    ensures var c := NewUserSharedCallAppearanceGetEndpointRequestCorrected(userId, deviceName, deviceLevel, linePort);
            Parse(SCA_TEMPLATE, c.Prepare()) == Some([userId, deviceName, linePort])
  {
    PrepareRoundTrip(NewUserSharedCallAppearanceGetEndpointRequestCorrected(userId, deviceName, deviceLevel, linePort));
  }
}
