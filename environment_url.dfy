/** The link to an environment in the Data Collection UI: a base URL chosen
    by the environment of the access token, followed by the company,
    property and environment identifiers as path segments. */
module EnvironmentUrl {
  import opened Prelude
  import Strings

  const UiProductionUrl: string := "https://experience.adobe.com/data-collection/eventForwarding"
  const UiStageUrl: string := "https://experience-stage.adobe.com/data-collection/eventForwarding"

  /** A JavaScript object of text properties; a missing property is
      interpolated as the text `undefined`. */
  type Props = map<string, string>

  function Prop(o: Props, name: string): string {
    if name in o then o[name] else "undefined"
  }

  /** A property passed on as a value: `None` is `undefined`. */
  function Get(o: Props, name: string): Option<string> {
    if name in o then Some(o[name]) else None
  }

  /** The base URL for the environment `getEnvironment(accessToken)` names;
      a missing token reaches `getEnvironment` as `undefined`. */
  function BaseUrl(environment: string): (base: string)
    ensures environment == "staging" ==> base == UiStageUrl
    ensures environment != "staging" ==> base == UiProductionUrl
  {
    if environment == "staging" then UiStageUrl else UiProductionUrl
  }

  /** The default export, with `getEnvironment` supplied by the caller. */
  function GenerateEnvironmentUrl(settings: Props, company: Props, getEnvironment: Option<string> -> string): (url: string)
    ensures BaseUrl(getEnvironment(Get(company, "accessToken"))) <= url
  {
    BaseUrl(getEnvironment(Get(company, "accessToken")))
      + "/companies/" + Prop(company, "companyId")
      + "/properties/" + Prop(company, "propertyId")
      + "/environments/" + Prop(settings, "environmentId")
  }

  /** The path segments after the base: each identifier after its
      collection name. */
  function Segments(settings: Props, company: Props): seq<string> {
    ["companies", Prop(company, "companyId"), "properties", Prop(company, "propertyId"),
     "environments", Prop(settings, "environmentId")]
  }

  /** The URL is the base, `/`, and the segments joined by `/`; when no
      identifier holds a `/`, splitting that part on `/` gives the segments
      back. */
  lemma SegmentsRoundTrip(settings: Props, company: Props, getEnvironment: Option<string> -> string)
    ensures var base := BaseUrl(getEnvironment(Get(company, "accessToken")));
            GenerateEnvironmentUrl(settings, company, getEnvironment)
            == base + "/" + Strings.Join(Segments(settings, company), '/')
    ensures '/' !in Prop(company, "companyId") && '/' !in Prop(company, "propertyId")
            && '/' !in Prop(settings, "environmentId") ==>
              Strings.Split(Strings.Join(Segments(settings, company), '/'), '/') == Segments(settings, company)
  {
    var ps := Segments(settings, company);
    var base := BaseUrl(getEnvironment(Get(company, "accessToken")));
    Literals();
    JoinSix(ps);
    Chain(base, ps[0], ps[1], ps[2], ps[3], ps[4], ps[5]);
    if '/' !in ps[1] && '/' !in ps[3] && '/' !in ps[5] {
      assert forall k :: 0 <= k < |ps| ==> '/' !in ps[k];
      Strings.SplitJoin(ps, '/');
    }
  }

  lemma Literals()
    ensures "/companies/" == "/" + "companies" + "/"
    ensures "/properties/" == "/" + "properties" + "/"
    ensures "/environments/" == "/" + "environments" + "/"
    ensures '/' !in "companies" && '/' !in "properties" && '/' !in "environments"
  {
  }

  /** The template's pieces regrouped around the separators. */
  lemma Chain(base: string, a: string, b: string, c: string, d: string, e: string, f: string)
    ensures base + ("/" + a + "/") + b + ("/" + c + "/") + d + ("/" + e + "/") + f
            == base + "/" + (a + "/" + (b + "/" + (c + "/" + (d + "/" + (e + "/" + f)))))
  {
  }

  /** Six segments joined by `/`. */
  lemma JoinSix(ps: seq<string>)
    requires |ps| == 6
    ensures Strings.Join(ps, '/') == ps[0] + "/" + (ps[1] + "/" + (ps[2] + "/" + (ps[3] + "/" + (ps[4] + "/" + ps[5]))))
  {
    assert ps[1..][1..] == ps[2..] && ps[2..][1..] == ps[3..] && ps[3..][1..] == ps[4..];
    assert ps[4..][1..] == ps[5..] && ps[5..] == [ps[5]];
    assert Strings.Join(ps[4..], '/') == ps[4] + "/" + ps[5];
    assert Strings.Join(ps[3..], '/') == ps[3] + "/" + Strings.Join(ps[4..], '/');
    assert Strings.Join(ps[2..], '/') == ps[2] + "/" + Strings.Join(ps[3..], '/');
    assert Strings.Join(ps[1..], '/') == ps[1] + "/" + Strings.Join(ps[2..], '/');
  }

  /** Only `environmentId` of the settings and `companyId`, `propertyId` and
      `accessToken` of the company are read: objects that agree on those give
      the same URL. */
  lemma ReadsOnlyNamedKeys(s1: Props, s2: Props, c1: Props, c2: Props, getEnvironment: Option<string> -> string)
    requires Prop(s1, "environmentId") == Prop(s2, "environmentId")
    requires Prop(c1, "companyId") == Prop(c2, "companyId") && Prop(c1, "propertyId") == Prop(c2, "propertyId")
    requires Get(c1, "accessToken") == Get(c2, "accessToken")
    ensures GenerateEnvironmentUrl(s1, c1, getEnvironment) == GenerateEnvironmentUrl(s2, c2, getEnvironment)
  {
  }
}
