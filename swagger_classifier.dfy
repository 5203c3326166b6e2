/** The asset classifier (`SwaggerClassifier` in src/swagger_classifier.py,
    `SwaggerDetector` in both root scripts, identical but for the HTML
    parser): from the page's script sources to a swagger-ui version. HTTP,
    HTML parsing, URL parsing and the tag resolver are parameters. */
module SwaggerClassifier {
  import opened Outcomes
  import Text
  import Scanners

  /** What the classifier reaches through other libraries. */
  datatype Web = Web(
    /** `requests.get(u, timeout=5).text`, None on a RequestException. */
    fetch: string -> Option<string>,
    /** `[x.get("src") for x in soup.find_all("script")]` of a page. */
    scriptSrcs: string -> seq<Option<string>>,
    /** `urllib.parse.urlparse(u).scheme` and `.netloc`. */
    scheme: string -> string,
    netloc: string -> string,
    /** `urllib.parse.urljoin(base, ref)`. */
    join: (string, string) -> string)

  /** `self.SGS.get_version_from_shorthash`, whichever resolver is held. */
  type Resolver = string -> Outcome<Option<string>>

  const BundleScript: string := "swagger-ui-bundle.js"
  const LegacyScript: string := "swagger-ui.js"

  /** `str(x)` of a script source; a script without `src` gives None. */
  function Str(src: Option<string>): string
  {
    match src
    case None => "None"
    case Some(x) => x
  }

  predicate Mentions(srcs: seq<Option<string>>, name: string)
  {
    exists i | 0 <= i < |srcs| :: Text.Contains(Str(srcs[i]), name)
  }

  /** `[x for x in srcs if name in str(x)]`. */
  function Filter(srcs: seq<Option<string>>, name: string): (r: seq<Option<string>>)
    ensures forall i :: 0 <= i < |r| ==> r[i] in srcs && Text.Contains(Str(r[i]), name)
    ensures |r| > 0 <==> Mentions(srcs, name)
  {
    if srcs == [] then []
    else
      var rest := Filter(srcs[1..], name);
      assert forall i :: 0 <= i < |srcs| - 1 ==> srcs[1..][i] == srcs[i + 1];
      if Text.Contains(Str(srcs[0]), name) then [srcs[0]] + rest else rest
  }

  /** The `[0]` of the comprehension is the first source that mentions the
      name. */
  lemma {:induction false} FilterHead(srcs: seq<Option<string>>, name: string, i: nat)
    requires i < |srcs| && Text.Contains(Str(srcs[i]), name)
    requires forall j :: 0 <= j < i ==> !Text.Contains(Str(srcs[j]), name)
    ensures |Filter(srcs, name)| > 0 && Filter(srcs, name)[0] == srcs[i]
  {
    if i > 0 {
      FilterHead(srcs[1..], name, i - 1);
    }
  }

  /** `detect_major`: 3 when some source mentions the bundle, else 2 when
      some source mentions the older script, else 0. */
  function DetectMajor(srcs: seq<Option<string>>): (major: int)
    ensures major == 3 <==> Mentions(srcs, BundleScript)
    ensures major == 2 <==> !Mentions(srcs, BundleScript) && Mentions(srcs, LegacyScript)
    ensures major == 0 <==> !Mentions(srcs, BundleScript) && !Mentions(srcs, LegacyScript)
  {
    if |Filter(srcs, BundleScript)| > 0 then 3
    else if |Filter(srcs, LegacyScript)| > 0 then 2
    else 0
  }

  /** Where the v3 bundle is fetched from: an absolute source as it is,
      a relative one against the page URL. */
  function BundleUrl(web: Web, url: string, bundle: string): string
  {
    if web.scheme(bundle) != "" then bundle else web.join(url, bundle)
  }

  /** Where the v2 script is fetched from: an absolute source as it is,
      a relative one against `https://` and the page's host. */
  function ScriptUrl(web: Web, url: string, script: string): string
  {
    if web.scheme(script) != "" then script else web.join("https://" + web.netloc(url), script)
  }

  /** `detect_minor_3`. The `[0]` selection is outside the `try`, so a list
      without the bundle raises IndexError; inside it a failed fetch, a
      missing hash (`None[0]`) and an IndexError or TypeError from the
      resolver give "v3". */
  function DetectMinor3(web: Web, resolve: Resolver, url: string, srcs: seq<Option<string>>): (r: Outcome<Option<string>>)
    ensures r.Raised? && r.error == IndexError <==> !Mentions(srcs, BundleScript)
    ensures r.Raised? && r.error != IndexError ==> r.error != TypeError
  {
    var bundles := Filter(srcs, BundleScript);
    if |bundles| == 0 then Raised(IndexError)
    else
      var bundle := Str(bundles[0]);
      match web.fetch(BundleUrl(web, url, bundle))
      case None => Ok(Some("v3"))
      case Some(text) =>
        match Scanners.SearchHash(text)
        case None => Ok(Some("v3"))
        case Some(m) =>
          Scanners.FoundHashShape(text);
          match resolve(Scanners.StripHash(m))
          case Raised(IndexError) => Ok(Some("v3"))
          case Raised(TypeError) => Ok(Some("v3"))
          case other => other
  }

  /** `detect_minor_2`: piece 2 of the first version comment split on
      spaces; a failed fetch, no comment (`None[0]`) or too few pieces give
      "v2". Only the `[0]` selection outside the `try` raises. */
  function DetectMinor2(web: Web, url: string, srcs: seq<Option<string>>): (r: Outcome<string>)
    ensures r.Raised? <==> !Mentions(srcs, LegacyScript)
    ensures r.Raised? ==> r.error == IndexError
  {
    var scripts := Filter(srcs, LegacyScript);
    if |scripts| == 0 then Raised(IndexError)
    else
      var script := Str(scripts[0]);
      match web.fetch(ScriptUrl(web, url, script))
      case None => Ok("v2")
      case Some(text) =>
        match Scanners.SearchVersion(text)
        case None => Ok("v2")
        case Some(m) =>
          var pieces := Text.Split(m, ' ');
          if |pieces| > 2 then Ok(pieces[2]) else Ok("v2")
  }

  /** `get_swagger_ui_version`: None when the page cannot be fetched or no
      known script is linked, otherwise the matching minor detector. */
  function GetSwaggerUiVersion(web: Web, resolve: Resolver, url: string): (r: Outcome<Option<string>>)
    ensures r.Raised? ==> r.error != IndexError && r.error != TypeError
    ensures (forall h :: resolve(h).Ok?) ==> r.Ok?
  {
    match web.fetch(url)
    case None => Ok(None)
    case Some(page) =>
      var srcs := web.scriptSrcs(page);
      var major := DetectMajor(srcs);
      if major == 3 then DetectMinor3(web, resolve, url, srcs)
      else if major == 2 then
        match DetectMinor2(web, url, srcs)
        case Ok(v) => Ok(Some(v))
        case Raised(e) => Raised(e)
      else Ok(None)
  }

  /** `srcs[i]` is the first source that mentions `name`. */
  predicate FirstMention(srcs: seq<Option<string>>, name: string, i: nat)
  {
    i < |srcs| && Text.Contains(Str(srcs[i]), name) &&
    forall j :: 0 <= j < i ==> !Text.Contains(Str(srcs[j]), name)
  }

  /** A fetch that answers only at `url`, as `web.fetch` does there. */
  function OnlyAt(web: Web, url: string): Web
  {
    web.(fetch := u => if u == url then web.fetch(url) else None)
  }

  /** The v3 detector fetches nothing but the first bundle source: as it is
      when it has a scheme, joined to the page URL otherwise. */
  lemma Minor3FetchesBundle(web: Web, resolve: Resolver, url: string, srcs: seq<Option<string>>, i: nat)
    requires FirstMention(srcs, BundleScript, i)
    ensures var b := Str(srcs[i]); var u := if web.scheme(b) != "" then b else web.join(url, b);
      DetectMinor3(web, resolve, url, srcs) == DetectMinor3(OnlyAt(web, u), resolve, url, srcs)
  {
    FilterHead(srcs, BundleScript, i);
  }

  /** A failed bundle fetch or a bundle without a hash token gives "v3". */
  lemma Minor3Fallback(web: Web, resolve: Resolver, url: string, srcs: seq<Option<string>>, i: nat)
    requires FirstMention(srcs, BundleScript, i)
    requires var b := BundleUrl(web, url, Str(srcs[i]));
      web.fetch(b).None? || Scanners.SearchHash(web.fetch(b).value).None?
    ensures DetectMinor3(web, resolve, url, srcs) == Ok(Some("v3"))
  {
    FilterHead(srcs, BundleScript, i);
  }

  /** With a hash token in the bundle, its 5 to 20 hex digits go to the
      resolver and its answer, even None, comes back unchanged; only an
      IndexError or TypeError from it turns into "v3". */
  lemma Minor3AsksResolver(web: Web, resolve: Resolver, url: string, srcs: seq<Option<string>>, i: nat, text: string)
    requires FirstMention(srcs, BundleScript, i)
    requires web.fetch(BundleUrl(web, url, Str(srcs[i]))) == Some(text)
    requires Scanners.SearchHash(text).Some?
    ensures |Scanners.SearchHash(text).value| >= 3
    ensures var h := Scanners.StripHash(Scanners.SearchHash(text).value);
      5 <= |h| <= 20 && (forall k :: 0 <= k < |h| ==> Scanners.IsHexDigit(h[k])) &&
      DetectMinor3(web, resolve, url, srcs) ==
        if resolve(h) == Raised(IndexError) || resolve(h) == Raised(TypeError) then Ok(Some("v3")) else resolve(h)
  {
    FilterHead(srcs, BundleScript, i);
    Scanners.FoundHashShape(text);
  }

  /** The v2 detector fetches nothing but the first script source: as it is
      when it has a scheme, joined to `https://` and the page's host
      otherwise. */
  lemma Minor2FetchesScript(web: Web, url: string, srcs: seq<Option<string>>, i: nat)
    requires FirstMention(srcs, LegacyScript, i)
    ensures var b := Str(srcs[i]);
      var u := if web.scheme(b) != "" then b else web.join("https://" + web.netloc(url), b);
      DetectMinor2(web, url, srcs) == DetectMinor2(OnlyAt(web, u), url, srcs)
  {
    FilterHead(srcs, LegacyScript, i);
  }

  /** A failed script fetch or a script without a version comment gives "v2". */
  lemma Minor2Fallback(web: Web, url: string, srcs: seq<Option<string>>, i: nat)
    requires FirstMention(srcs, LegacyScript, i)
    requires var u := ScriptUrl(web, url, Str(srcs[i]));
      web.fetch(u).None? || Scanners.SearchVersion(web.fetch(u).value).None?
    ensures DetectMinor2(web, url, srcs) == Ok("v2")
  {
    FilterHead(srcs, LegacyScript, i);
  }

  /** With a version comment, the answer is piece 2 of the match; the "v2"
      for too few pieces is never reached. */
  lemma Minor2ReadsComment(web: Web, url: string, srcs: seq<Option<string>>, i: nat, text: string)
    requires FirstMention(srcs, LegacyScript, i)
    requires web.fetch(ScriptUrl(web, url, Str(srcs[i]))) == Some(text)
    requires Scanners.SearchVersion(text).Some?
    ensures |Text.Split(Scanners.SearchVersion(text).value, ' ')| >= 3
    ensures DetectMinor2(web, url, srcs) == Ok(Text.Split(Scanners.SearchVersion(text).value, ' ')[2])
  {
    FilterHead(srcs, LegacyScript, i);
    var p := Scanners.FindVersion(text, 0).value;
    Scanners.MatchHasThirdPiece(text, p, Scanners.SpaceRun(text, p) - 1);
  }

  /** A page that cannot be fetched, or that links neither script, gives None. */
  lemma NoVersionWithoutScripts(web: Web, resolve: Resolver, url: string)
    requires web.fetch(url).None? ||
      (!Mentions(web.scriptSrcs(web.fetch(url).value), BundleScript) &&
       !Mentions(web.scriptSrcs(web.fetch(url).value), LegacyScript))
    ensures GetSwaggerUiVersion(web, resolve, url) == Ok(None)
  {
  }

  /** A page linking the bundle is classified by the v3 detector, one linking
      only the older script by the v2 detector. */
  lemma DispatchByScript(web: Web, resolve: Resolver, url: string, page: string)
    requires web.fetch(url) == Some(page)
    ensures var srcs := web.scriptSrcs(page);
      (Mentions(srcs, BundleScript) ==> GetSwaggerUiVersion(web, resolve, url) == DetectMinor3(web, resolve, url, srcs)) &&
      (!Mentions(srcs, BundleScript) && Mentions(srcs, LegacyScript) ==>
        DetectMinor2(web, url, srcs).Ok? &&
        GetSwaggerUiVersion(web, resolve, url) == Ok(Some(DetectMinor2(web, url, srcs).value)))
  {
  }

  /** A script tag without `src` never counts: `str(None)` mentions neither
      script. */
  lemma MissingSourceIgnored(srcs: seq<Option<string>>)
    ensures DetectMajor(srcs + [None]) == DetectMajor(srcs)
  {
    var all := srcs + [None];
    assert forall i :: 0 <= i < |srcs| ==> all[i] == srcs[i];
    assert !Text.Contains("None", BundleScript) && !Text.Contains("None", LegacyScript);
    assert Mentions(all, BundleScript) <==> Mentions(srcs, BundleScript);
    assert Mentions(all, LegacyScript) <==> Mentions(srcs, LegacyScript);
  }

  lemma ContainsItself(s: string)
    ensures Text.Contains(s, s)
  {
    assert Text.OccursAt(s, s, 0);
  }

  /** The unit tests of `detect_major`. */
  lemma DetectMajorScenarios()
    ensures DetectMajor([Some("swagger-ui.js")]) == 2
    ensures DetectMajor([Some("swagger-ui-bundle.js")]) == 3
    ensures DetectMajor([Some("whatever.js")]) == 0
    ensures DetectMajor([]) == 0
  {
    ContainsItself(LegacyScript);
    ContainsItself(BundleScript);
    var legacy: seq<Option<string>> := [Some(LegacyScript)];
    var bundle: seq<Option<string>> := [Some(BundleScript)];
    assert Str(legacy[0]) == LegacyScript;
    assert Str(bundle[0]) == BundleScript;
    assert Mentions(legacy, LegacyScript);
    assert Mentions(bundle, BundleScript);
  }

  /** The unit tests of `detect_minor_3`, for a bundle whose only hash
      token is `"g` + `h` + `"` (the shipped bundle carries `fdef4ea`), and
      for the `error` body and the failed fetch. */
  lemma Minor3Scenarios(web: Web, resolve: Resolver, url: string, h: string)
    requires 5 <= |h| <= 20 && forall k :: 0 <= k < |h| ==> Scanners.IsHexDigit(h[k])
    ensures var u := BundleUrl(web, url, BundleScript);
      (web.fetch(u) == Some("\"g" + h + "\"") && resolve(h).Ok? ==>
        DetectMinor3(web, resolve, url, [Some(BundleScript)]) == resolve(h)) &&
      (web.fetch(u) == Some("error") || web.fetch(u).None? ==>
        DetectMinor3(web, resolve, url, [Some(BundleScript)]) == Ok(Some("v3")))
  {
    var srcs: seq<Option<string>> := [Some(BundleScript)];
    assert Str(srcs[0]) == BundleScript;
    ContainsItself(BundleScript);
    assert FirstMention(srcs, BundleScript, 0);
    var u := BundleUrl(web, url, BundleScript);
    if web.fetch(u) == Some("\"g" + h + "\"") {
      Scanners.HashTokenAlone(h);
      Minor3AsksResolver(web, resolve, url, srcs, 0, "\"g" + h + "\"");
    } else if web.fetch(u) == Some("error") {
      Scanners.ErrorTextHasNoMatch();
      Minor3Fallback(web, resolve, url, srcs, 0);
    } else if web.fetch(u).None? {
      Minor3Fallback(web, resolve, url, srcs, 0);
    }
  }

  /** The unit tests of `detect_minor_2`, for a script whose only version
      comment is ` @version v` + `w` (the shipped script carries `2.2.9`), and
      for the `error` body and the failed fetch. */
  lemma Minor2Scenarios(web: Web, url: string, w: string)
    requires forall k :: 0 <= k < |w| ==> Scanners.IsWordChar(w[k])
    ensures var u := ScriptUrl(web, url, LegacyScript);
      (web.fetch(u) == Some(Scanners.Marker + w) ==> DetectMinor2(web, url, [Some(LegacyScript)]) == Ok("v" + w)) &&
      (web.fetch(u) == Some("error") || web.fetch(u).None? ==> DetectMinor2(web, url, [Some(LegacyScript)]) == Ok("v2"))
  {
    var srcs: seq<Option<string>> := [Some(LegacyScript)];
    assert Str(srcs[0]) == LegacyScript;
    ContainsItself(LegacyScript);
    assert FirstMention(srcs, LegacyScript, 0);
    var u := ScriptUrl(web, url, LegacyScript);
    if web.fetch(u) == Some(Scanners.Marker + w) {
      Scanners.VersionCommentAlone(w);
      Minor2ReadsComment(web, url, srcs, 0, Scanners.Marker + w);
    } else if web.fetch(u) == Some("error") {
      Scanners.ErrorTextHasNoMatch();
      Minor2Fallback(web, url, srcs, 0);
    } else if web.fetch(u).None? {
      Minor2Fallback(web, url, srcs, 0);
    }
  }
}
