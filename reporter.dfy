/** The pageview that `track` reports: tracker settings, client data, the
    tracked URL, the attribution tuple and the page title. The tracker
    library itself is outside the model; the event is its input. */
module Reporter {
  import opened Inputs
  import opened PhpStrings
  import opened Resolver

  /** `$schema`: `http://` when `HTTPS` is unset, PHP-empty, or exactly `off`. */
  function Scheme(https: Option<string>): (s: string)
    ensures s == "http://" || s == "https://"
    ensures s == "https://" <==> (https.Some? && !PhpEmpty(https.value) && https.value != "off")
  {
    if https.None? || PhpEmpty(https.value) || https.value == "off" then "http://" else "https://"
  }

  /** The URL handed to `setUrl`. */
  function TrackedUrl(req: Request): string {
    Scheme(req.https) + req.serverName + req.requestUri
  }

  /** The tracked URL starts with the scheme and host and ends with the whole
      request URI, query string included: stripping the first two gives the URI back. */
  lemma TrackedUrlParts(req: Request)
    ensures var u := TrackedUrl(req);
      var n := |Scheme(req.https)| + |req.serverName|;
      n <= |u| && u[..|Scheme(req.https)|] == Scheme(req.https) &&
      u[|Scheme(req.https)|..n] == req.serverName && u[n..] == req.requestUri
  {
  }

  /** When the request URI holds a `/`, the tracked URL has the same last
      segment as the request URI, so it names the same image file. */
  lemma TrackedUrlSameSegment(req: Request)
    requires '/' in req.requestUri
    ensures LastPart(TrackedUrl(req), '/') == LastPart(req.requestUri, '/')
  {
    var uri := req.requestUri;
    LastPartSpec(uri, '/');
    var l := LastPart(uri, '/');
    var p := uri[..|uri| - |l| - 1];
    assert uri == p + "/" + l;
    assert TrackedUrl(req) == (Scheme(req.https) + req.serverName + p) + "/" + l;
    LastPartAfterSep(Scheme(req.https) + req.serverName + p, l, '/');
  }

  /** The array passed (JSON-encoded) to `setAttributionInfo`:
      campaign name, keyword, timestamp and referrer. */
  datatype Attribution = Attribution(campaign: string, keyword: string, timestamp: int, referrer: Option<string>)

  function AttributionInfo(sel: Selection, referer: Option<string>): Attribution {
    Attribution(sel.campaign, sel.keyword, 0, referer)
  }

  /** The keyword as the title shows it: `none` for a PHP-empty keyword. */
  function KeywordLabel(keyword: string): (shown: string)
    ensures shown != ""
    ensures PhpEmpty(keyword) ==> shown == "none"
    ensures !PhpEmpty(keyword) ==> shown == keyword
  {
    if PhpEmpty(keyword) then "none" else keyword
  }

  const TitlePrefix: string := "Reprint Tracker for: "

  /** The page title passed to `doTrackPageView`. */
  function Title(sel: Selection): string {
    TitlePrefix + sel.campaign + " (keyword: " + KeywordLabel(sel.keyword) + ")"
  }

  /** Two titles of one campaign are equal exactly when their keyword labels are:
      the title shows the keyword, except that "", "0" and "none" all read `none`. */
  lemma TitleDistinguishesLabels(campaign: string, k1: string, k2: string)
    ensures Title(Selection(campaign, k1)) == Title(Selection(campaign, k2)) <==> KeywordLabel(k1) == KeywordLabel(k2)
  {
    var p := TitlePrefix + campaign + " (keyword: ";
    var l1, l2 := KeywordLabel(k1), KeywordLabel(k2);
    assert Title(Selection(campaign, k1)) == p + l1 + ")";
    assert Title(Selection(campaign, k2)) == p + l2 + ")";
    if p + l1 + ")" == p + l2 + ")" {
      assert l1 == (p + l1 + ")")[|p|..|p| + |l1|];
      assert l2 == (p + l2 + ")")[|p|..|p| + |l2|];
    }
  }

  /** The event `track` emits. */
  datatype PageView = PageView(
    trackerUrl: string,
    idSite: string,
    tokenAuth: string,
    ip: string,
    userAgent: Option<string>,
    url: string,
    referrer: Option<string>,
    attribution: Attribution,
    title: string)

  /** `track($campaign, $keyword)`. */
  function Track(cfg: Config, req: Request, sel: Selection): PageView {
    PageView(cfg.piwikUrl, cfg.idSite, cfg.piwikToken, req.remoteAddr, req.userAgent,
             TrackedUrl(req), req.referer, AttributionInfo(sel, req.referer), Title(sel))
  }

  /** The attribution tuple carries the raw keyword, even where the title,
      built afterwards, shows `none`; both carry the same campaign. */
  lemma AttributionKeepsRawKeyword(cfg: Config, req: Request, sel: Selection)
    ensures var v := Track(cfg, req, sel);
      v.attribution == Attribution(sel.campaign, sel.keyword, 0, req.referer) &&
      (PhpEmpty(sel.keyword) ==> v.title == TitlePrefix + sel.campaign + " (keyword: none)") &&
      (!PhpEmpty(sel.keyword) ==> v.title == TitlePrefix + sel.campaign + " (keyword: " + sel.keyword + ")")
  {
  }

  /** For a resolved request the title reads `none` exactly when the keyword
      is empty or is literally `none`. */
  lemma ResolvedTitleNone(cfg: Config, req: Request)
    ensures var sel := Resolve(cfg, req);
      KeywordLabel(sel.keyword) == "none" <==> (sel.keyword == "" || sel.keyword == "none")
  {
    ResolvedKeywordNotZero(cfg, req);
  }
}
