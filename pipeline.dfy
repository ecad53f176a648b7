/** The top level of the script: defaults, campaign resolution, image
    selection, then either 503 or tracking followed by headers and body. */
module Pipeline {
  import opened Inputs
  import opened PhpStrings
  import opened Resolver
  import opened Selector
  import opened Reporter

  /** What a request makes the script do, in order. `Headers(p)` stands for
      the Content-Length, Content-Type and no-cache headers of image `p`, and
      `Body(p)` for streaming its bytes. */
  datatype Effect = Status503 | Tracked(view: PageView) | Headers(path: string) | Body(path: string)

  /** The effects of one request, given the set of readable image paths. */
  function Run(cfg: Config, req: Request, readable: set<string>): seq<Effect> {
    var sel := Resolve(cfg, req);
    match Select(sel.campaign, cfg.imageExtensions, readable)
    case None => [Status503]
    case Some(p) => [Tracked(Track(cfg, req, sel)), Headers(p), Body(p)]
  }

  /** The script's top level, lines 160-176. */
  method HandleRequest(cfg: Config, req: Request, readable: set<string>) returns (effects: seq<Effect>)
    ensures effects == Run(cfg, req, readable)
  {
    var state := new RequestState(cfg);
    state.CampaignData(req.requestUri, req.query, cfg.imageExtensions);
    var image := CampaignImage(state.campaign, cfg.imageExtensions, readable);
    if image.None? {
      return [Status503];
    }
    effects := [Tracked(Track(cfg, req, Selection(state.campaign, state.keyword)))];
    effects := effects + [Headers(image.value)];
    effects := effects + [Body(image.value)];
  }

  /** A request is tracked exactly when an image is served; when neither a
      campaign nor a default image is readable the only effect is the 503. */
  lemma UnservedIsNotTracked(cfg: Config, req: Request, readable: set<string>)
    ensures var sel := Resolve(cfg, req);
      var exts := cfg.imageExtensions;
      var effects := Run(cfg, req, readable);
      (effects == [Status503] <==>
        forall j :: 0 <= j < |exts| ==>
          ImagePath(sel.campaign, exts[j]) !in readable && ImagePath(DefaultName, exts[j]) !in readable) &&
      ((exists k :: 0 <= k < |effects| && effects[k].Tracked?) <==> effects != [Status503])
  {
    var sel := Resolve(cfg, req);
    SelectSpec(sel.campaign, cfg.imageExtensions, readable);
    var effects := Run(cfg, req, readable);
    if effects != [Status503] {
      assert effects[0].Tracked?;
    }
  }

  /** A served request emits one pageview for the resolved campaign and
      keyword, then the headers and the body of one readable image, which is
      the campaign's or the default image of a configured extension. */
  lemma ServedRequest(cfg: Config, req: Request, readable: set<string>)
    requires Select(Resolve(cfg, req).campaign, cfg.imageExtensions, readable).Some?
    ensures var sel := Resolve(cfg, req);
      var p := Select(sel.campaign, cfg.imageExtensions, readable).value;
      var effects := Run(cfg, req, readable);
      effects == [Tracked(Track(cfg, req, sel)), Headers(p), Body(p)] &&
      effects[0].view.attribution.campaign == sel.campaign &&
      effects[0].view.attribution.keyword == sel.keyword &&
      p in readable &&
      exists j :: 0 <= j < |cfg.imageExtensions| &&
        (p == ImagePath(sel.campaign, cfg.imageExtensions[j]) || p == ImagePath(DefaultName, cfg.imageExtensions[j]))
  {
    SelectSpec(Resolve(cfg, req).campaign, cfg.imageExtensions, readable);
  }

  /** The request `/reprints/summer-sale.promo.png` with extensions `[png]`
      tracks campaign `summer-sale` with keyword `promo` and serves
      `summer-sale.png` when readable, else `default.png` when readable. */
  lemma SummerSaleScenario(cfg: Config, req: Request, readable: set<string>)
    requires cfg.imageExtensions == ["png"]
    requires req.requestUri == "/reprints/summer-sale.promo.png"
    ensures Resolve(cfg, req) == Selection("summer-sale", "promo")
    ensures "../images/summer-sale.png" in readable ==>
      Run(cfg, req, readable)[1..] == [Headers("../images/summer-sale.png"), Body("../images/summer-sale.png")]
    ensures "../images/summer-sale.png" !in readable && "../images/default.png" in readable ==>
      Run(cfg, req, readable)[1..] == [Headers("../images/default.png"), Body("../images/default.png")]
  {
    var sel := Selection("summer-sale", "promo");
    SummerSaleResolves(Defaults(cfg), req.query, req.requestUri, cfg.imageExtensions);
    SummerSalePaths();
    if "../images/summer-sale.png" in readable {
      CampaignImageFirst("summer-sale", cfg.imageExtensions, readable, 0);
      RunServes(cfg, req, readable, sel, "../images/summer-sale.png");
    } else if "../images/default.png" in readable {
      DefaultImageFallback("summer-sale", cfg.imageExtensions, readable, 0);
      RunServes(cfg, req, readable, sel, "../images/default.png");
    }
  }

  /** The two image paths of the scenario. */
  lemma SummerSalePaths()
    ensures ImagePath("summer-sale", "png") == "../images/summer-sale.png"
    ensures ImagePath(DefaultName, "png") == "../images/default.png"
  {
  }

  /** A request whose resolution and selection are known emits that image's headers and body after the pageview. */
  lemma RunServes(cfg: Config, req: Request, readable: set<string>, sel: Selection, p: string)
    requires Resolve(cfg, req) == sel
    requires Select(sel.campaign, cfg.imageExtensions, readable) == Some(p)
    ensures Run(cfg, req, readable)[1..] == [Headers(p), Body(p)]
  {
  }

  /** The resolution step of the scenario, over any prior values and query. */
  lemma SummerSaleResolves(prior: Selection, query: map<string, string>, uri: string, exts: seq<string>)
    requires uri == "/reprints/summer-sale.promo.png" && exts == ["png"]
    ensures ResolveFrom(prior, uri, query, exts) == Selection("summer-sale", "promo")
  {
    SummerSaleParts();
    FilenameWithKeyword(prior, uri, query, exts, "/reprints", "summer-sale", "promo", "png");
  }

  /** The scenario URI split into prefix, name, keyword and extension. */
  lemma SummerSaleParts()
    ensures IsName("summer-sale") && IsName("promo")
    ensures "/reprints/summer-sale.promo.png" == "/reprints" + "/" + "summer-sale" + "." + "promo" + "." + "png"
  {
  }

  /** `/reprints/unknown.gif` with extensions `[png]` and no query parameters
      resolves to the default campaign with an empty keyword. */
  lemma UnlistedExtensionScenario(cfg: Config, req: Request)
    requires cfg.imageExtensions == ["png"]
    requires req.requestUri == "/reprints/unknown.gif" && req.query == map[]
    ensures Resolve(cfg, req) == Defaults(cfg)
  {
    UnknownGifNoMatch();
  }

  /** `unknown.gif` is the last segment and does not match `[png]`. */
  lemma UnknownGifNoMatch()
    ensures MatchFilename(LastPart("/reprints/unknown.gif", '/'), ["png"]) == None
  {
    assert "/reprints/unknown.gif" == "/reprints" + "/" + "unknown.gif";
    LastPartAfterSep("/reprints", "unknown.gif", '/');
    assert "unknown.gif" == "unknown" + "." + "gif";
    UnlistedExtensionNoMatch("unknown.gif", ["png"], "unknown", "gif");
  }

  /** The class `[a-zA-Z1-9\-_]` leaves out `0`: `/reprints/summer0.png`
      does not match and falls back to the query parameters. */
  lemma ZeroBlocksFilenameMatch(cfg: Config, req: Request)
    requires cfg.imageExtensions == ["png"]
    requires req.requestUri == "/reprints/summer0.png"
    ensures Resolve(cfg, req) == Selection(QueryOverride(req.query, "pk_campaign", cfg.defaultCampaign),
                                           QueryOverride(req.query, "pk_keyword", ""))
  {
    Summer0Segment();
    Summer0NoMatch("summer0.png", ["png"]);
  }

  /** `summer0.png` does not match `[png]`: its `0` is outside the class. */
  lemma Summer0NoMatch(seg: string, exts: seq<string>)
    requires seg == "summer0.png" && exts == ["png"]
    ensures MatchFilename(seg, exts) == None
  {
    PngIsPlain();
    assert !IsNameChar(seg[6]) && seg[6] != '.';
    ForeignCharNoMatch(seg, exts, 6);
  }

  /** The last segment of `/reprints/summer0.png`. */
  lemma Summer0Segment()
    ensures LastPart("/reprints/summer0.png", '/') == "summer0.png"
  {
    assert "/reprints/summer0.png" == "/reprints" + "/" + "summer0.png";
    LastPartAfterSep("/reprints", "summer0.png", '/');
  }

  /** `[png]` is a list of plain, dot-free extensions. */
  lemma PngIsPlain()
    ensures PlainExtensions(["png"]) && DotFreeExtensions(["png"])
  {
    assert Alternatives(["png"]) == ["png"];
  }

  /** As written, `/reprints/acme.png` with extensions `[png]` and no query
      parameters resolves to the configured default, whereas the intended
      pattern gives campaign `acme`. */
  lemma AsWrittenIgnoresFilename(cfg: Config, req: Request)
    requires cfg.imageExtensions == ["png"] && cfg.defaultCampaign == "default"
    requires req.requestUri == "/reprints/acme.png" && req.query == map[]
    ensures ResolveAsWritten(Defaults(cfg), req.requestUri, req.query, cfg.imageExtensions) == Selection("default", "")
    ensures Resolve(cfg, req) == Selection("acme", "")
  {
    assert IsName("acme");
    assert req.requestUri == "/reprints" + "/" + "acme" + "." + "png";
    FilenameWithoutKeyword(Defaults(cfg), req.requestUri, req.query, cfg.imageExtensions, "/reprints", "acme", "png");
  }
}
