/** Campaign resolution (`campaign_data`): the campaign and keyword of a
    request, taken from the last segment of the request URI when it is an
    image file name of the form `name[.keyword].ext`, and otherwise from the
    `pk_campaign` / `pk_keyword` query parameters, over the defaults. */
module Resolver {
  import opened Inputs
  import opened PhpStrings

  /** The campaign and keyword the script keeps in `$GLOBALS`. */
  datatype Selection = Selection(campaign: string, keyword: string)

  /** The character class `[a-zA-Z1-9\-_]` of the file-name pattern, as
      written: the digit 0 is not in it. */
  predicate IsNameChar(ch: char) {
    ('a' <= ch <= 'z') || ('A' <= ch <= 'Z') || ('1' <= ch <= '9') || ch == '-' || ch == '_'
  }

  /** One or more characters of the class. */
  predicate IsName(s: string) {
    |s| > 0 && forall i :: 0 <= i < |s| ==> IsNameChar(s[i])
  }

  /** Names hold neither dots nor slashes. */
  lemma NameHasNoDot(s: string)
    requires IsName(s)
    ensures '.' !in s && '/' !in s
    ensures forall k :: 0 <= k < |s| ==> s[k] != '.'
  {
    assert forall k :: 0 <= k < |s| ==> s[k] != '.' && s[k] != '/';
  }

  /** The alternatives of the group `(ext1|ext2|...)` built with `join('|', ...)`:
      an empty list joins to `()`, which matches the empty extension. */
  function Alternatives(exts: seq<string>): (alts: seq<string>)
    ensures |alts| > 0
    ensures |exts| > 0 ==> alts == exts
  {
    if |exts| == 0 then [""] else exts
  }

  /** The three groups of a successful match: group 1 (the campaign), group 2
      (the keyword with its leading dot, or "" when the optional group is
      absent) and group 3 (the extension). */
  datatype FileMatch = FileMatch(campaign: string, keywordGroup: string, ext: string)

  /** `m` is one way of reading `seg` as the pattern
      `^([a-zA-Z1-9\-_]+)(\.[a-zA-Z1-9\-_]+)?\.(ext1|ext2|...)$`. */
  ghost predicate Decomposes(seg: string, exts: seq<string>, m: FileMatch) {
    IsName(m.campaign) &&
    (m.keywordGroup == "" || (|m.keywordGroup| > 0 && m.keywordGroup[0] == '.' && IsName(m.keywordGroup[1..]))) &&
    m.ext in Alternatives(exts) &&
    seg == m.campaign + m.keywordGroup + "." + m.ext
  }

  /** The intended `preg_match` of the file-name pattern. Group 1 cannot hold a
      dot, so it ends at the first dot; the optional group 2 is greedy, so the
      reading with a keyword is tried before the one without. */
  function MatchFilename(seg: string, exts: seq<string>): (m: Option<FileMatch>)
    ensures m.Some? ==> Decomposes(seg, exts, m.value)
  {
    var d := FirstIndexOf(seg, '.');
    if d == |seg| || !IsName(seg[..d]) then None
    else
      var rest := seg[d + 1..];
      var e := FirstIndexOf(rest, '.');
      if e < |rest| && IsName(rest[..e]) && rest[e + 1..] in Alternatives(exts) then
        KeywordReading(seg, exts, d, e);
        Some(FileMatch(seg[..d], "." + rest[..e], rest[e + 1..]))
      else if rest in Alternatives(exts) then
        PlainReading(seg, exts, d);
        Some(FileMatch(seg[..d], "", rest))
      else None
  }

  lemma KeywordReading(seg: string, exts: seq<string>, d: nat, e: nat)
    requires d < |seg| && seg[d] == '.' && IsName(seg[..d])
    requires e < |seg[d + 1..]| && seg[d + 1..][e] == '.'
    requires IsName(seg[d + 1..][..e]) && seg[d + 1..][e + 1..] in Alternatives(exts)
    ensures Decomposes(seg, exts, FileMatch(seg[..d], "." + seg[d + 1..][..e], seg[d + 1..][e + 1..]))
  {
    var name, rest := seg[..d], seg[d + 1..];
    SplitAtIndex(seg, d);
    var kw, ext := rest[..e], rest[e + 1..];
    SplitAtIndex(rest, e);
    assert ("." + kw)[1..] == kw;
    assert seg == name + ("." + kw) + "." + ext;
  }

  lemma PlainReading(seg: string, exts: seq<string>, d: nat)
    requires d < |seg| && seg[d] == '.' && IsName(seg[..d])
    requires seg[d + 1..] in Alternatives(exts)
    ensures Decomposes(seg, exts, FileMatch(seg[..d], "", seg[d + 1..]))
  {
    SplitAtIndex(seg, d);
    assert seg == seg[..d] + "" + "." + seg[d + 1..];
  }

  /** In `name + "." + tail` the first dot is the one after the name. */
  lemma FirstDotAfterName(s: string, name: string, tail: string)
    requires IsName(name) && s == name + "." + tail
    ensures FirstIndexOf(s, '.') == |name| && s[..|name|] == name && s[|name| + 1..] == tail
  {
    NameHasNoDot(name);
    assert forall k :: 0 <= k < |name| ==> s[k] == name[k];
    FirstIndexOfAt(s, '.', |name|);
    assert s[..|name|] == name;
  }

  /** Every reading of the pattern is found: the match has the same campaign,
      and a reading with a keyword is exactly the match. */
  lemma MatchFilenameComplete(seg: string, exts: seq<string>, f: FileMatch)
    requires Decomposes(seg, exts, f)
    ensures MatchFilename(seg, exts).Some?
    ensures MatchFilename(seg, exts).value.campaign == f.campaign
    ensures f.keywordGroup != "" ==> MatchFilename(seg, exts) == Some(f)
  {
    if f.keywordGroup != "" {
      var kw := f.keywordGroup[1..];
      assert f.keywordGroup == "." + kw;
      assert seg == f.campaign + "." + (kw + "." + f.ext);
      FirstDotAfterName(seg, f.campaign, kw + "." + f.ext);
      FirstDotAfterName(kw + "." + f.ext, kw, f.ext);
    } else {
      assert seg == f.campaign + "." + f.ext;
      FirstDotAfterName(seg, f.campaign, f.ext);
    }
  }

  /** A segment matches exactly when it can be read as the pattern. */
  lemma MatchFilenameIff(seg: string, exts: seq<string>)
    ensures MatchFilename(seg, exts).Some? <==> exists f :: Decomposes(seg, exts, f)
  {
    if exists f :: Decomposes(seg, exts, f) {
      var f :| Decomposes(seg, exts, f);
      MatchFilenameComplete(seg, exts, f);
    }
  }

  /** Every alternative is free of dots, as plain extensions like `png` are. */
  predicate DotFreeExtensions(exts: seq<string>) {
    forall x :: x in Alternatives(exts) ==> '.' !in x
  }

  /** Every alternative consists of name characters only. */
  predicate PlainExtensions(exts: seq<string>) {
    forall x :: x in Alternatives(exts) ==> forall i :: 0 <= i < |x| ==> IsNameChar(x[i])
  }

  /** `name.ext` with a dot-free `ext` matches without a keyword group. */
  lemma MatchWithoutKeyword(seg: string, exts: seq<string>, name: string, x: string)
    requires IsName(name) && x in Alternatives(exts) && '.' !in x
    requires seg == name + "." + x
    ensures MatchFilename(seg, exts) == Some(FileMatch(name, "", x))
  {
    FirstDotAfterName(seg, name, x);
    FirstIndexOfAbsent(x, '.');
  }

  /** With dot-free extensions a segment has at most one reading, and the
      match is that reading. */
  lemma MatchFilenameUnique(seg: string, exts: seq<string>, f: FileMatch)
    requires DotFreeExtensions(exts)
    requires Decomposes(seg, exts, f)
    ensures MatchFilename(seg, exts) == Some(f)
  {
    if f.keywordGroup == "" {
      assert seg == f.campaign + "." + f.ext;
      MatchWithoutKeyword(seg, exts, f.campaign, f.ext);
    } else {
      MatchFilenameComplete(seg, exts, f);
    }
  }

  /** With dot-free extensions the dots of a matched segment are exactly the
      one after the campaign and, when there is a keyword, the one after it. */
  lemma MatchedDots(seg: string, exts: seq<string>, i: int)
    requires DotFreeExtensions(exts)
    requires MatchFilename(seg, exts).Some?
    requires 0 <= i < |seg| && seg[i] == '.'
    ensures var m := MatchFilename(seg, exts).value;
      i == |m.campaign| || (m.keywordGroup != "" && i == |m.campaign| + |m.keywordGroup|)
  {
    var m := MatchFilename(seg, exts).value;
    var c, g, x := m.campaign, m.keywordGroup, m.ext;
    NameHasNoDot(c);
    if g != "" {
      NameHasNoDot(g[1..]);
    }
    assert seg == c + g + "." + x;
    assert forall k :: 0 <= k < |x| ==> x[k] in x;
  }

  /** With dot-free extensions, a segment with three or more dots (more than
      one keyword part) does not match. */
  lemma TooManyDotsNoMatch(seg: string, exts: seq<string>, i: int, j: int, k: int)
    requires DotFreeExtensions(exts)
    requires 0 <= i < j < k < |seg| && seg[i] == '.' && seg[j] == '.' && seg[k] == '.'
    ensures MatchFilename(seg, exts) == None
  {
    if MatchFilename(seg, exts).Some? {
      MatchedDots(seg, exts, i);
      MatchedDots(seg, exts, j);
      MatchedDots(seg, exts, k);
    }
  }

  /** With dot-free extensions, a segment whose text after its final dot is
      not a configured extension does not match. */
  lemma UnlistedExtensionNoMatch(seg: string, exts: seq<string>, p: string, x: string)
    requires DotFreeExtensions(exts)
    requires seg == p + "." + x && '.' !in x
    requires x !in Alternatives(exts)
    ensures MatchFilename(seg, exts) == None
  {
    if MatchFilename(seg, exts).Some? {
      var m := MatchFilename(seg, exts).value;
      assert seg == (m.campaign + m.keywordGroup) + "." + m.ext;
      SplitAtLastSep(p, x, m.campaign + m.keywordGroup, m.ext, '.');
    }
  }

  /** With plain extensions, a segment holding a character that is neither a
      name character nor a dot (a `0`, a `?` of a query string, a `%`, ...)
      does not match. */
  lemma ForeignCharNoMatch(seg: string, exts: seq<string>, i: int)
    requires PlainExtensions(exts)
    requires 0 <= i < |seg| && !IsNameChar(seg[i]) && seg[i] != '.'
    ensures MatchFilename(seg, exts) == None
  {
    if MatchFilename(seg, exts).Some? {
      var m := MatchFilename(seg, exts).value;
      var c, g, x := m.campaign, m.keywordGroup, m.ext;
      assert seg == c + g + "." + x;
    }
  }

  /** `isset($_GET[key]) and ! empty($_GET[key])`. */
  predicate QueryGiven(query: map<string, string>, key: string) {
    key in query && !PhpEmpty(query[key])
  }

  /** The value a query parameter leaves in a global that currently holds `current`. */
  function QueryOverride(query: map<string, string>, key: string, current: string): string {
    if QueryGiven(query, key) then query[key] else current
  }

  /** What `campaign_data` leaves in the globals that held `prior`. */
  function ResolveFrom(prior: Selection, uri: string, query: map<string, string>, exts: seq<string>): Selection {
    match MatchFilename(LastPart(uri, '/'), exts)
    case Some(m) =>
      Selection(m.campaign, if !PhpEmpty(m.keywordGroup) then Trim(m.keywordGroup, '.') else prior.keyword)
    case None =>
      Selection(QueryOverride(query, "pk_campaign", prior.campaign), QueryOverride(query, "pk_keyword", prior.keyword))
  }

  /** The defaults the script sets before resolving. */
  function Defaults(cfg: Config): Selection {
    Selection(cfg.defaultCampaign, "")
  }

  /** The campaign and keyword of a request. */
  function Resolve(cfg: Config, req: Request): Selection {
    ResolveFrom(Defaults(cfg), req.requestUri, req.query, cfg.imageExtensions)
  }

  /** `name.keyword.ext` as last segment gives campaign `name` and keyword
      `keyword` (its dot trimmed), whatever the query says. */
  lemma FilenameWithKeyword(prior: Selection, uri: string, query: map<string, string>, exts: seq<string>,
                            p: string, name: string, kw: string, x: string)
    requires uri == p + "/" + name + "." + kw + "." + x
    requires IsName(name) && IsName(kw) && x in Alternatives(exts) && '/' !in x
    ensures ResolveFrom(prior, uri, query, exts) == Selection(name, kw)
  {
    var seg := name + "." + kw + "." + x;
    KeywordSegment(p, name, kw, x);
    KeywordSegmentMatches(seg, exts, name, kw, x);
    KeywordGroupTrimmed(kw);
  }

  lemma KeywordSegment(p: string, name: string, kw: string, x: string)
    requires IsName(name) && IsName(kw) && '/' !in x
    ensures LastPart(p + "/" + name + "." + kw + "." + x, '/') == name + "." + kw + "." + x
  {
    var seg := name + "." + kw + "." + x;
    NameHasNoDot(name);
    NameHasNoDot(kw);
    assert '/' !in seg;
    assert p + "/" + name + "." + kw + "." + x == p + "/" + seg;
    LastPartAfterSep(p, seg, '/');
  }

  lemma KeywordSegmentMatches(seg: string, exts: seq<string>, name: string, kw: string, x: string)
    requires IsName(name) && IsName(kw) && x in Alternatives(exts)
    requires seg == name + "." + kw + "." + x
    ensures MatchFilename(seg, exts) == Some(FileMatch(name, "." + kw, x))
  {
    assert ("." + kw)[1..] == kw;
    assert seg == name + ("." + kw) + "." + x;
    MatchFilenameComplete(seg, exts, FileMatch(name, "." + kw, x));
  }

  /** A matched keyword group is PHP-non-empty and trims to the keyword. */
  lemma KeywordGroupTrimmed(kw: string)
    requires IsName(kw)
    ensures !PhpEmpty("." + kw) && Trim("." + kw, '.') == kw
  {
    NameHasNoDot(kw);
    TrimLeading(kw, '.');
    assert "." + kw == ['.'] + kw;
  }

  /** `name.ext` as last segment, with a dot-free `ext`, gives campaign `name`
      and leaves the keyword as it was, whatever the query says. */
  lemma FilenameWithoutKeyword(prior: Selection, uri: string, query: map<string, string>, exts: seq<string>,
                               p: string, name: string, x: string)
    requires uri == p + "/" + name + "." + x
    requires IsName(name) && x in Alternatives(exts) && '/' !in x && '.' !in x
    ensures ResolveFrom(prior, uri, query, exts) == Selection(name, prior.keyword)
  {
    var seg := name + "." + x;
    NameHasNoDot(name);
    assert '/' !in seg;
    assert uri == p + "/" + seg;
    LastPartAfterSep(p, seg, '/');
    MatchWithoutKeyword(seg, exts, name, x);
  }

  /** A file-name match takes precedence: the query parameters are then not consulted. */
  lemma FilenameTakesPrecedence(prior: Selection, uri: string, q1: map<string, string>, q2: map<string, string>, exts: seq<string>)
    requires MatchFilename(LastPart(uri, '/'), exts).Some?
    ensures ResolveFrom(prior, uri, q1, exts) == ResolveFrom(prior, uri, q2, exts)
    ensures ResolveFrom(prior, uri, q1, exts).campaign == MatchFilename(LastPart(uri, '/'), exts).value.campaign
  {
  }

  /** Without a file-name match, each global changes only to a given,
      PHP-non-empty query parameter, and otherwise keeps its value. */
  lemma QueryFallback(prior: Selection, uri: string, query: map<string, string>, exts: seq<string>)
    requires MatchFilename(LastPart(uri, '/'), exts).None?
    ensures var r := ResolveFrom(prior, uri, query, exts);
      (r.campaign == prior.campaign || (QueryGiven(query, "pk_campaign") && r.campaign == query["pk_campaign"])) &&
      (r.keyword == prior.keyword || (QueryGiven(query, "pk_keyword") && r.keyword == query["pk_keyword"])) &&
      (QueryGiven(query, "pk_campaign") ==> r.campaign == query["pk_campaign"]) &&
      (QueryGiven(query, "pk_keyword") ==> r.keyword == query["pk_keyword"])
  {
  }

  /** A parameter set to "" or "0" acts exactly as an absent one. */
  lemma EmptyParameterIgnored(prior: Selection, uri: string, query: map<string, string>, exts: seq<string>,
                              key: string, v: string)
    requires PhpEmpty(v)
    ensures ResolveFrom(prior, uri, query[key := v], exts) == ResolveFrom(prior, uri, query - {key}, exts)
  {
  }

  /** The keyword a request resolves to is "" or PHP-non-empty: it is never "0". */
  lemma ResolvedKeywordNotZero(cfg: Config, req: Request)
    ensures Resolve(cfg, req).keyword == "" || !PhpEmpty(Resolve(cfg, req).keyword)
  {
    var m := MatchFilename(LastPart(req.requestUri, '/'), cfg.imageExtensions);
    if m.Some? && !PhpEmpty(m.value.keywordGroup) {
      var kw := m.value.keywordGroup[1..];
      assert m.value.keywordGroup == ['.'] + kw;
      NameHasNoDot(kw);
      TrimLeading(kw, '.');
      assert IsNameChar(kw[0]);
    }
  }

  /** A campaign taken from the file name is a plain name: it has no `/` and
      no `.`, so the image path built from it stays in the image directory.
      The query branch gives no such guarantee: `pk_campaign` is taken as it
      is, so `../secret` yields the path `../images/../secret.<ext>`. */
  lemma FilenameCampaignIsPlain(prior: Selection, uri: string, query: map<string, string>, exts: seq<string>)
    requires MatchFilename(LastPart(uri, '/'), exts).Some?
    ensures var c := ResolveFrom(prior, uri, query, exts).campaign;
      IsName(c) && '/' !in c && '.' !in c
  {
    NameHasNoDot(ResolveFrom(prior, uri, query, exts).campaign);
  }

  /** `campaign_data` as the script is written: the pattern string at line 105
      has no regex delimiters, so `preg_match` reports an error instead of 1
      and only the query branch ever runs. The result is what the intended
      resolution gives for a URI without a file name. */
  function ResolveAsWritten(prior: Selection, uri: string, query: map<string, string>, exts: seq<string>): (r: Selection)
    ensures r == ResolveFrom(prior, "", query, exts)
  {
    Selection(QueryOverride(query, "pk_campaign", prior.campaign), QueryOverride(query, "pk_keyword", prior.keyword))
  }

  /** The request state of the script: the two globals `campaign_data` updates. */
  class RequestState {
    var campaign: string
    var keyword: string

    function Current(): Selection
      reads this
    {
      Selection(campaign, keyword)
    }

    /** The defaults: the configured campaign and an empty keyword. */
    constructor (cfg: Config)
      ensures Current() == Defaults(cfg)
    {
      campaign := cfg.defaultCampaign;
      keyword := "";
    }

    /** `campaign_data`: overwrites the globals from the request. */
    method CampaignData(uri: string, query: map<string, string>, exts: seq<string>)
      modifies this
      ensures Current() == ResolveFrom(old(Current()), uri, query, exts)
    {
      var rUri := LastPart(uri, '/');
      var matches := MatchFilename(rUri, exts);
      if matches.Some? {
        campaign := matches.value.campaign;
        if !PhpEmpty(matches.value.keywordGroup) {
          keyword := Trim(matches.value.keywordGroup, '.');
        }
      } else {
        if "pk_campaign" in query && !PhpEmpty(query["pk_campaign"]) {
          campaign := query["pk_campaign"];
        }
        if "pk_keyword" in query && !PhpEmpty(query["pk_keyword"]) {
          keyword := query["pk_keyword"];
        }
      }
    }
  }
}
