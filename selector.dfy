/** Image selection (`campaign_image`): the first readable `<campaign>.<ext>`
    in configured extension order, else the first readable `default.<ext>`,
    else unavailable (the script answers 503 and exits). The image store is
    given as the set of paths that exist and are readable. */
module Selector {
  import opened Inputs

  /** `'..' . DIRECTORY_SEPARATOR . 'images' . DIRECTORY_SEPARATOR`, with `/` as separator. */
  const ImgDir: string := "../images/"

  /** The name of the default image. */
  const DefaultName: string := "default"

  /** `"${imgdir}$name.$ext"`. */
  function ImagePath(name: string, ext: string): string {
    ImgDir + name + "." + ext
  }

  /** The first `ImagePath(name, ext)`, in the order of `exts`, that is readable. */
  function FirstReadable(name: string, exts: seq<string>, readable: set<string>): (r: Option<string>)
    ensures r.Some? ==> r.value in readable
    decreases |exts|
  {
    if |exts| == 0 then None
    else if ImagePath(name, exts[0]) in readable then Some(ImagePath(name, exts[0]))
    else FirstReadable(name, exts[1..], readable)
  }

  /** The first readable candidate wins: it is the one at the least index whose path is readable. */
  lemma {:induction false} FirstReadableLeast(name: string, exts: seq<string>, readable: set<string>, i: nat)
    requires i < |exts| && ImagePath(name, exts[i]) in readable
    requires forall j :: 0 <= j < i ==> ImagePath(name, exts[j]) !in readable
    ensures FirstReadable(name, exts, readable) == Some(ImagePath(name, exts[i]))
    decreases i
  {
    if i > 0 {
      assert ImagePath(name, exts[0]) !in readable;
      assert forall j :: 0 <= j < i - 1 ==> exts[1..][j] == exts[j + 1];
      FirstReadableLeast(name, exts[1..], readable, i - 1);
    }
  }

  /** Nothing is found exactly when no candidate path is readable. */
  lemma {:induction false} FirstReadableNone(name: string, exts: seq<string>, readable: set<string>)
    ensures FirstReadable(name, exts, readable).None? <==>
      forall j :: 0 <= j < |exts| ==> ImagePath(name, exts[j]) !in readable
    decreases |exts|
  {
    if |exts| > 0 {
      FirstReadableNone(name, exts[1..], readable);
      assert forall j :: 1 <= j < |exts| ==> exts[j] == exts[1..][j - 1];
    }
  }

  /** A found image is the path of one of the configured extensions. */
  lemma {:induction false} FirstReadableIsCandidate(name: string, exts: seq<string>, readable: set<string>)
    requires FirstReadable(name, exts, readable).Some?
    ensures exists j :: 0 <= j < |exts| && FirstReadable(name, exts, readable) == Some(ImagePath(name, exts[j]))
    decreases |exts|
  {
    if ImagePath(name, exts[0]) !in readable {
      FirstReadableIsCandidate(name, exts[1..], readable);
      var j :| 0 <= j < |exts[1..]| && FirstReadable(name, exts[1..], readable) == Some(ImagePath(name, exts[1..][j]));
      assert exts[1..][j] == exts[j + 1];
    } else {
      assert FirstReadable(name, exts, readable) == Some(ImagePath(name, exts[0]));
    }
  }

  /** The image `campaign_image` returns, or `None` for 503 Service Unavailable. */
  function Select(campaign: string, exts: seq<string>, readable: set<string>): Option<string> {
    match FirstReadable(campaign, exts, readable)
    case Some(p) => Some(p)
    case None => FirstReadable(DefaultName, exts, readable)
  }

  /** `campaign_image`: two scans over the extensions, with early return. */
  method CampaignImage(campaign: string, exts: seq<string>, readable: set<string>) returns (r: Option<string>)
    ensures r == Select(campaign, exts, readable)
  {
    for i := 0 to |exts|
      invariant forall j :: 0 <= j < i ==> ImagePath(campaign, exts[j]) !in readable
    {
      var path := ImagePath(campaign, exts[i]);
      if path in readable {
        FirstReadableLeast(campaign, exts, readable, i);
        return Some(path);
      }
    }
    FirstReadableNone(campaign, exts, readable);
    for i := 0 to |exts|
      invariant forall j :: 0 <= j < i ==> ImagePath(DefaultName, exts[j]) !in readable
    {
      var path := ImagePath(DefaultName, exts[i]);
      if path in readable {
        FirstReadableLeast(DefaultName, exts, readable, i);
        return Some(path);
      }
    }
    FirstReadableNone(DefaultName, exts, readable);
    return None;
  }

  /** A campaign image, when one is readable, is chosen over every default image:
      the first campaign extension whose path is readable gives the result. */
  lemma CampaignImageFirst(campaign: string, exts: seq<string>, readable: set<string>, i: nat)
    requires i < |exts| && ImagePath(campaign, exts[i]) in readable
    requires forall j :: 0 <= j < i ==> ImagePath(campaign, exts[j]) !in readable
    ensures Select(campaign, exts, readable) == Some(ImagePath(campaign, exts[i]))
  {
    FirstReadableLeast(campaign, exts, readable, i);
  }

  /** `default.*` is considered only when no campaign image is readable, and
      then the first readable default extension gives the result. */
  lemma DefaultImageFallback(campaign: string, exts: seq<string>, readable: set<string>, i: nat)
    requires forall j :: 0 <= j < |exts| ==> ImagePath(campaign, exts[j]) !in readable
    requires i < |exts| && ImagePath(DefaultName, exts[i]) in readable
    requires forall j :: 0 <= j < i ==> ImagePath(DefaultName, exts[j]) !in readable
    ensures Select(campaign, exts, readable) == Some(ImagePath(DefaultName, exts[i]))
  {
    FirstReadableNone(campaign, exts, readable);
    FirstReadableLeast(DefaultName, exts, readable, i);
  }

  /** Selection fails exactly when neither a campaign nor a default image is
      readable for any configured extension; otherwise it yields a readable
      campaign or default path of a configured extension. */
  lemma SelectSpec(campaign: string, exts: seq<string>, readable: set<string>)
    ensures Select(campaign, exts, readable).None? <==>
      forall j :: 0 <= j < |exts| ==>
        ImagePath(campaign, exts[j]) !in readable && ImagePath(DefaultName, exts[j]) !in readable
    ensures Select(campaign, exts, readable).Some? ==>
      var p := Select(campaign, exts, readable).value;
      p in readable &&
      exists j :: 0 <= j < |exts| && (p == ImagePath(campaign, exts[j]) || p == ImagePath(DefaultName, exts[j]))
  {
    FirstReadableNone(campaign, exts, readable);
    FirstReadableNone(DefaultName, exts, readable);
    if FirstReadable(campaign, exts, readable).Some? {
      FirstReadableIsCandidate(campaign, exts, readable);
    } else if FirstReadable(DefaultName, exts, readable).Some? {
      FirstReadableIsCandidate(DefaultName, exts, readable);
    }
  }
}
