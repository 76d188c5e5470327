/** Which nodes of a video site hold subtitles (src/script/webAudio.ts).
    The source turns a site's descriptor into JavaScript text and compiles
    it with `new Function`; here the descriptor is compiled into a
    `NodeMatcher` value and an interpreter decides what the generated code
    would. The page's DOM queries enter as the fields of `NodeView`. */
module AudioSites {
  import opened Base
  import opened Dicts
  import opened Text
  import opened WebAudioModel

  /** `AudioSite`: how a site's subtitle nodes look. Every field may be
      absent. */
  datatype AudioSite = AudioSite(
    className: Option<string> := None,
    containsSelector: Option<string> := None,
    dataPropPresent: Option<string> := None,
    hasChildrenElements: Option<bool> := None,
    subtitleSelector: Option<string> := None,
    tagName: Option<string> := None,
    textParentSelector: Option<string> := None)

  /** `WebAudio.sites`, in the order of its declaration. */
  const DefaultSiteList: seq<(string, AudioSite)> := [
    ("abc.go.com", AudioSite(className := Some("akamai-caption-text"), tagName := Some("DIV"))),
    ("app.plex.tv", AudioSite(dataPropPresent := Some("dialogueId"), subtitleSelector := Some("span > span"), tagName := Some("DIV"))),
    ("www.amazon.com", AudioSite(subtitleSelector := Some("span.timedTextBackground"), tagName := Some("P"))),
    ("www.dishanywhere.com", AudioSite(className := Some("bmpui-ui-subtitle-label"), tagName := Some("SPAN"))),
    ("www.fox.com", AudioSite(className := Some("jw-text-track-container"), subtitleSelector := Some("div.jw-text-track-cue"), tagName := Some("DIV"))),
    ("www.hulu.com", AudioSite(className := Some("caption-text-box"), subtitleSelector := Some("p"), tagName := Some("DIV"))),
    ("www.nbc.com", AudioSite(className := Some("ttr-line"), subtitleSelector := Some("span.ttr-cue"), tagName := Some("DIV"))),
    ("www.netflix.com", AudioSite(className := Some("player-timedtext-text-container"), subtitleSelector := Some("span"), tagName := Some("DIV"))),
    ("www.sonycrackle.com", AudioSite(textParentSelector := Some("div.clpp-subtitles-container"))),
    ("www.syfy.com", AudioSite(className := Some("ttr-line"), subtitleSelector := Some("span.ttr-cue"), tagName := Some("DIV"))),
    ("www.universalkids.com", AudioSite(subtitleSelector := Some("div.gwt-HTML"), tagName := Some("DIV"))),
    ("www.usanetwork.com", AudioSite(className := Some("ttr-line"), subtitleSelector := Some("span.ttr-cue"), tagName := Some("DIV"))),
    ("www.vudu.com", AudioSite(subtitleSelector := Some("span.subtitles"), tagName := Some("DIV"))),
    ("www.youtube.com", AudioSite(className := Some("caption-window"), subtitleSelector := Some("span.ytp-caption-segment"), tagName := Some("DIV")))
  ]

  /** The built-in table. */
  function DefaultSites(): Dict<AudioSite> {
    DefaultSiteKeysDistinct();
    DefaultSiteList
  }

  /** No two built-in sites share a key: their lengths or their fifth
      characters differ. */
  lemma DefaultSiteKeysDistinct()
    ensures DistinctKeys(DefaultSiteList)
  {
    var ps := DefaultSiteList;
    forall i, j | 0 <= i < j < |ps|
      ensures ps[i].0 != ps[j].0
    {
      assert |ps[i].0| != |ps[j].0| || ps[i].0[4] != ps[j].0[4];
    }
  }

  /** What the generated code can ask about a node: its name, its class
      (absent or empty counts as falsy), its `dataset` keys (absent when it
      has no `dataset`), its element child count (absent when it is not a
      number), whether it has `querySelector`, which selectors that finds
      something for, and for which selectors the document's first match
      contains the node. */
  datatype NodeView = NodeView(
    nodeName: string,
    className: Option<string>,
    dataset: Option<seq<string>>,
    childElementCount: Option<int>,
    hasQuerySelector: bool,
    querySelectorFinds: string -> bool,
    insideDocumentMatch: string -> bool)

  /** The function the descriptor compiles to: the plain-text test, or the
      tag test with the constraints that were present. */
  datatype NodeMatcher =
    | TextParentMatcher(textParentSelector: string)
    | TagMatcher(tagName: string, className: Option<string>, dataPropPresent: Option<string>,
                 hasChildrenElements: bool, subtitleSelector: Option<string>, containsSelector: Option<string>)

  /** A truthy string, or nothing: the `${x ? ... : ''}` of the template. */
  function WhenTruthy(s: Option<string>): (r: Option<string>)
    ensures r.Some? <==> Truthy(s)
    ensures r.Some? ==> r == s
  {
    if Truthy(s) then s else None
  }

  /** `buildSupportedNodeFunction()`: a text parent selector takes priority;
      otherwise a tag name is required. */
  function BuildSupportedNode(site: AudioSite): (r: Result<NodeMatcher, string>)
    ensures Truthy(site.textParentSelector) ==> r == Ok(TextParentMatcher(site.textParentSelector.value))
    ensures !Truthy(site.textParentSelector) && !Truthy(site.tagName) ==> r == Err("tagName is required.")
    ensures !Truthy(site.textParentSelector) && Truthy(site.tagName) ==>
              r.Ok? && r.value.TagMatcher? && r.value.tagName == ToUpperAscii(site.tagName.value)
  {
    if Truthy(site.textParentSelector) then Ok(TextParentMatcher(site.textParentSelector.value))
    else if !Truthy(site.tagName) then Err("tagName is required.")
    else Ok(TagMatcher(ToUpperAscii(site.tagName.value), WhenTruthy(site.className), WhenTruthy(site.dataPropPresent),
                       IsTrue(site.hasChildrenElements), WhenTruthy(site.subtitleSelector), WhenTruthy(site.containsSelector)))
  }

  predicate FindsWith(node: NodeView, selector: Option<string>) {
    selector.None? || (node.hasQuerySelector && node.querySelectorFinds(selector.value))
  }

  /** What the generated function returns for a node. */
  predicate Matches(m: NodeMatcher, node: NodeView) {
    match m
    case TextParentMatcher(sel) => node.nodeName == "#text" && node.insideDocumentMatch(sel)
    case TagMatcher(tag, cls, prop, children, subSel, contSel) =>
      && node.nodeName == tag
      && (cls.Some? ==> Truthy(node.className) && Includes(node.className.value, cls.value))
      && (prop.Some? ==> node.dataset.Some? && prop.value in node.dataset.value)
      && (children ==> node.childElementCount.Some? && node.childElementCount.value >= 1)
      && FindsWith(node, subSel)
      && FindsWith(node, contSel)
  }

  /** `supportedNode(node)` for a site, or the exception building it
      throws. */
  function SupportedNode(site: AudioSite, node: NodeView): (r: Result<bool, string>)
    ensures r.Err? <==> !Truthy(site.textParentSelector) && !Truthy(site.tagName)
  {
    match BuildSupportedNode(site)
    case Err(e) => Err(e)
    case Ok(m) => Ok(Matches(m, node))
  }

  /** The descriptor's meaning: in plain-text mode a node is supported
      exactly when it is a text node inside the document's match; otherwise
      exactly when its name is the upper-cased tag name and every present
      constraint holds. */
  lemma SupportedNodeMeaning(site: AudioSite, node: NodeView)
    requires Truthy(site.textParentSelector) || Truthy(site.tagName)
    ensures var r := SupportedNode(site, node);
            && r.Ok?
            && (Truthy(site.textParentSelector) ==>
                  (r.value <==> node.nodeName == "#text" && node.insideDocumentMatch(site.textParentSelector.value)))
            && (!Truthy(site.textParentSelector) ==>
                  (r.value <==>
                     && node.nodeName == ToUpperAscii(site.tagName.value)
                     && (Truthy(site.className) ==> Truthy(node.className) && Includes(node.className.value, site.className.value))
                     && (Truthy(site.dataPropPresent) ==> node.dataset.Some? && site.dataPropPresent.value in node.dataset.value)
                     && (IsTrue(site.hasChildrenElements) ==> node.childElementCount.Some? && node.childElementCount.value >= 1)
                     && (Truthy(site.subtitleSelector) ==> node.hasQuerySelector && node.querySelectorFinds(site.subtitleSelector.value))
                     && (Truthy(site.containsSelector) ==> node.hasQuerySelector && node.querySelectorFinds(site.containsSelector.value))))
  {
  }

  /** A constraint only narrows: adding a class name to a site supports
      no node the site without it rejects. */
  lemma ConstraintNarrows(site: AudioSite, cls: string, node: NodeView)
    requires !Truthy(site.textParentSelector) && Truthy(site.tagName) && site.className.None?
    requires SupportedNode(site.(className := Some(cls)), node) == Ok(true)
    ensures SupportedNode(site, node) == Ok(true)
  {
  }

  /** Every built-in site describes its subtitle nodes well enough to
      build. */
  lemma DefaultSitesBuild()
    ensures forall k :: k in Keys(DefaultSites()) ==> BuildSupportedNode(Get(DefaultSites(), k).value).Ok?
  {
    var ps := DefaultSites();
    forall i | 0 <= i < |ps|
      ensures BuildSupportedNode(ps[i].1).Ok?
    {
    }
    forall k | k in Keys(DefaultSites())
      ensures BuildSupportedNode(Get(DefaultSites(), k).value).Ok?
    {
      GetPair(ps, k, Get(ps, k).value);
    }
  }

  // ---------------------------------------------------------------------
  // Constructing

  /** The parts of a `WebAudio` object the constructor decides beyond the
      muting state. */
  datatype WebAudio = WebAudio(
    st: AudioState,
    sites: Dict<AudioSite>,
    supportedPage: bool,
    youTube: bool,
    subtitleSelector: Option<string>,
    supportedNode: Option<NodeMatcher>)

  /** `new WebAudio(filter)`: the built-in sites with the configured ones
      assigned over them, and for a supported page its subtitle selector
      and node test. Building the test may throw. */
  function NewWebAudio(muteMethod: int, showSubtitles: int, youTubeAutoSubsMin: real,
                       customAudioSites: Dict<AudioSite>, hostname: string): (r: Result<WebAudio, string>)
    ensures r.Ok? ==> r.value.st == InitialState(muteMethod, showSubtitles, youTubeAutoSubsMin)
    ensures r.Ok? ==>
              forall k :: Get(r.value.sites, k) == if k in Keys(customAudioSites) then Get(customAudioSites, k) else Get(DefaultSites(), k)
    ensures r.Ok? ==> (r.value.supportedPage <==> hostname in Keys(r.value.sites))
    ensures r.Ok? ==> (r.value.supportedPage <==> hostname in Keys(customAudioSites) || hostname in Keys(DefaultSites()))
    ensures r.Ok? ==> (r.value.youTube <==> r.value.supportedPage && hostname == "www.youtube.com")
    ensures r.Ok? && r.value.supportedPage ==>
              && r.value.subtitleSelector == Get(r.value.sites, hostname).value.subtitleSelector
              && r.value.supportedNode.Some?
              && BuildSupportedNode(Get(r.value.sites, hostname).value) == Ok(r.value.supportedNode.value)
    ensures r.Ok? && !r.value.supportedPage ==> r.value.subtitleSelector.None? && r.value.supportedNode.None?
    ensures r.Err? <==>
              && hostname in Keys(Assign(DefaultSites(), customAudioSites))
              && BuildSupportedNode(Get(Assign(DefaultSites(), customAudioSites), hostname).value).Err?
  {
    var sites := Assign(DefaultSites(), customAudioSites);
    var st := InitialState(muteMethod, showSubtitles, youTubeAutoSubsMin);
    match Get(sites, hostname)
    case None => Ok(WebAudio(st, sites, false, false, None, None))
    case Some(site) =>
      match BuildSupportedNode(site)
      case Err(e) => Err(e)
      case Ok(m) => Ok(WebAudio(st, sites, true, hostname == "www.youtube.com", site.subtitleSelector, Some(m)))
  }

  /** Assigning the configured sites a second time (the built-in table is
      itself the target of `Object.assign`) changes no site. */
  lemma SiteMergeIdempotent(custom: Dict<AudioSite>)
    ensures forall k :: Get(Assign(Assign(DefaultSites(), custom), custom), k) == Get(Assign(DefaultSites(), custom), k)
  {
  }

  /** On YouTube without configured sites the subtitle segments are the
      subtitles, and the caption window `DIV` is the supported node. */
  lemma YouTubeSetup(muteMethod: int, showSubtitles: int, min: real)
    ensures var r := NewWebAudio(muteMethod, showSubtitles, min, [], "www.youtube.com");
            && r.Ok? && r.value.supportedPage && r.value.youTube
            && r.value.subtitleSelector == Some("span.ytp-caption-segment")
            && r.value.supportedNode == Some(TagMatcher("DIV", Some("caption-window"), None, false, Some("span.ytp-caption-segment"), None))
  {
    var site := AudioSite(className := Some("caption-window"), subtitleSelector := Some("span.ytp-caption-segment"), tagName := Some("DIV"));
    var m := TagMatcher("DIV", Some("caption-window"), None, false, Some("span.ytp-caption-segment"), None);
    YouTubeSite(site);
    YouTubeMatcher(site, m);
    SupportedSetup(muteMethod, showSubtitles, min, [], "www.youtube.com", site, m);
  }

  /** The constructor on a page whose site builds a node test. */
  lemma SupportedSetup(muteMethod: int, showSubtitles: int, min: real, custom: Dict<AudioSite>,
                       hostname: string, site: AudioSite, m: NodeMatcher)
    requires Get(Assign(DefaultSites(), custom), hostname) == Some(site)
    requires BuildSupportedNode(site) == Ok(m)
    ensures NewWebAudio(muteMethod, showSubtitles, min, custom, hostname)
            == Ok(WebAudio(InitialState(muteMethod, showSubtitles, min), Assign(DefaultSites(), custom),
                           true, hostname == "www.youtube.com", site.subtitleSelector, Some(m)))
  {
  }

  lemma YouTubeSite(site: AudioSite)
    requires site == AudioSite(className := Some("caption-window"), subtitleSelector := Some("span.ytp-caption-segment"), tagName := Some("DIV"))
    ensures Get(Assign(DefaultSites(), []), "www.youtube.com") == Some(site)
  {
    var ps := DefaultSites();
    assert ps[13] == ("www.youtube.com", site);
    GetAt(ps, 13);
    assert Keys<AudioSite>([]) == [];
  }

  lemma YouTubeMatcher(site: AudioSite, m: NodeMatcher)
    requires site == AudioSite(className := Some("caption-window"), subtitleSelector := Some("span.ytp-caption-segment"), tagName := Some("DIV"))
    requires m == TagMatcher("DIV", Some("caption-window"), None, false, Some("span.ytp-caption-segment"), None)
    ensures BuildSupportedNode(site) == Ok(m)
  {
    UpperDiv();
  }

  lemma UpperDiv()
    ensures ToUpperAscii("DIV") == "DIV"
  {
    var r := ToUpperAscii("DIV");
    assert r[0] == 'D' && r[1] == 'I' && r[2] == 'V';
  }
}
