/** The content script's decisions (src/script/webFilter.ts): which pages
    are disabled, what happens to the nodes a DOM mutation adds and removes,
    how a node's text is cleaned, the summary of words found, the navigation
    toggle and the badge messages. The text replacement itself
    (`Filter.replaceText`) and `Page.isForbiddenNode` are outside the model
    and enter as the functions `replace` and `forbidden`; `Domain.pageMatch`
    enters as `pageMatch`. */
module WebFilterModel {
  import opened Base
  import opened Seqs
  import opened Dicts
  import opened Text
  import opened Decimal
  import opened DomTree
  import opened DomainModel
  import opened WordlistModel

  // ---------------------------------------------------------------------
  // Replacing text

  /** The record `replaceTextResult` returns. */
  datatype TextResult = TextResult(original: string, filtered: string, modified: bool)

  /** `replaceTextResult(string)`. */
  function ReplaceTextResult(s: string, replace: string -> string): (r: TextResult)
    ensures r.original == s && r.filtered == replace(s)
    ensures r.modified <==> r.filtered != s
  {
    var filtered := replace(s);
    TextResult(s, filtered, filtered != s)
  }

  /** `node.textContent = s`: a text node takes `s` as its data; an
      element loses its children and gets one text node holding `s` (none
      when `s` is empty). */
  function SetTextContent(n: Node, s: string): (r: Node)
    ensures TextContent(r) == s
    ensures NodeName(r) == NodeName(n)
  {
    match n
    case Text(_) => Text(s)
    case Element(name, _) => Element(name, if s == "" then [] else [Text(s)])
  }

  // ---------------------------------------------------------------------
  // Cleaning nodes

  /** The leaf branch of `cleanNode`: a node with a name whose text is not
      blank gets the replaced text, when replacing changed it. */
  function CleanLeaf(n: Node, replace: string -> string): (r: Node)
    ensures r != n <==> NodeName(n) != "" && !IsBlank(TextContent(n)) && replace(TextContent(n)) != TextContent(n)
    ensures r != n ==> TextContent(r) == replace(TextContent(n)) && NodeName(r) == NodeName(n)
  {
    TrimEmptyIffBlank(TextContent(n));
    if NodeName(n) != "" && Trim(TextContent(n)) != "" then
      var result := ReplaceTextResult(TextContent(n), replace);
      if result.modified then SetTextContent(n, result.filtered) else n
    else n
  }

  /** `Page.isForbiddenNode(node)`: it is given the node and the names of
      the elements above it, outermost first, so that text inside a
      script-like container can be told apart from ordinary text. */
  type Classifier = (Node, seq<string>) -> bool

  /** `cleanNode(node)` on a node whose ancestors are named by `above`: a
      forbidden node is left alone; a node with element children has each
      text node below it cleaned; any other node is cleaned as a leaf. */
  function CleanNode(n: Node, above: seq<string>, replace: string -> string, forbidden: Classifier): (r: Node)
    ensures forbidden(n, above) ==> r == n
    ensures NodeName(r) == NodeName(n)
    ensures n.Text? ==> r.Text?
    ensures !forbidden(n, above) && ChildElementCount(n) > 0 ==> SameShape(n, r)
    ensures !forbidden(n, above) && ChildElementCount(n) == 0 ==>
              (r != n <==> NodeName(n) != "" && !IsBlank(TextContent(n)) && replace(TextContent(n)) != TextContent(n))
    decreases n, 1
  {
    if forbidden(n, above) then n
    else if ChildElementCount(n) > 0 then WalkTexts(n, above, replace, forbidden)
    else CleanLeaf(n, replace)
  }

  /** The `TreeWalker` loop of `cleanNode`: every text node below `n`, in
      document order, goes through `cleanNode` with its own ancestors. The
      walker shows text nodes only, so elements on the way are not checked
      for being forbidden. */
  function WalkTexts(n: Node, above: seq<string>, replace: string -> string, forbidden: Classifier): (r: Node)
    ensures SameShape(n, r)
    decreases n, if n.Text? then 2 else 0
  {
    match n
    case Text(_) => CleanNode(n, above, replace, forbidden)
    case Element(name, cs) =>
      Element(name, seq(|cs|, i requires 0 <= i < |cs| => WalkTexts(cs[i], above + [name], replace, forbidden)))
  }

  /** What cleaning does to one text node: nothing when the node is
      forbidden where it stands or its text is blank, otherwise the
      replacement. */
  function CleanText(t: Located, replace: string -> string, forbidden: Classifier): string {
    if forbidden(Text(t.data), t.ancestors) || IsBlank(t.data) then t.data else replace(t.data)
  }

  function CleanTextWith(replace: string -> string, forbidden: Classifier): Located -> string {
    t => CleanText(t, replace, forbidden)
  }

  /** The walk rewrites each text node by `CleanText` and nothing else. */
  lemma {:induction false} WalkTextsIsMapTexts(n: Node, above: seq<string>, replace: string -> string,
                                               forbidden: Classifier)
    ensures WalkTexts(n, above, replace, forbidden) == MapTexts(n, above, CleanTextWith(replace, forbidden))
  {
    match n
    case Text(d) =>
      TrimEmptyIffBlank(d);
    case Element(name, cs) =>
      forall i | 0 <= i < |cs|
        ensures WalkTexts(cs[i], above + [name], replace, forbidden)
                == MapTexts(cs[i], above + [name], CleanTextWith(replace, forbidden))
      {
        WalkTextsIsMapTexts(cs[i], above + [name], replace, forbidden);
      }
  }

  /** `cleanNode` in full: forbidden nodes are untouched; below a node with
      element children every element stays in place and the `i`-th text
      node, in document order, is kept when it is forbidden where it stands
      or blank, and replaced otherwise; a leaf is rewritten only when its
      text is not blank and the replacement changes it. */
  lemma CleanNodeSpec(n: Node, above: seq<string>, replace: string -> string, forbidden: Classifier)
    ensures var r := CleanNode(n, above, replace, forbidden);
            && (forbidden(n, above) ==> r == n)
            && (!forbidden(n, above) && ChildElementCount(n) > 0 ==>
                  && SameShape(n, r)
                  && |Texts(r)| == |Texts(n)| == |LocatedTexts(n, above)|
                  && forall i :: 0 <= i < |Texts(n)| ==>
                       var t := LocatedTexts(n, above)[i];
                       && t.data == Texts(n)[i]
                       && Texts(r)[i] == (if forbidden(Text(t.data), t.ancestors) || IsBlank(t.data) then t.data
                                          else replace(t.data)))
            && (!forbidden(n, above) && ChildElementCount(n) == 0 ==>
                  (r != n <==> NodeName(n) != "" && !IsBlank(TextContent(n)) && replace(TextContent(n)) != TextContent(n)))
  {
    WalkTextsIsMapTexts(n, above, replace, forbidden);
    LocatedData(n, above);
  }

  /** A classifier that rules out whatever lies below a `SCRIPT` element. */
  predicate InsideScript(n: Node, above: seq<string>) {
    "SCRIPT" in above
  }

  /** Text inside a `SCRIPT` element is kept while the same text in a
      sibling paragraph is cleaned. */
  lemma ScriptTextKept(replace: string -> string)
    ensures CleanNode(Element("DIV", [Element("SCRIPT", [Text("x")]), Element("P", [Text("x")])]), [], replace, InsideScript)
            == Element("DIV", [Element("SCRIPT", [Text("x")]), Element("P", [Text(replace("x"))])])
  {
    var script, para := Element("SCRIPT", [Text("x")]), Element("P", [Text("x")]);
    var n := Element("DIV", [script, para]);
    assert ChildElementCount(n) == 2 by {
      FilterKeepsAll(n.children, (c: Node) => c.Element?);
    }
    assert [] + ["DIV"] == ["DIV"];
    ScriptChildKept(replace);
    ParagraphChildCleaned(replace);
    assert CleanNode(n, [], replace, InsideScript) == WalkTexts(n, [], replace, InsideScript);
  }

  lemma ScriptChildKept(replace: string -> string)
    ensures WalkTexts(Element("SCRIPT", [Text("x")]), ["DIV"], replace, InsideScript) == Element("SCRIPT", [Text("x")])
  {
    var inScript: seq<string> := ["DIV"] + ["SCRIPT"];
    assert inScript == ["DIV", "SCRIPT"];
    assert InsideScript(Text("x"), inScript);
    WalkSingleText("SCRIPT", "x", ["DIV"], replace, InsideScript);
  }

  lemma ParagraphChildCleaned(replace: string -> string)
    ensures WalkTexts(Element("P", [Text("x")]), ["DIV"], replace, InsideScript) == Element("P", [Text(replace("x"))])
  {
    var inP: seq<string> := ["DIV"] + ["P"];
    assert inP == ["DIV", "P"];
    assert "SCRIPT" !in inP;
    assert !IsBlank("x") by { assert !IsWhiteSpace("x"[0]); }
    TextNodeCleaned("x", inP, replace, InsideScript);
    WalkSingleText("P", "x", ["DIV"], replace, InsideScript);
  }

  /** An element holding one text node: the walk cleans that node with the
      element added to its ancestors. */
  lemma WalkSingleText(name: string, d: string, above: seq<string>, replace: string -> string, forbidden: Classifier)
    ensures WalkTexts(Element(name, [Text(d)]), above, replace, forbidden)
            == Element(name, [CleanNode(Text(d), above + [name], replace, forbidden)])
  {
    var cs := [Text(d)];
    var x := CleanNode(Text(d), above + [name], replace, forbidden);
    var r := WalkTexts(Element(name, cs), above, replace, forbidden);
    assert r.children == seq(1, i requires 0 <= i < 1 => WalkTexts(cs[i], above + [name], replace, forbidden));
    assert WalkTexts(cs[0], above + [name], replace, forbidden) == x;
    assert r.children[0] == x;
    assert r.children == [x];
  }

  /** A text node that is allowed where it stands and not blank takes the
      replaced text. */
  lemma TextNodeCleaned(d: string, above: seq<string>, replace: string -> string, forbidden: Classifier)
    requires !forbidden(Text(d), above) && !IsBlank(d)
    ensures CleanNode(Text(d), above, replace, forbidden) == Text(replace(d))
  {
    TextLeafCleaned(d, replace);
  }

  /** A text node that is not blank takes the replaced text. */
  lemma TextLeafCleaned(d: string, replace: string -> string)
    requires !IsBlank(d)
    ensures CleanLeaf(Text(d), replace) == Text(replace(d))
  {
    TrimEmptyIffBlank(d);
  }

  /** A replacement that changes nothing leaves every node as it is. */
  lemma CleanNodeIdentity(n: Node, above: seq<string>, replace: string -> string, forbidden: Classifier)
    requires forall s :: replace(s) == s
    ensures CleanNode(n, above, replace, forbidden) == n
  {
    WalkTextsIsMapTexts(n, above, replace, forbidden);
    MapTextsIdentity(n, above, CleanTextWith(replace, forbidden));
  }

  // ---------------------------------------------------------------------
  // Disabled pages

  /** The page test once a domain record is found: a disabled domain is
      disabled except on its enabled pages; any other domain is disabled
      only on its disabled pages. */
  function PagePolicy(cfg: DomainCfg, pathname: string,
                      pageMatch: (string, Option<seq<string>>) -> bool): (r: bool)
    ensures IsTrue(cfg.disabled) ==> (r <==> !pageMatch(pathname, cfg.enabledPages))
    ensures !IsTrue(cfg.disabled) ==> (r <==> pageMatch(pathname, cfg.disabledPages))
  {
    if IsTrue(cfg.disabled) then !pageMatch(pathname, cfg.enabledPages)
    else pageMatch(pathname, cfg.disabledPages)
  }

  /** `disabledPage()` as written: the record stored under the hostname
      itself; otherwise the `forEach` over the keys yields `undefined`, so
      no other record is ever consulted. */
  function DisabledPage(domains: Dict<DomainCfg>, hostname: string, pathname: string,
                        pageMatch: (string, Option<seq<string>>) -> bool): (r: bool)
    ensures hostname !in Keys(domains) ==> !r
    ensures hostname in Keys(domains) ==> r == PagePolicy(Get(domains, hostname).value, pathname, pageMatch)
  {
    match Get(domains, hostname)
    case None => false
    case Some(cfg) => PagePolicy(cfg, pathname, pageMatch)
  }

  /** One key character against one hostname character under the `i`
      flag (letters compared without case, ASCII only). */
  predicate CharMatchesIgnoreCase(p: char, c: char) {
    if p == '.' then !IsLineTerminator(c) else ToUpperChar(p) == ToUpperChar(c)
  }

  /** `new RegExp('(^|\.)' + key, 'i')` matches the hostname at `p`: the
      string literal turns `\.` into `.`, so the key may start anywhere
      after the first character. */
  predicate KeyFoundAt(key: string, hostname: string, p: nat) {
    && p + |key| <= |hostname|
    && (p == 0 || !IsLineTerminator(hostname[p - 1]))
    && forall i :: 0 <= i < |key| ==> CharMatchesIgnoreCase(key[i], hostname[p + i])
  }

  predicate KeyFound(key: string, hostname: string) {
    exists p: nat :: p <= |hostname| && KeyFoundAt(key, hostname, p)
  }

  function KeyFoundIn(hostname: string): string -> bool {
    key => KeyFound(key, hostname)
  }

  /** The record `disabledPage` evidently means to use: the hostname's own,
      or else the record of the first key, in `Object.keys` order, that the
      pattern finds in the hostname (`Array.prototype.find` in place of
      `forEach`). Only the loop is corrected: the pattern keeps the lost
      `\.` escape and has no `$`, so the key `ample.com` is found in
      `example.com` and `example.com` in `example.com.evil.net`. */
  function PageConfig(domains: Dict<DomainCfg>, hostname: string): (r: Option<DomainCfg>)
    ensures hostname in Keys(domains) ==> r == Get(domains, hostname)
    ensures hostname !in Keys(domains) && r.Some? ==>
              var ks := ObjectKeys(domains);
              exists i :: 0 <= i < |ks| && KeyFound(ks[i], hostname) && Some(r.value) == Get(domains, ks[i])
                          && forall j :: 0 <= j < i ==> !KeyFound(ks[j], hostname)
    ensures r.None? ==> hostname !in Keys(domains) && forall k :: k in Keys(domains) ==> !KeyFound(k, hostname)
  {
    match Get(domains, hostname)
    case Some(cfg) => Some(cfg)
    case None =>
      var ks := ObjectKeys(domains);
      match FirstIndex(ks, KeyFoundIn(hostname))
      case None => None
      case Some(i) => Get(domains, ks[i])
  }

  /** `disabledPage()` with the evidently intended fallback. */
  function DisabledPageCorrected(domains: Dict<DomainCfg>, hostname: string, pathname: string,
                                 pageMatch: (string, Option<seq<string>>) -> bool): (r: bool)
    ensures PageConfig(domains, hostname).None? ==> !r
    ensures PageConfig(domains, hostname).Some? ==>
              r == PagePolicy(PageConfig(domains, hostname).value, pathname, pageMatch)
  {
    match PageConfig(domains, hostname)
    case None => false
    case Some(cfg) => PagePolicy(cfg, pathname, pageMatch)
  }

  /** Both versions agree on a hostname that is a key itself. */
  lemma DisabledPageAgreesOnExactKey(domains: Dict<DomainCfg>, hostname: string, pathname: string,
                                     pageMatch: (string, Option<seq<string>>) -> bool)
    requires hostname in Keys(domains)
    ensures DisabledPage(domains, hostname, pathname, pageMatch)
            == DisabledPageCorrected(domains, hostname, pathname, pageMatch)
  {
  }

  /** A page matcher that matches no page. */
  predicate NoPageMatch(pathname: string, pages: Option<seq<string>>) {
    false
  }

  /** A disabled parent domain does not disable its subdomain as written,
      and does once the fallback finds its record. */
  lemma DisabledParentIgnored(cfg: DomainCfg)
    requires IsTrue(cfg.disabled)
    ensures !DisabledPage([("example.com", cfg)], "www.example.com", "", NoPageMatch)
    ensures DisabledPageCorrected([("example.com", cfg)], "www.example.com", "", NoPageMatch)
  {
    var domains: Dict<DomainCfg> := [("example.com", cfg)];
    assert Keys(domains) == ["example.com"];
    assert "www.example.com" !in Keys(domains);
    ParentRecordFound(cfg);
  }

  lemma ParentRecordFound(cfg: DomainCfg)
    ensures PageConfig([("example.com", cfg)], "www.example.com") == Some(cfg)
  {
    var domains: Dict<DomainCfg> := [("example.com", cfg)];
    var key, host := "example.com", "www.example.com";
    assert Keys(domains) == [key];
    assert host !in Keys(domains);
    LetterKeyIsPlain(key);
    ObjectKeysOfPlain(domains);
    ParentKeyFound();
  }

  lemma ParentKeyFound()
    ensures KeyFound("example.com", "www.example.com")
  {
    var key, host := "example.com", "www.example.com";
    forall i | 0 <= i < |key|
      ensures CharMatchesIgnoreCase(key[i], host[4 + i])
    {
    }
    assert KeyFoundAt(key, host, 4);
  }

  // ---------------------------------------------------------------------
  // Mutations

  /** What is known about one added or removed node: the answers of
      `Page.isForbiddenNode` and of the `WebAudio` node tests, and whether
      it has a parent. */
  datatype NodeFacts = NodeFacts(
    forbidden: bool,
    autoSubsNode: bool,
    subtitleText: bool,
    audioNode: bool,
    hasParent: bool)

  /** The filter's state that the dispatch reads: `mutePage`, whether
      YouTube auto subtitles are present, and `advanced`. */
  datatype FilterMode = FilterMode(mutePage: bool, autoSubsPresent: bool, advanced: bool)

  /** What happens to one added node. */
  datatype AddedAction =
    | Untouched           // forbidden node
    | CleanAutoSubs       // `cleanYouTubeAutoSubs`
    | CleanAroundSubs     // `cleanNode` while auto subtitles are present
    | SkipSubtitleText    // auto subtitle text, left to the caption handler
    | CleanAudio          // `WebAudio.clean`
    | AdvancedReplace     // `advancedReplaceText`
    | CleanNodeCall       // `cleanNode`

  /** The branch of the `addedNodes` loop an added node takes. */
  function AddedNodeAction(mode: FilterMode, f: NodeFacts): AddedAction {
    if f.forbidden then Untouched
    else if mode.mutePage && mode.autoSubsPresent then
      if f.autoSubsNode then CleanAutoSubs
      else if !f.subtitleText then CleanAroundSubs
      else SkipSubtitleText
    else if mode.mutePage && f.audioNode then CleanAudio
    else if mode.advanced && f.hasParent then AdvancedReplace
    else CleanNodeCall
  }

  /** The guards of the four branches, in the order they are tried. */
  function BranchGuards(mode: FilterMode, f: NodeFacts): seq<bool> {
    [mode.mutePage && mode.autoSubsPresent,
     mode.mutePage && f.audioNode,
     mode.advanced && f.hasParent,
     true]
  }

  /** The branch number of an action. */
  function BranchOf(a: AddedAction): (r: nat)
    requires a != Untouched
    ensures r < 4
  {
    match a
    case CleanAutoSubs => 0
    case CleanAroundSubs => 0
    case SkipSubtitleText => 0
    case CleanAudio => 1
    case AdvancedReplace => 2
    case CleanNodeCall => 3
  }

  /** Forbidden nodes are untouched; any other added node takes the first
      branch whose guard holds, and only that one. */
  lemma AddedNodePrecedence(mode: FilterMode, f: NodeFacts)
    ensures AddedNodeAction(mode, f) == Untouched <==> f.forbidden
    ensures !f.forbidden ==>
              Some(BranchOf(AddedNodeAction(mode, f))) == FirstIndex(BranchGuards(mode, f), (b: bool) => b)
  {
    var g := BranchGuards(mode, f);
    if !f.forbidden {
      var first := FirstIndex(g, (b: bool) => b);
      assert g[3];
      var k := first.value;
      assert g[k] && forall j :: 0 <= j < k ==> !g[j];
      if k > 0 { assert !g[0]; }
      if k > 1 { assert !g[1]; }
      if k > 2 { assert !g[2]; }
    }
  }

  /** One record of a `MutationObserver` callback: the facts about the
      added and removed nodes, the target, and the names of the elements
      above the target. */
  datatype Mutation = Mutation(added: seq<NodeFacts>, removed: seq<NodeFacts>, target: Option<Node>,
                               targetAbove: seq<string>)

  /** What `checkMutationForProfanity` does: one action per added node, in
      order; how many times `unmute` is called for removed nodes; and the
      target after the text rescan. */
  datatype MutationPlan = MutationPlan(added: seq<AddedAction>, unmutes: nat, target: Option<Node>)

  /** `checkMutationTargetTextForProfanity`: a text target that is not
      forbidden takes the replaced text when replacing changed it. Unlike
      `cleanNode`, blank text is not skipped. */
  function CheckMutationTarget(target: Node, above: seq<string>, replace: string -> string,
                               forbidden: Classifier): (r: Node)
    requires target.Text?
    ensures r.Text?
    ensures r != target <==> !forbidden(target, above) && replace(target.data) != target.data
    ensures r != target ==> r.data == replace(target.data)
  {
    if !forbidden(target, above) then
      var result := ReplaceTextResult(target.data, replace);
      if result.modified then Text(result.filtered) else target
    else target
  }

  /** On text that is not blank the rescan does what `cleanNode` does. */
  lemma RescanIsCleanNode(d: string, above: seq<string>, replace: string -> string, forbidden: Classifier)
    requires !IsBlank(d)
    ensures CheckMutationTarget(Text(d), above, replace, forbidden) == CleanNode(Text(d), above, replace, forbidden)
  {
    TrimEmptyIffBlank(d);
  }

  function UnmuteOnRemoval(mode: FilterMode): NodeFacts -> bool {
    (f: NodeFacts) => mode.mutePage && f.audioNode
  }

  lemma UnmuteOnlyInMutePage(mode: FilterMode, removed: seq<NodeFacts>)
    ensures !mode.mutePage ==> Filter(removed, UnmuteOnRemoval(mode)) == []
  {
    if !mode.mutePage {
      FilterNone(removed, UnmuteOnRemoval(mode));
    }
  }

  /** `checkMutationForProfanity(mutation)`. Only text targets (`nodeName`
      `#text`) are rescanned. */
  function CheckMutation(mode: FilterMode, m: Mutation, replace: string -> string,
                         forbidden: Classifier): (r: MutationPlan)
    ensures |r.added| == |m.added|
    ensures forall i :: 0 <= i < |m.added| ==> r.added[i] == AddedNodeAction(mode, m.added[i])
    ensures r.unmutes == |Filter(m.removed, UnmuteOnRemoval(mode))|
    ensures r.unmutes <= |m.removed|
    ensures !mode.mutePage ==> r.unmutes == 0
    ensures r.unmutes == |m.removed| <==> forall i :: 0 <= i < |m.removed| ==> mode.mutePage && m.removed[i].audioNode
    ensures m.target.Some? && m.target.value.Text? ==>
              r.target == Some(CheckMutationTarget(m.target.value, m.targetAbove, replace, forbidden))
    ensures m.target.None? || !m.target.value.Text? ==> r.target == m.target
  {
    var removedAudio := Filter(m.removed, UnmuteOnRemoval(mode));
    FilterAll(m.removed, UnmuteOnRemoval(mode));
    UnmuteOnlyInMutePage(mode, m.removed);
    var target :=
      if m.target.Some? && m.target.value.Text? then Some(CheckMutationTarget(m.target.value, m.targetAbove, replace, forbidden))
      else m.target;
    MutationPlan(MapSeq(m.added, (f: NodeFacts) => AddedNodeAction(mode, f)), |removedAudio|, target)
  }

  /** The target rescan does not depend on the added or removed nodes. */
  lemma TargetIndependent(mode: FilterMode, m: Mutation, added: seq<NodeFacts>, removed: seq<NodeFacts>,
                          replace: string -> string, forbidden: Classifier)
    ensures CheckMutation(mode, m, replace, forbidden).target
            == CheckMutation(mode, Mutation(added, removed, m.target, m.targetAbove), replace, forbidden).target
  {
  }

  // ---------------------------------------------------------------------
  // Summary of words found

  /** One line of the summary: the word's replacement and how often it was
      found. */
  datatype SummaryEntry = SummaryEntry(filtered: string, count: nat)

  /** The replacement shown for a word seen for the first time: a regular
      expression word (match method 4) shows its own substitute or, when it
      has none, the default one; any other word shows its replaced text. */
  function FirstFiltered(word: string, cfg: WordCfg, defaultSub: string, replace: string -> string): string {
    if cfg.matchMethod == 4 then (if Truthy(cfg.sub) then cfg.sub.value else defaultSub)
    else replace(word)
  }

  /** `foundMatch(word)` on the summary. Reading `matchMethod` of a word
      that is not configured throws. */
  function FoundMatch(summary: Dict<SummaryEntry>, word: string, showSummary: bool,
                      words: Dict<WordCfg>, defaultSub: string, replace: string -> string)
    : (r: Result<Dict<SummaryEntry>, string>)
    ensures !showSummary ==> r == Ok(summary)
    ensures r.Err? <==> showSummary && word !in Keys(summary) && word !in Keys(words)
    ensures r.Ok? && showSummary ==> forall w :: w != word ==> Get(r.value, w) == Get(summary, w)
    ensures r.Ok? && showSummary && word in Keys(summary) ==>
              Get(r.value, word) == Some(Get(summary, word).value.(count := Get(summary, word).value.count + 1))
    ensures r.Ok? && showSummary && word !in Keys(summary) ==>
              Get(r.value, word) == Some(SummaryEntry(FirstFiltered(word, Get(words, word).value, defaultSub, replace), 1))
  {
    if !showSummary then Ok(summary)
    else match Get(summary, word)
      case Some(e) => Ok(Set(summary, word, e.(count := e.count + 1)))
      case None =>
        match Get(words, word)
        case None => Err("TypeError: Cannot read properties of undefined (reading 'matchMethod')")
        case Some(cfg) => Ok(Set(summary, word, SummaryEntry(FirstFiltered(word, cfg, defaultSub, replace), 1)))
  }

  /** `foundMatch` for each word found, in order; stops at the first throw. */
  function FoundMatches(summary: Dict<SummaryEntry>, found: seq<string>, words: Dict<WordCfg>,
                        defaultSub: string, replace: string -> string): Result<Dict<SummaryEntry>, string>
    decreases |found|
  {
    if |found| == 0 then Ok(summary)
    else match FoundMatch(summary, found[0], true, words, defaultSub, replace)
      case Err(e) => Err(e)
      case Ok(s) => FoundMatches(s, found[1..], words, defaultSub, replace)
  }

  function CountOf(summary: Dict<SummaryEntry>, w: string): nat {
    match Get(summary, w)
    case None => 0
    case Some(e) => e.count
  }

  /** One sighting of a configured word adds one to its count and to no
      other count. */
  lemma FoundMatchCounts(summary: Dict<SummaryEntry>, word: string, words: Dict<WordCfg>,
                         defaultSub: string, replace: string -> string)
    requires word in Keys(words)
    ensures FoundMatch(summary, word, true, words, defaultSub, replace).Ok?
    ensures var r := FoundMatch(summary, word, true, words, defaultSub, replace).value;
            forall w :: CountOf(r, w) == CountOf(summary, w) + (if w == word then 1 else 0)
  {
  }

  /** With the summary on and every word found configured, the summary
      counts each word as often as it was found. */
  lemma {:induction false} FoundMatchesCounts(summary: Dict<SummaryEntry>, found: seq<string>, words: Dict<WordCfg>,
                                              defaultSub: string, replace: string -> string)
    requires forall i :: 0 <= i < |found| ==> found[i] in Keys(words)
    ensures FoundMatches(summary, found, words, defaultSub, replace).Ok?
    ensures var r := FoundMatches(summary, found, words, defaultSub, replace).value;
            forall w :: CountOf(r, w) == CountOf(summary, w) + multiset(found)[w]
    decreases |found|
  {
    if |found| > 0 {
      var word := found[0];
      FoundMatchCounts(summary, word, words, defaultSub, replace);
      var s := FoundMatch(summary, word, true, words, defaultSub, replace).value;
      var rest := found[1..];
      assert found == [word] + rest;
      FoundMatchesCounts(s, rest, words, defaultSub, replace);
    }
  }

  /** ... and a word's replacement is the one recorded when it was first
      seen; a word never found gets no entry. */
  lemma {:induction false} FoundMatchesFiltered(summary: Dict<SummaryEntry>, found: seq<string>, words: Dict<WordCfg>,
                                                defaultSub: string, replace: string -> string, w: string)
    requires forall i :: 0 <= i < |found| ==> found[i] in Keys(words)
    requires FoundMatches(summary, found, words, defaultSub, replace).Ok?
    ensures var r := FoundMatches(summary, found, words, defaultSub, replace).value;
            && (w in Keys(summary) ==> Get(r, w).Some? && Get(r, w).value.filtered == Get(summary, w).value.filtered)
            && (w !in Keys(summary) && w in found ==>
                  Get(r, w).Some? && Get(r, w).value.filtered == FirstFiltered(w, Get(words, w).value, defaultSub, replace))
            && (w !in Keys(summary) && w !in found ==> Get(r, w).None?)
    decreases |found|
  {
    if |found| > 0 {
      var word := found[0];
      var step := FoundMatch(summary, word, true, words, defaultSub, replace);
      assert step.Ok?;
      var s := step.value;
      assert FoundMatches(summary, found, words, defaultSub, replace) == FoundMatches(s, found[1..], words, defaultSub, replace);
      FoundMatchesFiltered(s, found[1..], words, defaultSub, replace, w);
      assert w in found <==> w == word || w in found[1..];
      if w in Keys(summary) {
        assert Get(s, w).value.filtered == Get(summary, w).value.filtered;
      } else if w == word {
        assert Get(s, w).value.filtered == FirstFiltered(w, Get(words, w).value, defaultSub, replace);
      } else {
        assert Get(s, w).None?;
      }
    }
  }

  // ---------------------------------------------------------------------
  // Navigation and badge

  /** What the navigation watcher remembers. */
  datatype NavState = NavState(lastHref: string, disabled: bool)

  datatype Toggle = Activate | Deactivate

  /** One mutation seen by the navigation watcher: when the address
      changed it is recorded, and the page policy (`disabledPage()`,
      passed in as `policy`) is compared with the current state; the
      filter is switched only when they differ. */
  function NavigationStep(st: NavState, href: string, policy: bool): (r: (NavState, Option<Toggle>))
    ensures r.1.Some? <==> href != st.lastHref && policy != st.disabled
    ensures r.1 == Some(Deactivate) ==> r.0.disabled
    ensures r.1 == Some(Activate) ==> !r.0.disabled
    ensures r.0.lastHref == href
    ensures r.0.disabled == (if href != st.lastHref then policy else st.disabled)
  {
    if st.lastHref != href then
      var st' := st.(lastHref := href);
      if policy != st.disabled then
        (st'.(disabled := policy), Some(if policy then Deactivate else Activate))
      else (st', None)
    else (st, None)
  }

  /** All mutations of one observer callback, which see the same address
      and the same policy. */
  function NavigationBatch(st: NavState, mutations: nat, href: string, policy: bool): (NavState, seq<Toggle>)
    decreases mutations
  {
    if mutations == 0 then (st, [])
    else
      var (st', t) := NavigationStep(st, href, policy);
      var (st'', ts) := NavigationBatch(st', mutations - 1, href, policy);
      (st'', (if t.Some? then [t.value] else []) + ts)
  }

  /** A callback switches the filter at most once, and does so exactly when
      it has a mutation, the address changed and the policy differs. */
  lemma {:induction false} NavigationBatchAtMostOnce(st: NavState, mutations: nat, href: string, policy: bool)
    ensures |NavigationBatch(st, mutations, href, policy).1| <= 1
    ensures |NavigationBatch(st, mutations, href, policy).1| == 1 <==>
              mutations > 0 && href != st.lastHref && policy != st.disabled
    decreases mutations
  {
    if mutations > 0 {
      var st' := NavigationStep(st, href, policy).0;
      NavigationBatchAtMostOnce(st', mutations - 1, href, policy);
    }
  }

  /** `disabledPage()` reads the location saved at start, which is never
      updated, so the policy seen on navigation is the one `start` stored
      in `disabled`: navigation never switches the filter. */
  lemma NavigationNeverToggles(st: NavState, mutations: nat, href: string,
                               domains: Dict<DomainCfg>, hostname: string, pathname: string,
                               pageMatch: (string, Option<seq<string>>) -> bool)
    requires st.disabled == DisabledPage(domains, hostname, pathname, pageMatch)
    ensures NavigationBatch(st, mutations, href, DisabledPage(domains, hostname, pathname, pageMatch)).1 == []
  {
    NavigationBatchAtMostOnce(st, mutations, href, DisabledPage(domains, hostname, pathname, pageMatch));
  }

  /** A message to the background page. */
  datatype Message = CounterMessage(counter: string) | SummaryMessage(summary: Dict<SummaryEntry>)

  /** `updateCounterBadge()`: nothing unless something was filtered; then
      the counter as text when it is shown, and the summary when it is
      shown, in that order. */
  function UpdateCounterBadge(counter: int, showCounter: bool, showSummary: bool,
                              summary: Dict<SummaryEntry>): (r: seq<Message>)
    ensures counter <= 0 ==> r == []
    ensures |r| <= 2
    ensures counter > 0 ==> |r| == (if showCounter then 1 else 0) + (if showSummary then 1 else 0)
    ensures (exists i :: 0 <= i < |r| && r[i].CounterMessage?) <==> counter > 0 && showCounter
    ensures (exists i :: 0 <= i < |r| && r[i].SummaryMessage?) <==> counter > 0 && showSummary
    ensures forall i :: 0 <= i < |r| && r[i].CounterMessage? ==> i == 0 && ParseNat(r[i].counter) == Some(counter)
    ensures forall i :: 0 <= i < |r| && r[i].SummaryMessage? ==> r[i].summary == summary
  {
    if counter > 0 then
      ParseOfNatToString(counter);
      var r := (if showCounter then [CounterMessage(NatToString(counter))] else [])
               + (if showSummary then [SummaryMessage(summary)] else []);
      assert showCounter ==> r[0].CounterMessage?;
      assert showSummary ==> r[|r| - 1].SummaryMessage?;
      r
    else []
  }
}
