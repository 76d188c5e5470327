/** The background page's decisions (src/script/eventPage.ts): what a
    message from a content page does to the sender's tab, and when a domain
    toggle or a context-menu edit reloads the tab. Browser calls are
    returned as data instead of being made. */
module EventPageModel {
  import opened Base
  import opened Dicts
  import opened Decimal
  import opened DomainModel
  import WebFilterModel

  /** A badge background colour, `[red, green, blue, alpha]`. */
  datatype Rgba = Rgba(r: int, g: int, b: int, a: int)

  const AudioColor := Rgba(34, 139, 34, 255)
  const AdvancedColor := Rgba(211, 45, 39, 255)
  const NormalColor := Rgba(66, 133, 244, 255)
  const DisabledIcon := "img/icon19-disabled.png"

  /** The fields of a `Message` the handler reads; `None` is `undefined`. */
  datatype Request = Request(
    disabled: Option<bool> := None,
    setBadgeColor: Option<bool> := None,
    mutePage: Option<bool> := None,
    advanced: Option<bool> := None,
    counter: Option<string> := None,
    mute: Option<bool> := None,
    clearMute: Option<bool> := None)

  /** `tab.mutedInfo`: whether the tab is muted, why, and by which
      extension. */
  datatype MutedInfo = MutedInfo(muted: bool, reason: Option<string>, extensionId: Option<string>)

  datatype Tab = Tab(id: int, mutedInfo: MutedInfo)

  /** One browser call: the icon, the badge colour, the badge text or the
      tab's muted state. */
  datatype Effect =
    | SetIcon(path: string)
    | SetBadgeColor(color: Rgba)
    | SetBadgeText(text: string)
    | SetMuted(muted: bool)

  datatype Action = Action(tabId: int, effect: Effect)

  /** The calls made, in order, and whether the handler stopped on a
      `TypeError` from reading `sender.tab.id` with no tab. */
  datatype Outcome = Outcome(actions: seq<Action>, threw: bool)

  /** The tab was muted by this extension and no one else. */
  predicate MutedByExtension(tab: Tab, runtimeId: string) {
    && tab.mutedInfo.muted
    && tab.mutedInfo.reason == Some("extension")
    && tab.mutedInfo.extensionId == Some(runtimeId)
  }

  function BadgeColor(req: Request): Rgba {
    if IsTrue(req.mutePage) then AudioColor
    else if IsTrue(req.advanced) then AdvancedColor
    else NormalColor
  }

  /** The calls that address `sender.tab.id` without checking the tab. */
  function TabEffects(req: Request): seq<Effect> {
    if req.disabled == Some(true) then [SetIcon(DisabledIcon)]
    else
      (if IsTrue(req.setBadgeColor) then [SetBadgeColor(BadgeColor(req))] else [])
      + (if req.counter.Some? then [SetBadgeText(req.counter.value)] else [])
      + (if req.mute.Some? then [SetMuted(req.mute.value)] else [])
  }

  /** The `clearMute` step, the only one that checks for a tab first. */
  predicate ClearsMute(req: Request, tab: Option<Tab>, runtimeId: string) {
    && req.disabled != Some(true)
    && req.clearMute == Some(true)
    && tab.Some?
    && MutedByExtension(tab.value, runtimeId)
  }

  function ToTab(id: int, effects: seq<Effect>): (r: seq<Action>)
    ensures |r| == |effects|
    ensures forall i :: 0 <= i < |r| ==> r[i] == Action(id, effects[i])
  {
    seq(|effects|, i requires 0 <= i < |effects| => Action(id, effects[i]))
  }

  /** `chrome.runtime.onMessage`: every call goes to the sender's tab;
      without a tab the first unguarded call throws before anything is
      done. */
  function OnMessage(req: Request, tab: Option<Tab>, runtimeId: string): (o: Outcome)
    ensures forall i :: 0 <= i < |o.actions| ==> tab.Some? && o.actions[i].tabId == tab.value.id
    ensures o.threw ==> o.actions == []
    ensures o.threw <==> tab.None? && (|| req.disabled == Some(true) || IsTrue(req.setBadgeColor)
                                       || req.counter.Some? || req.mute.Some?)
  {
    var effects := TabEffects(req);
    if tab.None? then Outcome([], |effects| > 0)
    else
      var clear := if ClearsMute(req, tab, runtimeId) then [SetMuted(false)] else [];
      Outcome(ToTab(tab.value.id, effects + clear), false)
  }

  /** The effects of one outcome, without their tab. */
  function EffectsOf(o: Outcome): (r: seq<Effect>)
    ensures |r| == |o.actions|
    ensures forall i :: 0 <= i < |r| ==> r[i] == o.actions[i].effect
  {
    seq(|o.actions|, i requires 0 <= i < |o.actions| => o.actions[i].effect)
  }

  /** A disabled page only gets the disabled icon: no badge, counter or
      mute call follows. */
  lemma DisabledSetsOnlyIcon(req: Request, tab: Tab, runtimeId: string)
    requires req.disabled == Some(true)
    ensures OnMessage(req, Some(tab), runtimeId) == Outcome([Action(tab.id, SetIcon(DisabledIcon))], false)
  {
  }

  /** The badge colour is set once when asked for, never otherwise, and
      audio beats advanced, which beats normal. */
  lemma BadgeColorPrecedence(req: Request, tab: Tab, runtimeId: string)
    requires req.disabled != Some(true)
    ensures var es := EffectsOf(OnMessage(req, Some(tab), runtimeId));
            (exists i :: 0 <= i < |es| && es[i].SetBadgeColor?) <==> IsTrue(req.setBadgeColor)
    ensures var es := EffectsOf(OnMessage(req, Some(tab), runtimeId));
            forall i :: 0 <= i < |es| && es[i].SetBadgeColor? ==>
              && i == 0
              && (IsTrue(req.mutePage) ==> es[i].color == AudioColor)
              && (!IsTrue(req.mutePage) && IsTrue(req.advanced) ==> es[i].color == AdvancedColor)
              && (!IsTrue(req.mutePage) && !IsTrue(req.advanced) ==> es[i].color == NormalColor)
  {
    var es := EffectsOf(OnMessage(req, Some(tab), runtimeId));
    if IsTrue(req.setBadgeColor) {
      assert es[0].SetBadgeColor?;
    }
  }

  /** The badge text is set exactly when a counter is sent, and shows it
      unchanged. */
  lemma CounterSetsBadgeText(req: Request, tab: Tab, runtimeId: string)
    requires req.disabled != Some(true)
    ensures var es := EffectsOf(OnMessage(req, Some(tab), runtimeId));
            (exists i :: 0 <= i < |es| && es[i].SetBadgeText?) <==> req.counter.Some?
    ensures var es := EffectsOf(OnMessage(req, Some(tab), runtimeId));
            forall i :: 0 <= i < |es| && es[i].SetBadgeText? ==> req.counter == Some(es[i].text)
  {
    var es := EffectsOf(OnMessage(req, Some(tab), runtimeId));
    if req.counter.Some? {
      var k := if IsTrue(req.setBadgeColor) then 1 else 0;
      assert es[k].SetBadgeText?;
    }
  }

  /** Without `clearMute`, the tab's muted state is set exactly when
      `mute` is sent, to the value sent. */
  lemma MuteFollowsRequest(req: Request, tab: Tab, runtimeId: string)
    requires req.disabled != Some(true) && req.clearMute != Some(true)
    ensures var es := EffectsOf(OnMessage(req, Some(tab), runtimeId));
            (exists i :: 0 <= i < |es| && es[i].SetMuted?) <==> req.mute.Some?
    ensures var es := EffectsOf(OnMessage(req, Some(tab), runtimeId));
            forall i :: 0 <= i < |es| && es[i].SetMuted? ==> req.mute == Some(es[i].muted)
  {
    var es := EffectsOf(OnMessage(req, Some(tab), runtimeId));
    if req.mute.Some? {
      assert es[|es| - 1].SetMuted?;
    }
  }

  /** `clearMute` unmutes a tab only when this extension muted it; without
      `mute` that is the only muted-state call. */
  lemma ClearMuteOnlyOwnMute(req: Request, tab: Option<Tab>, runtimeId: string)
    requires req.mute.None?
    ensures var es := EffectsOf(OnMessage(req, tab, runtimeId));
            (exists i :: 0 <= i < |es| && es[i].SetMuted?) <==>
              && req.disabled != Some(true) && req.clearMute == Some(true) && tab.Some?
              && tab.value.mutedInfo.muted
              && tab.value.mutedInfo.reason == Some("extension")
              && tab.value.mutedInfo.extensionId == Some(runtimeId)
    ensures var es := EffectsOf(OnMessage(req, tab, runtimeId));
            forall i :: 0 <= i < |es| && es[i].SetMuted? ==> !es[i].muted
  {
    var es := EffectsOf(OnMessage(req, tab, runtimeId));
    if ClearsMute(req, tab, runtimeId) {
      assert es[|es| - 1].SetMuted?;
    }
  }

  /** A counter message from the filter (`updateCounterBadge`) sets the
      badge of the sender's tab to text that reads back as the count. */
  lemma CounterBadgeRoundTrip(counter: int, showSummary: bool, summary: Dict<WebFilterModel.SummaryEntry>,
                              tab: Tab, runtimeId: string)
    requires counter > 0
    ensures var ms := WebFilterModel.UpdateCounterBadge(counter, true, showSummary, summary);
            && |ms| > 0 && ms[0].CounterMessage?
            && var o := OnMessage(Request(counter := Some(ms[0].counter)), Some(tab), runtimeId);
               && |o.actions| == 1 && o.actions[0].tabId == tab.id
               && o.actions[0].effect.SetBadgeText?
               && ParseNat(o.actions[0].effect.text) == Some(counter)
  {
    var ms := WebFilterModel.UpdateCounterBadge(counter, true, showSummary, summary);
    assert exists i :: 0 <= i < |ms| && ms[i].CounterMessage?;
  }

  // Domain toggling from the popup.

  /** `!flag`: `undefined` and `false` both become `true`. */
  function Flip(b: Option<bool>): (r: Option<bool>)
    ensures r.Some? && (IsTrue(r) <==> !IsTrue(b))
  {
    Some(!IsTrue(b))
  }

  /** The same Domain with the same stored record, ids and key. */
  predicate SameExceptFlags(a: Domain, b: Domain) {
    && a.cfgKey == b.cfgKey && a.cfg == b.cfg && a.hostname == b.hostname
    && a.wordlistId == b.wordlistId && a.audioWordlistId == b.audioWordlistId
  }

  /** The `switch` of `toggleDomain`: `'disable'` flips `enabled` when only
      enabled domains are filtered and `disabled` otherwise; `'advanced'`
      flips `advanced`; any other action changes nothing. */
  function ToggleFlags(d: Domain, action: string, enabledDomainsOnly: Option<bool>): (r: Domain)
    ensures SameExceptFlags(r, d)
    ensures action == "disable" && IsTrue(enabledDomainsOnly) ==>
              IsTrue(r.enabled) == !IsTrue(d.enabled) && r.disabled == d.disabled && r.advanced == d.advanced
    ensures action == "disable" && !IsTrue(enabledDomainsOnly) ==>
              IsTrue(r.disabled) == !IsTrue(d.disabled) && r.enabled == d.enabled && r.advanced == d.advanced
    ensures action == "advanced" ==>
              IsTrue(r.advanced) == !IsTrue(d.advanced) && r.enabled == d.enabled && r.disabled == d.disabled
    ensures action != "disable" && action != "advanced" ==> r == d
  {
    if action == "disable" then
      if IsTrue(enabledDomainsOnly) then d.(enabled := Flip(d.enabled))
      else d.(disabled := Flip(d.disabled))
    else if action == "advanced" then d.(advanced := Flip(d.advanced))
    else d
  }

  /** Toggling twice gives back every flag's truth value, and so the same
      record to store (an absent flag comes back `false`, which is stored
      as absent). */
  lemma ToggleTwice(d: Domain, action: string, enabledDomainsOnly: Option<bool>)
    ensures var r := ToggleFlags(ToggleFlags(d, action, enabledDomainsOnly), action, enabledDomainsOnly);
            && IsTrue(r.advanced) == IsTrue(d.advanced)
            && IsTrue(r.disabled) == IsTrue(d.disabled)
            && IsTrue(r.enabled) == IsTrue(d.enabled)
            && UpdateCfg(r).cfg == UpdateCfg(d).cfg
  {
  }

  datatype ToggleOutcome = ToggleOutcome(domain: Domain, domains: Dict<DomainCfg>, reload: bool)

  /** `toggleDomain(hostname, action)` on the stored domain table;
      `saveError` is what the storage write returns. */
  function ToggleDomain(hostname: string, action: string, enabledDomainsOnly: Option<bool>,
                        domains: Dict<DomainCfg>, saveError: Option<string>): (r: ToggleOutcome)
    ensures r.domain.hostname == Some(hostname)
    ensures r.domain.cfgKey == ByHostname(hostname, domains).cfgKey
    ensures r.reload <==> !Truthy(saveError)
    ensures forall k :: k != r.domain.cfgKey ==> Get(r.domains, k) == Get(domains, k)
    ensures var before := Get(domains, r.domain.cfgKey).GetOr(DefaultCfg);
            var after := Get(r.domains, r.domain.cfgKey).GetOr(DefaultCfg);
            && (action == "disable" && IsTrue(enabledDomainsOnly) ==>
                  IsTrue(after.enabled) == !IsTrue(before.enabled)
                  && IsTrue(after.disabled) == IsTrue(before.disabled) && IsTrue(after.adv) == IsTrue(before.adv))
            && (action == "disable" && !IsTrue(enabledDomainsOnly) ==>
                  IsTrue(after.disabled) == !IsTrue(before.disabled)
                  && IsTrue(after.enabled) == IsTrue(before.enabled) && IsTrue(after.adv) == IsTrue(before.adv))
            && (action == "advanced" ==>
                  IsTrue(after.adv) == !IsTrue(before.adv)
                  && IsTrue(after.enabled) == IsTrue(before.enabled) && IsTrue(after.disabled) == IsTrue(before.disabled))
  {
    var d := ByHostname(hostname, domains);
    var saved := Save(ToggleFlags(d, action, enabledDomainsOnly), Some(domains));
    ToggleOutcome(saved.domain, saved.domains.value, !Truthy(saveError))
  }

  /** The record toggled is the one `byHostname` resolves: the longest
      non-empty configured key that matches the hostname, or the hostname
      itself when there is none; no other key's record changes. */
  lemma ToggleDomainTargetsLongestMatch(hostname: string, action: string, enabledDomainsOnly: Option<bool>,
                                        domains: Dict<DomainCfg>, saveError: Option<string>)
    ensures var r := ToggleDomain(hostname, action, enabledDomainsOnly, domains, saveError);
            && ((exists k :: k in Keys(domains) && k != "" && KeyMatches(k, hostname)) ==>
                  IsLongestMatch(r.domain.cfgKey, hostname, domains))
            && ((forall k :: k in Keys(domains) && k != "" ==> !KeyMatches(k, hostname)) ==>
                  r.domain.cfgKey == hostname)
            && forall k :: k != r.domain.cfgKey ==> Get(r.domains, k) == Get(domains, k)
  {
  }

  /** `processSelection`: the edit named by the menu item is applied to the
      word settings; a change is saved, and a save that reports no error
      reloads the tab. `edit` stands for the configuration method, which is
      not part of this model. */
  datatype SelectionOutcome<C> = SelectionOutcome(cfg: C, saved: bool, reload: bool)

  function ProcessSelection<C>(cfg: C, selection: string, edit: (C, string) -> (C, bool),
                               save: C -> Option<string>): (r: SelectionOutcome<C>)
    ensures r.cfg == edit(cfg, selection).0
    ensures r.saved <==> edit(cfg, selection).1
    ensures r.reload <==> r.saved && !Truthy(save(r.cfg))
  {
    var (next, changed) := edit(cfg, selection);
    if changed then SelectionOutcome(next, true, !Truthy(save(next)))
    else SelectionOutcome(next, false, false)
  }

  /** Choosing the same selection again, once the edit has nothing more to
      change (adding a word that is now present), saves nothing and
      reloads nothing, and keeps the settings of the first time. This
      follows from the clauses of `ProcessSelection` alone;
      `UnchangedSelectionIsNoOp` and `RepeatedSelectionRunsOnce` state it
      over a run of selections. */
  lemma RepeatedSelectionIsQuiet<C>(cfg: C, selection: string, edit: (C, string) -> (C, bool),
                                    save: C -> Option<string>)
    requires edit(edit(cfg, selection).0, selection) == (edit(cfg, selection).0, false)
    ensures var first := ProcessSelection(cfg, selection, edit, save);
            ProcessSelection(first.cfg, selection, edit, save) == SelectionOutcome(first.cfg, false, false)
  {
  }

  /** The stored settings and the number of reloads after a run of
      context-menu selections. Each selection reads the stored settings
      afresh (`WebConfig.build`), edits them and saves them when the edit
      reports a change; storage takes the edited settings exactly when
      the save succeeds, which is also exactly when the tab reloads. The
      selections run one after another, and whether a save succeeds is a
      function of the settings saved: the same settings fail or succeed
      every time. */
  datatype SelectionRun<C> = SelectionRun(stored: C, reloads: nat)

  function RunSelections<C>(stored: C, selections: seq<string>, edit: (C, string) -> (C, bool),
                            save: C -> Option<string>): (r: SelectionRun<C>)
    ensures r.reloads <= |selections|
    ensures r.reloads == 0 ==> r.stored == stored
    decreases |selections|
  {
    if |selections| == 0 then SelectionRun(stored, 0)
    else
      var prev := RunSelections(stored, selections[..|selections| - 1], edit, save);
      var step := ProcessSelection(prev.stored, selections[|selections| - 1], edit, save);
      if step.reload then SelectionRun(step.cfg, prev.reloads + 1) else prev
  }

  /** A selection whose edit reports no change, on whatever the earlier
      selections left in storage, changes neither storage nor the reloads. */
  lemma UnchangedSelectionIsNoOp<C>(stored: C, before: seq<string>, selection: string,
                                    edit: (C, string) -> (C, bool), save: C -> Option<string>)
    requires !edit(RunSelections(stored, before, edit, save).stored, selection).1
    ensures RunSelections(stored, before + [selection], edit, save) == RunSelections(stored, before, edit, save)
  {
    assert (before + [selection])[..|before|] == before;
  }

  /** When a change made by the edit leaves nothing more to change (a word
      once added is present), choosing the same selection twice in a row
      has the effect of choosing it once. When the first save failed, this
      rests on `RunSelections` taking a save's success as a function of the
      settings saved, so the second save of the same settings fails too. */
  lemma RepeatedSelectionRunsOnce<C>(stored: C, before: seq<string>, selection: string,
                                     edit: (C, string) -> (C, bool), save: C -> Option<string>)
    requires var c := RunSelections(stored, before, edit, save).stored;
             edit(c, selection).1 ==> !edit(edit(c, selection).0, selection).1
    ensures RunSelections(stored, before + [selection, selection], edit, save) ==
            RunSelections(stored, before + [selection], edit, save)
  {
    var once := before + [selection];
    assert once[..|before|] == before;
    assert (before + [selection, selection])[..|once|] == once;
  }
}
