/** Per-site configuration: choosing the configuration key for a hostname,
    loading a `Domain` from its stored record, and writing it back
    (src/script/domain.ts). */
module DomainModel {
  import opened Base
  import opened Seqs
  import opened Dicts
  import opened Text
  import Sorting

  /** The stored record of one site (`DomainCfg`). Absent fields are
      `undefined`; a record with every field absent serialises as `{}`. */
  datatype DomainCfg = DomainCfg(
    adv: Option<bool>,
    audioList: Option<int>,
    disabled: Option<bool>,
    enabled: Option<bool>,
    wordlist: Option<int>,
    enabledPages: Option<seq<string>>,
    disabledPages: Option<seq<string>>)

  /** `Domain._domainCfgDefaults`. */
  const DefaultCfg := DomainCfg(None, None, None, None, None, None, None)

  /** `JSON.stringify(cfg) === '{}'`: `undefined` fields are not written. */
  predicate IsEmptyRecord(cfg: DomainCfg) {
    cfg == DefaultCfg
  }

  /** A `Domain` object: the key it is stored under, its record, the
      hostname it was looked up for, and the editable flags. */
  datatype Domain = Domain(
    cfgKey: string,
    cfg: DomainCfg,
    hostname: Option<string>,
    advanced: Option<bool>,
    disabled: Option<bool>,
    enabled: Option<bool>,
    wordlistId: Option<int>,
    audioWordlistId: Option<int>)

  /** The flags hold exactly the record's fields. */
  predicate FlagsMirrorCfg(d: Domain) {
    && d.advanced == d.cfg.adv
    && d.disabled == d.cfg.disabled
    && d.enabled == d.cfg.enabled
    && d.wordlistId == d.cfg.wordlist
    && d.audioWordlistId == d.cfg.audioList
  }

  predicate NoFlags(d: Domain) {
    && d.advanced.None? && d.disabled.None? && d.enabled.None?
    && d.wordlistId.None? && d.audioWordlistId.None?
  }

  // ---------------------------------------------------------------------
  // Key selection

  /** One character of a key against one character of the hostname: the
      key is used as a regular expression, so its `.` matches any character
      but a line terminator. */
  predicate CharMatches(p: char, c: char) {
    if p == '.' then !IsLineTerminator(c) else p == c
  }

  /** `new RegExp('(^|.)' + key + '$').test(hostname)` for a key made of
      hostname characters: the key matches the end of the hostname, and
      the character before that part, if any, is not a line terminator. */
  predicate KeyMatches(key: string, hostname: string) {
    && |key| <= |hostname|
    && (|key| == |hostname| || !IsLineTerminator(hostname[|hostname| - |key| - 1]))
    && forall i :: 0 <= i < |key| ==> CharMatches(key[i], hostname[|hostname| - |key| + i])
  }

  /** `key` is a configured key that matches, and no configured key that
      is strictly longer in `length` (UTF-16 code units) matches. */
  predicate IsLongestMatch(key: string, hostname: string, domains: Dict<DomainCfg>) {
    && key in Keys(domains)
    && KeyMatches(key, hostname)
    && forall k :: k in Keys(domains) && Utf16Length(k) > Utf16Length(key) ==> !KeyMatches(k, hostname)
  }

  /** A matching key is no longer than the part of the hostname it
      covers, and every character it leaves out adds at least one unit. */
  lemma MatchNoLonger(key: string, hostname: string)
    requires KeyMatches(key, hostname)
    ensures Utf16Length(key) + (|hostname| - |key|) <= Utf16Length(hostname)
  {
    var m := |hostname| - |key|;
    assert hostname == hostname[..m] + hostname[m..];
    Utf16LengthAppend(hostname[..m], hostname[m..]);
    forall i | 0 <= i < |key|
      ensures CodeUnits(key[i]) <= CodeUnits(hostname[m..][i])
    {
      assert CharMatches(key[i], hostname[m + i]);
    }
    Utf16LengthPointwise(key, hostname[m..]);
  }

  /** The index of the first key that matches `hostname` (`Array.find`). */
  function FirstMatch(keys: seq<string>, hostname: string): (r: Option<nat>)
    ensures r.Some? ==> r.value < |keys| && KeyMatches(keys[r.value], hostname)
    ensures r.Some? ==> forall j :: 0 <= j < r.value ==> !KeyMatches(keys[j], hostname)
    ensures r.None? ==> forall j :: 0 <= j < |keys| ==> !KeyMatches(keys[j], hostname)
  {
    if |keys| == 0 then None
    else if KeyMatches(keys[0], hostname) then Some(0)
    else match FirstMatch(keys[1..], hostname)
      case None => None
      case Some(i) => Some(i + 1)
  }

  lemma FirstInLengthOrderIsLongest(sorted: seq<string>, keys: seq<string>, i: nat, hostname: string)
    requires multiset(sorted) == multiset(keys)
    requires Sorting.SortedBy(sorted, Sorting.LongerFirst)
    requires i < |sorted| && KeyMatches(sorted[i], hostname)
    requires forall j :: 0 <= j < i ==> !KeyMatches(sorted[j], hostname)
    ensures forall k :: k in keys && Utf16Length(k) > Utf16Length(sorted[i]) ==> !KeyMatches(k, hostname)
  {
    forall k | k in keys && Utf16Length(k) > Utf16Length(sorted[i])
      ensures !KeyMatches(k, hostname)
    {
      assert k in multiset(keys);
      assert k in sorted;
      var j :| 0 <= j < |sorted| && sorted[j] == k;
      assert !Sorting.LongerFirst(sorted[j], sorted[i]) || j < i;
    }
  }

  /** `Domain.findDomainKey`: the configured keys, in `Object.keys` order,
      sorted longest first, then the first one that matches. */
  function FindDomainKey(hostname: string, domains: Dict<DomainCfg>): (r: Option<string>)
    ensures r.Some? ==> IsLongestMatch(r.value, hostname, domains)
    ensures r.None? <==> forall k :: k in Keys(domains) ==> !KeyMatches(k, hostname)
  {
    var keys := ObjectKeys(domains);
    var sorted := Sorting.Sort(keys, Sorting.LongerFirst);
    Sorting.LongerFirstIsStrict();
    Sorting.SortSorted(keys, Sorting.LongerFirst);
    match FirstMatch(sorted, hostname)
    case None =>
      assert forall k :: k in keys ==> k in multiset(sorted);
      None
    case Some(i) =>
      assert sorted[i] in multiset(keys);
      FirstInLengthOrderIsLongest(sorted, Keys(domains), i, hostname);
      Some(sorted[i])
  }

  /** A hostname matches itself as a key. */
  lemma SelfMatch(hostname: string)
    ensures KeyMatches(hostname, hostname)
  {
  }

  // ---------------------------------------------------------------------
  // Loading

  /** `updateFromCfg`: the flags are read from the record. */
  function UpdateFromCfg(d: Domain): (r: Domain)
    ensures FlagsMirrorCfg(r)
    ensures r.cfgKey == d.cfgKey && r.cfg == d.cfg && r.hostname == d.hostname
  {
    d.(advanced := d.cfg.adv, disabled := d.cfg.disabled, enabled := d.cfg.enabled,
       wordlistId := d.cfg.wordlist, audioWordlistId := d.cfg.audioList)
  }

  /** `new Domain(key, domainCfg)`: the stored record if there is one,
      otherwise a copy of the defaults; then the flags are loaded. */
  function NewDomain(key: string, stored: Option<DomainCfg>): (d: Domain)
    ensures d.cfgKey == key && d.hostname.None?
    ensures d.cfg == stored.GetOr(DefaultCfg)
    ensures FlagsMirrorCfg(d)
    ensures stored.None? ==> NoFlags(d)
  {
    var cfg := if stored.None? then DefaultCfg else stored.value;
    UpdateFromCfg(Domain(key, cfg, None, None, None, None, None, None))
  }

  /** `Domain.byKey`. */
  function ByKey(key: string, domains: Dict<DomainCfg>): (d: Domain)
    ensures d.cfgKey == key && d.cfg == Get(domains, key).GetOr(DefaultCfg)
    ensures FlagsMirrorCfg(d)
  {
    NewDomain(key, Get(domains, key))
  }

  /** `Domain.byHostname`: the longest matching key, or the hostname itself
      when none matches (or when the match is the empty key, which is
      falsy in `findDomainKey(...) || hostname`). */
  function ByHostname(hostname: string, domains: Dict<DomainCfg>): (d: Domain)
    ensures d.hostname == Some(hostname)
    ensures d.cfgKey == hostname || (d.cfgKey != "" && IsLongestMatch(d.cfgKey, hostname, domains))
    ensures (exists k :: k in Keys(domains) && k != "" && KeyMatches(k, hostname)) ==>
              d.cfgKey != "" && IsLongestMatch(d.cfgKey, hostname, domains)
    ensures (forall k :: k in Keys(domains) && k != "" ==> !KeyMatches(k, hostname)) ==> d.cfgKey == hostname
    ensures (forall k :: k in Keys(domains) ==> !KeyMatches(k, hostname)) ==>
              d.cfgKey == hostname && d.cfg == DefaultCfg && NoFlags(d)
    ensures d.cfg == Get(domains, d.cfgKey).GetOr(DefaultCfg)
    ensures FlagsMirrorCfg(d)
  {
    var found := FindDomainKey(hostname, domains);
    var cfgKey := if found.Some? && found.value != "" then found.value else hostname;
    SelfMatch(hostname);
    ByKey(cfgKey, domains).(hostname := Some(hostname))
  }

  /** When the hostname itself is configured, the chosen key is as long
      as the hostname: no longer key can match and the hostname does. */
  lemma ByHostnameExactKey(hostname: string, domains: Dict<DomainCfg>)
    requires hostname in Keys(domains)
    ensures |ByHostname(hostname, domains).cfgKey| == |hostname|
    ensures Utf16Length(ByHostname(hostname, domains).cfgKey) == Utf16Length(hostname)
  {
    SelfMatch(hostname);
    var key := ByHostname(hostname, domains).cfgKey;
    if key != hostname {
      MatchNoLonger(key, hostname);
    }
  }

  /** ... but it need not be the hostname: a key of the same length whose
      `.` stands where the hostname has another character matches too, and
      wins when it was configured first. */
  lemma ExactKeyCanLoseToWildcard()
    ensures ByHostname("a-b.com", [("a.b.com", DefaultCfg), ("a-b.com", DefaultCfg)]).cfgKey == "a.b.com"
  {
    var domains: Dict<DomainCfg> := [("a.b.com", DefaultCfg), ("a-b.com", DefaultCfg)];
    assert Keys(domains) == ["a.b.com", "a-b.com"];
    LetterKeyIsPlain("a.b.com");
    LetterKeyIsPlain("a-b.com");
    WildcardMatch();
    FindDomainKeyFirst("a-b.com", domains);
  }

  /** When no key is an array index and the keys are already longest
      first, the first key that matches is the one found. */
  lemma FindDomainKeyFirst(hostname: string, domains: Dict<DomainCfg>)
    requires |domains| > 0 && KeyMatches(domains[0].0, hostname)
    requires forall k :: k in Keys(domains) ==> IsPlainKey(k)
    requires Sorting.SortedBy(Keys(domains), Sorting.LongerFirst)
    ensures FindDomainKey(hostname, domains) == Some(domains[0].0)
  {
    ObjectKeysOfPlain(domains);
    Sorting.SortOfSorted(Keys(domains), Sorting.LongerFirst);
  }

  lemma WildcardMatch()
    ensures KeyMatches("a.b.com", "a-b.com")
  {
    var key, host := "a.b.com", "a-b.com";
    forall i | 0 <= i < |key|
      ensures CharMatches(key[i], host[i])
    {
    }
  }

  // ---------------------------------------------------------------------
  // Saving

  function StoreFlag(b: Option<bool>): Option<bool> {
    if IsTrue(b) then Some(true) else None
  }

  function StoreListId(n: Option<int>): Option<int> {
    if n.Some? && n.value >= 0 then n else None
  }

  /** The record holds booleans only as `true` and list ids only when they
      are not negative. */
  predicate IsNormalRecord(cfg: DomainCfg) {
    && cfg.adv != Some(false) && cfg.disabled != Some(false) && cfg.enabled != Some(false)
    && (cfg.wordlist.Some? ==> cfg.wordlist.value >= 0)
    && (cfg.audioList.Some? ==> cfg.audioList.value >= 0)
  }

  /** `updateCfg`: the flags are written into the record. */
  function UpdateCfg(d: Domain): (r: Domain)
    ensures IsNormalRecord(r.cfg)
    ensures IsTrue(r.cfg.adv) <==> IsTrue(d.advanced)
    ensures IsTrue(r.cfg.disabled) <==> IsTrue(d.disabled)
    ensures IsTrue(r.cfg.enabled) <==> IsTrue(d.enabled)
    ensures r.cfg.wordlist.Some? <==> d.wordlistId.Some? && d.wordlistId.value >= 0
    ensures r.cfg.wordlist.Some? ==> r.cfg.wordlist == d.wordlistId
    ensures r.cfg.audioList.Some? <==> d.audioWordlistId.Some? && d.audioWordlistId.value >= 0
    ensures r.cfg.audioList.Some? ==> r.cfg.audioList == d.audioWordlistId
    ensures r.cfg.enabledPages == d.cfg.enabledPages && r.cfg.disabledPages == d.cfg.disabledPages
    ensures r.(cfg := d.cfg) == d
  {
    d.(cfg := d.cfg.(
      adv := StoreFlag(d.advanced),
      disabled := StoreFlag(d.disabled),
      enabled := StoreFlag(d.enabled),
      wordlist := StoreListId(d.wordlistId),
      audioList := StoreListId(d.audioWordlistId)))
  }

  /** A record already in stored form is read and written back unchanged,
      and writing twice is writing once. */
  lemma {:induction false} StoredRecordIsFixpoint(d: Domain)
    ensures UpdateCfg(UpdateFromCfg(UpdateCfg(d))).cfg == UpdateCfg(d).cfg
    ensures UpdateCfg(UpdateCfg(d)) == UpdateCfg(d)
  {
    var c := UpdateCfg(d).cfg;
    assert StoreFlag(c.adv) == c.adv && StoreFlag(c.disabled) == c.disabled;
    assert StoreFlag(c.enabled) == c.enabled;
    assert StoreListId(c.wordlist) == c.wordlist && StoreListId(c.audioList) == c.audioList;
  }

  /** What `save` leaves behind: the updated object, the domain table (or
      none when the configuration has no table), and whether the table was
      handed to storage (`cfg.save('domains')`). */
  datatype SaveResult = SaveResult(domain: Domain, domains: Option<Dict<DomainCfg>>, written: bool)

  /** `Domain.save`. */
  function Save(d: Domain, domains: Option<Dict<DomainCfg>>): (r: SaveResult)
    ensures domains.None? ==> r == SaveResult(d, None, false)
    ensures domains.Some? ==> r.written && r.domains.Some? && r.domain == UpdateCfg(d)
    ensures domains.Some? && IsEmptyRecord(r.domain.cfg) ==> d.cfgKey !in Keys(r.domains.value)
    ensures domains.Some? && !IsEmptyRecord(r.domain.cfg) ==>
              Get(r.domains.value, d.cfgKey) == Some(r.domain.cfg)
    ensures domains.Some? ==>
              forall k :: k != d.cfgKey ==> Get(r.domains.value, k) == Get(domains.value, k)
  {
    if domains.None? then SaveResult(d, None, false)
    else
      var u := UpdateCfg(d);
      var table := if IsEmptyRecord(u.cfg) then Remove(domains.value, d.cfgKey)
                   else Set(domains.value, d.cfgKey, u.cfg);
      SaveResult(u, Some(table), true)
  }

  /** A domain with no flag set and no page lists is removed from the
      table rather than stored as `{}`. */
  lemma SaveRemovesDefaultDomain(d: Domain, domains: Dict<DomainCfg>)
    requires !IsTrue(d.advanced) && !IsTrue(d.disabled) && !IsTrue(d.enabled)
    requires d.wordlistId.None? || d.wordlistId.value < 0
    requires d.audioWordlistId.None? || d.audioWordlistId.value < 0
    requires d.cfg.enabledPages.None? && d.cfg.disabledPages.None?
    ensures d.cfgKey !in Keys(Save(d, Some(domains)).domains.value)
  {
  }

  // ---------------------------------------------------------------------
  // Sorting keys for display

  /** The last `.` of `k`, if any. */
  function LastDot(k: string): (r: Option<nat>)
    ensures r.Some? ==> r.value < |k| && k[r.value] == '.'
    ensures r.Some? ==> forall i :: r.value < i < |k| ==> k[i] != '.'
    ensures r.None? ==> forall i :: 0 <= i < |k| ==> k[i] != '.'
  {
    if |k| == 0 then None
    else if k[|k| - 1] == '.' then Some(|k| - 1)
    else LastDot(k[..|k| - 1])
  }

  /** The start of the run of `\w` characters that ends just before
      position `end`. */
  function RunStart(k: string, end: nat): (s: nat)
    requires end <= |k|
    ensures s <= end
    ensures forall i :: s <= i < end ==> IsWordChar(k[i])
    ensures s > 0 ==> !IsWordChar(k[s - 1])
  {
    if end == 0 || !IsWordChar(k[end - 1]) then end else RunStart(k, end - 1)
  }

  /** `k.slice(p)` has the shape `\w*\.\w*`. */
  predicate SuffixShapeAt(k: string, p: nat, dot: nat) {
    && p <= dot < |k| && k[dot] == '.'
    && (forall i :: p <= i < dot ==> IsWordChar(k[i]))
    && (forall i :: dot < i < |k| ==> IsWordChar(k[i]))
  }

  /** Where `/\w*\.\w*$/` starts to match in `k`, if it matches: the
      run of `\w` before the last `.`, provided only `\w` follows it. */
  function MatchStart(k: string): (r: Option<nat>)
    ensures r.Some? ==> r.value <= |k|
  {
    match LastDot(k)
    case None => None
    case Some(dot) =>
      if forall i :: dot < i < |k| ==> IsWordChar(k[i]) then Some(RunStart(k, dot)) else None
  }

  /** `MatchStart` finds a match of the pattern, the leftmost one, and
      finds one whenever there is one. */
  lemma MatchStartIsLeftmost(k: string)
    ensures MatchStart(k).Some? ==> LastDot(k).Some? && SuffixShapeAt(k, MatchStart(k).value, LastDot(k).value)
    ensures forall p: nat, dot: nat :: SuffixShapeAt(k, p, dot) ==> MatchStart(k).Some? && MatchStart(k).value <= p
  {
    forall p: nat, dot: nat | SuffixShapeAt(k, p, dot)
      ensures MatchStart(k).Some? && MatchStart(k).value <= p
    {
      assert LastDot(k) == Some(dot);
    }
  }

  /** `k.match(/\w*\.\w*$/)[0]`, or nothing when there is no match. */
  function RegistrableSuffix(k: string): (r: Option<string>)
    ensures r.Some? <==> MatchStart(k).Some?
    ensures r.Some? ==> r.value == k[MatchStart(k).value..]
  {
    match MatchStart(k)
    case None => None
    case Some(p) => Some(k[p..])
  }

  /** The sort key of `sortedKeys`; a key without a match compares as "". */
  function SortKey(k: string): string {
    RegistrableSuffix(k).GetOr("")
  }

  /** The comparator of `sortedKeys`. */
  predicate BySortKey(a: string, b: string) {
    LexLess(SortKey(a), SortKey(b))
  }

  lemma BySortKeyIsStrict()
    ensures Sorting.StrictOrder(BySortKey)
  {
    forall a
      ensures !BySortKey(a, a)
    {
      LexLessIrreflexive(SortKey(a));
    }
    forall a, b, c | BySortKey(a, b) && BySortKey(b, c)
      ensures BySortKey(a, c)
    {
      LexLessTransitive(SortKey(a), SortKey(b), SortKey(c));
    }
  }

  /** `Domain.sortedKeys`: the keys, in `Object.keys` order, sorted
      stably by their last two labels. With two
      or more keys every key reaches the comparator, which throws (`null[0]`)
      on a key without a match; a single key is never compared. */
  function SortedKeys(domains: Dict<DomainCfg>): (r: Result<seq<string>, string>)
    ensures r.Err? <==> |domains| >= 2 && exists i :: 0 <= i < |domains| && RegistrableSuffix(domains[i].0).None?
    ensures r.Ok? ==> multiset(r.value) == multiset(Keys(domains))
    ensures r.Ok? ==> forall i, j :: 0 <= i < j < |r.value| ==> !LexLess(SortKey(r.value[j]), SortKey(r.value[i]))
  {
    var keys := ObjectKeys(domains);
    if |domains| >= 2 && exists i :: 0 <= i < |domains| && RegistrableSuffix(domains[i].0).None? then
      Err("TypeError: Cannot read properties of null")
    else
      BySortKeyIsStrict();
      Sorting.SortSorted(keys, BySortKey);
      Ok(Sorting.Sort(keys, BySortKey))
  }
}
