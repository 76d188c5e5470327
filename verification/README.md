# Advanced Profanity Filter — core model in Dafny

This project models the core of a browser extension that filters
profanity out of web pages and out of video subtitles. The model covers:

- the per-domain settings record (`Domain`): lookup by hostname with
  wildcard keys, the stored form, saving, and the display order;
- the word list built from the configured words (`Wordlist`);
- the page filter (`WebFilter`):
  - the text replacement result and the node walk;
  - the mutation handler and the decision whether a page is disabled;
  - the summary of matched words, the navigation watcher and the
    counter badge;
- subtitle muting (`WebAudio`):
  - mute and unmute;
  - YouTube auto-subtitles and subtitle cleaning;
  - the per-site node test that the source generates as code, modelled
    here as an interpreter;
- the background page's message handler, and its "toggle domain" and
  "process selection" commands;
- the storage layout of the settings object:
  - splitting a large field into numbered chunk keys (`_words0`,
    `_words1`, …) and combining them back;
  - the public view that hides `_`-prefixed keys.

Browser objects are replaced by values and function parameters:

- Pure collaborators are parameters: the word replacer, the forbidden-node
  test, the page matcher, the stored-word constructor, selector lookups and
  the save result.
- Messages sent to other scripts are returned as data.
- The settings object is a `Dict`: a sequence of (key, value) pairs with
  distinct keys, in creation order. `Object.keys` does not list them in
  that order: it puts array-index keys (canonical numerals below
  2^32 - 1, such as the word "69") first, in ascending numeric order, and
  then the other keys in creation order. `Dicts.ObjectKeys` models this,
  and the word list, the domain key search, `sortedKeys` and the
  corrected `disabledPage` lookup use it. `Dicts.EntriesInKeyOrder` gives
  the pairs in that order, as `Object.entries` and `for...in` enumerate
  them, and splitting a setting into chunks packs them in that order.
  Combining chunks and the ordered view sort their keys by a strict order,
  so for them the starting order does not matter.
- String lengths are JavaScript's `length`: UTF-16 code units
  (`Text.Utf16Length`), so a character above U+FFFF counts twice.

Modules:

- `Base`, `Seqs`, `Dicts`, `Text`, `Decimal` and `Sorting` are shared
  helpers. `Sorting` holds a stable sort with a sortedness and
  permutation contract.
- `DomainModel` models `src/script/domain.ts`.
- `WordlistModel` models `src/script/lib/wordlist.ts`.
- `DomTree` and `WebFilterModel` model `src/script/webFilter.ts`.
- `WebAudioModel` and `AudioSites` model `src/script/webAudio.ts`.
- `EventPageModel` models `src/script/eventPage.ts`.
- `WebConfigModel` models the settings storage as exercised by
  `test/webConfig.spec.js`. `webConfig.ts` itself is not part of this
  model, so this module is built to meet those tests and the names they
  use:
  - Chunk indices are canonical decimal numerals.
  - Each entry has an abstract size, and a chunk's size is the sum of its
    entries' sizes. JSON punctuation is folded into the entry sizes.
  - A chunk of more than one entry stays within the byte limit.
  - Combining merges the chunks in index order, and the last chunk wins.
  - `ordered()` keeps the public keys in key order.

## Model

| member | source | states |
|---|---|---|
| DomainModel.FindDomainKey | src/script/domain.ts:33-36 | The key returned matches the hostname (`(^\|.)key$`, where `.` matches any character) and no key longer in UTF-16 `length` matches. None is returned exactly when no key matches. |
| DomainModel.FirstInLengthOrderIsLongest | src/script/domain.ts:34-35 | In a longest-first ordering of the keys, the first key that matches has no longer matching key anywhere in the table. |
| DomainModel.ByHostname | src/script/domain.ts:22-27 | The record keeps the hostname. When some non-empty key matches, its key is a longest matching key. When none does, its key is the hostname itself: the empty key is falsy in `findDomainKey(...) \|\| hostname`. Its settings are the stored record under that key, or the defaults. Its flags mirror those settings. |
| DomainModel.ByHostnameExactKey | src/script/domain.ts:22-36 | When the hostname is itself a key, the chosen key has the hostname's length, in characters and in UTF-16 code units. |
| DomainModel.MatchNoLonger | src/script/domain.ts:34-35 | A matching key is no longer in UTF-16 units than the hostname, and shorter by at least one unit per hostname character it does not cover. |
| DomainModel.ExactKeyCanLoseToWildcard | src/script/domain.ts:33-36 | An exact key can lose to a same-length key whose `.` acts as a wildcard. Example: "a.b.com" is chosen for "a-b.com" when it comes first. |
| DomainModel.ByKey | src/script/domain.ts:29-31 | The record for a key holds that key's stored settings, or the defaults, and its flags mirror them. |
| DomainModel.NewDomain | src/script/domain.ts:55-65 | The constructor keeps the key and takes the given settings or the all-absent defaults. Its flags mirror the settings, so with no stored record every flag is absent. |
| DomainModel.UpdateFromCfg | src/script/domain.ts:90-96 | The five flags are copied from the settings, and the key, settings and hostname stay unchanged. |
| DomainModel.UpdateCfg | src/script/domain.ts:82-88 | Each stored flag is true exactly when the record's flag is true, and absent otherwise. A list id is stored exactly when it is non-negative. Page lists and every non-settings field are kept. |
| DomainModel.StoredRecordIsFixpoint | src/script/domain.ts:82-96 | Writing the flags, reading them back and writing again gives the same stored record. Writing twice equals writing once. |
| DomainModel.Save | src/script/domain.ts:68-80 | Without a domains table nothing is written. Otherwise the record is brought up to date, it is deleted when empty and stored under its key when not, and every other key is kept. |
| DomainModel.SaveRemovesDefaultDomain | src/script/domain.ts:72-73 | A record with no flags, no list ids and no page lists is removed from the table. |
| DomainModel.MatchStartIsLeftmost | src/script/domain.ts:49-50 | `\w*\.\w*$` matches at the leftmost position that starts a run of word characters, a dot, and word characters up to the end. |
| DomainModel.RegistrableSuffix | src/script/domain.ts:49-50 | The suffix exists exactly when the pattern matches, and it is the key from the match position on. |
| DomainModel.SortedKeys | src/script/domain.ts:47-53 | The sort fails (a `null[0]` TypeError) exactly when there are two or more keys and one of them has no suffix. Otherwise the result is a permutation of the keys, ordered by suffix. |
| WordlistModel.NewWordlist | src/script/lib/wordlist.ts:9-30 | `list` is the configured words in `Object.keys` order, sorted stably longest first by UTF-16 `length`, then filtered by the list id. `all` and `regExps` hold one entry per word, built from that word's settings. |
| WordlistModel.AddWords | src/script/lib/wordlist.ts:20-29 | The loop keeps exactly the sorted words that are in the list, in order. Each kept word gets the word built from its settings and that word's expression, at the same position. |
| WordlistModel.ListOfProperties | src/script/lib/wordlist.ts:15-29 | The kept words are in non-increasing order of UTF-16 `length` and occur once each. A word is kept exactly when it is configured and in the list (id 0, lists not an array, or lists containing the id). |
| WordlistModel.AstralWordTiesTwoLetters | src/script/lib/wordlist.ts:16-18 | "\U{1F595}" and "ab" both have `length` 2, so the stable sort keeps them in creation order. |
| Sorting.LongerFirstCountsCodeUnits | src/script/lib/wordlist.ts:16-18 | The comparator `b.length - a.length` ties "\U{1F595}" with "ab" and puts "\U{1F595}" before "a". |
| WordlistModel.ListZeroKeepsAll | src/script/lib/wordlist.ts:22-23 | List id 0 keeps every configured word. |
| WordlistModel.FindByText | src/script/lib/wordlist.ts:33-34 | A string lookup finds a word only for a text in `list`, and always does so when `all` and `list` are aligned. The word found sits at the text's position. |
| WordlistModel.FindByIndex | src/script/lib/wordlist.ts:35-36 | A number lookup gives `all[n]` when `n` is in range, and undefined otherwise. |
| WordlistModel.FindAgrees | src/script/lib/wordlist.ts:32-38 | In a built word list, finding a word by its text and by its position give the same word, built from that word's settings. |
| WebFilterModel.ReplaceTextResult | src/script/webFilter.ts:288-294 | The result keeps the original and the replaced text. It is marked modified exactly when the replaced text differs. |
| WebFilterModel.CleanLeaf | src/script/webFilter.ts:143-154 | A leaf changes exactly when it has a name, its text is not blank, and replacing the text changes it. When it changes, the new text is the replaced text. |
| WebFilterModel.WalkTextsIsMapTexts | src/script/webFilter.ts:133-142 | Walking the text nodes of a tree rewrites each text node by the leaf rule, judged with that node's own ancestors, and leaves everything else alone. |
| WebFilterModel.CleanNode | src/script/webFilter.ts:129-155 | A forbidden node is returned unchanged. No node is renamed, and a text node stays a text node. A tree node keeps its shape. A leaf changes exactly when it has a name, its text is not blank and replacing the text changes it. |
| WebFilterModel.CleanNodeSpec | src/script/webFilter.ts:129-155 | A forbidden node is untouched. A tree node keeps its shape. Its i-th text node is kept when the classifier forbids it under its own ancestors or it is blank, and is replaced otherwise. A leaf changes exactly when the leaf rule says so. |
| WebFilterModel.ScriptTextKept | src/script/webFilter.ts:130-141 | With a classifier that forbids text below a `SCRIPT` element, the same text is kept inside the script and cleaned in a sibling paragraph. |
| WebFilterModel.CleanNodeIdentity | src/script/webFilter.ts:129-155 | With a replacer that changes nothing, cleaning changes nothing. |
| WebFilterModel.PagePolicy | src/script/webFilter.ts:223-230 | For a disabled domain, the page is disabled unless it matches the enabled pages. Otherwise the page is disabled exactly when it matches the disabled pages. |
| WebFilterModel.DisabledPage | src/script/webFilter.ts:210-234 | As written: only the hostname's own record is consulted, so a hostname without a record is never disabled. |
| WebFilterModel.DisabledParentIgnored | src/script/webFilter.ts:215-220 | A disabled "example.com" does not disable "www.example.com" as written, but does under the corrected lookup. |
| WebFilterModel.PageConfig | src/script/webFilter.ts:213-220 | Corrected lookup: the hostname's own record. Otherwise, the record of the first key in `Object.keys` order that the `(^\|.)key` pattern finds in the hostname (case-insensitive). No earlier key is found. None is returned when no key is found. |
| WebFilterModel.DisabledPageCorrected | src/script/webFilter.ts:210-234 | Corrected policy: no record gives not disabled, and otherwise the page policy of the record found. |
| WebFilterModel.DisabledPageAgreesOnExactKey | src/script/webFilter.ts:213-214 | When the hostname has its own record, the as-written and the corrected versions agree. |
| WebFilterModel.AddedNodePrecedence | src/script/webFilter.ts:81-102 | A forbidden added node is left alone. Otherwise the branch taken is the first whose guard holds: auto-subtitles, then audio node, then advanced with a parent, then plain cleaning. |
| WebFilterModel.CheckMutationTarget | src/script/webFilter.ts:116-127 | A text target is rewritten exactly when it is not forbidden under its ancestors and replacing its data changes it, and then its data is the replaced text. |
| WebFilterModel.RescanIsCleanNode | src/script/webFilter.ts:116-155 | On a non-blank text node, re-checking the target gives the same node as cleaning it. |
| WebFilterModel.UnmuteOnlyInMutePage | src/script/webFilter.ts:104-108 | Removed nodes never unmute outside a mute page. |
| WebFilterModel.CheckMutation | src/script/webFilter.ts:78-114 | Each added node gets the action the branch precedence gives. The number of unmutes is the number of removed nodes that are audio nodes on a mute page, so none outside a mute page. A text target is rescanned by `checkMutationTargetTextForProfanity`. A target that is absent or not text is left alone. |
| WebFilterModel.TargetIndependent | src/script/webFilter.ts:110-113 | What happens to the target does not depend on the added or removed nodes. |
| WebFilterModel.FoundMatch | src/script/webFilter.ts:236-252 | Without a summary nothing changes. A word already in the summary gains one count. A new word is added with count 1 and its summary text: the word's own substitute or the default for regular-expression words, and the replacer's output otherwise. A new word that is not configured throws. No other entry changes. |
| WebFilterModel.FoundMatchCounts | src/script/webFilter.ts:238-250 | One sighting of a configured word adds one to its count and to no other count. |
| WebFilterModel.FoundMatchesCounts | src/script/webFilter.ts:236-252 | After a run of sightings, each word's count rises by the number of its sightings. |
| WebFilterModel.FoundMatchesFiltered | src/script/webFilter.ts:239-249 | A word's summary text is fixed by its first sighting and never changes afterwards. A word that was never seen has no entry. |
| WebFilterModel.NavigationStep | src/script/webFilter.ts:270-280 | A toggle happens exactly when the address changed and the recomputed policy differs from the current state. Deactivation goes with disabled, and activation with enabled. The address is always recorded. |
| WebFilterModel.NavigationBatchAtMostOnce | src/script/webFilter.ts:269-281 | A batch of mutations toggles at most once. It toggles exactly when the batch is non-empty, the address changed and the policy differs. |
| WebFilterModel.NavigationNeverToggles | src/script/webFilter.ts:265-286 | Because the as-written page policy ignores the address, a state that already agrees with it is never toggled. |
| WebFilterModel.UpdateCounterBadge | src/script/webFilter.ts:296-307 | Nothing is sent for a zero count. For a positive count one message is sent per shown item. A counter message is sent exactly when the count is positive and the counter is shown, and it comes first, carrying a decimal text that reads back as the count. A summary message is sent exactly when the count is positive and the summary is shown, and it carries the summary. |
| DomTree.MapTexts | src/script/webFilter.ts:133-142 | Mapping the texts keeps the tree's shape. The texts in order are the originals mapped together with their ancestors' names. |
| DomTree.LocatedData | src/script/webFilter.ts:133-135 | Dropping the ancestors from the located texts gives exactly the texts the walker visits, in document order. |
| DomTree.MapTextsIdentity | src/script/webFilter.ts:133-142 | Mapping with the identity gives the same tree back. |
| WebAudioModel.InitialState | src/script/webAudio.ts:19-28 | A new state is unmuted, with an unmute delay of 0 and a saved volume of 1. |
| WebAudioModel.Mute | src/script/webAudio.ts:138-156 | Muting is a no-op when already muted. Otherwise the state becomes muted, and then: method 0 sends `mute: true` and leaves the video alone; method 1 saves the video's volume and sets it to 0 when the video has a volume, sending nothing. The saved volume changes only in that case. With any other method, or with no volume, the world is untouched. Nothing else in the state changes. |
| WebAudioModel.Unmute | src/script/webAudio.ts:162-177 | The state becomes unmuted, and nothing else in it changes. Method 0 sends `mute: false`. Method 1 writes the saved volume back to a video that has a volume. With any other method, or with no volume, the world is untouched. |
| WebAudioModel.MuteIdempotent | src/script/webAudio.ts:138-139 | Muting twice equals muting once. |
| WebAudioModel.UnmuteRestoresVolume | src/script/webAudio.ts:146-151 | With method 1, muting then unmuting gives back the video's original volume, and no message is sent. |
| WebAudioModel.MuteUnmuteMessages | src/script/webAudio.ts:143-145 | With method 0, muting then unmuting sends `true` then `false`. |
| WebAudioModel.UnmuteWithoutMute | src/script/webAudio.ts:169-173 | Unmuting a fresh state with method 1 sets the video's volume to 1, whatever it was. |
| WebAudioModel.CleanYouTubeAutoSubs | src/script/webAudio.ts:112-136 | A text that needs filtering is replaced, the audio is muted as `mute()` does (message or video volume), the delay is cleared and the badge is updated. A clean text while unmuted changes nothing. A clean text with a zero minimum unmutes. The only error is reading the current time when there is no video. |
| WebAudioModel.AutoSubsTimer | src/script/webAudio.ts:121-130 | The first clean text starts the delay at the current time. Later clean texts first reset the delay to 0 when the video went backwards, and then unmute exactly when the current time passes the delay plus the minimum. |
| WebAudioModel.AutoSubsTimerExample | src/script/webAudio.ts:126-129 | With delay 10 and minimum 5, the audio unmutes at time 16 and stays muted at time 14. |
| WebAudioModel.Clean | src/script/webAudio.ts:85-110 | The subtitles are the selector's matches when the site has a selector, and the container otherwise. `filtered` is set exactly when some subtitle needs filtering, and the state is then muted as `mute()` does. Otherwise state and world are unchanged. Every subtitle is replaced, or blanked in the display modes that hide it. The last filtered node is the last text subtitle that needed filtering, and it is left as it was exactly when no text subtitle needed filtering. |
| AudioSites.WhenTruthy | src/script/webAudio.ts:74-78 | A template clause is present exactly when its setting is truthy. |
| AudioSites.BuildSupportedNode | src/script/webAudio.ts:56-83 | A text-parent selector gives the plain-text test. Otherwise a missing tag name throws "tagName is required.", and a present one gives the tag test with the upper-cased tag. |
| AudioSites.SupportedNode | src/script/webAudio.ts:56-83 | Building the test fails exactly when there is neither a text-parent selector nor a tag name. |
| AudioSites.SupportedNodeMeaning | src/script/webAudio.ts:60-82 | The generated test accepts a text node inside the document's first match of the text-parent selector. Otherwise it accepts a node with the upper-cased tag that meets each constraint given: class, dataset property, element children, subtitle selector and contains selector. |
| AudioSites.ConstraintNarrows | src/script/webAudio.ts:74 | Adding a class constraint only narrows the nodes accepted. |
| AudioSites.DefaultSitesBuild | src/script/webAudio.ts:39-54 | Every built-in site builds a node test without throwing. |
| AudioSites.NewWebAudio | src/script/webAudio.ts:19-37 | Custom sites override the built-in ones key by key. The page is supported exactly when its hostname has a site, and it is YouTube exactly when it is supported and the host is "www.youtube.com". A supported page gets the site's subtitle selector and node test. Construction throws exactly when the site's test cannot be built. |
| AudioSites.SiteMergeIdempotent | src/script/webAudio.ts:25 | Merging the custom sites into the shared table a second time changes no lookup. |
| AudioSites.YouTubeSetup | src/script/webAudio.ts:31-36 | YouTube is supported, with the `span.ytp-caption-segment` selector and a `DIV`/`caption-window` test. |
| EventPageModel.OnMessage | src/script/eventPage.ts:37-75 | Every call addresses the sender's tab. Without a tab the handler throws exactly when it reaches an unguarded `sender.tab.id`, and then it makes no call. |
| EventPageModel.DisabledSetsOnlyIcon | src/script/eventPage.ts:39-40 | A `disabled: true` message sets only the disabled icon. |
| EventPageModel.BadgeColorPrecedence | src/script/eventPage.ts:46-54 | The badge colour is set exactly when `setBadgeColor` is truthy, and it is set first. It is green for a mute page, red for advanced, and blue otherwise, in that precedence. |
| EventPageModel.CounterSetsBadgeText | src/script/eventPage.ts:57-59 | The badge text is set exactly when a counter is present, and to that counter. |
| EventPageModel.MuteFollowsRequest | src/script/eventPage.ts:62-64 | Without `clearMute`, the tab's mute state is set exactly when `mute` is present, and to that value. |
| EventPageModel.ClearMuteOnlyOwnMute | src/script/eventPage.ts:67-72 | Without `mute`, `clearMute` unmutes only a present tab that this extension muted, and it only ever unmutes. |
| EventPageModel.CounterBadgeRoundTrip | src/script/eventPage.ts:57-59 | The counter message the page filter sends becomes one badge-text call whose text reads back as the count. |
| EventPageModel.Flip | src/script/eventPage.ts:97-99 | `!x` is a present boolean that is true exactly when `x` was not true. |
| EventPageModel.ToggleFlags | src/script/eventPage.ts:95-100 | "disable" flips `enabled` when only enabled domains are filtered, and `disabled` otherwise. "advanced" flips `advanced`. Every other flag and field is kept, and any other action changes nothing. |
| EventPageModel.ToggleTwice | src/script/eventPage.ts:95-100 | Toggling twice restores every flag's truth value and the stored record. |
| EventPageModel.ToggleDomain | src/script/eventPage.ts:91-104 | The record toggled is the one `Domain.byHostname` chooses, and it keeps the hostname. Its stored flags are flipped as the action says. Other keys are unchanged. The tab reloads exactly when the save reports no error. |
| EventPageModel.ToggleDomainTargetsLongestMatch | src/script/eventPage.ts:91-104 | The record toggled is stored under the longest non-empty configured key that matches the hostname, or under the hostname itself when there is none. No other record changes. |
| EventPageModel.ProcessSelection | src/script/eventPage.ts:81-89 | The settings are saved exactly when the edit reports a change. The tab reloads exactly when it was saved and the save result is falsy. |
| EventPageModel.RepeatedSelectionIsQuiet | src/script/eventPage.ts:81-89 | Choosing a selection again, once the edit has nothing left to change (a word already added), saves nothing, reloads nothing and keeps the settings. |
| EventPageModel.RunSelections | src/script/eventPage.ts:81-89 | Over a run of selections taken one after another, each of which reads the stored settings afresh, there are at most as many reloads as selections, and storage changes only when a reload happened. |
| EventPageModel.UnchangedSelectionIsNoOp | src/script/eventPage.ts:81-89 | Whatever came before, a selection whose edit reports no change on the stored settings leaves storage and the reload count as they were. |
| EventPageModel.RepeatedSelectionRunsOnce | src/script/eventPage.ts:81-89 | When the edit leaves nothing more to change after a change, choosing the same selection twice in a row has the effect of choosing it once. When the first save failed, this needs a save's success to depend only on the settings saved. |
| Dicts.ObjectKeys | src/script/lib/wordlist.ts:16 | `Object.keys` lists every key of the object exactly once. |
| Dicts.ObjectKeysOrder | src/script/lib/wordlist.ts:16 | In `Object.keys` an array-index key is preceded only by smaller array-index keys. The other keys keep their creation order. |
| Dicts.ObjectKeysExample | src/script/lib/wordlist.ts:16 | For words created as "ab", "69", "7", `Object.keys` gives "7", "69", "ab". |
| WebConfigModel.ChunkKeyRoundTrip | test/webConfig.spec.js:10-38 | Reading the index back from a chunk key gives the index. |
| WebConfigModel.ChunkIndexInverse | test/webConfig.spec.js:43-54 | Every key read as a chunk is the chunk key of its index. |
| WebConfigModel.ChunkKeyInjective | test/webConfig.spec.js:68-86 | Different indices give different chunk keys. |
| WebConfigModel.FieldIsNotChunk | test/webConfig.spec.js:43-54 | The field name itself is not one of its chunks. |
| WebConfigModel.GetDataContainerKeys | test/webConfig.spec.js:43-54 | The keys returned are exactly the field's chunk keys present, and their chunk indices strictly increase (`['_domains0', '_domains1']`). |
| WebConfigModel.DataContainerKeysSpec | test/webConfig.spec.js:43-54 | Exactly the chunk keys of the field are returned, once each, in increasing index order. None are returned when there are no chunks. |
| WebConfigModel.MergeAll | test/webConfig.spec.js:10-38 | A key is in the merge exactly when it is in some chunk. |
| WebConfigModel.MergeLastWins | test/webConfig.spec.js:10-38 | A key takes its value from the last chunk that holds it. |
| WebConfigModel.CombineData | test/webConfig.spec.js:10-38 | The chunk keys are removed, and the field holds the merge of the chunks in index order. Other keys are unchanged. The keys reported are exactly the chunk keys present, in strictly increasing index order (`['_domains0', '_domains1']`). |
| WebConfigModel.CombineKeepsEveryEntry | test/webConfig.spec.js:10-38 | An entry is in the combined field exactly when it was in some chunk. |
| WebConfigModel.SplitEntries | test/webConfig.spec.js:68-104 | Splitting gives at least one chunk. The chunks concatenate to the entries in `Object.keys` order, each chunk is non-empty when there are entries, and every chunk of more than one entry fits the limit. |
| WebConfigModel.SplitSeesOnlyEnumeration | test/webConfig.spec.js:68-104 | Two objects with the same `Object.keys` order and the same value under each key split into the same chunks. |
| WebConfigModel.SplitData | test/webConfig.spec.js:68-104 | The result holds the chunks under `_<field>0`, `_<field>1`, … in order. Read back in key order, they concatenate to the entries in `Object.keys` order. Each is non-empty when there are entries, and a chunk of more than one entry fits the limit. |
| WebConfigModel.SplitUnderMax | test/webConfig.spec.js:88-104 | Entries within the limit are stored whole under chunk 0, in `Object.keys` order, and there is no chunk 1. |
| WebConfigModel.SplitOverMax | test/webConfig.spec.js:68-86 | Entries over the limit give two or more chunks, the first holding some but not all entries. |
| WebConfigModel.SplitTwoChunks | test/webConfig.spec.js:68-86 | Two chunks result when the total exceeds the limit by less than the limit minus the largest entry. The chunk lengths sum to the number of entries. |
| WebConfigModel.SplitCombineRoundTrip | test/webConfig.spec.js:10-104 | Storing a field split into chunks and combining it again restores the field's entries in `Object.keys` order, with the same value under every key, and exactly the original entries when no key is an array index. It reports exactly the stored chunk keys. Every other key is unchanged. |
| Dicts.EntriesInKeyOrder | test/webConfig.spec.js:80-85 | The pairs as JavaScript enumerates them: keys in `Object.keys` order, the same value under every key. |
| WebConfigModel.Ordered | test/webConfig.spec.js:58-62 | The view keeps the public keys in key order, each with its stored value. |
| WebConfigModel.OrderedSpec | test/webConfig.spec.js:58-62 | A key is in the view exactly when it is public, with the same value, and the keys strictly ascend. |

## Left out

- Browser I/O has no model of its own. This covers the DOM tree walker, `MutationObserver`, `chrome.*` calls, `document.querySelector`, storage and reloads. Each appears only as a value or a function parameter.
- The replacer (`filter.replaceText`), `Page.isForbiddenNode`, `Domain.pageMatch` and the `Word` class are outside the core, so they are parameters.
- WebFilterModel.CleanNodeSpec: `Page.isForbiddenNode` is given the node and the names of its ancestors. Elements carry no attributes in this model, so a test that reads attributes such as `contenteditable` can only be approximated by names.
- `advancedReplaceText` (`findAndReplaceDOMText`) is a foreign library call. Only the choice of that branch is modelled.
- `super.foundMatch`, the counter increment and the statistics flag of `replaceTextResult` belong to the base filter class, which is not part of this model.
- `activate`, `deactivate` and `start` are left out, as is the popup summary listener, because they are message plumbing. `activate` sends no `setBadgeColor`.
- The failure of `sendMessage` inside `updateCounterBadge` is caught and ignored by the source, so the model simply returns the messages.
- `playing()` and the YouTube helper predicates (`youTubeAutoSubsPresent`, `youTubeAutoSubsSupportedNode`, `youTubeAutoSubsNodeIsSubtitleText`, `youTubeAutoSubsCurrentRow`) are DOM queries. They enter as facts about a node.
- `new Function` is not modelled: the generated source is interpreted as a predicate. Selector text that would break out of the template is left out.
- Regular expressions are modelled only for the shapes the source builds. `.` is a wildcard, the `i` flag is ASCII case folding, and the key's other metacharacters are taken literally.
- AudioSites.BuildSupportedNode: `tagName.toUpperCase()` is modelled as ASCII upper-casing (`Text.ToUpperAscii`). JavaScript's Unicode case mapping (`ß` to `SS`, for example) is left out. The `nodeName` it is compared with is upper-cased in ASCII only, so the two agree on every ASCII tag name.
- WebConfigModel.OrderedSpec: string order (`Text.LexLess`) compares characters by code point. JavaScript compares UTF-16 code units, which differs only when a character above U+FFFF meets one from U+E000 to U+FFFF.
- The context menus, notifications, migrations and install handler of the background page are not core.
- `getCurrentTab` is a browser query.
- WebConfigModel.SplitEntries: chunk size is an abstract per-entry measure rather than the length of the JSON text, because the serializer lives in `webConfig.ts`, which is not part of this model.
- WebConfigModel.SplitCombineRoundTrip: requires that the root holds no stale chunk keys of the field, because the storage layout that `webConfig.ts` writes is not part of this model.
- WebConfigModel.Ordered: sorting by key is inferred from the method's name. The test pins down only the removal of `_` keys.
- EventPageModel.ToggleTwice: states the flag-level round trip only. Over the table, a record emptied by the first toggle is deleted, so the second toggle can pick a wildcard parent key.
- EventPageModel.ToggleDomain: assumes `WebConfig.build` returns a domains table, and takes the save result as an input.
- EventPageModel.OnMessage: `counter` is the string `webFilter` sends, where the `Message` interface declares a number. `mutedInfo` is assumed present on a tab.
- EventPageModel.RunSelections: selections run one after another, and a save's success is a function of the settings saved. In the extension `processSelection` is started without being awaited, so two selections can both read storage before either saves. A storage write can also fail once and succeed when retried. Neither is modelled.
- EventPageModel.RepeatedSelectionRunsOnce: when the first save failed, the repeat acts like a single selection only under the assumptions of `RunSelections`. A write that fails once and then succeeds would reload on the repeat. When the first save succeeded, or the edit reported no change, the lemma does not depend on them.
- EventPageModel.ProcessSelection: the settings edit (`cfg[action]`) is an opaque function returning the new settings and whether it changed them.
- DomainModel.SortedKeys: the comparator is stable in this model, whereas JavaScript's sort is stable only in current engines.

## Findings

| source | as written | input that shows it | evidently intended | confidence | as-written member | corrected member |
|---|---|---|---|---|---|---|
| src/script/webFilter.ts:216-220 | `forEach` returns `undefined`, so the fallback lookup never yields a parent domain's record. A hostname without its own record is never disabled. | domains `{"example.com": {disabled: true}}`, hostname `www.example.com` | `find` over the keys, using the record of the first key whose pattern matches the hostname | high, not executed | WebFilterModel.DisabledParentIgnored | WebFilterModel.DisabledPageCorrected |
