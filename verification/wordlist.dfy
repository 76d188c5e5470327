/** The words of one list, longest first (src/script/lib/wordlist.ts).
    `Word` and its regular expression are built by code outside this model,
    so they enter as the functions `makeWord` and `regExpOf`. */
module WordlistModel {
  import opened Base
  import opened Seqs
  import opened Dicts
  import Sorting
  import Text

  /** The stored settings of one word (`cfg.words[word]`): the lists it
      belongs to (absent when not an array), its match method and its own
      substitute. */
  datatype WordCfg = WordCfg(lists: Option<seq<int>>, matchMethod: int, sub: Option<string>)

  /** `all`, `list` and `regExps`: the words, their texts and their
      expressions. */
  datatype Wordlist<W, R> = Wordlist(all: seq<W>, list: seq<string>, regExps: seq<R>)

  /** List id 0 takes every word; a word whose `lists` is not an array is in
      every list; otherwise the word's `lists` must contain the id. */
  predicate InList(wordlistId: int, cfg: WordCfg) {
    wordlistId == 0 || cfg.lists.None? || wordlistId in cfg.lists.value
  }

  /** `word` is configured and belongs to the list. */
  predicate Selects(words: Dict<WordCfg>, wordlistId: int, word: string) {
    Get(words, word).Some? && InList(wordlistId, Get(words, word).value)
  }

  function Selector(words: Dict<WordCfg>, wordlistId: int): string -> bool {
    word => Selects(words, wordlistId, word)
  }

  /** The texts the constructor keeps: the configured words in
      `Object.keys` order, sorted longest first (stable for equal lengths),
      then those of the list. */
  function ListOf(words: Dict<WordCfg>, wordlistId: int): seq<string> {
    Filter(Sorting.Sort(ObjectKeys(words), Sorting.LongerFirst), Selector(words, wordlistId))
  }

  /** The three sequences have one entry per word, and entry `i` of each
      describes the word `list[i]`. */
  predicate Aligned<W(==), R(==)>(wl: Wordlist<W, R>, words: Dict<WordCfg>,
                          makeWord: (string, WordCfg) -> W, regExpOf: W -> R) {
    && |wl.all| == |wl.list| == |wl.regExps|
    && forall i :: 0 <= i < |wl.list| ==>
         && Get(words, wl.list[i]).Some?
         && wl.all[i] == makeWord(wl.list[i], Get(words, wl.list[i]).value)
         && wl.regExps[i] == regExpOf(wl.all[i])
  }

  /** `new Wordlist(cfg, wordlistId)`. */
  method NewWordlist<W(==), R(==)>(words: Dict<WordCfg>, wordlistId: int,
                           makeWord: (string, WordCfg) -> W, regExpOf: W -> R)
    returns (wl: Wordlist<W, R>)
    ensures wl.list == ListOf(words, wordlistId)
    ensures Aligned(wl, words, makeWord, regExpOf)
  {
    var sorted := Sorting.Sort(ObjectKeys(words), Sorting.LongerFirst);
    wl := AddWords(words, wordlistId, sorted, makeWord, regExpOf);
  }

  /** The `forEach` of the constructor over the sorted texts: each text
      of the list gets its word and its expression. */
  method AddWords<W(==), R(==)>(words: Dict<WordCfg>, wordlistId: int, sorted: seq<string>,
                                makeWord: (string, WordCfg) -> W, regExpOf: W -> R)
    returns (wl: Wordlist<W, R>)
    ensures wl.list == Filter(sorted, Selector(words, wordlistId))
    ensures Aligned(wl, words, makeWord, regExpOf)
  {
    var sel := Selector(words, wordlistId);
    var all: seq<W>, list: seq<string>, regExps: seq<R> := [], [], [];
    var i := 0;
    while i < |sorted|
      invariant 0 <= i <= |sorted|
      invariant list == Filter(sorted[..i], sel)
      invariant Aligned(Wordlist(all, list, regExps), words, makeWord, regExpOf)
    {
      var word := sorted[i];
      FilterPrefix(sorted, i, sel);
      if sel(word) {
        var w := makeWord(word, Get(words, word).value);
        AlignedSnoc(Wordlist(all, list, regExps), words, makeWord, regExpOf, word);
        all, list, regExps := all + [w], list + [word], regExps + [regExpOf(w)];
      }
      i := i + 1;
    }
    assert sorted[..i] == sorted;
    wl := Wordlist(all, list, regExps);
  }

  lemma AlignedSnoc<W, R>(wl: Wordlist<W, R>, words: Dict<WordCfg>,
                          makeWord: (string, WordCfg) -> W, regExpOf: W -> R, word: string)
    requires Aligned(wl, words, makeWord, regExpOf) && Get(words, word).Some?
    ensures var w := makeWord(word, Get(words, word).value);
            Aligned(Wordlist(wl.all + [w], wl.list + [word], wl.regExps + [regExpOf(w)]), words, makeWord, regExpOf)
  {
  }

  /** The kept texts are ordered longest first by their `length` in UTF-16
      code units, each occurs once, and a configured word is kept exactly
      when it belongs to the list. */
  lemma ListOfProperties(words: Dict<WordCfg>, wordlistId: int)
    ensures forall i, j :: 0 <= i < j < |ListOf(words, wordlistId)| ==>
              Text.Utf16Length(ListOf(words, wordlistId)[i]) >= Text.Utf16Length(ListOf(words, wordlistId)[j])
    ensures Distinct(ListOf(words, wordlistId))
    ensures forall w :: w in ListOf(words, wordlistId) <==> w in Keys(words) && InList(wordlistId, Get(words, w).value)
  {
    var keys := ObjectKeys(words);
    var sorted := Sorting.Sort(keys, Sorting.LongerFirst);
    var sel := Selector(words, wordlistId);
    var list := ListOf(words, wordlistId);
    Sorting.LongerFirstIsStrict();
    Sorting.SortSorted(keys, Sorting.LongerFirst);
    Sorting.FilterSorted(sorted, sel, Sorting.LongerFirst);
    DistinctPermutation(keys, sorted);
    DistinctFilter(sorted, sel);
    FilterSpec(sorted, sel);
    forall w
      ensures w in list <==> w in Keys(words) && InList(wordlistId, Get(words, w).value)
    {
      if w in keys {
        assert w in multiset(sorted);
      }
      if w in list {
        assert w in multiset(keys);
      }
    }
  }

  /** `length` counts UTF-16 code units: "\U{1F595}" and "ab" both have
      length 2, so the stable sort keeps them in the order they were
      created. */
  lemma AstralWordTiesTwoLetters(c: WordCfg)
    ensures ListOf([("\U{1F595}", c), ("ab", c)], 0) == ["\U{1F595}", "ab"]
  {
    var words: Dict<WordCfg> := [("\U{1F595}", c), ("ab", c)];
    var keys := ["\U{1F595}", "ab"];
    assert Keys(words) == keys;
    LetterKeyIsPlain("\U{1F595}");
    LetterKeyIsPlain("ab");
    ObjectKeysOfPlain(words);
    Sorting.LongerFirstCountsCodeUnits();
    assert Sorting.SortedBy(keys, Sorting.LongerFirst);
    Sorting.SortOfSorted(keys, Sorting.LongerFirst);
    FilterKeepsAll(keys, Selector(words, 0));
  }

  /** With list id 0 every configured word is kept. */
  lemma ListZeroKeepsAll(words: Dict<WordCfg>)
    ensures forall w :: w in Keys(words) ==> w in ListOf(words, 0)
  {
    ListOfProperties(words, 0);
  }

  /** `find(value)` for a string: the word at the text's position in
      `list`, or `undefined` when the text is not there. */
  function FindByText<W(==), R>(wl: Wordlist<W, R>, value: string): (r: Option<W>)
    ensures r.Some? ==> value in wl.list
    ensures |wl.all| == |wl.list| ==> (r.Some? <==> value in wl.list)
    ensures r.Some? ==> exists i :: 0 <= i < |wl.list| && i < |wl.all| && wl.list[i] == value && r.value == wl.all[i]
  {
    if value in wl.list && IndexOf(wl.list, value) < |wl.all| then Some(wl.all[IndexOf(wl.list, value)])
    else None
  }

  /** `find(value)` for a number: `all[value]`, `undefined` out of range. */
  function FindByIndex<W(==), R>(wl: Wordlist<W, R>, n: int): (r: Option<W>)
    ensures r.Some? <==> 0 <= n < |wl.all|
    ensures r.Some? ==> r.value == wl.all[n]
  {
    if 0 <= n < |wl.all| then Some(wl.all[n]) else None
  }

  /** In a constructed wordlist both lookups agree: the word found by its
      text is the word found by the text's position, and it is the word
      built from that text's settings. */
  lemma FindAgrees<W, R>(wl: Wordlist<W, R>, words: Dict<WordCfg>, wordlistId: int,
                         makeWord: (string, WordCfg) -> W, regExpOf: W -> R, i: nat)
    requires wl.list == ListOf(words, wordlistId) && Aligned(wl, words, makeWord, regExpOf)
    requires i < |wl.list|
    ensures FindByText(wl, wl.list[i]) == FindByIndex(wl, i)
    ensures FindByText(wl, wl.list[i]) == Some(makeWord(wl.list[i], Get(words, wl.list[i]).value))
  {
    ListOfProperties(words, wordlistId);
    var j := IndexOf(wl.list, wl.list[i]);
    assert j == i;
  }
}
