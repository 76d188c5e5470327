/** A stable insertion sort by a strict "comes before" relation: the model
    of `Array.prototype.sort` with a comparator that returns a negative
    number exactly when its first argument comes before its second (the
    sort is stable, so elements that compare equal keep their order). */
module Sorting {
  import opened Seqs
  import Text

  /** `before` is irreflexive and transitive. */
  ghost predicate StrictOrder<T(!new)>(before: (T, T) -> bool) {
    && (forall a :: !before(a, a))
    && (forall a, b, c :: before(a, b) && before(b, c) ==> before(a, c))
  }

  /** No element comes before an element to its left. */
  predicate SortedBy<T>(s: seq<T>, before: (T, T) -> bool) {
    forall i, j :: 0 <= i < j < |s| ==> !before(s[j], s[i])
  }

  /** Places `x` in front of the first element it comes before. */
  function Insert<T>(x: T, s: seq<T>, before: (T, T) -> bool): (r: seq<T>)
    ensures multiset(r) == multiset(s) + multiset{x}
    ensures |r| == |s| + 1
  {
    if |s| == 0 then [x]
    else if before(x, s[0]) then [x] + s
    else
      assert s == [s[0]] + s[1..];
      [s[0]] + Insert(x, s[1..], before)
  }

  function Sort<T>(s: seq<T>, before: (T, T) -> bool): (r: seq<T>)
    ensures multiset(r) == multiset(s)
    ensures |r| == |s|
  {
    if |s| == 0 then []
    else
      assert s == s[..|s| - 1] + [s[|s| - 1]];
      Insert(s[|s| - 1], Sort(s[..|s| - 1], before), before)
  }

  lemma {:induction false} InsertSorted<T(!new)>(x: T, s: seq<T>, before: (T, T) -> bool)
    requires StrictOrder(before) && SortedBy(s, before)
    ensures SortedBy(Insert(x, s, before), before)
  {
    if |s| > 0 {
      var r := Insert(x, s, before);
      if before(x, s[0]) {
      } else {
        var t := Insert(x, s[1..], before);
        InsertSorted(x, s[1..], before);
        forall j | 0 <= j < |t|
          ensures !before(t[j], s[0])
        {
          assert t[j] in multiset(t);
          assert t[j] in multiset(s[1..]) || t[j] == x;
          if t[j] != x {
            assert t[j] in s[1..];
            var k :| 0 <= k < |s[1..]| && s[1..][k] == t[j];
            assert s[k + 1] == t[j];
          }
        }
        assert r == [s[0]] + t;
      }
    }
  }

  /** The sort's result is ordered by `before`. */
  lemma {:induction false} SortSorted<T(!new)>(s: seq<T>, before: (T, T) -> bool)
    requires StrictOrder(before)
    ensures SortedBy(Sort(s, before), before)
  {
    if |s| > 0 {
      SortSorted(s[..|s| - 1], before);
      InsertSorted(s[|s| - 1], Sort(s[..|s| - 1], before), before);
    }
  }

  lemma {:induction false} InsertLast<T>(x: T, s: seq<T>, before: (T, T) -> bool)
    requires forall i :: 0 <= i < |s| ==> !before(x, s[i])
    ensures Insert(x, s, before) == s + [x]
  {
    if |s| > 0 {
      InsertLast(x, s[1..], before);
      assert s == [s[0]] + s[1..];
    }
  }

  /** The comparator `(a, b) => b.length - a.length`: longer strings first,
      strings of equal length keep their order. `length` counts UTF-16
      code units, so a character above U+FFFF counts twice. */
  predicate LongerFirst(a: string, b: string) {
    Text.Utf16Length(a) > Text.Utf16Length(b)
  }

  /** "\U{1F595}" and "ab" tie, but "\U{1F595}" comes before "a". */
  lemma LongerFirstCountsCodeUnits()
    ensures !LongerFirst("\U{1F595}", "ab") && !LongerFirst("ab", "\U{1F595}")
    ensures LongerFirst("\U{1F595}", "a")
  {
    Text.Utf16LengthExample();
  }

  lemma LongerFirstIsStrict()
    ensures StrictOrder(LongerFirst)
  {
  }

  /** An already ordered sequence comes back unchanged: the sort is stable. */
  lemma {:induction false} SortOfSorted<T>(s: seq<T>, before: (T, T) -> bool)
    requires SortedBy(s, before)
    ensures Sort(s, before) == s
  {
    if |s| > 0 {
      var p := s[..|s| - 1];
      assert SortedBy(p, before);
      SortOfSorted(p, before);
      InsertLast(s[|s| - 1], p, before);
      assert s == p + [s[|s| - 1]];
    }
  }

  /** Filtering keeps the order: what is left of an ordered sequence is
      still ordered. */
  lemma {:induction false} FilterSorted<T>(s: seq<T>, p: T -> bool, before: (T, T) -> bool)
    requires SortedBy(s, before)
    ensures SortedBy(Filter(s, p), before)
  {
    if |s| > 0 {
      var rest := Filter(s[1..], p);
      FilterSpec(s[1..], p);
      assert SortedBy(s[1..], before);
      FilterSorted(s[1..], p, before);
      forall j | 0 <= j < |rest|
        ensures !before(rest[j], s[0])
      {
        var k :| 0 <= k < |s[1..]| && s[1..][k] == rest[j];
        assert s[k + 1] == rest[j];
      }
    }
  }
}
