/** The ranking step shared by the keyword card and the common-phrase
    card: keep the counted words whose count reaches a threshold, order
    them by descending count with ties broken by the word, and keep the
    first `top_n`.  A counter's items are modelled as a sequence of
    `(word, count)` pairs in the counter's own iteration order. */
module KeywordRanking {
  import opened Text

  type Entry = (string, int)

  /** The sort key `(-count, word)`: `a` comes first when it has the higher
      count, or the same count and the smaller word. */
  predicate Before(a: Entry, b: Entry) {
    a.1 > b.1 || (a.1 == b.1 && Less(a.0, b.0))
  }

  lemma BeforeIrreflexive(a: Entry)
    ensures !Before(a, a)
  {
    LessIrreflexive(a.0);
  }

  lemma BeforeTotal(a: Entry, b: Entry)
    ensures a == b || Before(a, b) || Before(b, a)
  {
    LessTotal(a.0, b.0);
  }

  lemma BeforeAsymmetric(a: Entry, b: Entry)
    ensures !(Before(a, b) && Before(b, a))
  {
    LessAsymmetric(a.0, b.0);
  }

  lemma BeforeTransitive(a: Entry, b: Entry, c: Entry)
    requires Before(a, b) && Before(b, c)
    ensures Before(a, c)
  {
    if a.1 == b.1 == c.1 {
      LessTransitive(a.0, b.0, c.0);
    }
  }

  /** "Not after" is transitive too: the key order is total. */
  lemma NotBeforeTransitive(a: Entry, b: Entry, c: Entry)
    requires !Before(a, b) && !Before(b, c)
    ensures !Before(a, c)
  {
    BeforeTotal(a, b);
    if Before(a, c) && a != b {
      BeforeTransitive(b, a, c);
    }
  }

  /** Ordered by the key: no entry comes before an earlier one. */
  predicate Sorted(s: seq<Entry>) {
    forall i, j :: 0 <= i < j < |s| ==> !Before(s[j], s[i])
  }

  /** `x` can go in front of the sorted `s` when `s[0]` does not come before it. */
  lemma ConsSorted(x: Entry, s: seq<Entry>)
    requires Sorted(s) && (|s| == 0 || !Before(s[0], x))
    ensures Sorted([x] + s)
  {
    forall j | 0 <= j < |s| ensures !Before(s[j], x) {
      if j > 0 {
        NotBeforeTransitive(s[j], s[0], x);
      }
    }
    assert forall j :: 0 < j < |[x] + s| ==> ([x] + s)[j] == s[j - 1];
  }

  /** Inserts `x` into the sorted `s` in front of the first entry it does
      not follow. */
  function Insert(x: Entry, s: seq<Entry>): (r: seq<Entry>)
    requires Sorted(s)
    ensures Sorted(r)
    ensures multiset(r) == multiset(s) + multiset{x}
  {
    if |s| == 0 then [x]
    else if Before(s[0], x) then
      var t := Insert(x, s[1..]);
      assert s == [s[0]] + s[1..];
      InsertHead(x, s, t);
      [s[0]] + t
    else
      ConsSorted(x, s);
      [x] + s
  }

  lemma InsertHead(x: Entry, s: seq<Entry>, t: seq<Entry>)
    requires |s| > 0 && Sorted(s) && Before(s[0], x)
    requires Sorted(t) && multiset(t) == multiset(s[1..]) + multiset{x}
    ensures Sorted([s[0]] + t)
  {
    if |t| > 0 {
      assert t[0] in multiset(t);
      if t[0] == x {
        BeforeAsymmetric(s[0], x);
      } else {
        assert t[0] in s[1..];
      }
    }
    ConsSorted(s[0], t);
  }

  /** Insertion sort by the key. */
  function Sort(s: seq<Entry>): (r: seq<Entry>)
    ensures Sorted(r)
    ensures multiset(r) == multiset(s)
  {
    if |s| == 0 then []
    else
      assert s == [s[0]] + s[1..];
      Insert(s[0], Sort(s[1..]))
  }

  /** Two sorted arrangements of one multiset start with the same entry. */
  lemma SortedHeads(a: seq<Entry>, b: seq<Entry>)
    requires Sorted(a) && Sorted(b) && multiset(a) == multiset(b) && |a| > 0
    ensures |b| > 0 && a[0] == b[0]
  {
    assert a[0] in multiset(b);
    assert b[0] in multiset(a);
    if a[0] != b[0] {
      BeforeTotal(a[0], b[0]);
      assert false;
    }
  }

  /** The key order is total, so a multiset has exactly one sorted
      arrangement. */
  lemma {:induction false} SortedUnique(a: seq<Entry>, b: seq<Entry>)
    requires Sorted(a) && Sorted(b) && multiset(a) == multiset(b)
    ensures a == b
  {
    if |a| > 0 {
      SortedHeads(a, b);
      TailMultiset(a);
      TailMultiset(b);
      SortedTail(a);
      SortedTail(b);
      SortedUnique(a[1..], b[1..]);
      assert a == [a[0]] + a[1..] && b == [b[0]] + b[1..];
    } else {
      assert |multiset(b)| == 0;
    }
  }

  lemma TailMultiset(a: seq<Entry>)
    requires |a| > 0
    ensures multiset(a[1..]) == multiset(a) - multiset{a[0]}
  {
    assert a == [a[0]] + a[1..];
  }

  lemma SortedTail(a: seq<Entry>)
    requires |a| > 0 && Sorted(a)
    ensures Sorted(a[1..])
  {
    forall i, j | 0 <= i < j < |a[1..]| ensures !Before(a[1..][j], a[1..][i]) {
      assert a[1..][j] == a[j + 1] && a[1..][i] == a[i + 1];
    }
  }

  /** The items whose count is at least `minCount`, in order. */
  function Kept(items: seq<Entry>, minCount: int): (r: seq<Entry>)
    ensures forall x :: x in r <==> x in items && x.1 >= minCount
    ensures |r| <= |items|
  {
    if |items| == 0 then []
    else
      var rest := Kept(items[1..], minCount);
      assert forall x :: x in items <==> x == items[0] || x in items[1..];
      if items[0].1 >= minCount then [items[0]] + rest else rest
  }

  /** Keeping depends only on the multiset of items: each qualifying entry
      keeps its multiplicity, the others vanish. */
  lemma {:induction false} KeptMultiset(items: seq<Entry>, minCount: int, x: Entry)
    ensures multiset(Kept(items, minCount))[x] == if x.1 >= minCount then multiset(items)[x] else 0
  {
    if |items| > 0 {
      KeptMultiset(items[1..], minCount, x);
      assert items == [items[0]] + items[1..];
    }
  }

  /** The first `n` entries, or all of them when there are fewer. */
  function Take<T>(s: seq<T>, n: int): (r: seq<T>)
    ensures |r| == if n <= 0 then 0 else if n < |s| then n else |s|
    ensures r == s[..|r|]
  {
    if n <= 0 then [] else if n < |s| then s[..n] else s
  }

  /** The ranking: the kept items sorted by the key, cut to `topN`. */
  function Ranking(items: seq<Entry>, minCount: int, topN: int): (r: seq<Entry>)
    ensures Sorted(r)
    ensures forall x :: x in r ==> x in items && x.1 >= minCount
    ensures |r| == if topN <= 0 then 0
                   else if topN < |Kept(items, minCount)| then topN
                   else |Kept(items, minCount)|
  {
    var sorted := Sort(Kept(items, minCount));
    var r := Take(sorted, topN);
    assert |sorted| == |Kept(items, minCount)| by {
      assert |multiset(sorted)| == |multiset(Kept(items, minCount))|;
    }
    assert forall x :: x in r ==> x in multiset(sorted);
    r
  }

  /** Nothing left out ranks before anything kept: the ranking is the
      top of the sorted kept items. */
  lemma RankingIsTop(items: seq<Entry>, minCount: int, topN: int, x: Entry, j: int)
    requires x in multiset(Kept(items, minCount)) - multiset(Ranking(items, minCount, topN))
    requires 0 <= j < |Ranking(items, minCount, topN)|
    ensures !Before(x, Ranking(items, minCount, topN)[j])
  {
    var kept := Kept(items, minCount);
    var sorted := Sort(kept);
    var r := Ranking(items, minCount, topN);
    assert r == sorted[..|r|];
    TopOfSorted(sorted, |r|, x, j);
  }

  /** In a sorted sequence, an entry past the first `n` does not come
      before any of them. */
  lemma TopOfSorted(sorted: seq<Entry>, n: nat, x: Entry, j: int)
    requires Sorted(sorted) && n <= |sorted|
    requires x in multiset(sorted) - multiset(sorted[..n])
    requires 0 <= j < n
    ensures !Before(x, sorted[j])
  {
    assert sorted == sorted[..n] + sorted[n..];
    assert multiset(sorted) == multiset(sorted[..n]) + multiset(sorted[n..]);
    assert x in sorted[n..];
    var k :| n <= k < |sorted| && sorted[k] == x;
  }

  /** The ranking depends only on the counter's contents, not on the order
      in which it lists them. */
  lemma RankingOrderIndependent(a: seq<Entry>, b: seq<Entry>, minCount: int, topN: int)
    requires multiset(a) == multiset(b)
    ensures Ranking(a, minCount, topN) == Ranking(b, minCount, topN)
  {
    forall x | true
      ensures multiset(Kept(a, minCount))[x] == multiset(Kept(b, minCount))[x]
    {
      KeptMultiset(a, minCount, x);
      KeptMultiset(b, minCount, x);
    }
    assert multiset(Kept(a, minCount)) == multiset(Kept(b, minCount));
    SortedUnique(Sort(Kept(a, minCount)), Sort(Kept(b, minCount)));
  }

  /** The common-phrase ranking: phrases said at least twice. */
  const MinPhraseCount: int := 2

  function PhraseRanking(items: seq<Entry>, topN: int): (r: seq<Entry>)
    ensures Sorted(r)
    ensures forall x :: x in r ==> x in items && x.1 >= MinPhraseCount
    ensures r == [] <==> topN <= 0 || forall x :: x in items ==> x.1 < MinPhraseCount
  {
    var r := Ranking(items, MinPhraseCount, topN);
    assert |Kept(items, MinPhraseCount)| == 0 <==> forall x :: x in items ==> x.1 < MinPhraseCount by {
      var k := Kept(items, MinPhraseCount);
      if |k| > 0 {
        assert k[0] in k;
      }
    }
    r
  }

  predicate HasRepeat(items: seq<Entry>) {
    exists x :: x in items && x.1 > 1
  }

  /** The keyword ranking: tokens seen more than once, or every token seen
      at all when none repeats. */
  function KeywordRanking(items: seq<Entry>, topN: int): (r: seq<Entry>)
    ensures Sorted(r)
    ensures HasRepeat(items) ==> forall x :: x in r ==> x in items && x.1 > 1
    ensures !HasRepeat(items) ==> forall x :: x in r ==> x in items && x.1 > 0
  {
    Ranking(items, if HasRepeat(items) then 2 else 1, topN)
  }

  lemma ExampleSorted()
    ensures Sorted([("好的", 5), ("movie", 2), ("在吗", 2)])
  {
    assert Less("movie", "在吗");
  }

  lemma ExampleKept()
    ensures Kept([("好的", 5), ("在吗", 2), ("movie", 2), ("单次", 1)], MinPhraseCount)
         == [("好的", 5), ("在吗", 2), ("movie", 2)]
  {
    var items := [("好的", 5), ("在吗", 2), ("movie", 2), ("单次", 1)];
    assert Kept(items[3..], MinPhraseCount) == [];
    assert Kept(items[2..], MinPhraseCount) == [("movie", 2)];
    assert Kept(items[1..], MinPhraseCount) == [("在吗", 2), ("movie", 2)];
  }

  /** The counter of the payload example ranks "movie" before "在吗": equal
      counts fall back to code-point order. */
  lemma RankingExample()
    ensures PhraseRanking([("好的", 5), ("在吗", 2), ("movie", 2), ("单次", 1)], 32)
         == [("好的", 5), ("movie", 2), ("在吗", 2)]
  {
    var items := [("好的", 5), ("在吗", 2), ("movie", 2), ("单次", 1)];
    var want := [("好的", 5), ("movie", 2), ("在吗", 2)];
    ExampleKept();
    ExampleSorted();
    SwapLastTwo(("好的", 5), ("在吗", 2), ("movie", 2));
    PhraseRankingOf(items, 32, want);
  }

  lemma SwapLastTwo(a: Entry, b: Entry, c: Entry)
    ensures multiset([a, b, c]) == multiset([a, c, b])
  {
  }

  /** A sorted arrangement of the kept phrases that fits in `topN` is the
      phrase ranking. */
  lemma PhraseRankingOf(items: seq<Entry>, topN: int, want: seq<Entry>)
    requires Sorted(want) && multiset(want) == multiset(Kept(items, MinPhraseCount))
    requires |want| <= topN
    ensures PhraseRanking(items, topN) == want
  {
    var sorted := Sort(Kept(items, MinPhraseCount));
    SortedUnique(sorted, want);
    assert |sorted| == |want| by {
      assert |multiset(sorted)| == |multiset(want)|;
    }
  }
}
