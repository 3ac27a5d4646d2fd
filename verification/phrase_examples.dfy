/** Example picking for the keyword and common-phrase cards, and the
    deterministic part of the common-phrase payload.  The message cleaner
    and the "good example" test are regular-expression heavy; they enter as
    the parameters `clean` and `good`. */
module PhraseExamples {
  import opened Wrappers
  import opened Text
  import opened KeywordRanking

  datatype Keyword = Keyword(word: string, count: int)

  datatype Example = Example(word: string, count: int, messages: seq<string>)

  predicate Distinct<T(==)>(s: seq<T>) {
    forall i, j :: 0 <= i < j < |s| ==> s[i] != s[j]
  }

  /** The cleaned pool: every message's cleaned text, blanks dropped. */
  function CleanPool(pool: seq<string>, clean: string -> string): (r: seq<string>)
    ensures |r| <= |pool|
    ensures forall m :: m in r ==> m != ""
  {
    if |pool| == 0 then []
    else
      var c := clean(pool[0]);
      var rest := CleanPool(pool[1..], clean);
      if c == "" then rest else [c] + rest
  }

  /** First occurrences only, in their original order. */
  function Dedup(s: seq<string>): seq<string> {
    if |s| == 0 then []
    else
      var init := Dedup(s[..|s| - 1]);
      var last := s[|s| - 1];
      if last in init then init else init + [last]
  }

  /** The deduplicated sequence has the same elements, each once. */
  lemma {:induction false} DedupFacts(s: seq<string>)
    ensures forall x :: x in Dedup(s) <==> x in s
    ensures Distinct(Dedup(s))
    ensures |Dedup(s)| <= |s|
  {
    if |s| > 0 {
      var n := |s| - 1;
      DedupFacts(s[..n]);
      assert s == s[..n] + [s[n]];
    }
  }

  /** A message illustrates `word`: it is a good example and contains the
      word, case-sensitively when the word has an ideograph. */
  predicate Matches(word: string, msg: string, good: string -> bool) {
    && good(msg)
    && if HasCjk(word) then Contains(msg, word) else Contains(Lower(msg), Lower(word))
  }

  /** The messages of `msgs` that `keep` accepts, in order. */
  function Filter(keep: string -> bool, msgs: seq<string>): (r: seq<string>)
    ensures |r| <= |msgs|
  {
    if |msgs| == 0 then []
    else
      var init := Filter(keep, msgs[..|msgs| - 1]);
      var last := msgs[|msgs| - 1];
      assert msgs == msgs[..|msgs| - 1] + [last];
      if keep(last) then init + [last] else init
  }

  /** The filter keeps exactly the accepted messages. */
  lemma {:induction false} FilterMembers(keep: string -> bool, msgs: seq<string>)
    ensures forall m :: m in Filter(keep, msgs) <==> m in msgs && keep(m)
  {
    if |msgs| > 0 {
      var n := |msgs| - 1;
      FilterMembers(keep, msgs[..n]);
      assert msgs == msgs[..n] + [msgs[n]];
    }
  }

  /** Filtering distributes over a split of the input. */
  lemma {:induction false} FilterSplit(keep: string -> bool, msgs: seq<string>, i: nat)
    requires i <= |msgs|
    ensures Filter(keep, msgs) == Filter(keep, msgs[..i]) + Filter(keep, msgs[i..])
    decreases |msgs|
  {
    if i < |msgs| {
      var n := |msgs| - 1;
      FilterSplit(keep, msgs[..n], i);
      assert msgs[..n][..i] == msgs[..i];
      var tail := msgs[i..];
      assert tail[..|tail| - 1] == msgs[..n][i..];
      assert tail[|tail| - 1] == msgs[n];
    } else {
      assert msgs[..i] == msgs;
    }
  }

  lemma TakeOfLong<T>(a: seq<T>, b: seq<T>, n: int)
    requires n <= |a|
    ensures Take(a + b, n) == Take(a, n)
  {
  }

  /** The reference choice for one word: the distinct matches first, then
      the matches of the full pool with repeats, at most `limit` in all. */
  function PickFor(keep: string -> bool, uniq: seq<string>, all: seq<string>, limit: nat): seq<string> {
    Take(Filter(keep, uniq) + Filter(keep, all), limit)
  }

  /** One pass of the loop: scan `msgs` after `hits`, stopping as soon as
      `limit` hits are collected. */
  method TopUp(keep: string -> bool, hits0: seq<string>, msgs: seq<string>, limit: nat)
    returns (hits: seq<string>)
    requires |hits0| <= limit
    ensures hits == Take(hits0 + Filter(keep, msgs), limit)
  {
    hits := hits0;
    var i := 0;
    while i < |msgs| && |hits| < limit
      invariant 0 <= i <= |msgs|
      invariant hits == Take(hits0 + Filter(keep, msgs[..i]), limit)
    {
      assert msgs[..i + 1][..i] == msgs[..i];
      if keep(msgs[i]) {
        hits := hits + [msgs[i]];
      }
      i := i + 1;
    }
    FilterSplit(keep, msgs, i);
    assert hits0 + Filter(keep, msgs)
        == (hits0 + Filter(keep, msgs[..i])) + Filter(keep, msgs[i..]);
    if i == |msgs| {
      assert msgs[..i] == msgs;
    } else {
      TakeOfLong(hits0 + Filter(keep, msgs[..i]), Filter(keep, msgs[i..]), limit);
    }
  }

  /** The two-pass loop: scan the distinct messages, then top up from the
      full pool. */
  method PickHits(keep: string -> bool, uniq: seq<string>, all: seq<string>, limit: nat)
    returns (hits: seq<string>)
    ensures hits == PickFor(keep, uniq, all, limit)
  {
    hits := TopUp(keep, [], uniq, limit);
    assert [] + Filter(keep, uniq) == Filter(keep, uniq);
    if |hits| < limit {
      hits := TopUp(keep, hits, all, limit);
    } else {
      TakeOfLong(Filter(keep, uniq), Filter(keep, all), limit);
    }
  }

  /** Filtering keeps distinct messages distinct. */
  lemma {:induction false} FilterDistinct(keep: string -> bool, msgs: seq<string>)
    requires Distinct(msgs)
    ensures Distinct(Filter(keep, msgs))
  {
    if |msgs| > 0 {
      var n := |msgs| - 1;
      FilterDistinct(keep, msgs[..n]);
      FilterMembers(keep, msgs[..n]);
      assert msgs[n] !in msgs[..n];
    }
  }

  /** What one word's picks are: at most `limit` accepted messages of the
      pool, none at all only when nothing in the pool is accepted, opening
      with the distinct accepted messages, and all distinct when there are
      enough of those. */
  lemma PickForShape(keep: string -> bool, all: seq<string>, limit: nat)
    ensures var r := PickFor(keep, Dedup(all), all, limit);
      && |r| <= limit
      && (forall m :: m in r ==> m in all && keep(m))
      && (limit > 0 ==> (r == [] <==> forall m :: m in all ==> !keep(m)))
      && r[..|Take(Filter(keep, Dedup(all)), limit)|] == Take(Filter(keep, Dedup(all)), limit)
      && (|Filter(keep, Dedup(all))| >= limit ==> Distinct(r))
  {
    var uniq := Dedup(all);
    DedupFacts(all);
    var fu := Filter(keep, uniq);
    var fa := Filter(keep, all);
    PickMembers(keep, uniq, all, limit);
    TakeKeepsPrefix(fu, fa, limit);
    FilterEmpty(keep, uniq);
    FilterEmpty(keep, all);
    if |fu| >= limit {
      TakeOfLong(fu, fa, limit);
      FilterDistinct(keep, uniq);
    }
  }

  /** The picks come from the pool and are accepted, at most `limit` of them. */
  lemma PickMembers(keep: string -> bool, uniq: seq<string>, all: seq<string>, limit: nat)
    requires forall m :: m in uniq <==> m in all
    ensures |PickFor(keep, uniq, all, limit)| <= limit
    ensures forall m :: m in PickFor(keep, uniq, all, limit) ==> m in all && keep(m)
  {
    FilterMembers(keep, uniq);
    FilterMembers(keep, all);
    var both := Filter(keep, uniq) + Filter(keep, all);
    forall m | m in PickFor(keep, uniq, all, limit) ensures m in all && keep(m) {
      assert m in both;
    }
  }

  /** Cutting a concatenation keeps the cut of its first part as a prefix. */
  lemma TakeKeepsPrefix<T>(a: seq<T>, b: seq<T>, n: int)
    ensures Take(a + b, n)[..|Take(a, n)|] == Take(a, n)
  {
    var k := |Take(a, n)|;
    assert Take(a + b, n)[..k] == (a + b)[..k];
    assert (a + b)[..k] == a[..k];
  }

  /** The filter is empty exactly when it accepts nothing. */
  lemma FilterEmpty(keep: string -> bool, msgs: seq<string>)
    ensures Filter(keep, msgs) == [] <==> forall m :: m in msgs ==> !keep(m)
  {
    FilterMembers(keep, msgs);
    if Filter(keep, msgs) != [] {
      assert Filter(keep, msgs)[0] in Filter(keep, msgs);
    }
  }

  /** The non-blank keywords with their words stripped, in order. */
  function NonBlankKeywords(keywords: seq<Keyword>): (r: seq<Keyword>)
    ensures |r| <= |keywords|
    ensures forall k :: k in r ==> k.word != "" && IsStripped(k.word)
  {
    if |keywords| == 0 then []
    else
      var w := Strip(keywords[0].word);
      var rest := NonBlankKeywords(keywords[1..]);
      StripIsStripped(keywords[0].word);
      if w == "" then rest else [Keyword(w, keywords[0].count)] + rest
  }

  /** The example entries: one per keyword in `words`, each carrying the
      picks for its word. */
  function Examples(words: seq<Keyword>, uniq: seq<string>, all: seq<string>, limit: nat, good: string -> bool)
    : (r: seq<Example>)
    ensures |r| == |words|
    ensures forall i :: 0 <= i < |r| ==>
      && r[i].word == words[i].word && r[i].count == words[i].count
      && r[i].messages == PickFor(m => Matches(words[i].word, m, good), uniq, all, limit)
  {
    if |words| == 0 then []
    else
      var w := words[0].word;
      [Example(w, words[0].count, PickFor(m => Matches(w, m, good), uniq, all, limit))]
        + Examples(words[1..], uniq, all, limit, good)
  }

  /** `max(1, per_word)`. */
  function Limit(perWord: int): (n: nat)
    ensures n >= 1 && n >= perWord
  {
    if perWord < 1 then 1 else perWord
  }

  /** Example picking: for every keyword with a non-blank word, up to
      `max(1, per_word)` cleaned messages that illustrate it. */
  function PickExamples(keywords: seq<Keyword>, pool: seq<string>, perWord: int,
                        clean: string -> string, good: string -> bool): seq<Example>
  {
    var all := CleanPool(pool, clean);
    Examples(NonBlankKeywords(keywords), Dedup(all), all, Limit(perWord), good)
  }

  /** One entry per non-blank keyword, in keyword order, each holding at
      most `max(1, per_word)` cleaned messages that illustrate its word, and
      none only when no cleaned message does. */
  lemma PickExamplesShape(keywords: seq<Keyword>, pool: seq<string>, perWord: int,
                          clean: string -> string, good: string -> bool, i: int)
    requires 0 <= i < |PickExamples(keywords, pool, perWord, clean, good)|
    ensures |PickExamples(keywords, pool, perWord, clean, good)| == |NonBlankKeywords(keywords)|
    ensures var e := PickExamples(keywords, pool, perWord, clean, good)[i];
      && e.word == NonBlankKeywords(keywords)[i].word
      && e.count == NonBlankKeywords(keywords)[i].count
      && e.word != "" && IsStripped(e.word)
      && 1 <= Limit(perWord)
      && |e.messages| <= Limit(perWord)
      && (forall m :: m in e.messages ==> m in CleanPool(pool, clean) && Matches(e.word, m, good))
      && (e.messages == [] <==> forall m :: m in CleanPool(pool, clean) ==> !Matches(e.word, m, good))
  {
    var all := CleanPool(pool, clean);
    var e := PickExamples(keywords, pool, perWord, clean, good)[i];
    assert NonBlankKeywords(keywords)[i] in NonBlankKeywords(keywords);
    PickForShape(m => Matches(e.word, m, good), all, Limit(perWord));
  }

  /** Appending one message adds it exactly when it is new. */
  lemma DedupSnoc(s: seq<string>, x: string)
    ensures Dedup(s + [x]) == if x in Dedup(s) then Dedup(s) else Dedup(s) + [x]
  {
    assert (s + [x])[..|s|] == s;
  }

  /** Repeats of a message collapse onto its first occurrence. */
  lemma DedupExample(a: string, b: string, c: string)
    requires a != b && a != c && b != c
    ensures Dedup([a, a, a, b, c]) == [a, b, c]
  {
    var s1 := [] + [a];
    DedupSnoc([], a);
    assert Dedup(s1) == [a];
    var s2 := s1 + [a];
    DedupSnoc(s1, a);
    assert a in [a];
    var s3 := s2 + [a];
    DedupSnoc(s2, a);
    var s4 := s3 + [b];
    DedupSnoc(s3, b);
    assert b !in [a];
    var s5 := s4 + [c];
    DedupSnoc(s4, c);
    assert c !in [a] + [b];
    assert s5 == [a, a, a, b, c];
  }

  lemma FilterExample(keep: string -> bool)
    requires keep("在吗") && keep("在吗？") && !keep("ok")
    ensures Filter(keep, ["在吗", "在吗？", "ok"]) == ["在吗", "在吗？"]
    ensures Filter(keep, ["在吗", "在吗", "在吗", "在吗？", "ok"])[0] == "在吗"
  {
    var all := ["在吗", "在吗", "在吗", "在吗？", "ok"];
    assert ["在吗", "在吗？", "ok"][..2] == ["在吗", "在吗？"];
    assert ["在吗", "在吗？"][..1] == ["在吗"];
    FilterSplit(keep, all, 1);
    assert all[..1] == ["在吗"];
    assert Filter(keep, all[..1]) == ["在吗"] by {
      assert ["在吗"][..0] == [];
    }
  }

  /** Three copies of a short phrase, a variant and an unrelated message:
      both distinct matches come first and a repeat fills the third slot. */
  lemma PickFillsWithRepeats()
    ensures var all := ["在吗", "在吗", "在吗", "在吗？", "ok"];
      PickFor(m => Contains(m, "在吗"), Dedup(all), all, 3) == ["在吗", "在吗？", "在吗"]
  {
    var all := ["在吗", "在吗", "在吗", "在吗？", "ok"];
    var keep := m => Contains(m, "在吗");
    DedupExample("在吗", "在吗？", "ok");
    assert keep("在吗") by { assert StartsWith("在吗"[0..], "在吗"); }
    assert keep("在吗？") by { assert StartsWith("在吗？"[0..], "在吗"); }
    assert !keep("ok") by { MissingHeadNotContained("ok", "在吗"); }
    FilterExample(keep);
  }
}
