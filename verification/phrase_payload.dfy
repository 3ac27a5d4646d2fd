/** The common-phrase card payload built from a phrase counter: the ranked
    keywords, the top keyword and the example messages.  Weights (a square
    root normalisation) and the shuffled bubble sample are not modelled;
    the bubble pool they are drawn from is. */
module PhrasePayload {
  import opened Wrappers
  import opened Text
  import opened KeywordRanking
  import opened PhraseExamples

  datatype Payload = Payload(topKeyword: Option<Keyword>, keywords: seq<Keyword>, examples: seq<Example>)

  const EmptyPayload := Payload(None, [], [])

  function KeywordsOf(ranked: seq<Entry>): (r: seq<Keyword>)
    ensures |r| == |ranked|
    ensures forall i :: 0 <= i < |r| ==> r[i] == Keyword(ranked[i].0, ranked[i].1)
  {
    if |ranked| == 0 then [] else [Keyword(ranked[0].0, ranked[0].1)] + KeywordsOf(ranked[1..])
  }

  /** The stripped non-blank messages, in order. */
  function NonBlankStripped(msgs: seq<string>): (r: seq<string>)
    ensures |r| <= |msgs|
    ensures forall m :: m in r ==> m != "" && IsStripped(m)
    ensures r == [] <==> forall m :: m in msgs ==> Strip(m) == ""
  {
    if |msgs| == 0 then []
    else
      var m := Strip(msgs[0]);
      var rest := NonBlankStripped(msgs[1..]);
      StripIsStripped(msgs[0]);
      assert forall x :: x in msgs <==> x == msgs[0] || x in msgs[1..];
      if m == "" then rest else [m] + rest
  }

  /** Every kept message is the stripped form of one of `msgs`. */
  lemma {:induction false} NonBlankStrippedFrom(msgs: seq<string>, m: string)
    requires m in NonBlankStripped(msgs)
    ensures exists x :: x in msgs && Strip(x) == m
  {
    if Strip(msgs[0]) != m {
      assert m in NonBlankStripped(msgs[1..]);
      NonBlankStrippedFrom(msgs[1..], m);
      var x :| x in msgs[1..] && Strip(x) == m;
      assert x in msgs;
    }
  }

  /** The clean-up after picking: re-strip the picks and cut them to
      `perWord`, or fall back to the word itself when no pick survives. */
  function Finish(e: Example, perWord: nat): (r: Example)
    requires perWord >= 1
    ensures r.word == e.word && r.count == e.count
    ensures 1 <= |r.messages| <= perWord || (r.messages == [] && Strip(e.word) == "")
    ensures forall m :: m in r.messages ==> m != "" && IsStripped(m)
    ensures NonBlankStripped(e.messages) == [] ==>
      r.messages == (if Strip(e.word) == "" then [] else [Strip(e.word)])
    ensures NonBlankStripped(e.messages) != [] ==>
      |r.messages| <= |NonBlankStripped(e.messages)| &&
      r.messages == NonBlankStripped(e.messages)[..|r.messages|]
  {
    var msgs := NonBlankStripped(e.messages);
    if msgs == [] then
      var w := Strip(e.word);
      StripIsStripped(e.word);
      Example(e.word, e.count, if w != "" then [w] else [])
    else
      var picks := Take(msgs, perWord);
      assert forall m :: m in picks ==> m in msgs;
      Example(e.word, e.count, picks)
  }

  /** Without sample texts every keyword illustrates itself. */
  function SelfExamples(keywords: seq<Keyword>): (r: seq<Example>)
    ensures |r| == |keywords|
    ensures forall i :: 0 <= i < |r| ==> r[i] == Example(keywords[i].word, keywords[i].count, [keywords[i].word])
  {
    if |keywords| == 0 then []
    else [Example(keywords[0].word, keywords[0].count, [keywords[0].word])] + SelfExamples(keywords[1..])
  }

  /** A picked entry's word is non-blank, so finishing leaves it one to
      `perWord` messages. */
  lemma FinishedShape(e: Example, perWord: nat)
    requires perWord >= 1 && e.word != "" && Strip(e.word) == e.word
    ensures 1 <= |Finish(e, perWord).messages| <= perWord
  {
  }

  /** No message of `pool` illustrates `word`. */
  predicate NoneMatch(word: string, pool: seq<string>, good: string -> bool) {
    forall t :: t in pool ==> !Matches(word, t, good)
  }

  /** `m` is the stripped text of a message of `pool` that illustrates
      `word`. */
  predicate Illustrates(word: string, m: string, pool: seq<string>, good: string -> bool) {
    exists t :: t in pool && Matches(word, t, good) && Strip(t) == m
  }

  /** Finishing a pick drawn from `pool` leaves stripped illustrations of
      the word, or the word itself when the pool has none. */
  lemma FinishOfPick(p: Example, perWord: nat, pool: seq<string>, good: string -> bool)
    requires perWord >= 1 && p.word != "" && IsStripped(p.word)
    requires forall m :: m in p.messages ==> m in pool && Matches(p.word, m, good)
    requires p.messages == [] <==> NoneMatch(p.word, pool, good)
    ensures NoneMatch(p.word, pool, good) ==> Finish(p, perWord).messages == [p.word]
    ensures forall m :: m in Finish(p, perWord).messages ==> m == p.word || Illustrates(p.word, m, pool, good)
  {
    StrippedIsFixed(p.word);
    var e := Finish(p, perWord);
    var msgs := NonBlankStripped(p.messages);
    forall m | m in e.messages && m != p.word
      ensures Illustrates(p.word, m, pool, good)
    {
      assert m in msgs;
      NonBlankStrippedFrom(p.messages, m);
      var x :| x in p.messages && Strip(x) == m;
    }
  }

  /** A finished pick keeps its keyword's word and count.  Its messages are
      stripped illustrations of the word from the cleaned pool, or the word
      itself when nothing in the pool illustrates it. */
  lemma FinishedFacts(keywords: seq<Keyword>, texts: seq<string>, perWord: nat,
                      clean: string -> string, good: string -> bool, i: int)
    requires perWord >= 1
    requires 0 <= i < |PickExamples(keywords, texts, perWord, clean, good)|
    ensures |PickExamples(keywords, texts, perWord, clean, good)| == |NonBlankKeywords(keywords)|
    ensures var e := Finish(PickExamples(keywords, texts, perWord, clean, good)[i], perWord);
      && e.word == NonBlankKeywords(keywords)[i].word && e.count == NonBlankKeywords(keywords)[i].count
      && 1 <= |e.messages| <= perWord && e.word != ""
      && (NoneMatch(e.word, CleanPool(texts, clean), good) ==> e.messages == [e.word])
      && (forall m :: m in e.messages ==> m == e.word || Illustrates(e.word, m, CleanPool(texts, clean), good))
  {
    var p := PickExamples(keywords, texts, perWord, clean, good)[i];
    PickExamplesShape(keywords, texts, perWord, clean, good, i);
    FinishedShape(p, perWord);
    FinishOfPick(p, perWord, CleanPool(texts, clean), good);
  }

  /** Every pick, finished. */
  function FinishAll(picked: seq<Example>, perWord: nat): (r: seq<Example>)
    requires perWord >= 1
    ensures |r| == |picked|
    ensures forall i :: 0 <= i < |r| ==> r[i] == Finish(picked[i], perWord)
  {
    seq(|picked|, i requires 0 <= i < |picked| => Finish(picked[i], perWord))
  }

  /** `FinishedFacts` for every pick at once. */
  lemma AllFinishedFacts(keywords: seq<Keyword>, texts: seq<string>, perWord: nat,
                         clean: string -> string, good: string -> bool)
    requires perWord >= 1
    ensures var r := FinishAll(PickExamples(keywords, texts, perWord, clean, good), perWord);
      && |r| == |NonBlankKeywords(keywords)|
      && (forall i :: 0 <= i < |r| ==> 1 <= |r[i].messages| <= perWord && r[i].word != "")
      && (forall i :: 0 <= i < |r| ==>
            && r[i].word == NonBlankKeywords(keywords)[i].word
            && r[i].count == NonBlankKeywords(keywords)[i].count
            && (NoneMatch(r[i].word, CleanPool(texts, clean), good) ==> r[i].messages == [r[i].word]))
      && (forall i, m :: 0 <= i < |r| && m in r[i].messages ==>
            m == r[i].word || Illustrates(r[i].word, m, CleanPool(texts, clean), good))
  {
    var picked := PickExamples(keywords, texts, perWord, clean, good);
    var r := FinishAll(picked, perWord);
    assert |picked| == |NonBlankKeywords(keywords)|;
    forall i | 0 <= i < |r|
      ensures && 1 <= |r[i].messages| <= perWord && r[i].word != ""
        && r[i].word == NonBlankKeywords(keywords)[i].word
        && r[i].count == NonBlankKeywords(keywords)[i].count
        && (NoneMatch(r[i].word, CleanPool(texts, clean), good) ==> r[i].messages == [r[i].word])
        && (forall m :: m in r[i].messages ==> m == r[i].word || Illustrates(r[i].word, m, CleanPool(texts, clean), good))
    {
      FinishedFacts(keywords, texts, perWord, clean, good, i);
    }
  }

  /** The examples drawn from sample texts, each finished: one per
      non-blank keyword, in keyword order, with one to `perWord` stripped
      illustrations of its word, or the word itself when none exists. */
  function SampledExamples(keywords: seq<Keyword>, texts: seq<string>, perWord: nat,
                           clean: string -> string, good: string -> bool): (r: seq<Example>)
    requires perWord >= 1
    ensures |r| == |NonBlankKeywords(keywords)|
    ensures forall i :: 0 <= i < |r| ==> 1 <= |r[i].messages| <= perWord && r[i].word != ""
    ensures forall i :: 0 <= i < |r| ==>
      && r[i].word == NonBlankKeywords(keywords)[i].word
      && r[i].count == NonBlankKeywords(keywords)[i].count
      && (NoneMatch(r[i].word, CleanPool(texts, clean), good) ==> r[i].messages == [r[i].word])
    ensures forall i, m :: 0 <= i < |r| && m in r[i].messages ==>
      m == r[i].word || Illustrates(r[i].word, m, CleanPool(texts, clean), good)
  {
    AllFinishedFacts(keywords, texts, perWord, clean, good);
    FinishAll(PickExamples(keywords, texts, perWord, clean, good), perWord)
  }

  /** The payload of the common-phrase card.  `exampleTexts` empty stands
      for both a missing and an empty sample list. */
  function CommonPhrasesPayload(counts: seq<Entry>, topN: int, exampleTexts: seq<string>, examplesPerWord: int,
                                clean: string -> string, good: string -> bool): (p: Payload)
    ensures p == EmptyPayload <==> PhraseRanking(counts, topN) == []
    ensures p.keywords == KeywordsOf(PhraseRanking(counts, topN))
    ensures p.keywords != [] ==> p.topKeyword == Some(p.keywords[0])
    ensures |exampleTexts| == 0 ==> p.examples == SelfExamples(p.keywords)
    ensures |exampleTexts| > 0 ==> forall i :: 0 <= i < |p.examples| ==>
      1 <= |p.examples[i].messages| <= Limit(examplesPerWord) && p.examples[i].word != ""
    ensures |exampleTexts| > 0 ==> |p.examples| == |NonBlankKeywords(p.keywords)| && forall i :: 0 <= i < |p.examples| ==>
      && p.examples[i].word == NonBlankKeywords(p.keywords)[i].word
      && p.examples[i].count == NonBlankKeywords(p.keywords)[i].count
      && (NoneMatch(p.examples[i].word, CleanPool(exampleTexts, clean), good) ==>
            p.examples[i].messages == [p.examples[i].word])
    ensures |exampleTexts| > 0 ==> p.examples == SampledExamples(p.keywords, exampleTexts, Limit(examplesPerWord), clean, good)
  {
    var ranked := PhraseRanking(counts, topN);
    if ranked == [] then EmptyPayload
    else
      var keywords := KeywordsOf(ranked);
      var examples :=
        if |exampleTexts| > 0 then SampledExamples(keywords, exampleTexts, Limit(examplesPerWord), clean, good)
        else SelfExamples(keywords);
      Payload(Some(keywords[0]), keywords, examples)
  }

  /** The keywords are the ranked phrases: said at least twice, ordered by
      descending count then phrase, at most `topN` of them. */
  lemma PayloadKeywords(counts: seq<Entry>, topN: int, exampleTexts: seq<string>, examplesPerWord: int,
                        clean: string -> string, good: string -> bool, i: int, j: int)
    requires var p := CommonPhrasesPayload(counts, topN, exampleTexts, examplesPerWord, clean, good);
      0 <= i < j < |p.keywords|
    ensures var k := CommonPhrasesPayload(counts, topN, exampleTexts, examplesPerWord, clean, good).keywords;
      && (k[i].word, k[i].count) in counts && k[i].count >= MinPhraseCount
      && !Before((k[j].word, k[j].count), (k[i].word, k[i].count))
      && |k| <= topN
  {
    var ranked := PhraseRanking(counts, topN);
    assert ranked[i] in ranked;
  }

  /** The bubble pool: the distinct stripped non-blank phrases.  The card
      shows a random sample of it. */
  function BubblePool(counts: seq<Entry>): (r: seq<string>)
    ensures Distinct(r)
    ensures forall m :: m in r ==> m != ""
    ensures forall i :: 0 <= i < |counts| && Strip(counts[i].0) != "" ==> Strip(counts[i].0) in r
    ensures forall m :: m in r ==> exists i :: 0 <= i < |counts| && Strip(counts[i].0) == m
  {
    var keys := StrippedKeys(counts);
    PoolFacts(keys);
    KeysAreStripped(counts);
    Filter(NonEmpty, Dedup(keys))
  }

  predicate NonEmpty(m: string) {
    m != ""
  }

  /** The non-empty first occurrences are distinct and are exactly the
      non-empty keys. */
  lemma PoolFacts(keys: seq<string>)
    ensures Distinct(Filter(NonEmpty, Dedup(keys)))
    ensures forall m :: m in Filter(NonEmpty, Dedup(keys)) <==> m in keys && m != ""
  {
    DedupFacts(keys);
    FilterMembers(NonEmpty, Dedup(keys));
    FilterDistinct(NonEmpty, Dedup(keys));
  }

  /** Every stripped key comes from some phrase of the counter. */
  lemma KeysAreStripped(counts: seq<Entry>)
    ensures forall m :: m in StrippedKeys(counts) ==> exists i :: 0 <= i < |counts| && Strip(counts[i].0) == m
  {
    var keys := StrippedKeys(counts);
    forall m | m in keys ensures exists i :: 0 <= i < |counts| && Strip(counts[i].0) == m {
      var i :| 0 <= i < |keys| && keys[i] == m;
    }
  }

  function StrippedKeys(counts: seq<Entry>): (r: seq<string>)
    ensures |r| == |counts|
    ensures forall i :: 0 <= i < |r| ==> r[i] == Strip(counts[i].0)
  {
    if |counts| == 0 then [] else [Strip(counts[0].0)] + StrippedKeys(counts[1..])
  }
}
