/** The scorers of wordle_solver/candidate_scorers.py, kept to their integer
    bookkeeping: the feedback-pattern histogram and memo of `EntropyScorer`,
    the remaining-set totals and letter tallies of `ReductionScorer`, the
    threshold dispatch of `HybridScorer` and `StrictHybridScorer`, and the
    duplicate count of `DefaultScorer`. */
module Scorers {
  import opened Common
  import opened Feedback
  import opened Codec
  import opened Filters
  import Retention
  import opened Ranker

  // ---------------------------------------------------------------------
  // DefaultScorer

  /** `duplicate_count`: the letters of `w` beyond the first copy of each. */
  function DuplicateCount(w: Word): (r: int)
    ensures r >= 0
    ensures r == 0 <==> Distinct(w)
  {
    DistinctCard(w);
    |w| - |LetterSet(w)|
  }

  // ---------------------------------------------------------------------
  // Feedback codes against a list of answers

  /** `codes[k]` is what the memo table `_feedback_cache` can answer for
      `guess` against `answers[k]`: the current or the older procedure's
      code, and the current one whenever the lengths agree. */
  ghost predicate CodesFor(guess: Word, answers: seq<Word>, codes: seq<nat>) {
    |codes| == |answers| &&
    forall k :: 0 <= k < |codes| ==>
      SoundEntry(guess, answers[k], codes[k]) && (|answers[k]| == |guess| ==> codes[k] == Code(guess, answers[k]))
  }

  /** Both facts `GetFeedback` promises, one answer further on. */
  lemma CodesForNext(guess: Word, answers: seq<Word>, k: nat, codes: seq<nat>, code: nat)
    requires k < |answers| && CodesFor(guess, answers[..k], codes)
    requires SoundEntry(guess, answers[k], code) && (|answers[k]| == |guess| ==> code == Code(guess, answers[k]))
    ensures CodesFor(guess, answers[..k + 1], codes + [code])
  {
  }

  /** The precondition every feedback call here shares; with no answers no
      feedback is computed, so nothing is demanded of the guess. */
  predicate Comparable(guess: Word, answers: seq<Word>) {
    forall a :: a in answers ==> IsLower(guess) && IsLower(a) && |guess| <= |a|
  }

  /** An empty candidate list asks nothing of the guess, not even lower case. */
  lemma ComparableEmpty(guess: Word)
    requires |guess| > 0 && guess[0] == 'A'
    ensures Comparable(guess, []) && !IsLower(guess)
  {
  }

  // ---------------------------------------------------------------------
  // EntropyScorer

  /** The loop of `entropy` that fills `patterns`: one count per distinct
      feedback code of `guess` against the answers. */
  method PatternCounts(cache: FeedbackCache, guess: Word, answers: seq<Word>)
    returns (patterns: map<nat, nat>, ghost codes: seq<nat>)
    requires cache.Valid() && Comparable(guess, answers)
    modifies cache
    ensures cache.Valid()
    ensures CodesFor(guess, answers, codes) && TallyOf(patterns, multiset(codes))
  {
    patterns, codes := map[], [];
    for k := 0 to |answers|
      invariant cache.Valid()
      invariant CodesFor(guess, answers[..k], codes) && TallyOf(patterns, multiset(codes))
    {
      patterns, codes := CountPattern(cache, guess, answers, k, patterns, codes);
    }
    assert answers[..|answers|] == answers;
  }

  /** One pass of that loop: `patterns[feedback] = patterns.get(feedback, 0) + 1`. */
  method CountPattern(cache: FeedbackCache, guess: Word, answers: seq<Word>, k: nat, patterns: map<nat, nat>, ghost codes: seq<nat>)
    returns (patterns': map<nat, nat>, ghost codes': seq<nat>)
    requires cache.Valid() && Comparable(guess, answers) && k < |answers|
    requires CodesFor(guess, answers[..k], codes) && TallyOf(patterns, multiset(codes))
    modifies cache
    ensures cache.Valid()
    ensures CodesFor(guess, answers[..k + 1], codes') && TallyOf(patterns', multiset(codes'))
  {
    var a := answers[k];
    var feedback := cache.GetFeedback(guess, a);
    patterns' := patterns[feedback := GetOr(patterns, feedback) + 1];
    codes' := codes + [feedback];
    CountPatternStep(guess, answers, k, patterns, codes, feedback);
  }

  lemma CountPatternStep(guess: Word, answers: seq<Word>, k: nat, patterns: map<nat, nat>, codes: seq<nat>, feedback: nat)
    requires k < |answers| && CodesFor(guess, answers[..k], codes) && TallyOf(patterns, multiset(codes))
    requires SoundEntry(guess, answers[k], feedback) && (|answers[k]| == |guess| ==> feedback == Code(guess, answers[k]))
    ensures CodesFor(guess, answers[..k + 1], codes + [feedback])
    ensures TallyOf(patterns[feedback := GetOr(patterns, feedback) + 1], multiset(codes + [feedback]))
  {
    TallyAdd(patterns, multiset(codes), feedback);
    CodesForNext(guess, answers, k, codes, feedback);
  }

  /** The histogram `patterns`: every count is positive, the counts add up
      to the number of answers, and there are no more patterns than
      answers; each pattern is the code of some answer. */
  lemma PatternHistogram(patterns: map<nat, nat>, guess: Word, answers: seq<Word>, codes: seq<nat>)
    requires CodesFor(guess, answers, codes) && TallyOf(patterns, multiset(codes))
    ensures forall p :: p in patterns ==> patterns[p] >= 1
    ensures MapSum(patterns) == |answers| && |patterns.Keys| <= |answers|
    ensures forall p :: p in patterns ==> exists k :: 0 <= k < |answers| && codes[k] == p
  {
    TallySum(patterns, multiset(codes));
    forall p | p in patterns ensures exists k :: 0 <= k < |answers| && codes[k] == p {
      assert p in multiset(codes);
      var k :| 0 <= k < |codes| && codes[k] == p;
    }
  }

  /** The key under which `FEEDBACK_MAP` stores a guess's entropy. */
  const EntropyKey: string := "ENTROPY"

  predicate HasEntropy(entries: map<Word, map<string, real>>, guess: Word) {
    guess in entries && EntropyKey in entries[guess]
  }

  /** `FEEDBACK_MAP.setdefault(guess, {})[EntropyKey] = e`. */
  function StoreEntropy(entries: map<Word, map<string, real>>, guess: Word, e: real): (r: map<Word, map<string, real>>)
    ensures HasEntropy(r, guess) && r[guess][EntropyKey] == e
    ensures r.Keys == entries.Keys + {guess}
    ensures forall w :: w in entries && w != guess ==> r[w] == entries[w]
    ensures guess in entries ==> forall k :: k in entries[guess] && k != EntropyKey ==> k in r[guess] && r[guess][k] == entries[guess][k]
  {
    var inner := if guess in entries then entries[guess] else map[];
    entries[guess := inner[EntropyKey := e]]
  }

  /** The table `FEEDBACK_MAP`, keyed by guess alone. */
  class FeedbackMap {
    var entries: map<Word, map<string, real>>

    constructor(entries: map<Word, map<string, real>>)
      ensures this.entries == entries
    {
      this.entries := entries;
    }

    /** `EntropyScorer.entropy`: a stored entropy for `candidate` is returned
        as it is, whatever the ranker's candidates now are; otherwise the
        pattern histogram is built, `fromCounts` turns it and
        `_total_candidates` into the entropy sum, and the value is stored
        under `EntropyKey`. */
    method Entropy(cache: FeedbackCache, ranker: CandidateRanker, candidate: Word, fromCounts: (map<nat, nat>, nat) -> real)
      returns (e: real, ghost codes: seq<nat>)
      requires cache.Valid() && (!HasEntropy(entries, candidate) ==> Comparable(candidate, ranker.candidates))
      modifies this, cache
      ensures cache.Valid()
      ensures HasEntropy(old(entries), candidate) ==>
        e == old(entries)[candidate][EntropyKey] && entries == old(entries) && cache.entries == old(cache.entries)
      ensures !HasEntropy(old(entries), candidate) ==>
        CodesFor(candidate, ranker.candidates, codes) &&
        e == fromCounts(ToMap(multiset(codes)), ranker.totalCandidates) &&
        entries == StoreEntropy(old(entries), candidate, e)
    {
      if candidate in entries && EntropyKey in entries[candidate] {
        e := entries[candidate][EntropyKey];
        codes := [];
        return;
      }
      var patterns;
      patterns, codes := PatternCounts(cache, candidate, ranker.candidates);
      TallyIsToMap(patterns, multiset(codes));
      e := fromCounts(patterns, ranker.totalCandidates);
      var inner := if candidate in entries then entries[candidate] else map[];
      entries := entries[candidate := inner[EntropyKey := e]];
    }
  }

  // ---------------------------------------------------------------------
  // ReductionScorer

  /** The filter `Filter(length=len(candidate))` starts from. */
  function Fresh(): Constraints {
    Constraints(map[], map[], {}, map[], map[])
  }

  /** How many of `words` a fresh filter keeps once told that `guess` scored
      `code`. */
  function Remaining(guess: Word, code: nat, words: seq<Word>): nat {
    |Kept(UpdateSpec(Fresh(), guess, FormatSpec(code, |guess|)), words)|
  }

  /** `total_remaining` after the answers whose codes are `codes`. */
  function RemainingSum(guess: Word, codes: seq<nat>, words: seq<Word>): nat {
    if codes == [] then 0
    else RemainingSum(guess, codes[..|codes| - 1], words) + Remaining(guess, codes[|codes| - 1], words)
  }

  /** One pass of the loop body of `score`: feedback, a fresh filter, its
      update, and the size of what it keeps. */
  method RemainingFor(cache: FeedbackCache, candidate: Word, answer: Word, candidates: seq<Word>)
    returns (remaining: nat, ghost code: nat)
    requires cache.Valid() && IsLower(candidate) && IsLower(answer) && |candidate| <= |answer|
    requires forall w :: w in candidates ==> |candidate| <= |w|
    modifies cache
    ensures cache.Valid()
    ensures SoundEntry(candidate, answer, code) && (|answer| == |candidate| ==> code == Code(candidate, answer))
    ensures remaining == Remaining(candidate, code, candidates)
  {
    var feedback := cache.GetFeedback(candidate, answer);
    var marks := FormatFeedback(feedback, |candidate|);
    var filter := new Filter(map[], map[], {}, |candidate|);
    filter.Update(candidate, marks);
    forall w | w in candidates ensures Testable(filter.State(), w) {
      UpdateWithin(Fresh(), candidate, marks, w);
      FitsTestable(filter.State(), w);
    }
    var filteredCandidates := filter.FilterCandidates(candidates);
    remaining := |filteredCandidates|;
    code := feedback;
    assert |multiset(filteredCandidates)| == |filteredCandidates|;
  }

  /** The loop of `score` over the answers: `total_remaining` and the
      letter tallies of `letter_map` before they are normalised. */
  method ReductionTally(cache: FeedbackCache, candidate: Word, candidates: seq<Word>)
    returns (totalRemaining: nat, letterMap: map<char, nat>, ghost codes: seq<nat>)
    requires cache.Valid() && Comparable(candidate, candidates)
    modifies cache
    ensures cache.Valid() && CodesFor(candidate, candidates, codes)
    ensures totalRemaining == RemainingSum(candidate, codes, candidates)
    ensures TallyOf(letterMap, Letters(candidates))
  {
    totalRemaining, letterMap, codes := 0, map[], [];
    for k := 0 to |candidates|
      invariant cache.Valid() && CodesFor(candidate, candidates[..k], codes)
      invariant totalRemaining == RemainingSum(candidate, codes, candidates)
      invariant TallyOf(letterMap, Letters(candidates[..k]))
    {
      var answer := candidates[k];
      var remaining;
      ghost var code;
      remaining, code := RemainingFor(cache, candidate, answer, candidates);
      CodesForNext(candidate, candidates, k, codes, code);
      assert (codes + [code])[..|codes|] == codes;
      totalRemaining := totalRemaining + remaining;
      var counted;
      letterMap, counted := CountWord(letterMap, 0, Letters(candidates[..k]), answer);
      LettersNext(candidates, k);
      codes := codes + [code];
    }
    assert candidates[..|candidates|] == candidates;
  }

  /** Summed over the answers, `letter_map` counts every letter of every
      candidate: its values add up to the total letter count. */
  lemma LetterMapTotal(letterMap: map<char, nat>, candidates: seq<Word>)
    requires TallyOf(letterMap, Letters(candidates))
    ensures MapSum(letterMap) == TotalLength(candidates)
    ensures forall c :: c in letterMap <==> exists w :: w in candidates && c in w
  {
    TallySum(letterMap, Letters(candidates));
    LettersSize(candidates);
    forall c ensures c in letterMap <==> exists w :: w in candidates && c in w {
      LettersHas(candidates, c);
    }
  }

  lemma {:induction false} LettersHas(ws: seq<Word>, c: char)
    ensures c in Letters(ws) <==> exists w :: w in ws && c in w
  {
    if ws != [] {
      var init := ws[..|ws| - 1];
      var last := ws[|ws| - 1];
      LettersHas(init, c);
      assert ws == init + [last];
      assert Letters(ws) == Letters(init) + multiset(last);
      if c in Letters(init) {
        var w :| w in init && c in w;
        assert w in ws;
      } else if c in last {
        assert last in ws;
      } else {
        forall w | w in ws ensures c !in w {
          assert w in init || w == last;
        }
      }
    }
  }

  /** Each filtered set is part of the candidates, so `total_remaining` is at
      most (number of codes) × (number of candidates). */
  lemma {:induction false} RemainingAtMost(guess: Word, codes: seq<nat>, words: seq<Word>)
    ensures RemainingSum(guess, codes, words) <= |codes| * |words|
  {
    if codes != [] {
      var k := |codes| - 1;
      RemainingAtMost(guess, codes[..k], words);
      KeptLength(UpdateSpec(Fresh(), guess, FormatSpec(codes[k], |guess|)), words);
      MulSucc(k, |words|);
    }
  }

  lemma MulSucc(a: nat, b: nat)
    ensures a * b + b == (a + 1) * b
  {
  }

  /** The filter round-trip: the answer that produced the feedback is among
      what the filter keeps. */
  lemma AnswerRemains(guess: Word, answer: Word, words: seq<Word>)
    requires |guess| <= |answer| && answer in words
    ensures Remaining(guess, Code(guess, answer), words) >= 1
  {
    FormatCode(guess, answer);
    Retention.UpdateRetainsAnswer(Fresh(), guess, answer);
    var c := UpdateSpec(Fresh(), guess, MarkString(guess, answer));
    KeptMembers(c, words);
    assert answer in Kept(c, words);
  }

  lemma {:induction false} RemainingAtLeast(guess: Word, codes: seq<nat>, words: seq<Word>, n: nat)
    requires n <= |codes| <= |words|
    requires forall k :: 0 <= k < n ==> |guess| <= |words[k]| && codes[k] == Code(guess, words[k])
    ensures RemainingSum(guess, codes[..n], words) >= n
  {
    if n > 0 {
      RemainingAtLeast(guess, codes, words, n - 1);
      assert codes[..n][..n - 1] == codes[..n - 1];
      AnswerRemains(guess, words[n - 1], words);
    }
  }

  /** When every candidate has the guess's length, each answer survives its
      own feedback, so `total_remaining` lies between n and n² for n
      candidates. */
  lemma RemainingBounds(guess: Word, codes: seq<nat>, words: seq<Word>)
    requires CodesFor(guess, words, codes)
    requires forall w :: w in words ==> |w| == |guess|
    ensures |words| <= RemainingSum(guess, codes, words) <= |words| * |words|
  {
    RemainingAtMost(guess, codes, words);
    RemainingAtLeast(guess, codes, words, |codes|);
    assert codes[..|codes|] == codes;
  }

  /** The normalisation loop: each tally divided by the number of
      candidates, in place. */
  function Frequencies(letterMap: map<char, nat>, numCandidates: nat): map<char, real>
    requires numCandidates > 0
  {
    map c | c in letterMap :: letterMap[c] as real / numCandidates as real
  }

  method Normalise(letterMap: map<char, nat>, numCandidates: nat) returns (freq: map<char, real>)
    requires numCandidates > 0
    ensures freq == Frequencies(letterMap, numCandidates)
  {
    freq := map[];
    var todo := letterMap.Keys;
    while todo != {}
      invariant todo <= letterMap.Keys
      invariant freq.Keys == letterMap.Keys - todo
      invariant forall c :: c in freq ==> freq[c] == letterMap[c] as real / numCandidates as real
      decreases |todo|
    {
      var ch :| ch in todo;
      freq := freq[ch := letterMap[ch] as real / numCandidates as real];
      todo := todo - {ch};
    }
  }

  /** `letter_map.get(c, 0)` after normalisation. */
  function FreqOf(freq: map<char, real>, c: char): real {
    if c in freq then freq[c] else 0.0
  }

  /** `sum(1 for char in candidate if letter_map.get(char, 0) == 1)`. */
  function OnesIn(w: Word, freq: map<char, real>): (r: nat)
    ensures r <= |w|
  {
    if w == [] then 0 else OnesIn(w[..|w| - 1], freq) + (if FreqOf(freq, w[|w| - 1]) == 1.0 then 1 else 0)
  }

  /** The sum of the squared frequencies of the letters of `w`. */
  function SquaresIn(w: Word, freq: map<char, real>): real {
    if w == [] then 0.0 else SquaresIn(w[..|w| - 1], freq) + FreqOf(freq, w[|w| - 1]) * FreqOf(freq, w[|w| - 1])
  }

  /** The letter part of the score: each letter of the candidate subtracts
      its squared frequency, and, since the reward sits inside the same
      loop, each letter also adds the square of the number of letters whose
      frequency is exactly 1. */
  function LetterPart(w: Word, freq: map<char, real>): real {
    |w| as real * (OnesIn(w, freq) * OnesIn(w, freq)) as real - SquaresIn(w, freq)
  }

  method LetterScore(candidate: Word, freq: map<char, real>) returns (score: real)
    ensures score == LetterPart(candidate, freq)
  {
    score := 0.0;
    var ones := OnesIn(candidate, freq);
    var reward := (ones * ones) as real;
    for i := 0 to |candidate|
      invariant score == Repeat(reward, i) - SquaresIn(candidate[..i], freq)
    {
      var f := FreqOf(freq, candidate[i]);
      LetterStep(candidate, i, freq, reward, score);
      score := score - f * f;
      score := score + reward;
    }
    LetterEnd(candidate, freq, ones, score);
  }

  /** After the last letter the sum is the letter part. */
  lemma LetterEnd(w: Word, freq: map<char, real>, ones: nat, score: real)
    requires ones == OnesIn(w, freq) && score == Repeat((ones * ones) as real, |w|) - SquaresIn(w[..|w|], freq)
    ensures score == LetterPart(w, freq)
  {
    assert w[..|w|] == w;
    RepeatIs((ones * ones) as real, |w|);
  }

  /** `k` added `n` times. */
  function Repeat(k: real, n: nat): real {
    if n == 0 then 0.0 else Repeat(k, n - 1) + k
  }

  lemma {:induction false} RepeatIs(k: real, n: nat)
    ensures Repeat(k, n) == n as real * k
  {
    if n > 0 {
      RepeatIs(k, n - 1);
      TimesSucc(n - 1, k);
    }
  }

  /** One letter of that loop: its squared frequency out, the reward in. */
  lemma LetterStep(w: Word, i: nat, freq: map<char, real>, reward: real, score: real)
    requires i < |w| && score == Repeat(reward, i) - SquaresIn(w[..i], freq)
    ensures score - FreqOf(freq, w[i]) * FreqOf(freq, w[i]) + reward == Repeat(reward, i + 1) - SquaresIn(w[..i + 1], freq)
  {
    assert w[..i + 1][..i] == w[..i];
  }

  lemma TimesSucc(i: nat, k: real)
    ensures (i + 1) as real * k == i as real * k + k
  {
  }

  /** What `score` returns for a non-empty candidate list whose feedback
      codes are `codes`. */
  function ReductionValue(guess: Word, codes: seq<nat>, words: seq<Word>): real
    requires words != []
  {
    var n := |words|;
    -(RemainingSum(guess, codes, words) as real / n as real) * 100.0 + LetterPart(guess, Frequencies(ToMap(Letters(words)), n))
  }

  /** `score`, 0.0 for no candidates. */
  function ReductionSpec(guess: Word, codes: seq<nat>, words: seq<Word>): real {
    if words == [] then 0.0 else ReductionValue(guess, codes, words)
  }

  /** `ReductionScorer.score`: 0.0 without candidates; otherwise minus 100
      times the average remaining-set size, plus the letter part. */
  method ReductionScore(cache: FeedbackCache, ranker: CandidateRanker, candidate: Word)
    returns (score: real, ghost codes: seq<nat>)
    requires cache.Valid() && Comparable(candidate, ranker.candidates)
    modifies cache
    ensures cache.Valid()
    ensures ranker.candidates == [] ==> score == 0.0 && cache.entries == old(cache.entries)
    ensures CodesFor(candidate, ranker.candidates, codes) && score == ReductionSpec(candidate, codes, ranker.candidates)
  {
    var candidates := ranker.candidates;
    var numCandidates := |candidates|;
    if numCandidates == 0 {
      return 0.0, [];
    }
    var totalRemaining, letterMap;
    totalRemaining, letterMap, codes := ReductionTally(cache, candidate, candidates);
    TallyIsToMap(letterMap, Letters(candidates));
    var freq := Normalise(letterMap, numCandidates);
    assert freq == Frequencies(ToMap(Letters(candidates)), numCandidates);
    var letterScore := LetterScore(candidate, freq);
    var averageRemaining := totalRemaining as real / numCandidates as real;
    score := -averageRemaining * 100.0 + letterScore;
  }

  /** When every candidate has the guess's length, the average remaining-set
      size lies between 1 and the number of candidates. */
  lemma AverageBounds(guess: Word, codes: seq<nat>, words: seq<Word>)
    requires words != [] && CodesFor(guess, words, codes)
    requires forall w :: w in words ==> |w| == |guess|
    ensures var avg := RemainingSum(guess, codes, words) as real / |words| as real;
      1.0 <= avg <= |words| as real
  {
    RemainingBounds(guess, codes, words);
    AverageOf(RemainingSum(guess, codes, words), |words|);
  }

  lemma AverageOf(s: nat, n: nat)
    requires 0 < n <= s <= n * n
    ensures 1.0 <= s as real / n as real <= n as real
  {
    assert (n * n) as real == n as real * n as real;
    QuotientBounds(s as real, n as real);
  }

  lemma QuotientBounds(s: real, n: real)
    requires n > 0.0 && n <= s <= n * n
    ensures 1.0 <= s / n <= n
  {
    assert s / n * n == s;
  }

  // ---------------------------------------------------------------------
  // HybridScorer and StrictHybridScorer

  /** Below `threshold` candidates, 1500 times the reduction score;
      from `threshold` on, the default score. */
  function Dispatch(threshold: nat, numCandidates: nat, reduction: real, default: real): real {
    if numCandidates < threshold then reduction * 1500.0 else default
  }

  const HybridThreshold: nat := 250
  const StrictThreshold: nat := 100

  /** The two scorers differ only on candidate counts in [100, 250): there
      `HybridScorer` uses the reduction score and `StrictHybridScorer` the
      default one. */
  lemma HybridStrictAgree(n: nat, reduction: real, default: real)
    ensures n < StrictThreshold || n >= HybridThreshold <==>
      (forall r: real, d: real {:trigger Dispatch(HybridThreshold, n, r, d)} ::
        Dispatch(HybridThreshold, n, r, d) == Dispatch(StrictThreshold, n, r, d))
    ensures StrictThreshold <= n < HybridThreshold ==>
      Dispatch(HybridThreshold, n, reduction, default) == reduction * 1500.0 &&
      Dispatch(StrictThreshold, n, reduction, default) == default
  {
    if StrictThreshold <= n < HybridThreshold {
      assert Dispatch(HybridThreshold, n, 1.0, 0.0) != Dispatch(StrictThreshold, n, 1.0, 0.0);
    }
  }

  /** `HybridScorer.score` (threshold 250) and `StrictHybridScorer.score`
      (threshold 100); the reduction scorer runs only below the threshold.
      `defaultScore` stands for `DefaultScorer.score(candidate)`. */
  method HybridScore(threshold: nat, cache: FeedbackCache, ranker: CandidateRanker, candidate: Word, defaultScore: real)
    returns (r: real, ghost codes: seq<nat>)
    requires cache.Valid()
    requires |ranker.candidates| < threshold ==> Comparable(candidate, ranker.candidates)
    modifies cache
    ensures cache.Valid()
    ensures |ranker.candidates| >= threshold ==> r == defaultScore && cache.entries == old(cache.entries)
    ensures |ranker.candidates| < threshold ==> CodesFor(candidate, ranker.candidates, codes)
    ensures r == Dispatch(threshold, |ranker.candidates|, ReductionSpec(candidate, codes, ranker.candidates), defaultScore)
  {
    if |ranker.candidates| < threshold {
      var reduction;
      reduction, codes := ReductionScore(cache, ranker, candidate);
      r := reduction * 1500.0;
    } else {
      r, codes := defaultScore, [];
    }
  }
}
