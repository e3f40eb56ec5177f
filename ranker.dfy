/** `CandidateRanker` (wordle_solver/candidate_ranker.py, and the copy in
    wordle_solver/solver.py): letter, presence and per-position count tables
    over the candidates, and the candidates ordered by a scorer that reads
    those tables. */
module Ranker {
  import opened Common
  import opened Sorting

  // ---------------------------------------------------------------------
  // What the tables count

  /** Every letter of every word, with repetition. */
  function Letters(ws: seq<Word>): multiset<char> {
    if ws == [] then multiset{} else Letters(ws[..|ws| - 1]) + multiset(ws[|ws| - 1])
  }

  /** The sum of the word lengths. */
  function TotalLength(ws: seq<Word>): nat {
    if ws == [] then 0 else TotalLength(ws[..|ws| - 1]) + |ws[|ws| - 1]|
  }

  /** The distinct letters of a word (`set(word)`). */
  function LetterSet(w: Word): set<char> {
    set c | c in w
  }

  /** Every letter once per word that holds it. */
  function Presence(ws: seq<Word>): multiset<char> {
    if ws == [] then multiset{} else Presence(ws[..|ws| - 1]) + multiset(LetterSet(ws[|ws| - 1]))
  }

  /** How many words hold `c`. */
  function Holding(ws: seq<Word>, c: char): nat {
    if ws == [] then 0 else Holding(ws[..|ws| - 1], c) + (if c in ws[|ws| - 1] then 1 else 0)
  }

  /** The length of the last word, 0 when there is none. */
  function LastLength(ws: seq<Word>): nat {
    if ws == [] then 0 else |ws[|ws| - 1]|
  }

  /** The letters at position `p` of the words of length `len`. */
  function Column(ws: seq<Word>, len: nat, p: nat): multiset<char> {
    if ws == [] then multiset{}
    else Column(ws[..|ws| - 1], len, p) + (var w := ws[|ws| - 1]; if |w| == len && p < len then multiset{w[p]} else multiset{})
  }

  /** How many words have length `len`. */
  function OfLength(ws: seq<Word>, len: nat): nat {
    if ws == [] then 0 else OfLength(ws[..|ws| - 1], len) + (if |ws[|ws| - 1]| == len then 1 else 0)
  }

  /** The counts a scorer reads: `_letter_counts`, `_total_letters`,
      `_position_counts`, `_letter_presence`, `_total_candidates`. */
  datatype Caches = Caches(
    letterCounts: map<char, nat>,
    totalLetters: nat,
    positionCounts: seq<map<char, nat>>,
    letterPresence: map<char, nat>,
    totalCandidates: nat)

  /** The tables are those of `ws`. */
  ghost predicate Describes(t: Caches, ws: seq<Word>) {
    && TallyOf(t.letterCounts, Letters(ws))
    && t.totalLetters == TotalLength(ws)
    && TallyOf(t.letterPresence, Presence(ws))
    && |t.positionCounts| == LastLength(ws)
    && (forall p :: 0 <= p < |t.positionCounts| ==> TallyOf(t.positionCounts[p], Column(ws, |t.positionCounts|, p)))
    && t.totalCandidates == |ws|
  }

  // ---------------------------------------------------------------------
  // Facts about the tables

  lemma {:induction false} LettersSize(ws: seq<Word>)
    ensures |Letters(ws)| == TotalLength(ws)
  {
    if ws != [] { LettersSize(ws[..|ws| - 1]); }
  }

  /** A word's distinct letters, each once, are among its letters. */
  lemma OncePerWord(w: Word, c: char)
    ensures multiset(LetterSet(w))[c] == (if c in w then 1 else 0)
    ensures multiset(LetterSet(w))[c] <= multiset(w)[c]
  {
  }

  lemma {:induction false} PresenceCounts(ws: seq<Word>, c: char)
    ensures Presence(ws)[c] == Holding(ws, c)
    ensures Presence(ws)[c] <= Letters(ws)[c] && Holding(ws, c) <= |ws|
    ensures c in Presence(ws) <==> c in Letters(ws)
  {
    if ws != [] {
      PresenceCounts(ws[..|ws| - 1], c);
      OncePerWord(ws[|ws| - 1], c);
    }
  }

  lemma {:induction false} ColumnSize(ws: seq<Word>, len: nat, p: nat)
    requires p < len
    ensures |Column(ws, len, p)| == OfLength(ws, len)
  {
    if ws != [] { ColumnSize(ws[..|ws| - 1], len, p); }
  }

  /** `_total_candidates` is the number of candidates, and `_total_letters`
      is both the sum of the word lengths and the sum of `_letter_counts`. */
  lemma CacheTotals(t: Caches, ws: seq<Word>)
    requires Describes(t, ws)
    ensures t.totalCandidates == |ws| && t.totalLetters == TotalLength(ws) == MapSum(t.letterCounts)
  {
    TallySum(t.letterCounts, Letters(ws));
    LettersSize(ws);
  }

  /** Presence counts the words holding a letter: at most its count, at most
      the number of candidates, over the same letters as `_letter_counts`. */
  lemma CachePresence(t: Caches, ws: seq<Word>)
    requires Describes(t, ws)
    ensures t.letterPresence.Keys == t.letterCounts.Keys
    ensures forall c :: c in t.letterPresence ==>
      t.letterPresence[c] == Holding(ws, c) &&
      t.letterPresence[c] <= t.letterCounts[c] && t.letterPresence[c] <= t.totalCandidates
  {
    forall c
      ensures c in t.letterPresence <==> c in t.letterCounts
      ensures c in t.letterPresence ==>
        t.letterPresence[c] == Holding(ws, c) &&
        t.letterPresence[c] <= t.letterCounts[c] && t.letterPresence[c] <= t.totalCandidates
    {
      PresenceCounts(ws, c);
    }
  }

  /** One table per position of the last candidate's length, each adding up
      to the number of candidates of that length. */
  lemma CachePositions(t: Caches, ws: seq<Word>)
    requires Describes(t, ws)
    ensures |t.positionCounts| == LastLength(ws)
    ensures forall p :: 0 <= p < |t.positionCounts| ==> MapSum(t.positionCounts[p]) == OfLength(ws, LastLength(ws))
  {
    forall p | 0 <= p < |t.positionCounts| ensures MapSum(t.positionCounts[p]) == OfLength(ws, LastLength(ws)) {
      TallySum(t.positionCounts[p], Column(ws, |t.positionCounts|, p));
      ColumnSize(ws, |t.positionCounts|, p);
    }
  }

  // ---------------------------------------------------------------------
  // The loops of `_calculate_caches`

  /** The letter tables gain the next word. */
  lemma LettersNext(ws: seq<Word>, k: nat)
    requires k < |ws|
    ensures Letters(ws[..k + 1]) == Letters(ws[..k]) + multiset(ws[k])
    ensures TotalLength(ws[..k + 1]) == TotalLength(ws[..k]) + |ws[k]|
    ensures LastLength(ws[..k + 1]) == |ws[k]|
  {
    assert ws[..k + 1][..k] == ws[..k];
  }

  /** The inner loop of the first loop: count each letter of `word`. */
  method CountWord(letterCounts: map<char, nat>, totalLetters: nat, ghost before: multiset<char>, word: Word)
    returns (r: map<char, nat>, total: nat)
    requires TallyOf(letterCounts, before)
    ensures TallyOf(r, before + multiset(word)) && total == totalLetters + |word|
  {
    r, total := letterCounts, totalLetters;
    for j := 0 to |word|
      invariant TallyOf(r, before + multiset(word[..j])) && total == totalLetters + j
    {
      TallyAdd(r, before + multiset(word[..j]), word[j]);
      r := r[word[j] := GetOr(r, word[j]) + 1];
      total := total + 1;
      assert word[..j + 1] == word[..j] + [word[j]];
    }
    assert word[..|word|] == word;
  }

  /** The first loop: `letter_counts`, `total_letters` and the length of the
      last word. */
  method CountLetters(ws: seq<Word>) returns (letterCounts: map<char, nat>, totalLetters: nat, length: nat)
    ensures TallyOf(letterCounts, Letters(ws)) && totalLetters == TotalLength(ws) && length == LastLength(ws)
  {
    letterCounts, totalLetters, length := map[], 0, 0;
    for k := 0 to |ws|
      invariant TallyOf(letterCounts, Letters(ws[..k])) && totalLetters == TotalLength(ws[..k]) && length == LastLength(ws[..k])
    {
      var word := ws[k];
      length := |word|;
      letterCounts, totalLetters := CountWord(letterCounts, totalLetters, Letters(ws[..k]), word);
      LettersNext(ws, k);
    }
    assert ws[..|ws|] == ws;
  }

  lemma OneMore(all: set<char>, todo: set<char>, c: char)
    requires todo <= all && c in todo
    ensures multiset(all - (todo - {c})) == multiset(all - todo) + multiset{c}
  {
    assert all - (todo - {c}) == (all - todo) + {c};
  }

  /** The second loop: `letter_presence`, over `set(word)`. */
  method CountPresence(ws: seq<Word>) returns (letterPresence: map<char, nat>)
    ensures TallyOf(letterPresence, Presence(ws))
  {
    letterPresence := map[];
    for k := 0 to |ws|
      invariant TallyOf(letterPresence, Presence(ws[..k]))
    {
      var uniqueChars := LetterSet(ws[k]);
      ghost var before := Presence(ws[..k]);
      var todo := uniqueChars;
      while todo != {}
        invariant todo <= uniqueChars
        invariant TallyOf(letterPresence, before + multiset(uniqueChars - todo))
        decreases |todo|
      {
        var ch :| ch in todo;
        TallyAdd(letterPresence, before + multiset(uniqueChars - todo), ch);
        OneMore(uniqueChars, todo, ch);
        letterPresence := letterPresence[ch := GetOr(letterPresence, ch) + 1];
        todo := todo - {ch};
      }
      assert uniqueChars - {} == uniqueChars;
      assert ws[..k + 1][..k] == ws[..k];
    }
    assert ws[..|ws|] == ws;
  }

  /** A column gains the letter of the next word when that word has the
      chosen length. */
  lemma ColumnNext(ws: seq<Word>, k: nat, len: nat, p: nat)
    requires k < |ws|
    ensures Column(ws[..k + 1], len, p) ==
      Column(ws[..k], len, p) + (if |ws[k]| == len && p < len then multiset{ws[k][p]} else multiset{})
  {
    assert ws[..k + 1][..k] == ws[..k];
  }

  /** The inner loop of the third loop: count each letter of `word` in the
      dictionary of its position. */
  method CountColumns(positionCounts: seq<map<char, nat>>, word: Word) returns (r: seq<map<char, nat>>)
    requires |word| == |positionCounts|
    ensures |r| == |positionCounts|
    ensures forall p :: 0 <= p < |r| ==> r[p] == positionCounts[p][word[p] := GetOr(positionCounts[p], word[p]) + 1]
  {
    r := positionCounts;
    for i := 0 to |word|
      invariant |r| == |positionCounts|
      invariant forall p :: 0 <= p < i ==> r[p] == positionCounts[p][word[p] := GetOr(positionCounts[p], word[p]) + 1]
      invariant forall p :: i <= p < |r| ==> r[p] == positionCounts[p]
    {
      var column: map<char, nat> := r[i][word[i] := GetOr(r[i], word[i]) + 1];
      r := r[i := column];
    }
  }

  /** The third loop: `position_counts`, one dictionary per position,
      counting only the words of the chosen length. */
  method CountPositions(ws: seq<Word>, length: nat) returns (positionCounts: seq<map<char, nat>>)
    ensures |positionCounts| == length
    ensures forall p :: 0 <= p < length ==> TallyOf(positionCounts[p], Column(ws, length, p))
  {
    positionCounts := seq(length, _ => map[]);
    for k := 0 to |ws|
      invariant |positionCounts| == length
      invariant forall p :: 0 <= p < length ==> TallyOf(positionCounts[p], Column(ws[..k], length, p))
    {
      var word := ws[k];
      ghost var before := positionCounts;
      if |word| == length {
        positionCounts := CountColumns(positionCounts, word);
      }
      forall p | 0 <= p < length ensures TallyOf(positionCounts[p], Column(ws[..k + 1], length, p)) {
        ColumnNext(ws, k, length, p);
        if |word| == length {
          TallyAdd(before[p], Column(ws[..k], length, p), word[p]);
        }
      }
    }
    assert ws[..|ws|] == ws;
  }

  // ---------------------------------------------------------------------
  // Ranking

  /** A scorer reads the tables and scores one candidate. */
  type Scorer = (Caches, Word) -> real

  /** The sort key a scorer gives under the tables `t`. */
  function KeyOf(scorer: Scorer, t: Caches): Word -> real {
    w => scorer(t, w)
  }

  /** The result of `most_likely_candidates(n)`: all candidates when `n`
      is -1, otherwise the slice `[:n]` of the descending order. */
  function Ranked(ws: seq<Word>, key: Word -> real, n: int): seq<Word> {
    if n == -1 then SortDesc(ws, key) else TopN(ws, key, n)
  }

  /** The ranking promises: scores never increase; -1 gives a permutation
      of the candidates; `n >= 0` gives the first min(n, len) of that order,
      each at least as good as any left out; equal scores keep input order. */
  lemma RankedOrder(ws: seq<Word>, key: Word -> real, n: int, v: real)
    ensures var r := Ranked(ws, key, n);
      SortedDesc(r, key) &&
      (n == -1 ==> multiset(r) == multiset(ws) && WithKey(r, key, v) == WithKey(ws, key, v)) &&
      (n >= 0 ==>
        |r| == Min(n, |ws|) && IsPrefix(r, SortDesc(ws, key)) &&
        IsPrefix(WithKey(r, key, v), WithKey(ws, key, v)) &&
        forall i, x :: 0 <= i < |r| && x in multiset(ws) - multiset(r) ==> key(r[i]) >= key(x))
  {
    if n == -1 {
      SortDescStable(ws, key, v);
    } else {
      TopNStable(ws, key, n, v);
    }
  }

  class CandidateRanker {
    var candidates: seq<Word>
    var scorer: Scorer
    var letterCounts: map<char, nat>
    var totalLetters: nat
    var positionCounts: seq<map<char, nat>>
    var letterPresence: map<char, nat>
    var totalCandidates: nat

    function Tables(): Caches
      reads this
    {
      Caches(letterCounts, totalLetters, positionCounts, letterPresence, totalCandidates)
    }

    /** The tables are computed once here; wordle_solver/solver.py falls
        back to `default` (its `DefaultScorer`) when no scorer is given. */
    constructor(candidates: seq<Word>, scorer: Option<Scorer>, default: Scorer)
      ensures this.candidates == candidates
      ensures this.scorer == (if scorer.Some? then scorer.value else default)
      ensures Describes(Tables(), candidates)
    {
      this.candidates := candidates;
      var chosen: Scorer := if scorer.Some? then scorer.value else default;
      this.scorer := chosen;
      new;
      CalculateCaches();
    }

    /** `_calculate_caches`: run the three loops and store the five tables. */
    method CalculateCaches()
      modifies this
      ensures Describes(Tables(), candidates)
      ensures candidates == old(candidates) && scorer == old(scorer)
    {
      var counts, total, length := CountLetters(candidates);
      var presence := CountPresence(candidates);
      var positions := CountPositions(candidates, length);
      letterCounts := counts;
      totalLetters := total;
      positionCounts := positions;
      letterPresence := presence;
      totalCandidates := |candidates|;
    }

    /** `most_likely_candidates(n)`: recompute the tables, score every
        candidate under them, sort by descending score (stable), slice.
        Python's default `n = -1` returns the whole ranking; callers of the
        model pass `n` explicitly. */
    method MostLikelyCandidates(n: int) returns (r: seq<Word>)
      modifies this
      ensures Describes(Tables(), candidates)
      ensures candidates == old(candidates) && scorer == old(scorer)
      ensures r == Ranked(candidates, KeyOf(scorer, Tables()), n)
    {
      CalculateCaches();
      var scoredCandidates := SortDesc(candidates, KeyOf(scorer, Tables()));
      if n == -1 {
        r := scoredCandidates;
      } else {
        r := SliceTo(scoredCandidates, n);
      }
    }
  }
}
