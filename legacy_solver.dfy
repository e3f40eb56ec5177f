/** The first solver (solver.py): greens and yellows map a letter to a
    single index, greys are a list, candidates come from three list
    comprehensions, and ranking uses a fixed letter-frequency score. */
module LegacySolver {
  import opened Common
  import opened Sorting

  // ---------------------------------------------------------------------
  // Filtering with comprehensions

  /** `[w for w in ws if keep(w)]`. */
  function Select(ws: seq<Word>, keep: Word -> bool): seq<Word>
  {
    if ws == [] then [] else (if keep(ws[0]) then [ws[0]] else []) + Select(ws[1..], keep)
  }

  /** A comprehension keeps exactly the accepted words, in their order. */
  lemma {:induction false} SelectSpec(ws: seq<Word>, keep: Word -> bool)
    ensures IsSubsequence(Select(ws, keep), ws)
    ensures forall w :: w in Select(ws, keep) <==> w in ws && keep(w)
    ensures forall w :: multiset(Select(ws, keep))[w] == if keep(w) then multiset(ws)[w] else 0
  {
    if ws != [] {
      SelectSpec(ws[1..], keep);
      SelectSubsequenceStep(ws, keep);
      SelectMembersStep(ws, keep);
      SelectCountStep(ws, keep);
    }
  }

  lemma SelectSubsequenceStep(ws: seq<Word>, keep: Word -> bool)
    requires ws != [] && IsSubsequence(Select(ws[1..], keep), ws[1..])
    ensures IsSubsequence(Select(ws, keep), ws)
  {
    var r, t := Select(ws, keep), Select(ws[1..], keep);
    if keep(ws[0]) {
      assert r == [ws[0]] + t && r[1..] == t;
      assert r[0] == ws[0] && IsSubsequence(r[1..], ws[1..]);
    } else {
      assert r == t;
      if r != [] { assert IsSubsequence(r, ws[1..]); }
    }
  }

  lemma SelectMembersStep(ws: seq<Word>, keep: Word -> bool)
    requires ws != [] && forall w :: w in Select(ws[1..], keep) <==> w in ws[1..] && keep(w)
    ensures forall w :: w in Select(ws, keep) <==> w in ws && keep(w)
  {
    assert ws == [ws[0]] + ws[1..];
  }

  lemma SelectCountStep(ws: seq<Word>, keep: Word -> bool)
    requires ws != [] && forall w :: multiset(Select(ws[1..], keep))[w] == if keep(w) then multiset(ws[1..])[w] else 0
    ensures forall w :: multiset(Select(ws, keep))[w] == if keep(w) then multiset(ws)[w] else 0
  {
    assert ws == [ws[0]] + ws[1..];
  }

  /** No letter of the word is in the grey list. */
  predicate NoGrey(greys: seq<char>, w: Word) {
    forall i :: 0 <= i < |w| ==> w[i] !in greys
  }

  /** `filter_by_greys`. */
  function FilterByGreys(greys: seq<char>, words: seq<Word>): (r: seq<Word>)
    ensures IsSubsequence(r, words)
    ensures forall w :: w in r <==> w in words && (forall c :: c in w ==> c !in greys)
    ensures forall w :: multiset(r)[w] == if NoGrey(greys, w) then multiset(words)[w] else 0
  {
    SelectSpec(words, w => NoGrey(greys, w));
    Select(words, w => NoGrey(greys, w))
  }

  /** Two finite sets, one inside the other, are equal exactly when they
      have the same size. */
  lemma SubsetCard<T>(a: set<T>, b: set<T>)
    requires a <= b
    ensures |a| == |b| <==> a == b
  {
    if a != b {
      if b - a == {} {
        forall x | x in b ensures x in a {
          assert x !in b - a;
        }
      }
      var x :| x in b - a;
      assert b == a + (b - a);
      assert x in b - a;
    }
  }

  /** `is_legal_by_greens`: the green letters the word holds, counted once
      each, must number `len(greens)`, and every position holding a green
      letter must be that letter's index. */
  function IsLegalByGreens(greens: map<char, int>, word: Word): (ok: bool)
    ensures ok <==>
      (forall c :: c in greens ==> c in word) &&
      (forall i :: 0 <= i < |word| && word[i] in greens ==> greens[word[i]] == i)
  {
    SubsetCard((set c | c in word && c in greens), greens.Keys);
    |set c | c in word && c in greens| == |greens| &&
    forall i :: 0 <= i < |word| ==> (word[i] in greens && greens[word[i]] == i) || word[i] !in greens
  }

  /** `is_legal_by_yellows`: every yellow letter occurs, and no position
      holding a yellow letter is that letter's index. */
  function IsLegalByYellows(yellows: map<char, int>, word: Word): (ok: bool)
    ensures ok <==>
      (forall c :: c in yellows ==> c in word) &&
      (forall i :: 0 <= i < |word| && word[i] in yellows ==> yellows[word[i]] != i)
  {
    SubsetCard((set c | c in word && c in yellows), yellows.Keys);
    |set c | c in word && c in yellows| == |yellows| &&
    forall i :: 0 <= i < |word| ==> (word[i] in yellows && yellows[word[i]] != i) || word[i] !in yellows
  }

  /** `filter_by_greens`. */
  function FilterByGreens(greens: map<char, int>, words: seq<Word>): (r: seq<Word>)
    ensures IsSubsequence(r, words)
    ensures forall w :: w in r <==> w in words && IsLegalByGreens(greens, w)
    ensures forall w :: multiset(r)[w] == if IsLegalByGreens(greens, w) then multiset(words)[w] else 0
  {
    SelectSpec(words, w => IsLegalByGreens(greens, w));
    Select(words, w => IsLegalByGreens(greens, w))
  }

  /** `filter_by_yellows`. */
  function FilterByYellows(yellows: map<char, int>, words: seq<Word>): (r: seq<Word>)
    ensures IsSubsequence(r, words)
    ensures forall w :: w in r <==> w in words && IsLegalByYellows(yellows, w)
    ensures forall w :: multiset(r)[w] == if IsLegalByYellows(yellows, w) then multiset(words)[w] else 0
  {
    SelectSpec(words, w => IsLegalByYellows(yellows, w));
    Select(words, w => IsLegalByYellows(yellows, w))
  }

  /** All three checks of `candidates`. */
  predicate Legal(s: Colours, w: Word) {
    NoGrey(s.greys, w) && IsLegalByGreens(s.greens, w) && IsLegalByYellows(s.yellows, w)
  }

  /** `candidates`: greys, then greens, then yellows. */
  function Candidates(s: Colours, words: seq<Word>): (r: seq<Word>)
    ensures IsSubsequence(r, words)
    ensures forall w :: w in r <==> w in words && Legal(s, w)
    ensures forall w :: multiset(r)[w] == if Legal(s, w) then multiset(words)[w] else 0
  {
    var byGreys := FilterByGreys(s.greys, words);
    var byGreens := FilterByGreens(s.greens, byGreys);
    SubsequenceTrans(byGreens, byGreys, words);
    var r := FilterByYellows(s.yellows, byGreens);
    SubsequenceTrans(r, byGreens, words);
    r
  }

  // ---------------------------------------------------------------------
  // The usefulness score

  /** Letters from most to least frequent. */
  const Frequency: string := "etaonrishdlfcmugypwbvkjxzq"

  /** `s.index(c)`: the first position holding `c`. */
  function IndexIn(s: string, c: char): (k: nat)
    requires c in s
    ensures k < |s| && s[k] == c && forall j :: 0 <= j < k ==> s[j] != c
  {
    if s[0] == c then 0 else 1 + IndexIn(s[1..], c)
  }

  /** The frequency list holds exactly the 26 lower-case letters. */
  lemma FrequencyIsAlphabet(c: char)
    ensures c in Frequency <==> 'a' <= c <= 'z'
  {
    if 'a' <= c <= 'z' {
      assert c == 'a' || c == 'b' || c == 'c' || c == 'd' || c == 'e' || c == 'f' || c == 'g' ||
             c == 'h' || c == 'i' || c == 'j' || c == 'k' || c == 'l' || c == 'm' || c == 'n' ||
             c == 'o' || c == 'p' || c == 'q' || c == 'r' || c == 's' || c == 't' || c == 'u' ||
             c == 'v' || c == 'w' || c == 'x' || c == 'y' || c == 'z';
    }
  }

  /** `26 - frequency.index(c)`: 26 for 'e' down to 1 for 'q'. */
  function LetterValue(c: char): (v: int)
    requires c in Frequency
    ensures 1 <= v <= 26 && Frequency[26 - v] == c
  {
    26 - IndexIn(Frequency, c)
  }

  /** The sum of the letter values of `w`. */
  function LetterSum(w: Word): (r: int)
    requires forall i :: 0 <= i < |w| ==> w[i] in Frequency
    ensures |w| <= r <= 26 * |w|
  {
    if w == [] then 0 else LetterValue(w[0]) + LetterSum(w[1..])
  }

  /** `score_candidate_by_usefulness`; `frequency.index` raises ValueError
      for a character outside the list, modelled as None. */
  function Usefulness(w: Word): (r: Option<int>)
    ensures r.Some? <==> IsLower(w)
    ensures var d := |set c | c in w|;
      r.Some? ==> d <= |w| && |w| + d * d <= r.value <= 26 * |w| + d * d
  {
    forall i | 0 <= i < |w| ensures w[i] in Frequency <==> 'a' <= w[i] <= 'z' {
      FrequencyIsAlphabet(w[i]);
    }
    DistinctCard(w);
    if forall i :: 0 <= i < |w| ==> w[i] in Frequency then
      Some(LetterSum(w) + |set c | c in w| * |set c | c in w|)
    else None
  }

  /** The score as a sort key. */
  function UsefulnessKey(w: Word): real {
    match Usefulness(w)
    case Some(v) => v as real
    case None => 0.0
  }

  /** `most_likely_candidates(candidates, n)`: the `n` highest scores, ties
      in input order; the sort raises when any candidate has no score.
      Python's default is `n = 10`; callers of the model pass `n` explicitly. */
  function MostLikelyCandidates(candidates: seq<Word>, n: int): (r: Option<seq<Word>>)
    ensures r.Some? <==> forall w :: w in candidates ==> IsLower(w)
    ensures r.Some? ==> r.value == TopN(candidates, UsefulnessKey, n)
  {
    if forall w :: w in candidates ==> Usefulness(w).Some? then Some(TopN(candidates, UsefulnessKey, n)) else None
  }

  /** What the ranking promises: for `n >= 0`, the first min(n, len)
      candidates by descending score, each at least as good as any left
      out, equal scores in input order. */
  lemma MostLikelyRanked(candidates: seq<Word>, n: int, v: real)
    requires forall w :: w in candidates ==> IsLower(w)
    ensures var r := MostLikelyCandidates(candidates, n).value;
      (n >= 0 ==> |r| == Min(n, |candidates|)) &&
      SortedDesc(r, UsefulnessKey) && multiset(r) <= multiset(candidates) &&
      (forall i, x :: 0 <= i < |r| && x in multiset(candidates) - multiset(r) ==> UsefulnessKey(r[i]) >= UsefulnessKey(x)) &&
      IsPrefix(WithKey(r, UsefulnessKey, v), WithKey(candidates, UsefulnessKey, v))
  {
    TopNStable(candidates, UsefulnessKey, n, v);
  }

  // ---------------------------------------------------------------------
  // `update`

  /** What a `Solver` knows: letter to index for greens and yellows, and the
      grey letters in the order first seen. */
  datatype Colours = Colours(greens: map<char, int>, yellows: map<char, int>, greys: seq<char>)

  /** One position of `update`. */
  function SolverStep(s: Colours, i: nat, ch: char, mark: char): Colours {
    if mark == 'g' then
      s.(greens := s.greens[ch := i], yellows := s.yellows - {ch})
    else if mark == 'y' then
      s.(yellows := s.yellows[ch := i])
    else if mark == 'x' then
      if ch !in s.greys then s.(greys := s.greys + [ch]) else s
    else s
  }

  /** The first `n` positions of `update`. */
  function SolverPass(s: Colours, g: Word, f: string, n: nat): Colours
    requires n <= |g| <= |f|
  {
    if n == 0 then s else SolverStep(SolverPass(s, g, f, n - 1), n - 1, g[n - 1], f[n - 1])
  }

  /** The grey list only grows at its end, never repeats a letter if it did
      not before, and gains exactly the letters marked 'x'. */
  lemma {:induction false} PassGreys(s: Colours, g: Word, f: string, n: nat)
    requires n <= |g| <= |f|
    ensures var p := SolverPass(s, g, f, n);
      IsPrefix(s.greys, p.greys) &&
      (Distinct(s.greys) ==> Distinct(p.greys)) &&
      (forall c :: c in p.greys <==> c in s.greys || exists i :: 0 <= i < n && f[i] == 'x' && g[i] == c)
  {
    if n > 0 {
      PassGreys(s, g, f, n - 1);
      var q := SolverPass(s, g, f, n - 1);
      var p := SolverPass(s, g, f, n);
      if f[n - 1] == 'x' && g[n - 1] !in q.greys {
        assert p.greys == q.greys + [g[n - 1]];
        PrefixAppend(s.greys, q.greys, [g[n - 1]]);
      }
    }
  }

  /** What one position does to each table. */
  lemma StepTables(q: Colours, i: nat, ch: char, mark: char)
    ensures var p := SolverStep(q, i, ch, mark);
      p.greens == (if mark == 'g' then q.greens[ch := i] else q.greens) &&
      p.yellows == (if mark == 'g' then q.yellows - {ch} else if mark == 'y' then q.yellows[ch := i] else q.yellows)
  {
  }

  /** A letter is green after `update` exactly when it was before or some
      position marked it 'g'. */
  lemma {:induction false} PassGreenKeys(s: Colours, g: Word, f: string, n: nat)
    requires n <= |g| <= |f|
    ensures forall c :: c in SolverPass(s, g, f, n).greens <==>
      c in s.greens || exists i :: 0 <= i < n && f[i] == 'g' && g[i] == c
  {
    if n > 0 {
      PassGreenKeys(s, g, f, n - 1);
      var q := SolverPass(s, g, f, n - 1);
      StepTables(q, n - 1, g[n - 1], f[n - 1]);
      forall c ensures c in SolverPass(s, g, f, n).greens <==>
        c in s.greens || exists i :: 0 <= i < n && f[i] == 'g' && g[i] == c
      {
        if f[n - 1] == 'g' && g[n - 1] == c {
          assert c in SolverPass(s, g, f, n).greens;
        } else {
          assert (exists i :: 0 <= i < n && f[i] == 'g' && g[i] == c) <==>
                 (exists i :: 0 <= i < n - 1 && f[i] == 'g' && g[i] == c);
        }
      }
    }
  }

  /** A letter's green index is the position of its last 'g'. */
  lemma {:induction false} PassGreenLast(s: Colours, g: Word, f: string, n: nat)
    requires n <= |g| <= |f|
    ensures forall i :: 0 <= i < n && f[i] == 'g' && (forall j :: i < j < n && g[j] == g[i] ==> f[j] != 'g') ==>
      g[i] in SolverPass(s, g, f, n).greens && SolverPass(s, g, f, n).greens[g[i]] == i
  {
    if n > 0 {
      PassGreenLast(s, g, f, n - 1);
      var q := SolverPass(s, g, f, n - 1);
      StepTables(q, n - 1, g[n - 1], f[n - 1]);
    }
  }

  /** A green letter no position marks 'g' keeps its index. */
  lemma {:induction false} PassGreenFrame(s: Colours, g: Word, f: string, n: nat)
    requires n <= |g| <= |f|
    ensures forall c :: c in s.greens && (forall j :: 0 <= j < n && g[j] == c ==> f[j] != 'g') ==>
      c in SolverPass(s, g, f, n).greens && SolverPass(s, g, f, n).greens[c] == s.greens[c]
  {
    if n > 0 {
      PassGreenFrame(s, g, f, n - 1);
      var q := SolverPass(s, g, f, n - 1);
      StepTables(q, n - 1, g[n - 1], f[n - 1]);
    }
  }

  /** A letter is yellow after `update` only if it was before or some
      position marked it 'y'. */
  lemma {:induction false} PassYellowKeys(s: Colours, g: Word, f: string, n: nat)
    requires n <= |g| <= |f|
    ensures forall c :: c in SolverPass(s, g, f, n).yellows ==>
      c in s.yellows || exists i :: 0 <= i < n && f[i] == 'y' && g[i] == c
  {
    if n > 0 {
      PassYellowKeys(s, g, f, n - 1);
      var q := SolverPass(s, g, f, n - 1);
      StepTables(q, n - 1, g[n - 1], f[n - 1]);
      forall c | c in SolverPass(s, g, f, n).yellows
        ensures c in s.yellows || exists i :: 0 <= i < n && f[i] == 'y' && g[i] == c
      {
        if !(f[n - 1] == 'y' && g[n - 1] == c) {
          assert c in q.yellows;
        }
      }
    }
  }

  /** A letter's yellow index is the position of its last 'y' when no 'g'
      or 'y' for it follows. */
  lemma {:induction false} PassYellowLast(s: Colours, g: Word, f: string, n: nat)
    requires n <= |g| <= |f|
    ensures forall i :: 0 <= i < n && f[i] == 'y' && (forall j :: i < j < n && g[j] == g[i] ==> f[j] != 'g' && f[j] != 'y') ==>
      g[i] in SolverPass(s, g, f, n).yellows && SolverPass(s, g, f, n).yellows[g[i]] == i
  {
    if n > 0 {
      PassYellowLast(s, g, f, n - 1);
      var q := SolverPass(s, g, f, n - 1);
      StepTables(q, n - 1, g[n - 1], f[n - 1]);
    }
  }

  /** A 'g' with no later 'y' for the letter leaves it out of the yellows. */
  lemma {:induction false} PassGreenClearsYellow(s: Colours, g: Word, f: string, n: nat)
    requires n <= |g| <= |f|
    ensures forall i :: 0 <= i < n && f[i] == 'g' && (forall j :: i < j < n && g[j] == g[i] ==> f[j] != 'y') ==>
      g[i] !in SolverPass(s, g, f, n).yellows
  {
    if n > 0 {
      PassGreenClearsYellow(s, g, f, n - 1);
      var q := SolverPass(s, g, f, n - 1);
      StepTables(q, n - 1, g[n - 1], f[n - 1]);
    }
  }

  class Solver {
    var greens: map<char, int>
    var yellows: map<char, int>
    var greys: seq<char>
    var length: int

    function State(): Colours
      reads this
    {
      Colours(greens, yellows, greys)
    }

    /** `greens or {}` and the like: a missing map or list is passed as the
        empty one. Python's default `length = 5` is not modelled: callers
        pass the length explicitly. */
    constructor(greens: map<char, int>, yellows: map<char, int>, greys: seq<char>, length: int)
      ensures State() == Colours(greens, yellows, greys) && this.length == length
    {
      this.greens := greens;
      this.yellows := yellows;
      this.greys := greys;
      this.length := length;
    }

    /** `update(guess, feedback)`; `feedback[i]` raises when the feedback is
        shorter than the guess. */
    method Update(guess: Word, feedback: string)
      requires |guess| <= |feedback|
      modifies this
      ensures State() == SolverPass(old(State()), guess, feedback, |guess|)
      ensures length == old(length)
    {
      for i := 0 to |guess|
        invariant State() == SolverPass(old(State()), guess, feedback, i)
        invariant length == old(length)
      {
        var ch := guess[i];
        if feedback[i] == 'g' {
          greens := greens[ch := i];
          if ch in yellows {
            yellows := yellows - {ch};
          }
        } else if feedback[i] == 'y' {
          yellows := yellows[ch := i];
        } else if feedback[i] == 'x' {
          if ch !in greys {
            greys := greys + [ch];
          }
        }
      }
    }
  }

  // ---------------------------------------------------------------------
  // `format_candidates`

  /** `str(n)` for a natural number. */
  function Numeral(n: nat): (s: string)
    ensures |s| >= 1 && forall i :: 0 <= i < |s| ==> '0' <= s[i] <= '9'
    ensures s[0] == '0' ==> n == 0
  {
    if n < 10 then [DigitChar(n)] else Numeral(n / 10) + [DigitChar(n % 10)]
  }

  function DigitChar(d: nat): (c: char)
    requires d < 10
    ensures '0' <= c <= '9'
  {
    ['0', '1', '2', '3', '4', '5', '6', '7', '8', '9'][d]
  }

  /** The number a string of decimal digits spells. */
  function NumeralValue(s: string): nat
    requires forall i :: 0 <= i < |s| ==> '0' <= s[i] <= '9'
  {
    if s == [] then 0 else 10 * NumeralValue(s[..|s| - 1]) + ((s[|s| - 1] as int) - ('0' as int))
  }

  lemma DigitCharValue(d: nat)
    requires d < 10
    ensures (DigitChar(d) as int) - ('0' as int) == d
  {
  }

  /** `str` and reading the digits back are inverse. */
  lemma {:induction false} NumeralRoundTrip(n: nat)
    ensures NumeralValue(Numeral(n)) == n
  {
    if n < 10 {
      DigitCharValue(n);
      assert Numeral(n)[..0] == [];
    } else {
      var q, d := n / 10, n % 10;
      NumeralRoundTrip(q);
      DigitCharValue(d);
      var s := Numeral(n);
      assert s == Numeral(q) + [DigitChar(d)];
      assert s[..|s| - 1] == Numeral(q);
      assert NumeralValue(s) == 10 * q + d;
    }
  }

  /** `format_candidates`: each word followed by its 1-based rank in
      parentheses. */
  function FormatCandidates(candidates: seq<Word>): (r: seq<string>)
    ensures |r| == |candidates|
  {
    seq(|candidates|, (i: int) requires 0 <= i < |candidates| => candidates[i] + " (" + Numeral(i + 1) + ")")
  }

  /** Entry `i` reads back as the word, " (", the number `i + 1`, ")". */
  lemma FormatCandidatesEntry(candidates: seq<Word>, i: nat)
    requires i < |candidates|
    ensures var e, w := FormatCandidates(candidates)[i], candidates[i];
      |e| >= |w| + 4 && e[..|w|] == w && e[|w|..|w| + 2] == " (" && e[|e| - 1] == ')' &&
      (forall k :: |w| + 2 <= k < |e| - 1 ==> '0' <= e[k] <= '9') &&
      NumeralValue(e[|w| + 2..|e| - 1]) == i + 1
  {
    var e, w, d := FormatCandidates(candidates)[i], candidates[i], Numeral(i + 1);
    assert e == w + " (" + d + ")";
    assert e[|w| + 2..|e| - 1] == d;
    NumeralRoundTrip(i + 1);
  }
}
