/** The constraint filter of wordle_solver/filter.py: what one guess and its
    g/y/x feedback teach about the answer, and the words that still fit. */
module Filters {
  import opened Common
  import opened Sorting

  /** Everything a `Filter` has learnt: green letters by position, for each
      yellow letter the positions it cannot occupy, grey letters, and lower
      and upper bounds on letter counts. */
  datatype Constraints = Constraints(
    greens: map<nat, char>,
    yellows: map<char, set<nat>>,
    greys: set<char>,
    minCounts: map<char, nat>,
    maxCounts: map<char, nat>)

  // ---------------------------------------------------------------------
  // Which words the constraints admit

  predicate NoGreys(c: Constraints, w: Word) {
    forall i :: 0 <= i < |w| ==> w[i] !in c.greys
  }

  predicate GreensHold(c: Constraints, w: Word) {
    forall pos :: pos in c.greens ==> pos < |w| && w[pos] == c.greens[pos]
  }

  predicate YellowsHold(c: Constraints, w: Word) {
    forall l :: l in c.yellows ==> l in w && forall pos :: pos in c.yellows[l] ==> pos < |w| && w[pos] != l
  }

  predicate CountsHold(c: Constraints, w: Word) {
    (forall l :: l in c.minCounts ==> Count(w, l) >= c.minCounts[l]) &&
    (forall l :: l in c.maxCounts ==> Count(w, l) <= c.maxCounts[l])
  }

  /** A word every constraint allows. */
  predicate Admits(c: Constraints, w: Word) {
    NoGreys(c, w) && GreensHold(c, w) && YellowsHold(c, w) && CountsHold(c, w)
  }

  /** Every recorded position indexes `w` (otherwise `word[pos]` raises). */
  predicate Fits(c: Constraints, w: Word) {
    (forall pos :: pos in c.greens ==> pos < |w|) &&
    (forall l, pos :: l in c.yellows && pos in c.yellows[l] ==> pos < |w|)
  }

  predicate GreensFit(c: Constraints, w: Word) {
    forall pos :: pos in c.greens ==> pos < |w|
  }

  /** The recorded greens agree with `w` wherever they index it. */
  predicate GreensMatch(c: Constraints, w: Word) {
    forall pos :: pos in c.greens && pos < |w| ==> w[pos] == c.greens[pos]
  }

  /** Every forbidden position of a yellow letter that `w` holds indexes `w`. */
  predicate YellowsFit(c: Constraints, w: Word) {
    forall l, pos :: l in c.yellows && l in w && pos in c.yellows[l] ==> pos < |w|
  }

  /** The word raises nothing in `filter_candidates`, whatever order the
      dictionaries and sets are visited in: a grey letter rejects it before
      any index is taken; otherwise every green position must index it, and
      when the greens agree, so must the positions of every yellow letter it
      holds (an absent yellow letter rejects it before its positions are
      looked at). */
  predicate Testable(c: Constraints, w: Word) {
    !NoGreys(c, w) || (GreensFit(c, w) && (GreensMatch(c, w) ==> YellowsFit(c, w)))
  }

  /** A word that every recorded position indexes is testable. */
  lemma FitsTestable(c: Constraints, w: Word)
    requires Fits(c, w)
    ensures Testable(c, w)
  {
  }

  /** A grey letter makes any word testable, however short. */
  lemma GreyShortTestable()
    ensures var c := Constraints(map[4 := 'a'], map[], {'z'}, map[], map[]);
      Testable(c, "zz") && !Fits(c, "zz") && !Admits(c, "zz")
  {
    var c := Constraints(map[4 := 'a'], map[], {'z'}, map[], map[]);
    assert "zz"[0] in c.greys;
    assert 4 in c.greens;
  }

  /** The admitted words of `ws`, in their order. */
  function Kept(c: Constraints, ws: seq<Word>): seq<Word>
  {
    if ws == [] then [] else Kept(c, ws[..|ws| - 1]) + (if Admits(c, ws[|ws| - 1]) then [ws[|ws| - 1]] else [])
  }

  lemma {:induction false} KeptMembers(c: Constraints, ws: seq<Word>)
    ensures forall w :: w in Kept(c, ws) <==> w in ws && Admits(c, w)
  {
    if ws != [] {
      KeptMembers(c, ws[..|ws| - 1]);
      assert ws == ws[..|ws| - 1] + [ws[|ws| - 1]];
    }
  }

  lemma {:induction false} KeptLength(c: Constraints, ws: seq<Word>)
    ensures |Kept(c, ws)| <= |ws|
  {
    if ws != [] { KeptLength(c, ws[..|ws| - 1]); }
  }

  // ---------------------------------------------------------------------
  // What `update` does, position by position

  /** Copies of letters of `gs` whose feedback is 'g' or 'y': the tally
      `green_yellow_counts`. */
  function GYLetters(gs: Word, fs: string): multiset<char>
    requires |gs| <= |fs|
  {
    if gs == [] then multiset{}
    else (if fs[0] == 'g' || fs[0] == 'y' then multiset{gs[0]} else multiset{}) + GYLetters(gs[1..], fs[1..])
  }

  lemma {:induction false} GYLettersAppend(a: Word, b: Word, f: string)
    requires |a| + |b| <= |f|
    ensures GYLetters(a + b, f) == GYLetters(a, f) + GYLetters(b, f[|a|..])
  {
    if a == [] {
      assert a + b == b && f[|a|..] == f;
    } else {
      GYLettersAppend(a[1..], b, f[1..]);
      assert (a + b)[1..] == a[1..] + b;
      assert f[1..][|a| - 1..] == f[|a|..];
    }
  }

  /** The g/y copies among the first `i` positions, one position at a time. */
  ghost function GYTrace(g: Word, f: string, i: nat): multiset<char>
    requires i <= |g| <= |f|
  {
    if i == 0 then multiset{}
    else GYTrace(g, f, i - 1) + (if f[i - 1] == 'g' || f[i - 1] == 'y' then multiset{g[i - 1]} else multiset{})
  }

  lemma {:induction false} GYTraceIs(g: Word, f: string, i: nat)
    requires i <= |g| <= |f|
    ensures GYTrace(g, f, i) == GYLetters(g[..i], f)
  {
    if i > 0 {
      GYTraceIs(g, f, i - 1);
      GYTraceStep(g, f, i);
    }
  }

  lemma GYTraceStep(g: Word, f: string, i: nat)
    requires 0 < i <= |g| <= |f|
    requires GYTrace(g, f, i - 1) == GYLetters(g[..i - 1], f)
    ensures GYTrace(g, f, i) == GYLetters(g[..i], f)
  {
    GYPrefixSnoc(g, f, i);
  }

  lemma GYPrefixSnoc(g: Word, f: string, i: nat)
    requires 0 < i <= |g| <= |f|
    ensures GYLetters(g[..i], f)
         == GYLetters(g[..i - 1], f) + (if f[i - 1] == 'g' || f[i - 1] == 'y' then multiset{g[i - 1]} else multiset{})
  {
    assert g[..i] == g[..i - 1] + [g[i - 1]];
    GYLettersSnoc(g[..i - 1], g[i - 1], f);
  }

  /** Extending the guess by one letter adds that letter's g/y copy. */
  lemma GYLettersSnoc(front: Word, x: char, f: string)
    requires |front| < |f|
    ensures GYLetters(front + [x], f)
         == GYLetters(front, f) + (if f[|front|] == 'g' || f[|front|] == 'y' then multiset{x} else multiset{})
  {
    GYLettersAppend(front, [x], f);
    GYLettersOne(x, f[|front|..]);
  }

  lemma GYLettersOne(x: char, t: string)
    requires 1 <= |t|
    ensures GYLetters([x], t) == if t[0] == 'g' || t[0] == 'y' then multiset{x} else multiset{}
  {
    assert [x][1..] == [];
  }

  /** The dictionary `green_yellow_counts` after the first `i` positions. */
  function GYCounts(g: Word, f: string, i: nat): map<char, nat>
    requires i <= |g| <= |f|
  {
    if i == 0 then map[]
    else
      var m := GYCounts(g, f, i - 1);
      if f[i - 1] == 'g' || f[i - 1] == 'y' then m[g[i - 1] := GetOr(m, g[i - 1]) + 1] else m
  }

  lemma {:induction false} GYCountsTally(g: Word, f: string, i: nat)
    requires i <= |g| <= |f|
    ensures forall ch :: GetOr(GYCounts(g, f, i), ch) == GYTrace(g, f, i)[ch]
    ensures forall ch :: ch in GYCounts(g, f, i) <==> ch in GYTrace(g, f, i)
  {
    if i > 0 { GYCountsTally(g, f, i - 1); }
  }

  /** The finished tally counts, for each letter, its copies marked 'g' or 'y'. */
  function ScoredCounts(g: Word, f: string): (gy: map<char, nat>)
    requires |g| <= |f|
    ensures forall ch :: ch in gy <==> ch in GYLetters(g, f)
    ensures forall ch :: ch in gy ==> gy[ch] == GYLetters(g, f)[ch]
  {
    GYCountsTally(g, f, |g|);
    GYTraceIs(g, f, |g|);
    assert g[..|g|] == g;
    GYCounts(g, f, |g|)
  }

  /** The effect of position `i`, holding letter `ch` with mark `mark`. */
  function Step(c: Constraints, i: nat, ch: char, mark: char, gy: map<char, nat>): Constraints
  {
    if mark == 'g' then
      var ys := if ch in c.yellows && i in c.yellows[ch] then c.yellows[ch := c.yellows[ch] - {i}] else c.yellows;
      c.(greens := c.greens[i := ch], yellows := if ch in ys && ys[ch] == {} then ys - {ch} else ys)
    else if mark == 'y' then
      c.(yellows := c.yellows[ch := (if ch in c.yellows then c.yellows[ch] else {}) + {i}])
    else if mark == 'x' then
      if ch in gy then c.(maxCounts := c.maxCounts[ch := gy[ch]]) else c.(greys := c.greys + {ch})
    else c
  }

  /** The second loop of `update` after its first `n` positions. */
  function Pass(c: Constraints, g: Word, f: string, gy: map<char, nat>, n: nat): Constraints
    requires n <= |g| <= |f|
  {
    if n == 0 then c else Step(Pass(c, g, f, gy, n - 1), n - 1, g[n - 1], f[n - 1], gy)
  }

  /** Raise each lower bound of `m` to the tally in `gy`, for the letters `ks`. */
  function RaiseMins(m: map<char, nat>, gy: map<char, nat>, ks: set<char>): map<char, nat>
    requires ks <= gy.Keys
  {
    map l | l in m.Keys + ks :: if l in ks then Max(GetOr(m, l), gy[l]) else m[l]
  }

  /** Raising one more letter extends the bounds already raised. */
  lemma RaiseMinsAdd(m: map<char, nat>, gy: map<char, nat>, done: set<char>, ch: char, cur: map<char, nat>)
    requires done <= gy.Keys && ch in gy && ch !in done && cur == RaiseMins(m, gy, done)
    ensures (if ch !in cur || cur[ch] < gy[ch] then cur[ch := gy[ch]] else cur) == RaiseMins(m, gy, done + {ch})
  {
  }

  /** The constraints after `update(g, f)`. */
  function UpdateSpec(c: Constraints, g: Word, f: string): Constraints
    requires |g| <= |f|
  {
    var gy := ScoredCounts(g, f);
    var p := Pass(c, g, f, gy, |g|);
    p.(minCounts := RaiseMins(p.minCounts, gy, gy.Keys))
  }

  // ---------------------------------------------------------------------
  // Properties of `update`

  /** What one step leaves alone, and what it can add. */
  lemma StepFrame(c: Constraints, i: nat, ch: char, mark: char, gy: map<char, nat>)
    ensures var s := Step(c, i, ch, mark, gy);
      s.minCounts == c.minCounts && c.greys <= s.greys &&
      s.greens == (if mark == 'g' then c.greens[i := ch] else c.greens) &&
      (forall l :: l in c.maxCounts ==> l in s.maxCounts) &&
      (forall l :: l in s.maxCounts ==> (l in c.maxCounts && s.maxCounts[l] == c.maxCounts[l]) || (l == ch && l in gy && s.maxCounts[l] == gy[l])) &&
      (forall l, k :: l in s.yellows && k in s.yellows[l] ==> k == i || (l in c.yellows && k in c.yellows[l]))
  {
  }

  lemma {:induction false} PassFrame(c: Constraints, g: Word, f: string, gy: map<char, nat>, n: nat)
    requires n <= |g| <= |f|
    ensures Pass(c, g, f, gy, n).minCounts == c.minCounts
    ensures c.greys <= Pass(c, g, f, gy, n).greys
    ensures forall pos: nat :: pos in Pass(c, g, f, gy, n).greens <==> pos in c.greens || (pos < n && f[pos] == 'g')
  {
    if n > 0 {
      PassFrame(c, g, f, gy, n - 1);
      StepFrame(Pass(c, g, f, gy, n - 1), n - 1, g[n - 1], f[n - 1], gy);
    }
  }

  /** Every position the constraints record lies below `len`. */
  predicate Within(c: Constraints, len: nat) {
    (forall pos :: pos in c.greens ==> pos < len) &&
    (forall l, pos :: l in c.yellows && pos in c.yellows[l] ==> pos < len)
  }

  lemma {:induction false} PassWithin(c: Constraints, g: Word, f: string, gy: map<char, nat>, n: nat)
    requires n <= |g| <= |f| && Within(c, |g|)
    ensures Within(Pass(c, g, f, gy, n), |g|)
  {
    if n > 0 {
      PassWithin(c, g, f, gy, n - 1);
      PassWithinStep(c, g, f, gy, n);
    }
  }

  lemma PassWithinStep(c: Constraints, g: Word, f: string, gy: map<char, nat>, n: nat)
    requires 0 < n <= |g| <= |f| && Within(Pass(c, g, f, gy, n - 1), |g|)
    ensures Within(Pass(c, g, f, gy, n), |g|)
  {
    StepFrame(Pass(c, g, f, gy, n - 1), n - 1, g[n - 1], f[n - 1], gy);
  }

  /** `update(g, f)` only records positions of `g`, so after it every word at
      least as long as `g` can be checked without an index error. */
  lemma UpdateWithin(c: Constraints, g: Word, f: string, w: Word)
    requires |g| <= |f| && Within(c, |g|) && |g| <= |w|
    ensures Within(UpdateSpec(c, g, f), |g|) && Fits(UpdateSpec(c, g, f), w)
  {
    PassWithin(c, g, f, ScoredCounts(g, f), |g|);
  }

  /** Greens at positions the guess did not mark green stay as they were. */
  lemma {:induction false} PassGreensKept(c: Constraints, g: Word, f: string, gy: map<char, nat>, n: nat, pos: nat)
    requires n <= |g| <= |f| && pos in c.greens && (pos >= n || f[pos] != 'g')
    ensures pos in Pass(c, g, f, gy, n).greens && Pass(c, g, f, gy, n).greens[pos] == c.greens[pos]
  {
    if n > 0 {
      PassGreensKept(c, g, f, gy, n - 1, pos);
      StepFrame(Pass(c, g, f, gy, n - 1), n - 1, g[n - 1], f[n - 1], gy);
    }
  }

  lemma {:induction false} PassGreen(c: Constraints, g: Word, f: string, gy: map<char, nat>, n: nat, k: nat)
    requires k < n <= |g| <= |f| && f[k] == 'g'
    ensures var p := Pass(c, g, f, gy, n);
      k in p.greens && p.greens[k] == g[k] && (g[k] in p.yellows ==> k !in p.yellows[g[k]])
  {
    if k < n - 1 {
      PassGreen(c, g, f, gy, n - 1, k);
      StepFrame(Pass(c, g, f, gy, n - 1), n - 1, g[n - 1], f[n - 1], gy);
    }
  }

  lemma {:induction false} PassYellow(c: Constraints, g: Word, f: string, gy: map<char, nat>, n: nat, k: nat)
    requires k < n <= |g| <= |f| && f[k] == 'y'
    ensures var p := Pass(c, g, f, gy, n); g[k] in p.yellows && k in p.yellows[g[k]]
  {
    if k < n - 1 {
      PassYellow(c, g, f, gy, n - 1, k);
      StepKeepsYellow(Pass(c, g, f, gy, n - 1), n - 1, g[n - 1], f[n - 1], gy, g[k], k);
    }
  }

  lemma {:induction false} PassGrey(c: Constraints, g: Word, f: string, gy: map<char, nat>, n: nat, k: nat)
    requires k < n <= |g| <= |f| && f[k] == 'x'
    ensures var p := Pass(c, g, f, gy, n);
      (g[k] in gy ==> g[k] in p.maxCounts && p.maxCounts[g[k]] == gy[g[k]]) && (g[k] !in gy ==> g[k] in p.greys)
  {
    if k < n - 1 {
      PassGrey(c, g, f, gy, n - 1, k);
      StepFrame(Pass(c, g, f, gy, n - 1), n - 1, g[n - 1], f[n - 1], gy);
    }
  }

  /** A forbidden position of another index survives any step. */
  lemma StepKeepsYellow(c: Constraints, i: nat, ch: char, mark: char, gy: map<char, nat>, l: char, k: nat)
    requires l in c.yellows && k in c.yellows[l] && k != i
    ensures var s := Step(c, i, ch, mark, gy); l in s.yellows && k in s.yellows[l]
  {
    if mark == 'g' && ch == l {
      assert k in c.yellows[ch] - {i};
    }
  }

  /** Every yellow letter has at least one forbidden position. */
  predicate NoEmptyYellows(c: Constraints) {
    forall l :: l in c.yellows ==> c.yellows[l] != {}
  }

  lemma StepNoEmptyYellows(c: Constraints, i: nat, ch: char, mark: char, gy: map<char, nat>)
    requires NoEmptyYellows(c)
    ensures NoEmptyYellows(Step(c, i, ch, mark, gy))
  {
    if mark == 'y' {
      assert i in Step(c, i, ch, mark, gy).yellows[ch];
    }
  }

  lemma {:induction false} PassNoEmptyYellows(c: Constraints, g: Word, f: string, gy: map<char, nat>, n: nat)
    requires n <= |g| <= |f| && NoEmptyYellows(c)
    ensures NoEmptyYellows(Pass(c, g, f, gy, n))
  {
    if n > 0 {
      PassNoEmptyYellows(c, g, f, gy, n - 1);
      StepNoEmptyYellows(Pass(c, g, f, gy, n - 1), n - 1, g[n - 1], f[n - 1], gy);
    }
  }

  /** A 'g' at position `k` records the letter there and clears `k` from that
      letter's forbidden positions. */
  lemma UpdateGreen(c: Constraints, g: Word, f: string, k: nat)
    requires |g| <= |f| && k < |g| && f[k] == 'g'
    ensures var u := UpdateSpec(c, g, f);
      k in u.greens && u.greens[k] == g[k] && (g[k] in u.yellows ==> k !in u.yellows[g[k]])
  {
    PassGreen(c, g, f, ScoredCounts(g, f), |g|, k);
  }

  /** Greens elsewhere are untouched, and no other position becomes green. */
  lemma UpdateGreensFrame(c: Constraints, g: Word, f: string)
    requires |g| <= |f|
    ensures var u := UpdateSpec(c, g, f);
      c.greens.Keys <= u.greens.Keys &&
      (forall pos :: pos in u.greens ==> pos in c.greens || (pos < |g| && f[pos] == 'g')) &&
      (forall pos :: pos in c.greens && (pos >= |g| || f[pos] != 'g') ==> u.greens[pos] == c.greens[pos])
  {
    var gy := ScoredCounts(g, f);
    PassFrame(c, g, f, gy, |g|);
    forall pos | pos in c.greens && (pos >= |g| || f[pos] != 'g')
      ensures UpdateSpec(c, g, f).greens[pos] == c.greens[pos]
    {
      PassGreensKept(c, g, f, gy, |g|, pos);
    }
  }

  /** A 'y' at position `k` forbids that letter at `k`. */
  lemma UpdateYellow(c: Constraints, g: Word, f: string, k: nat)
    requires |g| <= |f| && k < |g| && f[k] == 'y'
    ensures var u := UpdateSpec(c, g, f); g[k] in u.yellows && k in u.yellows[g[k]]
  {
    PassYellow(c, g, f, ScoredCounts(g, f), |g|, k);
  }

  /** An 'x' caps the letter at its g/y tally when it scored elsewhere in the
      guess, and greys it otherwise. */
  lemma UpdateGrey(c: Constraints, g: Word, f: string, k: nat)
    requires |g| <= |f| && k < |g| && f[k] == 'x'
    ensures var u, t := UpdateSpec(c, g, f), GYLetters(g, f)[g[k]];
      (t > 0 ==> g[k] in u.maxCounts && u.maxCounts[g[k]] == t) && (t == 0 ==> g[k] in u.greys)
  {
    PassGrey(c, g, f, ScoredCounts(g, f), |g|, k);
  }

  /** Lower bounds only rise, each to the larger of its old value and this
      guess's g/y tally; greys only grow. */
  lemma UpdateMins(c: Constraints, g: Word, f: string)
    requires |g| <= |f|
    ensures var u := UpdateSpec(c, g, f);
      c.greys <= u.greys && c.minCounts.Keys <= u.minCounts.Keys &&
      (forall l :: GetOr(u.minCounts, l) == Max(GetOr(c.minCounts, l), GYLetters(g, f)[l])) &&
      (forall l :: l in u.minCounts <==> l in c.minCounts || l in GYLetters(g, f))
  {
    var gy := ScoredCounts(g, f);
    PassFrame(c, g, f, gy, |g|);
    var u := UpdateSpec(c, g, f);
    assert u.minCounts == RaiseMins(c.minCounts, gy, gy.Keys);
    forall l ensures GetOr(u.minCounts, l) == Max(GetOr(c.minCounts, l), GYLetters(g, f)[l]) {
      if l in gy {
        assert GetOr(u.minCounts, l) == Max(GetOr(c.minCounts, l), gy[l]);
      } else {
        assert GYLetters(g, f)[l] == 0;
      }
    }
    assert c.greys <= u.greys;
    assert c.minCounts.Keys <= u.minCounts.Keys;
    assert forall l :: l in u.minCounts <==> l in c.minCounts || l in GYLetters(g, f);
  }

  /** No yellow letter is left with an empty set of forbidden positions. */
  lemma UpdateNoEmptyYellows(c: Constraints, g: Word, f: string)
    requires |g| <= |f| && NoEmptyYellows(c)
    ensures NoEmptyYellows(UpdateSpec(c, g, f))
  {
    PassNoEmptyYellows(c, g, f, ScoredCounts(g, f), |g|);
  }

  // ---------------------------------------------------------------------
  // The object

  class Filter {
    var greens: map<nat, char>
    var yellows: map<char, set<nat>>
    var greys: set<char>
    var length: int
    var minCounts: map<char, nat>
    var maxCounts: map<char, nat>

    function State(): Constraints
      reads this
    {
      Constraints(greens, yellows, greys, minCounts, maxCounts)
    }

    /** A missing map or set is passed as the empty one. Python's default
        `length = 5` is not modelled: callers pass the length explicitly. */
    constructor(greens: map<nat, char>, yellows: map<char, set<nat>>, greys: set<char>, length: int)
      ensures State() == Constraints(greens, yellows, greys, map[], map[]) && this.length == length
    {
      this.greens := greens;
      this.yellows := yellows;
      this.greys := greys;
      this.length := length;
      minCounts := map[];
      maxCounts := map[];
    }

    /** The per-word test inside `filter_candidates`. */
    method Allows(word: Word) returns (ok: bool)
      requires Testable(State(), word)
      ensures ok == Admits(State(), word)
    {
      if exists i :: 0 <= i < |word| && word[i] in greys {
        return false;
      }
      if exists pos :: pos in greens && word[pos] != greens[pos] {
        return false;
      }
      ok := YellowsAllow(word);
      if !ok {
        return false;
      }
      ok := CountsAllow(word);
    }

    /** The yellow check: the letter occurs, and never at a recorded position. */
    method YellowsAllow(word: Word) returns (ok: bool)
      requires YellowsFit(State(), word)
      ensures ok == YellowsHold(State(), word)
    {
      var todo := yellows.Keys;
      while todo != {}
        invariant todo <= yellows.Keys
        invariant forall l :: l in yellows && l !in todo ==>
          l in word && forall pos :: pos in yellows[l] ==> word[pos] != l
      {
        var letter :| letter in todo;
        if letter !in word {
          return false;
        }
        if exists pos :: pos in yellows[letter] && word[pos] == letter {
          return false;
        }
        todo := todo - {letter};
      }
      return true;
    }

    /** The count checks against `min_counts` and `max_counts`. */
    method CountsAllow(word: Word) returns (ok: bool)
      ensures ok == CountsHold(State(), word)
    {
      var wordCounts := WordCounts(word);
      var mins := minCounts.Keys;
      while mins != {}
        invariant mins <= minCounts.Keys
        invariant forall l :: l in minCounts && l !in mins ==> Count(word, l) >= minCounts[l]
      {
        var letter :| letter in mins;
        if GetOr(wordCounts, letter) < minCounts[letter] {
          return false;
        }
        mins := mins - {letter};
      }
      var maxs := maxCounts.Keys;
      while maxs != {}
        invariant maxs <= maxCounts.Keys
        invariant forall l :: l in maxCounts && l !in maxs ==> Count(word, l) <= maxCounts[l]
      {
        var letter :| letter in maxs;
        if GetOr(wordCounts, letter) > maxCounts[letter] {
          return false;
        }
        maxs := maxs - {letter};
      }
      return true;
    }

    /** `filter_candidates`: the admitted words, sorted. */
    method FilterCandidates(words: seq<Word>) returns (r: seq<Word>)
      requires forall w :: w in words ==> Testable(State(), w)
      ensures r == SortLex(Kept(State(), words))
      ensures SortedLex(r)
      ensures forall w :: w in r <==> w in words && Admits(State(), w)
    {
      var filtered: seq<Word> := [];
      for k := 0 to |words|
        invariant filtered == Kept(State(), words[..k])
      {
        var ok := Allows(words[k]);
        assert words[..k + 1][..k] == words[..k];
        if ok {
          filtered := filtered + [words[k]];
        }
      }
      assert words[..|words|] == words;
      r := SortLex(filtered);
      KeptMembers(State(), words);
      assert forall w :: w in r <==> w in multiset(filtered);
    }

    /** `candidates` hands over to `filter_candidates`. */
    method Candidates(words: seq<Word>) returns (r: seq<Word>)
      requires forall w :: w in words ==> Testable(State(), w)
      ensures r == SortLex(Kept(State(), words))
      ensures forall w :: w in r <==> w in words && Admits(State(), w)
    {
      r := FilterCandidates(words);
    }

    /** `update(guess, feedback)`: tally the g/y letters, apply each
        position's mark, then raise the lower bounds. */
    method Update(guess: Word, feedback: string)
      requires |guess| <= |feedback|
      modifies this
      ensures State() == UpdateSpec(old(State()), guess, feedback)
      ensures length == old(length)
    {
      var gyCounts := TallyScored(guess, feedback);
      ApplyMarks(guess, feedback, gyCounts);
      RaiseMinCounts(gyCounts);
    }

    /** The second loop of `update`. */
    method ApplyMarks(guess: Word, feedback: string, gyCounts: map<char, nat>)
      requires |guess| <= |feedback|
      modifies this
      ensures State() == Pass(old(State()), guess, feedback, gyCounts, |guess|)
      ensures length == old(length)
    {
      ghost var c0 := State();
      for i := 0 to |guess|
        invariant State() == Pass(c0, guess, feedback, gyCounts, i)
        invariant length == old(length)
      {
        ApplyMark(i, guess[i], feedback[i], gyCounts);
      }
    }

    /** One position of the second loop: a 'g' records the letter and drops
        the position from its yellows, a 'y' records a forbidden position, an
        'x' caps a letter scored elsewhere and greys any other. */
    method ApplyMark(i: nat, ch: char, mark: char, gyCounts: map<char, nat>)
      modifies this
      ensures State() == Step(old(State()), i, ch, mark, gyCounts)
      ensures length == old(length)
    {
      if mark == 'g' {
        greens := greens[i := ch];
        if ch in yellows {
          if i in yellows[ch] {
            yellows := yellows[ch := yellows[ch] - {i}];
          }
          if yellows[ch] == {} {
            yellows := yellows - {ch};
          }
        }
      } else if mark == 'y' {
        if ch !in yellows {
          yellows := yellows[ch := {}];
        }
        yellows := yellows[ch := yellows[ch] + {i}];
      } else if mark == 'x' {
        if ch in gyCounts {
          maxCounts := maxCounts[ch := gyCounts[ch]];
        } else {
          greys := greys + {ch};
        }
      }
    }

    /** The third loop of `update`. */
    method RaiseMinCounts(gyCounts: map<char, nat>)
      modifies this
      ensures State() == old(State()).(minCounts := RaiseMins(old(minCounts), gyCounts, gyCounts.Keys))
      ensures length == old(length)
    {
      ghost var m0 := minCounts;
      var todo := gyCounts.Keys;
      while todo != {}
        invariant todo <= gyCounts.Keys
        invariant minCounts == RaiseMins(m0, gyCounts, gyCounts.Keys - todo)
        invariant State() == old(State()).(minCounts := minCounts)
        invariant length == old(length)
      {
        var ch :| ch in todo;
        var count := gyCounts[ch];
        RaiseMinsAdd(m0, gyCounts, gyCounts.Keys - todo, ch, minCounts);
        assert gyCounts.Keys - (todo - {ch}) == (gyCounts.Keys - todo) + {ch};
        if ch !in minCounts || minCounts[ch] < count {
          minCounts := minCounts[ch := count];
        }
        todo := todo - {ch};
      }
    }
  }

  /** The first loop of `update`: `green_yellow_counts`. */
  method TallyScored(guess: Word, feedback: string) returns (gyCounts: map<char, nat>)
    requires |guess| <= |feedback|
    ensures gyCounts == ScoredCounts(guess, feedback)
  {
    gyCounts := map[];
    for i := 0 to |guess|
      invariant gyCounts == GYCounts(guess, feedback, i)
    {
      if feedback[i] == 'g' || feedback[i] == 'y' {
        gyCounts := gyCounts[guess[i] := GetOr(gyCounts, guess[i]) + 1];
      }
    }
  }

  /** `word_counts`: how often each letter occurs in `word`. */
  method WordCounts(word: Word) returns (counts: map<char, nat>)
    ensures forall c :: GetOr(counts, c) == Count(word, c)
  {
    counts := map[];
    for j := 0 to |word|
      invariant forall c :: GetOr(counts, c) == Count(word[..j], c)
    {
      assert multiset(word[..j + 1]) == multiset(word[..j]) + multiset{word[j]} by {
        assert word[..j + 1] == word[..j] + [word[j]];
      }
      ghost var before := counts;
      counts := counts[word[j] := GetOr(counts, word[j]) + 1];
      forall c ensures GetOr(counts, c) == Count(word[..j + 1], c) {
        if c != word[j] { assert GetOr(counts, c) == GetOr(before, c); }
      }
    }
    assert word[..|word|] == word;
  }
}
