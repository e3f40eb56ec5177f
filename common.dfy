/** Shared vocabulary: words, letter counts, count tables, Python slicing. */
module Common {

  /** A word is a Python `str`: a sequence of characters. */
  type Word = seq<char>

  datatype Option<T> = None | Some(value: T)

  /** Every character is one of 'a'..'z', the alphabet `ord_dict` knows. */
  predicate IsLower(w: Word) {
    forall i :: 0 <= i < |w| ==> 'a' <= w[i] <= 'z'
  }

  /** Number of occurrences of `c` in `w`. */
  function Count(w: Word, c: char): nat {
    multiset(w)[c]
  }

  /** `m.get(k, 0)` on a dictionary of counts. */
  function GetOr<K>(m: map<K, nat>, k: K): nat {
    if k in m then m[k] else 0
  }

  /** The dictionary that counts the elements of a multiset (what the source
      builds with `d[x] = d.get(x, 0) + 1`). */
  function ToMap<T>(m: multiset<T>): (r: map<T, nat>)
    ensures r.Keys == set x | x in m
    ensures forall x :: x in r ==> r[x] == m[x] && r[x] >= 1
  {
    map x | x in m :: m[x]
  }

  /** Counting one more `x` is one increment of the dictionary. */
  lemma ToMapAdd<T>(m: multiset<T>, x: T)
    ensures ToMap(m + multiset{x}) == ToMap(m)[x := GetOr(ToMap(m), x) + 1]
  {
    var l, r := ToMap(m + multiset{x}), ToMap(m)[x := GetOr(ToMap(m), x) + 1];
    assert l.Keys == r.Keys;
    forall y | y in l ensures l[y] == r[y] {}
  }

  /** Sum of the values of a dictionary of counts over the keys `ks`. */
  ghost function SumOver<K>(m: map<K, nat>, ks: set<K>): nat
    requires ks <= m.Keys
  {
    if ks == {} then 0 else var k :| k in ks; m[k] + SumOver(m, ks - {k})
  }
  /** `sum(d.values())`. */
  ghost function MapSum<K>(m: map<K, nat>): nat { SumOver(m, m.Keys) }

  lemma {:induction false} SumOverRemove<K>(m: map<K, nat>, ks: set<K>, k: K)
    requires ks <= m.Keys && k in ks
    ensures SumOver(m, ks) == m[k] + SumOver(m, ks - {k})
    decreases ks
  {
    var j :| j in ks && SumOver(m, ks) == m[j] + SumOver(m, ks - {j});
    if j != k {
      SumOverRemove(m, ks - {j}, k);
      SumOverRemove(m, ks - {k}, j);
      assert ks - {j} - {k} == ks - {k} - {j};
    }
  }

  lemma {:induction false} SumOverAgree<K>(m: map<K, nat>, m': map<K, nat>, ks: set<K>)
    requires ks <= m.Keys && ks <= m'.Keys
    requires forall k :: k in ks ==> m[k] == m'[k]
    ensures SumOver(m, ks) == SumOver(m', ks)
    decreases ks
  {
    if ks != {} {
      var k :| k in ks;
      SumOverRemove(m, ks, k);
      SumOverRemove(m', ks, k);
      SumOverAgree(m, m', ks - {k});
    }
  }

  lemma MapSumUpdate<K>(m: map<K, nat>, k: K, v: nat)
    ensures MapSum(m[k := v]) == v + MapSum(m - {k})
  {
    var m' := m[k := v];
    SumOverRemove(m', m'.Keys, k);
    assert m'.Keys - {k} == (m - {k}).Keys;
    SumOverAgree(m', m - {k}, (m - {k}).Keys);
  }

  /** The counts of a multiset add up to its size. */
  lemma {:induction false} MapSumToMap<T>(m: multiset<T>)
    ensures MapSum(ToMap(m)) == |m|
    decreases |m|
  {
    if |m| == 0 {
      assert ToMap(m) == map[];
    } else {
      var x :| x in m;
      var rest := m - multiset{x};
      assert m == rest + multiset{x};
      MapSumToMap(rest);
      ToMapAdd(rest, x);
      MapSumBump(ToMap(rest), x);
    }
  }

  /** Adding one to a count adds one to the sum. */
  lemma MapSumBump<K>(m: map<K, nat>, k: K)
    ensures MapSum(m[k := GetOr(m, k) + 1]) == MapSum(m) + 1
  {
    MapSumUpdate(m, k, GetOr(m, k) + 1);
    if k in m {
      MapSumUpdate(m, k, m[k]);
      assert m[k := m[k]] == m;
    } else {
      assert m - {k} == m;
    }
  }

  /** A dictionary whose counts are all positive has at most as many keys as
      its counts add up to. */
  lemma {:induction false} SumOverAtLeastSize<K>(m: map<K, nat>, ks: set<K>)
    requires ks <= m.Keys
    requires forall k :: k in ks ==> m[k] >= 1
    ensures |ks| <= SumOver(m, ks)
    decreases ks
  {
    if ks != {} {
      var k :| k in ks;
      SumOverRemove(m, ks, k);
      SumOverAtLeastSize(m, ks - {k});
    }
  }

  /** `m` is the dictionary that counts the elements of `M`: the same keys,
      and each key's count. */
  ghost predicate TallyOf<T(!new)>(m: map<T, nat>, M: multiset<T>) {
    forall x :: (x in m <==> x in M) && (x in m ==> m[x] == M[x])
  }

  /** `d[x] = d.get(x, 0) + 1` counts one more `x`. */
  lemma TallyAdd<T(!new)>(m: map<T, nat>, M: multiset<T>, x: T)
    requires TallyOf(m, M)
    ensures TallyOf(m[x := GetOr(m, x) + 1], M + multiset{x})
  {
  }

  /** A tally is the counting dictionary of its multiset. */
  lemma TallyIsToMap<T(!new)>(m: map<T, nat>, M: multiset<T>)
    requires TallyOf(m, M)
    ensures m == ToMap(M)
  {
    assert m.Keys == ToMap(M).Keys;
  }

  /** A tally's counts are positive and add up to the multiset's size, so it
      has at most that many keys. */
  lemma TallySum<T(!new)>(m: map<T, nat>, M: multiset<T>)
    requires TallyOf(m, M)
    ensures (forall x :: x in m ==> m[x] >= 1) && MapSum(m) == |M| && |m.Keys| <= |M|
  {
    TallyIsToMap(m, M);
    MapSumToMap(M);
    SumOverAtLeastSize(m, m.Keys);
  }

  /** Pairwise distinct elements. */
  predicate Distinct<T(==)>(s: seq<T>) {
    forall i, j :: 0 <= i < j < |s| ==> s[i] != s[j]
  }

  /** `len(set(s))` never exceeds `len(s)`, with equality exactly when the
      elements are pairwise distinct. */
  lemma {:induction false} DistinctCard<T>(s: seq<T>)
    ensures |set x | x in s| <= |s|
    ensures |set x | x in s| == |s| <==> Distinct(s)
  {
    if s != [] {
      var t := s[1..];
      DistinctCard(t);
      var st := set x | x in t;
      assert (set x | x in s) == st + {s[0]};
      if s[0] in st {
        assert st + {s[0]} == st;
        var j :| 0 <= j < |t| && t[j] == s[0];
        assert s[0] == s[j + 1];
      } else {
        assert |set x | x in s| == |st| + 1;
        if Distinct(t) {
          forall i, j | 0 <= i < j < |s| ensures s[i] != s[j] {
            if i == 0 { assert s[j] == t[j - 1]; } else { assert s[i] == t[i - 1] && s[j] == t[j - 1]; }
          }
        } else {
          var i, j :| 0 <= i < j < |t| && t[i] == t[j];
          assert s[i + 1] == s[j + 1];
        }
      }
    }
  }

  /** `r` is `s` with some elements left out, order kept. */
  predicate IsSubsequence<T(==)>(r: seq<T>, s: seq<T>)
    decreases |s|
  {
    if r == [] then true
    else if s == [] then false
    else (r[0] == s[0] && IsSubsequence(r[1..], s[1..])) || IsSubsequence(r, s[1..])
  }

  lemma {:induction false} SubsequenceTrans<T>(a: seq<T>, b: seq<T>, c: seq<T>)
    requires IsSubsequence(a, b) && IsSubsequence(b, c)
    ensures IsSubsequence(a, c)
    decreases |c|
  {
    if a != [] {
      assert b != [] && c != [];
      if b[0] == c[0] && IsSubsequence(b[1..], c[1..]) {
        if a[0] == b[0] && IsSubsequence(a[1..], b[1..]) {
          SubsequenceTrans(a[1..], b[1..], c[1..]);
        } else {
          SubsequenceTrans(a, b[1..], c[1..]);
        }
      } else {
        SubsequenceTrans(a, b, c[1..]);
      }
    }
  }

  function Min(a: int, b: int): int { if a <= b then a else b }
  function Max(a: int, b: int): int { if a <= b then b else a }

  /** Python's `s[:n]`: a non-negative `n` keeps at most `n` elements, a
      negative `n` drops the last `-n`. */
  function SliceTo<T>(s: seq<T>, n: int): (r: seq<T>)
    ensures n >= 0 ==> |r| == Min(n, |s|)
    ensures n < 0 ==> |r| == Max(0, |s| + n)
    ensures r == s[..|r|]
  {
    if n >= 0 then s[..Min(n, |s|)] else s[..Max(0, |s| + n)]
  }
}
