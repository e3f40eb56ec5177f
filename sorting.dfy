/** The two orders the solver sorts by: Python's `sorted` on strings
    (lexicographic by code point), and a stable sort by descending score,
    which is what `sort(key=..., reverse=True)` and `sorted(..., reverse=True)`
    do. */
module Sorting {
  import opened Common

  // ---------------------------------------------------------------------
  // Strings in Python's order

  /** `a <= b` on Python strings: the first differing character decides, and
      a proper prefix comes first. */
  predicate LexLe(a: string, b: string)
    decreases |a|
  {
    if a == [] then true
    else if b == [] then false
    else if a[0] != b[0] then a[0] < b[0]
    else LexLe(a[1..], b[1..])
  }

  lemma {:induction false} LexLeTotal(a: string, b: string)
    ensures LexLe(a, b) || LexLe(b, a)
    decreases |a|
  {
    if a != [] && b != [] && a[0] == b[0] {
      LexLeTotal(a[1..], b[1..]);
    }
  }

  lemma {:induction false} LexLeTrans(a: string, b: string, c: string)
    requires LexLe(a, b) && LexLe(b, c)
    ensures LexLe(a, c)
    decreases |a|
  {
    if a != [] && a[0] == b[0] && b[0] == c[0] {
      LexLeTrans(a[1..], b[1..], c[1..]);
    }
  }

  lemma {:induction false} LexLeAntisym(a: string, b: string)
    requires LexLe(a, b) && LexLe(b, a)
    ensures a == b
    decreases |a|
  {
    if a != [] {
      LexLeAntisym(a[1..], b[1..]);
      assert a == [a[0]] + a[1..] && b == [b[0]] + b[1..];
    }
  }

  lemma {:induction false} LexLeRefl(a: string)
    ensures LexLe(a, a)
  {
    if a != [] { LexLeRefl(a[1..]); }
  }

  predicate SortedLex(s: seq<string>) {
    forall i, j :: 0 <= i < j < |s| ==> LexLe(s[i], s[j])
  }

  /** Insert `x` before the first element that is not below it. */
  function InsertLex(x: string, s: seq<string>): seq<string>
  {
    if s == [] || LexLe(x, s[0]) then [x] + s else [s[0]] + InsertLex(x, s[1..])
  }

  /** No element of the result is below a bound that `x` and all of `s` keep. */
  lemma {:induction false} InsertLexBound(x: string, s: seq<string>, b: string)
    requires LexLe(b, x) && forall i :: 0 <= i < |s| ==> LexLe(b, s[i])
    ensures forall i :: 0 <= i < |InsertLex(x, s)| ==> LexLe(b, InsertLex(x, s)[i])
  {
    if s != [] && !LexLe(x, s[0]) {
      InsertLexBound(x, s[1..], b);
    }
  }

  lemma {:induction false} InsertLexPerm(x: string, s: seq<string>)
    ensures multiset(InsertLex(x, s)) == multiset(s) + multiset{x}
  {
    if s != [] && !LexLe(x, s[0]) {
      InsertLexPerm(x, s[1..]);
      assert s == [s[0]] + s[1..];
    }
  }

  lemma {:induction false} InsertLexSorted(x: string, s: seq<string>)
    requires SortedLex(s)
    ensures SortedLex(InsertLex(x, s))
  {
    var r := InsertLex(x, s);
    if s == [] || LexLe(x, s[0]) {
      forall i, j | 0 <= i < j < |r| ensures LexLe(r[i], r[j]) {
        if i == 0 && j > 1 { LexLeTrans(x, s[0], s[j - 1]); }
      }
    } else {
      var t := s[1..];
      InsertLexSorted(x, t);
      LexLeTotal(x, s[0]);
      InsertLexBound(x, t, s[0]);
      var r' := InsertLex(x, t);
      assert r == [s[0]] + r';
      forall i, j | 0 <= i < j < |r| ensures LexLe(r[i], r[j]) {
        if i == 0 { assert r[j] == r'[j - 1]; } else { assert r[i] == r'[i - 1] && r[j] == r'[j - 1]; }
      }
    }
  }

  /** `sorted(s)` on a list of strings. */
  function SortLex(s: seq<string>): (r: seq<string>)
    ensures SortedLex(r) && multiset(r) == multiset(s)
  {
    if s == [] then []
    else
      InsertLexSorted(s[|s| - 1], SortLex(s[..|s| - 1]));
      InsertLexPerm(s[|s| - 1], SortLex(s[..|s| - 1]));
      assert s == s[..|s| - 1] + [s[|s| - 1]];
      InsertLex(s[|s| - 1], SortLex(s[..|s| - 1]))
  }

  // ---------------------------------------------------------------------
  // Stable sort by descending score

  predicate SortedDesc<T>(s: seq<T>, key: T -> real) {
    forall i, j :: 0 <= i < j < |s| ==> key(s[i]) >= key(s[j])
  }

  /** The elements of `s` whose key is `v`, in their order in `s`. */
  function WithKey<T>(s: seq<T>, key: T -> real, v: real): seq<T>
  {
    if s == [] then [] else WithKey(s[..|s| - 1], key, v) + (if key(s[|s| - 1]) == v then [s[|s| - 1]] else [])
  }

  /** Insert `x` after every element whose key is at least its own, so that
      among equal keys the later arrival stays last. */
  function InsertDesc<T>(x: T, s: seq<T>, key: T -> real): seq<T>
  {
    if s == [] || key(s[0]) < key(x) then [x] + s else [s[0]] + InsertDesc(x, s[1..], key)
  }

  /** No key in the result exceeds a bound that `x` and every key of `s` keep. */
  lemma {:induction false} InsertDescBound<T>(x: T, s: seq<T>, key: T -> real, b: real)
    requires key(x) <= b && forall i :: 0 <= i < |s| ==> key(s[i]) <= b
    ensures forall i :: 0 <= i < |InsertDesc(x, s, key)| ==> key(InsertDesc(x, s, key)[i]) <= b
  {
    if s != [] && key(s[0]) >= key(x) {
      InsertDescBound(x, s[1..], key, b);
    }
  }

  lemma {:induction false} InsertDescPerm<T>(x: T, s: seq<T>, key: T -> real)
    ensures multiset(InsertDesc(x, s, key)) == multiset(s) + multiset{x}
  {
    if s != [] && key(s[0]) >= key(x) {
      var t := s[1..];
      InsertDescPerm(x, t, key);
      assert s == [s[0]] + t;
      assert InsertDesc(x, s, key) == [s[0]] + InsertDesc(x, t, key);
    } else {
      assert InsertDesc(x, s, key) == [x] + s;
    }
  }

  lemma {:induction false} InsertDescSorted<T>(x: T, s: seq<T>, key: T -> real)
    requires SortedDesc(s, key)
    ensures SortedDesc(InsertDesc(x, s, key), key)
  {
    var r := InsertDesc(x, s, key);
    if s != [] && key(s[0]) >= key(x) {
      var t := s[1..];
      InsertDescSorted(x, t, key);
      InsertDescBound(x, t, key, key(s[0]));
      var r' := InsertDesc(x, t, key);
      assert r == [s[0]] + r';
      forall i, j | 0 <= i < j < |r| ensures key(r[i]) >= key(r[j]) {
        if i == 0 { assert r[j] == r'[j - 1]; } else { assert r[i] == r'[i - 1] && r[j] == r'[j - 1]; }
      }
    }
  }

  lemma {:induction false} WithKeyCons<T>(x: T, s: seq<T>, key: T -> real, v: real)
    ensures WithKey([x] + s, key, v) == (if key(x) == v then [x] else []) + WithKey(s, key, v)
    decreases |s|
  {
    if s != [] {
      var s' := s[..|s| - 1];
      assert ([x] + s)[..|s|] == [x] + s';
      WithKeyCons(x, s', key, v);
    } else {
      assert ([x] + s)[..0] == [];
    }
  }

  lemma {:induction false} WithKeyNone<T>(s: seq<T>, key: T -> real, v: real)
    requires forall i :: 0 <= i < |s| ==> key(s[i]) != v
    ensures WithKey(s, key, v) == []
  {
    if s != [] {
      WithKeyNone(s[..|s| - 1], key, v);
    }
  }

  /** Inserting the element that arrived last appends it to its key's run. */
  lemma {:induction false} InsertDescWithKey<T>(x: T, s: seq<T>, key: T -> real, v: real)
    requires SortedDesc(s, key)
    ensures WithKey(InsertDesc(x, s, key), key, v) == WithKey(s, key, v) + (if key(x) == v then [x] else [])
  {
    if s == [] {
      assert InsertDesc(x, s, key) == [x];
      assert [x][..0] == [];
    } else if key(s[0]) < key(x) {
      WithKeyCons(x, s, key, v);
      if key(x) == v {
        WithKeyNone(s, key, v);
      }
    } else {
      InsertDescWithKey(x, s[1..], key, v);
      InsertDescWithKeyStep(x, s, key, v);
    }
  }

  lemma InsertDescWithKeyStep<T>(x: T, s: seq<T>, key: T -> real, v: real)
    requires s != [] && key(s[0]) >= key(x)
    requires WithKey(InsertDesc(x, s[1..], key), key, v) == WithKey(s[1..], key, v) + (if key(x) == v then [x] else [])
    ensures WithKey(InsertDesc(x, s, key), key, v) == WithKey(s, key, v) + (if key(x) == v then [x] else [])
  {
    var t, h := s[1..], s[0];
    var r' := InsertDesc(x, t, key);
    var e := if key(x) == v then [x] else [];
    var eh := if key(h) == v then [h] else [];
    assert s == [h] + t;
    assert InsertDesc(x, s, key) == [h] + r';
    WithKeyCons(h, r', key, v);
    WithKeyCons(h, t, key, v);
    assert WithKey(InsertDesc(x, s, key), key, v) == eh + (WithKey(t, key, v) + e);
  }

  /** Python's stable sort with `reverse=True` on the key. */
  function SortDesc<T>(s: seq<T>, key: T -> real): (r: seq<T>)
    ensures SortedDesc(r, key) && multiset(r) == multiset(s)
  {
    if s == [] then []
    else
      InsertDescSorted(s[|s| - 1], SortDesc(s[..|s| - 1], key), key);
      InsertDescPerm(s[|s| - 1], SortDesc(s[..|s| - 1], key), key);
      assert s == s[..|s| - 1] + [s[|s| - 1]];
      InsertDesc(s[|s| - 1], SortDesc(s[..|s| - 1], key), key)
  }

  /** Stability: the elements sharing a key keep their input order. */
  lemma {:induction false} SortDescStable<T>(s: seq<T>, key: T -> real, v: real)
    ensures WithKey(SortDesc(s, key), key, v) == WithKey(s, key, v)
  {
    if s != [] {
      var p := s[..|s| - 1];
      SortDescStable(p, key, v);
      InsertDescWithKey(s[|s| - 1], SortDesc(p, key), key, v);
    }
  }

  // ---------------------------------------------------------------------
  // The best `n`: a Python slice of the descending order

  /** `sorted(s, key=key, reverse=True)[:n]`. */
  function TopN<T(==)>(s: seq<T>, key: T -> real, n: int): (r: seq<T>)
    ensures n >= 0 ==> |r| == Min(n, |s|)
    ensures n < 0 ==> |r| == Max(0, |s| + n)
    ensures SortedDesc(r, key) && multiset(r) <= multiset(s) && IsPrefix(r, SortDesc(s, key))
    ensures forall i, x :: 0 <= i < |r| && x in multiset(s) - multiset(r) ==> key(r[i]) >= key(x)
  {
    var o := SortDesc(s, key);
    var k := if n >= 0 then Min(n, |o|) else Max(0, |o| + n);
    PrefixFacts(s, o, key, k);
    o[..k]
  }

  /** A prefix of a descending permutation of `s` is sorted, drawn from `s`,
      and beats the rest of `s`. */
  lemma PrefixFacts<T>(s: seq<T>, o: seq<T>, key: T -> real, k: nat)
    requires SortedDesc(o, key) && multiset(o) == multiset(s) && k <= |o|
    ensures SortedDesc(o[..k], key) && multiset(o[..k]) <= multiset(s)
    ensures forall i, x :: 0 <= i < k && x in multiset(s) - multiset(o[..k]) ==> key(o[..k][i]) >= key(x)
  {
    PrefixBeatsRest(o, key, k);
    SplitRest(o, k);
    TakeBack(multiset(s), multiset(o[..k]), multiset(o[k..]));
  }

  lemma SplitRest<T>(o: seq<T>, k: nat)
    requires k <= |o|
    ensures multiset(o) == multiset(o[..k]) + multiset(o[k..])
  {
    assert o == o[..k] + o[k..];
  }

  lemma TakeBack<T>(a: multiset<T>, b: multiset<T>, c: multiset<T>)
    requires a == b + c
    ensures b <= a && a - b == c
  {
  }

  /** In a descending order, every element of a prefix scores at least as
      much as every element after it. */
  lemma PrefixBeatsRest<T>(o: seq<T>, key: T -> real, k: nat)
    requires SortedDesc(o, key) && k <= |o|
    ensures forall i, x :: 0 <= i < k && x in multiset(o[k..]) ==> key(o[i]) >= key(x)
  {
    forall i, x | 0 <= i < k && x in multiset(o[k..]) ensures key(o[i]) >= key(x) {
      var j :| 0 <= j < |o[k..]| && o[k..][j] == x;
      assert o[k + j] == x;
    }
  }

  predicate IsPrefix<T(==)>(p: seq<T>, s: seq<T>) {
    |p| <= |s| && p == s[..|p|]
  }

  /** The elements with key `v` in a prefix are a prefix of those in the
      whole sequence. */
  lemma {:induction false} WithKeyPrefix<T>(s: seq<T>, key: T -> real, v: real, k: nat)
    requires k <= |s|
    ensures IsPrefix(WithKey(s[..k], key, v), WithKey(s, key, v))
    decreases |s| - k
  {
    if k < |s| {
      var p := s[..|s| - 1];
      assert s[..k] == p[..k];
      WithKeyPrefix(p, key, v, k);
      var t := if key(s[|s| - 1]) == v then [s[|s| - 1]] else [];
      assert WithKey(s, key, v) == WithKey(p, key, v) + t;
      PrefixAppend(WithKey(s[..k], key, v), WithKey(p, key, v), t);
    } else {
      assert s[..k] == s;
    }
  }

  lemma PrefixAppend<T>(a: seq<T>, b: seq<T>, t: seq<T>)
    requires IsPrefix(a, b)
    ensures IsPrefix(a, b + t)
  {
    assert (b + t)[..|a|] == b[..|a|];
  }

  /** Among the `n` best, equal keys keep their input order: they are the
      first elements with that key. */
  lemma TopNStable<T>(s: seq<T>, key: T -> real, n: int, v: real)
    ensures IsPrefix(WithKey(TopN(s, key, n), key, v), WithKey(s, key, v))
  {
    var o := SortDesc(s, key);
    var k := if n >= 0 then Min(n, |o|) else Max(0, |o| + n);
    assert TopN(s, key, n) == o[..k];
    WithKeyPrefix(o, key, v, k);
    SortDescStable(s, key, v);
  }
}
