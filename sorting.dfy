/** `sorted(xs, key=..., reverse=True)`: a stable sort from the greatest key
    to the least, keys compared as Python compares strings. */
module Sorting {
  import opened Text

  /** Keys never increase from left to right. */
  predicate SortedDesc<T>(s: seq<T>, key: T -> string) {
    forall i, j :: 0 <= i < j < |s| ==> LexLe(key(s[j]), key(s[i]))
  }

  /** The elements of `s` whose key is `k`, in the order of `s`. */
  function WithKey<T>(s: seq<T>, key: T -> string, k: string): seq<T> {
    if s == [] then [] else (if key(s[0]) == k then [s[0]] else []) + WithKey(s[1..], key, k)
  }

  /** Places `x` ahead of the first element whose key is not greater than its own. */
  function Insert<T(==)>(x: T, t: seq<T>, key: T -> string): (r: seq<T>)
    requires SortedDesc(t, key)
    ensures |r| == |t| + 1 && multiset(r) == multiset(t) + multiset{x}
    ensures SortedDesc(r, key)
  {
    if t == [] || LexLe(key(t[0]), key(x)) then
      LexLeBelow(x, t, key);
      [x] + t
    else
      var rest := Insert(x, t[1..], key);
      assert t == [t[0]] + t[1..];
      InsertBelowHead(x, t, key, rest);
      [t[0]] + rest
  }

  /** What `Insert` places behind the head of `t` has keys no greater than the head's. */
  lemma InsertBelowHead<T>(x: T, t: seq<T>, key: T -> string, rest: seq<T>)
    requires SortedDesc(t, key) && t != [] && !LexLe(key(t[0]), key(x))
    requires multiset(rest) == multiset(t[1..]) + multiset{x}
    requires SortedDesc(rest, key)
    ensures SortedDesc([t[0]] + rest, key)
  {
    LexLeTotal(key(t[0]), key(x));
    forall i | 0 <= i < |rest| ensures LexLe(key(rest[i]), key(t[0])) {
      assert rest[i] in multiset(rest);
      if rest[i] != x {
        assert rest[i] in multiset(t[1..]);
        var j :| 0 <= j < |t[1..]| && t[1..][j] == rest[i];
        assert t[j + 1] == rest[i];
      }
    }
  }

  /** Every key of a sorted `t` is at most that of its head, hence at most that of `x`. */
  lemma LexLeBelow<T>(x: T, t: seq<T>, key: T -> string)
    requires SortedDesc(t, key)
    requires t != [] ==> LexLe(key(t[0]), key(x))
    ensures SortedDesc([x] + t, key)
  {
    forall j | 0 < j < |t| ensures LexLe(key(t[j]), key(x)) {
      LexLeTransitive(key(t[j]), key(t[0]), key(x));
    }
  }

  /** The stable descending sort of `s`. */
  function SortDesc<T(==)>(s: seq<T>, key: T -> string): (r: seq<T>)
    ensures |r| == |s| && multiset(r) == multiset(s)
    ensures SortedDesc(r, key)
  {
    if s == [] then []
    else
      assert s == [s[0]] + s[1..];
      Insert(s[0], SortDesc(s[1..], key), key)
  }

  lemma {:induction false} LexLeReflexive(a: string)
    ensures LexLe(a, a)
  {
    if a != [] {
      LexLeReflexive(a[1..]);
    }
  }

  lemma WithKeyCons<T>(y: T, t: seq<T>, key: T -> string, k: string)
    ensures WithKey([y] + t, key, k) == (if key(y) == k then [y] else []) + WithKey(t, key, k)
  {
    assert ([y] + t)[1..] == t;
  }

  lemma {:induction false} InsertStable<T>(x: T, t: seq<T>, key: T -> string, k: string)
    requires SortedDesc(t, key)
    ensures WithKey(Insert(x, t, key), key, k) == (if key(x) == k then [x] else []) + WithKey(t, key, k)
  {
    if t == [] || LexLe(key(t[0]), key(x)) {
      WithKeyCons(x, t, key, k);
    } else {
      LexLeReflexive(key(x));
      var rest := Insert(x, t[1..], key);
      InsertStable(x, t[1..], key, k);
      WithKeyCons(t[0], rest, key, k);
      WithKeyCons(t[0], t[1..], key, k);
      assert Insert(x, t, key) == [t[0]] + rest;
      assert [t[0]] + t[1..] == t;
      var tail := WithKey(t[1..], key, k);
      if key(x) == k {
        assert WithKey(rest, key, k) == [x] + tail;
        assert WithKey(t, key, k) == tail;
      } else {
        assert WithKey(rest, key, k) == tail;
      }
    }
  }

  /** Stability: elements with equal keys keep their original relative order. */
  lemma {:induction false} SortStable<T>(s: seq<T>, key: T -> string, k: string)
    ensures WithKey(SortDesc(s, key), key, k) == WithKey(s, key, k)
  {
    if s != [] {
      SortStable(s[1..], key, k);
      InsertStable(s[0], SortDesc(s[1..], key), key, k);
    }
  }

  /** The equal-key subsequence of a concatenation is the concatenation of theirs. */
  lemma {:induction false} WithKeyAppend<T>(a: seq<T>, b: seq<T>, key: T -> string, k: string)
    ensures WithKey(a + b, key, k) == WithKey(a, key, k) + WithKey(b, key, k)
  {
    if a == [] {
      assert a + b == b;
    } else {
      assert (a + b)[0] == a[0] && (a + b)[1..] == a[1..] + b;
      WithKeyAppend(a[1..], b, key, k);
      var head := if key(a[0]) == k then [a[0]] else [];
      assert WithKey(a + b, key, k) == head + WithKey(a[1..] + b, key, k);
      assert WithKey(a, key, k) == head + WithKey(a[1..], key, k);
      assert head + (WithKey(a[1..], key, k) + WithKey(b, key, k))
          == (head + WithKey(a[1..], key, k)) + WithKey(b, key, k);
    }
  }

  /** Cutting a sequence short keeps a prefix of each equal-key subsequence. */
  lemma WithKeyPrefix<T>(s: seq<T>, n: nat, key: T -> string, k: string)
    requires n <= |s|
    ensures WithKey(s[..n], key, k) <= WithKey(s, key, k)
  {
    assert s == s[..n] + s[n..];
    WithKeyAppend(s[..n], s[n..], key, k);
  }

  /** `[f(x) for x in s]`. */
  function Map<T, U>(s: seq<T>, f: T -> U): seq<U> {
    seq(|s|, i requires 0 <= i < |s| => f(s[i]))
  }

  /** Mapping by a function that keeps the key commutes with inserting. */
  lemma {:induction false} InsertMap<T, U>(x: T, t: seq<T>, key: T -> string, f: T -> U, key2: U -> string)
    requires SortedDesc(t, key)
    requires forall y :: key2(f(y)) == key(y)
    ensures SortedDesc(Map(t, f), key2)
    ensures Map(Insert(x, t, key), f) == Insert(f(x), Map(t, f), key2)
  {
    var mt := Map(t, f);
    assert forall i :: 0 <= i < |t| ==> mt[i] == f(t[i]);
    if t == [] || LexLe(key(t[0]), key(x)) {
      assert Map([x] + t, f) == [f(x)] + mt;
    } else {
      InsertMap(x, t[1..], key, f, key2);
      assert mt[1..] == Map(t[1..], f);
      var rest := Insert(x, t[1..], key);
      assert Map([t[0]] + rest, f) == [f(t[0])] + Map(rest, f);
    }
  }

  /** Mapping by a function that keeps the key commutes with sorting. */
  lemma {:induction false} SortMap<T, U>(s: seq<T>, key: T -> string, f: T -> U, key2: U -> string)
    requires forall y :: key2(f(y)) == key(y)
    ensures Map(SortDesc(s, key), f) == SortDesc(Map(s, f), key2)
  {
    if s != [] {
      var tail := SortDesc(s[1..], key);
      SortMap(s[1..], key, f, key2);
      assert Map(tail, f) == SortDesc(Map(s[1..], f), key2);
      InsertMap(s[0], tail, key, f, key2);
      assert Map(SortDesc(s, key), f) == Insert(f(s[0]), Map(tail, f), key2);
      var ms := Map(s, f);
      assert ms != [] && ms[0] == f(s[0]) && ms[1..] == Map(s[1..], f);
      assert SortDesc(ms, key2) == Insert(f(s[0]), SortDesc(Map(s[1..], f), key2), key2);
    }
  }
}
