/**
 * `collections.Counter` over strings as the insights route uses it: keys in
 * the order they were first counted, `update` with a list of keys, and
 * `most_common`, a stable sort by descending count.
 */
module Counters {

  /** The counter's items, in first-insertion order. */
  type Counter = seq<(string, nat)>

  /** Each key appears once and with a positive count. */
  predicate Proper(c: Counter)
  {
    (forall i, j :: 0 <= i < j < |c| ==> c[i].0 != c[j].0)
    && forall i :: 0 <= i < |c| ==> c[i].1 >= 1
  }

  /** `c[k]`: the count of `k`, 0 for a key never counted. */
  function CountOf(c: Counter, k: string): nat
  {
    if c == [] then 0
    else if c[0].0 == k then c[0].1
    else CountOf(c[1..], k)
  }

  /** Keys of the counter, in order. */
  function Keys(c: Counter): (ks: seq<string>)
    ensures |ks| == |c| && forall i :: 0 <= i < |c| ==> ks[i] == c[i].0
  {
    if c == [] then [] else [c[0].0] + Keys(c[1..])
  }

  lemma {:induction false} CountOfProper(c: Counter, k: string)
    requires Proper(c)
    ensures CountOf(c, k) >= 1 <==> k in Keys(c)
    ensures forall i :: 0 <= i < |c| && c[i].0 == k ==> CountOf(c, k) == c[i].1
  {
    if c != [] {
      assert Proper(c[1..]) by {
        forall i, j | 0 <= i < j < |c[1..]| ensures c[1..][i].0 != c[1..][j].0 {
          assert c[1..][i] == c[i + 1] && c[1..][j] == c[j + 1];
        }
      }
      CountOfProper(c[1..], k);
      assert Keys(c) == [c[0].0] + Keys(c[1..]);
      forall i | 1 <= i < |c| && c[i].0 == k ensures CountOf(c, k) == c[i].1 {
        assert c[1..][i - 1] == c[i];
        assert c[0].0 != c[i].0;
      }
    }
  }

  /** `c[k] += 1`: a new key goes to the end, an old one keeps its place. */
  function Bump(c: Counter, k: string): (r: Counter)
    ensures |r| <= |c| + 1
    ensures CountOf(r, k) == CountOf(c, k) + 1
    ensures forall j :: j != k ==> CountOf(r, j) == CountOf(c, j)
  {
    if c == [] then [(k, 1)]
    else if c[0].0 == k then [(k, c[0].1 + 1)] + c[1..]
    else [c[0]] + Bump(c[1..], k)
  }

  /** The keys a bump leaves: the old ones, and `k` at the end if it was new. */
  lemma {:induction false} BumpKeys(c: Counter, k: string)
    ensures Keys(Bump(c, k)) == if k in Keys(c) then Keys(c) else Keys(c) + [k]
  {
    if c != [] {
      if c[0].0 != k {
        BumpKeys(c[1..], k);
        assert Bump(c, k)[1..] == Bump(c[1..], k);
      } else {
        assert Bump(c, k)[1..] == c[1..];
      }
    }
  }

  lemma ProperTail(c: Counter)
    requires Proper(c) && c != []
    ensures Proper(c[1..])
  {
    forall i, j | 0 <= i < j < |c[1..]| ensures c[1..][i].0 != c[1..][j].0 {
      assert c[1..][i] == c[i + 1] && c[1..][j] == c[j + 1];
    }
  }

  /** Putting an item with a new key and a positive count in front keeps the counter proper. */
  lemma ConsProper(p: (string, nat), rest: Counter)
    requires Proper(rest) && p.1 >= 1 && p.0 !in Keys(rest)
    ensures Proper([p] + rest)
  {
    var c := [p] + rest;
    forall i, j | 0 <= i < j < |c| ensures c[i].0 != c[j].0 {
      assert c[j] == rest[j - 1];
      if i > 0 {
        assert c[i] == rest[i - 1];
      } else {
        assert Keys(rest)[j - 1] == rest[j - 1].0;
      }
    }
  }

  /** Bumping keeps keys distinct and counts positive. */
  lemma {:induction false} BumpProper(c: Counter, k: string)
    requires Proper(c)
    ensures Proper(Bump(c, k))
  {
    if c != [] {
      ProperTail(c);
      if c[0].0 != k {
        BumpProper(c[1..], k);
        BumpKeys(c[1..], k);
        assert Bump(c, k) == [c[0]] + Bump(c[1..], k);
        ConsProper(c[0], Bump(c[1..], k));
      } else {
        assert c == [c[0]] + c[1..];
        ConsHeadKey(c);
        ConsProper((k, c[0].1 + 1), c[1..]);
      }
    }
  }

  lemma ConsHeadKey(c: Counter)
    requires Proper(c) && c != []
    ensures c[0].0 !in Keys(c[1..])
  {
    forall i | 0 <= i < |c[1..]| ensures Keys(c[1..])[i] != c[0].0 {
      assert c[1..][i] == c[i + 1];
    }
  }

  /** The keys of `ks` not in `seen`, each once, in the order of their first occurrence in `ks`. */
  function NewKeys(seen: seq<string>, ks: seq<string>): seq<string>
    decreases |ks|
  {
    if ks == [] then []
    else if ks[0] in seen then NewKeys(seen, ks[1..])
    else [ks[0]] + NewKeys(seen + [ks[0]], ks[1..])
  }

  /** Collecting new keys over two lists in turn is collecting them over the concatenation. */
  lemma {:induction false} NewKeysAppend(seen: seq<string>, a: seq<string>, b: seq<string>)
    ensures NewKeys(seen, a + b) == NewKeys(seen, a) + NewKeys(seen + NewKeys(seen, a), b)
    decreases |a|
  {
    if a == [] {
      assert a + b == b && seen + [] == seen;
    } else {
      assert (a + b)[0] == a[0] && (a + b)[1..] == a[1..] + b;
      if a[0] in seen {
        NewKeysAppend(seen, a[1..], b);
      } else {
        var seen' := seen + [a[0]];
        NewKeysAppend(seen', a[1..], b);
        assert seen' + NewKeys(seen', a[1..]) == seen + ([a[0]] + NewKeys(seen', a[1..]));
      }
    }
  }

  /** The keys after one more key is counted, followed by the keys the rest adds. */
  lemma UpdateKeysStep(keys: seq<string>, k: string, rest: seq<string>)
    ensures var bumped := if k in keys then keys else keys + [k];
      bumped + NewKeys(bumped, rest) == keys + NewKeys(keys, [k] + rest)
  {
    assert ([k] + rest)[0] == k && ([k] + rest)[1..] == rest;
    if k !in keys {
      assert keys + [k] + NewKeys(keys + [k], rest) == keys + ([k] + NewKeys(keys + [k], rest));
    }
  }

  /**
   * `c.update(ks)`: each key counted once per occurrence, in order. Old keys
   * keep their places; new ones follow in the order they first occur in `ks`.
   */
  function Update(c: Counter, ks: seq<string>): (r: Counter)
    ensures Keys(c) <= Keys(r)
    ensures forall j :: j in Keys(r) ==> j in Keys(c) || j in ks
    ensures Keys(r) == Keys(c) + NewKeys(Keys(c), ks)
    decreases |ks|
  {
    if ks == [] then c
    else
      BumpKeys(c, ks[0]);
      UpdateKeysStep(Keys(c), ks[0], ks[1..]);
      Update(Bump(c, ks[0]), ks[1..])
  }

  lemma {:induction false} UpdateProper(c: Counter, ks: seq<string>)
    requires Proper(c)
    ensures Proper(Update(c, ks))
    decreases |ks|
  {
    if ks != [] {
      BumpProper(c, ks[0]);
      UpdateProper(Bump(c, ks[0]), ks[1..]);
    }
  }

  /** After an update every key's count has grown by its number of occurrences. */
  lemma {:induction false} UpdateCounts(c: Counter, ks: seq<string>, j: string)
    ensures CountOf(Update(c, ks), j) == CountOf(c, j) + multiset(ks)[j]
    decreases |ks|
  {
    if ks != [] {
      var b := Bump(c, ks[0]);
      assert Update(c, ks) == Update(b, ks[1..]);
      UpdateCounts(b, ks[1..], j);
      assert CountOf(b, j) == CountOf(c, j) + if j == ks[0] then 1 else 0;
      assert ks == [ks[0]] + ks[1..];
      assert multiset(ks) == multiset{ks[0]} + multiset(ks[1..]);
    }
  }

  // ---------------------------------------------------------------- most_common

  predicate ByCountDesc(s: Counter)
  {
    forall i, j :: 0 <= i < j < |s| ==> s[i].1 >= s[j].1
  }

  /** The items with count `n`, in order. */
  function WithCount(s: Counter, n: nat): Counter
  {
    if s == [] then [] else (if s[0].1 == n then [s[0]] else []) + WithCount(s[1..], n)
  }

  lemma {:induction false} WithCountAppend(a: Counter, b: Counter, n: nat)
    ensures WithCount(a + b, n) == WithCount(a, n) + WithCount(b, n)
  {
    if a != [] {
      assert (a + b)[1..] == a[1..] + b;
      WithCountAppend(a[1..], b, n);
    } else {
      assert a + b == b;
    }
  }

  lemma WithCountHead(s: Counter, n: nat)
    requires s != []
    ensures WithCount(s, n) == WithCount([s[0]], n) + WithCount(s[1..], n)
  {
    assert [s[0]][1..] == s[..0];
  }

  lemma WithCountSingle(x: (string, nat), n: nat)
    ensures WithCount([x], n) == if x.1 == n then [x] else []
  {
    assert [x][1..] == [];
  }

  /** Items with the count of `p` all come after `p` once it is inserted. */
  lemma {:induction false} InsertByCountWithCount(p: (string, nat), s: Counter, n: nat)
    ensures WithCount(InsertByCount(p, s), n) == WithCount([p], n) + WithCount(s, n)
  {
    if s == [] || p.1 >= s[0].1 {
      WithCountAppend([p], s, n);
    } else {
      var t := InsertByCount(p, s[1..]);
      InsertByCountWithCount(p, s[1..], n);
      WithCountAppend([s[0]], t, n);
      WithCountHead(s, n);
      // `p` and `s[0]` have different counts, so at most one of them has count `n`
      WithCountSingle(s[0], n);
      WithCountSingle(p, n);
      SwapEmpty(WithCount([s[0]], n), WithCount([p], n), WithCount(s[1..], n));
    }
  }

  lemma SwapEmpty(a: Counter, b: Counter, u: Counter)
    requires a == [] || b == []
    ensures a + (b + u) == b + (a + u)
  {
    if a == [] {
      assert a + (b + u) == b + u;
      assert a + u == u;
    } else {
      assert a + (b + u) == a + u;
      assert b + (a + u) == a + u;
    }
  }

  /** Taking a prefix keeps a prefix of each count's items. */
  lemma {:induction false} WithCountPrefix(s: Counter, m: nat, n: nat)
    requires m <= |s|
    ensures WithCount(s[..m], n) <= WithCount(s, n)
  {
    if m > 0 {
      assert s[..m][1..] == s[1..][..m - 1];
      WithCountPrefix(s[1..], m - 1, n);
    }
  }

  /** A prefix of a reordering that keeps each count's items in order keeps a prefix of them. */
  lemma PrefixWithCount(c: Counter, all: Counter, m: nat)
    requires m <= |all| && forall n :: WithCount(all, n) == WithCount(c, n)
    ensures forall n :: WithCount(all[..m], n) <= WithCount(c, n)
  {
    forall n ensures WithCount(all[..m], n) <= WithCount(c, n) {
      WithCountPrefix(all, m, n);
    }
  }

  /** Puts `p` before the first item whose count is not larger, so earlier items stay first among equals. */
  function InsertByCount(p: (string, nat), s: Counter): (r: Counter)
    ensures multiset(r) == multiset(s) + multiset{p}
    ensures |r| == |s| + 1
  {
    if s == [] || p.1 >= s[0].1 then [p] + s
    else
      assert s == [s[0]] + s[1..];
      [s[0]] + InsertByCount(p, s[1..])
  }

  lemma {:induction false} InsertByCountSorted(p: (string, nat), s: Counter)
    requires ByCountDesc(s)
    ensures ByCountDesc(InsertByCount(p, s))
  {
    var r := InsertByCount(p, s);
    if s != [] && p.1 < s[0].1 {
      var t := InsertByCount(p, s[1..]);
      InsertByCountSorted(p, s[1..]);
      assert r == [s[0]] + t;
      forall j | 1 <= j < |r| ensures r[0].1 >= r[j].1 {
        assert r[j] in multiset(t);
        assert r[j] in multiset(s[1..]) || r[j] == p;
        if r[j] != p {
          var k :| 0 <= k < |s[1..]| && s[1..][k] == r[j];
          assert s[k + 1] == r[j];
        }
      }
    }
  }

  /**
   * `c.most_common()`: every item, by descending count, ties in
   * first-insertion order (the items of each count appear as they do in `c`).
   */
  function MostCommon(c: Counter): (r: Counter)
    ensures multiset(r) == multiset(c)
    ensures |r| == |c|
    ensures ByCountDesc(r)
    ensures forall n :: WithCount(r, n) == WithCount(c, n)
  {
    if c == [] then []
    else
      assert c == [c[0]] + c[1..];
      InsertByCountSorted(c[0], MostCommon(c[1..]));
      forall n ensures WithCount(InsertByCount(c[0], MostCommon(c[1..])), n) == WithCount(c, n) {
        InsertByCountWithCount(c[0], MostCommon(c[1..]), n);
        WithCountHead(c, n);
      }
      InsertByCount(c[0], MostCommon(c[1..]))
  }

  /**
   * `c.most_common(n)`: the first `n` items of `most_common()`, so among
   * items of equal count the ones counted first are kept.
   */
  function Top(c: Counter, n: nat): (r: Counter)
    ensures |r| == if |c| < n then |c| else n
    ensures ByCountDesc(r)
    ensures forall i :: 0 <= i < |r| ==> r[i] in c
    ensures forall i, j :: 0 <= i < |r| && 0 <= j < |c| && c[j] !in r ==> r[i].1 >= c[j].1
    ensures forall k :: WithCount(r, k) <= WithCount(c, k)
  {
    var all := MostCommon(c);
    var r := if |all| < n then all else all[..n];
    PrefixWithCount(c, all, |r|);
    assert all[..|r|] == r;
    forall i | 0 <= i < |r| ensures r[i] in c {
      assert r[i] == all[i];
      assert r[i] in multiset(c);
    }
    forall i, j | 0 <= i < |r| && 0 <= j < |c| && c[j] !in r ensures r[i].1 >= c[j].1 {
      assert c[j] in multiset(all);
      var m :| 0 <= m < |all| && all[m] == c[j];
      assert forall q :: 0 <= q < |r| ==> r[q] == all[q];
      assert m >= |r|;
      assert r[i] == all[i];
    }
    r
  }
}
