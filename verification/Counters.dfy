/** Small vocabulary shared by the models: optional values, counters keyed by
    name (the source's `dict[str, int]`) and text order. */
module Counters {

  datatype Option<+T> = None | Some(value: T)

  function Get<K>(m: map<K, nat>, k: K): nat {
    if k in m then m[k] else 0
  }

  /** `m[k] = m.get(k, 0) + n` */
  function Plus<K>(m: map<K, nat>, k: K, n: nat): map<K, nat> {
    m[k := Get(m, k) + n]
  }

  /** The sum of all counters; independent of the order in which it is taken. */
  ghost function Sum<K>(m: map<K, nat>): nat {
    if m == map[] then 0 else
      var k :| k in m;
      m[k] + Sum(m - {k})
  }

  lemma {:induction false} SumRemove<K>(m: map<K, nat>, k: K)
    requires k in m
    ensures Sum(m) == m[k] + Sum(m - {k})
    decreases |m|
  {
    var k0 :| k0 in m && Sum(m) == m[k0] + Sum(m - {k0});
    if k0 != k {
      SumRemove(m - {k0}, k);
      SumRemove(m - {k}, k0);
      assert m - {k0} - {k} == m - {k} - {k0};
    }
  }

  lemma SumPlus<K>(m: map<K, nat>, k: K, n: nat)
    ensures Sum(Plus(m, k, n)) == Sum(m) + n
  {
    var p := Plus(m, k, n);
    SumRemove(p, k);
    assert p - {k} == m - {k};
    if k in m {
      SumRemove(m, k);
    } else {
      assert m - {k} == m;
    }
  }

  lemma SumInsert<K>(m: map<K, nat>, k: K, n: nat)
    requires k !in m
    ensures Sum(m[k := n]) == Sum(m) + n
  {
    assert m[k := n] == Plus(m, k, n);
    SumPlus(m, k, n);
  }

  /** Any element of a set: the order of a loop over a dictionary's keys. */
  method Pick<K(==)>(s: set<K>) returns (k: K)
    requires s != {}
    ensures k in s
  {
    k :| k in s;
  }

  /** Adds every counter of `more` to `into`. */
  function MergeMaps<K>(into: map<K, nat>, more: map<K, nat>): map<K, nat> {
    map k | k in into.Keys + more.Keys :: Get(into, k) + Get(more, k)
  }

  lemma MergeStep<K>(into: map<K, nat>, more: map<K, nat>, k: K)
    requires k in more
    ensures MergeMaps(into, more) == Plus(MergeMaps(into, more - {k}), k, more[k])
  {
  }

  lemma {:induction false} SumMerge<K>(into: map<K, nat>, more: map<K, nat>)
    ensures Sum(MergeMaps(into, more)) == Sum(into) + Sum(more)
    decreases |more|
  {
    if more == map[] {
      assert MergeMaps(into, more) == into;
    } else {
      var k :| k in more;
      SumRemove(more, k);
      SumMerge(into, more - {k});
      MergeStep(into, more, k);
      SumPlus(MergeMaps(into, more - {k}), k, more[k]);
    }
  }

  /** `_merge_counts`: the counters of `more` are added one key at a time. */
  method MergeCounts<K(==)>(into: map<K, nat>, more: map<K, nat>) returns (merged: map<K, nat>)
    ensures merged == MergeMaps(into, more)
  {
    merged := into;
    var todo := more.Keys;
    while todo != {}
      invariant todo <= more.Keys
      invariant merged == MergeMaps(into, more - todo)
    {
      var k :| k in todo;
      merged := Plus(merged, k, more[k]);
      MergeNext(into, more, todo, k);
      todo := todo - {k};
    }
    assert more - todo == more;
  }

  lemma MergeNext<K>(into: map<K, nat>, more: map<K, nat>, todo: set<K>, k: K)
    requires todo <= more.Keys && k in todo
    ensures MergeMaps(into, more - (todo - {k})) == Plus(MergeMaps(into, more - todo), k, more[k])
  {
    MergeStep(into, more - (todo - {k}), k);
    assert more - (todo - {k}) - {k} == more - todo;
  }

  // ------------------------------------------------------------------ counting

  /** How many members of the sequence satisfy `p`. */
  ghost function CountIf<T>(s: seq<T>, p: T -> bool): nat {
    if s == [] then 0 else CountIf(s[..|s| - 1], p) + if p(s[|s| - 1]) then 1 else 0
  }

  /** That is, the number of places at which they stand. */
  lemma {:induction false} CountIfIsCardinality<T>(s: seq<T>, p: T -> bool)
    ensures CountIf(s, p) == |set i | 0 <= i < |s| && p(s[i])|
  {
    if s != [] {
      var init, x := s[..|s| - 1], s[|s| - 1];
      CountIfIsCardinality(init, p);
      OneMorePlace(init, x, p);
      assert s == init + [x];
    }
  }

  lemma OneMorePlace<T>(s: seq<T>, x: T, p: T -> bool)
    ensures |set i | 0 <= i < |s + [x]| && p((s + [x])[i])|
         == |set i | 0 <= i < |s| && p(s[i])| + if p(x) then 1 else 0
  {
    var before := set i | 0 <= i < |s| && p(s[i]);
    var all := set i | 0 <= i < |s + [x]| && p((s + [x])[i]);
    assert all == if p(x) then before + {|s|} else before;
  }

  lemma CountIfNext<T>(s: seq<T>, x: T, p: T -> bool)
    ensures CountIf(s + [x], p) == CountIf(s, p) + if p(x) then 1 else 0
  {
    assert (s + [x])[..|s|] == s;
  }

  // ---------------------------------------------------------------- text order

  /** Code-point order, the order Python's `sorted` uses on strings. */
  predicate TextLeq(a: string, b: string) {
    a == [] || (b != [] && (a[0] < b[0] || (a[0] == b[0] && TextLeq(a[1..], b[1..]))))
  }

  /** A prefix comes first, otherwise the first difference decides. */
  lemma {:induction false} TextLeqIs(a: string, b: string)
    ensures TextLeq(a, b) <==> exists n :: 0 <= n <= |a| && n <= |b| && a[..n] == b[..n]
                                 && (n == |a| || (n < |b| && a[n] < b[n]))
  {
    if a == [] {
      assert a[..0] == b[..0];
    } else if b != [] {
      var x, y := a[1..], b[1..];
      if a[0] == b[0] { TextLeqIs(x, y); }
      if TextLeq(a, b) {
        if a[0] < b[0] {
          assert a[..0] == b[..0];
        } else {
          var n :| 0 <= n <= |x| && n <= |y| && x[..n] == y[..n] && (n == |x| || (n < |y| && x[n] < y[n]));
          assert a[..n + 1] == [a[0]] + x[..n] && b[..n + 1] == [b[0]] + y[..n];
        }
      }
      if n :| 0 <= n <= |a| && n <= |b| && a[..n] == b[..n] && (n == |a| || (n < |b| && a[n] < b[n])) {
        if n > 0 {
          assert a[0] == a[..n][0] == b[0];
          assert x[..n - 1] == a[..n][1..] == b[..n][1..] == y[..n - 1];
          assert n - 1 == |x| || (n - 1 < |y| && x[n - 1] < y[n - 1]);
        }
      }
    }
  }

  lemma {:induction false} TextLeqTotal(a: string, b: string)
    ensures TextLeq(a, b) || TextLeq(b, a)
  {
    if a != [] && b != [] && a[0] == b[0] {
      TextLeqTotal(a[1..], b[1..]);
    }
  }

  lemma {:induction false} TextLeqTransitive(a: string, b: string, c: string)
    requires TextLeq(a, b) && TextLeq(b, c)
    ensures TextLeq(a, c)
  {
    if a != [] && a[0] == b[0] && b[0] == c[0] {
      TextLeqTransitive(a[1..], b[1..], c[1..]);
    }
  }

  predicate StartsWith(s: string, prefix: string) {
    |prefix| <= |s| && s[..|prefix|] == prefix
  }

  predicate EndsWith(s: string, suffix: string) {
    |suffix| <= |s| && s[|s| - |suffix|..] == suffix
  }

  lemma StartsAndEnds(s: string, part: string)
    ensures StartsWith(s, part) <==> exists rest :: s == part + rest
    ensures EndsWith(s, part) <==> exists rest :: s == rest + part
  {
    if StartsWith(s, part) { assert s == part + s[|part|..]; }
    if EndsWith(s, part) { assert s == s[..|s| - |part|] + part; }
  }
}
