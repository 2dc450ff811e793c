/** Newest-first listing: `find(filter).sort({ createdAt: -1 })` over a
    store keyed by id, as a selection followed by insertion into a list kept
    in descending key order. */
module Sorting {

  predicate SortedDesc<T>(xs: seq<T>, key: T -> int) {
    forall i, j :: 0 <= i < j < |xs| ==> key(xs[i]) >= key(xs[j])
  }

  /** Every element of a list holding the tail of a descending list, plus
      an element with a smaller key than its head, stays below that head. */
  lemma BelowHead<T>(x: T, xs: seq<T>, key: T -> int, tail: seq<T>)
    requires SortedDesc(xs, key) && xs != [] && key(x) < key(xs[0])
    requires forall y :: y in tail ==> y == x || y in xs[1..]
    ensures forall j :: 0 <= j < |tail| ==> key(xs[0]) >= key(tail[j])
  {
    forall j | 0 <= j < |tail|
      ensures key(xs[0]) >= key(tail[j])
    {
      assert tail[j] in tail;
      if tail[j] != x {
        var i :| 0 <= i < |xs[1..]| && xs[1..][i] == tail[j];
        assert xs[1..][i] == xs[i + 1];
      }
    }
  }

  /** Inserts `x` before the first element with a key not above its own. */
  function InsertDesc<T(==,!new)>(x: T, xs: seq<T>, key: T -> int): (r: seq<T>)
    requires SortedDesc(xs, key)
    ensures |r| == |xs| + 1
    ensures forall y :: y in r <==> y == x || y in xs
    ensures multiset(r) == multiset(xs) + multiset{x}
    ensures SortedDesc(r, key)
  {
    if xs == [] then [x]
    else if key(x) >= key(xs[0]) then [x] + xs
    else
      var tail := InsertDesc(x, xs[1..], key);
      BelowHead(x, xs, key, tail);
      assert xs == [xs[0]] + xs[1..];
      [xs[0]] + tail
  }

  /** The keys among `ks` whose documents are selected. */
  ghost function Selected<T>(m: map<string, T>, keep: T -> bool, ks: set<string>): set<string> {
    set k | k in ks && k in m && keep(m[k])
  }

  lemma SelectedStep<T>(m: map<string, T>, keep: T -> bool, done: set<string>, k: string)
    requires k in m && k !in done
    ensures keep(m[k]) ==> Selected(m, keep, done + {k}) == Selected(m, keep, done) + {k}
    ensures keep(m[k]) ==> k !in Selected(m, keep, done)
    ensures !keep(m[k]) ==> Selected(m, keep, done + {k}) == Selected(m, keep, done)
  {
  }

  /** What the selection loop keeps: `r` lists, newest first, exactly the
      selected documents among the keys `done`. */
  ghost predicate Inv<T>(m: map<string, T>, keep: T -> bool, key: T -> int, done: set<string>, r: seq<T>) {
    && SortedDesc(r, key)
    && (forall x :: x in r ==> x in m.Values && keep(x))
    && (forall k :: k in done && k in m && keep(m[k]) ==> m[k] in r)
    && |r| == |Selected(m, keep, done)|
  }

  /** One step of the loop: taking key `k` keeps the invariant. */
  lemma InsertStep<T(!new)>(m: map<string, T>, keep: T -> bool, key: T -> int, done: set<string>,
                               k: string, r: seq<T>)
    requires done <= m.Keys && k in m && k !in done
    requires Inv(m, keep, key, done, r)
    ensures keep(m[k]) ==> Inv(m, keep, key, done + {k}, InsertDesc(m[k], r, key))
    ensures !keep(m[k]) ==> Inv(m, keep, key, done + {k}, r)
  {
    SelectedStep(m, keep, done, k);
    if keep(m[k]) {
      assert m[k] in m.Values;
    }
  }

  /** Once every key is done, the invariant is the method's promise. */
  lemma InvComplete<T>(m: map<string, T>, keep: T -> bool, key: T -> int, r: seq<T>)
    requires Inv(m, keep, key, m.Keys, r)
    ensures forall x :: x in r <==> x in m.Values && keep(x)
  {
    forall x | x in m.Values && keep(x)
      ensures x in r
    {
      var k :| k in m && m[k] == x;
    }
  }

  /** The values of `m` satisfying `keep`, newest (largest key) first: every
      selected document exactly once, nothing else. */
  method SelectSortedDesc<T(==,!new)>(m: map<string, T>, keep: T -> bool, key: T -> int) returns (r: seq<T>)
    ensures forall x :: x in r <==> x in m.Values && keep(x)
    ensures SortedDesc(r, key)
    ensures |r| == |Selected(m, keep, m.Keys)|
  {
    r := [];
    var todo := m.Keys;
    while todo != {}
      invariant todo <= m.Keys
      invariant Inv(m, keep, key, m.Keys - todo, r)
      decreases |todo|
    {
      var k :| k in todo;
      InsertStep(m, keep, key, m.Keys - todo, k, r);
      if keep(m[k]) {
        r := InsertDesc(m[k], r, key);
      }
      assert m.Keys - (todo - {k}) == (m.Keys - todo) + {k};
      todo := todo - {k};
    }
    assert m.Keys - todo == m.Keys;
    InvComplete(m, keep, key, r);
  }
}
