/**
 * Sequence operations shared by the ingestion and the exploration models:
 * a `map` whose callback may throw, order-preserving selection by key, and
 * the stable sort that `Array.prototype.sort` performs.
 */
module Seqs {
  import opened Wrappers

  /**
   * `xs.map(f)` where the callback may throw: the first element whose
   * callback fails aborts the whole map with that failure.
   */
  function Traverse<A, B, E>(xs: seq<A>, f: A -> Result<B, E>): (r: Result<seq<B>, E>)
    ensures r.Success? <==> forall i :: 0 <= i < |xs| ==> f(xs[i]).Success?
    ensures r.Success? ==> |r.value| == |xs|
    ensures r.Success? ==> forall i :: 0 <= i < |xs| ==> r.value[i] == f(xs[i]).value
  {
    if xs == [] then Success([])
    else
      match f(xs[0])
      case Failure(e) => Failure(e)
      case Success(y) =>
        match Traverse(xs[1..], f)
        case Failure(e) => Failure(e)
        case Success(ys) =>
          assert forall i :: 1 <= i < |xs| ==> xs[1..][i - 1] == xs[i];
          Success([y] + ys)
  }

  /** Runs two throwing computations one after the other and concatenates their results. */
  function Then<T, E>(x: Result<seq<T>, E>, y: Result<seq<T>, E>): Result<seq<T>, E>
  {
    if x.Failure? then x else if y.Failure? then y else Success(x.value + y.value)
  }

  lemma ThenAssociative<T, E>(x: Result<seq<T>, E>, y: Result<seq<T>, E>, z: Result<seq<T>, E>)
    ensures Then(x, Then(y, z)) == Then(Then(x, y), z)
  {
    if x.Success? && y.Success? && z.Success? {
      assert x.value + (y.value + z.value) == (x.value + y.value) + z.value;
    }
  }

  /** Mapping a concatenation is mapping the first part, then the second. */
  lemma {:induction false} TraverseConcat<A, B, E>(a: seq<A>, b: seq<A>, f: A -> Result<B, E>)
    ensures Traverse(a + b, f) == Then(Traverse(a, f), Traverse(b, f))
  {
    if a == [] {
      assert a + b == b;
      if Traverse(b, f).Success? {
        assert [] + Traverse(b, f).value == Traverse(b, f).value;
      }
    } else {
      assert (a + b)[0] == a[0];
      assert (a + b)[1..] == a[1..] + b;
      TraverseConcat(a[1..], b, f);
      match f(a[0])
      case Failure(e) =>
      case Success(y) =>
        match Traverse(a[1..], f)
        case Failure(e) =>
        case Success(ys) =>
          if Traverse(b, f).Success? {
            assert [y] + (ys + Traverse(b, f).value) == ([y] + ys) + Traverse(b, f).value;
          }
    }
  }

  /** The error of a failed map is the error of the first element whose callback fails. */
  lemma {:induction false} TraverseFirstFailure<A, B, E>(xs: seq<A>, f: A -> Result<B, E>, i: nat)
    requires i < |xs| && f(xs[i]).Failure?
    requires forall j :: 0 <= j < i ==> f(xs[j]).Success?
    ensures Traverse(xs, f).Failure? && Traverse(xs, f).error == f(xs[i]).error
  {
    if i > 0 {
      assert f(xs[0]).Success?;
      assert forall j :: 0 <= j < i - 1 ==> xs[1..][j] == xs[j + 1];
      TraverseFirstFailure(xs[1..], f, i - 1);
    }
  }

  /** A failed map fails with the error of one of its elements. */
  lemma {:induction false} TraverseFailure<A, B, E>(xs: seq<A>, f: A -> Result<B, E>)
    requires Traverse(xs, f).Failure?
    ensures exists i :: 0 <= i < |xs| && f(xs[i]).Failure? && f(xs[i]).error == Traverse(xs, f).error
  {
    if f(xs[0]).Success? {
      TraverseFailure(xs[1..], f);
      var k :| 0 <= k < |xs[1..]| && f(xs[1..][k]).Failure? && f(xs[1..][k]).error == Traverse(xs[1..], f).error;
      assert xs[1..][k] == xs[k + 1];
    }
  }

  /** Mapping one more element appends its result. */
  lemma TraverseSnoc<A, B, E>(xs: seq<A>, x: A, f: A -> Result<B, E>)
    requires Traverse(xs, f).Success? && f(x).Success?
    ensures Traverse(xs + [x], f) == Success(Traverse(xs, f).value + [f(x).value])
  {
    TraverseConcat(xs, [x], f);
    assert [x][1..] == [];
    assert Traverse([x][1..], f) == Success([]);
    assert [f(x).value] + [] == [f(x).value];
    assert Traverse([x], f) == Success([f(x).value]);
  }

  /** When a prefix maps without error and the next element fails, the whole map fails with that error. */
  lemma TraversePrefixFailure<A, B, E>(xs: seq<A>, j: nat, f: A -> Result<B, E>)
    requires j < |xs| && Traverse(xs[..j], f).Success? && f(xs[j]).Failure?
    ensures Traverse(xs, f) == Failure(f(xs[j]).error)
  {
    forall k | 0 <= k < j ensures f(xs[k]).Success? {
      assert xs[..j][k] == xs[k];
    }
    TraverseFirstFailure(xs, f, j);
  }

  /** The elements of `s` whose key is `v`, in their order in `s`. */
  function WithKey<T, K(==)>(s: seq<T>, key: T -> K, v: K): seq<T>
  {
    if s == [] then []
    else (if key(s[0]) == v then [s[0]] else []) + WithKey(s[1..], key, v)
  }

  lemma {:induction false} WithKeyConcat<T, K>(a: seq<T>, b: seq<T>, key: T -> K, v: K)
    ensures WithKey(a + b, key, v) == WithKey(a, key, v) + WithKey(b, key, v)
  {
    if a == [] {
      assert a + b == b;
    } else {
      var head := if key(a[0]) == v then [a[0]] else [];
      assert (a + b)[0] == a[0];
      assert (a + b)[1..] == a[1..] + b;
      assert WithKey(a + b, key, v) == head + WithKey(a[1..] + b, key, v);
      WithKeyConcat(a[1..], b, key, v);
      assert head + (WithKey(a[1..], key, v) + WithKey(b, key, v)) ==
             (head + WithKey(a[1..], key, v)) + WithKey(b, key, v);
    }
  }

  /** Selection keeps exactly the elements with the key, as a multiset. */
  lemma {:induction false} WithKeyElements<T, K>(s: seq<T>, key: T -> K, v: K)
    ensures forall x :: x in WithKey(s, key, v) <==> x in s && key(x) == v
  {
    if s != [] {
      WithKeyElements(s[1..], key, v);
      assert s == [s[0]] + s[1..];
    }
  }

  /** Selecting by a boolean key splits `s` into two parts whose multisets add up to `s`'s. */
  lemma {:induction false} WithKeySplit<T>(s: seq<T>, p: T -> bool)
    ensures multiset(WithKey(s, p, true)) + multiset(WithKey(s, p, false)) == multiset(s)
  {
    if s != [] {
      WithKeySplit(s[1..], p);
      assert s == [s[0]] + s[1..];
      assert WithKey(s, p, true) == (if p(s[0]) then [s[0]] else []) + WithKey(s[1..], p, true);
      assert WithKey(s, p, false) == (if !p(s[0]) then [s[0]] else []) + WithKey(s[1..], p, false);
    }
  }

  /** When no element has key `v`, the selection is empty; when all have it, it is everything. */
  lemma {:induction false} WithKeyAllOrNone<T, K>(s: seq<T>, key: T -> K, v: K)
    ensures (forall i :: 0 <= i < |s| ==> key(s[i]) != v) ==> WithKey(s, key, v) == []
    ensures (forall i :: 0 <= i < |s| ==> key(s[i]) == v) ==> WithKey(s, key, v) == s
  {
    if s != [] {
      assert forall i :: 1 <= i < |s| ==> s[1..][i - 1] == s[i];
      WithKeyAllOrNone(s[1..], key, v);
    }
  }

  /** `s` is ordered by ascending key (the comparator `key(a) - key(b)`). */
  ghost predicate Sorted<T>(s: seq<T>, key: T -> int)
  {
    forall i, j :: 0 <= i < j < |s| ==> key(s[i]) <= key(s[j])
  }

  /** Inserts `x` in front of the first element whose key is not smaller than its own. */
  function Insert<T>(x: T, t: seq<T>, key: T -> int): seq<T>
  {
    if t == [] || key(x) <= key(t[0]) then [x] + t
    else [t[0]] + Insert(x, t[1..], key)
  }

  lemma {:induction false} InsertPermutes<T>(x: T, t: seq<T>, key: T -> int)
    ensures multiset(Insert(x, t, key)) == multiset(t) + multiset{x}
  {
    if !(t == [] || key(x) <= key(t[0])) {
      InsertPermutes(x, t[1..], key);
      assert t == [t[0]] + t[1..];
    }
  }

  lemma SortedCons<T>(h: T, t: seq<T>, key: T -> int)
    requires Sorted(t, key)
    requires forall i :: 0 <= i < |t| ==> key(h) <= key(t[i])
    ensures Sorted([h] + t, key)
  {
  }

  lemma {:induction false} InsertSorted<T>(x: T, t: seq<T>, key: T -> int)
    requires Sorted(t, key)
    ensures Sorted(Insert(x, t, key), key)
  {
    if t == [] || key(x) <= key(t[0]) {
      SortedCons(x, t, key);
    } else {
      var tail := t[1..];
      var rest := Insert(x, tail, key);
      assert Sorted(tail, key) by {
        forall i, j | 0 <= i < j < |tail| ensures key(tail[i]) <= key(tail[j]) {
          assert tail[i] == t[i + 1] && tail[j] == t[j + 1];
        }
      }
      InsertSorted(x, tail, key);
      InsertPermutes(x, tail, key);
      forall i | 0 <= i < |rest| ensures key(t[0]) <= key(rest[i]) {
        assert rest[i] in multiset(rest);
        if rest[i] != x {
          assert rest[i] in multiset(tail);
          var j :| 0 <= j < |tail| && tail[j] == rest[i];
          assert t[j + 1] == rest[i];
        }
      }
      SortedCons(t[0], rest, key);
    }
  }

  lemma {:induction false} InsertWithKey<T>(x: T, t: seq<T>, key: T -> int, v: int)
    ensures WithKey(Insert(x, t, key), key, v) == (if key(x) == v then [x] else []) + WithKey(t, key, v)
  {
    if t == [] || key(x) <= key(t[0]) {
      assert ([x] + t)[1..] == t;
    } else {
      InsertWithKey(x, t[1..], key, v);
      assert ([t[0]] + Insert(x, t[1..], key))[1..] == Insert(x, t[1..], key);
    }
  }

  /** Inserting the head of `s` into a sorted arrangement of its tail gives a sorted arrangement of `s`. */
  lemma InsertHead<T>(s: seq<T>, t: seq<T>, key: T -> int)
    requires s != [] && Sorted(t, key) && multiset(t) == multiset(s[1..])
    requires forall v :: WithKey(t, key, v) == WithKey(s[1..], key, v)
    ensures Sorted(Insert(s[0], t, key), key)
    ensures multiset(Insert(s[0], t, key)) == multiset(s)
    ensures forall v :: WithKey(Insert(s[0], t, key), key, v) == WithKey(s, key, v)
  {
    InsertSorted(s[0], t, key);
    InsertPermutes(s[0], t, key);
    assert s == [s[0]] + s[1..];
    forall v ensures WithKey(Insert(s[0], t, key), key, v) == WithKey(s, key, v) {
      InsertWithKey(s[0], t, key, v);
      assert WithKey(t, key, v) == WithKey(s[1..], key, v);
    }
  }

  /**
   * The stable sort `Array.prototype.sort` performs with a numeric
   * comparator: the result is ordered by key, is a permutation of the
   * input, and keeps the elements of each key in their input order.
   */
  function SortBy<T>(s: seq<T>, key: T -> int): (r: seq<T>)
    ensures Sorted(r, key)
    ensures multiset(r) == multiset(s)
    ensures forall v :: WithKey(r, key, v) == WithKey(s, key, v)
  {
    if s == [] then []
    else
      var rest := SortBy(s[1..], key);
      InsertHead(s, rest, key);
      Insert(s[0], rest, key)
  }

  /** A rearrangement of the elements with key `v` holds only elements with key `v`. */
  lemma KeyedElements<T, K>(a: seq<T>, s: seq<T>, key: T -> K, v: K)
    requires multiset(a) == multiset(WithKey(s, key, v))
    ensures forall i :: 0 <= i < |a| ==> key(a[i]) == v
  {
    WithKeyElements(s, key, v);
    forall i | 0 <= i < |a| ensures key(a[i]) == v {
      assert a[i] in multiset(a);
      assert a[i] in WithKey(s, key, v);
    }
  }

  /** Sorted elements satisfying `p` followed by elements that do not: each `p`-element is preceded only by smaller `p`-elements. */
  lemma OrderedBeforeOthers<T>(a: seq<T>, b: seq<T>, p: T -> bool, key: T -> int)
    requires forall i :: 0 <= i < |a| ==> p(a[i])
    requires forall i :: 0 <= i < |b| ==> !p(b[i])
    requires Sorted(a, key)
    ensures forall i, j :: 0 <= i < j < |a + b| && p((a + b)[j]) ==> p((a + b)[i]) && key((a + b)[i]) <= key((a + b)[j])
  {
  }

  /**
   * The elements satisfying `p`, sorted by `key`, followed by the others in
   * input order: a permutation in which every element satisfying `p` comes
   * before the others and in key order, and the others keep their order.
   */
  lemma SortedSelectionFirst<T>(s: seq<T>, p: T -> bool, key: T -> int)
    ensures var picked := SortBy(WithKey(s, p, true), key);
            var rest := WithKey(s, p, false);
            var r := picked + rest;
            && multiset(r) == multiset(s)
            && (forall i, j :: 0 <= i < j < |r| && p(r[j]) ==> p(r[i]) && key(r[i]) <= key(r[j]))
            && WithKey(r, p, false) == rest
  {
    var picked := SortBy(WithKey(s, p, true), key);
    var rest := WithKey(s, p, false);
    WithKeySplit(s, p);
    KeyedElements(picked, s, p, true);
    KeyedElements(rest, s, p, false);
    OrderedBeforeOthers(picked, rest, p, key);
    WithKeyConcat(picked, rest, p, false);
    WithKeyAllOrNone(picked, p, false);
    WithKeyAllOrNone(rest, p, false);
    assert [] + rest == rest;
  }

  /** No element occurs twice. */
  ghost predicate Distinct<T>(s: seq<T>)
  {
    forall a, b :: 0 <= a < b < |s| ==> s[a] != s[b]
  }

  lemma {:induction false} DistinctCountsOnce<T>(s: seq<T>, x: T)
    requires Distinct(s)
    ensures multiset(s)[x] <= 1
  {
    if s != [] {
      assert s == [s[0]] + s[1..];
      assert Distinct(s[1..]) by {
        forall a, b | 0 <= a < b < |s[1..]| ensures s[1..][a] != s[1..][b] {
          assert s[1..][a] == s[a + 1] && s[1..][b] == s[b + 1];
        }
      }
      DistinctCountsOnce(s[1..], x);
      if x == s[0] {
        assert x !in s[1..] by {
          forall k | 0 <= k < |s[1..]| ensures s[1..][k] != x {
            assert s[1..][k] == s[k + 1];
          }
        }
      }
    }
  }

  /** A permutation of a sequence without repetitions has none either. */
  lemma DistinctPermutation<T>(s: seq<T>, r: seq<T>)
    requires Distinct(s) && multiset(s) == multiset(r)
    ensures Distinct(r)
  {
    forall a, b | 0 <= a < b < |r| ensures r[a] != r[b] {
      if r[a] == r[b] {
        var x := r[a];
        assert r == r[..a] + [r[a]] + r[a + 1..b] + [r[b]] + r[b + 1..];
        assert multiset(r)[x] >= 2;
        DistinctCountsOnce(s, x);
        assert false;
      }
    }
  }
}
