/** Types shared by every module of the model. */
module Basics {

  datatype Option<+T> = None | Some(value: T)

  /** The outcome of an operation that can be refused. */
  datatype Result<+T, +E> = Ok(value: T) | Err(error: E) {
    predicate IsFailure() {
      Err?
    }

    function PropagateFailure<U>(): Result<U, E>
      requires Err?
    {
      Err(error)
    }

    function Extract(): T
      requires Ok?
    {
      value
    }
  }

  type byte = b: int | 0 <= b < 256

  /** Concatenation of all parts, in order. */
  function Flatten<T>(parts: seq<seq<T>>): seq<T> {
    if parts == [] then [] else parts[0] + Flatten(parts[1..])
  }

  lemma {:induction false} FlattenAppend<T>(xs: seq<seq<T>>, ys: seq<seq<T>>)
    ensures Flatten(xs + ys) == Flatten(xs) + Flatten(ys)
  {
    if xs == [] {
      assert xs + ys == ys;
    } else {
      assert (xs + ys)[1..] == xs[1..] + ys;
      FlattenAppend(xs[1..], ys);
    }
  }

  predicate Distinct<T(==)>(s: seq<T>) {
    forall i, j :: 0 <= i < j < |s| ==> s[i] != s[j]
  }

  function Map<T, U>(f: T -> U, s: seq<T>): (r: seq<U>)
    ensures |r| == |s| && forall i :: 0 <= i < |s| ==> r[i] == f(s[i])
  {
    if s == [] then [] else [f(s[0])] + Map(f, s[1..])
  }

  lemma Regroup<T>(x: seq<T>, y: seq<T>, z: seq<T>)
    ensures x + y + z == x + (y + z)
  {
  }

  lemma SuffixStep<T>(s: seq<T>, i: nat)
    requires i < |s|
    ensures s[i..] == [s[i]] + s[i + 1..]
  {
  }

  lemma SuffixSplit<T>(s: seq<T>, i: nat, k: nat)
    requires i <= k <= |s|
    ensures s[i..] == s[i..k] + s[k..]
  {
  }

  // ----- order of a sequence does not matter

  lemma TakeOut<T>(s: seq<T>, x: T) returns (front: seq<T>, back: seq<T>)
    requires x in s
    ensures s == front + [x] + back
    ensures multiset(s) == multiset{x} + multiset(front + back)
  {
    var i :| 0 <= i < |s| && s[i] == x;
    front, back := s[..i], s[i + 1..];
    assert s == front + [x] + back;
    MultisetOfInsert(front, x, back);
  }

  lemma MultisetOfInsert<T>(front: seq<T>, x: T, back: seq<T>)
    ensures multiset(front + [x] + back) == multiset{x} + multiset(front + back)
  {
    assert multiset(front + [x] + back) == multiset(front) + multiset{x} + multiset(back);
    assert multiset(front + back) == multiset(front) + multiset(back);
  }

  lemma {:induction false} MapOfConcat<T, U>(f: T -> U, a: seq<T>, b: seq<T>)
    ensures Map(f, a + b) == Map(f, a) + Map(f, b)
  {
  }

  lemma MapOfInsert<T, U>(f: T -> U, front: seq<T>, x: T, back: seq<T>)
    ensures multiset(Map(f, front + [x] + back)) == multiset{f(x)} + multiset(Map(f, front + back))
  {
    MapOfConcat(f, front, back);
    MapOfConcat(f, front + [x], back);
    MapOfConcat(f, front, [x]);
    assert Map(f, [x]) == [f(x)];
    MultisetOfInsert(Map(f, front), f(x), Map(f, back));
  }

  lemma {:induction false} MapPermutes<T, U>(f: T -> U, a: seq<T>, b: seq<T>)
    requires multiset(a) == multiset(b)
    ensures multiset(Map(f, a)) == multiset(Map(f, b))
    decreases |a|
  {
    if a == [] {
      assert |multiset(b)| == |multiset(a)| == 0;
    } else {
      var x, rest := a[0], a[1..];
      assert a == [] + [x] + rest && [] + rest == rest;
      MultisetOfInsert([], x, rest);
      assert x in multiset(a) && x in multiset(b);
      var front, back := TakeOut(b, x);
      SameWithout(multiset{x}, multiset(rest), multiset(front + back));
      MapPermutes(f, rest, front + back);
      MapOfInsert(f, [], x, rest);
      MapOfInsert(f, front, x, back);
    }
  }

  lemma SameWithout<T>(x: multiset<T>, a: multiset<T>, b: multiset<T>)
    requires x + a == x + b
    ensures a == b
  {
    assert a == x + a - x && b == x + b - x;
  }

  lemma DistinctStep<T>(x: T, rest: seq<T>)
    ensures Distinct([x] + rest) <==> x !in rest && Distinct(rest)
  {
    var s := [x] + rest;
    assert s[0] == x && forall i :: 0 <= i < |rest| ==> rest[i] == s[i + 1];
    if Distinct(s) {
      forall i | 0 <= i < |rest| ensures rest[i] != x {
        assert s[0] != s[i + 1];
      }
      forall i, j | 0 <= i < j < |rest| ensures rest[i] != rest[j] {
        assert s[i + 1] != s[j + 1];
      }
    }
    if x !in rest && Distinct(rest) {
      forall i, j | 0 <= i < j < |s| ensures s[i] != s[j] {
        assert s[j] == rest[j - 1];
      }
    }
  }

  lemma {:induction false} DistinctIffOnce<T>(s: seq<T>)
    ensures Distinct(s) <==> forall x :: x in s ==> multiset(s)[x] == 1
  {
    if s != [] {
      var rest := s[1..];
      DistinctIffOnce(rest);
      assert s == [s[0]] + rest;
      DistinctStep(s[0], rest);
      assert forall x :: multiset(s)[x] == multiset(rest)[x] + if x == s[0] then 1 else 0;
      assert s[0] in s && (s[0] in rest <==> s[0] in multiset(rest));
      forall x | x in rest ensures x in s && multiset(rest)[x] >= 1 {
        assert x in multiset(rest);
      }
    }
  }

  lemma DistinctPermutes<T>(a: seq<T>, b: seq<T>)
    requires multiset(a) == multiset(b)
    ensures Distinct(a) <==> Distinct(b)
    ensures forall x :: x in a <==> x in b
  {
    forall x ensures x in a <==> x in b {
      assert x in a <==> x in multiset(a);
      assert x in b <==> x in multiset(b);
    }
    DistinctIffOnce(a);
    DistinctIffOnce(b);
  }

  /** Every element of `a` has a partner in `b` that looks the same through `f`. */
  lemma Partner<T, U>(f: T -> U, a: seq<T>, b: seq<T>, x: T) returns (y: T)
    requires multiset(Map(f, a)) == multiset(Map(f, b)) && x in a
    ensures y in b && f(y) == f(x)
  {
    var i :| 0 <= i < |a| && a[i] == x;
    assert Map(f, a)[i] == f(x);
    assert f(x) in multiset(Map(f, a)) && f(x) in multiset(Map(f, b));
    var j :| 0 <= j < |b| && Map(f, b)[j] == f(x);
    y := b[j];
  }

  predicate SameMembers<T(==)>(a: seq<T>, b: seq<T>) {
    (forall x :: x in a ==> x in b) && (forall x :: x in b ==> x in a)
  }
}
