/** Python's `sorted`: a stable sort by a total preorder, `leq(x, y)` meaning that `x` may stand
    before `y`. */
module Sorting {

  ghost predicate TotalPreorder<T(!new)>(leq: (T, T) -> bool) {
    && (forall x, y :: leq(x, y) || leq(y, x))
    && (forall x, y, z :: leq(x, y) && leq(y, z) ==> leq(x, z))
  }

  ghost predicate SortedBy<T(!new)>(s: seq<T>, leq: (T, T) -> bool) {
    forall i, j :: 0 <= i < j < |s| ==> leq(s[i], s[j])
  }

  /** Put `x` in front of the first element it may precede. */
  function Insert<T>(x: T, s: seq<T>, leq: (T, T) -> bool): seq<T> {
    if s == [] || leq(x, s[0]) then [x] + s else [s[0]] + Insert(x, s[1..], leq)
  }

  function Sort<T>(s: seq<T>, leq: (T, T) -> bool): seq<T> {
    if s == [] then [] else Insert(s[0], Sort(s[1..], leq), leq)
  }

  lemma {:induction false} InsertKeeps<T>(x: T, s: seq<T>, leq: (T, T) -> bool)
    ensures multiset(Insert(x, s, leq)) == multiset{x} + multiset(s)
    ensures |Insert(x, s, leq)| == |s| + 1
  {
    if s == [] || leq(x, s[0]) {
    } else {
      InsertKeeps(x, s[1..], leq);
      assert s == [s[0]] + s[1..];
    }
  }

  lemma {:induction false} InsertSorted<T(!new)>(x: T, s: seq<T>, leq: (T, T) -> bool)
    requires TotalPreorder(leq) && SortedBy(s, leq)
    ensures SortedBy(Insert(x, s, leq), leq)
  {
    if s == [] {
    } else if leq(x, s[0]) {
      forall j | 0 <= j < |s| ensures leq(x, s[j]) {
        assert j == 0 || leq(s[0], s[j]);
      }
    } else {
      var rest := Insert(x, s[1..], leq);
      InsertSorted(x, s[1..], leq);
      InsertKeeps(x, s[1..], leq);
      forall j | 0 <= j < |rest| ensures leq(s[0], rest[j]) {
        assert rest[j] in multiset(rest);
        if rest[j] != x {
          assert rest[j] in multiset(s[1..]);
          var k :| 0 <= k < |s[1..]| && s[1..][k] == rest[j];
          assert leq(s[0], s[k + 1]);
        }
      }
    }
  }

  lemma {:induction false} SortKeeps<T>(s: seq<T>, leq: (T, T) -> bool)
    ensures multiset(Sort(s, leq)) == multiset(s)
    ensures |Sort(s, leq)| == |s|
    ensures forall x :: x in s <==> x in Sort(s, leq)
  {
    if s != [] {
      SortKeeps(s[1..], leq);
      InsertKeeps(s[0], Sort(s[1..], leq), leq);
      assert s == [s[0]] + s[1..];
    }
    assert forall x :: x in s <==> x in multiset(s);
    assert forall x :: x in Sort(s, leq) <==> x in multiset(Sort(s, leq));
  }

  lemma {:induction false} SortSorts<T(!new)>(s: seq<T>, leq: (T, T) -> bool)
    requires TotalPreorder(leq)
    ensures SortedBy(Sort(s, leq), leq)
  {
    if s != [] {
      SortSorts(s[1..], leq);
      InsertSorted(s[0], Sort(s[1..], leq), leq);
    }
  }

  /** The elements that rank like `c`, in their order. */
  function Alike<T>(s: seq<T>, leq: (T, T) -> bool, c: T): seq<T> {
    if s == [] then [] else (if leq(s[0], c) && leq(c, s[0]) then [s[0]] else []) + Alike(s[1..], leq, c)
  }

  lemma {:induction false} InsertAlike<T(!new)>(x: T, s: seq<T>, leq: (T, T) -> bool, c: T)
    requires TotalPreorder(leq)
    ensures Alike(Insert(x, s, leq), leq, c) == (if leq(x, c) && leq(c, x) then [x] else []) + Alike(s, leq, c)
  {
    if s == [] || leq(x, s[0]) {
      assert ([x] + s)[1..] == s;
    } else {
      InsertAlike(x, s[1..], leq, c);
      assert ([s[0]] + Insert(x, s[1..], leq))[1..] == Insert(x, s[1..], leq);
    }
  }

  /** Sorting is stable: elements of the same rank keep their order. */
  lemma {:induction false} SortIsStable<T(!new)>(s: seq<T>, leq: (T, T) -> bool, c: T)
    requires TotalPreorder(leq)
    ensures Alike(Sort(s, leq), leq, c) == Alike(s, leq, c)
  {
    if s != [] {
      SortIsStable(s[1..], leq, c);
      InsertAlike(s[0], Sort(s[1..], leq), leq, c);
    }
  }

  ghost predicate Pairwise<T(!new)>(s: seq<T>, rel: (T, T) -> bool) {
    forall i, j :: 0 <= i < j < |s| ==> rel(s[i], s[j])
  }

  lemma {:induction false} InsertShape<T>(x: T, s: seq<T>, leq: (T, T) -> bool) returns (k: nat)
    ensures k <= |s| && Insert(x, s, leq) == s[..k] + [x] + s[k..]
  {
    if s == [] || leq(x, s[0]) {
      k := 0;
    } else {
      var j := InsertShape(x, s[1..], leq);
      k := j + 1;
      assert s[..k] == [s[0]] + s[1..][..j];
    }
  }

  lemma PairwiseInsert<T(!new)>(rest: seq<T>, x: T, k: nat, rel: (T, T) -> bool)
    requires k <= |rest| && Pairwise(rest, rel) && forall i :: 0 <= i < |rest| ==> rel(x, rest[i]) && rel(rest[i], x)
    ensures Pairwise(rest[..k] + [x] + rest[k..], rel)
  {
    var out := rest[..k] + [x] + rest[k..];
    assert forall i :: 0 <= i < k ==> out[i] == rest[i];
    assert forall i :: k < i < |out| ==> out[i] == rest[i - 1];
  }

  /** A symmetric relation that holds between any two elements survives sorting. */
  lemma {:induction false} SortPairwise<T(!new)>(s: seq<T>, leq: (T, T) -> bool, rel: (T, T) -> bool)
    requires Pairwise(s, rel) && forall x, y :: rel(x, y) ==> rel(y, x)
    ensures Pairwise(Sort(s, leq), rel)
  {
    if s != [] {
      var rest := Sort(s[1..], leq);
      SortPairwise(s[1..], leq, rel);
      SortKeeps(s[1..], leq);
      forall i | 0 <= i < |rest| ensures rel(s[0], rest[i]) {
        assert rest[i] in s[1..];
        var j :| 0 <= j < |s[1..]| && s[1..][j] == rest[i];
        assert rel(s[0], s[j + 1]);
      }
      var k := InsertShape(s[0], rest, leq);
      PairwiseInsert(rest, s[0], k, rel);
    }
  }
}
