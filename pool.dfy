/** The pool pattern shared by the delay and event descriptors: a fixed array of nodes
    threaded into two singly linked lists, free and active, by an array of `next` indices.
    The lists themselves are ghost sequences of node indices, head first. */
module Pool {

  /** The index form of a NULL `next` pointer. */
  const NIL: int := -1

  /** The node at position `k` of list `L`, or NIL past its end. */
  function At(L: seq<int>, k: int): int
  {
    if 0 <= k < |L| then L[k] else NIL
  }

  ghost predicate InRange(n: int, L: seq<int>)
  {
    forall k | 0 <= k < |L| :: 0 <= L[k] < n
  }

  ghost predicate Distinct<T>(L: seq<T>)
  {
    forall i, j | 0 <= i < j < |L| :: L[i] != L[j]
  }

  ghost predicate Disjoint(F: seq<int>, A: seq<int>)
  {
    forall k | 0 <= k < |F| :: F[k] !in A
  }

  /** `head` and the links `nx` visit exactly the nodes of `L`, in order, and then NIL. */
  ghost predicate Linked(nx: seq<int>, head: int, L: seq<int>)
  {
    && InRange(|nx|, L)
    && head == At(L, 0)
    && forall k | 0 <= k < |L| :: nx[L[k]] == At(L, k + 1)
  }

  /** The free list `F` and the active list `A` share no node, repeat no node and together
      hold all `n` nodes of the pool. */
  ghost predicate Partition(n: nat, F: seq<int>, A: seq<int>)
  {
    && InRange(n, F) && InRange(n, A)
    && Distinct(F) && Distinct(A) && Disjoint(F, A)
    && |F| + |A| == n
  }

  /** The nodes 0, 1, ..., n-1 in index order. */
  function Range(n: nat): seq<int>
  {
    seq(n, k => k)
  }

  /** The records of the nodes of `L`, in list order. */
  ghost function View<T>(s: seq<T>, L: seq<int>): seq<T>
    requires InRange(|s|, L)
  {
    seq(|L|, k requires 0 <= k < |L| => s[L[k]])
  }

  /** The first position of `x` in `xs`, or -1 when it does not occur: the linear scan
      every pool operation starts with. */
  function IndexOf<T(==)>(xs: seq<T>, x: T): (k: int)
    ensures -1 <= k < |xs|
    ensures k >= 0 ==> xs[k] == x && forall j | 0 <= j < k :: xs[j] != x
    ensures k < 0 ==> x !in xs
  {
    if |xs| == 0 then -1
    else if xs[0] == x then 0
    else
      var k := IndexOf(xs[1..], x);
      if k < 0 then -1 else k + 1
  }

  /** The scan looks at the head first. */
  lemma IndexOfCons<T>(x: T, xs: seq<T>, y: T)
    ensures IndexOf([x] + xs, y) == if x == y then 0 else (var k := IndexOf(xs, y); if k < 0 then -1 else k + 1)
  {
    assert ([x] + xs)[1..] == xs;
  }

  /** In a list without repeats the scan finds each element at its own position. */
  lemma IndexOfDistinct<T>(xs: seq<T>, k: int)
    requires Distinct(xs) && 0 <= k < |xs|
    ensures IndexOf(xs, xs[k]) == k
  {
  }

  /** Writing a record outside `L` does not change the view of `L`. */
  lemma ViewFrame<T>(s: seq<T>, L: seq<int>, x: int, v: T)
    requires InRange(|s|, L) && 0 <= x < |s| && x !in L
    ensures View(s[x := v], L) == View(s, L)
  {
  }

  /** Writing the record of the node at position `k` writes position `k` of the view. */
  lemma ViewUpdate<T>(s: seq<T>, L: seq<int>, k: int, v: T)
    requires InRange(|s|, L) && Distinct(L) && 0 <= k < |L|
    ensures View(s[L[k] := v], L) == View(s, L)[k := v]
  {
  }

  /** Pushing a node with a fresh record onto the front of `L` pushes that record onto the view. */
  lemma ViewPush<T>(s: seq<T>, L: seq<int>, x: int, v: T)
    requires InRange(|s|, L) && 0 <= x < |s| && x !in L
    ensures View(s[x := v], [x] + L) == [v] + View(s, L)
  {
  }

  /** Unlinking the node at position `k` and then overwriting its record removes position `k`
      from the view and keeps the others in order. */
  lemma ViewUnlink<T>(s: seq<T>, L: seq<int>, k: int, v: T)
    requires InRange(|s|, L) && Distinct(L) && 0 <= k < |L|
    ensures InRange(|s|, Unlinked(L, k))
    ensures View(s[L[k] := v], Unlinked(L, k)) == View(s, L)[..k] + View(s, L)[k + 1..]
  {
    var L' := Unlinked(L, k);
    assert forall j | 0 <= j < |L'| :: L'[j] == L[if j < k then j else j + 1];
    assert forall j | 0 <= j < |L'| :: L'[j] != L[k];
  }

  /** Links that thread nodes 0 .. n-1 into one list in index order, ending in NIL. */
  method ThreadedLinks(n: nat) returns (links: array<int>)
    requires n > 0
    ensures fresh(links) && links.Length == n
    ensures Linked(links[..], 0, Range(n)) && Partition(n, Range(n), [])
  {
    links := new int[n];
    var i := 0;
    while i < n - 1
      invariant 0 <= i <= n - 1
      invariant forall j | 0 <= j < i :: links[j] == j + 1
    {
      links[i] := i + 1;
      i := i + 1;
    }
    links[n - 1] := NIL;
    InitLinked(links[..]);
  }

  /** Linking node i to node i+1 for every i and ending with NIL threads the whole pool,
      in index order, into one list. */
  lemma InitLinked(nx: seq<int>)
    requires |nx| > 0
    requires forall i | 0 <= i < |nx| - 1 :: nx[i] == i + 1
    requires nx[|nx| - 1] == NIL
    ensures Linked(nx, 0, Range(|nx|))
    ensures Partition(|nx|, Range(|nx|), [])
  {
  }

  /** Every node is on one of the two lists: a partition leaves no node out. */
  lemma PartitionCovers(n: nat, F: seq<int>, A: seq<int>)
    requires Partition(n, F, A)
    ensures forall i | 0 <= i < n :: i in F || i in A
  {
    var s := F + A;
    assert Distinct(s) by {
      forall i, j | 0 <= i < j < |s| ensures s[i] != s[j] {
        if j < |F| {
        } else if i >= |F| {
          assert s[i] == A[i - |F|] && s[j] == A[j - |F|];
        } else {
          assert s[i] == F[i] && s[j] in A;
        }
      }
    }
    forall i | 0 <= i < n ensures i in F || i in A {
      if i !in s {
        var all := set x | x in Range(n);
        var elems := set x | x in s;
        DistinctCard(s);
        DistinctCard(Range(n));
        assert Range(n)[i] == i;
        assert elems <= all - {i} by {
          forall x | x in elems ensures x in all - {i} {
            assert Range(n)[x] == x;
          }
        }
        SubsetCard(elems, all - {i});
        assert false;
      }
    }
  }

  lemma {:induction false} DistinctCard(s: seq<int>)
    requires Distinct(s)
    ensures |set x | x in s| == |s|
  {
    if |s| > 0 {
      var t := s[1..];
      assert Distinct(t);
      DistinctCard(t);
      assert (set x | x in s) == (set x | x in t) + {s[0]};
      assert s[0] !in t;
    }
  }

  lemma SubsetCard(a: set<int>, b: set<int>)
    requires a <= b
    ensures |a| <= |b|
  {
    assert b == a + (b - a);
    assert a * (b - a) == {};
  }

  /** Acquire: pop the free head and push it onto the active head. The free list then
      starts at the old head's successor and the active list at the old free head. */
  lemma Acquire(nx: seq<int>, F: seq<int>, ah: int, A: seq<int>)
    requires |F| > 0 && Linked(nx, F[0], F) && Linked(nx, ah, A)
    requires Partition(|nx|, F, A)
    ensures Linked(nx[F[0] := ah], nx[F[0]], F[1..])
    ensures Linked(nx[F[0] := ah], F[0], [F[0]] + A)
    ensures Partition(|nx|, F[1..], [F[0]] + A)
  {
    var h := F[0];
    var nx' := nx[h := ah];
    forall k | 0 <= k < |F| - 1 ensures nx'[F[1..][k]] == At(F[1..], k + 1) {
      assert F[k + 1] != h;
    }
    var A' := [h] + A;
    forall k | 0 <= k < |A'| ensures nx'[A'[k]] == At(A', k + 1) {
      if k > 0 {
        assert A'[k] == A[k - 1] && A[k - 1] != h;
      }
    }
  }

  /** The list with its element at position `k` unlinked: the others keep their order. */
  function Unlinked<T>(A: seq<T>, k: int): (r: seq<T>)
    requires 0 <= k < |A|
    ensures |r| == |A| - 1
    ensures forall j | 0 <= j < |r| :: r[j] == A[if j < k then j else j + 1]
  {
    A[..k] + A[k + 1..]
  }

  /** Unlinking behind the head keeps the head in front. */
  lemma UnlinkedCons<T>(A: seq<T>, k: int)
    requires 0 <= k < |A| - 1
    ensures Unlinked(A, k + 1) == [A[0]] + Unlinked(A[1..], k)
  {
    var l, r := Unlinked(A, k + 1), [A[0]] + Unlinked(A[1..], k);
    assert |l| == |r|;
    forall j | 0 <= j < |l| ensures l[j] == r[j] {
      if j > 0 {
        assert r[j] == Unlinked(A[1..], k)[j - 1];
      }
    }
  }

  /** Unlinking position `k` of a list without repeats leaves a list without repeats that no
      longer holds `A[k]`; every other element moves up by one place if it stood behind `k`. */
  lemma UnlinkedIndexOf<T>(A: seq<T>, k: int, x: T)
    requires Distinct(A) && 0 <= k < |A|
    ensures Distinct(Unlinked(A, k)) && A[k] !in Unlinked(A, k)
    ensures x != A[k] ==>
              IndexOf(Unlinked(A, k), x) == (var j := IndexOf(A, x); if j < 0 then -1 else if j < k then j else j - 1)
  {
    UnlinkedDistinct(A, k);
    if x != A[k] {
      UnlinkedShift(A, k, x);
    }
  }

  lemma UnlinkedShift<T>(A: seq<T>, k: int, x: T)
    requires 0 <= k < |A| && x != A[k]
    ensures IndexOf(Unlinked(A, k), x) == (var j := IndexOf(A, x); if j < 0 then -1 else if j < k then j else j - 1)
  {
    var r := Unlinked(A, k);
    var j := IndexOf(A, x);
    if j >= 0 {
      var j' := if j < k then j else j - 1;
      assert r[j'] == x;
      forall i | 0 <= i < j' ensures r[i] != x {
        var i0 := if i < k then i else i + 1;
        assert r[i] == A[i0] && i0 < j;
      }
      IndexOfFirst(r, x, j');
    } else {
      forall i | 0 <= i < |r| ensures r[i] != x {
        var i0 := if i < k then i else i + 1;
        assert r[i] == A[i0];
      }
      IndexOfAbsent(r, x);
    }
  }

  lemma IndexOfAbsent<T>(xs: seq<T>, x: T)
    requires forall i | 0 <= i < |xs| :: xs[i] != x
    ensures IndexOf(xs, x) == -1
  {
  }

  lemma UnlinkedDistinct<T>(A: seq<T>, k: int)
    requires Distinct(A) && 0 <= k < |A|
    ensures Distinct(Unlinked(A, k)) && A[k] !in Unlinked(A, k)
  {
    var r := Unlinked(A, k);
    forall i, j | 0 <= i < j < |r| ensures r[i] != r[j] {
      var i0 := if i < k then i else i + 1;
      var j0 := if j < k then j else j + 1;
      assert r[i] == A[i0] && r[j] == A[j0];
    }
  }

  /** The first occurrence of `x` is where IndexOf finds it. */
  lemma IndexOfFirst<T>(xs: seq<T>, x: T, j: int)
    requires 0 <= j < |xs| && xs[j] == x
    requires forall i | 0 <= i < j :: xs[i] != x
    ensures IndexOf(xs, x) == j
  {
  }

  /** The links after releasing the active node at position `k`: its predecessor takes
      over its successor, and the node itself points at the old free head. */
  function ReleaseLinks(nx: seq<int>, fh: int, A: seq<int>, k: int): seq<int>
    requires 0 <= k < |A| && InRange(|nx|, A)
  {
    (if k == 0 then nx else nx[A[k - 1] := nx[A[k]]])[A[k] := fh]
  }

  /** Release of the active node at position `k`: the active head (or the predecessor's
      link) skips it, then the node is pushed onto the free head. */
  lemma Release(nx: seq<int>, fh: int, F: seq<int>, ah: int, A: seq<int>, k: int)
    requires Linked(nx, fh, F) && Linked(nx, ah, A) && Partition(|nx|, F, A)
    requires 0 <= k < |A|
    ensures Linked(ReleaseLinks(nx, fh, A, k), A[k], [A[k]] + F)
    ensures Linked(ReleaseLinks(nx, fh, A, k), if k == 0 then nx[A[k]] else ah, Unlinked(A, k))
    ensures Partition(|nx|, [A[k]] + F, Unlinked(A, k))
  {
    ReleaseFreeSide(nx, fh, F, ah, A, k);
    ReleaseActiveSide(nx, fh, F, ah, A, k);
    ReleasePartition(|nx|, F, A, k);
  }

  lemma ReleaseFreeSide(nx: seq<int>, fh: int, F: seq<int>, ah: int, A: seq<int>, k: int)
    requires Linked(nx, fh, F) && Linked(nx, ah, A) && Partition(|nx|, F, A)
    requires 0 <= k < |A|
    ensures Linked(ReleaseLinks(nx, fh, A, k), A[k], [A[k]] + F)
  {
    var r := A[k];
    var nx' := ReleaseLinks(nx, fh, A, k);
    var F' := [r] + F;
    forall j | 0 <= j < |F'| ensures nx'[F'[j]] == At(F', j + 1) {
      if j > 0 {
        assert F'[j] == F[j - 1] && F[j - 1] !in A;
        assert F[j - 1] != r;
        assert k > 0 ==> F[j - 1] != A[k - 1];
      }
    }
  }

  lemma ReleaseActiveSide(nx: seq<int>, fh: int, F: seq<int>, ah: int, A: seq<int>, k: int)
    requires Linked(nx, fh, F) && Linked(nx, ah, A) && Partition(|nx|, F, A)
    requires 0 <= k < |A|
    ensures Linked(ReleaseLinks(nx, fh, A, k), if k == 0 then nx[A[k]] else ah, Unlinked(A, k))
  {
    var r := A[k];
    var nx' := ReleaseLinks(nx, fh, A, k);
    var A' := Unlinked(A, k);
    forall j | 0 <= j < |A'| ensures 0 <= A'[j] < |nx| {
      assert A'[j] == A[if j < k then j else j + 1];
    }
    forall j | 0 <= j < |A'| ensures nx'[A'[j]] == At(A', j + 1) {
      if j < k {
        assert A'[j] == A[j] && A[j] != r;
        if j == k - 1 {
          assert nx'[A'[j]] == nx[r] == At(A, k + 1);
        }
      } else {
        assert A'[j] == A[j + 1] && A[j + 1] != r;
        assert k > 0 ==> A[j + 1] != A[k - 1];
      }
    }
  }

  lemma ReleasePartition(n: nat, F: seq<int>, A: seq<int>, k: int)
    requires Partition(n, F, A)
    requires 0 <= k < |A|
    ensures Partition(n, [A[k]] + F, Unlinked(A, k))
  {
    var F' := [A[k]] + F;
    var A' := Unlinked(A, k);
    assert A[k] !in F;
    assert forall j | 0 <= j < |A'| :: A'[j] == A[if j < k then j else j + 1];
    assert Distinct(A') by {
      forall i, j | 0 <= i < j < |A'| ensures A'[i] != A'[j] {
        var i0 := if i < k then i else i + 1;
        var j0 := if j < k then j else j + 1;
        assert A'[i] == A[i0] && A'[j] == A[j0];
      }
    }
    assert Disjoint(F', A') by {
      forall j | 0 <= j < |F'| ensures F'[j] !in A' {
        assert j > 0 ==> F'[j] == F[j - 1] && F[j - 1] !in A;
      }
    }
  }
}
