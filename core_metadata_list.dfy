/** Ordering the resolutions of each series
    (lib/ome/files/CoreMetadataList.h): every series' secondary list is
    sorted in place, largest resolution first. */
module CoreMetadataList {
  /** The core metadata of one resolution. The sort compares only the
      X, Y and Z sizes and moves whole records. */
  datatype CoreMetadata = CoreMetadata(sizeX: nat, sizeY: nat, sizeZ: nat, sizeC: nat, sizeT: nat)

  /** The comparator: `lhs` goes before `rhs` when it is larger in any
      of X, Y or Z. */
  predicate Larger(lhs: CoreMetadata, rhs: CoreMetadata) {
    lhs.sizeX > rhs.sizeX || lhs.sizeY > rhs.sizeY || lhs.sizeZ > rhs.sizeZ
  }

  /** `a` is at least as large as `b` in each of X, Y and Z. */
  predicate Covers(a: CoreMetadata, b: CoreMetadata) {
    a.sizeX >= b.sizeX && a.sizeY >= b.sizeY && a.sizeZ >= b.sizeZ
  }

  /** Any two resolutions of the list are ordered component by
      component; the comparator is a strict weak ordering only then. */
  predicate Comparable(s: seq<CoreMetadata>) {
    forall x, y :: x in s && y in s ==> Covers(x, y) || Covers(y, x)
  }

  /** Non-increasing in X, Y and Z. */
  predicate Sorted(s: seq<CoreMetadata>) {
    forall i, j :: 0 <= i < j < |s| ==> Covers(s[i], s[j])
  }

  /** The comparator says "larger" exactly when the other does not
      cover; between comparable resolutions, "larger" means covering. */
  lemma LargerCovers(a: CoreMetadata, b: CoreMetadata)
    ensures !Larger(a, b) <==> Covers(b, a)
    ensures Larger(a, b) && (Covers(a, b) || Covers(b, a)) ==> Covers(a, b) && !Larger(b, a)
  {
  }

  /** A permutation of comparable resolutions is comparable. */
  lemma ComparablePermutation(s: seq<CoreMetadata>, t: seq<CoreMetadata>)
    requires multiset(s) == multiset(t) && Comparable(s)
    ensures Comparable(t)
  {
    forall x, y | x in t && y in t ensures Covers(x, y) || Covers(y, x) {
      assert x in multiset(t) && y in multiset(t);
    }
  }

  /** Sorted up to `i` except at `j`, where the element being
      inserted sits. */
  predicate SortedExcept(s: seq<CoreMetadata>, j: nat, i: nat)
    requires i < |s|
  {
    forall k, l :: 0 <= k < l <= i && k != j && l != j ==> Covers(s[k], s[l])
  }

  /** The element at `j` covers everything after it up to `i`. */
  predicate CoversAfter(s: seq<CoreMetadata>, j: nat, i: nat)
    requires j <= i < |s|
  {
    forall l :: j < l <= i ==> Covers(s[j], s[l])
  }

  /** Swapping the element being inserted one place left keeps the
      insertion invariant, once it covers its left neighbour. */
  lemma InsertStep(s: seq<CoreMetadata>, j: nat, i: nat)
    requires 0 < j <= i < |s| && Covers(s[j], s[j - 1])
    requires SortedExcept(s, j, i) && CoversAfter(s, j, i)
    ensures SortedExcept(s[j - 1 := s[j]][j := s[j - 1]], j - 1, i)
    ensures CoversAfter(s[j - 1 := s[j]][j := s[j - 1]], j - 1, i)
  {
  }

  /** Once the element being inserted covers its left neighbour, or is
      first, the whole prefix is sorted. */
  lemma InsertDone(s: seq<CoreMetadata>, j: nat, i: nat)
    requires j <= i < |s| && (j == 0 || Covers(s[j - 1], s[j]))
    requires SortedExcept(s, j, i) && CoversAfter(s, j, i)
    ensures Sorted(s[..i + 1])
  {
    forall k, l | 0 <= k < l <= i ensures Covers(s[k], s[l]) {
      if l == j && k < j - 1 {
        assert Covers(s[k], s[j - 1]);
      }
    }
  }

  /** Moves `a[i]` left past every element it is larger than. With the
      prefix before `i` sorted and the elements comparable, the prefix
      up to `i` is sorted afterwards. */
  method InsertAt(a: array<CoreMetadata>, i: nat)
    requires i < a.Length
    modifies a
    ensures multiset(a[..]) == multiset(old(a[..]))
    ensures a[i + 1..] == old(a[i + 1..])
    ensures Comparable(old(a[..])) && Sorted(old(a[..i])) ==> Sorted(a[..i + 1])
  {
    ghost var sortedBefore := Comparable(a[..]) && Sorted(a[..i]);
    var j := i;
    if sortedBefore {
      assert SortedExcept(a[..], j, i) by {
        forall k, l | 0 <= k < l <= i && k != j && l != j ensures Covers(a[k], a[l]) {
          assert a[..i][k] == a[k] && a[..i][l] == a[l];
        }
      }
    }
    while j > 0 && Larger(a[j], a[j - 1])
      invariant 0 <= j <= i
      invariant multiset(a[..]) == multiset(old(a[..]))
      invariant a[i + 1..] == old(a[i + 1..])
      invariant sortedBefore ==> Comparable(a[..]) && SortedExcept(a[..], j, i) && CoversAfter(a[..], j, i)
    {
      ghost var s := a[..];
      if sortedBefore {
        assert a[j] in s && a[j - 1] in s;
        LargerCovers(a[j], a[j - 1]);
        InsertStep(s, j, i);
      }
      Swap(a, j);
      j := j - 1;
      if sortedBefore {
        ComparablePermutation(s, a[..]);
      }
    }
    if sortedBefore {
      if j > 0 {
        LargerCovers(a[j], a[j - 1]);
      }
      InsertDone(a[..], j, i);
    }
  }

  /** Exchanges `a[j - 1]` and `a[j]`. */
  method Swap(a: array<CoreMetadata>, j: nat)
    requires 0 < j < a.Length
    modifies a
    ensures a[..] == old(a[..])[j - 1 := old(a[j])][j := old(a[j - 1])]
    ensures multiset(a[..]) == multiset(old(a[..]))
  {
    a[j], a[j - 1] := a[j - 1], a[j];
  }

  /** `std::sort` of one secondary list with the comparator. */
  method SortResolutions(a: array<CoreMetadata>)
    modifies a
    ensures multiset(a[..]) == multiset(old(a[..]))
    ensures Comparable(old(a[..])) ==> Sorted(a[..])
  {
    var i := 0;
    while i < a.Length
      invariant 0 <= i <= a.Length
      invariant multiset(a[..]) == multiset(old(a[..]))
      invariant Comparable(old(a[..])) ==> Comparable(a[..]) && Sorted(a[..i])
    {
      InsertAt(a, i);
      i := i + 1;
      if Comparable(old(a[..])) {
        ComparablePermutation(old(a[..]), a[..]);
      }
    }
    assert a[..i] == a[..];
  }

  /** `orderResolutions`: sorts each series' resolutions
      independently. The list of series is not changed, and each
      series keeps its resolutions, largest first whenever they are
      comparable. */
  method OrderResolutions(list: seq<array<CoreMetadata>>)
    requires forall i, j :: 0 <= i < j < |list| ==> list[i] != list[j]
    modifies set i | 0 <= i < |list| :: list[i]
    ensures forall i :: 0 <= i < |list| ==> multiset(list[i][..]) == multiset(old(list[i][..]))
    ensures forall i :: 0 <= i < |list| && Comparable(old(list[i][..])) ==> Sorted(list[i][..])
  {
    var k := 0;
    while k < |list|
      invariant 0 <= k <= |list|
      invariant forall i :: 0 <= i < k ==> multiset(list[i][..]) == multiset(old(list[i][..]))
      invariant forall i :: 0 <= i < k && Comparable(old(list[i][..])) ==> Sorted(list[i][..])
      invariant forall i :: k <= i < |list| ==> list[i][..] == old(list[i][..])
    {
      SortResolutions(list[k]);
      k := k + 1;
    }
  }

  /** Resolutions whose X, Y and Z sizes tell them apart. */
  predicate Distinguishable(s: seq<CoreMetadata>) {
    forall x, y :: x in s && y in s && Covers(x, y) && Covers(y, x) ==> x == y
  }

  /** The first of a sorted list covers every element of it. */
  lemma HeadCovers(t: seq<CoreMetadata>, x: CoreMetadata)
    requires Sorted(t) && x in t
    ensures Covers(t[0], x)
  {
    var k :| 0 <= k < |t| && t[k] == x;
    if k > 0 {
      assert Covers(t[0], t[k]);
    }
  }

  lemma SortedTail(s: seq<CoreMetadata>)
    requires Sorted(s) && s != []
    ensures Sorted(s[1..])
  {
    forall i, j | 0 <= i < j < |s| - 1 ensures Covers(s[1..][i], s[1..][j]) {
      assert s[1..][i] == s[i + 1] && s[1..][j] == s[j + 1];
    }
  }

  /** Two sorted permutations of distinguishable resolutions begin
      with the same one. */
  lemma SameHead(s: seq<CoreMetadata>, t: seq<CoreMetadata>)
    requires s != [] && multiset(s) == multiset(t) && Sorted(s) && Sorted(t) && Distinguishable(s)
    ensures t != [] && s[0] == t[0]
  {
    assert s[0] in multiset(t);
    assert t[0] in multiset(s);
    HeadCovers(t, s[0]);
    HeadCovers(s, t[0]);
    assert s[0] in s && t[0] in s;
  }

  /** Removing the same first element from two permutations leaves
      permutations. */
  lemma TailPermutation(s: seq<CoreMetadata>, t: seq<CoreMetadata>)
    requires s != [] && t != [] && s[0] == t[0] && multiset(s) == multiset(t)
    ensures multiset(s[1..]) == multiset(t[1..])
  {
    assert s == [s[0]] + s[1..] && t == [t[0]] + t[1..];
    forall x ensures multiset(s[1..])[x] == multiset(t[1..])[x] {
      assert multiset(s)[x] == multiset{s[0]}[x] + multiset(s[1..])[x];
      assert multiset(t)[x] == multiset{t[0]}[x] + multiset(t[1..])[x];
    }
  }

  lemma DistinguishableTail(s: seq<CoreMetadata>)
    requires s != [] && Distinguishable(s)
    ensures Distinguishable(s[1..])
  {
    forall x, y | x in s[1..] && y in s[1..] ensures x in s && y in s {
    }
  }

  /** Two sorted permutations of distinguishable resolutions are the
      same list: the order is fully determined. */
  lemma {:induction false} SortedUnique(s: seq<CoreMetadata>, t: seq<CoreMetadata>)
    requires multiset(s) == multiset(t) && Sorted(s) && Sorted(t) && Distinguishable(s)
    ensures s == t
  {
    if s == [] {
      assert |t| == |multiset(t)| == 0;
    } else {
      SameHead(s, t);
      TailPermutation(s, t);
      SortedTail(s);
      SortedTail(t);
      DistinguishableTail(s);
      SortedUnique(s[1..], t[1..]);
      assert s == [s[0]] + s[1..] && t == [t[0]] + t[1..];
    }
  }

  function CM(x: nat, y: nat, z: nat): CoreMetadata {
    CoreMetadata(x, y, z, 1, 1)
  }

  /** One series with resolutions 4096, 8192, 0, 2048 and 1024 wide. */
  const Example := [CM(4096, 4096, 1024), CM(8192, 8192, 1024), CM(0, 0, 0), CM(2048, 2048, 512), CM(1024, 1024, 256)]

  /** The example in the order 1, 0, 3, 4, 2. */
  const ExampleSorted := [Example[1], Example[0], Example[3], Example[4], Example[2]]

  /** A sorted list is comparable. */
  lemma SortedComparable(s: seq<CoreMetadata>)
    requires Sorted(s)
    ensures Comparable(s)
  {
    forall x, y | x in s && y in s ensures Covers(x, y) || Covers(y, x) {
      var i :| 0 <= i < |s| && s[i] == x;
      var j :| 0 <= j < |s| && s[j] == y;
      if i < j {
        assert Covers(s[i], s[j]);
      } else if j < i {
        assert Covers(s[j], s[i]);
      }
    }
  }

  /** In the order 1, 0, 3, 4, 2 the example is sorted. */
  lemma ExampleSortedIsSorted()
    ensures Sorted(ExampleSorted)
  {
  }

  lemma ExamplePermutation()
    ensures multiset(ExampleSorted) == multiset(Example)
  {
  }

  /** The resolutions of the example are comparable. */
  lemma ExampleComparable()
    ensures Comparable(Example)
  {
    ExampleSortedIsSorted();
    ExamplePermutation();
    SortedComparable(ExampleSorted);
    ComparablePermutation(ExampleSorted, Example);
  }

  lemma ExampleDistinguishable()
    ensures Distinguishable(ExampleSorted)
  {
  }

  /** Sorting that series gives its resolutions in the order 1, 0, 3,
      4, 2, and no other order is sorted. */
  lemma ExampleOrder(r: seq<CoreMetadata>)
    requires multiset(r) == multiset(Example) && Sorted(r)
    ensures r == ExampleSorted
  {
    ExampleSortedIsSorted();
    ExamplePermutation();
    ExampleDistinguishable();
    SortedUnique(ExampleSorted, r);
  }
}
