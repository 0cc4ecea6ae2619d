/** Lists of lists of metadata (lib/ome/files/MetadataList.h): the
    primary list is indexed by series, each secondary list by
    resolution. */
module MetadataList {
  /** `sizes`: the length of each secondary list, in order. */
  function Sizes<T>(list: seq<seq<T>>): (r: seq<nat>)
    ensures |r| == |list|
    ensures forall i :: 0 <= i < |list| ==> r[i] == |list[i]|
  {
    if list == [] then [] else Sizes(list[..|list| - 1]) + [|list[|list| - 1]|]
  }

  /** The sizes of the empty list are empty. */
  lemma SizesEmpty<T>()
    ensures Sizes<T>([]) == []
  {
  }

  /** Appending a secondary list appends its length: a list built one
      series at a time has the sizes of the list built at once. */
  lemma SizesAppend<T>(list: seq<seq<T>>, s: seq<T>)
    ensures Sizes(list + [s]) == Sizes(list) + [|s|]
  {
  }

  /** Sizes distribute over concatenation. */
  lemma {:induction false} SizesConcat<T>(a: seq<seq<T>>, b: seq<seq<T>>)
    ensures Sizes(a + b) == Sizes(a) + Sizes(b)
  {
    if b != [] {
      var init := b[..|b| - 1];
      assert b == init + [b[|b| - 1]];
      assert a + b == (a + init) + [b[|b| - 1]];
      SizesConcat(a, init);
      SizesAppend(a + init, b[|b| - 1]);
      SizesAppend(init, b[|b| - 1]);
    } else {
      assert a + b == a;
    }
  }

  /** The sizes of a nested list display. */
  lemma SizesExample()
    ensures Sizes([[0, 1, 2], [3], [4, 5], [6, 7, 8]]) == [3, 1, 2, 3]
  {
  }
}
