/** The slice helpers of the `util` crate: sortedness checks over a key
    extractor, and the reinterpretation of a slice of values as its bytes. */
module SliceUtil {
  import opened Arithmetic

  type Byte = bv8

  // ---------------------------------------------------------------------------
  // Sortedness
  // ---------------------------------------------------------------------------

  /** `lt` is a strict total order: the Dafny reading of a Rust `Ord` type's `<`. */
  ghost predicate StrictTotalOrder<K(!new)>(lt: (K, K) -> bool) {
    && (forall x :: !lt(x, x))
    && (forall x, y, z :: lt(x, y) && lt(y, z) ==> lt(x, z))
    && (forall x, y :: x == y || lt(x, y) || lt(y, x))
  }

  /** No adjacent pair is out of order: `key(s[i]) > key(s[i + 1])` never holds.
      Equal adjacent keys are allowed. */
  predicate AdjacentInOrder<T, K>(s: seq<T>, key: T -> K, lt: (K, K) -> bool) {
    forall i :: 1 <= i < |s| ==> !lt(key(s[i]), key(s[i - 1]))
  }

  /** Every pair is in order: `key(s[i]) <= key(s[j])` whenever `i < j`. */
  ghost predicate SortedByKey<T, K>(s: seq<T>, key: T -> K, lt: (K, K) -> bool) {
    forall i, j :: 0 <= i < j < |s| ==> !lt(key(s[j]), key(s[i]))
  }

  /** `is_slice_sorted_by_key`: walks the slice once, remembering the previous
      key, and gives up at the first key smaller than its predecessor. */
  method IsSliceSortedByKey<T, K(!new)>(slice: seq<T>, key: T -> K, lt: (K, K) -> bool)
    returns (sorted: bool)
    ensures |slice| <= 1 ==> sorted
    ensures sorted <==> AdjacentInOrder(slice, key, lt)
    ensures StrictTotalOrder(lt) ==> (sorted <==> SortedByKey(slice, key, lt))
  {
    sorted := true;
    if |slice| > 0 {
      var cmp := key(slice[0]);
      var i := 1;
      while i < |slice|
        invariant 1 <= i <= |slice|
        invariant cmp == key(slice[i - 1])
        invariant forall j :: 1 <= j < i ==> !lt(key(slice[j]), key(slice[j - 1]))
      {
        var item := key(slice[i]);
        if lt(item, cmp) {
          sorted := false;
          break;
        }
        cmp := item;
        i := i + 1;
      }
    }
    if StrictTotalOrder(lt) {
      AdjacentIffSorted(slice, key, lt);
    }
  }

  /** `is_slice_sorted`: the by-key check with the identity as key extractor. */
  method IsSliceSorted<T(!new)>(slice: seq<T>, lt: (T, T) -> bool) returns (sorted: bool)
    ensures sorted <==> forall i :: 1 <= i < |slice| ==> !lt(slice[i], slice[i - 1])
    ensures StrictTotalOrder(lt) ==>
              (sorted <==> forall i, j :: 0 <= i < j < |slice| ==> !lt(slice[j], slice[i]))
  {
    sorted := IsSliceSortedByKey(slice, x => x, lt);
  }

  /** For a total order, checking adjacent pairs decides sortedness of all pairs. */
  lemma AdjacentIffSorted<T, K(!new)>(s: seq<T>, key: T -> K, lt: (K, K) -> bool)
    requires StrictTotalOrder(lt)
    ensures AdjacentInOrder(s, key, lt) <==> SortedByKey(s, key, lt)
  {
    if AdjacentInOrder(s, key, lt) {
      forall i, j | 0 <= i < j < |s|
        ensures !lt(key(s[j]), key(s[i]))
      {
        AdjacentInOrderSpan(s, key, lt, i, j);
      }
    }
    if SortedByKey(s, key, lt) {
      forall i | 1 <= i < |s|
        ensures !lt(key(s[i]), key(s[i - 1]))
      {
        assert 0 <= i - 1 < i < |s|;
      }
    }
  }

  /** Induction on the distance `j - i`: "not greater" is transitive for a total order. */
  lemma {:induction false} AdjacentInOrderSpan<T, K(!new)>(
    s: seq<T>, key: T -> K, lt: (K, K) -> bool, i: int, j: int)
    requires StrictTotalOrder(lt)
    requires AdjacentInOrder(s, key, lt)
    requires 0 <= i < j < |s|
    ensures !lt(key(s[j]), key(s[i]))
    decreases j - i
  {
    if i + 1 < j {
      AdjacentInOrderSpan(s, key, lt, i, j - 1);
      NotLessTransitive(lt, key(s[i]), key(s[j - 1]), key(s[j]));
    }
  }

  /** `a <= b` and `b <= c` give `a <= c`, phrased with the strict order only. */
  lemma NotLessTransitive<K(!new)>(lt: (K, K) -> bool, a: K, b: K, c: K)
    requires StrictTotalOrder(lt)
    requires !lt(b, a) && !lt(c, b)
    ensures !lt(c, a)
  {
    assert b == c || lt(b, c) || lt(c, b);
  }

  // ---------------------------------------------------------------------------
  // Byte casts
  // ---------------------------------------------------------------------------

  /** A copy-on-write slice: either borrowed from the caller or owned. */
  datatype Cow<T> = Borrowed(items: seq<T>) | Owned(items: seq<T>)

  /** Every value of `T` occupies exactly `size` bytes, `size_of::<T>()`. */
  ghost predicate FixedSize<T(!new)>(size: nat, repr: T -> seq<Byte>) {
    forall x :: |repr(x)| == size
  }

  /** `cast_slice`: the bytes of the slice's elements, back to back. `repr`
      is the in-memory representation of one element. */
  function CastSlice<T(!new)>(slice: seq<T>, size: nat, repr: T -> seq<Byte>): (bytes: seq<Byte>)
    requires FixedSize(size, repr)
    ensures |bytes| == |slice| * size
    ensures |slice| > 0 ==> bytes[..size] == repr(slice[0])
  {
    if |slice| == 0 then []
    else
      var rest := CastSlice(slice[1..], size, repr);
      assert |slice| * size == size + |slice[1..]| * size;
      repr(slice[0]) + rest
  }

  /** The `i`-th element's bytes sit at offset `i * size` of the cast. */
  lemma {:induction false} CastSliceChunk<T(!new)>(slice: seq<T>, size: nat, repr: T -> seq<Byte>, i: nat)
    requires FixedSize(size, repr)
    requires i < |slice|
    ensures i * size + size <= |CastSlice(slice, size, repr)|
    ensures CastSlice(slice, size, repr)[i * size .. i * size + size] == repr(slice[i])
  {
    var bytes := CastSlice(slice, size, repr);
    MulMonotone(i + 1, |slice|, size);
    MulSucc(i, size);
    if i == 0 {
      assert i * size == 0;
    } else {
      var rest := CastSlice(slice[1..], size, repr);
      CastSliceChunk(slice[1..], size, repr, i - 1);
      assert slice[1..][i - 1] == slice[i];
      MulSucc(i - 1, size);
      MulMonotone(0, i - 1, size);
      ChunkShift(bytes, repr(slice[0]), rest, size, (i - 1) * size, i * size);
    }
  }

  /** A chunk at offset `lo` of `rest` sits at offset `|head| + lo` of `head + rest`. */
  lemma ChunkShift<T>(bytes: seq<T>, head: seq<T>, rest: seq<T>, size: nat, lo: nat, off: nat)
    requires bytes == head + rest && |head| == size && off == size + lo
    requires lo + size <= |rest|
    ensures off + size <= |bytes|
    ensures bytes[off .. off + size] == rest[lo .. lo + size]
  {
  }

  /** Casting a concatenation is concatenating the casts. */
  lemma {:induction false} CastSliceAppend<T(!new)>(a: seq<T>, b: seq<T>, size: nat, repr: T -> seq<Byte>)
    requires FixedSize(size, repr)
    ensures CastSlice(a + b, size, repr) == CastSlice(a, size, repr) + CastSlice(b, size, repr)
  {
    if |a| > 0 {
      assert (a + b)[1..] == a[1..] + b;
      CastSliceAppend(a[1..], b, size, repr);
    } else {
      assert a + b == b;
    }
  }

  /** `cast_vec`: the same bytes as `cast_slice`; it only reuses the vector's allocation. */
  function CastVec<T(!new)>(vec: seq<T>, size: nat, repr: T -> seq<Byte>): (bytes: seq<Byte>)
    requires FixedSize(size, repr)
    ensures |bytes| == |vec| * size
    ensures bytes == CastSlice(vec, size, repr)
  {
    if |vec| == 0 then [] else repr(vec[0]) + CastVec(vec[1..], size, repr)
  }

  /** `cast_cow`: a borrowed slice casts to a borrowed byte slice, an owned
      vector to an owned byte vector. */
  function CastCow<T(!new)>(cow: Cow<T>, size: nat, repr: T -> seq<Byte>): (r: Cow<Byte>)
    requires FixedSize(size, repr)
    ensures r.Borrowed? <==> cow.Borrowed?
    ensures |r.items| == |cow.items| * size
    ensures r.items == CastSlice(cow.items, size, repr)
  {
    match cow
    case Borrowed(slice) => Borrowed(CastSlice(slice, size, repr))
    case Owned(vec) => Owned(CastVec(vec, size, repr))
  }

  /** Both arms of `cast_cow` produce the same bytes for the same elements. */
  lemma CastCowArmsAgree<T(!new)>(items: seq<T>, size: nat, repr: T -> seq<Byte>)
    requires FixedSize(size, repr)
    ensures CastCow(Borrowed(items), size, repr).items == CastCow(Owned(items), size, repr).items
  {
  }
}
