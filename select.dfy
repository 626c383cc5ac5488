// The `select` operation of the lab: build a 0/1 mask from the predicate,
// take its inclusive prefix sum, size the output from the last sum and
// scatter each selected element to position `index[i] - 1`.

module Select {
  import opened CompactionSpec

  /** The mask transform: `v_sel[i] = pred(v[i]) ? 1 : 0`. */
  method BuildMask(v: array<int>, pred: int -> bool) returns (mask: array<int>)
    ensures fresh(mask)
    ensures mask.Length == v.Length
    ensures forall i :: 0 <= i < v.Length ==> (mask[i] == 1 <==> pred(v[i]))
    ensures forall i :: 0 <= i < v.Length ==> (mask[i] == 0 <==> !pred(v[i]))
    ensures mask[..] == MaskOf(v[..], pred)
  {
    mask := new int[v.Length];
    for i := 0 to v.Length
      invariant forall k :: 0 <= k < i ==> mask[k] == if pred(v[k]) then 1 else 0
    {
      mask[i] := if pred(v[i]) then 1 else 0;
    }
  }

  /** The scan exactly as called, without an initial value: the running sum
      lives in a `char` taken from the mask, and each `size_t` sum is stored
      back into it. */
  method InclusiveScanAsWritten(mask: array<int>) returns (index: array<int>)
    ensures fresh(index)
    ensures index[..] == CharScan(mask[..])
  {
    index := new int[mask.Length];
    if mask.Length > 0 {
      var acc := mask[0];
      index[0] := ToSizeT(acc);
      for i := 1 to mask.Length
        invariant acc == CharAccumulate(mask[..], i)
        invariant forall k :: 0 <= k < i ==> index[k] == ToSizeT(CharAccumulate(mask[..], k + 1))
      {
        acc := ToSignedChar(ToSizeT(ToSizeT(acc) + ToSizeT(mask[i])));
        index[i] := ToSizeT(acc);
      }
    }
  }

  /** The inclusive scan of the mask under `+`, with a `size_t` running sum:
      the scan the code evidently intends, and the one `Select` uses. */
  method InclusiveScan(mask: array<int>) returns (index: array<int>)
    ensures fresh(index)
    ensures index.Length == mask.Length
    ensures forall i :: 0 <= i < mask.Length ==> index[i] == PrefixCount(mask[..], i + 1)
    ensures index[..] == Scan(mask[..])
  {
    index := new int[mask.Length];
    var sum := 0;
    for i := 0 to mask.Length
      invariant sum == PrefixCount(mask[..], i)
      invariant forall k :: 0 <= k < i ==> index[k] == PrefixCount(mask[..], k + 1)
    {
      sum := sum + mask[i];
      index[i] := sum;
    }
  }

  /** The positions 0, 1, ..., n - 1, in the order the index loop visits them. */
  function Iota(n: nat): seq<int>
  {
    seq(n, j => j)
  }

  /** Order-preserving compaction of `v` by `pred` into a new array. */
  method Select(v: array<int>, pred: int -> bool) returns (w: array<int>)
    ensures fresh(w)
    ensures w[..] == Filter(v[..], pred)
    ensures forall k :: 0 <= k < w.Length ==> pred(w[k])
  {
    var mask := BuildMask(v, pred);
    var index := InclusiveScan(mask);

    var numElem := if index.Length == 0 then 0 else index[index.Length - 1];
    OutputLengthIsCount(v[..], pred);
    assert numElem == OutputLength(index[..]);
    w := new int[numElem](_ => 0);

    ghost var s, zeros := v[..], w[..];
    ghost var scanned := index[..];
    assert scanned == Scan(MaskOf(s, pred));
    var i := 0;
    while i < v.Length
      modifies w
      invariant 0 <= i <= v.Length
      invariant index[..] == scanned && v[..] == s
      invariant w[..] == ScatterInOrder(s, pred, scanned, Iota(i), zeros)
    {
      ghost var before := w[..];
      assert Iota(i + 1)[..i] == Iota(i) && Iota(i + 1)[i] == i;
      if pred(v[i]) {
        ScatterTarget(s, pred, i);
        w[index[i] - 1] := v[i];
        assert w[..] == before[scanned[i] - 1 := s[i]];
      }
      i := i + 1;
    }

    forall j | 0 <= j < |s| && pred(s[j])
      ensures j in Iota(|s|)
    {
      assert Iota(|s|)[j] == j;
    }
    ScatterAnyOrder(s, pred, index[..], Iota(|s|), zeros);
    FilterSatisfies(s, pred);
  }
}
