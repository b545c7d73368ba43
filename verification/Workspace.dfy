/** The scratch-memory layout: measured once without memory, then laid out in it. */
module Workspaces {

  const ALIGNMENT := 256

  /** The offset after padding ptr + offset to a multiple of the alignment. */
  function Aligned(ptr: nat, offset: nat): (r: nat)
    ensures offset <= r < offset + ALIGNMENT && (ptr + r) % ALIGNMENT == 0
  {
    offset + (ALIGNMENT - 1 - (ptr + offset + ALIGNMENT - 1) % ALIGNMENT)
  }

  /** The offset after a sequence of requests, in bytes. */
  function OffsetAfter(ptr: nat, sizes: seq<nat>): nat {
    if sizes == [] then Aligned(ptr, 0)
    else Aligned(ptr, OffsetAfter(ptr, sizes[..|sizes| - 1])) + sizes[|sizes| - 1]
  }

  /** Where request i is placed. */
  function AddressOf(ptr: nat, sizes: seq<nat>, i: nat): nat
    requires i < |sizes|
  {
    ptr + Aligned(ptr, OffsetAfter(ptr, sizes[..i]))
  }

  lemma OffsetSnoc(ptr: nat, sizes: seq<nat>, i: nat)
    requires i < |sizes|
    ensures OffsetAfter(ptr, sizes[..i + 1]) == Aligned(ptr, OffsetAfter(ptr, sizes[..i])) + sizes[i]
  {
    assert sizes[..i + 1][..i] == sizes[..i];
  }

  /** An aligned base does not change the padding. */
  lemma SamePadding(ptr: nat, pad: nat, offset: nat)
    requires (ptr + pad) % ALIGNMENT == 0
    ensures Aligned(ptr, pad + offset) == pad + Aligned(0, offset)
  {
    var k := (ptr + pad) / ALIGNMENT;
    assert ptr + pad == k * ALIGNMENT;
    assert (offset + ALIGNMENT - 1 + k * ALIGNMENT) % ALIGNMENT == (offset + ALIGNMENT - 1) % ALIGNMENT;
  }

  /** The measuring run predicts every offset, up to the padding of the base. */
  lemma {:induction false} MeasureFits(ptr: nat, sizes: seq<nat>)
    ensures OffsetAfter(ptr, sizes) == Aligned(ptr, 0) + OffsetAfter(0, sizes)
  {
    if sizes == [] {
      assert Aligned(0, 0) == 0;
    } else {
      var n := |sizes| - 1;
      MeasureFits(ptr, sizes[..n]);
      SamePadding(ptr, Aligned(ptr, 0), OffsetAfter(0, sizes[..n]));
    }
  }

  function RequiredSize(sizes: seq<nat>): nat {
    OffsetAfter(0, sizes) + ALIGNMENT - 1
  }

  lemma {:induction false} OffsetsGrow(ptr: nat, sizes: seq<nat>, i: nat, j: nat)
    requires i <= j <= |sizes|
    ensures OffsetAfter(ptr, sizes[..i]) <= OffsetAfter(ptr, sizes[..j])
    decreases j
  {
    hide Aligned, OffsetAfter;
    if i < j {
      OffsetsGrow(ptr, sizes, i, j - 1);
      OffsetSnoc(ptr, sizes, j - 1);
    }
  }

  /** With memory of the measured size at any address, every block is aligned, blocks do
      not overlap, and all are inside the memory. */
  lemma LayoutFits(ptr: nat, sizes: seq<nat>, i: nat, j: nat)
    requires i < |sizes| && j < |sizes|
    ensures AddressOf(ptr, sizes, i) % ALIGNMENT == 0
    ensures i < j ==> AddressOf(ptr, sizes, i) + sizes[i] <= AddressOf(ptr, sizes, j)
    ensures ptr <= AddressOf(ptr, sizes, i) && AddressOf(ptr, sizes, i) + sizes[i] <= ptr + RequiredSize(sizes)
  {
    hide Aligned, OffsetAfter;
    OffsetSnoc(ptr, sizes, i);
    if i < j { OffsetsGrow(ptr, sizes, i + 1, j); }
    OffsetsGrow(ptr, sizes, i + 1, |sizes|);
    assert sizes[..|sizes|] == sizes;
    MeasureFits(ptr, sizes);
  }

  /** No smaller size would do for every base. */
  lemma SizeIsTight(sizes: seq<nat>)
    requires sizes != []
    ensures AddressOf(1, sizes, |sizes| - 1) + sizes[|sizes| - 1] == 1 + RequiredSize(sizes)
  {
    hide OffsetAfter;
    var n := |sizes| - 1;
    assert sizes[..n + 1] == sizes;
    OffsetSnoc(1, sizes, n);
    MeasureFits(1, sizes);
    assert Aligned(1, 0) == ALIGNMENT - 1;
  }

  class Workspace {
    const workspacePtr: nat
    var offset: nat
    ghost var sizes: seq<nat>   // what was requested so far

    ghost predicate Valid()
      reads this
    {
      offset == OffsetAfter(workspacePtr, sizes)
    }

    constructor (ptr: nat)
      ensures Valid() && workspacePtr == ptr && sizes == []
    {
      workspacePtr, offset, sizes := ptr, 0, [];
      new;
      Align();
    }

    method Align()
      modifies `offset
      ensures offset == Aligned(workspacePtr, old(offset))
    {
      offset := offset + (ALIGNMENT - 1 - (workspacePtr + offset + ALIGNMENT - 1) % ALIGNMENT);
    }

    method Request(bytes: nat) returns (address: nat)
      requires Valid()
      modifies this
      ensures Valid() && sizes == old(sizes) + [bytes]
      ensures address == AddressOf(workspacePtr, sizes, |sizes| - 1)
    {
      Align();
      address := workspacePtr + offset;
      offset := offset + bytes;
      ghost var before := sizes;
      sizes := sizes + [bytes];
      assert sizes[..|before|] == before;
    }

    method GetRequiredSize() returns (size: nat)
      requires Valid()
      ensures workspacePtr == 0 ==> size == RequiredSize(sizes)
    {
      size := offset + ALIGNMENT - 1;
    }
  }
}
