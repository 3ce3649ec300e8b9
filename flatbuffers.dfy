/**
 * An abstract FlatBuffers builder. The real builder writes into a byte
 * buffer that grows downwards; here the buffer is the list of finished
 * objects (strings and vectors, addressed by their offset, which is their
 * position in the list) plus the vector under construction. A vector is
 * built by prepending: each element goes in front of the ones already
 * there, so the element prepended last is the one read back at index 0.
 * Tables are not kept in the builder: the envelope module models them as
 * records that hold the offsets of their vectors.
 */
module FlatBuffers {

  const INT32_MIN: int := -0x8000_0000
  const INT32_MAX: int := 0x7fff_ffff

  predicate FitsInt32(x: int)
  {
    INT32_MIN <= x <= INT32_MAX
  }

  /** A vector element: an offset to an earlier object, a signed 32-bit integer or a 64-bit float. */
  datatype Elem<V> = UOffset(target: nat) | Int32(i: int) | Float64(f: V)

  /** A finished object. Vector elements are listed in buffer order, which is the order they are read back by index. */
  datatype Obj<V> = Str(s: string) | Vec(elems: seq<Elem<V>>)

  /** The vector obtained by prepending `items` one after another, `items[0]` first. */
  function Prepended<T>(vector: seq<T>, items: seq<T>): seq<T>
    decreases items
  {
    if items == [] then vector else Prepended([items[0]] + vector, items[1..])
  }

  function Reverse<T>(s: seq<T>): (r: seq<T>)
    ensures |r| == |s|
  {
    if s == [] then [] else Reverse(s[1..]) + [s[0]]
  }

  lemma {:induction false} PrependedOnto<T>(vector: seq<T>, items: seq<T>)
    ensures Prepended(vector, items) == Reverse(items) + vector
    decreases items
  {
    if items != [] {
      PrependedOnto([items[0]] + vector, items[1..]);
      assert Reverse(items) == Reverse(items[1..]) + [items[0]];
    }
  }

  lemma {:induction false} ReverseReverse<T>(s: seq<T>)
    ensures Reverse(Reverse(s)) == s
  {
    if s != [] {
      ReverseAppend(Reverse(s[1..]), [s[0]]);
      ReverseReverse(s[1..]);
      assert Reverse([s[0]]) == [s[0]];
    }
  }

  lemma {:induction false} ReverseAppend<T>(a: seq<T>, b: seq<T>)
    ensures Reverse(a + b) == Reverse(b) + Reverse(a)
  {
    if a == [] {
      assert a + b == b;
    } else {
      assert (a + b)[1..] == a[1..] + b;
      ReverseAppend(a[1..], b);
    }
  }

  /**
   * The ordering rule of the builder: prepending the elements for indices
   * `len - 1` down to `0` yields a vector whose index-order read-back is the
   * logical order; prepending them in index order would read back reversed.
   */
  lemma PrependInReverseIndexOrder<T>(xs: seq<T>)
    ensures Prepended([], Reverse(xs)) == xs
    ensures Prepended([], xs) == Reverse(xs)
  {
    PrependedOnto([], Reverse(xs));
    PrependedOnto([], xs);
    ReverseReverse(xs);
  }

  class Builder<V> {
    /** The finished objects; an object's offset is its index. */
    var objects: seq<Obj<V>>
    /** The vector under construction, in buffer order. */
    var vector: seq<Elem<V>>
    /** Whether a vector is under construction. */
    var nested: bool

    /** `flatbuffers.Builder(initialSize)`: the initial capacity only tunes allocation. */
    constructor (initialSize: nat)
      ensures objects == [] && vector == [] && !nested
    {
      objects := [];
      vector := [];
      nested := false;
    }

    /** `CreateString`: writes a string and returns its offset. */
    method CreateString(s: string) returns (off: nat)
      requires !nested
      modifies this
      ensures off == |old(objects)| && objects == old(objects) + [Str(s)]
      ensures vector == old(vector) && nested == old(nested)
    {
      off := |objects|;
      objects := objects + [Str(s)];
    }

    /** `StartVector`: begins a vector of `numElems` elements. */
    method StartVector(numElems: nat)
      requires !nested
      modifies this
      ensures nested && vector == [] && objects == old(objects)
    {
      nested := true;
      vector := [];
    }

    /** `PrependUOffsetTRelative`: puts an offset to an already written object in front of the vector. */
    method PrependUOffsetTRelative(off: nat)
      requires nested && off < |objects|
      modifies this
      ensures vector == [UOffset(off)] + old(vector)
      ensures objects == old(objects) && nested
    {
      vector := [UOffset(off)] + vector;
    }

    /** `PrependInt32`: the library refuses a number outside the signed 32-bit range. */
    method PrependInt32(x: int) returns (ok: bool)
      requires nested
      modifies this
      ensures ok == FitsInt32(x)
      ensures vector == if ok then [Int32(x)] + old(vector) else old(vector)
      ensures objects == old(objects) && nested
    {
      ok := FitsInt32(x);
      if ok {
        vector := [Int32(x)] + vector;
      }
    }

    /** `PrependFloat64`: puts a float in front of the vector. */
    method PrependFloat64(x: V)
      requires nested
      modifies this
      ensures vector == [Float64(x)] + old(vector)
      ensures objects == old(objects) && nested
    {
      vector := [Float64(x)] + vector;
    }

    /** `EndVector`: finishes the vector, whose length the caller states, and returns its offset. */
    method EndVector(numElems: nat) returns (off: nat)
      requires nested && numElems == |vector|
      modifies this
      ensures off == |old(objects)| && objects == old(objects) + [Vec(old(vector))]
      ensures vector == [] && !nested
    {
      off := |objects|;
      objects := objects + [Vec(vector)];
      vector := [];
      nested := false;
    }
  }
}
