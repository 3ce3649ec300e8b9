/**
 * The n-dimensional arrays that the codecs convert, as numpy presents them:
 * a shape and the elements in row-major order, nested lists as JSON and
 * protobuf carry them, and the three numpy operations the codecs rely on:
 * `np.array(nested)`, `array.tolist()` and `array.reshape(shape)`.
 */
module Arrays {
  import opened Wrappers

  /** Number of elements of an array of the given shape. */
  function Product(shape: seq<nat>): nat
  {
    if shape == [] then 1 else shape[0] * Product(shape[1..])
  }

  /** An array: its shape and its elements in row-major order (last axis fastest). */
  datatype NdArray<V> = NdArray(shape: seq<nat>, values: seq<V>)
  {
    /** Every numpy array is rectangular: as many elements as the shape says. */
    predicate Valid()
    {
      |values| == Product(shape)
    }
  }

  /** `np.array([])`: a rank-1 array with no elements. */
  function EmptyArray<V>(): (a: NdArray<V>)
    ensures a.Valid() && a.shape == [0] && a.values == []
  {
    NdArray([0], [])
  }

  /** A nested list: a scalar, or a list of nested lists (JSON arrays, protobuf ListValue). */
  datatype Nested<V> = Leaf(value: V) | Node(children: seq<Nested<V>>)

  /** `t` is a dense nested list of the given shape: one list level per axis, `shape[k]` entries at level k. */
  predicate HasShape<V>(t: Nested<V>, shape: seq<nat>)
    decreases t
  {
    if shape == [] then t.Leaf?
    else
      && t.Node?
      && |t.children| == shape[0]
      && forall i :: 0 <= i < |t.children| ==> HasShape(t.children[i], shape[1..])
  }

  /** The shape numpy infers from a nested list: the lengths along the first entry at each level. */
  function InferShape<V>(t: Nested<V>): seq<nat>
  {
    match t
    case Leaf(_) => []
    case Node(cs) => if |cs| == 0 then [0] else [|cs|] + InferShape(cs[0])
  }

  /** A nested list that numpy turns into a numeric array (not a ragged one). */
  predicate Rectangular<V>(t: Nested<V>)
  {
    HasShape(t, InferShape(t))
  }

  /** The scalars of a nested list, left to right. */
  function Flatten<V>(t: Nested<V>): seq<V>
    decreases t
  {
    match t
    case Leaf(v) => [v]
    case Node(cs) => FlattenAll(cs)
  }

  function FlattenAll<V>(cs: seq<Nested<V>>): seq<V>
    decreases cs
  {
    if cs == [] then [] else Flatten(cs[0]) + FlattenAll(cs[1..])
  }

  /** No axis but the last has length zero: the shape survives a trip through nested lists. */
  predicate NoInteriorZero(shape: seq<nat>)
  {
    forall k :: 0 <= k < |shape| - 1 ==> shape[k] > 0
  }

  /** Nesting depth: a scalar has depth 0, a list one more than its deepest entry. */
  function Depth<V>(t: Nested<V>): nat
    decreases t
  {
    match t
    case Leaf(_) => 0
    case Node(cs) => 1 + MaxDepth(cs)
  }

  function MaxDepth<V>(cs: seq<Nested<V>>): nat
    decreases cs
  {
    if cs == [] then 0
    else
      var d, rest := Depth(cs[0]), MaxDepth(cs[1..]);
      if d < rest then rest else d
  }

  lemma ProductCons(d: nat, rest: seq<nat>)
    ensures Product([d] + rest) == d * Product(rest)
  {
    assert ([d] + rest)[1..] == rest;
  }

  lemma {:induction false} RowsFit(rows: nat, m: nat)
    requires rows > 0
    ensures m <= rows * m && rows * m - m == (rows - 1) * m
  {
  }

  // ---------------------------------------------------------------------------
  // array.tolist(): re-nesting row-major values
  // ---------------------------------------------------------------------------

  /** `array.tolist()`: a rank-0 array gives its scalar, rank k one list level per axis. */
  function ToNested<V>(shape: seq<nat>, values: seq<V>): Nested<V>
    requires |values| == Product(shape)
    decreases |shape|, 1, 0
  {
    if shape == [] then Leaf(values[0])
    else Node(ToNestedRows(shape[1..], values, shape[0]))
  }

  /** The `rows` sub-arrays of shape `rowShape` that `values` holds, in order, each re-nested. */
  function ToNestedRows<V>(rowShape: seq<nat>, values: seq<V>, rows: nat): seq<Nested<V>>
    requires |values| == rows * Product(rowShape)
    decreases |rowShape| + 1, 0, rows
  {
    if rows == 0 then []
    else
      var m := Product(rowShape);
      RowsFit(rows, m);
      [ToNested(rowShape, values[..m])] + ToNestedRows(rowShape, values[m..], rows - 1)
  }

  lemma {:induction false} ToNestedHasShape<V>(shape: seq<nat>, values: seq<V>)
    requires |values| == Product(shape)
    ensures HasShape(ToNested(shape, values), shape)
    decreases |shape|, 1, 0
  {
    if shape != [] {
      ToNestedRowsHaveShape(shape[1..], values, shape[0]);
    }
  }

  lemma {:induction false} ToNestedRowsHaveShape<V>(rowShape: seq<nat>, values: seq<V>, rows: nat)
    requires |values| == rows * Product(rowShape)
    ensures |ToNestedRows(rowShape, values, rows)| == rows
    ensures forall i :: 0 <= i < rows ==> HasShape(ToNestedRows(rowShape, values, rows)[i], rowShape)
    decreases |rowShape| + 1, 0, rows
  {
    if rows > 0 {
      var m := Product(rowShape);
      RowsFit(rows, m);
      ToNestedHasShape(rowShape, values[..m]);
      ToNestedRowsHaveShape(rowShape, values[m..], rows - 1);
    }
  }

  /** Flattening what `tolist` produced gives back the row-major values. */
  lemma {:induction false} FlattenToNested<V>(shape: seq<nat>, values: seq<V>)
    requires |values| == Product(shape)
    ensures Flatten(ToNested(shape, values)) == values
    decreases |shape|, 1, 0
  {
    if shape != [] {
      FlattenToNestedRows(shape[1..], values, shape[0]);
    }
  }

  lemma {:induction false} FlattenToNestedRows<V>(rowShape: seq<nat>, values: seq<V>, rows: nat)
    requires |values| == rows * Product(rowShape)
    ensures FlattenAll(ToNestedRows(rowShape, values, rows)) == values
    decreases |rowShape| + 1, 0, rows
  {
    if rows > 0 {
      var m := Product(rowShape);
      RowsFit(rows, m);
      FlattenToNested(rowShape, values[..m]);
      FlattenToNestedRows(rowShape, values[m..], rows - 1);
      var cs := ToNestedRows(rowShape, values, rows);
      assert cs[1..] == ToNestedRows(rowShape, values[m..], rows - 1);
      assert values == values[..m] + values[m..];
    }
  }

  /** A dense nested list has as many scalars as its shape says. */
  lemma {:induction false} FlattenLength<V>(t: Nested<V>, shape: seq<nat>)
    requires HasShape(t, shape)
    ensures |Flatten(t)| == Product(shape)
    decreases t
  {
    if shape != [] {
      FlattenAllLength(t.children, shape[1..]);
    }
  }

  lemma {:induction false} FlattenAllLength<V>(cs: seq<Nested<V>>, rowShape: seq<nat>)
    requires forall i :: 0 <= i < |cs| ==> HasShape(cs[i], rowShape)
    ensures |FlattenAll(cs)| == |cs| * Product(rowShape)
    decreases cs
  {
    if cs != [] {
      FlattenLength(cs[0], rowShape);
      FlattenAllLength(cs[1..], rowShape);
      MulSucc(|cs[1..]|, Product(rowShape));
      assert FlattenAll(cs) == Flatten(cs[0]) + FlattenAll(cs[1..]);
    }
  }

  /** `(n + 1) * m == m + n * m`, stated for the solver once. */
  lemma MulSucc(n: nat, m: nat)
    ensures (n + 1) * m == m + n * m
  {
  }

  /** Re-nesting the flattening of a dense nested list reproduces it exactly. */
  lemma {:induction false} ToNestedFlatten<V>(t: Nested<V>, shape: seq<nat>)
    requires HasShape(t, shape)
    ensures |Flatten(t)| == Product(shape)
    ensures ToNested(shape, Flatten(t)) == t
    decreases t
  {
    FlattenLength(t, shape);
    if shape != [] {
      FlattenAllLength(t.children, shape[1..]);
      ToNestedRowsFlattenAll(t.children, shape[1..]);
    }
  }

  lemma {:induction false} ToNestedRowsFlattenAll<V>(cs: seq<Nested<V>>, rowShape: seq<nat>)
    requires forall i :: 0 <= i < |cs| ==> HasShape(cs[i], rowShape)
    ensures |FlattenAll(cs)| == |cs| * Product(rowShape)
    ensures ToNestedRows(rowShape, FlattenAll(cs), |cs|) == cs
    decreases cs
  {
    FlattenAllLength(cs, rowShape);
    if cs != [] {
      var m := Product(rowShape);
      var vs := FlattenAll(cs);
      FlattenLength(cs[0], rowShape);
      ToNestedFlatten(cs[0], rowShape);
      ToNestedRowsFlattenAll(cs[1..], rowShape);
      assert vs[..m] == Flatten(cs[0]);
      assert vs[m..] == FlattenAll(cs[1..]);
      assert cs == [cs[0]] + cs[1..];
    }
  }

  /** When no axis but the last is empty, numpy infers back the shape that `tolist` nested. */
  lemma {:induction false} InferShapeToNested<V>(shape: seq<nat>, values: seq<V>)
    requires |values| == Product(shape)
    requires NoInteriorZero(shape)
    ensures InferShape(ToNested(shape, values)) == shape
    decreases |shape|
  {
    if shape != [] {
      ToNestedRowsHaveShape(shape[1..], values, shape[0]);
      if shape[0] == 0 {
        assert |shape| == 1;
      } else {
        var m := Product(shape[1..]);
        RowsFit(shape[0], m);
        assert NoInteriorZero(shape[1..]);
        InferShapeToNested(shape[1..], values[..m]);
        assert shape == [shape[0]] + shape[1..];
      }
    }
  }

  /** A dense nested list whose shape has no empty interior axis is exactly `rank` levels deep. */
  lemma {:induction false} DepthIsRank<V>(t: Nested<V>, shape: seq<nat>)
    requires HasShape(t, shape)
    requires NoInteriorZero(shape)
    ensures Depth(t) == |shape|
    decreases t
  {
    if shape != [] {
      if shape[0] == 0 {
        assert t.children == [];
      } else {
        assert NoInteriorZero(shape[1..]);
        MaxDepthOfRows(t.children, shape[1..]);
      }
    }
  }

  lemma {:induction false} MaxDepthOfRows<V>(cs: seq<Nested<V>>, rowShape: seq<nat>)
    requires |cs| > 0
    requires forall i :: 0 <= i < |cs| ==> HasShape(cs[i], rowShape)
    requires NoInteriorZero(rowShape)
    ensures MaxDepth(cs) == |rowShape|
    decreases cs
  {
    DepthIsRank(cs[0], rowShape);
    if |cs| > 1 {
      MaxDepthOfRows(cs[1..], rowShape);
    }
  }

  // ---------------------------------------------------------------------------
  // np.array(nested)
  // ---------------------------------------------------------------------------

  /** Why numpy refuses to build or reshape an array. */
  datatype ArrayError =
    | ReshapeFailed(reason: ReshapeError)  // `reshape` with a shape that does not fit
    | RaggedNested                         // `np.array` of a jagged nested list
    | ZeroDimIteration                     // iterating over a 0-d array

  /** `np.array(t)`: a dense nested list becomes the array of its inferred shape. */
  function FromNested<V>(t: Nested<V>): (r: Result<NdArray<V>, ArrayError>)
    ensures r.Success? <==> Rectangular(t)
    ensures r.Success? ==> r.value.Valid() && r.value.shape == InferShape(t) && r.value.values == Flatten(t)
    ensures r.Failure? ==> r.error == RaggedNested
  {
    if Rectangular(t) then
      FlattenLength(t, InferShape(t));
      Success(NdArray(InferShape(t), Flatten(t)))
    else Failure(RaggedNested)
  }

  /** `np.array(a.tolist())` gives `a` back when no axis but the last is empty. */
  lemma FromNestedToNested<V>(a: NdArray<V>)
    requires a.Valid() && NoInteriorZero(a.shape)
    ensures FromNested(ToNested(a.shape, a.values)) == Success(a)
  {
    ToNestedHasShape(a.shape, a.values);
    InferShapeToNested(a.shape, a.values);
    FlattenToNested(a.shape, a.values);
  }

  /** An empty leading axis followed by more axes does not survive: shape `(0, 3)` comes back as `(0,)`. */
  lemma EmptyRowsLoseTheirShape<V>(a: NdArray<V>)
    requires a.shape == [0, 3] && a.values == []
    ensures a.Valid()
    ensures ToNested(a.shape, a.values) == Node([])
    ensures FromNested(ToNested(a.shape, a.values)) == Success(NdArray([0], []))
    ensures FromNested(ToNested(a.shape, a.values)) != Success(a)
  {
    assert Product([3]) == 3 by { assert [3][1..] == []; }
    assert Product([0, 3]) == 0;
    var t := ToNested(a.shape, a.values);
    assert t == Node([]);
    assert InferShape(t) == [0];
  }

  // ---------------------------------------------------------------------------
  // array.reshape(shape)
  // ---------------------------------------------------------------------------

  datatype ReshapeError =
    | OneUnknownOnly  // "can only specify one unknown dimension"
    | SizeMismatch    // "cannot reshape array of size n into shape ..."

  /** Number of negative ("unknown") entries of a requested shape. */
  function Unknowns(shape: seq<int>): nat
  {
    if shape == [] then 0 else (if shape[0] < 0 then 1 else 0) + Unknowns(shape[1..])
  }

  /** Product of the known (non-negative) entries of a requested shape. */
  function KnownProduct(shape: seq<int>): nat
  {
    if shape == [] then 1 else (if shape[0] < 0 then 1 else shape[0]) * KnownProduct(shape[1..])
  }

  /** Index of the first unknown entry. */
  function FirstUnknown(shape: seq<int>): (k: nat)
    requires Unknowns(shape) > 0
    ensures k < |shape| && shape[k] < 0
    ensures forall j :: 0 <= j < k ==> shape[j] >= 0
  {
    if shape[0] < 0 then 0 else 1 + FirstUnknown(shape[1..])
  }

  /** The requested shape as dimensions, negative entries read as 0. */
  function AsDims(shape: seq<int>): (dims: seq<nat>)
    ensures |dims| == |shape|
    ensures forall i :: 0 <= i < |shape| && shape[i] >= 0 ==> dims[i] == shape[i]
  {
    seq(|shape|, i requires 0 <= i < |shape| => if shape[i] >= 0 then shape[i] as nat else 0)
  }

  lemma {:induction false} KnownProductIsProduct(shape: seq<int>)
    requires Unknowns(shape) == 0
    ensures KnownProduct(shape) == Product(AsDims(shape))
  {
    if shape != [] {
      KnownProductIsProduct(shape[1..]);
      assert AsDims(shape)[1..] == AsDims(shape[1..]);
    }
  }

  lemma {:induction false} ProductWithInferred(shape: seq<int>, k: nat, q: nat)
    requires Unknowns(shape) == 1 && k < |shape| && shape[k] < 0
    ensures Product(AsDims(shape[k := q])) == q * KnownProduct(shape)
  {
    var dims := AsDims(shape[k := q]);
    if k == 0 {
      assert Unknowns(shape[1..]) == 0;
      KnownProductIsProduct(shape[1..]);
      assert dims[1..] == AsDims(shape[1..]);
    } else {
      if shape[0] < 0 {
        NoUnknownsMeansKnown(shape[1..]);
        assert false;
      }
      var d: nat := shape[0];
      ProductWithInferred(shape[1..], k - 1, q);
      assert shape[k := q][1..] == shape[1..][k - 1 := q];
      assert dims[1..] == AsDims(shape[1..][k - 1 := q]);
      var rest := KnownProduct(shape[1..]);
      assert Product(dims) == d * (q * rest);
      assert KnownProduct(shape) == d * rest;
      Rotate(d, q, rest);
    }
  }

  lemma Rotate(a: nat, b: nat, c: nat)
    ensures a * (b * c) == b * (a * c)
  {
  }

  /**
   * `np.array(values).reshape(shape)`: every negative entry is an unknown dimension,
   * at most one is allowed and it is inferred from the element count; otherwise the
   * product of the shape must equal the number of elements.
   */
  function Reshape<V>(values: seq<V>, shape: seq<int>): (r: Result<NdArray<V>, ReshapeError>)
    ensures r.Success? ==> r.value.Valid() && r.value.values == values && |r.value.shape| == |shape|
    ensures r.Success? ==> forall i :: 0 <= i < |shape| && shape[i] >= 0 ==> r.value.shape[i] == shape[i]
    ensures Unknowns(shape) > 1 ==> r == Failure(OneUnknownOnly)
    ensures Unknowns(shape) == 0 ==> (r.Success? <==> Product(AsDims(shape)) == |values|)
    ensures Unknowns(shape) == 1 ==> (r.Success? <==> KnownProduct(shape) != 0 && |values| % KnownProduct(shape) == 0)
    ensures Unknowns(shape) == 1 && r.Success? ==> r.value.shape[FirstUnknown(shape)] == |values| / KnownProduct(shape)
    ensures r.Failure? ==> r.error == (if Unknowns(shape) > 1 then OneUnknownOnly else SizeMismatch)
  {
    var unknowns := Unknowns(shape);
    if unknowns > 1 then Failure(OneUnknownOnly)
    else if unknowns == 1 then
      var known := KnownProduct(shape);
      if known == 0 || |values| % known != 0 then Failure(SizeMismatch)
      else
        var k := FirstUnknown(shape);
        var q := |values| / known;
        ProductWithInferred(shape, k, q);
        Success(NdArray(AsDims(shape[k := q]), values))
    else
      KnownProductIsProduct(shape);
      if KnownProduct(shape) == |values| then Success(NdArray(AsDims(shape), values))
      else Failure(SizeMismatch)
  }

  /** Reshaping a valid array's own values by its own shape gives it back. */
  lemma ReshapeOwnShape<V>(a: NdArray<V>)
    requires a.Valid()
    ensures Reshape(a.values, a.shape) == Success(a)
  {
    NoUnknownsInDims(a.shape);
    assert AsDims(a.shape) == a.shape;
  }

  lemma {:induction false} NoUnknownsMeansKnown(shape: seq<int>)
    requires Unknowns(shape) == 0
    ensures forall i :: 0 <= i < |shape| ==> shape[i] >= 0
  {
    if shape != [] {
      NoUnknownsMeansKnown(shape[1..]);
      assert forall i :: 1 <= i < |shape| ==> shape[i] == shape[1..][i - 1];
    }
  }

  lemma {:induction false} NoUnknownsInDims(dims: seq<nat>)
    ensures Unknowns(dims) == 0
  {
    if dims != [] {
      NoUnknownsInDims(dims[1..]);
    }
  }
}
