/**
 * The binary envelope of the FlatBuffers transport
 * (seldon_microservice/tester_flatbuffers.py): an encoder that builds a
 * size-prefixed `SeldonRPC` around an array and its names, and a decoder
 * that reads the array and names back out of a `SeldonMessage`.
 * Tables are records; their vector fields hold the offsets the builder
 * returned, and the generated readers are functions over the builder's
 * finished objects.
 */
module TesterFlatbuffers {
  import opened Wrappers
  import opened Arrays
  import opened FlatBuffers

  datatype StatusValue = SUCCESS | FAILURE
  datatype SeldonProtocolVersion = V1 | OtherProtocol(code: int)
  datatype DataKind = DefaultData | OtherData(code: int)
  datatype SeldonMethod = PREDICT | OtherMethod(code: int)
  datatype SeldonPayload = SeldonMessagePayload | OtherPayload(code: int)

  /** `Tensor`: offsets of the shape vector (Int32) and the values vector (Float64). */
  datatype TensorTable = TensorTable(shape: nat, values: nat)
  /** `DefaultData`: the tensor and, when present, the offset of the names vector (offsets to strings). */
  datatype DefaultDataTable = DefaultDataTable(tensor: TensorTable, names: Option<nat>)
  datatype StatusTable = StatusTable(code: int, status: StatusValue)
  datatype SeldonMessageTable = SeldonMessageTable(
    protocol: SeldonProtocolVersion,
    status: StatusTable,
    dataType: DataKind,
    data: DefaultDataTable)
  datatype SeldonRpcTable = SeldonRpcTable(rpcMethod: SeldonMethod, messageType: SeldonPayload, message: SeldonMessageTable)

  /** A finished buffer: its objects, its root table and whether it carries the size prefix. */
  datatype Buffer<V> = Buffer(objects: seq<Obj<V>>, root: SeldonRpcTable, sizePrefixed: bool)

  // ---------------------------------------------------------------------------
  // Readers
  // ---------------------------------------------------------------------------

  predicate IsStringVector<V>(objects: seq<Obj<V>>, off: nat)
  {
    && off < |objects| && objects[off].Vec?
    && forall i :: 0 <= i < |objects[off].elems| ==>
         var e := objects[off].elems[i]; e.UOffset? && e.target < |objects| && objects[e.target].Str?
  }

  predicate IsInt32Vector<V>(objects: seq<Obj<V>>, off: nat)
  {
    off < |objects| && objects[off].Vec? && forall i :: 0 <= i < |objects[off].elems| ==> objects[off].elems[i].Int32?
  }

  predicate IsFloat64Vector<V>(objects: seq<Obj<V>>, off: nat)
  {
    off < |objects| && objects[off].Vec? && forall i :: 0 <= i < |objects[off].elems| ==> objects[off].elems[i].Float64?
  }

  /** The fields of a `DefaultData` table refer to vectors of the kinds its schema declares. */
  predicate Readable<V>(objects: seq<Obj<V>>, dd: DefaultDataTable)
  {
    && (dd.names.Some? ==> IsStringVector(objects, dd.names.value))
    && IsInt32Vector(objects, dd.tensor.shape)
    && IsFloat64Vector(objects, dd.tensor.values)
  }

  /** `NamesLength()`: 0 when the field is absent. */
  function NamesLength<V>(objects: seq<Obj<V>>, dd: DefaultDataTable): nat
    requires Readable(objects, dd)
  {
    if dd.names.None? then 0 else |objects[dd.names.value].elems|
  }

  /** `Names(i)`: the string the i-th offset of the names vector refers to. */
  function Names<V>(objects: seq<Obj<V>>, dd: DefaultDataTable, i: nat): string
    requires Readable(objects, dd) && i < NamesLength(objects, dd)
  {
    objects[objects[dd.names.value].elems[i].target].s
  }

  function ShapeLength<V>(objects: seq<Obj<V>>, dd: DefaultDataTable): nat
    requires Readable(objects, dd)
  {
    |objects[dd.tensor.shape].elems|
  }

  /** `Shape(i)`: the i-th element of the shape vector. */
  function Shape<V>(objects: seq<Obj<V>>, dd: DefaultDataTable, i: nat): int
    requires Readable(objects, dd) && i < ShapeLength(objects, dd)
  {
    objects[dd.tensor.shape].elems[i].i
  }

  /** `ValuesAsNumpy()`: the values vector as a flat sequence, in index order. */
  function ValuesAsNumpy<V>(objects: seq<Obj<V>>, dd: DefaultDataTable): seq<V>
    requires Readable(objects, dd)
  {
    var elems := objects[dd.tensor.values].elems;
    seq(|elems|, i requires 0 <= i < |elems| => elems[i].f)
  }

  function NamesInOrder<V>(objects: seq<Obj<V>>, dd: DefaultDataTable): (names: seq<string>)
    requires Readable(objects, dd)
    ensures |names| == NamesLength(objects, dd)
  {
    seq(NamesLength(objects, dd), i requires 0 <= i < NamesLength(objects, dd) => Names(objects, dd, i))
  }

  function ShapeInOrder<V>(objects: seq<Obj<V>>, dd: DefaultDataTable): (shape: seq<int>)
    requires Readable(objects, dd)
    ensures |shape| == ShapeLength(objects, dd)
  {
    seq(ShapeLength(objects, dd), i requires 0 <= i < ShapeLength(objects, dd) => Shape(objects, dd, i))
  }

  // ---------------------------------------------------------------------------
  // Decoder
  // ---------------------------------------------------------------------------

  /** `FlatbuffersInvalidMessage` for the two guards, or numpy's refusal to reshape. */
  datatype DecodeError = WrongProtocol(protocol: SeldonProtocolVersion) | NotDefaultData | ReshapeRefused(reason: ReshapeError)

  /** What the decoder returns: the guards first, then the values reshaped by the decoded shape, and the names. */
  function Decoded<V>(objects: seq<Obj<V>>, msg: SeldonMessageTable): (r: Result<(NdArray<V>, seq<string>), DecodeError>)
    requires msg.protocol == V1 && msg.dataType == DefaultData ==> Readable(objects, msg.data)
    ensures msg.protocol != V1 ==> r == Failure(WrongProtocol(msg.protocol))
    ensures msg.protocol == V1 && msg.dataType != DefaultData ==> r == Failure(NotDefaultData)
    ensures msg.protocol == V1 && msg.dataType == DefaultData ==>
              (r.Success? <==> Reshape(ValuesAsNumpy(objects, msg.data), ShapeInOrder(objects, msg.data)).Success?)
    ensures r.Failure? && msg.protocol == V1 && msg.dataType == DefaultData ==>
              r.error == ReshapeRefused(Reshape(ValuesAsNumpy(objects, msg.data), ShapeInOrder(objects, msg.data)).error)
    ensures r.Success? ==> r.value.0.Valid() && r.value.0.values == ValuesAsNumpy(objects, msg.data)
    ensures r.Success? ==> r.value.1 == NamesInOrder(objects, msg.data)
    ensures r.Success? ==> forall i :: 0 <= i < ShapeLength(objects, msg.data) && Shape(objects, msg.data, i) >= 0 ==>
              i < |r.value.0.shape| && r.value.0.shape[i] == Shape(objects, msg.data, i)
  {
    if msg.protocol != V1 then Failure(WrongProtocol(msg.protocol))
    else if msg.dataType != DefaultData then Failure(NotDefaultData)
    else
      match Reshape(ValuesAsNumpy(objects, msg.data), ShapeInOrder(objects, msg.data))
      case Success(a) => Success((a, NamesInOrder(objects, msg.data)))
      case Failure(e) => Failure(ReshapeRefused(e))
  }

  /** `SeldonRPCToNumpyArray`, given the `SeldonMessage` it reads: the guards, then the read-back loops. */
  method SeldonRpcToNumpyArray<V>(objects: seq<Obj<V>>, msg: SeldonMessageTable)
    returns (r: Result<(NdArray<V>, seq<string>), DecodeError>)
    requires msg.protocol == V1 && msg.dataType == DefaultData ==> Readable(objects, msg.data)
    ensures r == Decoded(objects, msg)
  {
    if msg.protocol == V1 {
      if msg.dataType == DefaultData {
        var defData := msg.data;
        var names: seq<string> := [];
        var i := 0;
        while i < NamesLength(objects, defData)
          invariant 0 <= i <= NamesLength(objects, defData)
          invariant names == NamesInOrder(objects, defData)[..i]
        {
          names := names + [Names(objects, defData, i)];
          i := i + 1;
        }
        var shape: seq<int> := [];
        i := 0;
        while i < ShapeLength(objects, defData)
          invariant 0 <= i <= ShapeLength(objects, defData)
          invariant shape == ShapeInOrder(objects, defData)[..i]
        {
          shape := shape + [Shape(objects, defData, i)];
          i := i + 1;
        }
        assert names == NamesInOrder(objects, defData);
        assert shape == ShapeInOrder(objects, defData);
        var values := ValuesAsNumpy(objects, defData);
        match Reshape(values, shape)
        case Success(a) =>
          r := Success((a, names));
        case Failure(e) =>
          r := Failure(ReshapeRefused(e));
      } else {
        r := Failure(NotDefaultData);
      }
    } else {
      r := Failure(WrongProtocol(msg.protocol));
    }
  }

  // ---------------------------------------------------------------------------
  // Encoder
  // ---------------------------------------------------------------------------

  /**
   * Why the encoder fails: a shape dimension the Int32 vector cannot hold, or
   * empty names, which leave `namesOffset` unbound when the names field is added.
   */
  datatype EncodeError = ShapeDimensionNotInt32 | NamesOffsetUnbound

  predicate AllInt32(shape: seq<nat>)
  {
    forall i :: 0 <= i < |shape| ==> FitsInt32(shape[i])
  }

  function StringObjs<V>(names: seq<string>): (objs: seq<Obj<V>>)
    ensures |objs| == |names|
  {
    seq(|names|, i requires 0 <= i < |names| => Str(names[i]))
  }

  function UOffsets<V>(offsets: seq<nat>): (elems: seq<Elem<V>>)
    ensures |elems| == |offsets|
  {
    seq(|offsets|, i requires 0 <= i < |offsets| => UOffset(offsets[i]))
  }

  function Int32s<V>(shape: seq<nat>): (elems: seq<Elem<V>>)
    ensures |elems| == |shape|
  {
    seq(|shape|, i requires 0 <= i < |shape| => Int32(shape[i]))
  }

  function Float64s<V>(values: seq<V>): (elems: seq<Elem<V>>)
    ensures |elems| == |values|
  {
    seq(|values|, i requires 0 <= i < |values| => Float64(values[i]))
  }

  function Indices(n: nat): (s: seq<nat>)
    ensures |s| == n && forall i :: 0 <= i < n ==> s[i] == i
  {
    seq(n, i requires 0 <= i < n => i)
  }

  /** The buffer's objects in logical order: the n names, the names vector, the shape vector, the values vector. */
  function Layout<V>(arr: NdArray<V>, names: seq<string>): seq<Obj<V>>
  {
    StringObjs(names) + [Vec(UOffsets(Indices(|names|))), Vec(Int32s(arr.shape)), Vec(Float64s(arr.values))]
  }

  /** The envelope around the tables: status 200 SUCCESS, protocol V1, DefaultData, method PREDICT. */
  function Envelope(namesOffset: nat, shapeOffset: nat, valuesOffset: nat): SeldonRpcTable
  {
    SeldonRpcTable(
      PREDICT,
      SeldonMessagePayload,
      SeldonMessageTable(
        V1,
        StatusTable(200, SUCCESS),
        DefaultData,
        DefaultDataTable(TensorTable(shapeOffset, valuesOffset), Some(namesOffset))))
  }

  /** What the encoder produces: the size-prefixed `SeldonRPC` buffer, or the failure it runs into first. */
  function Encoded<V>(arr: NdArray<V>, names: seq<string>): (r: Result<Buffer<V>, EncodeError>)
    ensures r.Success? <==> AllInt32(arr.shape) && |names| > 0
    ensures !AllInt32(arr.shape) ==> r == Failure(ShapeDimensionNotInt32)
    ensures AllInt32(arr.shape) && |names| == 0 ==> r == Failure(NamesOffsetUnbound)
    ensures r.Success? ==>
              && r.value.sizePrefixed
              && r.value.root.rpcMethod == PREDICT
              && r.value.root.messageType == SeldonMessagePayload
              && r.value.root.message.protocol == V1
              && r.value.root.message.status == StatusTable(200, SUCCESS)
              && r.value.root.message.dataType == DefaultData
  {
    if !AllInt32(arr.shape) then Failure(ShapeDimensionNotInt32)
    else if |names| == 0 then Failure(NamesOffsetUnbound)
    else
      var n := |names|;
      Success(Buffer(Layout(arr, names), Envelope(n, n + 1, n + 2), true))
  }

  /** `NumpyArrayToSeldonRPC`: strings, then each vector prepended from its last index down to 0, then the tables. */
  method NumpyArrayToSeldonRpc<V>(arr: NdArray<V>, names: seq<string>) returns (r: Result<Buffer<V>, EncodeError>)
    ensures r == Encoded(arr, names)
  {
    var builder := new Builder<V>(32768);
    var namesOffset := WriteNames(builder, names);
    var shapeOffset := WriteShape(builder, arr.shape);
    if shapeOffset.None? {
      return Failure(ShapeDimensionNotInt32);
    }
    var sOffset := shapeOffset.value;
    var vOffset := WriteValues(builder, arr.values);
    var tensor := TensorTable(sOffset, vOffset);

    if namesOffset.None? {
      return Failure(NamesOffsetUnbound);
    }
    var defData := DefaultDataTable(tensor, namesOffset);
    var status := StatusTable(200, SUCCESS);
    var seldonMessage := SeldonMessageTable(V1, status, DefaultData, defData);
    var seldonRpc := SeldonRpcTable(PREDICT, SeldonMessagePayload, seldonMessage);
    assert builder.objects == Layout(arr, names);
    r := Success(Buffer(builder.objects, seldonRpc, true));
  }

  /** The names part of the encoder: the strings, then the vector of their offsets, last offset first; nothing when there are no names. */
  method WriteNames<V>(builder: Builder<V>, names: seq<string>) returns (namesOffset: Option<nat>)
    requires builder.objects == [] && !builder.nested
    modifies builder
    ensures namesOffset == if |names| > 0 then Some(|names|) else None
    ensures builder.objects == if |names| > 0 then StringObjs(names) + [Vec(UOffsets(Indices(|names|)))] else []
    ensures !builder.nested
  {
    namesOffset := None;
    if |names| > 0 {
      var strOffsets: seq<nat> := [];
      var i := 0;
      while i < |names|
        invariant 0 <= i <= |names|
        invariant builder.objects == StringObjs(names[..i]) && !builder.nested
        invariant strOffsets == Indices(i)
      {
        var off := builder.CreateString(names[i]);
        strOffsets := strOffsets + [off];
        i := i + 1;
      }
      builder.StartVector(|strOffsets|);
      var j := |strOffsets|;
      while j > 0
        invariant 0 <= j <= |strOffsets|
        invariant builder.nested && builder.objects == StringObjs(names)
        invariant builder.vector == UOffsets(strOffsets[j..])
      {
        j := j - 1;
        builder.PrependUOffsetTRelative(strOffsets[j]);
      }
      var off := builder.EndVector(|strOffsets|);
      namesOffset := Some(off);
    }
  }

  /** The shape vector, last axis first; `None` as soon as an axis length does not fit in an `int32`. */
  method WriteShape<V>(builder: Builder<V>, shape: seq<nat>) returns (offset: Option<nat>)
    requires !builder.nested
    modifies builder
    ensures offset.Some? <==> AllInt32(shape)
    ensures offset.Some? ==> offset.value == |old(builder.objects)| && builder.objects == old(builder.objects) + [Vec(Int32s(shape))] && !builder.nested
  {
    builder.StartVector(|shape|);
    var k := |shape|;
    while k > 0
      invariant 0 <= k <= |shape|
      invariant builder.nested && builder.objects == old(builder.objects)
      invariant builder.vector == Int32s(shape[k..])
      invariant forall d :: k <= d < |shape| ==> FitsInt32(shape[d])
    {
      k := k - 1;
      var ok := builder.PrependInt32(shape[k]);
      if !ok {
        return None;
      }
    }
    var off := builder.EndVector(|shape|);
    offset := Some(off);
  }

  /** The values vector, last value first. */
  method WriteValues<V>(builder: Builder<V>, values: seq<V>) returns (offset: nat)
    requires !builder.nested
    modifies builder
    ensures offset == |old(builder.objects)| && builder.objects == old(builder.objects) + [Vec(Float64s(values))]
    ensures !builder.nested
  {
    builder.StartVector(|values|);
    var k := |values|;
    while k > 0
      invariant 0 <= k <= |values|
      invariant builder.nested && builder.objects == old(builder.objects)
      invariant builder.vector == Float64s(values[k..])
    {
      k := k - 1;
      builder.PrependFloat64(values[k]);
    }
    offset := builder.EndVector(|values|);
  }

  // ---------------------------------------------------------------------------
  // Properties of the envelope
  // ---------------------------------------------------------------------------

  /**
   * The encoded message reads back, by index, in the logical order: the names
   * vector gives the names, the shape vector (one entry per axis) the shape and
   * the values vector the row-major values.
   */
  lemma EncodedVectorsReadInOrder<V>(arr: NdArray<V>, names: seq<string>)
    requires AllInt32(arr.shape) && |names| > 0
    ensures Encoded(arr, names).Success?
    ensures var buf := Encoded(arr, names).value;
            var dd := buf.root.message.data;
            && Readable(buf.objects, dd)
            && NamesInOrder(buf.objects, dd) == names
            && ShapeLength(buf.objects, dd) == |arr.shape|
            && ShapeInOrder(buf.objects, dd) == arr.shape
            && ValuesAsNumpy(buf.objects, dd) == arr.values
  {
    var buf := Encoded(arr, names).value;
    var dd := buf.root.message.data;
    var n := |names|;
    var objs := buf.objects;
    assert objs[n] == Vec(UOffsets(Indices(n)));
    assert objs[n + 1] == Vec(Int32s(arr.shape));
    assert objs[n + 2] == Vec(Float64s(arr.values));
    assert forall i :: 0 <= i < n ==> objs[i] == Str(names[i]);
    assert Readable(objs, dd);
    assert NamesInOrder(objs, dd) == names;
    assert ShapeInOrder(objs, dd) == arr.shape;
  }

  /** Round trip at the message level: decoding the encoded `SeldonMessage` gives back the array and the names. */
  lemma MessageRoundTrip<V>(arr: NdArray<V>, names: seq<string>)
    requires arr.Valid() && AllInt32(arr.shape) && |names| > 0
    ensures Encoded(arr, names).Success?
    ensures var buf := Encoded(arr, names).value;
            Decoded(buf.objects, buf.root.message) == Success((arr, names))
  {
    EncodedVectorsReadInOrder(arr, names);
    ReshapeOwnShape(arr);
  }

  /** The protocol guard fires before anything else is read, whatever the rest of the message holds. */
  lemma ProtocolGuardFirst<V>(objects: seq<Obj<V>>, msg: SeldonMessageTable, other: DataKind, data: DefaultDataTable)
    requires msg.protocol != V1
    ensures Decoded(objects, msg) == Failure(WrongProtocol(msg.protocol))
    ensures Decoded(objects, msg.(dataType := other, data := data)) == Decoded(objects, msg)
  {
  }
}
