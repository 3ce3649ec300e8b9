/**
 * The request guard and the REST and gRPC array codecs of the microservice
 * (seldon_microservice/common.py). A REST `data` dictionary carries an
 * optional `tensor` and an optional `ndarray` entry; a gRPC `DefaultData`
 * message carries at most one of them in its `data_oneof` field.
 */
module Common {
  import opened Wrappers
  import opened Arrays

  // ---------------------------------------------------------------------------
  // SeldonMicroserviceException
  // ---------------------------------------------------------------------------

  /** A decoded JSON value, as a request arrives (number literals are kept as text). */
  datatype Json =
    | JNull
    | JBool(b: bool)
    | JNumber(literal: string)
    | JString(s: string)
    | JList(items: seq<Json>)
    | JObject(fields: map<string, Json>)

  /** The exception the service raises for a bad request. */
  datatype SeldonError = SeldonError(message: string, statusCode: int, payload: Option<Json>)

  const DEFAULT_STATUS_CODE: int := 400

  /** `SeldonMicroserviceException(message, status_code, payload)`: the status code is 400 unless one is given. */
  function NewSeldonError(message: string, statusCode: Option<int> := None, payload: Option<Json> := None): (e: SeldonError)
    ensures e.message == message && e.payload == payload
    ensures statusCode.None? ==> e.statusCode == DEFAULT_STATUS_CODE
    ensures statusCode.Some? ==> e.statusCode == statusCode.value
  {
    SeldonError(message, if statusCode.Some? then statusCode.value else DEFAULT_STATUS_CODE, payload)
  }

  /** The `status` entry of the dictionary `to_dict` returns. */
  datatype StatusReport = StatusReport(status: int, info: string, code: int, reason: string)

  /** `to_dict`: a fixed failure report carrying the message; the status code is not reported. */
  function ToDict(e: SeldonError): (d: StatusReport)
  {
    StatusReport(1, e.message, -1, "MICROSERVICE_BAD_DATA")
  }

  /** Whatever status code and payload an exception carries, its report is status 1, code -1, MICROSERVICE_BAD_DATA with the message as info. */
  lemma ToDictReportsOnlyTheMessage(message: string, statusCode: Option<int>, payload: Option<Json>)
    ensures ToDict(NewSeldonError(message, statusCode, payload)) == StatusReport(1, message, -1, "MICROSERVICE_BAD_DATA")
    ensures ToDict(NewSeldonError(message, statusCode, payload)) == ToDict(NewSeldonError(message))
  {
  }

  // ---------------------------------------------------------------------------
  // sanity_check_request
  // ---------------------------------------------------------------------------

  /** `d.get(key)` read as "is there a value": a missing key and a JSON null are the same. */
  function Get(fields: map<string, Json>, key: string): (r: Option<Json>)
    ensures r.Some? <==> key in fields && fields[key] != JNull
    ensures r.Some? ==> r.value == fields[key]
  {
    if key in fields && fields[key] != JNull then Some(fields[key]) else None
  }

  const NOT_A_DICTIONARY := "Request must be a dictionary"
  const NO_DEFAULT_DATA := "Request must contain Default Data"
  const DATA_NOT_A_DICTIONARY := "Data must be a dictionary"
  const NO_PAYLOAD_KEYWORD := "Data dictionary has no 'ndarray' or 'tensor' keyword."

  /** What the guard accepts: a dictionary whose `data` is a dictionary with a non-null `ndarray` or `tensor`. */
  ghost predicate AcceptableRequest(req: Json)
  {
    && req.JObject?
    && "data" in req.fields
    && req.fields["data"].JObject?
    && var data := req.fields["data"].fields;
       ("ndarray" in data && data["ndarray"] != JNull) || ("tensor" in data && data["tensor"] != JNull)
  }

  /** `sanity_check_request`: four guards, checked in order, each raising its own 400 exception. */
  function SanityCheckRequest(req: Json): (r: Outcome<SeldonError>)
    ensures r.Pass? <==> AcceptableRequest(req)
    ensures !req.JObject? ==> r == Fail(NewSeldonError(NOT_A_DICTIONARY))
    ensures req.JObject? && ("data" !in req.fields || req.fields["data"] == JNull) ==>
              r == Fail(NewSeldonError(NO_DEFAULT_DATA))
    ensures req.JObject? && "data" in req.fields && req.fields["data"] != JNull && !req.fields["data"].JObject? ==>
              r == Fail(NewSeldonError(DATA_NOT_A_DICTIONARY))
    ensures req.JObject? && "data" in req.fields && req.fields["data"].JObject? && !AcceptableRequest(req) ==>
              r == Fail(NewSeldonError(NO_PAYLOAD_KEYWORD))
    ensures r.Fail? ==> r.error.statusCode == 400
  {
    if !req.JObject? then Fail(NewSeldonError(NOT_A_DICTIONARY))
    else
      var data := Get(req.fields, "data");
      if data.None? then Fail(NewSeldonError(NO_DEFAULT_DATA))
      else if !data.value.JObject? then Fail(NewSeldonError(DATA_NOT_A_DICTIONARY))
      else if Get(data.value.fields, "ndarray").None? && Get(data.value.fields, "tensor").None? then
        Fail(NewSeldonError(NO_PAYLOAD_KEYWORD))
      else Pass
  }

  // ---------------------------------------------------------------------------
  // REST codec
  // ---------------------------------------------------------------------------

  /** A `tensor` entry: an explicit shape and the row-major values. */
  datatype TensorDef<V> = TensorDef(shape: seq<int>, values: seq<V>)

  /** A REST `data` dictionary; an absent key and a null value are both `None`. */
  datatype RestDataDef<V> = RestDataDef(
    names: Option<seq<string>>,
    tensor: Option<TensorDef<V>>,
    ndarray: Option<Nested<V>>)

  /** The array a `tensor` entry denotes: its values reshaped by its shape. */
  function TensorToArray<V>(t: TensorDef<V>): (r: Result<NdArray<V>, ArrayError>)
    ensures r.Success? ==> r.value.Valid() && r.value.values == t.values && |r.value.shape| == |t.shape|
    ensures r.Success? ==> forall i :: 0 <= i < |t.shape| && t.shape[i] >= 0 ==> r.value.shape[i] == t.shape[i]
    ensures Unknowns(t.shape) == 0 ==> (r.Success? <==> Product(AsDims(t.shape)) == |t.values|)
    ensures r.Failure? ==> r.error.ReshapeFailed?
  {
    match Reshape(t.values, t.shape)
    case Success(a) => Success(a)
    case Failure(e) => Failure(ReshapeFailed(e))
  }

  /** `rest_datadef_to_array`: `tensor` first, then `ndarray`, else the empty array. */
  function RestDatadefToArray<V>(dd: RestDataDef<V>): (r: Result<NdArray<V>, ArrayError>)
    ensures r.Success? ==> r.value.Valid()
    ensures dd.tensor.Some? ==> r == TensorToArray(dd.tensor.value)
    ensures dd.tensor.None? && dd.ndarray.Some? ==> r == FromNested(dd.ndarray.value)
    ensures dd.tensor.None? && dd.ndarray.None? ==> r == Success(EmptyArray())
  {
    if dd.tensor.Some? then TensorToArray(dd.tensor.value)
    else if dd.ndarray.Some? then FromNested(dd.ndarray.value)
    else Success(EmptyArray())
  }

  /** With a `tensor` present, the `ndarray` entry is never looked at. */
  lemma TensorTakesPrecedence<V>(dd: RestDataDef<V>, other: Option<Nested<V>>)
    requires dd.tensor.Some?
    ensures RestDatadefToArray(dd) == RestDatadefToArray(dd.(ndarray := other))
  {
  }

  /** A malformed tensor is refused with a reshape error, never truncated or padded. */
  lemma TensorSizeMismatchFails<V>(dd: RestDataDef<V>)
    requires dd.tensor.Some? && Unknowns(dd.tensor.value.shape) == 0
    requires Product(AsDims(dd.tensor.value.shape)) != |dd.tensor.value.values|
    ensures RestDatadefToArray(dd) == Failure(ReshapeFailed(SizeMismatch))
  {
  }

  /** `array_to_rest_datadef`: `names` always, then `tensor` if the request had one, else `ndarray` (`array.tolist()`). */
  function ArrayToRestDatadef<V>(a: NdArray<V>, names: seq<string>, original: RestDataDef<V>): (dd: RestDataDef<V>)
    requires a.Valid()
    ensures dd.names == Some(names)
    ensures dd.tensor.Some? <==> original.tensor.Some?
    ensures dd.ndarray.Some? <==> original.tensor.None?
    ensures dd.tensor.Some? ==> dd.tensor.value.shape == a.shape && dd.tensor.value.values == a.values
    ensures dd.ndarray.Some? ==> HasShape(dd.ndarray.value, a.shape) && Flatten(dd.ndarray.value) == a.values
  {
    var base := RestDataDef(Some(names), None, None);
    if original.tensor.Some? then base.(tensor := Some(TensorDef(a.shape, a.values)))
    else
      ToNestedHasShape(a.shape, a.values);
      FlattenToNested(a.shape, a.values);
      base.(ndarray := Some(ToNested(a.shape, a.values)))
  }

  /**
   * Decoding what the encoder produced gives the array back, whichever variant
   * the request used; on the `ndarray` path only when no axis but the last is empty.
   */
  lemma RestRoundTrip<V>(a: NdArray<V>, names: seq<string>, original: RestDataDef<V>)
    requires a.Valid()
    requires original.tensor.None? ==> NoInteriorZero(a.shape)
    ensures RestDatadefToArray(ArrayToRestDatadef(a, names, original)) == Success(a)
  {
    if original.tensor.Some? {
      ReshapeOwnShape(a);
    } else {
      FromNestedToNested(a);
    }
  }

  /** A reply built from a request is decoded by the same variant the request used. */
  lemma RestVariantPreserved<V>(a: NdArray<V>, names: seq<string>, request: RestDataDef<V>)
    requires a.Valid()
    ensures var reply := ArrayToRestDatadef(a, names, request);
            && (request.tensor.Some? ==> RestDatadefToArray(reply) == TensorToArray(reply.tensor.value))
            && (request.tensor.None? ==> RestDatadefToArray(reply) == FromNested(reply.ndarray.value))
  {
  }

  // ---------------------------------------------------------------------------
  // gRPC codec
  // ---------------------------------------------------------------------------

  /** The `data_oneof` field of a `DefaultData` message: at most one variant is set. */
  datatype DataOneof<V> = TensorData(tensor: TensorDef<V>) | NDArrayData(ndarray: seq<Nested<V>>) | Unset

  datatype GrpcDataDef<V> = GrpcDataDef(names: seq<string>, data: DataOneof<V>)

  /** `grpc_datadef_to_array`: dispatch on the variant that is set; none set gives the empty array. */
  function GrpcDatadefToArray<V>(dd: GrpcDataDef<V>): (r: Result<NdArray<V>, ArrayError>)
    ensures r.Success? ==> r.value.Valid()
    ensures dd.data.TensorData? ==> r == TensorToArray(dd.data.tensor)
    ensures dd.data.NDArrayData? ==> r == FromNested(Node(dd.data.ndarray))
    ensures dd.data.Unset? ==> r == Success(EmptyArray())
  {
    match dd.data
    case TensorData(t) => TensorToArray(t)
    case NDArrayData(lv) => FromNested(Node(lv))
    case Unset => Success(EmptyArray())
  }

  /** `array_to_list_value` on an array of rank at least 1: a flat list at rank 1, one sub-list per row above. */
  function ListValueOf<V>(shape: seq<nat>, values: seq<V>): seq<Nested<V>>
    requires |shape| >= 1 && |values| == Product(shape)
    decreases |shape|, 1, 0
  {
    if |shape| == 1 then ScalarList(values)
    else ListValueRows(shape[1..], values, shape[0])
  }

  /** `lv.extend(array)` on a rank-1 array: each element becomes a scalar entry. */
  function ScalarList<V>(values: seq<V>): (lv: seq<Nested<V>>)
    ensures |lv| == |values| && forall i :: 0 <= i < |values| ==> lv[i] == Leaf(values[i])
  {
    seq(|values|, i requires 0 <= i < |values| => Leaf(values[i]))
  }

  /** One nested list per row, for the `rows` rows of shape `rowShape` held in `values`. */
  function ListValueRows<V>(rowShape: seq<nat>, values: seq<V>, rows: nat): seq<Nested<V>>
    requires |rowShape| >= 1 && |values| == rows * Product(rowShape)
    decreases |rowShape| + 1, 0, rows
  {
    if rows == 0 then []
    else
      var m := Product(rowShape);
      RowsFit(rows, m);
      [Node(ListValueOf(rowShape, values[..m]))] + ListValueRows(rowShape, values[m..], rows - 1)
  }

  /**
   * The list value is the generic nested list of the array: hence it has one
   * entry per outer-axis element, recursively, and flattens to the row-major values.
   */
  lemma {:induction false} ListValueIsNesting<V>(shape: seq<nat>, values: seq<V>)
    requires |shape| >= 1 && |values| == Product(shape)
    ensures ListValueOf(shape, values) == ToNested(shape, values).children
    decreases |shape|, 1, 0
  {
    if |shape| == 1 {
      ScalarRows(values, shape[0]);
    } else {
      ListValueRowsAreNesting(shape[1..], values, shape[0]);
    }
  }

  lemma {:induction false} ListValueRowsAreNesting<V>(rowShape: seq<nat>, values: seq<V>, rows: nat)
    requires |rowShape| >= 1 && |values| == rows * Product(rowShape)
    ensures ListValueRows(rowShape, values, rows) == ToNestedRows(rowShape, values, rows)
    decreases |rowShape| + 1, 0, rows
  {
    if rows > 0 {
      var m := Product(rowShape);
      RowsFit(rows, m);
      ListValueIsNesting(rowShape, values[..m]);
      ListValueRowsAreNesting(rowShape, values[m..], rows - 1);
    }
  }

  lemma {:induction false} ScalarRows<V>(values: seq<V>, rows: nat)
    requires |values| == rows * Product([])
    ensures ScalarList(values) == ToNestedRows([], values, rows)
    decreases rows
  {
    if rows > 0 {
      ScalarRows(values[1..], rows - 1);
      assert ScalarList(values) == [Leaf(values[0])] + ScalarList(values[1..]);
    }
  }

  /** The nested list value of an array has its shape, flattens to its values and is rank levels deep. */
  lemma ListValueShape<V>(a: NdArray<V>)
    requires a.Valid() && |a.shape| >= 1
    ensures HasShape(Node(ListValueOf(a.shape, a.values)), a.shape)
    ensures FlattenAll(ListValueOf(a.shape, a.values)) == a.values
    ensures NoInteriorZero(a.shape) ==> Depth(Node(ListValueOf(a.shape, a.values))) == |a.shape|
  {
    ListValueIsNesting(a.shape, a.values);
    ToNestedHasShape(a.shape, a.values);
    FlattenToNested(a.shape, a.values);
    if NoInteriorZero(a.shape) {
      DepthIsRank(ToNested(a.shape, a.values), a.shape);
    }
  }

  /** `array_to_list_value`: fills a list value from the array; a 0-d array cannot be iterated. */
  method ArrayToListValue<V>(a: NdArray<V>) returns (r: Result<seq<Nested<V>>, ArrayError>)
    requires a.Valid()
    ensures |a.shape| == 0 ==> r == Failure(ZeroDimIteration)
    ensures |a.shape| >= 1 ==> r == Success(ListValueOf(a.shape, a.values))
  {
    if |a.shape| == 0 {
      return Failure(ZeroDimIteration);
    }
    var lv := FillListValue(a.shape, a.values);
    return Success(lv);
  }

  /** The recursive fill: extend at rank 1, otherwise add one sub-list per row and fill it. */
  method FillListValue<V>(shape: seq<nat>, values: seq<V>) returns (lv: seq<Nested<V>>)
    requires |shape| >= 1 && |values| == Product(shape)
    ensures lv == ListValueOf(shape, values)
    decreases |shape|
  {
    lv := [];
    if |shape| == 1 {
      lv := lv + ScalarList(values);
      return;
    }
    var rowShape := shape[1..];
    var m := Product(rowShape);
    var rest := values;
    var i := 0;
    while i < shape[0]
      invariant 0 <= i <= shape[0]
      invariant |rest| == (shape[0] - i) * m
      invariant lv + ListValueRows(rowShape, rest, shape[0] - i) == ListValueOf(shape, values)
    {
      RowsFit(shape[0] - i, m);
      var subLv := FillListValue(rowShape, rest[..m]);
      lv := lv + [Node(subLv)];
      rest := rest[m..];
      i := i + 1;
    }
  }

  /** `array_to_grpc_datadef`: a tensor only for `"tensor"`; any other string gives the nested list value. */
  method ArrayToGrpcDatadef<V>(a: NdArray<V>, names: seq<string>, dataType: string)
    returns (r: Result<GrpcDataDef<V>, ArrayError>)
    requires a.Valid()
    ensures dataType == "tensor" ==> r == Success(GrpcDataDef(names, TensorData(TensorDef(a.shape, a.values))))
    ensures dataType != "tensor" && |a.shape| == 0 ==> r == Failure(ZeroDimIteration)
    ensures dataType != "tensor" && |a.shape| >= 1 ==>
              r == Success(GrpcDataDef(names, NDArrayData(ListValueOf(a.shape, a.values))))
  {
    if dataType == "tensor" {
      r := Success(GrpcDataDef(names, TensorData(TensorDef(a.shape, a.values))));
    } else {
      var lv := ArrayToListValue(a);
      match lv
      case Failure(e) =>
        r := Failure(e);
      case Success(l) =>
        r := Success(GrpcDataDef(names, NDArrayData(l)));
    }
  }

  /** Decoding a gRPC message built from an array gives the array back, on both paths. */
  lemma GrpcRoundTrip<V>(a: NdArray<V>, names: seq<string>)
    requires a.Valid()
    ensures GrpcDatadefToArray(GrpcDataDef(names, TensorData(TensorDef(a.shape, a.values)))) == Success(a)
    ensures |a.shape| >= 1 && NoInteriorZero(a.shape) ==>
              GrpcDatadefToArray(GrpcDataDef(names, NDArrayData(ListValueOf(a.shape, a.values)))) == Success(a)
  {
    ReshapeOwnShape(a);
    if |a.shape| >= 1 && NoInteriorZero(a.shape) {
      ListValueIsNesting(a.shape, a.values);
      FromNestedToNested(a);
    }
  }
}
