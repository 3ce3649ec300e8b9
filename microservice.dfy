/**
 * The start-up parsing of the microservice (seldon_microservice/microservice.py):
 * the typed parameter list becomes a dictionary, the `key="value"` lines of
 * the annotations file become a dictionary, and a truthy `SELDON_DEBUG`
 * parameter is taken out of the parameters and switches debug on.
 */
module Microservice {
  import opened Wrappers
  import opened Text

  const DEBUG_PARAMETER := "SELDON_DEBUG"

  // ---------------------------------------------------------------------------
  // parse_parameters
  // ---------------------------------------------------------------------------

  /** The conversions of `type_dict`: `int`, `float`, `str` and `bool`. */
  datatype Kind = IntKind | FloatKind | StringKind | BoolKind

  /** `type_dict[type_]`: None stands for the `KeyError` of an unknown (or missing) tag. */
  function TypeDict(tag: Option<string>): (k: Option<Kind>)
    ensures k == Some(IntKind) <==> tag == Some("INT")
    ensures k == Some(FloatKind) <==> tag == Some("FLOAT") || tag == Some("DOUBLE")
    ensures k == Some(StringKind) <==> tag == Some("STRING")
    ensures k == Some(BoolKind) <==> tag == Some("BOOL")
  {
    if tag == Some("INT") then Some(IntKind)
    else if tag == Some("FLOAT") || tag == Some("DOUBLE") then Some(FloatKind)
    else if tag == Some("STRING") then Some(StringKind)
    else if tag == Some("BOOL") then Some(BoolKind)
    else None
  }

  /** One entry of the parameter list: `param.get(...)` of its name, value and type (None when missing). */
  datatype Param<J> = Param(name: Option<string>, value: Option<J>, typeTag: Option<string>)

  datatype ParamError = UnknownType(tag: Option<string>) | ConversionFailed(name: Option<string>, kind: Kind)

  /** The value of one entry: the conversion for its tag applied to its value; `convert` returns None when it raises. */
  function ConvertParam<J, P>(p: Param<J>, convert: (Kind, Option<J>) -> Option<P>): (r: Result<P, ParamError>)
    ensures TypeDict(p.typeTag).None? ==> r == Failure(UnknownType(p.typeTag))
    ensures r.Success? <==> TypeDict(p.typeTag).Some? && convert(TypeDict(p.typeTag).value, p.value).Some?
    ensures r.Success? ==> convert(TypeDict(p.typeTag).value, p.value) == Some(r.value)
    ensures TypeDict(p.typeTag).Some? && r.Failure? ==> r == Failure(ConversionFailed(p.name, TypeDict(p.typeTag).value))
  {
    match TypeDict(p.typeTag)
    case None => Failure(UnknownType(p.typeTag))
    case Some(k) =>
      match convert(k, p.value)
      case None => Failure(ConversionFailed(p.name, k))
      case Some(v) => Success(v)
  }

  /** The dictionary after the first `n` entries, or the error the loop stopped at. */
  function ParsedPrefix<J, P>(params: seq<Param<J>>, n: nat, convert: (Kind, Option<J>) -> Option<P>): Result<map<Option<string>, P>, ParamError>
    requires n <= |params|
  {
    if n == 0 then Success(map[])
    else
      match ParsedPrefix(params, n - 1, convert)
      case Failure(e) => Failure(e)
      case Success(m) =>
        match ConvertParam(params[n - 1], convert)
        case Failure(e) => Failure(e)
        case Success(v) => Success(m[params[n - 1].name := v])
  }

  /** `parse_parameters`: a loop that fills the dictionary and stops at the first entry that raises. */
  method ParseParameters<J, P>(parameters: seq<Param<J>>, convert: (Kind, Option<J>) -> Option<P>)
    returns (r: Result<map<Option<string>, P>, ParamError>)
    ensures r == ParsedPrefix(parameters, |parameters|, convert)
  {
    var parsedParameters: map<Option<string>, P> := map[];
    var i := 0;
    while i < |parameters|
      invariant 0 <= i <= |parameters|
      invariant ParsedPrefix(parameters, i, convert) == Success(parsedParameters)
    {
      var param := parameters[i];
      var name := param.name;
      var value := param.value;
      var type_ := param.typeTag;
      var kind := TypeDict(type_);
      if kind.None? {
        FailureSticks(parameters, i + 1, |parameters|, convert);
        return Failure(UnknownType(type_));
      }
      var converted := convert(kind.value, value);
      if converted.None? {
        FailureSticks(parameters, i + 1, |parameters|, convert);
        return Failure(ConversionFailed(name, kind.value));
      }
      parsedParameters := parsedParameters[name := converted.value];
      i := i + 1;
    }
    r := Success(parsedParameters);
  }

  /** Once the loop has failed, the later entries do not matter. */
  lemma {:induction false} FailureSticks<J, P>(params: seq<Param<J>>, i: nat, n: nat, convert: (Kind, Option<J>) -> Option<P>)
    requires i <= n <= |params| && ParsedPrefix(params, i, convert).Failure?
    ensures ParsedPrefix(params, n, convert) == ParsedPrefix(params, i, convert)
    decreases n - i
  {
    if n > i {
      FailureSticks(params, i, n - 1, convert);
    }
  }

  /** Whether every entry has a known tag and a value its conversion accepts. */
  predicate AllConvert<J, P>(params: seq<Param<J>>, n: nat, convert: (Kind, Option<J>) -> Option<P>)
    requires n <= |params|
  {
    forall i :: 0 <= i < n ==> ConvertParam(params[i], convert).Success?
  }

  /**
   * The parse succeeds exactly when every entry converts; then the keys are the
   * entries' names and each name maps to the value of the LAST entry with that name.
   */
  lemma {:induction false} ParsedKeysAndValues<J, P>(params: seq<Param<J>>, n: nat, convert: (Kind, Option<J>) -> Option<P>)
    requires n <= |params|
    ensures ParsedPrefix(params, n, convert).Success? <==> AllConvert(params, n, convert)
    ensures ParsedPrefix(params, n, convert).Success? ==>
              var m := ParsedPrefix(params, n, convert).value;
              && (forall k :: k in m <==> exists i :: 0 <= i < n && params[i].name == k)
              && (forall i :: 0 <= i < n && (forall j :: i < j < n ==> params[j].name != params[i].name) ==>
                    m[params[i].name] == ConvertParam(params[i], convert).value)
  {
    if n > 0 {
      ParsedKeysAndValues(params, n - 1, convert);
      if ParsedPrefix(params, n - 1, convert).Failure? {
        assert !AllConvert(params, n - 1, convert);
      }
    }
  }

  /** The error is the one of the first entry that does not convert. */
  lemma {:induction false} FirstFailureReported<J, P>(params: seq<Param<J>>, i: nat, convert: (Kind, Option<J>) -> Option<P>)
    requires i < |params| && AllConvert(params, i, convert) && ConvertParam(params[i], convert).Failure?
    ensures ParsedPrefix(params, |params|, convert) == Failure(ConvertParam(params[i], convert).error)
  {
    ParsedKeysAndValues(params, i, convert);
    FailureSticks(params, i + 1, |params|, convert);
  }

  /** `FLOAT` and `DOUBLE` name the same conversion: swapping one for the other changes nothing. */
  lemma {:induction false} FloatDoubleAlike<J, P>(params: seq<Param<J>>, i: nat, convert: (Kind, Option<J>) -> Option<P>)
    requires i < |params| && params[i].typeTag == Some("FLOAT")
    ensures ParsedPrefix(params[i := params[i].(typeTag := Some("DOUBLE"))], |params|, convert)
         == ParsedPrefix(params, |params|, convert)
  {
    var swapped := params[i := params[i].(typeTag := Some("DOUBLE"))];
    assert ConvertParam(swapped[i], convert) == ConvertParam(params[i], convert);
    SameConversions(params, swapped, |params|, convert);
  }

  lemma {:induction false} SameConversions<J, P>(a: seq<Param<J>>, b: seq<Param<J>>, n: nat, convert: (Kind, Option<J>) -> Option<P>)
    requires n <= |a| == |b|
    requires forall i :: 0 <= i < n ==> a[i].name == b[i].name && ConvertParam(a[i], convert) == ConvertParam(b[i], convert)
    ensures ParsedPrefix(a, n, convert) == ParsedPrefix(b, n, convert)
  {
    if n > 0 {
      SameConversions(a, b, n - 1, convert);
    }
  }

  // ---------------------------------------------------------------------------
  // load_annotations
  // ---------------------------------------------------------------------------

  /** One line of the annotations file: right-stripped, split on `=`; two parts give the key and the unquoted value. */
  function ParseAnnotationLine(line: string): Option<(string, string)>
  {
    var parts := Split(RStrip(line), '=');
    if |parts| == 2 then Some((parts[0], Dequote(parts[1]))) else None
  }

  /**
   * A line is accepted exactly when its right-stripped text holds one `=`; the key
   * is the text before it and the value the text after it without its first and
   * last characters.
   */
  lemma {:induction false} AnnotationLineAccepted(line: string)
    ensures ParseAnnotationLine(line).Some? <==> Count(RStrip(line), '=') == 1
    ensures ParseAnnotationLine(line).Some? ==>
              var kv := ParseAnnotationLine(line).value;
              exists raw :: RStrip(line) == kv.0 + "=" + raw && Count(kv.0, '=') == 0 && kv.1 == Dequote(raw)
  {
    var t := RStrip(line);
    SplitCount(t, '=');
    if |Split(t, '=')| == 2 {
      var parts := Split(t, '=');
      SplitJoin(t, '=');
      SplitPartsFree(t, '=');
      assert Join(parts, '=') == parts[0] + "=" + parts[1] by {
        assert parts[1..] == [parts[1]];
      }
    }
  }

  /** The annotations read from the lines so far; later keys overwrite earlier ones. */
  function AnnotationsOf(lines: seq<string>): map<string, string>
  {
    if |lines| == 0 then map[]
    else
      var m := AnnotationsOf(lines[..|lines| - 1]);
      match ParseAnnotationLine(lines[|lines| - 1])
      case None => m
      case Some(kv) => m[kv.0 := kv.1]
  }

  /**
   * The per-line loop of `load_annotations`. `file` is None when the file does not
   * exist or cannot be opened, in which case the dictionary stays empty.
   */
  method LoadAnnotations(file: Option<seq<string>>) returns (annotations: map<string, string>)
    ensures file.None? ==> annotations == map[]
    ensures file.Some? ==> annotations == AnnotationsOf(file.value)
  {
    annotations := map[];
    if file.Some? {
      var lines := file.value;
      var i := 0;
      while i < |lines|
        invariant 0 <= i <= |lines|
        invariant annotations == AnnotationsOf(lines[..i])
      {
        var line := RStrip(lines[i]);
        var parts := Split(line, '=');
        assert lines[..i + 1][..i] == lines[..i];
        if |parts| == 2 {
          var value := Dequote(parts[1]);
          annotations := annotations[parts[0] := value];
        }
        i := i + 1;
      }
      assert lines[..i] == lines;
    }
  }

  /** Line `i` is accepted and no later accepted line has the same key. */
  predicate LastWithItsKey(lines: seq<string>, i: int)
  {
    && 0 <= i < |lines| && ParseAnnotationLine(lines[i]).Some?
    && forall j :: i < j < |lines| && ParseAnnotationLine(lines[j]).Some? ==>
         ParseAnnotationLine(lines[j]).value.0 != ParseAnnotationLine(lines[i]).value.0
  }

  /** The key of an accepted line. */
  predicate KeyAt(lines: seq<string>, i: int, k: string)
  {
    0 <= i < |lines| && ParseAnnotationLine(lines[i]).Some? && ParseAnnotationLine(lines[i]).value.0 == k
  }

  /** Keys come only from accepted lines, and every accepted line's key is present. */
  lemma {:induction false} AnnotationKeys(lines: seq<string>, k: string)
    ensures k in AnnotationsOf(lines) <==> exists i :: KeyAt(lines, i, k)
  {
    if |lines| > 0 {
      var init := lines[..|lines| - 1];
      var last := |lines| - 1;
      AnnotationKeys(init, k);
      forall i | KeyAt(init, i, k)
        ensures KeyAt(lines, i, k)
      {
        assert init[i] == lines[i];
      }
      forall i | KeyAt(lines, i, k) && i < |init|
        ensures KeyAt(init, i, k)
      {
        assert init[i] == lines[i];
      }
      if KeyAt(lines, last, k) {
        assert k in AnnotationsOf(lines);
      } else {
        assert (exists i :: KeyAt(lines, i, k)) ==> exists i :: KeyAt(init, i, k);
      }
    }
  }

  /** Each key holds the value of the last accepted line with that key. */
  lemma {:induction false} AnnotationsLastWins(lines: seq<string>, i: nat)
    requires LastWithItsKey(lines, i)
    ensures ParseAnnotationLine(lines[i]).value.0 in AnnotationsOf(lines)
    ensures AnnotationsOf(lines)[ParseAnnotationLine(lines[i]).value.0] == ParseAnnotationLine(lines[i]).value.1
  {
    var kv := ParseAnnotationLine(lines[i]).value;
    AnnotationKeys(lines, kv.0);
    assert KeyAt(lines, i, kv.0);
    var init := lines[..|lines| - 1];
    if i < |lines| - 1 {
      assert init[i] == lines[i];
      forall j | i < j < |init| && ParseAnnotationLine(init[j]).Some?
        ensures ParseAnnotationLine(init[j]).value.0 != kv.0
      {
        assert init[j] == lines[j];
      }
      assert LastWithItsKey(init, i);
      AnnotationsLastWins(init, i);
    }
  }

  /** A rejected line leaves the dictionary as it was. */
  lemma RejectedLineIgnored(lines: seq<string>, line: string)
    requires Count(RStrip(line), '=') != 1
    ensures AnnotationsOf(lines + [line]) == AnnotationsOf(lines)
  {
    AnnotationLineAccepted(line);
    assert (lines + [line])[..|lines|] == lines;
  }

  // ---------------------------------------------------------------------------
  // SELDON_DEBUG
  // ---------------------------------------------------------------------------

  /**
   * The debug switch of `main`: a truthy `SELDON_DEBUG` parameter is popped and
   * turns debug on; a falsy or missing one leaves the parameters as they are.
   * `truthy` is Python's truth value of a converted parameter.
   */
  method ExtractDebug<P>(parameters: map<Option<string>, P>, truthy: P -> bool)
    returns (remaining: map<Option<string>, P>, debug: bool)
    ensures debug <==> Some(DEBUG_PARAMETER) in parameters && truthy(parameters[Some(DEBUG_PARAMETER)])
    ensures Some(DEBUG_PARAMETER) !in remaining || !debug
    ensures forall k :: k != Some(DEBUG_PARAMETER) ==> (k in remaining <==> k in parameters)
    ensures forall k :: k in remaining ==> k in parameters && remaining[k] == parameters[k]
    ensures !debug ==> remaining == parameters
  {
    remaining := parameters;
    debug := false;
    var key := Some(DEBUG_PARAMETER);
    if key in remaining && truthy(remaining[key]) {
      remaining := remaining - {key};
      debug := true;
    }
  }
}
