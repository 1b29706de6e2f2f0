/** The operation-function dispatcher of the declarative schema changer
    (pkg/sql/schemachanger/scplan/internal/opgen/op_funcs.go): the index from
    elements to their targets, the signature check and compilation of the op
    functions registered for one element type, the compiled function that
    calls them, and the builders of event records.

    Go reflection is replaced by an explicit description of each registered
    value (its parameter types, its result types and which operation
    interfaces the result type implements) and by a Dafny function value for
    its behaviour. Panics are results of kind `Panic`. */
module OpGen {

  datatype Option<T> = None | Some(value: T)

  /** How a call panics: with an errors.AssertionFailedf value, by indexing
      a slice out of range, or in reflect.Value.Call when an argument does not
      fit the parameters the function declares. */
  datatype PanicKind = AssertionFailed | IndexOutOfRange | BadCallArgument

  /** What a call that can panic yields. */
  datatype Outcome<T> = Ok(value: T) | Panic(kind: PanicKind)

  /** The errors checkOpFunc and makeOpsFunc return. UnknownCategory is the
      errors.AssertionFailedf value checkOpFunc returns (not panics) when the
      result type implements none of the three operation kinds. */
  datatype RegistrationError = NotAFunc | BadParams | BadReturn | UnknownCategory | ConflictingTypes

  datatype Result<T> = Success(value: T) | Failure(error: RegistrationError)

  // ----- The schema-change data the dispatcher reads -----

  /** A schema element. `kind` is its dynamic Go type; two elements are the
      same key of the element map exactly when they are equal here (Go
      compares these interface values by pointer, which `id` stands for). */
  datatype Element = Element(kind: string, id: nat)

  /** The element wrapped for serialization. */
  datatype ElementProto = ElementProto(element: Element)

  datatype Status = Status(code: nat)

  datatype TargetMetadata = TargetMetadata(subWorkID: nat, sourceElementID: nat, statementID: nat)

  datatype Target = Target(elementProto: ElementProto, metadata: TargetMetadata, targetStatus: Status) {
    /** scpb.Target.Element(): the element inside the proto. */
    function Elem(): Element {
      elementProto.element
    }
  }

  datatype Authorization = Authorization(userName: string, appName: string)

  datatype Statement = Statement(statement: string, redactedStatement: string, statementTag: string)

  datatype TargetState = TargetState(targets: seq<Target>, statements: seq<Statement>, authorization: Authorization)

  datatype CurrentState = CurrentState(targetState: TargetState, current: seq<Status>, inRollback: bool)

  /** The target state, the index from each element to the position of its
      target, and the rollback flag. */
  datatype TargetsWithElementMap = TargetsWithElementMap(
    targetState: TargetState,
    elementToTarget: map<Element, int>,
    inRollback: bool)

  /** No two targets name the same element. */
  predicate DistinctElements(targets: seq<Target>) {
    forall i, j :: 0 <= i < j < |targets| ==> targets[i].Elem() != targets[j].Elem()
  }

  /** `m` maps the element of every target to that target's position, and
      holds nothing else. */
  predicate IndexesTargets(m: map<Element, int>, targets: seq<Target>) {
    && (forall i :: 0 <= i < |targets| ==> targets[i].Elem() in m && m[targets[i].Elem()] == i)
    && (forall e :: e in m ==> 0 <= m[e] < |targets| && targets[m[e]].Elem() == e)
  }

  /** An index of all targets exists only when their elements are distinct. */
  lemma IndexMeansDistinct(m: map<Element, int>, targets: seq<Target>)
    requires IndexesTargets(m, targets)
    ensures DistinctElements(targets)
  {
  }

  /** makeTargetsWithElementMap: index every target by its element, panicking
      on the second target of an element. */
  method MakeTargetsWithElementMap(cs: CurrentState) returns (r: Outcome<TargetsWithElementMap>)
    ensures r.Ok? <==> DistinctElements(cs.targetState.targets)
    ensures r.Panic? ==> r.kind == AssertionFailed
    ensures r.Ok? ==> && r.value.targetState == cs.targetState
                      && r.value.inRollback == cs.inRollback
                      && IndexesTargets(r.value.elementToTarget, cs.targetState.targets)
  {
    var targets := cs.targetState.targets;
    var elementToTarget: map<Element, int> := map[];
    for i := 0 to |targets|
      invariant DistinctElements(targets[..i])
      invariant IndexesTargets(elementToTarget, targets[..i])
    {
      var e := targets[i].Elem();
      if e in elementToTarget {
        var prev := elementToTarget[e];
        assert targets[prev].Elem() == e && prev < i;
        return Panic(AssertionFailed);
      }
      elementToTarget := elementToTarget[e := i];
    }
    assert targets[..|targets|] == targets;
    return Ok(TargetsWithElementMap(cs.targetState, elementToTarget, cs.inRollback));
  }

  // ----- Op functions and their compilation -----

  /** The kinds of operation (scop.Type); NoType is the zero value. */
  datatype OpType = NoType | MutationType | ValidationType | BackfillType

  /** The interfaces of package scop a result type can implement. */
  datatype OpInterface = AnyOp | MutationOp | ValidationOp | BackfillOp

  /** A Go type, identified by its name. */
  datatype GoType = GoType(name: string)

  /** A result type: its name, whether it is a pointer type, and the
      operation interfaces it implements. */
  datatype ResultType = ResultType(name: string, isPointer: bool, implements: set<OpInterface>)

  /** An operation an op function emits. */
  datatype Op = Op(typeName: string, fields: seq<string>)

  /** A value registered as an op function: something that is not a function
      at all, or a function with its parameter and result types and its
      behaviour. The behaviour receives the targets map only when the
      function declares a second parameter; `None` stands for Go's nil. */
  datatype OpFuncValue =
    | NotFunc(kindName: string)
    | Func(params: seq<GoType>, results: seq<ResultType>,
           call: (Element, Option<TargetsWithElementMap>) -> Option<Op>)

  /** reflect.TypeOf(el) */
  function TypeOf(el: Element): GoType {
    GoType(el.kind)
  }

  /** The type *targetsWithElementMap. */
  const TargetsWithElementMapPtr := GoType("*opgen.targetsWithElementMap")

  /** The parameter lists checkOpFunc admits: the element type alone, or the
      element type and *targetsWithElementMap. */
  predicate ParamsOk(el: Element, params: seq<GoType>) {
    params == [TypeOf(el)] || params == [TypeOf(el), TargetsWithElementMapPtr]
  }

  /** Exactly one result, of a pointer type implementing scop.Op. */
  predicate ReturnsOp(results: seq<ResultType>) {
    |results| == 1 && results[0].isPointer && AnyOp in results[0].implements
  }

  /** Passes the shape checks that precede the choice of a kind. */
  predicate WellShaped(el: Element, fn: OpFuncValue) {
    fn.Func? && ParamsOk(el, fn.params) && ReturnsOp(fn.results)
  }

  /** checkOpFunc: check the shape of a registered value and find the kind of
      operation it emits, the first of Mutation, Validation, Backfill that
      its result type implements. */
  function CheckOpFunc(el: Element, fn: OpFuncValue): (r: Result<OpType>)
    ensures r == Failure(NotAFunc) <==> fn.NotFunc?
    ensures r == Failure(BadParams) <==> fn.Func? && !ParamsOk(el, fn.params)
    ensures r == Failure(BadReturn) <==> fn.Func? && ParamsOk(el, fn.params) && !ReturnsOp(fn.results)
    ensures r.Success? ==> WellShaped(el, fn) && r.value != NoType
    ensures r == Success(MutationType) <==>
      WellShaped(el, fn) && MutationOp in fn.results[0].implements
    ensures r == Success(ValidationType) <==>
      WellShaped(el, fn) && MutationOp !in fn.results[0].implements && ValidationOp in fn.results[0].implements
    ensures r == Success(BackfillType) <==>
      WellShaped(el, fn) && MutationOp !in fn.results[0].implements && ValidationOp !in fn.results[0].implements
      && BackfillOp in fn.results[0].implements
    ensures r == Failure(UnknownCategory) <==>
      WellShaped(el, fn) && MutationOp !in fn.results[0].implements && ValidationOp !in fn.results[0].implements
      && BackfillOp !in fn.results[0].implements
    ensures r != Failure(ConflictingTypes)
  {
    match fn
    case NotFunc(_) => Failure(NotAFunc)
    case Func(params, results, _) =>
      if !ParamsOk(el, params) then Failure(BadParams)
      else if |results| != 1 then Failure(BadReturn)
      else if !results[0].isPointer || AnyOp !in results[0].implements then Failure(BadReturn)
      else if MutationOp in results[0].implements then Success(MutationType)
      else if ValidationOp in results[0].implements then Success(ValidationType)
      else if BackfillOp in results[0].implements then Success(BackfillType)
      else Failure(UnknownCategory)
  }

  /** A result type implementing several kinds gets the first of them. */
  lemma FirstKindWins(el: Element, params: seq<GoType>, name: string,
                      call: (Element, Option<TargetsWithElementMap>) -> Option<Op>)
    requires ParamsOk(el, params)
    ensures CheckOpFunc(el, Func(params, [ResultType(name, true, {AnyOp, MutationOp, ValidationOp})], call))
      == Success(MutationType)
    ensures CheckOpFunc(el, Func(params, [ResultType(name, true, {AnyOp, ValidationOp, BackfillOp})], call))
      == Success(ValidationType)
  {
  }

  /** The compiled function (opsFunc): the registered values, in order. */
  datatype OpsFunc = OpsFunc(funcValues: seq<OpFuncValue>)

  /** Every value of `fns` passes checkOpFunc with the same kind. */
  predicate Compiles(el: Element, fns: seq<OpFuncValue>) {
    && (forall i :: 0 <= i < |fns| ==> CheckOpFunc(el, fns[i]).Success?)
    && (forall i :: 0 <= i < |fns| ==> CheckOpFunc(el, fns[i]) == CheckOpFunc(el, fns[0]))
  }

  /** Value `k` is the first that makeOpsFunc rejects, with error `err`: the
      ones before it pass with one kind, and `k` either fails checkOpFunc
      or passes with another kind. */
  predicate FirstRejected(el: Element, fns: seq<OpFuncValue>, k: int, err: RegistrationError) {
    && 0 <= k < |fns|
    && Compiles(el, fns[..k])
    && var c := CheckOpFunc(el, fns[k]);
       || (c.Failure? && err == c.error)
       || (c.Success? && k > 0 && c != CheckOpFunc(el, fns[0]) && err == ConflictingTypes)
  }

  /** makeOpsFunc: check every registered value in order, stop at the first
      error or at the first value whose kind differs from the earlier ones,
      and otherwise return the compiled function and the common kind. */
  method MakeOpsFunc(el: Element, fns: seq<OpFuncValue>) returns (r: Result<(OpsFunc, OpType)>)
    ensures r.Success? <==> Compiles(el, fns)
    ensures r.Success? ==> r.value.0.funcValues == fns
    ensures r.Success? ==> (fns == [] ==> r.value.1 == NoType)
    ensures r.Success? ==> forall i :: 0 <= i < |fns| ==> CheckOpFunc(el, fns[i]) == Success(r.value.1)
    ensures r.Failure? ==> exists k :: FirstRejected(el, fns, k, r.error)
  {
    var opType := NoType;
    var funcValues: seq<OpFuncValue> := [];
    for i := 0 to |fns|
      invariant funcValues == fns[..i]
      invariant Compiles(el, fns[..i])
      invariant i == 0 ==> opType == NoType
      invariant i > 0 ==> CheckOpFunc(el, fns[0]) == Success(opType)
    {
      var typ := CheckOpFunc(el, fns[i]);
      if typ.Failure? {
        assert FirstRejected(el, fns, i, typ.error);
        return Failure(typ.error);
      }
      if |funcValues| > 0 && typ.value != opType {
        assert FirstRejected(el, fns, i, ConflictingTypes);
        return Failure(ConflictingTypes);
      }
      opType := typ.value;
      funcValues := funcValues + [fns[i]];
    }
    assert fns[..|fns|] == fns;
    return Success((OpsFunc(funcValues), opType));
  }

  /** A function value whose kinds disagree with an earlier one cannot be
      compiled with it, whatever comes before or after. */
  lemma MixedKindsRejected(el: Element, fns: seq<OpFuncValue>, i: int, j: int)
    requires 0 <= i < |fns| && 0 <= j < |fns|
    requires CheckOpFunc(el, fns[i]).Success? && CheckOpFunc(el, fns[j]).Success?
    requires CheckOpFunc(el, fns[i]) != CheckOpFunc(el, fns[j])
    ensures !Compiles(el, fns)
  {
  }

  /** Calling one checked function as the compiled function does: with the
      element alone, or with the element and the targets map. */
  function Invoke(fn: OpFuncValue, e: Element, md: TargetsWithElementMap): Option<Op>
    requires fn.Func?
  {
    if |fn.params| == 1 then fn.call(e, None) else fn.call(e, Some(md))
  }

  predicate AllFuncs(fns: seq<OpFuncValue>) {
    forall i :: 0 <= i < |fns| ==> fns[i].Func?
  }

  /** What the compiled function returns: the non-nil results of the
      functions, in registration order. */
  function Emitted(fns: seq<OpFuncValue>, e: Element, md: TargetsWithElementMap): (r: seq<Op>)
    requires AllFuncs(fns)
    ensures |r| <= |fns|
  {
    if fns == [] then []
    else
      var rest := Emitted(fns[..|fns| - 1], e, md);
      match Invoke(fns[|fns| - 1], e, md)
      case None => rest
      case Some(op) => rest + [op]
  }

  /** Every function can be called with `element` (and the targets map, when
      it declares it): reflect.Value.Call panics otherwise. */
  predicate AllAccept(fns: seq<OpFuncValue>, element: Element)
    requires AllFuncs(fns)
  {
    forall i :: 0 <= i < |fns| ==> ParamsOk(element, fns[i].params)
  }

  /** The opsFunc closure returned by makeOpsFunc: call every function in
      order and keep the results that are not nil. A call whose arguments do
      not fit the function's parameters panics. */
  method RunOpsFunc(f: OpsFunc, element: Element, md: TargetsWithElementMap) returns (ret: Outcome<seq<Op>>)
    requires AllFuncs(f.funcValues)
    ensures ret.Ok? <==> AllAccept(f.funcValues, element)
    ensures ret.Ok? ==> ret.value == Emitted(f.funcValues, element, md)
    ensures ret.Panic? ==> ret.kind == BadCallArgument
  {
    var funcValues := f.funcValues;
    var ops := [];
    for i := 0 to |funcValues|
      invariant ops == Emitted(funcValues[..i], element, md)
      invariant forall j :: 0 <= j < i ==> ParamsOk(element, funcValues[j].params)
    {
      assert funcValues[..i + 1][..i] == funcValues[..i];
      var fn := funcValues[i];
      if !ParamsOk(element, fn.params) {
        return Panic(BadCallArgument);
      }
      var out: Option<Op>;
      if |fn.params| == 1 {
        out := fn.call(element, None);
      } else {
        out := fn.call(element, Some(md));
      }
      if out.Some? {
        ops := ops + [out.value];
      }
    }
    assert funcValues[..|funcValues|] == funcValues;
    return Ok(ops);
  }

  /** The functions compiled for an element type can be called exactly with
      elements of that type: any other element makes the compiled function
      panic. */
  lemma CompiledAcceptsItsType(el: Element, fns: seq<OpFuncValue>, element: Element)
    requires Compiles(el, fns) && fns != []
    ensures AllFuncs(fns)
    ensures AllAccept(fns, element) <==> TypeOf(element) == TypeOf(el)
  {
    CompiledAreFuncs(el, fns);
    assert WellShaped(el, fns[0]);
    if TypeOf(element) == TypeOf(el) {
      forall i | 0 <= i < |fns| ensures ParamsOk(element, fns[i].params) {
        assert WellShaped(el, fns[i]);
      }
    }
  }

  /** A successful compilation yields a function the closure can run. */
  lemma CompiledAreFuncs(el: Element, fns: seq<OpFuncValue>)
    requires Compiles(el, fns)
    ensures AllFuncs(fns)
  {
    forall i | 0 <= i < |fns| ensures fns[i].Func? {
      assert CheckOpFunc(el, fns[i]).Success?;
    }
  }

  /** The non-nil values of a list of results, in order; a reference
      definition written front to back. */
  function Present(results: seq<Option<Op>>): seq<Op> {
    if results == [] then []
    else (if results[0].Some? then [results[0].value] else []) + Present(results[1..])
  }

  lemma {:induction false} PresentAppend(results: seq<Option<Op>>, x: Option<Op>)
    ensures Present(results + [x]) == Present(results) + (if x.Some? then [x.value] else [])
  {
    if results != [] {
      assert (results + [x])[1..] == results[1..] + [x];
      PresentAppend(results[1..], x);
    }
  }

  /** The result of every function, in registration order. */
  function Results(fns: seq<OpFuncValue>, e: Element, md: TargetsWithElementMap): (r: seq<Option<Op>>)
    requires AllFuncs(fns)
    ensures |r| == |fns| && forall i :: 0 <= i < |fns| ==> r[i] == Invoke(fns[i], e, md)
  {
    seq(|fns|, i requires 0 <= i < |fns| && AllFuncs(fns) => Invoke(fns[i], e, md))
  }

  /** The compiled function returns exactly the non-nil results of its
      functions, in registration order. */
  lemma {:induction false} EmittedIsPresentResults(fns: seq<OpFuncValue>, e: Element, md: TargetsWithElementMap)
    requires AllFuncs(fns)
    ensures Emitted(fns, e, md) == Present(Results(fns, e, md))
  {
    if fns != [] {
      var pre := fns[..|fns| - 1];
      EmittedIsPresentResults(pre, e, md);
      assert Results(fns, e, md) == Results(pre, e, md) + [Invoke(fns[|fns| - 1], e, md)];
      PresentAppend(Results(pre, e, md), Invoke(fns[|fns| - 1], e, md));
    }
  }

  /** Registering more functions after others only appends their operations. */
  lemma {:induction false} EmittedConcat(a: seq<OpFuncValue>, b: seq<OpFuncValue>, e: Element, md: TargetsWithElementMap)
    requires AllFuncs(a) && AllFuncs(b)
    ensures AllFuncs(a + b)
    ensures Emitted(a + b, e, md) == Emitted(a, e, md) + Emitted(b, e, md)
    decreases |b|
  {
    if b == [] {
      assert a + b == a;
    } else {
      var b' := b[..|b| - 1];
      EmittedConcat(a, b', e, md);
      assert (a + b)[..|a + b| - 1] == a + b';
    }
  }

  /** Functions that take only the element do not see the targets map. */
  lemma {:induction false} ElementOnlyIgnoresMap(fns: seq<OpFuncValue>, e: Element, md1: TargetsWithElementMap, md2: TargetsWithElementMap)
    requires AllFuncs(fns)
    requires forall i :: 0 <= i < |fns| ==> |fns[i].params| == 1
    ensures Emitted(fns, e, md1) == Emitted(fns, e, md2)
  {
    if fns != [] {
      ElementOnlyIgnoresMap(fns[..|fns| - 1], e, md1, md2);
    }
  }

  /** Three functions of which the middle one yields nil emit the first's and
      the third's operations, in that order. */
  lemma NilResultSkipped(f1: OpFuncValue, f2: OpFuncValue, f3: OpFuncValue, e: Element, md: TargetsWithElementMap)
    requires f1.Func? && f2.Func? && f3.Func?
    requires Invoke(f1, e, md).Some? && Invoke(f2, e, md) == None && Invoke(f3, e, md).Some?
    ensures Emitted([f1, f2, f3], e, md) == [Invoke(f1, e, md).value, Invoke(f3, e, md).value]
  {
    assert [f1][..0] == [];
    assert Emitted([f1], e, md) == [Invoke(f1, e, md).value];
    assert [f1, f2][..1] == [f1];
    assert Emitted([f1, f2], e, md) == [Invoke(f1, e, md).value];
    assert [f1, f2, f3][..2] == [f1, f2];
  }

  // ----- Event builders -----

  datatype EventBase = EventBase(
    targetMetadata: TargetMetadata,
    authorization: Authorization,
    statement: string,
    statementTag: string)

  datatype LogEvent = LogEvent(eventBase: EventBase, element: ElementProto, targetStatus: Status)

  datatype StatementForDropJob = StatementForDropJob(statement: string, statementID: nat, rollback: bool)

  /** The element is in the map, its index is a position in the targets and
      the target's statement ID a position in the statements: every lookup
      the event builders make succeeds. */
  predicate Resolves(e: Element, md: TargetsWithElementMap) {
    var ts := md.targetState;
    && e in md.elementToTarget
    && 0 <= md.elementToTarget[e] < |ts.targets|
    && ts.targets[md.elementToTarget[e]].metadata.statementID < |ts.statements|
  }

  /** newLogEventBase: the target's metadata, the authorization, and the
      redacted text and tag of the target's statement. */
  function NewLogEventBase(e: Element, md: TargetsWithElementMap): (r: Outcome<EventBase>)
    ensures e !in md.elementToTarget ==> r == Panic(AssertionFailed)
    ensures r.Ok? <==> Resolves(e, md)
    ensures r.Ok? ==>
      var ts := md.targetState;
      var t := ts.targets[md.elementToTarget[e]];
      && r.value.targetMetadata == t.metadata
      && r.value.authorization == ts.authorization
      && r.value.statement == ts.statements[t.metadata.statementID].redactedStatement
      && r.value.statementTag == ts.statements[t.metadata.statementID].statementTag
  {
    if e !in md.elementToTarget then Panic(AssertionFailed)
    else
      var idx := md.elementToTarget[e];
      if !(0 <= idx < |md.targetState.targets|) then Panic(IndexOutOfRange)
      else
        var t := md.targetState.targets[idx];
        if t.metadata.statementID >= |md.targetState.statements| then Panic(IndexOutOfRange)
        else
          var stmt := md.targetState.statements[t.metadata.statementID];
          Ok(EventBase(t.metadata, md.targetState.authorization, stmt.redactedStatement, stmt.statementTag))
  }

  /** newLogEventOp: the base event with the target's element and status. */
  function NewLogEventOp(e: Element, md: TargetsWithElementMap): (r: Outcome<LogEvent>)
    ensures e !in md.elementToTarget ==> r == Panic(AssertionFailed)
    ensures r.Ok? <==> Resolves(e, md)
    ensures r.Ok? ==>
      var t := md.targetState.targets[md.elementToTarget[e]];
      && Ok(r.value.eventBase) == NewLogEventBase(e, md)
      && r.value.element == t.elementProto
      && r.value.targetStatus == t.targetStatus
  {
    if e !in md.elementToTarget then Panic(AssertionFailed)
    else
      var idx := md.elementToTarget[e];
      if !(0 <= idx < |md.targetState.targets|) then Panic(IndexOutOfRange)
      else
        var t := md.targetState.targets[idx];
        match NewLogEventBase(e, md)
        case Panic(k) => Panic(k)
        case Ok(base) => Ok(LogEvent(base, t.elementProto, t.targetStatus))
  }

  /** statementForDropJob: the target's statement with markers stripped, its
      ID and the rollback flag. It does not check that the element is in the
      map: an absent element reads index 0. */
  function StatementForDropJobOf(e: Element, md: TargetsWithElementMap, stripMarkers: string -> string): (r: Outcome<StatementForDropJob>)
    ensures var idx := if e in md.elementToTarget then md.elementToTarget[e] else 0;
      var ts := md.targetState;
      r.Ok? <==> 0 <= idx < |ts.targets| && ts.targets[idx].metadata.statementID < |ts.statements|
    ensures r.Panic? ==> r.kind == IndexOutOfRange
    ensures r.Ok? ==>
      var idx := if e in md.elementToTarget then md.elementToTarget[e] else 0;
      var id := md.targetState.targets[idx].metadata.statementID;
      && r.value.statementID == id
      && r.value.statement == stripMarkers(md.targetState.statements[id].redactedStatement)
      && r.value.rollback == md.inRollback
  {
    var idx := if e in md.elementToTarget then md.elementToTarget[e] else 0;
    if !(0 <= idx < |md.targetState.targets|) then Panic(IndexOutOfRange)
    else
      var stmtID := md.targetState.targets[idx].metadata.statementID;
      if stmtID >= |md.targetState.statements| then Panic(IndexOutOfRange)
      else Ok(StatementForDropJob(stripMarkers(md.targetState.statements[stmtID].redactedStatement), stmtID, md.inRollback))
  }

  // ----- The builders over an index made by MakeTargetsWithElementMap -----

  /** For every target of a well-built index, the log event is that target's:
      it succeeds exactly when the target's statement exists. */
  lemma LogEventForTarget(md: TargetsWithElementMap, i: int)
    requires IndexesTargets(md.elementToTarget, md.targetState.targets)
    requires 0 <= i < |md.targetState.targets|
    ensures var t := md.targetState.targets[i];
      var r := NewLogEventOp(t.Elem(), md);
      && (r.Ok? <==> t.metadata.statementID < |md.targetState.statements|)
      && (r.Ok? ==> && r.value.eventBase.targetMetadata == t.metadata
                    && r.value.eventBase.authorization == md.targetState.authorization
                    && r.value.element == t.elementProto
                    && r.value.targetStatus == t.targetStatus)
  {
    var t := md.targetState.targets[i];
    assert md.elementToTarget[t.Elem()] == i;
  }

  /** An element that is not among the targets of a well-built index makes
      both log-event builders panic with an assertion failure. */
  lemma LogEventForStrangerPanics(md: TargetsWithElementMap, e: Element)
    requires IndexesTargets(md.elementToTarget, md.targetState.targets)
    requires forall i :: 0 <= i < |md.targetState.targets| ==> md.targetState.targets[i].Elem() != e
    ensures NewLogEventBase(e, md) == Panic(AssertionFailed)
    ensures NewLogEventOp(e, md) == Panic(AssertionFailed)
  {
  }

  /** For every target of a well-built index, the drop-job statement is the
      target's own statement. */
  lemma DropJobStatementForTarget(md: TargetsWithElementMap, i: int, stripMarkers: string -> string)
    requires IndexesTargets(md.elementToTarget, md.targetState.targets)
    requires 0 <= i < |md.targetState.targets|
    requires md.targetState.targets[i].metadata.statementID < |md.targetState.statements|
    ensures var t := md.targetState.targets[i];
      var r := StatementForDropJobOf(t.Elem(), md, stripMarkers);
      && r.Ok?
      && r.value.statementID == t.metadata.statementID
      && r.value.statement == stripMarkers(md.targetState.statements[t.metadata.statementID].redactedStatement)
      && r.value.rollback == md.inRollback
  {
    var t := md.targetState.targets[i];
    assert md.elementToTarget[t.Elem()] == i;
  }

  /** An element absent from the map silently gets the first target's
      statement, where the log-event builders panic. */
  lemma DropJobStrangerUsesFirstTarget(md: TargetsWithElementMap, e: Element, stripMarkers: string -> string)
    requires e !in md.elementToTarget
    requires |md.targetState.targets| > 0
    requires md.targetState.targets[0].metadata.statementID < |md.targetState.statements|
    ensures StatementForDropJobOf(e, md, stripMarkers).Ok?
    ensures StatementForDropJobOf(e, md, stripMarkers).value.statementID == md.targetState.targets[0].metadata.statementID
    ensures NewLogEventBase(e, md) == Panic(AssertionFailed)
  {
  }
}
