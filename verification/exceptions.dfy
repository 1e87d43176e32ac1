/** The exception demonstrations of `examples/exceptions/exceptions_demo.cpp`: the
    standard exception hierarchy with the two custom classes, first-match catch
    clauses, the classification done by `processData`, the rethrow in `riskyOperation`,
    and the strong guarantee of `safeOperation`. A thrown exception is a value. */
module Exceptions {
  import opened Wrappers

  /** The exception classes the file throws or catches. */
  datatype ExceptionClass =
    | StdException
    | LogicError
    | InvalidArgument
    | InvalidInputException
    | OutOfRange
    | RuntimeError
    | DivisionByZeroException

  /** The class together with every class it derives from. */
  function Ancestry(c: ExceptionClass): set<ExceptionClass>
  {
    match c
    case StdException => {StdException}
    case LogicError => {LogicError, StdException}
    case InvalidArgument => {InvalidArgument, LogicError, StdException}
    case InvalidInputException => {InvalidInputException, InvalidArgument, LogicError, StdException}
    case OutOfRange => {OutOfRange, LogicError, StdException}
    case RuntimeError => {RuntimeError, StdException}
    case DivisionByZeroException => {DivisionByZeroException, RuntimeError, StdException}
  }

  /** A `catch (const base&)` clause accepts `c`. */
  predicate IsA(c: ExceptionClass, base: ExceptionClass)
  {
    base in Ancestry(c)
  }

  /** Every exception is a `std::exception`, and derivation is transitive. */
  lemma HierarchyIsOrdered(a: ExceptionClass, b: ExceptionClass, c: ExceptionClass)
    ensures IsA(a, StdException) && IsA(a, a)
    ensures IsA(a, b) && IsA(b, c) ==> IsA(a, c)
  {
  }

  datatype Thrown = Thrown(cls: ExceptionClass, what: string)

  /** The catch clauses of a `try`, tried in order: the index of the first that accepts
      the exception, or nothing when it propagates. */
  function Catch(handlers: seq<ExceptionClass>, e: Thrown): (r: Option<nat>)
    ensures r.None? <==> forall i :: 0 <= i < |handlers| ==> !IsA(e.cls, handlers[i])
    ensures r.Some? ==> r.value < |handlers| && IsA(e.cls, handlers[r.value])
                        && forall i :: 0 <= i < r.value ==> !IsA(e.cls, handlers[i])
    decreases |handlers|
  {
    if |handlers| == 0 then None
    else if IsA(e.cls, handlers[0]) then Some(0)
    else match Catch(handlers[1..], e)
      case None => None
      case Some(i) => Some(i + 1)
  }

  /** `divide`: a zero denominator throws `DivisionByZeroException`. */
  function Divide(numerator: real, denominator: real): (r: Result<real, Thrown>)
    ensures r.Err? <==> denominator == 0.0
    ensures r.Err? ==> r.error.cls == DivisionByZeroException
    ensures r.Ok? ==> r.value * denominator == numerator
  {
    if denominator == 0.0 then Err(Thrown(DivisionByZeroException, "Cannot divide by zero"))
    else Ok(numerator / denominator)
  }

  /** `processData`: the value is processed (no exception) or one of three is thrown. */
  function ProcessData(value: int): (r: Option<Thrown>)
    ensures r.None? <==> 1 <= value <= 100
  {
    if value < 0 then Some(Thrown(InvalidInputException, "Negative values are not allowed"))
    else if value == 0 then Some(Thrown(RuntimeError, "Zero is not a valid input for this operation"))
    else if value > 100 then Some(Thrown(OutOfRange, "Value exceeds maximum allowed (100)"))
    else None
  }

  /** The catch clauses of `demonstrateMultipleCatchBlocks`, in order. */
  const DemoHandlers: seq<ExceptionClass> := [InvalidInputException, RuntimeError, OutOfRange, StdException]

  /** Each failure of `processData` lands in its own handler: negative values in the
      `InvalidInputException` one, zero in the `runtime_error` one, values above 100 in
      the `out_of_range` one; the catch-all is never reached. */
  lemma ProcessDataHandlers(value: int)
    ensures value < 0 ==> Catch(DemoHandlers, ProcessData(value).value) == Some(0)
    ensures value == 0 ==> Catch(DemoHandlers, ProcessData(value).value) == Some(1)
    ensures value > 100 ==> Catch(DemoHandlers, ProcessData(value).value) == Some(2)
  {
  }

  /** `vector::at`: an index outside the vector throws `out_of_range`. */
  function At(data: seq<int>, index: int): (r: Result<int, Thrown>)
    ensures r.Ok? <==> 0 <= index < |data|
    ensures r.Ok? ==> r.value == data[index]
    ensures r.Err? ==> r.error.cls == OutOfRange
  {
    if 0 <= index < |data| then Ok(data[index])
    else Err(Thrown(OutOfRange, "vector::_M_range_check"))
  }

  /** `riskyOperation`: reads index 10 of `{1, 2, 3}`, catches the `out_of_range` and
      throws it again. */
  function RiskyOperation(): (r: Option<Thrown>)
    ensures r.Some? && r.value.cls == OutOfRange
  {
    var data := [1, 2, 3];
    match At(data, 10)
    case Ok(_) => None
    case Err(e) => Some(e)
  }

  /** The rethrown exception reaches the caller's `out_of_range` clause, not its
      catch-all. */
  lemma RiskyOperationPropagates()
    ensures Catch([OutOfRange, StdException], RiskyOperation().value) == Some(0)
  {
  }

  /** `safeOperation`: push `value`, fail on 999, otherwise push `2 * value`; on
      failure the backup is restored and the exception rethrown. */
  function SafeOperation(data: seq<int>, value: int): (r: (seq<int>, Option<Thrown>))
    ensures r.1.Some? <==> value == 999
    ensures r.1.Some? ==> r.0 == data
    ensures r.1.None? ==> |r.0| == |data| + 2 && r.0[..|data|] == data
                          && r.0[|data|] == value && r.0[|data| + 1] == 2 * value
  {
    var backup := data;
    var pushed := data + [value];
    if value == 999 then (backup, Some(Thrown(RuntimeError, "Simulated failure")))
    else (pushed + [value * 2], None)
  }

  /** Calls of `safeOperation` in turn, each failure caught by the caller. */
  function SafeOperations(data: seq<int>, values: seq<int>): seq<int>
    decreases |values|
  {
    if |values| == 0 then data else SafeOperations(SafeOperation(data, values[0]).0, values[1..])
  }

  /** What the calls leave behind: the pair `v, 2v` of every call that succeeded, in
      order; the failed calls leave no trace. */
  function Effects(values: seq<int>): seq<int>
  {
    if |values| == 0 then []
    else (if values[0] == 999 then [] else [values[0], 2 * values[0]]) + Effects(values[1..])
  }

  lemma {:induction false} SafeOperationsEffects(data: seq<int>, values: seq<int>)
    ensures SafeOperations(data, values) == data + Effects(values)
    decreases |values|
  {
    if |values| > 0 {
      var next := SafeOperation(data, values[0]).0;
      SafeOperationsEffects(next, values[1..]);
      if values[0] != 999 {
        assert next == data + [values[0], 2 * values[0]];
      }
    }
  }

  /** `demonstrateNothrowGuarantee`: `{1, 2, 3}` becomes `{1, 2, 3, 4, 8}`, and the
      failing call with 999 leaves it so. */
  lemma SafeOperationDemo()
    ensures SafeOperation([1, 2, 3], 4) == ([1, 2, 3, 4, 8], None)
    ensures SafeOperation([1, 2, 3, 4, 8], 999).0 == [1, 2, 3, 4, 8]
  {
    assert [1, 2, 3] + [4] + [4 * 2] == [1, 2, 3, 4, 8];
  }
}
