/**
  The Rebus `ILog` implementation on top of Serilog: the factory that derives a
  context logger per type, and the leveled calls that decide, per call, which
  backend overload receives the message and its arguments.
 */
module RebusSerilog {
  import opened Wrappers
  import opened Clr
  import Serilog
  import opened ExceptionExtraction

  /** The factory holds the one shared base logger every context logger is derived from. */
  datatype Factory = SerilogLoggerFactory(baseLogger: Serilog.Logger)

  /** An `ILog` bound to one backend logger, fixed at construction. */
  datatype SerilogLogger = SerilogLogger(logger: Serilog.Logger)

  /** The leveled methods of Rebus's `ILog` that scan their arguments. */
  datatype RebusLevel = Debug | Info | Warn | Error

  /** A new `ILog` over the base logger enriched with the requesting type as its source context. */
  function GetLogger(factory: Factory, context: ClrType): (log: SerilogLogger)
    ensures log.logger.ForContext? && log.logger.parent == factory.baseLogger
    ensures log.logger.source == context
  {
    SerilogLogger(Serilog.ForContext(factory.baseLogger, context))
  }

  /** Equal contexts give equal loggers, distinct contexts distinct ones. */
  lemma GetLoggerSeparatesContexts(factory: Factory, c1: ClrType, c2: ClrType)
    ensures GetLogger(factory, c1) == GetLogger(factory, c2) <==> c1 == c2
  {
  }

  /** The fixed level mapping; it never reaches the backend's Verbose or Fatal. */
  function LevelOf(level: RebusLevel): (l: Serilog.LogEventLevel)
    ensures l != Serilog.LogEventLevel.Verbose && l != Serilog.LogEventLevel.Fatal
  {
    match level
    case Debug => Serilog.LogEventLevel.Debug
    case Info => Serilog.LogEventLevel.Information
    case Warn => Serilog.LogEventLevel.Warning
    case Error => Serilog.LogEventLevel.Error
  }

  /** Each Rebus level has its own backend level: no two methods write at the same level. */
  lemma LevelMappingIsInjective(a: RebusLevel, b: RebusLevel)
    ensures LevelOf(a) == LevelOf(b) <==> a == b
  {
  }

  /**
    The shared shape of `Debug`, `Info`, `Warn` and `Error(message, objs)`:
    extract, then call the plain overload when nothing was found and the
    error-aware overload otherwise, always with the original message and the
    original, unfiltered arguments. A null element makes extraction throw, and
    then no backend call is made.
   */
  function Dispatch(log: SerilogLogger, level: RebusLevel, message: string, objs: ObjArray): (r: Result<Serilog.BackendCall, Fault>)
    ensures r.Failure? <==> objs.Array? && |objs.items| > 0 && Value.Null in objs.items
    ensures r.Failure? ==> r.error == NullReferenceException
    ensures r.Success? ==> r.value.target == log.logger && r.value.level == LevelOf(level)
    ensures r.Success? ==> r.value.message == message && r.value.args == objs
    ensures r.Success? ==> (r.value.overload.Plain? <==> ArgExceptionCount(objs) == 0)
    ensures r.Success? && r.value.overload.WithException? ==> IsExceptionType(r.value.overload.exception.TypeOf())
  {
    match ExtractException(objs)
    case Failure(e) => Failure(e)
    case Success(None) => Success(Serilog.BackendCall(log.logger, LevelOf(level), Serilog.Plain, message, objs))
    case Success(Some(exception)) =>
      Success(Serilog.BackendCall(log.logger, LevelOf(level), Serilog.WithException(exception), message, objs))
  }

  function Debug(log: SerilogLogger, message: string, objs: ObjArray): (r: Result<Serilog.BackendCall, Fault>)
    ensures r.Success? ==> r.value.level == Serilog.LogEventLevel.Debug && r.value.target == log.logger
  {
    Dispatch(log, RebusLevel.Debug, message, objs)
  }

  function Info(log: SerilogLogger, message: string, objs: ObjArray): (r: Result<Serilog.BackendCall, Fault>)
    ensures r.Success? ==> r.value.level == Serilog.LogEventLevel.Information && r.value.target == log.logger
  {
    Dispatch(log, RebusLevel.Info, message, objs)
  }

  function Warn(log: SerilogLogger, message: string, objs: ObjArray): (r: Result<Serilog.BackendCall, Fault>)
    ensures r.Success? ==> r.value.level == Serilog.LogEventLevel.Warning && r.value.target == log.logger
  {
    Dispatch(log, RebusLevel.Warn, message, objs)
  }

  function Error(log: SerilogLogger, message: string, objs: ObjArray): (r: Result<Serilog.BackendCall, Fault>)
    ensures r.Success? ==> r.value.level == Serilog.LogEventLevel.Error && r.value.target == log.logger
  {
    Dispatch(log, RebusLevel.Error, message, objs)
  }

  /**
    `Error(exception, message, objs)`: the caller's exception goes to the
    error-aware overload as given, and the arguments are not looked at, so it
    cannot throw. The parameter's static type admits an exception or null.
   */
  function ErrorWithException(log: SerilogLogger, exception: Value, message: string, objs: ObjArray): (call: Serilog.BackendCall)
    requires exception.Null? || IsExceptionValue(exception)
    ensures call.target == log.logger && call.level == Serilog.LogEventLevel.Error
    ensures call.overload == Serilog.WithException(Serilog.Existing(exception))
    ensures call.message == message && call.args == objs
  {
    Serilog.BackendCall(log.logger, Serilog.LogEventLevel.Error, Serilog.WithException(Serilog.Existing(exception)), message, objs)
  }

  /** A null or empty argument array goes to the plain overload with the arguments as given. */
  lemma NoArgumentsGoToPlainOverload(log: SerilogLogger, level: RebusLevel, message: string, objs: ObjArray)
    requires objs.NullArray? || objs.items == []
    ensures Dispatch(log, level, message, objs) == Success(Serilog.BackendCall(log.logger, LevelOf(level), Serilog.Plain, message, objs))
  {
  }

  /** Arguments without nulls and without exceptions pass through unchanged to the plain overload. */
  lemma NoExceptionPassesThrough(log: SerilogLogger, level: RebusLevel, message: string, items: seq<Value>)
    requires Value.Null !in items
    requires forall j :: 0 <= j < |items| ==> !IsExceptionValue(items[j])
    ensures Dispatch(log, level, message, Array(items)) == Success(Serilog.BackendCall(log.logger, LevelOf(level), Serilog.Plain, message, Array(items)))
  {
    NoExceptionCountsZero(items);
  }

  /** A single exception argument is handed over itself, with the arguments still containing it. */
  lemma SingleExceptionIsForwarded(log: SerilogLogger, level: RebusLevel, message: string, items: seq<Value>, i: nat)
    requires Value.Null !in items
    requires i < |items| && IsExceptionValue(items[i])
    requires forall j :: 0 <= j < |items| && j != i ==> !IsExceptionValue(items[j])
    ensures Dispatch(log, level, message, Array(items))
            == Success(Serilog.BackendCall(log.logger, LevelOf(level), Serilog.WithException(Serilog.Existing(items[i])), message, Array(items)))
  {
    SingleExceptionIsNotWrapped(items, i);
  }

  /**
    Several exception arguments are handed over as one aggregate of exactly
    those exceptions in argument order, with the arguments still containing them.
   */
  lemma SeveralExceptionsAreAggregated(log: SerilogLogger, level: RebusLevel, message: string, items: seq<Value>, s: seq<Value>)
    requires Value.Null !in items && ExceptionCount(items) >= 2
    requires IsSubsequence(s, items) && AllExceptions(s) && |s| == ExceptionCount(items)
    ensures Dispatch(log, level, message, Array(items))
            == Success(Serilog.BackendCall(log.logger, LevelOf(level), Serilog.WithException(Serilog.NewAggregate(s)), message, Array(items)))
  {
    AggregateHoldsExactlyTheExceptions(items, s);
  }

  /**
    The explicit overload forwards its own exception even when the arguments
    hold a different single exception, which `Error(message, objs)` would have
    forwarded instead, or a null, on which `Error(message, objs)` throws.
   */
  lemma ExplicitErrorIgnoresArguments(log: SerilogLogger, exception: Value, message: string, items: seq<Value>, i: nat)
    requires exception.Null? || IsExceptionValue(exception)
    requires Value.Null !in items
    requires i < |items| && IsExceptionValue(items[i]) && items[i] != exception
    requires forall j :: 0 <= j < |items| && j != i ==> !IsExceptionValue(items[j])
    ensures ErrorWithException(log, exception, message, Array(items)).overload.exception.value == exception
    ensures Error(log, message, Array(items))
            == Success(Serilog.BackendCall(log.logger, Serilog.LogEventLevel.Error, Serilog.WithException(Serilog.Existing(items[i])), message, Array(items)))
    ensures ErrorWithException(log, exception, message, Array(items + [Value.Null])).overload.exception.value == exception
    ensures Error(log, message, Array(items + [Value.Null])).Failure?
  {
    SingleExceptionIsForwarded(log, RebusLevel.Error, message, items, i);
    assert Value.Null in items + [Value.Null];
  }
}
