# Rebus.Serilog logging adapter — Dafny model

Rebus logs through its own small `ILog` abstraction. `SerilogLoggerFactory`
implements it on top of a Serilog `ILogger`. This project models that file:

- the factory derives one context logger per requesting type from a single base
  logger (`GetLogger`);
- each leveled call (`Debug`, `Info`, `Warn`, `Error(message, objs)`) scans its
  `params object[]` arguments for exceptions (`ExtractException`);
- it then calls the backend's plain overload `(message, args)` or its
  error-aware overload `(exception, message, args)` at the mapped Serilog level;
- `Error(exception, message, objs)` forwards its exception directly, without
  scanning.

Files and modules:

- `wrappers.dfy` (`Wrappers`): `Option` for "no exception" and `Result` for the
  exceptions the adapter's own code throws.
- `clr.dfy` (`Clr`): the run-time types. A class has a chain of base classes.
  Matching is `IsSubclassOf`, which is strict as it is in reflection, plus
  equality with `Exception`. It also holds argument values (`Null` or an object
  with a class and an identity), the possibly-null argument array `ObjArray`,
  and the faults `NullReferenceException` and `InvalidCastException`.
- `serilog_backend.dfy` (`Serilog`): a backend call is a value. It records the
  target logger, the level, which overload is used (and with which exception),
  the message template and the arguments.
- `exception_extraction.dfy` (`ExceptionExtraction`): the LINQ scan, the
  extraction as intended, the extraction as written, and their properties.
- `rebus_serilog.dfy` (`RebusSerilog`): the factory, the level mapping, the
  leveled dispatch and the explicit-exception `Error` overload.

A null element in a non-empty argument array is modelled as an explicit
failure, `Failure(NullReferenceException)`. The scan reads the run-time type of
every element, and building the list visits all of them. So a null anywhere
throws, and no backend call is made. A null array, or an empty one, is not
scanned. It goes to the plain overload unchanged.

The four leveled methods have the same body except for the backend method they
call. `Dispatch` models that body once, with the Rebus level as a parameter.
`Debug`, `Info`, `Warn` and `Error` are `Dispatch` at their own level.

## Model

| member | source | states |
|---|---|---|
| `Clr.ExceptionTypeIffInAncestry` | Rebus.Serilog/Serilog/SerilogLoggerFactory.cs:102 | an argument's type matches exactly when `Exception` is the type itself or one of its base classes |
| `Clr.ExceptionTestIsPolymorphic` | Rebus.Serilog/Serilog/SerilogLoggerFactory.cs:102 | every class deriving, directly or transitively, from a matched class is matched too |
| `Clr.SubclassIrreflexive` | Rebus.Serilog/Serilog/SerilogLoggerFactory.cs:102 | the subclass test is strict, so `Exception` itself is matched only through the separate equality test |
| `Clr.SubclassTransitive` | Rebus.Serilog/Serilog/SerilogLoggerFactory.cs:102 | derivation is transitive |
| `ExceptionExtraction.WhereException` | Rebus.Serilog/Serilog/SerilogLoggerFactory.cs:101-103 | the scan throws NullReferenceException exactly when some element is null; otherwise its list holds only exceptions, as many as there are exception positions, in argument order |
| `ExceptionExtraction.ExtractException` | Rebus.Serilog/Serilog/SerilogLoggerFactory.cs:97-113 | null or empty array: no exception; throws exactly on a null element; no exception exactly when no argument is one; the single match itself exactly when there is one; an aggregate of all matches, in order, exactly when there are two or more; whatever is returned is exception-typed |
| `ExceptionExtraction.ExactExceptionSelectionUnique` | Rebus.Serilog/Serilog/SerilogLoggerFactory.cs:101-103 | an ordered selection of exception arguments that is as long as the number of exception arguments is unique, so the scan's list is fully determined |
| `ExceptionExtraction.ExactExceptionSelectionKeepsEvery` | Rebus.Serilog/Serilog/SerilogLoggerFactory.cs:101-103 | such a selection drops no exception argument |
| `ExceptionExtraction.SingleExceptionIsNotWrapped` | Rebus.Serilog/Serilog/SerilogLoggerFactory.cs:109-110 | exactly one exception argument is returned as itself, not wrapped in an aggregate |
| `ExceptionExtraction.AggregateHoldsExactlyTheExceptions` | Rebus.Serilog/Serilog/SerilogLoggerFactory.cs:101-112 | two or more exception arguments give an aggregate whose inner list is exactly the exception arguments, in argument order, none dropped |
| `ExceptionExtraction.ExtractExceptionAsWritten` | Rebus.Serilog/Serilog/SerilogLoggerFactory.cs:97-113 | as written, extraction throws exactly on a null element or on two or more exceptions; it never returns an aggregate |
| `ExceptionExtraction.AsWrittenAgreesBelowTwoExceptions` | Rebus.Serilog/Serilog/SerilogLoggerFactory.cs:99-110 | with fewer than two exceptions, a null element or a null array, the code as written and the intended extraction agree |
| `ExceptionExtraction.AsWrittenThrowsOnSeveralExceptions` | Rebus.Serilog/Serilog/SerilogLoggerFactory.cs:112 | with two or more exceptions and no null, the code as written throws InvalidCastException where an aggregate is intended |
| `ExceptionExtraction.AsWrittenTwoExceptionsExample` | Rebus.Serilog/Serilog/SerilogLoggerFactory.cs:112 | two plain exceptions: as written it throws; intended, it returns their aggregate |
| `RebusSerilog.GetLogger` | Rebus.Serilog/Serilog/SerilogLoggerFactory.cs:26-29 | the logger for a type is the shared base logger enriched with that type as its context |
| `RebusSerilog.GetLoggerSeparatesContexts` | Rebus.Serilog/Serilog/SerilogLoggerFactory.cs:28 | two requests give equal loggers exactly when they name the same type |
| `RebusSerilog.LevelOf` | Rebus.Serilog/Serilog/SerilogLoggerFactory.cs:40-95 | the level mapping never produces Verbose or Fatal |
| `RebusSerilog.LevelMappingIsInjective` | Rebus.Serilog/Serilog/SerilogLoggerFactory.cs:40-95 | Debug, Info, Warn and Error map to four distinct backend levels |
| `RebusSerilog.Dispatch` | Rebus.Serilog/Serilog/SerilogLoggerFactory.cs:40-95 | a leveled call throws exactly on a null element; otherwise it calls its own logger at its mapped level with the unchanged message and the unfiltered arguments; it uses the plain overload exactly when no argument is an exception, and otherwise hands the backend an exception-typed value |
| `RebusSerilog.Debug` | Rebus.Serilog/Serilog/SerilogLoggerFactory.cs:40-51 | Debug writes at the Debug level on its own logger |
| `RebusSerilog.Info` | Rebus.Serilog/Serilog/SerilogLoggerFactory.cs:53-64 | Info writes at the Information level on its own logger |
| `RebusSerilog.Warn` | Rebus.Serilog/Serilog/SerilogLoggerFactory.cs:66-77 | Warn writes at the Warning level on its own logger |
| `RebusSerilog.Error` | Rebus.Serilog/Serilog/SerilogLoggerFactory.cs:84-95 | Error(message, objs) writes at the Error level on its own logger |
| `RebusSerilog.ErrorWithException` | Rebus.Serilog/Serilog/SerilogLoggerFactory.cs:79-82 | the explicit overload always calls the error-aware overload at the Error level, with the given exception, message and arguments unchanged, and cannot fail |
| `RebusSerilog.NoArgumentsGoToPlainOverload` | Rebus.Serilog/Serilog/SerilogLoggerFactory.cs:99 | a null or empty argument array goes to the plain overload with the message and arguments as given |
| `RebusSerilog.NoExceptionPassesThrough` | Rebus.Serilog/Serilog/SerilogLoggerFactory.cs:101-107 | non-null arguments with no exception among them go to the plain overload with exactly the original message and arguments |
| `RebusSerilog.SingleExceptionIsForwarded` | Rebus.Serilog/Serilog/SerilogLoggerFactory.cs:47-50 | a single exception argument goes to the error-aware overload as itself; the arguments still contain it |
| `RebusSerilog.SeveralExceptionsAreAggregated` | Rebus.Serilog/Serilog/SerilogLoggerFactory.cs:84-95 | several exception arguments go to the error-aware overload as one aggregate of exactly those exceptions in order; the arguments still contain them |
| `RebusSerilog.ExplicitErrorIgnoresArguments` | Rebus.Serilog/Serilog/SerilogLoggerFactory.cs:79-82 | the explicit overload forwards its own exception when the arguments hold a different one, which the scanning overload would forward instead, and when they hold a null, on which the scanning overload throws |

## Left out

- `SerilogLoggerFactory(LoggerConfiguration)` (lines 16-19): `CreateLogger` is a backend call. The factory is modelled from the base logger it produces, which is the constructor at lines 21-24.
- Emission: Serilog's own handling of a call is not modelled. That covers template rendering, sinks, level filtering and what it does with a null exception or a null array. The model stops at the call description `BackendCall`.
- Caching of loggers per type: this file has none. `GetLogger` builds a new logger on every request, and any caching belongs to `AbstractRebusLoggerFactory`, which is not part of this model. Thread safety of such a cache is a concurrency concern and is also not modelled.
- Reflection: `GetType` and `GetTypeInfo().IsSubclassOf` are replaced by the `ClrType` base-class chain. Interfaces, generics and the rest of the CLR type system are not modelled.
- `AggregateException`: only its run-time class and its ordered inner exceptions are modelled. Its message and its flattening are not.
- The behaviour a caller sees when the code as written throws is modelled only at the level of `ExtractExceptionAsWritten`. `Dispatch` uses the corrected extraction, and a call that fails as written would throw out of the leveled method before the backend is reached.

## Findings

| source | as written | input that shows it | evidently intended | confidence | as-written member | corrected member |
|---|---|---|---|---|---|---|
| Rebus.Serilog/Serilog/SerilogLoggerFactory.cs:112 | `(IEnumerable<Exception>) exceptions` casts the `List<object>` built at lines 101-103. The cast compiles, because the list class is not sealed, but at run time `List<object>` does not implement `IEnumerable<Exception>`: covariance only converts to wider element types. So the cast throws `InvalidCastException`. | `Error("failed", ex1, ex2)` with two exception arguments | an `AggregateException` whose inner exceptions are `ex1, ex2`, handed to the error-aware overload, as the code's shape and the adapter's design describe | high; not executed | `ExceptionExtraction.AsWrittenThrowsOnSeveralExceptions` | `ExceptionExtraction.AggregateHoldsExactlyTheExceptions` |
