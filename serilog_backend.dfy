/**
  A description of the structured-logging backend as the adapter sees it: the
  loggers it derives, its event levels, and the call the adapter makes on it.
  Emission, rendering and sinks are the backend's and are not modelled.
 */
module Serilog {
  import opened Clr

  /** A backend logger: a shared base logger, or one enriched with a source context. */
  datatype Logger = Base(id: nat) | ForContext(parent: Logger, source: ClrType)

  datatype LogEventLevel = Verbose | Debug | Information | Warning | Error | Fatal

  /** The exception handed to an error-aware overload: an existing object, or a new AggregateException over inner exceptions. */
  datatype ExceptionRef = Existing(value: Value) | NewAggregate(inner: seq<Value>)
  {
    /** The run-time class of the exception reference (undefined meaning for a null reference). */
    function TypeOf(): ClrType
    {
      match this
      case Existing(v) => if v.Obj? then v.ty else ObjectType
      case NewAggregate(_) => AggregateExceptionType
    }
  }

  /** Which of the backend's two overloads of a level method is called. */
  datatype Overload = Plain | WithException(exception: ExceptionRef)

  /** One call made on the backend: `target.<level>([exception,] message, args)`. */
  datatype BackendCall = BackendCall(target: Logger, level: LogEventLevel, overload: Overload, message: string, args: ObjArray)
}
