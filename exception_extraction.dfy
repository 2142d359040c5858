/**
  Recovering the exception(s) embedded among a log call's positional arguments:
  `SerilogLogger.ExtractException` and the LINQ `Where(...).ToList()` it runs.
 */
module ExceptionExtraction {
  import opened Wrappers
  import opened Clr
  import opened Serilog

  /** Number of positions of `items` that hold an exception. */
  function ExceptionCount(items: seq<Value>): nat
  {
    if items == [] then 0
    else (if IsExceptionValue(items[0]) then 1 else 0) + ExceptionCount(items[1..])
  }

  /** The exception count of an argument array; a null array holds none. */
  function ArgExceptionCount(objs: ObjArray): nat
  {
    if objs.NullArray? then 0 else ExceptionCount(objs.items)
  }

  /** `a` can be obtained from `b` by deleting elements, keeping the order of the rest. */
  predicate IsSubsequence(a: seq<Value>, b: seq<Value>)
  {
    if a == [] then true
    else if b == [] then false
    else (a[0] == b[0] && IsSubsequence(a[1..], b[1..])) || IsSubsequence(a, b[1..])
  }

  predicate AllExceptions(s: seq<Value>)
  {
    forall v :: v in s ==> IsExceptionValue(v)
  }

  /**
    `items.Where(obj => <obj's type is Exception or derives from it>).ToList()`.
    Building the list visits every element, and reading the type of a null
    element throws, so a null anywhere fails the whole scan. Otherwise the list
    holds exactly the exception elements, in argument order.
   */
  function WhereException(items: seq<Value>): (r: Result<seq<Value>, Fault>)
    ensures r.Failure? <==> Value.Null in items
    ensures r.Failure? ==> r.error == NullReferenceException
    ensures r.Success? ==> AllExceptions(r.value)
    ensures r.Success? ==> |r.value| == ExceptionCount(items)
    ensures r.Success? ==> IsSubsequence(r.value, items)
  {
    if items == [] then Success([])
    else if items[0].Null? then Failure(NullReferenceException)
    else
      var rest := WhereException(items[1..]);
      assert items == [items[0]] + items[1..];
      if rest.Failure? then rest
      else if IsExceptionType(items[0].ty) then
        assert ([items[0]] + rest.value)[1..] == rest.value;
        Success([items[0]] + rest.value)
      else Success(rest.value)
  }

  /**
    The extraction as the adapter intends it: no exception for a null or empty
    array or when nothing matches, the single match itself, or an aggregate of
    all matches in argument order.
   */
  function ExtractException(objs: ObjArray): (r: Result<Option<ExceptionRef>, Fault>)
    ensures r.Failure? <==> objs.Array? && |objs.items| > 0 && Value.Null in objs.items
    ensures r.Failure? ==> r.error == NullReferenceException
    ensures objs.NullArray? || objs.items == [] ==> r == Success(None)
    ensures r.Success? ==> (r.value.None? <==> ArgExceptionCount(objs) == 0)
    ensures r.Success? && r.value.Some? ==> IsExceptionType(r.value.value.TypeOf())
    ensures r.Success? && r.value.Some? && r.value.value.Existing? <==>
              objs.Array? && Value.Null !in objs.items && ExceptionCount(objs.items) == 1
    ensures r.Success? && r.value.Some? && r.value.value.Existing? ==>
              IsExceptionValue(r.value.value.value) && r.value.value.value in objs.items
    ensures r.Success? && r.value.Some? && r.value.value.NewAggregate? <==>
              objs.Array? && Value.Null !in objs.items && ExceptionCount(objs.items) >= 2
    ensures r.Success? && r.value.Some? && r.value.value.NewAggregate? ==>
              var inner := r.value.value.inner;
              AllExceptions(inner) && |inner| == ExceptionCount(objs.items) && IsSubsequence(inner, objs.items)
  {
    if objs.NullArray? || |objs.items| <= 0 then Success(None)
    else
      match WhereException(objs.items)
      case Failure(e) => Failure(e)
      case Success(exceptions) =>
        if |exceptions| == 0 then Success(None)
        else if |exceptions| == 1 then
          SubsequenceMembers(exceptions, objs.items, exceptions[0]);
          Success(Some(Existing(exceptions[0])))
        else Success(Some(NewAggregate(exceptions)))
  }

  /** Every element of a subsequence is an element of the sequence it was taken from. */
  lemma {:induction false} SubsequenceMembers(a: seq<Value>, b: seq<Value>, v: Value)
    requires IsSubsequence(a, b) && v in a
    ensures v in b
  {
    if a[0] == b[0] && IsSubsequence(a[1..], b[1..]) {
      if v != a[0] {
        SubsequenceMembers(a[1..], b[1..], v);
      }
    } else {
      SubsequenceMembers(a, b[1..], v);
    }
  }

  /** A subsequence made only of exceptions cannot be longer than the number of exceptions. */
  lemma {:induction false} ExceptionSubsequenceBound(s: seq<Value>, items: seq<Value>)
    ensures IsSubsequence(s, items) && AllExceptions(s) ==> |s| <= ExceptionCount(items)
  {
    if s != [] && items != [] {
      ExceptionSubsequenceBound(s, items[1..]);
      ExceptionSubsequenceBound(s[1..], items[1..]);
      assert AllExceptions(s) ==> AllExceptions(s[1..]) && IsExceptionValue(s[0]) by {
        if AllExceptions(s) {
          assert s[0] in s;
          forall v | v in s[1..] ensures IsExceptionValue(v) { assert v in s; }
        }
      }
    }
  }

  /**
    An ordered selection of exceptions from `items` that has as many elements as
    `items` has exception positions is unique: it is the selection of all of them.
   */
  lemma {:induction false} ExactExceptionSelectionUnique(s: seq<Value>, t: seq<Value>, items: seq<Value>)
    requires IsSubsequence(s, items) && AllExceptions(s) && |s| == ExceptionCount(items)
    requires IsSubsequence(t, items) && AllExceptions(t) && |t| == ExceptionCount(items)
    ensures s == t
  {
    if items != [] {
      var tail := items[1..];
      ExceptionSubsequenceBound(s, tail);
      ExceptionSubsequenceBound(t, tail);
      if IsExceptionValue(items[0]) {
        assert s[0] in s && t[0] in t;
        assert AllExceptions(s[1..]) by { forall v | v in s[1..] ensures IsExceptionValue(v) { assert v in s; } }
        assert AllExceptions(t[1..]) by { forall v | v in t[1..] ensures IsExceptionValue(v) { assert v in t; } }
        ExactExceptionSelectionUnique(s[1..], t[1..], tail);
        assert s == [s[0]] + s[1..] && t == [t[0]] + t[1..];
      } else {
        assert s != [] ==> s[0] in s;
        assert t != [] ==> t[0] in t;
        ExactExceptionSelectionUnique(s, t, tail);
      }
    }
  }

  /** An exact selection of exceptions drops none: every exception position of `items` is in it. */
  lemma {:induction false} ExactExceptionSelectionKeepsEvery(s: seq<Value>, items: seq<Value>, i: nat)
    requires IsSubsequence(s, items) && AllExceptions(s) && |s| == ExceptionCount(items)
    requires i < |items| && IsExceptionValue(items[i])
    ensures items[i] in s
  {
    var tail := items[1..];
    ExceptionSubsequenceBound(s, tail);
    if IsExceptionValue(items[0]) {
      assert s[0] in s;
      assert AllExceptions(s[1..]) by { forall v | v in s[1..] ensures IsExceptionValue(v) { assert v in s; } }
      if i > 0 {
        ExactExceptionSelectionKeepsEvery(s[1..], tail, i - 1);
      }
    } else {
      assert s != [] ==> s[0] in s;
      ExactExceptionSelectionKeepsEvery(s, tail, i - 1);
    }
  }

  /** One exception position, and no other, gives an exception count of one. */
  lemma {:induction false} UniqueExceptionCountsOne(items: seq<Value>, i: nat)
    requires i < |items| && IsExceptionValue(items[i])
    requires forall j :: 0 <= j < |items| && j != i ==> !IsExceptionValue(items[j])
    ensures ExceptionCount(items) == 1
  {
    if i == 0 {
      NoExceptionCountsZero(items[1..]);
    } else {
      UniqueExceptionCountsOne(items[1..], i - 1);
    }
  }

  lemma {:induction false} NoExceptionCountsZero(items: seq<Value>)
    requires forall j :: 0 <= j < |items| ==> !IsExceptionValue(items[j])
    ensures ExceptionCount(items) == 0
  {
    if items != [] {
      NoExceptionCountsZero(items[1..]);
    }
  }

  /**
    A single exception among the arguments is returned as it is, not wrapped,
    whatever else surrounds it.
   */
  lemma SingleExceptionIsNotWrapped(items: seq<Value>, i: nat)
    requires Value.Null !in items
    requires i < |items| && IsExceptionValue(items[i])
    requires forall j :: 0 <= j < |items| && j != i ==> !IsExceptionValue(items[j])
    ensures ExtractException(Array(items)) == Success(Some(Existing(items[i])))
  {
    UniqueExceptionCountsOne(items, i);
  }

  /**
    Two or more exceptions give an aggregate whose inner exceptions are exactly
    the exception arguments, in argument order: any ordered selection of all of
    them is the aggregate's list, and no exception argument is missing from it.
   */
  lemma AggregateHoldsExactlyTheExceptions(items: seq<Value>, s: seq<Value>)
    requires Value.Null !in items && ExceptionCount(items) >= 2
    requires IsSubsequence(s, items) && AllExceptions(s) && |s| == ExceptionCount(items)
    ensures ExtractException(Array(items)) == Success(Some(NewAggregate(s)))
    ensures forall i :: 0 <= i < |items| && IsExceptionValue(items[i]) ==> items[i] in s
  {
    var r := ExtractException(Array(items));
    ExactExceptionSelectionUnique(s, r.value.value.inner, items);
    forall i | 0 <= i < |items| && IsExceptionValue(items[i]) ensures items[i] in s {
      ExactExceptionSelectionKeepsEvery(s, items, i);
    }
  }

  /**
    `ExtractException` exactly as written: line 112 casts the `List<object>`
    built at lines 101-103 to `IEnumerable<Exception>`. `List<object>` does not
    implement that interface (covariance only widens element types), so the
    cast throws instead of building the aggregate.
   */
  function ExtractExceptionAsWritten(objs: ObjArray): (r: Result<Option<ExceptionRef>, Fault>)
    ensures r.Failure? <==>
              objs.Array? && |objs.items| > 0 && (Value.Null in objs.items || ExceptionCount(objs.items) >= 2)
    ensures r.Failure? && Value.Null !in objs.items ==> r.error == InvalidCastException
    ensures r.Success? && r.value.Some? ==> r.value.value.Existing?
  {
    if objs.NullArray? || |objs.items| <= 0 then Success(None)
    else
      match WhereException(objs.items)
      case Failure(e) => Failure(e)
      case Success(exceptions) =>
        if |exceptions| == 0 then Success(None)
        else if |exceptions| == 1 then Success(Some(Existing(exceptions[0])))
        else Failure(InvalidCastException)
  }

  /** Below two exceptions, the code as written and the intended extraction agree. */
  lemma AsWrittenAgreesBelowTwoExceptions(objs: ObjArray)
    requires objs.NullArray? || Value.Null in objs.items || ExceptionCount(objs.items) < 2
    ensures ExtractExceptionAsWritten(objs) == ExtractException(objs)
  {
  }

  /** With two or more exceptions and no null, the code as written throws where an aggregate is intended. */
  lemma AsWrittenThrowsOnSeveralExceptions(objs: ObjArray)
    requires objs.Array? && Value.Null !in objs.items && ExceptionCount(objs.items) >= 2
    ensures ExtractExceptionAsWritten(objs) == Failure(InvalidCastException)
    ensures ExtractException(objs).Success? && ExtractException(objs).value.Some?
    ensures ExtractException(objs).value.value.NewAggregate?
  {
  }

  /** The smallest input that shows it: two plain exceptions. */
  lemma AsWrittenTwoExceptionsExample()
    ensures ExtractExceptionAsWritten(Array([Obj(ExceptionType, 1), Obj(ExceptionType, 2)])) == Failure(InvalidCastException)
    ensures ExtractException(Array([Obj(ExceptionType, 1), Obj(ExceptionType, 2)]))
            == Success(Some(NewAggregate([Obj(ExceptionType, 1), Obj(ExceptionType, 2)])))
  {
    var items := [Obj(ExceptionType, 1), Obj(ExceptionType, 2)];
    assert items[1..] == [Obj(ExceptionType, 2)];
    assert items[1..][1..] == [];
    assert IsSubsequence(items, items);
    assert AllExceptions(items);
    assert ExceptionCount(items[1..]) == 1;
    AggregateHoldsExactlyTheExceptions(items, items);
  }
}
