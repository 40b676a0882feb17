// Types shared by every module: bytes, optional values and the outcomes of a
// request. The Python code signals failure with exceptions; a Fault records which
// family the exception belongs to, because the handlers treat the families differently.
module Prelude {
  type byte = x: int | 0 <= x < 256
  type bytes = seq<byte>

  datatype Option<+T> = None | Some(value: T)

  // ValueFault: ValueError and its subclasses. VerificationFault: VerificationError.
  // MrzFault: MRZError. IndexFault: IndexError. CrashFault: everything else
  // (KeyError, TypeError, AttributeError, RecursionError, a manager RuntimeError).
  datatype Fault = ValueFault | VerificationFault | MrzFault | IndexFault | CrashFault

  datatype Result<+T> = Ok(value: T) | Err(fault: Fault) {
    predicate IsFailure() {
      Err?
    }

    function PropagateFailure<U>(): Result<U>
      requires Err?
    {
      Err(fault)
    }

    function Extract(): T
      requires Ok?
    {
      value
    }
  }

  function Min(x: int, y: int): (m: int)
    ensures m <= x && m <= y && (m == x || m == y)
  {
    if x <= y then x else y
  }

  function Max(x: int, y: int): (m: int)
    ensures m >= x && m >= y && (m == x || m == y)
  {
    if x >= y then x else y
  }

  lemma AnElement<T>(s: set<T>) returns (x: T)
    requires s != {}
    ensures x in s
  {
    x :| x in s;
  }
}
