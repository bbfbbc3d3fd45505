/** Types shared by the three containers: the error kinds the C code reports
    through `errno`, an optional value standing for a possibly-NULL `Element`,
    and the result of an operation on a container. */
module Common {

  /** A non-NULL `Element` of `data_types.h`, a `void *` the containers store
      and hand back but never dereference: the model keeps only the address it
      holds, which is never 0. NULL is `Option.None`. */
  type Element = a: nat | a != 0 witness 1

  /** The error kinds. The stack and queue report all three of their
      failures (zero size, overflow, underflow) as `EPERM`; the hash table
      reports `EINVAL` and `EEXIST`. */
  datatype Fault = InvalidArgument | Overflow | Underflow | KeyExists

  /** A caller reference that may be NULL, or a storage slot that may never
      have been written. */
  datatype Option<T> = None | Some(value: T)

  /** The value an operation hands back, or the error it signals. */
  datatype Result<V> = Ok(value: V) | Err(fault: Fault)

  /** What a mutating operation leaves behind: the container state after the
      call, and what the call returned. */
  datatype Step<S, V> = Step(state: S, out: Result<V>)

  /** A freshly allocated buffer of `n` slots, none of them written yet. */
  function Nones(n: nat): (r: seq<Option<Element>>)
    ensures |r| == n
    ensures forall i :: 0 <= i < n ==> r[i] == None
  {
    seq(n, _ => None)
  }
}
