/** Go's generic pointer helpers, a pointer being modelled as an optional
    value (`None` is nil). */
module Pointers {
  import opened Wrappers

  /** `Deref`: the value pointed to, or the default for nil. */
  function Deref<T>(p: Option<T>, default: T): (v: T)
    ensures p.None? ==> v == default
    ensures p.Some? ==> v == p.value
  {
    match p
    case Some(x) => x
    case None => default
  }

  /** `ToPointer`: never nil, and dereferencing it gives the value back
      whatever the default. */
  function ToPointer<T(!new)>(v: T): (p: Option<T>)
    ensures p.Some?
    ensures forall d :: Deref(p, d) == v
  {
    Some(v)
  }
}
