/**
 * Type-erased events.
 *
 * The bus hands every published value to every subscriber as `&dyn Any`; a subscriber can only
 * recover it through a checked downcast to a concrete type. Here a value carries its concrete
 * type as a tag, and a downcast to `T` succeeds exactly when the tag is `T`.
 */
module Erased {
  import opened Options

  /** The name of a concrete Rust type, e.g. "usize" or "EventC". */
  type TypeTag = string

  /** The data inside a value: a unit struct, a number, or an enum variant holding one value. */
  datatype Payload = Unit | Num(n: int) | Variant(inner: Value)

  /** A value of concrete type `ty`, as seen through `&dyn Any`. */
  datatype Value = Value(ty: TypeTag, payload: Payload)

  /** A filter-map: decides whether an erased event is relevant and what to deliver for it. */
  type Converter = Value -> Option<Value>

  /** `event.downcast_ref::<T>().cloned()`: succeeds exactly when the event's type is `t`. */
  function Downcast(e: Value, t: TypeTag): (r: Option<Value>)
    ensures r.Some? <==> e.ty == t
    ensures r.Some? ==> r.value == e
  {
    if e.ty == t then Some(e) else None
  }
}
