/**
 * The filter-maps the crate's macros generate.
 *
 * Each macro expands to a function that tries a list of source types in order, downcasting the
 * erased event to each in turn, and returns for the first one that fits. `where_into!` converts the
 * match with `Into`, `where_try_into!` with the fallible `TryInto` (moving on to the next source
 * when the conversion fails), and `aggregate_enum!` wraps the match in the enum variant of the same
 * name. The per-type `Into`/`TryInto` impls are the caller's code and enter as parameters; since a
 * value carries its type, one function covers the impls of all listed sources.
 */
module FilterMap {
  import opened Options
  import opened Erased
  import Sub

  /** The function `where_into!(sources => target)` generates, applied to one event. */
  function WhereInto(sources: seq<TypeTag>, into: Value -> Value, e: Value): (r: Option<Value>)
    ensures r.Some? <==> e.ty in sources
    ensures r.Some? ==> r.value == into(e)
  {
    if |sources| == 0 then None
    else match Downcast(e, sources[0])
      case Some(v) => Some(into(v))
      case None => WhereInto(sources[1..], into, e)
  }

  /** The function `where_try_into!(sources => target)` generates, applied to one event. */
  function WhereTryInto(sources: seq<TypeTag>, tryInto: Value -> Option<Value>, e: Value): (r: Option<Value>)
    ensures r.Some? <==> e.ty in sources && tryInto(e).Some?
    ensures r.Some? ==> r == tryInto(e)
  {
    if |sources| == 0 then None
    else match Downcast(e, sources[0])
      case Some(v) =>
        (match tryInto(v)
         case Some(mapped) => Some(mapped)
         case None => WhereTryInto(sources[1..], tryInto, e))
      case None => WhereTryInto(sources[1..], tryInto, e)
  }

  /** `Name::try_from_event` for `aggregate_enum!(Name { variants })`, applied to one event. */
  function TryFromEvent(name: TypeTag, variants: seq<TypeTag>, e: Value): (r: Option<Value>)
    ensures r.Some? <==> e.ty in variants
    ensures r.Some? ==> r.value.ty == name && r.value.payload == Variant(e)
  {
    if |variants| == 0 then None
    else match Downcast(e, variants[0])
      case Some(v) => Some(Value(name, Variant(v)))
      case None => TryFromEvent(name, variants[1..], e)
  }

  /** Matching on an aggregate value: the wrapped event, when `a` is a variant of `name`. */
  function VariantOf(name: TypeTag, a: Value): Option<Value> {
    if a.ty == name && a.payload.Variant? then Some(a.payload.inner) else None
  }

  /** The converters as values, ready to hand to `subscribe_where`. */
  function WhereIntoFilter(sources: seq<TypeTag>, into: Value -> Value): Converter {
    e => WhereInto(sources, into, e)
  }

  function WhereTryIntoFilter(sources: seq<TypeTag>, tryInto: Value -> Option<Value>): Converter {
    e => WhereTryInto(sources, tryInto, e)
  }

  function AggregateFilter(name: TypeTag, variants: seq<TypeTag>): Converter {
    e => TryFromEvent(name, variants, e)
  }

  /**
   * A subscriber made with `where_into!` that has room accepts an event exactly when its type is
   * listed, and then enqueues the `Into` conversion of it; any other event leaves it unchanged.
   */
  lemma WhereIntoAccepts(p: Sub.Pair, sources: seq<TypeTag>, into: Value -> Value, e: Value)
    requires p.convert == WhereIntoFilter(sources, into)
    requires p.channel.receiverConnected && |p.channel.queue| < p.channel.cap
    ensures Sub.Send(p, e).Accepted() <==> e.ty in sources
    ensures e.ty in sources ==> Sub.Send(p, e).pair.channel.queue == p.channel.queue + [into(e)]
    ensures e.ty !in sources ==> Sub.Send(p, e).pair == p
  {
  }

  /**
   * A subscriber made with `where_try_into!` that has room accepts an event exactly when its type
   * is listed and the conversion succeeds, and then enqueues the converted value; any other event
   * leaves it unchanged.
   */
  lemma WhereTryIntoAccepts(p: Sub.Pair, sources: seq<TypeTag>, tryInto: Value -> Option<Value>, e: Value)
    requires p.convert == WhereTryIntoFilter(sources, tryInto)
    requires p.channel.receiverConnected && |p.channel.queue| < p.channel.cap
    ensures Sub.Send(p, e).Accepted() <==> e.ty in sources && tryInto(e).Some?
    ensures e.ty in sources && tryInto(e).Some? ==>
      Sub.Send(p, e).pair.channel.queue == p.channel.queue + [tryInto(e).value]
    ensures !(e.ty in sources && tryInto(e).Some?) ==> Sub.Send(p, e).pair == p
  {
  }

  /**
   * A `where_try_into!` whose conversion cannot fail (the blanket `TryFrom` over `Into`) is the
   * `where_into!` of the same conversion.
   */
  lemma InfallibleTryIntoIsInto(sources: seq<TypeTag>, into: Value -> Value, e: Value)
    ensures WhereTryInto(sources, x => Some(into(x)), e) == WhereInto(sources, into, e)
  {
  }

  /**
   * Round trip for `aggregate_enum!`: an event of a listed type comes back out of its variant
   * unchanged, and the variant is named after the event's type.
   */
  lemma AggregateRoundTrip(name: TypeTag, variants: seq<TypeTag>, e: Value)
    requires e.ty in variants
    ensures TryFromEvent(name, variants, e).Some?
    ensures VariantOf(name, TryFromEvent(name, variants, e).value) == Some(e)
    ensures TryFromEvent(name, variants, e).value.payload.inner.ty == e.ty
  {
  }

  /** Every aggregate value with a listed variant is what `try_from_event` makes of its content. */
  lemma AggregateOnto(name: TypeTag, variants: seq<TypeTag>, a: Value)
    requires VariantOf(name, a).Some? && VariantOf(name, a).value.ty in variants
    ensures TryFromEvent(name, variants, VariantOf(name, a).value) == Some(a)
  {
  }
}
