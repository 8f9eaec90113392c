/** The conversions that `impl_enum!` (src/macros.rs) generates for a profiler's
    region enum. The macro accepts only fieldless variants without explicit
    discriminants, so variant number `k` of an enum with `count` variants is the
    one declared `k`-th and converts to the usize `k`. */
module EnumIndex {
  import opened Wrapping
  import opened Outcomes

  /** The dummy value that `try_from` rejects with `unreachable!()`. */
  const DUMMY_INDEX: u64 := 0x1337_1337_1337_1337

  const UNKNOWN_VALUE: string := "Unknown value"

  /** `impl Into<usize>`: `self as usize`, the variant's declaration position. */
  function Into(variant: nat): nat
  {
    variant
  }

  /** The `else if $name::$var_name as usize == value` chain, from the variant
      declared `from`-th onwards, in declaration order. */
  function FindVariant(count: nat, from: nat, value: u64): (r: Option<nat>)
    ensures r.Some? <==> from <= value < count
    ensures r.Some? ==> r.value == value
    decreases count - from
  {
    if from >= count then None
    else if Into(from) == value then Some(from)
    else FindVariant(count, from + 1, value)
  }

  /** `impl TryFrom<usize>`: the dummy value panics, a value naming a variant
      gives that variant, and every other value gives `Err("Unknown value")`. */
  function TryFrom(count: nat, value: u64): (r: Outcome<Result<nat, string>>)
    ensures r.Panic? <==> value == DUMMY_INDEX
    ensures r == Done(Ok(value)) <==> value != DUMMY_INDEX && value < count
    ensures r == Done(Err(UNKNOWN_VALUE)) <==> value != DUMMY_INDEX && value >= count
  {
    if value == DUMMY_INDEX then Panic("internal error: entered unreachable code")
    else match FindVariant(count, 0, value)
      case Some(v) => Done(Ok(v))
      case None => Done(Err(UNKNOWN_VALUE))
  }

  /** Converting a variant to its index and back gives the variant again, for
      every enum too small to contain the dummy index. */
  lemma RoundTrip(count: nat, variant: nat)
    requires variant < count <= DUMMY_INDEX
    ensures Into(variant) < TWO_64
    ensures TryFrom(count, Into(variant)) == Done(Ok(variant))
  {
  }
}
