/** SQL values as the registry's statements use them: nullable columns, three-valued truth and the
    integer casts made when a Rust value is bound to a parameter. */
module Sql {

  /** A nullable column, or a Rust `Option`; `None` is NULL. */
  datatype Option<+T> = None | Some(value: T)

  /** `COALESCE(a, b)`. */
  function Coalesce<T>(a: Option<T>, b: Option<T>): Option<T> {
    if a.Some? then a else b
  }

  /** The truth value of a SQL condition; `None` is NULL. */
  type Truth = Option<bool>

  function And(a: Truth, b: Truth): Truth {
    if a == Some(false) || b == Some(false) then Some(false)
    else if a.None? || b.None? then None
    else Some(true)
  }

  function Or(a: Truth, b: Truth): Truth {
    if a == Some(true) || b == Some(true) then Some(true)
    else if a.None? || b.None? then None
    else Some(false)
  }

  function Less(a: Option<int>, b: Option<int>): Truth {
    if a.Some? && b.Some? then Some(a.value < b.value) else None
  }

  function AtLeast(a: Option<int>, b: Option<int>): Truth {
    if a.Some? && b.Some? then Some(a.value >= b.value) else None
  }

  /** Whether `WHERE` keeps a row, or `CASE WHEN` takes its branch: NULL counts as false. */
  predicate Holds(t: Truth) {
    t == Some(true)
  }

  const I32_MAX := 0x7FFF_FFFF
  const U32_MAX := 0xFFFF_FFFF
  const I64_SPAN := 0x1_0000_0000_0000_0000

  type u32 = v: int | 0 <= v <= U32_MAX
  type u64 = v: int | 0 <= v < I64_SPAN

  /** Rust's `v as i64`: values from 2^63 on wrap to negative ones. */
  function AsI64(v: u64): (r: int)
    ensures -(I64_SPAN / 2) <= r < I64_SPAN / 2 && (r == v || r == v - I64_SPAN)
  {
    if v < I64_SPAN / 2 then v else v - I64_SPAN
  }

  /** `i32::try_from(v).unwrap_or(i32::MAX)`. */
  function ClampI32(v: u32): int {
    if v <= I32_MAX then v else I32_MAX
  }
}
