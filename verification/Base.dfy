/** Machine integers, error values and the growable buffer shared by every component. */
module Base {

  const U32_MAX: int := 0xFFFF_FFFF
  const I64_MIN: int := -0x8000_0000_0000_0000
  const I64_MAX: int := 0x7FFF_FFFF_FFFF_FFFF

  type u8 = x: int | 0 <= x < 0x100
  type u32 = x: int | 0 <= x <= U32_MAX
  type i64 = x: int | I64_MIN <= x <= I64_MAX

  /** A UUID, seen as its bytes: sixteen of them, but nothing here depends on how many. */
  datatype Uuid = Uuid(bytes: seq<u8>)

  datatype Option<+T> = None | Some(value: T)

  datatype CoreError = InvalidInput | DecryptFailed | UnsupportedFormat | KdfFailed

  datatype Result<+T> = Ok(value: T) | Err(error: CoreError)

  predicate InI64(x: int) {
    I64_MIN <= x <= I64_MAX
  }

  function Max(a: int, b: int): int {
    if a < b then b else a
  }

  function Min(a: int, b: int): int {
    if b < a then b else a
  }

  /** `saturating_add` and `saturating_sub` on i64: the exact result, clamped. */
  function SaturateI64(x: int): i64 {
    if x < I64_MIN then I64_MIN else if x > I64_MAX then I64_MAX else x
  }

  /** `len() as u32`: the length, truncated to 32 bits. */
  function LengthField(n: nat): u32 {
    n % 0x1_0000_0000
  }

  /** Unchecked i64 arithmetic: the exact result modulo 2^64, as release builds compute it. */
  function WrapI64(x: int): i64 {
    (x - I64_MIN) % 0x1_0000_0000_0000_0000 + I64_MIN
  }

  /** A growable buffer that callers pass by mutable reference. */
  class Vec<T> {
    var items: seq<T>

    constructor ()
      ensures items == []
    {
      items := [];
    }

    method Push(x: T)
      modifies this
      ensures items == old(items) + [x]
    {
      items := items + [x];
    }

    method Extend(xs: seq<T>)
      modifies this
      ensures items == old(items) + xs
    {
      items := items + xs;
    }
  }
}
