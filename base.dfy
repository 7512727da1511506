/** Small shared vocabulary: optional values, results, fixed-width integer ranges. */
module Base {

  datatype Option<T> = None | Some(value: T)
  {
    function GetOr(default: T): T
    {
      match this
      case Some(v) => v
      case None => default
    }
  }

  datatype Result<T, E> = Ok(value: T) | Err(error: E)

  const TWO_POW_8: int := 0x100
  const TWO_POW_31: int := 0x8000_0000
  const TWO_POW_32: int := 0x1_0000_0000

  /** Rust `u8`. */
  type U8 = x: int | 0 <= x < TWO_POW_8
  /** Rust `u32`. */
  type U32 = x: int | 0 <= x < TWO_POW_32
  /** Rust `i32`. */
  type I32 = x: int | -TWO_POW_31 <= x < TWO_POW_31

  predicate IsI32(x: int)
  {
    -TWO_POW_31 <= x < TWO_POW_31
  }

  function Min(a: int, b: int): int
  {
    if a <= b then a else b
  }

  function Max(a: int, b: int): int
  {
    if a >= b then a else b
  }

  /** The smallest element of a non-empty sequence. */
  function MinOf(s: seq<int>): (m: int)
    requires s != []
    ensures m in s
    ensures forall i | 0 <= i < |s| :: m <= s[i]
  {
    if |s| == 1 then s[0]
    else
      var rest := MinOf(s[1..]);
      assert forall i | 1 <= i < |s| :: s[i] == s[1..][i - 1];
      Min(s[0], rest)
  }
}
