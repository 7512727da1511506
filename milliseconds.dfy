/**
 * Instants and durations with millisecond precision and 32-bit width.
 * An instant is an unsigned 32-bit count with no fixed reference; a duration is a
 * signed 32-bit count. Subtraction and addition wrap around modulo 2^32.
 */
module Milliseconds {
  import opened Base

  datatype InstantMillis = InstantMillis(inner: U32)

  /** `u32` wrap-around: the representative of `x` modulo 2^32. */
  function WrapU32(x: int): (r: U32)
    ensures (x - r) % TWO_POW_32 == 0
  {
    x % TWO_POW_32
  }

  /** `u32 as i32`: reinterpret the bit pattern as two's complement. */
  function AsI32(x: U32): (r: I32)
    ensures (r < 0) <==> x >= TWO_POW_31
    ensures (x - r) % TWO_POW_32 == 0
  {
    if x < TWO_POW_31 then x else x - TWO_POW_32
  }

  /** `self.0.wrapping_sub(rhs.0) as i32`. */
  function Sub(a: InstantMillis, b: InstantMillis): (d: I32)
    ensures a == b ==> d == 0
    ensures (d - (a.inner - b.inner)) % TWO_POW_32 == 0
    ensures d < 0 <==> WrapU32(a.inner - b.inner) >= TWO_POW_31
  {
    AsI32(WrapU32(a.inner - b.inner))
  }

  /**
   * `i32` subtraction of two durations. Overflow is a panic in debug builds and wraps
   * in release builds; the model wraps, and the result is the exact difference whenever
   * no overflow happens.
   */
  function DurationSub(a: I32, b: I32): (r: I32)
    ensures (r - (a - b)) % TWO_POW_32 == 0
    ensures IsI32(a - b) ==> r == a - b
  {
    if IsI32(a - b) then
      AsI32OfWrap(a - b);
      AsI32(WrapU32(a - b))
    else AsI32(WrapU32(a - b))
  }

  /** `self.0.wrapping_add_signed(rhs)`. */
  function Add(t: InstantMillis, d: I32): (r: InstantMillis)
    ensures (r.inner - (t.inner + d)) % TWO_POW_32 == 0
  {
    InstantMillis(WrapU32(t.inner + d))
  }

  /** `t += d`: rewrites the instant in place with the wrapped sum. */
  method AddAssign(t: InstantMillis, rhs: I32) returns (t': InstantMillis)
    ensures t' == Add(t, rhs)
  {
    t' := t.(inner := (t.inner + rhs) % TWO_POW_32);
  }

  function FromAbsolute(millis: U32): (t: InstantMillis)
    ensures t.inner == millis
  {
    InstantMillis(millis)
  }

  function IntoInner(t: InstantMillis): (millis: U32)
    ensures FromAbsolute(millis) == t
  {
    t.inner
  }

  /** The reduction mod 2^32 of any two representatives of one residue is the same. */
  lemma WrapCongruent(x: int, y: int)
    requires (x - y) % TWO_POW_32 == 0
    ensures WrapU32(x) == WrapU32(y)
  {
    var q := (x - y) / TWO_POW_32;
    assert x - y == q * TWO_POW_32;
    assert x == y + q * TWO_POW_32;
  }

  /** An `i32` is recovered from its `u32` bit pattern. */
  lemma AsI32OfWrap(d: I32)
    ensures AsI32(WrapU32(d)) == d
  {
    if d < 0 {
      assert WrapU32(d) == d + TWO_POW_32;
    } else {
      assert WrapU32(d) == d;
    }
  }

  /** For every instant and every `i32` offset, `(t + d) - t == d`. */
  lemma AddThenSub(t: InstantMillis, d: I32)
    ensures Sub(Add(t, d), t) == d
  {
    var s := Add(t, d);
    WrapCongruent(s.inner - t.inner, d);
    AsI32OfWrap(d);
  }

  /** For all instants, `b + (a - b) == a`. */
  lemma SubThenAdd(a: InstantMillis, b: InstantMillis)
    ensures Add(b, Sub(a, b)) == a
  {
    var d := Sub(a, b);
    WrapCongruent(b.inner + d, a.inner);
    assert WrapU32(a.inner) == a.inner;
  }

  /**
   * Subtraction yields the real signed difference whenever that difference fits
   * into an `i32` (the caller obligation of the clock).
   */
  lemma SubIsRealDifference(a: InstantMillis, b: InstantMillis)
    requires IsI32(a.inner - b.inner)
    ensures Sub(a, b) == a.inner - b.inner
  {
    AsI32OfWrap(a.inner - b.inner);
  }

  /** Two instants given as offsets from a common instant are apart by the difference of
   *  the offsets, across the wrap-around of the counter too. */
  lemma SubOfOffsets(t: InstantMillis, x: I32, y: I32)
    requires IsI32(x - y)
    ensures Sub(Add(t, x), Add(t, y)) == x - y
  {
    var a := Add(t, x);
    var b := Add(t, y);
    MultiplesClosed(a.inner - (t.inner + x), b.inner - (t.inner + y));
    assert (a.inner - b.inner) - (x - y) == (a.inner - (t.inner + x)) - (b.inner - (t.inner + y));
    WrapCongruent(a.inner - b.inner, x - y);
    AsI32OfWrap(x - y);
  }

  /** A multiple of 2^32 has remainder zero. */
  lemma MultipleHasNoRemainder(k: int)
    ensures (k * TWO_POW_32) % TWO_POW_32 == 0
  {
  }

  /** Multiples of 2^32 are closed under sum and difference. */
  lemma MultiplesClosed(u: int, v: int)
    requires u % TWO_POW_32 == 0 && v % TWO_POW_32 == 0
    ensures (u + v) % TWO_POW_32 == 0 && (u - v) % TWO_POW_32 == 0
  {
    var k := u / TWO_POW_32;
    var l := v / TWO_POW_32;
    assert u == k * TWO_POW_32 && v == l * TWO_POW_32;
    assert u + v == (k + l) * TWO_POW_32;
    assert u - v == (k - l) * TWO_POW_32;
    MultipleHasNoRemainder(k + l);
    MultipleHasNoRemainder(k - l);
  }

  /** Elapsed `e` since `s` at `n` and time left `r` of `d` give `n + r == s + d` mod 2^32. */
  lemma CongruenceChain(s: int, n: int, d: int, e: int, r: int)
    requires (e - (n - s)) % TWO_POW_32 == 0
    requires (r - (d - e)) % TWO_POW_32 == 0
    ensures ((n + r) - (s + d)) % TWO_POW_32 == 0
  {
    MultiplesClosed(r - (d - e), e - (n - s));
    assert (n + r) - (s + d) == (r - (d - e)) - (e - (n - s));
  }

  /** Moving the start of a countdown to `now` and its duration to the time left keeps
   *  its end instant, with or without wrap-around. */
  lemma EndInstantKept(start: InstantMillis, now: InstantMillis, d: I32)
    ensures Add(now, DurationSub(d, Sub(now, start))) == Add(start, d)
  {
    var e := Sub(now, start);
    var r := DurationSub(d, e);
    CongruenceChain(start.inner, now.inner, d, e, r);
    WrapCongruent(now.inner + r, start.inner + d);
  }
}
