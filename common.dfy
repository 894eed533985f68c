/** Values shared by every part of the model: bytes and the Rust integer
    widths the parameters use, Option, Result, the output buffer the
    pipelines write through, and the decimal rendering used in error texts. */
module Common {

  /** One byte of an encoded image (`u8` in Rust, an unsigned view of a
      Kotlin byte). */
  type Byte = x: int | 0 <= x < 256

  /** Rust `u32`. */
  type U32 = x: int | 0 <= x < 0x1_0000_0000

  datatype Option<+T> = None | Some(value: T)

  /** What a Rust function returning `Result<T, E>` does: it returns `Ok`,
      returns `Err` carrying the error's text (`e.to_string()`), or panics
      without any `catch_unwind` around it, so that the panic unwinds out of
      the call instead of returning. `:-` propagates both failures, as `?`
      propagates `Err` and a panic unwinds through every caller. */
  datatype Result<+T> = Ok(value: T) | Err(error: string) | Panic(message: string) {

    predicate IsFailure() {
      !Ok?
    }

    function PropagateFailure<U>(): (r: Result<U>)
      requires IsFailure()
      ensures r.Err? == Err? && r.Panic? == Panic?
    {
      if Err? then Err(error) else Panic(message)
    }

    function Extract(): T
      requires Ok?
    {
      value
    }

    /** `Ok(())` in place of `Ok(v)`: what `compress` returns once the
        bytes are stored in the output buffer. */
    function Forget(): (r: Result<()>)
      ensures r.Ok? == Ok? && r.Err? == Err? && r.Panic? == Panic?
      ensures Err? ==> r.error == error
      ensures Panic? ==> r.message == message
    {
      match this
      case Ok(_) => Ok(())
      case Err(e) => Err(e)
      case Panic(m) => Panic(m)
    }
  }

  /** Rust `x as u8`: keeps the low eight bits. */
  function AsU8(x: U32): (r: Byte)
    ensures x < 256 ==> r == x
  {
    x % 256
  }

  /** Rust `x as i32` on a `u32`: reinterprets the 32 bits as two's complement. */
  function AsI32(x: U32): (r: int)
    ensures x < 0x8000_0000 ==> r == x
    ensures -0x8000_0000 <= r < 0x8000_0000
  {
    if x < 0x8000_0000 then x else x - 0x1_0000_0000
  }

  /** The `&mut Vec<u8>` a pipeline writes its result into with `mem::replace`. */
  class OutBuffer {
    var data: seq<Byte>

    constructor (initial: seq<Byte>)
      ensures data == initial
    {
      data := initial;
    }
  }

  function DigitChar(d: nat): (c: char)
    requires d < 10
    ensures '0' <= c <= '9' && c as int - '0' as int == d
  {
    (d + '0' as int) as char
  }

  /** Decimal rendering of a natural number, as Rust's `{}` formats it. */
  function NatToString(n: nat): (s: string)
    ensures |s| >= 1
    ensures forall k :: 0 <= k < |s| ==> '0' <= s[k] <= '9'
  {
    if n < 10 then [DigitChar(n)] else NatToString(n / 10) + [DigitChar(n % 10)]
  }

  /** Decimal rendering of an integer (a C `int` error code). */
  function IntToString(i: int): (s: string)
    ensures |s| >= 1
    ensures i >= 0 ==> s == NatToString(i)
    ensures i < 0 ==> s == "-" + NatToString(-i)
  {
    if i < 0 then "-" + NatToString(-i) else NatToString(i)
  }

  /** Reads a string of decimal digits back: the inverse of NatToString. */
  function ParseNat(s: string): nat
    requires forall k :: 0 <= k < |s| ==> '0' <= s[k] <= '9'
  {
    if s == [] then 0 else ParseNat(s[..|s| - 1]) * 10 + (s[|s| - 1] as int - '0' as int)
  }

  /** The decimal rendering loses nothing: the number can be read back. */
  lemma {:induction false} ParseNatToString(n: nat)
    ensures ParseNat(NatToString(n)) == n
  {
    if n >= 10 {
      var s := NatToString(n);
      assert s[..|s| - 1] == NatToString(n / 10);
      ParseNatToString(n / 10);
    }
  }
}
