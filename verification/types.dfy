/**
 Shared types of the infra-red tool: fixed-width integers with C's
 wrap-around made explicit, the raw sample buffer and the pair of
 timing biases.
 */
module Types {

  /** An optional value. */
  datatype Option<T> = None | Some(value: T)

  /** The number of distinct `uint32_t` values. */
  const U32_MODULUS: int := 0x1_0000_0000

  /** C's `uint32_t`. */
  newtype u32 = x: int | 0 <= x < 0x1_0000_0000

  /** C's `uint8_t`. */
  newtype u8 = x: int | 0 <= x < 0x100

  /** C's `int32_t`. */
  newtype i32 = x: int | -0x8000_0000 <= x < 0x8000_0000

  /** C's conversion of an integer value to `uint32_t`: reduction modulo 2^32. */
  function Wrap(v: int): (r: u32)
    ensures r as int == v % U32_MODULUS
    ensures 0 <= v < U32_MODULUS ==> r as int == v
  {
    (v % U32_MODULUS) as u32
  }

  /** `a - b` on `uint32_t`: the distance from `b` forward to `a` on a 2^32 ring. */
  function Sub(a: u32, b: u32): (r: u32)
    ensures Wrap(b as int + r as int) == a
    ensures b <= a ==> r == a - b
  {
    Wrap(a as int - b as int)
  }

  /** Microseconds elapsed from cycle-counter reading `prev` to reading `now`, in `uint32_t` arithmetic. */
  function Elapsed(now: u32, prev: u32, usDiv: u32): (r: u32)
    requires usDiv > 0
    ensures prev <= now ==> r as int == (now as int - prev as int) / usDiv as int
    ensures now < prev ==> r as int == (now as int - prev as int + U32_MODULUS) / usDiv as int
  {
    Sub(now, prev) / usDiv
  }

  /**
   `x + bias` where `x` is a `uint32_t` and the bias a signed `int`:
   the usual arithmetic conversions make this an unsigned addition modulo 2^32.
   */
  function AddBias(x: u32, bias: i32): (r: u32)
    ensures 0 <= x as int + bias as int < U32_MODULUS ==> r as int == x as int + bias as int
    ensures bias >= 0 && x as int + bias as int >= U32_MODULUS ==> r as int == x as int + bias as int - U32_MODULUS
    ensures bias < 0 && x as int + bias as int < 0 ==> r as int == x as int + bias as int + U32_MODULUS
  {
    Wrap(x as int + bias as int)
  }

  /** `ir_tim_adj_t`: a pulse-duration bias and a space-duration bias, in microseconds. */
  datatype TimAdj = TimAdj(pulse: i32, space: i32)

  /**
   `ir_raw_bit_buf_t`: `cells` is the fixed storage the owner supplies once
   (its size is the capacity) and `length` counts the valid samples at its front.
   */
  datatype IrBuf = IrBuf(length: int, cells: seq<u32>)
  {
    /** The buffer's storage has `capacity` cells and its length lies within it. */
    predicate Fits(capacity: nat) {
      |cells| == capacity && 0 <= length <= capacity
    }

    /** The valid samples. */
    function Samples(): (s: seq<u32>)
      requires 0 <= length <= |cells|
      ensures |s| == length
      ensures forall k :: 0 <= k < length ==> s[k] == cells[k]
    {
      cells[..length]
    }

    /** Stores `d` in the next free cell and publishes it by incrementing `length`. */
    function Append(d: u32): (r: IrBuf)
      requires 0 <= length < |cells|
      ensures r.length == length + 1 && |r.cells| == |cells|
      ensures r.Samples() == Samples() + [d]
      ensures forall k :: 0 <= k < |cells| && k != length ==> r.cells[k] == cells[k]
    {
      IrBuf(length + 1, cells[length := d])
    }
  }
}
