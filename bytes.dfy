/** Unsigned bytes, bit strings read most-significant bit first, and the
    shift-and-add loop that packs eight sampled bits into one byte. */
module Bytes {

  /** Rust's `u8`: arithmetic that leaves this range is a verification error. */
  newtype u8 = x: int | 0 <= x < 256

  function Pow2(n: nat): (r: nat)
    ensures r >= 1
  {
    if n == 0 then 1 else 2 * Pow2(n - 1)
  }

  lemma {:induction false} Pow2Add(a: nat, b: nat)
    ensures Pow2(a + b) == Pow2(a) * Pow2(b)
  {
    if a > 0 {
      Pow2Add(a - 1, b);
    }
  }

  lemma Pow2Eight()
    ensures Pow2(7) == 128 && Pow2(8) == 256
  {
  }

  /** Every element of `s` is a single bit. */
  predicate IsBits(s: seq<u8>)
  {
    forall i :: 0 <= i < |s| ==> s[i] <= 1
  }

  /** The number a bit string denotes when read most-significant bit first. */
  function ValueMsbFirst(bits: seq<u8>): nat
  {
    if bits == [] then 0
    else 2 * ValueMsbFirst(bits[..|bits| - 1]) + bits[|bits| - 1] as nat
  }

  /** The `n` low bits of `v`, most-significant bit first. */
  function BitsMsbFirst(v: nat, n: nat): (bits: seq<u8>)
    ensures |bits| == n && IsBits(bits)
  {
    if n == 0 then [] else BitsMsbFirst(v / 2, n - 1) + [(v % 2) as u8]
  }

  lemma {:induction false} ValueBound(bits: seq<u8>)
    requires IsBits(bits)
    ensures ValueMsbFirst(bits) < Pow2(|bits|)
  {
    if bits != [] {
      ValueBound(bits[..|bits| - 1]);
    }
  }

  /** Reading back the `n` bits of a value below 2^n gives the value. */
  lemma {:induction false} ValueOfBits(v: nat, n: nat)
    requires v < Pow2(n)
    ensures ValueMsbFirst(BitsMsbFirst(v, n)) == v
  {
    if n > 0 {
      var bits := BitsMsbFirst(v, n);
      assert bits[..n - 1] == BitsMsbFirst(v / 2, n - 1);
      ValueOfBits(v / 2, n - 1);
    }
  }

  /** Writing out the value of a bit string gives the bit string. */
  lemma {:induction false} BitsOfValue(bits: seq<u8>)
    requires IsBits(bits)
    ensures BitsMsbFirst(ValueMsbFirst(bits), |bits|) == bits
  {
    if bits != [] {
      var n := |bits|;
      var init := bits[..n - 1];
      var v := ValueMsbFirst(bits);
      assert v == 2 * ValueMsbFirst(init) + bits[n - 1] as nat;
      assert v / 2 == ValueMsbFirst(init) && v % 2 == bits[n - 1] as nat;
      BitsOfValue(init);
      assert bits == init + [bits[n - 1]];
    }
  }

  /** The byte that eight bits pack into, first bit most significant. */
  function ByteOf(bits: seq<u8>): (b: u8)
    requires |bits| == 8 && IsBits(bits)
  {
    ValueBound(bits);
    Pow2Eight();
    ValueMsbFirst(bits) as u8
  }

  /** The eight bits of a byte, most-significant first. */
  function ByteBits(b: u8): (bits: seq<u8>)
    ensures |bits| == 8 && IsBits(bits)
  {
    BitsMsbFirst(b as nat, 8)
  }

  lemma ByteOfByteBits(b: u8)
    ensures ByteOf(ByteBits(b)) == b
  {
    Pow2Eight();
    ValueOfBits(b as nat, 8);
  }

  lemma ByteBitsOfByte(bits: seq<u8>)
    requires |bits| == 8 && IsBits(bits)
    ensures ByteBits(ByteOf(bits)) == bits
  {
    BitsOfValue(bits);
  }

  /** Rust's `x << s` on a `u8` for a shift below 8: bits moved past bit 7 are lost. */
  function ShiftLeft(x: u8, s: nat): u8
    requires s < 8
  {
    ((x as int * Pow2(s)) % 256) as u8
  }

  /** Shifting a single bit by at most 7 loses nothing. */
  lemma ShiftLeftBit(x: u8, s: nat)
    requires x <= 1 && s < 8
    ensures ShiftLeft(x, s) as int == x as int * Pow2(s)
  {
    Pow2Add(s, 7 - s);
    Pow2Eight();
  }

  /** One round of the packing loop: adding bit `i` shifted into place keeps the
      accumulator equal to the first `i + 1` bits, scaled, and below 256. */
  lemma PackStep(bits: seq<u8>, i: nat)
    requires |bits| == 8 && IsBits(bits) && i < 8
    ensures ValueMsbFirst(bits[..i]) * Pow2(8 - i) + bits[i] as int * Pow2(7 - i)
            == ValueMsbFirst(bits[..i + 1]) * Pow2(7 - i)
    ensures ValueMsbFirst(bits[..i + 1]) * Pow2(7 - i) < 256
  {
    assert bits[..i + 1][..i] == bits[..i];
    var v0, c := ValueMsbFirst(bits[..i]), bits[i] as int;
    var v, p := ValueMsbFirst(bits[..i + 1]), Pow2(7 - i);
    assert v == 2 * v0 + c;
    assert Pow2(8 - i) == 2 * p;
    Distribute(v0, c, p);
    ValueBound(bits[..i + 1]);
    Pow2Add(i + 1, 7 - i);
    Pow2Eight();
    BelowProduct(v, Pow2(i + 1), p);
  }

  lemma Distribute(v0: int, c: int, p: int)
    ensures v0 * (2 * p) + c * p == (2 * v0 + c) * p
  {
  }

  lemma BelowProduct(v: nat, q: nat, p: nat)
    requires v < q
    ensures v * p <= q * p - p
  {
    var d := q - v;
    assert (d - 1) * p >= 0;
    assert d * p == (d - 1) * p + p;
    assert q * p == v * p + d * p;
  }

  /** The `for i in 0..8 { acc += data[start + i] << (7 - i) }` loop of the driver.
      The `u8` accumulator never overflows, and it ends as the byte of the eight bits. */
  method PackByte(data: array<u8>, start: nat) returns (b: u8)
    requires start + 8 <= data.Length
    requires IsBits(data[start..start + 8])
    ensures b == ByteOf(data[start..start + 8])
  {
    ghost var bits := data[start..start + 8];
    b := 0;
    for i := 0 to 8
      invariant b as int == ValueMsbFirst(bits[..i]) * Pow2(8 - i)
    {
      assert data[start + i] == bits[i];
      ShiftLeftBit(data[start + i], 7 - i);
      PackStep(bits, i);
      b := b + ShiftLeft(data[start + i], 7 - i);
    }
    assert bits[..8] == bits;
  }
}
