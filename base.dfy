/** Shared vocabulary of the model: bytes, byte XOR and the two failure-carrying wrappers. */
module Base {

  /** A Rust `u8`. */
  type byte = x: int | 0 <= x < 0x100

  datatype Option<+T> = None | Some(value: T)

  datatype Result<+T, +E> = Ok(value: T) | Err(error: E)

  function Min(a: nat, b: nat): nat {
    if a <= b then a else b
  }

  /** A sequence of `n` zero bytes, as `vec![0u8; n]` allocates. */
  function Zeros(n: nat): (z: seq<byte>)
    ensures |z| == n && forall i :: 0 <= i < n ==> z[i] == 0
  {
    seq(n, _ => 0)
  }

  function Pow2(n: nat): (p: nat)
    ensures p >= 1
  {
    if n == 0 then 1 else 2 * Pow2(n - 1)
  }

  /** The exclusive or of the low `n` bits of `a` and `b`, least significant bit first. */
  function XorBits(a: nat, b: nat, n: nat): (r: nat)
    ensures r < Pow2(n)
  {
    if n == 0 then 0
    else 2 * XorBits(a / 2, b / 2, n - 1) + (if a % 2 == b % 2 then 0 else 1)
  }

  /** Bit `i` of `x`, bit 0 being the least significant. */
  predicate Bit(x: nat, i: nat) {
    (x / Pow2(i)) % 2 == 1
  }

  lemma DivUnique(x: int, d: int, q: int, r: int)
    requires d > 0 && 0 <= r < d && x == d * q + r
    ensures x / d == q
  {
    var q', r' := x / d, x % d;
    assert x == d * q' + r';
    if q' < q {
      MulMonotone(d, q', q - 1);
    } else if q < q' {
      MulMonotone(d, q, q' - 1);
    }
  }

  lemma MulMonotone(d: int, a: int, b: int)
    requires d > 0 && a <= b
    ensures d * a <= d * b
  {
    assert d * b - d * a == d * (b - a);
  }

  /** Dropping the low bit, then `i - 1` more, drops `i` bits. */
  lemma BitOfHalf(x: nat, i: nat)
    requires i > 0
    ensures Bit(x, i) == Bit(x / 2, i - 1)
  {
    var m := Pow2(i - 1);
    var q, r := x / 2, x % 2;
    var q2, r2 := q / m, q % m;
    assert x == 2 * q + r;
    assert q == m * q2 + r2;
    assert x == (2 * m) * q2 + (2 * r2 + r);
    DivUnique(x, 2 * m, q2, 2 * r2 + r);
  }

  /** Bit 0 is the remainder modulo 2. */
  lemma BitZero(x: nat)
    ensures Bit(x, 0) == (x % 2 == 1)
  {
    assert Pow2(0) == 1;
  }

  /** `2 * h + d` for a bit `d`: halving gives `h`, and its low bit is `d`. */
  lemma HalveDouble(h: nat, d: nat)
    requires d < 2
    ensures (2 * h + d) / 2 == h && Bit(2 * h + d, 0) == (d == 1)
  {
    DivUnique(2 * h + d, 2, h, d);
    BitZero(2 * h + d);
  }

  /** The low bit of `XorBits(a, b, n)` and what the higher bits are. */
  lemma XorBitsStep(a: nat, b: nat, n: nat)
    requires n > 0
    ensures XorBits(a, b, n) / 2 == XorBits(a / 2, b / 2, n - 1)
    ensures Bit(XorBits(a, b, n), 0) == (Bit(a, 0) != Bit(b, 0))
  {
    var h := XorBits(a / 2, b / 2, n - 1);
    var d := if a % 2 == b % 2 then 0 else 1;
    assert XorBits(a, b, n) == 2 * h + d;
    HalveDouble(h, d);
    BitZero(a);
    BitZero(b);
  }

  /** Bit `i` of `XorBits(a, b, n)` is set exactly when bits `i` of `a` and `b` differ, for every `i` below `n`. */
  lemma {:induction false} XorBitsBits(a: nat, b: nat, n: nat)
    ensures forall i :: 0 <= i < n ==> Bit(XorBits(a, b, n), i) == (Bit(a, i) != Bit(b, i))
  {
    if n > 0 {
      var x := XorBits(a, b, n);
      XorBitsStep(a, b, n);
      XorBitsBits(a / 2, b / 2, n - 1);
      forall i | 0 < i < n
        ensures Bit(x, i) == (Bit(a, i) != Bit(b, i))
      {
        BitOfHalf(x, i);
        BitOfHalf(a, i);
        BitOfHalf(b, i);
      }
    }
  }

  /** `p ^ k` on two `u8`: each of the eight bits of the result is the exclusive or of the operands' bits. */
  function Xor(a: byte, b: byte): (r: byte)
    ensures forall i :: 0 <= i < 8 ==> Bit(r, i) == (Bit(a, i) != Bit(b, i))
  {
    assert Pow2(8) == 0x100;
    XorBitsBits(a, b, 8);
    XorBits(a, b, 8)
  }

  lemma {:induction false} XorBitsInvolutive(a: nat, k: nat, n: nat)
    requires a < Pow2(n)
    ensures XorBits(XorBits(a, k, n), k, n) == a
  {
    if n > 0 {
      var c := XorBits(a, k, n);
      XorBitsInvolutive(a / 2, k / 2, n - 1);
      assert c / 2 == XorBits(a / 2, k / 2, n - 1);
    }
  }

  /** XOR with the same byte twice is the identity: the pad comes off as it went on. */
  lemma XorInvolutive(a: byte, k: byte)
    ensures Xor(Xor(a, k), k) == a
  {
    assert Pow2(8) == 0x100;
    XorBitsInvolutive(a, k, 8);
  }
}
