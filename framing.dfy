/**
 * The wire frame of `sae.rs`: the sender writes
 * `(serialized.len() as u32).to_be_bytes()` and then the serialized envelope;
 * the receiver reads four bytes, decodes them with `u32::from_be_bytes` and
 * then reads exactly that many bytes.
 */
module Framing {
  import opened Base

  /** 2^32: one more than the largest `u32`. */
  const U32Modulus: nat := 0x1_0000_0000

  /** `u32::to_be_bytes`: most significant byte first. */
  function ToBeBytes(n: nat): (b: seq<byte>)
    requires n < U32Modulus
    ensures |b| == 4
  {
    [n / 0x100_0000, (n / 0x1_0000) % 0x100, (n / 0x100) % 0x100, n % 0x100]
  }

  /** `u32::from_be_bytes`. */
  function FromBeBytes(b: seq<byte>): (n: nat)
    requires |b| == 4
    ensures n < U32Modulus
  {
    b[0] as nat * 0x100_0000 + b[1] as nat * 0x1_0000 + b[2] as nat * 0x100 + b[3] as nat
  }

  lemma DivMod256(n: int, q: int, r: int)
    requires 0 <= r < 0x100 && n == q * 0x100 + r
    ensures n / 0x100 == q && n % 0x100 == r
  {
  }

  lemma DivMod2p16(n: int, q: int, r: int)
    requires 0 <= r < 0x1_0000 && n == q * 0x1_0000 + r
    ensures n / 0x1_0000 == q
  {
  }

  lemma DivMod2p24(n: int, q: int, r: int)
    requires 0 <= r < 0x100_0000 && n == q * 0x100_0000 + r
    ensures n / 0x100_0000 == q
  {
  }

  /** A number below 2^32 is the sum of its four base-256 digits at their weights. */
  lemma Digits(n: nat)
    requires n < U32Modulus
    ensures n / 0x100_0000 < 0x100
    ensures n == (n / 0x100_0000) * 0x100_0000 + ((n / 0x1_0000) % 0x100) * 0x1_0000
               + ((n / 0x100) % 0x100) * 0x100 + n % 0x100
  {
    var q1, r0 := n / 0x100, n % 0x100;
    var q2, r1 := q1 / 0x100, q1 % 0x100;
    var q3, r2 := q2 / 0x100, q2 % 0x100;
    assert n == q1 * 0x100 + r0;
    assert q1 == q2 * 0x100 + r1;
    assert q2 == q3 * 0x100 + r2;
    assert n == q2 * 0x1_0000 + (r1 * 0x100 + r0);
    DivMod2p16(n, q2, r1 * 0x100 + r0);
    assert n == q3 * 0x100_0000 + (r2 * 0x1_0000 + r1 * 0x100 + r0);
    DivMod2p24(n, q3, r2 * 0x1_0000 + r1 * 0x100 + r0);
  }

  /** Four base-256 digits at their weights are read back digit by digit. */
  lemma DigitsOf(v0: nat, v1: nat, v2: nat, v3: nat)
    requires v0 < 0x100 && v1 < 0x100 && v2 < 0x100 && v3 < 0x100
    ensures var n := v0 * 0x100_0000 + v1 * 0x1_0000 + v2 * 0x100 + v3;
            && n / 0x100_0000 == v0 && (n / 0x1_0000) % 0x100 == v1
            && (n / 0x100) % 0x100 == v2 && n % 0x100 == v3
  {
    var n := v0 * 0x100_0000 + v1 * 0x1_0000 + v2 * 0x100 + v3;
    DivMod2p24(n, v0, v1 * 0x1_0000 + v2 * 0x100 + v3);
    DivMod2p16(n, v0 * 0x100 + v1, v2 * 0x100 + v3);
    DivMod256(v0 * 0x100 + v1, v0, v1);
    DivMod256(n, v0 * 0x1_0000 + v1 * 0x100 + v2, v3);
    DivMod256(v0 * 0x1_0000 + v1 * 0x100 + v2, v0 * 0x100 + v1, v2);
  }

  lemma FromToBeBytes(n: nat)
    requires n < U32Modulus
    ensures FromBeBytes(ToBeBytes(n)) == n
  {
    Digits(n);
  }

  lemma ToFromBeBytes(b: seq<byte>)
    requires |b| == 4
    ensures ToBeBytes(FromBeBytes(b)) == b
  {
    DigitsOf(b[0], b[1], b[2], b[3]);
  }

  /**
   * `(len as u32).to_be_bytes()`: the cast keeps the low 32 bits, so the
   * receiver's `from_be_bytes` reads back `len` only while it fits in a `u32`.
   */
  function LengthPrefix(len: nat): (b: seq<byte>)
    ensures |b| == 4
    ensures FromBeBytes(b) == len % U32Modulus
    ensures len < U32Modulus ==> FromBeBytes(b) == len
  {
    FromToBeBytes(len % U32Modulus);
    ToBeBytes(len % U32Modulus)
  }

  /** One frame: the four-byte length prefix followed by the payload itself. */
  function EncodeFrame(payload: seq<byte>): (f: seq<byte>)
    ensures |f| == 4 + |payload| && f[4..] == payload
    ensures FromBeBytes(f[..4]) == |payload| % U32Modulus
  {
    var prefix := LengthPrefix(|payload|);
    assert (prefix + payload)[..4] == prefix;
    prefix + payload
  }

  /**
   * What one pass of the receiver's framing reads from the bytes still in
   * the stream: no complete prefix (the first `read_exact` fails), a prefix
   * announcing more bytes than remain (the second `read_exact` fails), or a
   * payload and the bytes after it.
   */
  datatype FrameRead = NoPrefix | ShortPayload(declared: nat, available: nat) | Frame(payload: seq<byte>, rest: seq<byte>)

  function ReadFrame(s: seq<byte>): (r: FrameRead)
    ensures r.NoPrefix? <==> |s| < 4
    ensures r.ShortPayload? ==> r.available == |s| - 4 < r.declared < U32Modulus
    ensures r.Frame? ==> |r.payload| < U32Modulus && s[4..] == r.payload + r.rest
  {
    if |s| < 4 then NoPrefix
    else
      var len := FromBeBytes(s[..4]);
      if |s| - 4 < len then ShortPayload(len, |s| - 4)
      else
        assert s[4..] == s[4..4 + len] + s[4 + len..];
        Frame(s[4..4 + len], s[4 + len..])
  }

  /** What is read as a frame is exactly a frame as the sender encodes it, followed by the rest of the stream. */
  lemma ReadFrameIsEncoded(s: seq<byte>)
    requires ReadFrame(s).Frame?
    ensures s == EncodeFrame(ReadFrame(s).payload) + ReadFrame(s).rest
  {
    var payload, rest := ReadFrame(s).payload, ReadFrame(s).rest;
    ToFromBeBytes(s[..4]);
    assert LengthPrefix(|payload|) == s[..4];
    assert s == s[..4] + payload + rest;
  }

  /** Frame round trip: a payload shorter than 2^32 bytes is read back whole, and what follows it is untouched. */
  lemma ReadEncodedFrame(payload: seq<byte>, rest: seq<byte>)
    requires |payload| < U32Modulus
    ensures ReadFrame(EncodeFrame(payload) + rest) == Frame(payload, rest)
  {
    var s := EncodeFrame(payload) + rest;
    assert s[..4] == EncodeFrame(payload)[..4];
    assert s[4..4 + |payload|] == payload;
    assert s[4 + |payload|..] == rest;
  }

  /** A frame's prefix cannot be complete in fewer than four bytes, so a stream cut inside it reads as no prefix. */
  lemma CutPrefixReadsAsNoPrefix(payload: seq<byte>, k: nat)
    requires k < 4
    ensures ReadFrame(EncodeFrame(payload)[..k]) == NoPrefix
  {
  }

  /** A stream cut inside a frame's payload reads as a short payload. */
  lemma CutPayloadReadsAsShort(payload: seq<byte>, k: nat)
    requires |payload| < U32Modulus && 4 <= k < 4 + |payload|
    ensures ReadFrame(EncodeFrame(payload)[..k]) == ShortPayload(|payload|, k - 4)
  {
    var f := EncodeFrame(payload);
    assert f[..k][..4] == f[..4];
  }

  /**
   * The `as u32` cast: a payload of 2^32 bytes or more is announced by its
   * length modulo 2^32, so the receiver takes a prefix of it as the whole
   * payload and the rest as the start of the next frame.
   */
  lemma OversizedPayloadMisread(payload: seq<byte>, rest: seq<byte>)
    requires |payload| >= U32Modulus
    ensures var n := |payload| % U32Modulus;
            ReadFrame(EncodeFrame(payload) + rest) == Frame(payload[..n], payload[n..] + rest)
  {
    var s := EncodeFrame(payload) + rest;
    var n := |payload| % U32Modulus;
    assert s[..4] == EncodeFrame(payload)[..4];
    assert s[4..4 + n] == payload[..n];
    assert s[4 + n..] == payload[n..] + rest;
  }
}
