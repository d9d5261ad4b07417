/**
 * The one-time-pad envelope of `sae.rs`: `EncryptedMessage::new` masks a
 * plaintext with a key, byte by byte and without cycling the key, and
 * `decrypt` removes the mask and insists that what it recovers is UTF-8 text.
 */
module Otp {
  import opened Base
  import Utf8

  /** `EncryptedMessageError`; `KeyTooShort` carries (key length, text length). */
  datatype EncryptedMessageError = KeyTooShort(keyLen: nat, textLen: nat) | InvalidUtf8

  /** The envelope on the wire: the key's identifier, never the key, and the masked bytes. */
  datatype EncryptedMessage = EncryptedMessage(keyId: string, ciphertext: seq<byte>)

  /**
   * `a.iter().zip(b.iter()).map(|(&x, &y)| x ^ y).collect()`: `zip` stops at
   * the shorter input, so the result pairs byte i of each and no more.
   */
  function XorZip(a: seq<byte>, b: seq<byte>): (r: seq<byte>)
    ensures |r| == Min(|a|, |b|)
    ensures forall i :: 0 <= i < |r| ==> r[i] == Xor(a[i], b[i])
  {
    if |a| == 0 || |b| == 0 then [] else [Xor(a[0], b[0])] + XorZip(a[1..], b[1..])
  }

  /** Masking twice with the same key bytes gives the original bytes back. */
  lemma XorZipInvolutive(p: seq<byte>, k: seq<byte>)
    requires |k| >= |p|
    ensures XorZip(XorZip(p, k), k) == p
  {
    var c := XorZip(p, k);
    forall i | 0 <= i < |p|
      ensures XorZip(c, k)[i] == p[i]
    {
      XorInvolutive(p[i], k[i]);
    }
  }

  /** Only the first `|a|` key bytes take part. */
  lemma {:induction false} XorZipPrefix(a: seq<byte>, k: seq<byte>)
    requires |k| >= |a|
    ensures XorZip(a, k) == XorZip(a, k[..|a|])
  {
    var x, y := XorZip(a, k), XorZip(a, k[..|a|]);
    assert |x| == |y|;
    forall i | 0 <= i < |x|
      ensures x[i] == y[i]
    {
      assert k[..|a|][i] == k[i];
    }
  }

  /**
   * `EncryptedMessage::new(key_id, key, plaintext)`: refuses a key shorter
   * than the plaintext, otherwise masks byte i of the plaintext with byte i of
   * the key and keeps the identifier as given.
   */
  function New(keyId: string, key: seq<byte>, plaintext: seq<byte>): (r: Result<EncryptedMessage, EncryptedMessageError>)
    ensures r.Err? <==> |key| < |plaintext|
    ensures r.Err? ==> r.error == KeyTooShort(|key|, |plaintext|)
    ensures r.Ok? ==> r.value.keyId == keyId && |r.value.ciphertext| == |plaintext|
  {
    if |key| < |plaintext| then
      Err(KeyTooShort(|key|, |plaintext|))
    else
      Ok(EncryptedMessage(keyId, XorZip(plaintext, key)))
  }

  /** Byte i of the ciphertext is byte i of the plaintext masked with byte i of the key. */
  lemma NewMasksEachByte(keyId: string, key: seq<byte>, plaintext: seq<byte>)
    requires |key| >= |plaintext|
    ensures New(keyId, key, plaintext).Ok?
    ensures var c := New(keyId, key, plaintext).value.ciphertext;
            forall i :: 0 <= i < |plaintext| ==> c[i] == Xor(plaintext[i], key[i])
  {
  }

  /**
   * `EncryptedMessage::decrypt(&self, key)`: the length check comes first;
   * then the mask is removed and the bytes must be well-formed UTF-8, in
   * which case the `String` returned holds exactly those bytes.
   */
  function Decrypt(msg: EncryptedMessage, key: seq<byte>): (r: Result<seq<byte>, EncryptedMessageError>)
    ensures r == Err(KeyTooShort(|key|, |msg.ciphertext|)) <==> |key| < |msg.ciphertext|
    ensures r == Err(InvalidUtf8) <==> |key| >= |msg.ciphertext| && !Utf8.ValidUtf8(XorZip(msg.ciphertext, key))
    ensures r.Ok? <==> |key| >= |msg.ciphertext| && Utf8.ValidUtf8(XorZip(msg.ciphertext, key))
    ensures r.Ok? ==> Utf8.ValidUtf8(r.value) && |r.value| == |msg.ciphertext|
  {
    if |key| < |msg.ciphertext| then
      Err(KeyTooShort(|key|, |msg.ciphertext|))
    else
      var plaintext := XorZip(msg.ciphertext, key);
      if Utf8.ValidUtf8(plaintext) then Ok(plaintext) else Err(InvalidUtf8)
  }

  /** Byte i of the text `decrypt` returns is byte i of the ciphertext unmasked with byte i of the key. */
  lemma DecryptUnmasksEachByte(msg: EncryptedMessage, key: seq<byte>)
    requires Decrypt(msg, key).Ok?
    ensures var p := Decrypt(msg, key).value;
            forall i :: 0 <= i < |p| ==> p[i] == Xor(msg.ciphertext[i], key[i])
  {
  }

  /**
   * Round trip: with a key at least as long as the plaintext, decrypting what
   * `new` produced gives the plaintext back exactly when it is UTF-8 text, and
   * fails with `InvalidUtf8` otherwise.
   */
  lemma DecryptNew(keyId: string, key: seq<byte>, plaintext: seq<byte>)
    requires |key| >= |plaintext|
    ensures New(keyId, key, plaintext).Ok?
    ensures Decrypt(New(keyId, key, plaintext).value, key)
         == if Utf8.ValidUtf8(plaintext) then Ok(plaintext) else Err(InvalidUtf8)
  {
    XorZipInvolutive(plaintext, key);
  }

  /** Key bytes past the plaintext's length do not change the envelope. */
  lemma NewIgnoresKeySurplus(keyId: string, key: seq<byte>, plaintext: seq<byte>)
    requires |key| >= |plaintext|
    ensures New(keyId, key, plaintext) == New(keyId, key[..|plaintext|], plaintext)
  {
    XorZipPrefix(plaintext, key);
  }

  /** The envelope of "AB" under key k1 = [0x01, 0x02, 0x03], and back. */
  lemma TwoLetterExample()
    ensures New("k1", [0x01, 0x02, 0x03], [0x41, 0x42]) == Ok(EncryptedMessage("k1", [0x40, 0x40]))
    ensures Decrypt(EncryptedMessage("k1", [0x40, 0x40]), [0x01, 0x02, 0x03]) == Ok([0x41, 0x42])
  {
    var m := New("k1", [0x01, 0x02, 0x03], [0x41, 0x42]);
    assert m.value.ciphertext == [0x40, 0x40];
    Utf8.AsciiIsValid([0x41, 0x42]);
    DecryptNew("k1", [0x01, 0x02, 0x03], [0x41, 0x42]);
  }

  /**
   * The `Serialize`/`Deserialize` pair serde derives for `EncryptedMessage`
   * (`serde_json::to_vec` and `serde_json::from_slice`). Its byte format is
   * not part of the model; `Sound` is what the channel relies on.
   */
  datatype Codec = Codec(serialize: EncryptedMessage -> seq<byte>, deserialize: seq<byte> -> Option<EncryptedMessage>)

  ghost predicate Sound(codec: Codec) {
    forall m :: codec.deserialize(codec.serialize(m)) == Some(m)
  }
}
