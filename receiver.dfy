/**
 * The receiving side, `handle_client`: read a frame, deserialise the
 * envelope, ask the KME for the key by its identifier, decrypt, print, and
 * go round again until the length prefix can no longer be read. Every other
 * failure is an `expect` and panics.
 *
 * `Receive` states what the loop does with the bytes the peer sent;
 * `HandleClient` is the loop itself and is proved to do what `Receive` says.
 */
module Receiver {
  import opened Base
  import opened Kme
  import Otp
  import Utf8
  import Framing

  /** Why the loop panics: the `expect` that failed. */
  datatype Failure =
    | PayloadCut(declared: nat, available: nat)
    | Undeserialisable
    | KeyUnavailable(keyId: string)
    | DecryptFailed(error: Otp.EncryptedMessageError)

  /** The loop ends with `break` when the prefix cannot be read, or panics. */
  datatype ReceiverOutcome = Disconnected | Panicked(failure: Failure)

  /** The texts printed, in order, and how the loop ended. */
  datatype Reception = Reception(printed: seq<seq<byte>>, outcome: ReceiverOutcome)

  /**
   * The payload of one frame, to the text it prints: deserialise, look the
   * key up, decrypt. The text is the payload's ciphertext unmasked with the
   * key the KME holds for its identifier; a failure names the first of the
   * three steps that failed.
   */
  function Open(payload: seq<byte>, codec: Otp.Codec, lookup: Lookup): (r: Result<seq<byte>, Failure>)
    ensures r.Ok? ==> Utf8.ValidUtf8(r.value)
    ensures r.Ok? <==>
      && codec.deserialize(payload).Some?
      && codec.deserialize(payload).value.keyId in lookup
      && Otp.Decrypt(codec.deserialize(payload).value, lookup[codec.deserialize(payload).value.keyId]).Ok?
    ensures r.Ok? ==>
      var msg := codec.deserialize(payload).value;
      r.value == Otp.XorZip(msg.ciphertext, lookup[msg.keyId])
    ensures r == Err(Undeserialisable) <==> codec.deserialize(payload).None?
    ensures r.Err? && r.error.KeyUnavailable? <==>
      codec.deserialize(payload).Some? && codec.deserialize(payload).value.keyId !in lookup
    ensures r.Err? && r.error.KeyUnavailable? ==> r.error.keyId == codec.deserialize(payload).value.keyId
    ensures r.Err? && r.error.DecryptFailed? <==>
      && codec.deserialize(payload).Some?
      && codec.deserialize(payload).value.keyId in lookup
      && Otp.Decrypt(codec.deserialize(payload).value, lookup[codec.deserialize(payload).value.keyId]).Err?
    ensures r.Err? && r.error.DecryptFailed? ==>
      var msg := codec.deserialize(payload).value;
      Otp.Decrypt(msg, lookup[msg.keyId]) == Err(r.error.error)
    ensures r.Err? ==> !r.error.PayloadCut?
  {
    match codec.deserialize(payload)
    case None => Err(Undeserialisable)
    case Some(msg) =>
      if msg.keyId !in lookup then Err(KeyUnavailable(msg.keyId))
      else
        match Otp.Decrypt(msg, lookup[msg.keyId])
        case Err(e) => Err(DecryptFailed(e))
        case Ok(text) => Ok(text)
  }

  /** `printed` printed before whatever `r` describes. */
  function Prepend(printed: seq<seq<byte>>, r: Reception): Reception {
    Reception(printed + r.printed, r.outcome)
  }

  /**
   * What the loop does with the bytes `stream` still holds. Fewer than four
   * bytes end it quietly.
   */
  function Receive(stream: seq<byte>, codec: Otp.Codec, lookup: Lookup): (r: Reception)
    ensures |stream| < 4 ==> r == Reception([], Disconnected)
    decreases |stream|
  {
    match Framing.ReadFrame(stream)
    case NoPrefix => Reception([], Disconnected)
    case ShortPayload(declared, available) => Reception([], Panicked(PayloadCut(declared, available)))
    case Frame(payload, rest) =>
      match Open(payload, codec, lookup)
      case Err(failure) => Reception([], Panicked(failure))
      case Ok(text) => Prepend([text], Receive(rest, codec, lookup))
  }

  /** Every text the loop prints is well-formed UTF-8. */
  lemma {:induction false} ReceivedTextsAreUtf8(stream: seq<byte>, codec: Otp.Codec, lookup: Lookup)
    ensures forall i :: 0 <= i < |Receive(stream, codec, lookup).printed| ==>
      Utf8.ValidUtf8(Receive(stream, codec, lookup).printed[i])
    decreases |stream|
  {
    match Framing.ReadFrame(stream)
    case NoPrefix =>
    case ShortPayload(_, _) =>
    case Frame(payload, rest) =>
      match Open(payload, codec, lookup)
      case Err(_) =>
      case Ok(text) =>
        ReceivedTextsAreUtf8(rest, codec, lookup);
  }

  /** `ReadFrame` on the bytes from `pos` on, in terms of `stream` itself. */
  lemma ReadFrameAt(stream: seq<byte>, pos: nat)
    requires pos + 4 <= |stream|
    ensures var len := Framing.FromBeBytes(stream[pos..pos + 4]);
            Framing.ReadFrame(stream[pos..]) ==
              if |stream| - (pos + 4) < len then Framing.ShortPayload(len, |stream| - (pos + 4))
              else Framing.Frame(stream[pos + 4..pos + 4 + len], stream[pos + 4 + len..])
  {
    var rest := stream[pos..];
    assert rest[..4] == stream[pos..pos + 4];
    var len := Framing.FromBeBytes(stream[pos..pos + 4]);
    if |stream| - (pos + 4) >= len {
      assert rest[4..4 + len] == stream[pos + 4..pos + 4 + len];
      assert rest[4 + len..] == stream[pos + 4 + len..];
    }
  }

  /** A frame announcing more bytes than remain ends the loop with the second `read_exact` failing. */
  lemma ReceiveCut(s: seq<byte>, declared: nat, available: nat, codec: Otp.Codec, lookup: Lookup, printed: seq<seq<byte>>)
    requires Framing.ReadFrame(s) == Framing.ShortPayload(declared, available)
    ensures Receive(s, codec, lookup) == Reception([], Panicked(PayloadCut(declared, available)))
    ensures Prepend(printed, Receive(s, codec, lookup)) == Reception(printed, Panicked(PayloadCut(declared, available)))
  {
    assert printed + [] == printed;
  }

  /** A frame whose payload fails to open ends the loop with that failure. */
  lemma ReceivePanics(s: seq<byte>, payload: seq<byte>, rest: seq<byte>, codec: Otp.Codec, lookup: Lookup,
                      failure: Failure, printed: seq<seq<byte>>)
    requires Framing.ReadFrame(s) == Framing.Frame(payload, rest)
    requires Open(payload, codec, lookup) == Err(failure)
    ensures Receive(s, codec, lookup) == Reception([], Panicked(failure))
    ensures Prepend(printed, Receive(s, codec, lookup)) == Reception(printed, Panicked(failure))
  {
    assert printed + [] == printed;
  }

  /** A frame whose payload opens prints it and goes on with the rest. */
  lemma ReceivePrints(s: seq<byte>, payload: seq<byte>, rest: seq<byte>, codec: Otp.Codec, lookup: Lookup, text: seq<byte>)
    requires Framing.ReadFrame(s) == Framing.Frame(payload, rest)
    requires Open(payload, codec, lookup) == Ok(text)
    ensures Receive(s, codec, lookup) == Prepend([text], Receive(rest, codec, lookup))
  {
  }

  lemma PrependAssoc(a: seq<seq<byte>>, b: seq<seq<byte>>, r: Reception)
    ensures Prepend(a, Prepend(b, r)) == Prepend(a + b, r)
  {
    assert a + (b + r.printed) == (a + b) + r.printed;
  }

  lemma PrependNothing(a: seq<seq<byte>>, outcome: ReceiverOutcome)
    ensures Prepend(a, Reception([], outcome)) == Reception(a, outcome)
  {
    assert a + [] == a;
  }

  /**
   * The `loop` of `handle_client` over the bytes the peer sends before it
   * closes the connection.
   */
  method HandleClient(stream: seq<byte>, codec: Otp.Codec, lookup: Lookup) returns (printed: seq<seq<byte>>, outcome: ReceiverOutcome)
    ensures Reception(printed, outcome) == Receive(stream, codec, lookup)
  {
    printed := [];
    var pos := 0;
    while true
      invariant 0 <= pos <= |stream|
      invariant Receive(stream, codec, lookup) == Prepend(printed, Receive(stream[pos..], codec, lookup))
      decreases |stream| - pos
    {
      ghost var rest := stream[pos..];
      if |stream| - pos < 4 {
        PrependNothing(printed, Disconnected);
        break;
      }
      ReadFrameAt(stream, pos);
      var len := Framing.FromBeBytes(stream[pos..pos + 4]);
      pos := pos + 4;
      if |stream| - pos < len {
        outcome := Panicked(PayloadCut(len, |stream| - pos));
        ReceiveCut(rest, len, |stream| - pos, codec, lookup, printed);
        return;
      }
      var buf := stream[pos..pos + len];
      pos := pos + len;
      assert Framing.ReadFrame(rest) == Framing.Frame(buf, stream[pos..]);
      var msg := codec.deserialize(buf);
      if msg.None? {
        outcome := Panicked(Undeserialisable);
        ReceivePanics(rest, buf, stream[pos..], codec, lookup, Undeserialisable, printed);
        return;
      }
      if msg.value.keyId !in lookup {
        outcome := Panicked(KeyUnavailable(msg.value.keyId));
        ReceivePanics(rest, buf, stream[pos..], codec, lookup, KeyUnavailable(msg.value.keyId), printed);
        return;
      }
      var key := lookup[msg.value.keyId];
      var decrypted := Otp.Decrypt(msg.value, key);
      if decrypted.Err? {
        outcome := Panicked(DecryptFailed(decrypted.error));
        ReceivePanics(rest, buf, stream[pos..], codec, lookup, DecryptFailed(decrypted.error), printed);
        return;
      }
      var text := decrypted.value;
      ReceivePrints(rest, buf, stream[pos..], codec, lookup, text);
      PrependAssoc(printed, [text], Receive(stream[pos..], codec, lookup));
      printed := printed + [text];
    }
    outcome := Disconnected;
  }
}
