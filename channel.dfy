/**
 * The two halves of `sae.rs` connected: what `handle_client` does with
 * exactly the bytes `sae_2` wrote to the stream, when the receiving KME
 * resolves every identifier the sender used to the key the sender was given
 * and serde reads back what it wrote.
 */
module Channel {
  import opened Base
  import opened Kme
  import Otp
  import Utf8
  import Framing
  import Sender
  import Receiver

  /**
   * What the receiver makes of the envelopes of `plaintexts`, in order:
   * each is printed while it is well-formed UTF-8; the first that is not is
   * where printing stops, as `decrypt` fails with `InvalidUtf8` and the loop
   * panics; after the last one the stream ends and the loop stops quietly.
   */
  function Delivered(plaintexts: seq<seq<byte>>): (r: Receiver.Reception)
    ensures |r.printed| <= |plaintexts|
    ensures forall i :: 0 <= i < |r.printed| ==> r.printed[i] == plaintexts[i]
    ensures r.outcome == Receiver.Disconnected <==> forall i :: 0 <= i < |plaintexts| ==> Utf8.ValidUtf8(plaintexts[i])
    ensures forall i :: 0 <= i < |r.printed| ==> Utf8.ValidUtf8(plaintexts[i])
    ensures |r.printed| < |plaintexts| ==> !Utf8.ValidUtf8(plaintexts[|r.printed|])
    decreases |plaintexts|
  {
    if plaintexts == [] then Receiver.Reception([], Receiver.Disconnected)
    else if !Utf8.ValidUtf8(plaintexts[0]) then
      Receiver.Reception([], Receiver.Panicked(Receiver.DecryptFailed(Otp.InvalidUtf8)))
    else
      var rest := Delivered(plaintexts[1..]);
      assert forall i :: 1 <= i < |plaintexts| ==> plaintexts[i] == plaintexts[1..][i - 1];
      Receiver.Prepend([plaintexts[0]], rest)
  }

  /** `get_key_from_id` on the receiving side returns, for every key the sender used, that same key. */
  ghost predicate Registered(lookup: Lookup, used: seq<KeyMaterial>) {
    forall i :: 0 <= i < |used| ==> used[i].id in lookup && lookup[used[i].id] == used[i].key
  }

  /** Every serialised envelope fits the `u32` length prefix. */
  ghost predicate Framable(codec: Otp.Codec, sent: seq<Otp.EncryptedMessage>) {
    forall i :: 0 <= i < |sent| ==> |codec.serialize(sent[i])| < Framing.U32Modulus
  }

  lemma MasksTail(used: seq<KeyMaterial>, plaintexts: seq<seq<byte>>, sent: seq<Otp.EncryptedMessage>)
    requires Sender.Masks(used, plaintexts, sent) && used != []
    ensures Sender.Masks(used[1..], plaintexts[1..], sent[1..])
  {
    forall i | 0 <= i < |used| - 1
      ensures Otp.New(used[1..][i].id, used[1..][i].key, plaintexts[1..][i]) == Ok(sent[1..][i])
    {
      assert used[1..][i] == used[i + 1] && plaintexts[1..][i] == plaintexts[i + 1] && sent[1..][i] == sent[i + 1];
    }
  }

  /** The first frame of a run of envelopes: read back whole, opened, and either printed or fatal. */
  lemma ReceiveFirstFrame(codec: Otp.Codec, lookup: Lookup, km: KeyMaterial, p: seq<byte>, m: Otp.EncryptedMessage,
                          tail: seq<byte>)
    requires Otp.Sound(codec) && Otp.New(km.id, km.key, p) == Ok(m)
    requires km.id in lookup && lookup[km.id] == km.key
    requires |codec.serialize(m)| < Framing.U32Modulus
    ensures var s := Framing.EncodeFrame(codec.serialize(m)) + tail;
            Receiver.Receive(s, codec, lookup)
            == if Utf8.ValidUtf8(p) then Receiver.Prepend([p], Receiver.Receive(tail, codec, lookup))
               else Receiver.Reception([], Receiver.Panicked(Receiver.DecryptFailed(Otp.InvalidUtf8)))
  {
    var payload := codec.serialize(m);
    var s := Framing.EncodeFrame(payload) + tail;
    Framing.ReadEncodedFrame(payload, tail);
    assert codec.deserialize(payload) == Some(m);
    Otp.DecryptNew(km.id, km.key, p);
    if Utf8.ValidUtf8(p) {
      assert Receiver.Open(payload, codec, lookup) == Ok(p);
      Receiver.ReceivePrints(s, payload, tail, codec, lookup, p);
    } else {
      assert Receiver.Open(payload, codec, lookup) == Err(Receiver.DecryptFailed(Otp.InvalidUtf8));
      Receiver.ReceivePanics(s, payload, tail, codec, lookup, Receiver.DecryptFailed(Otp.InvalidUtf8), []);
    }
  }

  /** The receiver, fed the frames of a run of envelopes, prints their plaintexts as `Delivered` says. */
  lemma {:induction false} ReceiveFrames(codec: Otp.Codec, lookup: Lookup, used: seq<KeyMaterial>,
                                         plaintexts: seq<seq<byte>>, sent: seq<Otp.EncryptedMessage>)
    requires Otp.Sound(codec) && Sender.Masks(used, plaintexts, sent)
    requires Registered(lookup, used) && Framable(codec, sent)
    ensures Receiver.Receive(Sender.Frames(codec, sent), codec, lookup) == Delivered(plaintexts)
    decreases |sent|
  {
    if sent != [] {
      var tail := Sender.Frames(codec, sent[1..]);
      ReceiveFirstFrame(codec, lookup, used[0], plaintexts[0], sent[0], tail);
      MasksTail(used, plaintexts, sent);
      assert Registered(lookup, used[1..]) by {
        forall i | 0 <= i < |used| - 1 ensures used[1..][i] == used[i + 1] { }
      }
      assert Framable(codec, sent[1..]) by {
        forall i | 0 <= i < |sent| - 1 ensures sent[1..][i] == sent[i + 1] { }
      }
      ReceiveFrames(codec, lookup, used[1..], plaintexts[1..], sent[1..]);
    }
  }

  /**
   * End to end: the receiver prints, in order, the 1024-byte buffers the
   * sender masked (each the full buffer as its read left it), for as long as
   * they are well-formed UTF-8, and stops quietly once the sender's frames run
   * out.
   */
  lemma EndToEnd(src: Sender.Source, fetch: Supplier, codec: Otp.Codec, lookup: Lookup)
    requires Sender.ValidSource(src) && Otp.Sound(codec)
    requires var t := Sender.Send(src, fetch, codec);
             Registered(lookup, t.last.used) && Framable(codec, t.last.sent)
    ensures var t := Sender.Send(src, fetch, codec);
            Receiver.Receive(t.last.out, codec, lookup) == Delivered(t.last.plaintexts)
  {
    Sender.SendFrames(src, fetch, codec);
    var t := Sender.Send(src, fetch, codec);
    ReceiveFrames(codec, lookup, t.last.used, t.last.plaintexts, t.last.sent);
  }

  /** Reads of US-ASCII text into the zeroed buffer leave only US-ASCII in it, stale bytes included. */
  lemma {:induction false} AsciiBuffer(chunks: seq<seq<byte>>, k: nat)
    requires k <= |chunks| && forall i :: 0 <= i < k ==> |chunks[i]| <= Sender.KeySizeBytes && Utf8.IsAscii(chunks[i])
    ensures Utf8.IsAscii(Sender.Buffer(chunks, k))
  {
    if k > 0 {
      AsciiBuffer(chunks, k - 1);
      var b := Sender.Buffer(chunks, k);
      var c := chunks[k - 1];
      forall i | 0 <= i < |b| ensures b[i] <= 0x7F {
        if i < |c| {
          assert b[i] == c[i];
        } else {
          assert b[i] == Sender.Buffer(chunks, k - 1)[i];
        }
      }
    }
  }

  /** Every buffer the sender masks for a US-ASCII file is US-ASCII, and so well-formed UTF-8. */
  lemma AsciiPlaintexts(src: Sender.Source, fetch: Supplier, codec: Otp.Codec)
    requires Sender.ValidSource(src)
    requires forall i :: 0 <= i < |src.chunks| ==> Utf8.IsAscii(src.chunks[i])
    ensures var ps := Sender.Send(src, fetch, codec).last.plaintexts;
            forall i :: 0 <= i < |ps| ==> Utf8.ValidUtf8(ps[i])
  {
    Sender.SendConsistent(src, fetch, codec);
    var ps := Sender.Send(src, fetch, codec).last.plaintexts;
    assert Sender.FollowsReads(src, ps);
    forall i | 0 <= i < |ps| ensures Utf8.ValidUtf8(ps[i]) {
      AsciiBuffer(src.chunks, i + 1);
      Utf8.AsciiIsValid(ps[i]);
    }
  }

  /** When every plaintext is well-formed, all of them are printed and the loop ends quietly. */
  lemma DeliversAll(plaintexts: seq<seq<byte>>)
    requires forall i :: 0 <= i < |plaintexts| ==> Utf8.ValidUtf8(plaintexts[i])
    ensures Delivered(plaintexts) == Receiver.Reception(plaintexts, Receiver.Disconnected)
  {
    var r := Delivered(plaintexts);
    assert |r.printed| == |plaintexts|;
    assert r.printed == plaintexts;
  }

  /**
   * For a US-ASCII file, every buffer the sender sent is printed and the
   * receiver's loop ends normally; when the sender finished, the receiver
   * printed one buffer per read.
   */
  lemma AsciiFileIsPrinted(src: Sender.Source, fetch: Supplier, codec: Otp.Codec, lookup: Lookup)
    requires Sender.ValidSource(src) && Otp.Sound(codec)
    requires forall i :: 0 <= i < |src.chunks| ==> Utf8.IsAscii(src.chunks[i])
    requires var t := Sender.Send(src, fetch, codec);
             Registered(lookup, t.last.used) && Framable(codec, t.last.sent)
    ensures var t := Sender.Send(src, fetch, codec);
            Receiver.Receive(t.last.out, codec, lookup) == Receiver.Reception(t.last.plaintexts, Receiver.Disconnected)
    ensures var t := Sender.Send(src, fetch, codec);
            t.outcome == Sender.Finished ==> |Receiver.Receive(t.last.out, codec, lookup).printed| == |src.chunks|
  {
    EndToEnd(src, fetch, codec, lookup);
    AsciiPlaintexts(src, fetch, codec);
    DeliversAll(Sender.Send(src, fetch, codec).last.plaintexts);
    Sender.SendFrames(src, fetch, codec);
  }

  /**
   * The file "a" x 1023 followed by "é" (C3 A9), read as 1024 bytes and then 1
   * byte: the read splits the character.
   */
  const SplitFile: Sender.Source := Sender.Source([seq(1023, _ => 0x61) + [0xC3], [0xA9]], false)

  /** The file itself is well-formed UTF-8. */
  lemma SplitFileIsText()
    ensures Utf8.ValidUtf8(SplitFile.chunks[0] + SplitFile.chunks[1])
  {
    var a: seq<byte> := seq(1023, _ => 0x61);
    var e: seq<byte> := [0xC3, 0xA9];
    Utf8.AsciiIsValid(a);
    assert Utf8.LeadingCharLength(e) == 2 && e[2..] == [];
    Utf8.ValidUtf8Append(a, e);
    assert SplitFile.chunks[0] + SplitFile.chunks[1] == a + e;
  }

  /** The first read fills the buffer with the first chunk, which ends in the bare lead byte C3. */
  lemma SplitFileFirstBuffer()
    ensures !Utf8.ValidUtf8(Sender.Buffer(SplitFile.chunks, 1))
  {
    var first := SplitFile.chunks[0];
    assert Sender.Buffer(SplitFile.chunks, 1) == Sender.Overwrite(Zeros(Sender.KeySizeBytes), first);
    assert Sender.Buffer(SplitFile.chunks, 1) == first;
    Utf8.AsciiThenLeadIsInvalid(seq(1023, _ => 0x61), 0xC3);
  }

  /** When the first plaintext is not well-formed, nothing is printed and `decrypt` makes the loop panic. */
  lemma FirstIllFormedPanics(plaintexts: seq<seq<byte>>)
    requires plaintexts != [] && !Utf8.ValidUtf8(plaintexts[0])
    ensures Delivered(plaintexts) == Receiver.Reception([], Receiver.Panicked(Receiver.DecryptFailed(Otp.InvalidUtf8)))
  {
  }

  /**
   * A character split across two reads makes the first buffer end in a bare
   * lead byte: `decrypt` rejects it as invalid UTF-8 and the receiver panics
   * before printing anything, even though the file is well-formed text and the
   * sender finishes without error.
   */
  lemma SplitCharacterPanics(fetch: Supplier, codec: Otp.Codec, lookup: Lookup)
    requires Otp.Sound(codec)
    requires var t := Sender.Send(SplitFile, fetch, codec);
             Registered(lookup, t.last.used) && Framable(codec, t.last.sent)
    requires Sender.Send(SplitFile, fetch, codec).outcome == Sender.Finished
    ensures var t := Sender.Send(SplitFile, fetch, codec);
            Receiver.Receive(t.last.out, codec, lookup)
            == Receiver.Reception([], Receiver.Panicked(Receiver.DecryptFailed(Otp.InvalidUtf8)))
  {
    assert Sender.ValidSource(SplitFile);
    EndToEnd(SplitFile, fetch, codec, lookup);
    Sender.FirstPlaintext(SplitFile, fetch, codec);
    SplitFileFirstBuffer();
    FirstIllFormedPanics(Sender.Send(SplitFile, fetch, codec).last.plaintexts);
  }
}
