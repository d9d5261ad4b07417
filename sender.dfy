/**
 * The sending side, `sae_2`: read the text file a buffer at a time, take
 * one key per buffer from a queue that is refilled from the KME only when it
 * is empty, mask the whole buffer, serialise the envelope and write it as a
 * length-prefixed frame.
 *
 * `Run` and `Send` state what the loop does, one read at a time; `Sae2` is
 * the loop itself, with the buffer as an array that each read overwrites in
 * place, and is proved to produce what `Send` says.
 */
module Sender {
  import opened Base
  import opened Kme
  import Otp
  import Framing

  /** `KEYS_PER_REQUEST` */
  const KeysPerRequest: nat := 5
  /** `KEY_SIZE_BYTES`: the size of the read buffer and of every key asked for. */
  const KeySizeBytes: nat := 1024
  /** `KEY_SIZE_BITS` */
  const KeySizeBits: nat := KeySizeBytes * 8

  /** The query every refill sends: `get_keys_and_id(.., KEYS_PER_REQUEST, KEY_SIZE_BITS)`. */
  const Refill: KeyRequest := KeyRequest(KeysPerRequest, KeySizeBits)

  /**
   * The text file as `reader.read(&mut buffer)` delivers it: the bytes each
   * successful read returns (never empty, never more than the buffer), and
   * whether the read after the last of them fails instead of reporting end of
   * input with a count of 0.
   */
  datatype Source = Source(chunks: seq<seq<byte>>, endsInError: bool)

  predicate ValidSource(src: Source) {
    forall i :: 0 <= i < |src.chunks| ==> 0 < |src.chunks[i]| <= KeySizeBytes
  }

  /** How `sae_2` returns: `Ok(())`, or the error a `?` or an explicit `return Err` passes up. */
  datatype SendOutcome =
    | Finished
    | ReadFailed
    | SupplierFailed
    | NoKeysReceived
    | EncryptFailed(error: Otp.EncryptedMessageError)

  /**
   * The loop's state: `buffer`, `id_and_key_queue`, the number of supplier
   * calls made and the bytes written to the stream, plus the record of what
   * each completed pass used (its key, the plaintext it masked and the
   * envelope it sent).
   */
  datatype SenderState = SenderState(
    buffer: seq<byte>,
    queue: seq<KeyMaterial>,
    calls: nat,
    out: seq<byte>,
    used: seq<KeyMaterial>,
    plaintexts: seq<seq<byte>>,
    sent: seq<Otp.EncryptedMessage>)

  const Initial: SenderState := SenderState(Zeros(KeySizeBytes), [], 0, [], [], [], [])

  /** A read of `bytes` into `buffer`: the first `|bytes|` bytes are replaced, the rest keep what they held. */
  function Overwrite(buffer: seq<byte>, bytes: seq<byte>): (b: seq<byte>)
    requires |bytes| <= |buffer|
    ensures |b| == |buffer|
  {
    bytes + buffer[|bytes|..]
  }

  /** The batch the n-th refill obtained, empty if that call failed. */
  function Batch(fetch: Supplier, n: nat): seq<KeyMaterial> {
    match fetch(n, Refill)
    case Some(batch) => batch
    case None => []
  }

  /** Every key the first `n` refills obtained, in the order the KME gave them. */
  function Supplied(fetch: Supplier, n: nat): seq<KeyMaterial> {
    if n == 0 then [] else Supplied(fetch, n - 1) + Batch(fetch, n - 1)
  }

  /** The frames for a run of envelopes, one after the other. */
  function Frames(codec: Otp.Codec, msgs: seq<Otp.EncryptedMessage>): seq<byte> {
    if msgs == [] then [] else Framing.EncodeFrame(codec.serialize(msgs[0])) + Frames(codec, msgs[1..])
  }

  lemma {:induction false} FramesAppend(codec: Otp.Codec, msgs: seq<Otp.EncryptedMessage>, m: Otp.EncryptedMessage)
    ensures Frames(codec, msgs + [m]) == Frames(codec, msgs) + Framing.EncodeFrame(codec.serialize(m))
  {
    if msgs == [] {
      assert msgs + [m] == [m];
      assert [m][1..] == [];
    } else {
      assert (msgs + [m])[1..] == msgs[1..] + [m];
      FramesAppend(codec, msgs[1..], m);
    }
  }

  /** Pop the front key, mask the whole buffer with it, serialise and append the frame. */
  function EncryptFront(st: SenderState, codec: Otp.Codec): (r: Result<SenderState, SendOutcome>)
    requires st.queue != []
  {
    var km := st.queue[0];
    match Otp.New(km.id, km.key, st.buffer)
    case Err(e) => Err(EncryptFailed(e))
    case Ok(msg) =>
      Ok(st.(queue := st.queue[1..],
             out := st.out + Framing.EncodeFrame(codec.serialize(msg)),
             used := st.used + [km],
             plaintexts := st.plaintexts + [st.buffer],
             sent := st.sent + [msg]))
  }

  /**
   * One pass of the `while` body after a read that returned `bytes`. The
   * supplier is asked only when the queue is empty, a failed call or an empty
   * batch stops the loop before any key is taken, and otherwise exactly the
   * front key is used: the pass fails only when that key is shorter than the
   * buffer, and succeeds otherwise.
   */
  function Step(st: SenderState, bytes: seq<byte>, fetch: Supplier, codec: Otp.Codec): (r: Result<SenderState, SendOutcome>)
    requires |bytes| <= |st.buffer|
    ensures r == Err(SupplierFailed) <==> st.queue == [] && fetch(st.calls, Refill).None?
    ensures r == Err(NoKeysReceived) <==> st.queue == [] && fetch(st.calls, Refill) == Some([])
    ensures r.Err? ==> r.error.SupplierFailed? || r.error.NoKeysReceived? || r.error.EncryptFailed?
    ensures var available := if st.queue == [] then Batch(fetch, st.calls) else st.queue;
      && (r.Err? && r.error.EncryptFailed? <==> available != [] && |available[0].key| < |st.buffer|)
      && (r.Err? && r.error.EncryptFailed? ==> r.error.error == Otp.KeyTooShort(|available[0].key|, |st.buffer|))
    ensures r.Ok? ==> r.value.calls == if st.queue == [] then st.calls + 1 else st.calls
    ensures r.Ok? ==>
      var available := if st.queue == [] then Batch(fetch, st.calls) else st.queue;
      && available != []
      && r.value.buffer == Overwrite(st.buffer, bytes)
      && r.value.used == st.used + [available[0]]
      && r.value.queue == available[1..]
      && r.value.plaintexts == st.plaintexts + [Overwrite(st.buffer, bytes)]
  {
    var buffer := Overwrite(st.buffer, bytes);
    if st.queue == [] then
      match fetch(st.calls, Refill)
      case None => Err(SupplierFailed)
      case Some(batch) =>
        if batch == [] then Err(NoKeysReceived)
        else EncryptFront(st.(buffer := buffer, queue := batch, calls := st.calls + 1), codec)
    else
      EncryptFront(st.(buffer := buffer), codec)
  }

  /**
   * The envelope a successful pass sends: the buffer masked with the key it
   * used, whose frame is appended to the stream.
   */
  lemma StepSeals(st: SenderState, bytes: seq<byte>, fetch: Supplier, codec: Otp.Codec)
    requires |bytes| <= |st.buffer| && Step(st, bytes, fetch, codec).Ok?
    ensures var next := Step(st, bytes, fetch, codec).value;
            var km := next.used[|st.used|];
            var sealed := Otp.New(km.id, km.key, next.buffer);
            && sealed.Ok?
            && next.sent == st.sent + [sealed.value]
            && next.out == st.out + Framing.EncodeFrame(codec.serialize(sealed.value))
  {
    var available := if st.queue == [] then Batch(fetch, st.calls) else st.queue;
    var mid := st.(buffer := Overwrite(st.buffer, bytes), queue := available,
                   calls := if st.queue == [] then st.calls + 1 else st.calls);
    assert Step(st, bytes, fetch, codec) == EncryptFront(mid, codec);
  }

  /** The state at the end of the loop and how `sae_2` returns. */
  datatype Transcript = Transcript(last: SenderState, outcome: SendOutcome)

  /**
   * Why `sae_2` returns what it returns, stated of `t.last`, the state after
   * the last pass that completed: a read reported the end of input (`Ok`) or
   * failed; the queue was empty and the next KME call failed or brought no
   * keys; or the key at the front of what was available was shorter than the
   * buffer. A failing pass leaves no trace in `t.last`: its read, its KME
   * call and its key are not recorded there.
   */
  predicate StopsFor(t: Transcript, src: Source, fetch: Supplier) {
    var available := if t.last.queue == [] then Batch(fetch, t.last.calls) else t.last.queue;
    match t.outcome
    case Finished => !src.endsInError
    case ReadFailed => src.endsInError
    case SupplierFailed => t.last.queue == [] && fetch(t.last.calls, Refill).None?
    case NoKeysReceived => t.last.queue == [] && fetch(t.last.calls, Refill) == Some([])
    case EncryptFailed(e) =>
      available != [] && |available[0].key| < |t.last.buffer|
      && e == Otp.KeyTooShort(|available[0].key|, |t.last.buffer|)
  }

  /** The loop from the k-th read on. */
  function Run(src: Source, k: nat, st: SenderState, fetch: Supplier, codec: Otp.Codec): (t: Transcript)
    requires ValidSource(src) && k <= |src.chunks| && |st.buffer| == KeySizeBytes
    ensures |t.last.buffer| == KeySizeBytes && StopsFor(t, src, fetch)
    ensures |st.used| <= |t.last.used| <= |st.used| + (|src.chunks| - k)
    ensures t.outcome == Finished || t.outcome == ReadFailed <==> |t.last.used| == |st.used| + (|src.chunks| - k)
    decreases |src.chunks| - k
  {
    if k == |src.chunks| then
      Transcript(st, if src.endsInError then ReadFailed else Finished)
    else
      match Step(st, src.chunks[k], fetch, codec)
      case Err(outcome) => Transcript(st, outcome)
      case Ok(next) => Run(src, k + 1, next, fetch, codec)
  }

  /**
   * `sae_2` from its empty queue and zeroed buffer: it returns `Ok` or the
   * read error exactly when every read was encrypted and sent; after any
   * other error, fewer passes completed than there were reads.
   */
  function Send(src: Source, fetch: Supplier, codec: Otp.Codec): (t: Transcript)
    requires ValidSource(src)
    ensures StopsFor(t, src, fetch)
    ensures |t.last.used| <= |src.chunks|
    ensures t.outcome == Finished || t.outcome == ReadFailed <==> |t.last.used| == |src.chunks|
  {
    Run(src, 0, Initial, fetch, codec)
  }

  /** The buffer after the first `k` reads of `chunks`, starting from `vec![0u8; KEY_SIZE_BYTES]`. */
  function Buffer(chunks: seq<seq<byte>>, k: nat): (b: seq<byte>)
    requires k <= |chunks| && forall i :: 0 <= i < k ==> |chunks[i]| <= KeySizeBytes
    ensures |b| == KeySizeBytes
  {
    if k == 0 then Zeros(KeySizeBytes) else Overwrite(Buffer(chunks, k - 1), chunks[k - 1])
  }

  /**
   * A read shorter than the buffer replaces only its front: the rest of the
   * plaintext is what the previous read left there (zeros on the first read),
   * and it is masked and sent along with the fresh bytes.
   */
  lemma ShortReadKeepsStaleBytes(chunks: seq<seq<byte>>, k: nat)
    requires 0 < k <= |chunks| && forall i :: 0 <= i < k ==> |chunks[i]| <= KeySizeBytes
    ensures var n := |chunks[k - 1]|;
            && Buffer(chunks, k)[..n] == chunks[k - 1]
            && Buffer(chunks, k)[n..] == Buffer(chunks, k - 1)[n..]
  {
    var n := |chunks[k - 1]|;
    var before := Buffer(chunks, k - 1);
    assert Buffer(chunks, k) == chunks[k - 1] + before[n..];
  }

  /**
   * A 1025-byte file of 1024 'a's and one 'b': the second buffer sent is the
   * 'b' followed by 1023 stale 'a's, so 2048 bytes leave for 1025 read.
   */
  lemma StaleBytesExample()
    ensures var chunks := [seq(KeySizeBytes, _ => 0x61), [0x62]];
            Buffer(chunks, 2) == [0x62] + seq(KeySizeBytes - 1, _ => 0x61)
  {
    var chunks: seq<seq<byte>> := [seq(KeySizeBytes, _ => 0x61), [0x62]];
    var first := Buffer(chunks, 1);
    assert first == chunks[0] by {
      assert first == Overwrite(Zeros(KeySizeBytes), chunks[0]);
    }
    assert Buffer(chunks, 2) == [0x62] + first[1..];
    assert first[1..] == seq(KeySizeBytes - 1, _ => 0x61);
  }

  /** Each masked plaintext is the whole buffer as the corresponding read left it. */
  ghost predicate FollowsReads(src: Source, plaintexts: seq<seq<byte>>) {
    && ValidSource(src)
    && |plaintexts| <= |src.chunks|
    && forall i :: 0 <= i < |plaintexts| ==> plaintexts[i] == Buffer(src.chunks, i + 1)
  }

  /** Envelope i is plaintext i masked with key i. */
  ghost predicate Masks(used: seq<KeyMaterial>, plaintexts: seq<seq<byte>>, sent: seq<Otp.EncryptedMessage>) {
    && |plaintexts| == |used| && |sent| == |used|
    && forall i :: 0 <= i < |used| ==> Otp.New(used[i].id, used[i].key, plaintexts[i]) == Ok(sent[i])
  }

  lemma FollowsReadsExtend(src: Source, plaintexts: seq<seq<byte>>, p: seq<byte>)
    requires FollowsReads(src, plaintexts) && |plaintexts| < |src.chunks|
    requires p == Buffer(src.chunks, |plaintexts| + 1)
    ensures FollowsReads(src, plaintexts + [p])
  {
    var ps := plaintexts + [p];
    forall i | 0 <= i < |ps|
      ensures ps[i] == Buffer(src.chunks, i + 1)
    {
      if i < |plaintexts| {
        assert ps[i] == plaintexts[i];
      }
    }
  }

  lemma MasksExtend(used: seq<KeyMaterial>, plaintexts: seq<seq<byte>>, sent: seq<Otp.EncryptedMessage>,
                    km: KeyMaterial, p: seq<byte>, msg: Otp.EncryptedMessage)
    requires Masks(used, plaintexts, sent) && Otp.New(km.id, km.key, p) == Ok(msg)
    ensures Masks(used + [km], plaintexts + [p], sent + [msg])
  {
  }

  /**
   * What the loop keeps true after `|st.used|` passes: each pass masked the
   * buffer as its read left it, with the key it used; the stream holds their
   * frames; the keys used followed by those still queued are exactly the
   * keys the refills obtained, in order; and the last refill was made only
   * once every key before it had been used.
   */
  ghost predicate Consistent(src: Source, st: SenderState, fetch: Supplier, codec: Otp.Codec) {
    var n := |st.used|;
    && n <= |src.chunks|
    && FollowsReads(src, st.plaintexts)
    && Masks(st.used, st.plaintexts, st.sent)
    && st.buffer == Buffer(src.chunks, n)
    && st.out == Frames(codec, st.sent)
    && st.used + st.queue == Supplied(fetch, st.calls)
    && (st.calls > 0 ==> |Supplied(fetch, st.calls - 1)| < n)
  }

  /** A pass that refills: the fresh batch is appended to the keys the earlier refills obtained. */
  lemma RefillKeepsSupply(st: SenderState, next: SenderState, fetch: Supplier)
    requires st.queue == [] && st.used == Supplied(fetch, st.calls)
    requires next.calls == st.calls + 1
    requires Batch(fetch, st.calls) != []
    requires next.used == st.used + [Batch(fetch, st.calls)[0]] && next.queue == Batch(fetch, st.calls)[1..]
    ensures next.used + next.queue == Supplied(fetch, next.calls)
    ensures |Supplied(fetch, next.calls - 1)| < |next.used|
  {
    var batch := Batch(fetch, st.calls);
    calc {
      next.used + next.queue;
      (st.used + [batch[0]]) + batch[1..];
      { assert [batch[0]] + batch[1..] == batch; }
      Supplied(fetch, st.calls) + batch;
    }
  }

  /** A pass that takes a queued key: nothing is fetched and the front key moves to the used ones. */
  lemma PopKeepsSupply(st: SenderState, next: SenderState, fetch: Supplier)
    requires st.queue != [] && st.used + st.queue == Supplied(fetch, st.calls)
    requires next.calls == st.calls
    requires next.used == st.used + [st.queue[0]] && next.queue == st.queue[1..]
    ensures next.used + next.queue == Supplied(fetch, next.calls)
  {
    var queue := st.queue;
    calc {
      next.used + next.queue;
      (st.used + [queue[0]]) + queue[1..];
      { assert [queue[0]] + queue[1..] == queue; }
      st.used + queue;
    }
  }

  /**
   * The key bookkeeping of one pass: the keys used and then queued stay the
   * refills' keys in order, and a refill happens only once every earlier
   * key is used.
   */
  lemma StepKeepsSupply(st: SenderState, bytes: seq<byte>, fetch: Supplier, codec: Otp.Codec)
    requires |bytes| <= |st.buffer| && Step(st, bytes, fetch, codec).Ok?
    requires st.used + st.queue == Supplied(fetch, st.calls)
    requires st.calls > 0 ==> |Supplied(fetch, st.calls - 1)| < |st.used|
    ensures var next := Step(st, bytes, fetch, codec).value;
            && next.used + next.queue == Supplied(fetch, next.calls)
            && (next.calls > 0 ==> |Supplied(fetch, next.calls - 1)| < |next.used|)
  {
    var next := Step(st, bytes, fetch, codec).value;
    if st.queue == [] {
      assert st.used + st.queue == st.used;
      RefillKeepsSupply(st, next, fetch);
    } else {
      PopKeepsSupply(st, next, fetch);
    }
  }

  /** The record of one pass: its plaintext, envelope and frame. */
  lemma StepRecords(src: Source, st: SenderState, fetch: Supplier, codec: Otp.Codec)
    requires |st.used| < |src.chunks|
    requires FollowsReads(src, st.plaintexts) && Masks(st.used, st.plaintexts, st.sent)
    requires st.buffer == Buffer(src.chunks, |st.used|) && st.out == Frames(codec, st.sent)
    requires Step(st, src.chunks[|st.used|], fetch, codec).Ok?
    ensures var next := Step(st, src.chunks[|st.used|], fetch, codec).value;
            && |next.used| == |st.used| + 1
            && FollowsReads(src, next.plaintexts)
            && Masks(next.used, next.plaintexts, next.sent)
            && next.buffer == Buffer(src.chunks, |next.used|)
            && next.out == Frames(codec, next.sent)
  {
    var n := |st.used|;
    var bytes := src.chunks[n];
    var buffer := Overwrite(st.buffer, bytes);
    var next := Step(st, bytes, fetch, codec).value;
    StepSeals(st, bytes, fetch, codec);
    var km := next.used[n];
    var msg := next.sent[n];
    assert next.used == st.used + [km] && next.sent == st.sent + [msg];
    assert Otp.New(km.id, km.key, buffer) == Ok(msg);
    FramesAppend(codec, st.sent, msg);
    MasksExtend(st.used, st.plaintexts, st.sent, km, buffer, msg);
    assert buffer == Buffer(src.chunks, n + 1);
    FollowsReadsExtend(src, st.plaintexts, buffer);
  }

  lemma StepKeepsConsistent(src: Source, st: SenderState, fetch: Supplier, codec: Otp.Codec)
    requires Consistent(src, st, fetch, codec) && |st.used| < |src.chunks|
    requires Step(st, src.chunks[|st.used|], fetch, codec).Ok?
    ensures Consistent(src, Step(st, src.chunks[|st.used|], fetch, codec).value, fetch, codec)
    ensures |Step(st, src.chunks[|st.used|], fetch, codec).value.used| == |st.used| + 1
  {
    StepRecords(src, st, fetch, codec);
    StepKeepsSupply(st, src.chunks[|st.used|], fetch, codec);
  }

  lemma {:induction false} RunKeepsConsistent(src: Source, st: SenderState, fetch: Supplier, codec: Otp.Codec)
    requires Consistent(src, st, fetch, codec)
    ensures Consistent(src, Run(src, |st.used|, st, fetch, codec).last, fetch, codec)
    decreases |src.chunks| - |st.used|
  {
    var n := |st.used|;
    if n < |src.chunks| && Step(st, src.chunks[n], fetch, codec).Ok? {
      var next := Step(st, src.chunks[n], fetch, codec).value;
      StepKeepsConsistent(src, st, fetch, codec);
      RunKeepsConsistent(src, next, fetch, codec);
      RunAfterStep(src, n, st, fetch, codec);
    } else {
      RunStops(src, n, st, fetch, codec);
    }
  }

  /** A run that cannot make a pass stops in the state it is in. */
  lemma RunStops(src: Source, k: nat, st: SenderState, fetch: Supplier, codec: Otp.Codec)
    requires ValidSource(src) && k <= |src.chunks| && |st.buffer| == KeySizeBytes
    requires k == |src.chunks| || Step(st, src.chunks[k], fetch, codec).Err?
    ensures Run(src, k, st, fetch, codec).last == st
    ensures Run(src, k, st, fetch, codec).outcome
         == if k == |src.chunks| then (if src.endsInError then ReadFailed else Finished)
            else Step(st, src.chunks[k], fetch, codec).error
  {
  }

  /** A pass that succeeds hands the rest of the run to the next read. */
  lemma RunAfterStep(src: Source, k: nat, st: SenderState, fetch: Supplier, codec: Otp.Codec)
    requires ValidSource(src) && k < |src.chunks| && |st.buffer| == KeySizeBytes
    requires Step(st, src.chunks[k], fetch, codec).Ok?
    ensures Run(src, k, st, fetch, codec) == Run(src, k + 1, Step(st, src.chunks[k], fetch, codec).value, fetch, codec)
  {
  }

  lemma SendConsistent(src: Source, fetch: Supplier, codec: Otp.Codec)
    requires ValidSource(src)
    ensures Consistent(src, Send(src, fetch, codec).last, fetch, codec)
    ensures var t := Send(src, fetch, codec);
            (t.outcome == Finished || t.outcome == ReadFailed) ==> |t.last.used| == |src.chunks|
  {
    assert Consistent(src, Initial, fetch, codec);
    RunKeepsConsistent(src, Initial, fetch, codec);
  }

  /** Once a pass has completed, the first envelope masks the buffer as the first read left it. */
  lemma FirstPlaintext(src: Source, fetch: Supplier, codec: Otp.Codec)
    requires ValidSource(src) && |Send(src, fetch, codec).last.used| > 0
    ensures var ps := Send(src, fetch, codec).last.plaintexts;
            ps != [] && ps[0] == Buffer(src.chunks, 1)
  {
    SendConsistent(src, fetch, codec);
    var st := Send(src, fetch, codec).last;
    assert Masks(st.used, st.plaintexts, st.sent);
    assert FollowsReads(src, st.plaintexts);
  }

  /**
   * Keys are used in the order the KME supplied them, each at most once: the
   * keys used are a prefix of everything the refills obtained, and every
   * refill but the last came only after all earlier keys had been used.
   */
  lemma KeysUsedInSupplyOrder(src: Source, fetch: Supplier, codec: Otp.Codec)
    requires ValidSource(src)
    ensures var st := Send(src, fetch, codec).last;
            && |st.used| <= |Supplied(fetch, st.calls)|
            && st.used == Supplied(fetch, st.calls)[..|st.used|]
            && (st.calls > 0 ==> |Supplied(fetch, st.calls - 1)| < |st.used|)
  {
    SendConsistent(src, fetch, codec);
    var st := Send(src, fetch, codec).last;
    assert (st.used + st.queue)[..|st.used|] == st.used;
  }

  /** If the KME never repeats an identifier across the batches it served, no identifier is used twice. */
  lemma NoKeyUsedTwice(src: Source, fetch: Supplier, codec: Otp.Codec)
    requires ValidSource(src)
    requires var st := Send(src, fetch, codec).last;
             Distinct(Ids(Supplied(fetch, st.calls)))
    ensures Distinct(Ids(Send(src, fetch, codec).last.used))
  {
    KeysUsedInSupplyOrder(src, fetch, codec);
    var st := Send(src, fetch, codec).last;
    var all := Supplied(fetch, st.calls);
    forall i, j | 0 <= i < j < |st.used|
      ensures Ids(st.used)[i] != Ids(st.used)[j]
    {
      assert st.used[i] == all[i] && st.used[j] == all[j];
      assert Ids(all)[i] != Ids(all)[j];
    }
  }

  /**
   * What reached the stream: one frame per pass, holding the serialised
   * envelope of that pass, which masks the whole 1024-byte buffer as the
   * pass's read left it with the key of that pass. A run that ends without
   * error has made one pass per read.
   */
  lemma SendFrames(src: Source, fetch: Supplier, codec: Otp.Codec)
    requires ValidSource(src)
    ensures var t := Send(src, fetch, codec);
            && t.last.out == Frames(codec, t.last.sent)
            && |t.last.sent| == |t.last.used| == |t.last.plaintexts| <= |src.chunks|
            && (forall i :: 0 <= i < |t.last.used| ==>
                  && t.last.plaintexts[i] == Buffer(src.chunks, i + 1)
                  && |t.last.plaintexts[i]| == KeySizeBytes
                  && Otp.New(t.last.used[i].id, t.last.used[i].key, t.last.plaintexts[i]) == Ok(t.last.sent[i]))
            && ((t.outcome == Finished || t.outcome == ReadFailed) ==> |t.last.used| == |src.chunks|)
  {
    SendConsistent(src, fetch, codec);
  }

  /** Every key in `queue` is one buffer long. */
  predicate FullSizeKeys(queue: seq<KeyMaterial>) {
    forall i :: 0 <= i < |queue| ==> |queue[i].key| == KeySizeBytes
  }

  lemma {:induction false} RunNeverKeyTooShort(src: Source, k: nat, st: SenderState, fetch: Supplier, codec: Otp.Codec)
    requires ValidSource(src) && k <= |src.chunks| && |st.buffer| == KeySizeBytes
    requires KeysOfSize(fetch, Refill) && FullSizeKeys(st.queue)
    ensures !Run(src, k, st, fetch, codec).outcome.EncryptFailed?
    decreases |src.chunks| - k
  {
    if k < |src.chunks| {
      var bytes := src.chunks[k];
      var buffer := Overwrite(st.buffer, bytes);
      var available := if st.queue == [] then Batch(fetch, st.calls) else st.queue;
      assert FullSizeKeys(available) by {
        if st.queue == [] && fetch(st.calls, Refill).Some? {
          var batch := fetch(st.calls, Refill).value;
          forall i | 0 <= i < |batch| ensures |batch[i].key| == KeySizeBytes {
            assert |batch[i].key| * 8 == Refill.sizeBits;
          }
        }
      }
      var r := Step(st, bytes, fetch, codec);
      if r.Ok? {
        assert r.value.queue == available[1..];
        assert |r.value.buffer| == KeySizeBytes;
        RunNeverKeyTooShort(src, k + 1, r.value, fetch, codec);
      }
    }
  }

  /**
   * With a KME whose keys have the `KEY_SIZE_BITS` the sender asks for, every
   * key is `KEY_SIZE_BITS / 8` bytes, exactly the buffer's size, so
   * `KeyTooShort` never stops the sender, however many keys a batch holds.
   */
  lemma SenderNeverKeyTooShort(src: Source, fetch: Supplier, codec: Otp.Codec)
    requires ValidSource(src) && KeysOfSize(fetch, Refill)
    ensures !Send(src, fetch, codec).outcome.EncryptFailed?
  {
    RunNeverKeyTooShort(src, 0, Initial, fetch, codec);
  }

  /** One pass of the loop as `Sae2` performs it is the pass `Step` describes. */
  lemma PassIsStep(st: SenderState, bytes: seq<byte>, fetch: Supplier, codec: Otp.Codec,
                   key: KeyMaterial, msg: Otp.EncryptedMessage, next: SenderState)
    requires |bytes| <= |st.buffer|
    requires var available := if st.queue == [] then Batch(fetch, st.calls) else st.queue;
             && (st.queue == [] ==> fetch(st.calls, Refill).Some?)
             && available != [] && key == available[0] && next.queue == available[1..]
    requires next.calls == if st.queue == [] then st.calls + 1 else st.calls
    requires next.buffer == Overwrite(st.buffer, bytes)
    requires Otp.New(key.id, key.key, next.buffer) == Ok(msg)
    requires next.out == st.out + Framing.EncodeFrame(codec.serialize(msg))
    requires next.used == st.used + [key] && next.plaintexts == st.plaintexts + [next.buffer]
    requires next.sent == st.sent + [msg]
    ensures Step(st, bytes, fetch, codec) == Ok(next)
  {
    var available := if st.queue == [] then Batch(fetch, st.calls) else st.queue;
    var mid := st.(buffer := next.buffer, queue := available, calls := next.calls);
    assert Step(st, bytes, fetch, codec) == EncryptFront(mid, codec);
  }

  /** `reader.read(&mut buffer)` returning `bytes`: they overwrite the front of the buffer in place. */
  method ReadInto(buffer: array<byte>, bytes: seq<byte>)
    requires |bytes| <= buffer.Length
    modifies buffer
    ensures buffer[..] == Overwrite(old(buffer[..]), bytes)
  {
    forall i | 0 <= i < |bytes| {
      buffer[i] := bytes[i];
    }
  }

  /**
   * One pass of the `while` body of `sae_2` after the read has filled
   * `buffer`: refill the queue if it is empty, pop the front key, encrypt the
   * whole buffer with it and produce the frame to write. `st` is the loop's
   * state before the pass; a failure is the value `sae_2` returns.
   */
  method Pass(buffer: array<byte>, bytes: seq<byte>, queue: seq<KeyMaterial>, calls: nat,
              fetch: Supplier, codec: Otp.Codec, ghost st: SenderState)
    returns (queue': seq<KeyMaterial>, calls': nat, frame: seq<byte>, failure: Option<SendOutcome>, ghost next: SenderState)
    requires |bytes| <= buffer.Length && buffer.Length == |st.buffer|
    requires st.buffer == buffer[..] && st.queue == queue && st.calls == calls
    modifies buffer
    ensures failure.Some? <==> Step(st, bytes, fetch, codec).Err?
    ensures failure.Some? ==> failure.value == Step(st, bytes, fetch, codec).error
    ensures failure.None? ==>
      && Step(st, bytes, fetch, codec) == Ok(next)
      && next.buffer == buffer[..] && next.queue == queue' && next.calls == calls'
      && next.out == st.out + frame
  {
    ReadInto(buffer, bytes);
    queue', calls', frame := queue, calls, [];
    next := st;
    if queue' == [] {
      var batch := fetch(calls', Refill);
      calls' := calls' + 1;
      if batch.None? {
        return queue', calls', frame, Some(SupplierFailed), next;
      }
      queue' := batch.value;
      if queue' == [] {
        return queue', calls', frame, Some(NoKeysReceived), next;
      }
    }
    var key := queue'[0];
    queue' := queue'[1..];
    var plaintext := buffer[..];
    var encrypted := Otp.New(key.id, key.key, plaintext);
    if encrypted.Err? {
      var mid := st.(buffer := plaintext, queue := [key] + queue', calls := calls');
      assert mid.queue[0] == key;
      assert Step(st, bytes, fetch, codec) == EncryptFront(mid, codec);
      return queue', calls', frame, Some(EncryptFailed(encrypted.error)), next;
    }
    var serialized := codec.serialize(encrypted.value);
    frame := Framing.LengthPrefix(|serialized|) + serialized;
    next := SenderState(plaintext, queue', calls', st.out + frame, st.used + [key],
                        st.plaintexts + [plaintext], st.sent + [encrypted.value]);
    PassIsStep(st, bytes, fetch, codec, key, encrypted.value, next);
    failure := None;
  }

  /**
   * The loop of `sae_2`, from the first read to the last frame written, with
   * the stream as the bytes written to it. It writes exactly what `Send`
   * describes and returns as `Send` says.
   */
  method Sae2(src: Source, fetch: Supplier, codec: Otp.Codec) returns (out: seq<byte>, outcome: SendOutcome)
    requires ValidSource(src)
    ensures out == Send(src, fetch, codec).last.out
    ensures outcome == Send(src, fetch, codec).outcome
  {
    var buffer := new byte[KeySizeBytes](_ => 0);
    var queue: seq<KeyMaterial> := [];
    var calls: nat := 0;
    out := [];
    ghost var st := Initial;
    assert buffer[..] == Zeros(KeySizeBytes);
    var k := 0;
    while k < |src.chunks|
      invariant 0 <= k <= |src.chunks| && buffer.Length == KeySizeBytes
      invariant st == SenderState(buffer[..], queue, calls, out, st.used, st.plaintexts, st.sent)
      invariant Run(src, k, st, fetch, codec) == Send(src, fetch, codec)
    {
      var frame, failure;
      ghost var before := st;
      queue, calls, frame, failure, st := Pass(buffer, src.chunks[k], queue, calls, fetch, codec, st);
      if failure.Some? {
        RunStops(src, k, before, fetch, codec);
        outcome := failure.value;
        return;
      }
      RunAfterStep(src, k, before, fetch, codec);
      out := out + frame;
      k := k + 1;
    }
    RunStops(src, k, st, fetch, codec);
    outcome := if src.endsInError then ReadFailed else Finished;
  }
}
