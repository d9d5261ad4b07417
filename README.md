# A one-time-pad channel between two SAEs, in Dafny

This project models the core of `sae/src/sae.rs` in maqueta-qkd. Two Secure
Application Entities (SAEs) use keys from a quantum Key Management Entity
(KME) to send a text file as one-time-pad envelopes over TCP. The model has
three parts:

- **The envelope.** `EncryptedMessage::new` masks a plaintext with a key,
  byte by byte, and refuses a key shorter than the plaintext. `decrypt`
  makes the same length check, removes the mask, and accepts only
  well-formed UTF-8.
- **The sender (`sae_2`).** The file is read into a 1024-byte buffer. Each
  read takes one key from a queue, which is refilled from the KME only when
  it is empty. The whole buffer is masked and serialised, then written as a
  frame: a 4-byte big-endian `u32` length followed by the payload.
- **The receiver (`handle_client`).** It reads frames until the length
  prefix can no longer be read. For each frame it deserialises the
  envelope, asks its KME for the key by identifier, decrypts and prints.

Modules, one per file:

- `Base` (`base.dfy`): bytes, the `u8` XOR, and `Option`/`Result`.
- `Utf8` (`utf8.dfy`): well-formed UTF-8 as section 4 of RFC 3629 defines
  it. This is the rule `String::from_utf8` applies.
- `Otp` (`otp.dfy`): the envelope and its two operations.
- `Framing` (`framing.dfy`): the length-prefixed frame.
- `Kme` (`kme.dfy`): what the two KME calls promise.
- `Sender` (`sender.dfy`): the `sae_2` loop.
- `Receiver` (`receiver.dfy`): the `handle_client` loop.
- `Channel` (`channel.dfy`): the receiver run on exactly the bytes the
  sender wrote.

Both loops follow the same pattern. A specification function (`Sender.Send`,
`Receiver.Receive`) states what the loop does. An imperative method
(`Sender.Sae2`, `Receiver.HandleClient`) is the loop itself, and it is proved
to produce what the function says. `Sae2` keeps the buffer as an `array`,
and each read overwrites its front in place.

The serde pair (`serde_json::to_vec`, `serde_json::from_slice`) is an opaque
`Otp.Codec`. The lemmas that need it assume `Otp.Sound`, meaning
deserialising what was serialised gives the envelope back. That assumption
is passed as a `requires`.

The KME is modelled in two pieces:

- On the sending side, `Kme.Supplier` is a function from the call number and
  the request to a batch of `(key_id, key)` pairs. `None` stands for a failed
  call.
- On the receiving side, `Kme.Lookup` is a map from identifier to key.

The model brings out three behaviours of the code:

- **Stale bytes are sent.** A read shorter than the buffer overwrites only
  the buffer's front, and the whole buffer is still masked and sent. The
  bytes left over from earlier reads are sent with it (zeros on the first
  read). The receiver therefore prints 1024 bytes per frame. Suppose a
  1025-byte file is read as 1024 bytes and then 1 byte. It is then sent as
  2048 bytes, and the second buffer holds 1023 stale bytes. `read` may also
  return fewer bytes per call; the model allows any such split.
  This is stated by `Sender.ShortReadKeepsStaleBytes` and
  `Sender.StaleBytesExample`.
- **A character split across reads makes the receiver panic.** `read`
  returns bytes wherever it likes, so a multi-byte UTF-8 character can be
  split between two reads. It can also run into stale bytes. The buffer then
  holds an incomplete character, `decrypt` fails with `InvalidUtf8`, and the
  `expect` on line 174 panics. This happens even when the file is well-formed
  text. `Channel.SplitCharacterPanics` shows one case: 1023 'a's followed by
  "é", read as 1024 bytes and then 1 byte.
- **A cut inside the length prefix is not an error.** The code ends the loop
  normally when fewer than four bytes of a prefix arrive, because the failed
  `read_exact` leads to `break`. A cut inside a payload panics.

## Model

| member | source | states |
|---|---|---|
| `Base.Xor` | sae/src/sae.rs:58 | `p ^ k` on two `u8`: each of the eight bits of the result is set exactly when the operands' bits differ |
| `Base.XorInvolutive` | sae/src/sae.rs:55-59 | XOR with the same key byte twice gives the byte back, for every byte and key byte |
| `Otp.XorZip` | sae/src/sae.rs:55-59 | `zip` then `^`: the result is as long as the shorter input, and byte i is the XOR of byte i of each |
| `Otp.New` | sae/src/sae.rs:42-62 | the call fails exactly when the key is shorter than the plaintext, with `KeyTooShort(key length, text length)`; on success the key id is kept and the ciphertext is as long as the plaintext |
| `Otp.NewMasksEachByte` | sae/src/sae.rs:53-61 | with a long enough key, `new` succeeds, and ciphertext byte i is plaintext byte i XOR key byte i (the key does not cycle) |
| `Otp.NewIgnoresKeySurplus` | sae/src/sae.rs:55-59 | key bytes past the plaintext's length do not change the envelope |
| `Otp.Decrypt` | sae/src/sae.rs:64-85 | `KeyTooShort` exactly when the key is shorter than the ciphertext (checked before anything else); `InvalidUtf8` exactly when the key is long enough and the unmasked bytes are not well-formed UTF-8; success exactly when the key is long enough and the unmasked bytes are well-formed, and then the text is well-formed and as long as the ciphertext |
| `Otp.DecryptUnmasksEachByte` | sae/src/sae.rs:72-78 | byte i of a returned text is ciphertext byte i XOR key byte i |
| `Otp.DecryptNew` | sae/src/sae.rs:42-85 | round trip: decrypting what `new` made, with the same key, gives the plaintext back exactly when it is UTF-8, and `InvalidUtf8` otherwise |
| `Otp.TwoLetterExample` | sae/src/sae.rs:42-85 | "AB" under key `[1, 2, 3]` encrypts to `[0x40, 0x40]`, and that decrypts to "AB" |
| `Utf8.ValidUtf8` | sae/src/sae.rs:81 | what `String::from_utf8` accepts, read one character at a time; accepted text never holds the octets C0, C1 or F5 to FF (section 1 of RFC 3629) |
| `Utf8.LeadingCharLength` | sae/src/sae.rs:81 | the length of the first character is at most 4 and at most the input's length |
| `Utf8.LeadingCharIsChar` | sae/src/sae.rs:81 | what the validator reads as the first character is one UTF8-char of the RFC 3629 grammar |
| `Utf8.OnlyLeadingChar` | sae/src/sae.rs:81 | no other prefix of the input is a UTF8-char, so the first character is unique |
| `Utf8.ValidUtf8IsOctets` | sae/src/sae.rs:81-84 | the validator `decrypt` relies on accepts exactly the byte sequences that split into UTF8-chars (both directions) |
| `Utf8.ValidUtf8Append` | sae/src/sae.rs:81-84 | well-formed text followed by well-formed text is well-formed |
| `Utf8.AsciiIsValid` | sae/src/sae.rs:81-84 | every sequence of bytes below 0x80 is accepted |
| `Utf8.AsciiThenLeadIsInvalid` | sae/src/sae.rs:81-84 | US-ASCII text that ends in the lead byte of a multi-byte character is rejected |
| `Utf8.TruncatedCharIsInvalid` | sae/src/sae.rs:81-84 | a lead byte whose continuation bytes are cut off is rejected |
| `Framing.ToBeBytes` | sae/src/sae.rs:137 | `u32::to_be_bytes` gives 4 bytes; `Framing.FromToBeBytes` and `Framing.ToFromBeBytes` show it inverts `from_be_bytes` |
| `Framing.FromBeBytes` | sae/src/sae.rs:161 | `u32::from_be_bytes` of 4 bytes is below 2^32 |
| `Framing.LengthPrefix` | sae/src/sae.rs:137 | `(len as u32).to_be_bytes()` is 4 bytes that `from_be_bytes` reads as `len` modulo 2^32, which is `len` itself when it fits |
| `Framing.FromToBeBytes` | sae/src/sae.rs:137 | `from_be_bytes(to_be_bytes(n)) == n` for every `u32` |
| `Framing.ToFromBeBytes` | sae/src/sae.rs:161 | `to_be_bytes(from_be_bytes(b)) == b` for every 4 bytes |
| `Framing.EncodeFrame` | sae/src/sae.rs:137-139 | a frame is the payload after 4 bytes that read as its length modulo 2^32 |
| `Framing.ReadFrame` | sae/src/sae.rs:155-168 | no prefix exactly when fewer than 4 bytes remain; a short payload announces more than remains; a frame's payload and the rest together are everything after the prefix |
| `Framing.ReadFrameIsEncoded` | sae/src/sae.rs:155-168 | whatever is read as a frame is a sender's frame followed by the rest of the stream |
| `Framing.ReadEncodedFrame` | sae/src/sae.rs:137-139 | round trip: a frame whose payload fits a `u32` is read back whole, and the bytes after it are untouched |
| `Framing.CutPrefixReadsAsNoPrefix` | sae/src/sae.rs:155-159 | a stream cut inside a frame's 4-byte prefix reads as no prefix, so the loop ends normally |
| `Framing.CutPayloadReadsAsShort` | sae/src/sae.rs:161-168 | a stream cut inside a payload reads as a short payload, which makes `read_exact` fail |
| `Framing.OversizedPayloadMisread` | sae/src/sae.rs:137 | a payload of 2^32 bytes or more is announced modulo 2^32, so the receiver splits it at the wrong place |
| `Sender.Step` | sae/src/sae.rs:121-139 | one pass: the KME is asked only when the queue is empty; a failed call stops with `SupplierFailed` and an empty batch with `NoKeysReceived`, in both cases before any key is taken; otherwise the front key is taken, and the pass fails exactly when that key is shorter than the buffer, with `KeyTooShort(key length, buffer length)`; a pass that succeeds used exactly the front key, the read overwrote the front of the buffer, and the whole buffer is the plaintext |
| `Sender.StepSeals` | sae/src/sae.rs:134-139 | a successful pass sends the envelope of the whole buffer under the key it used, and appends that envelope's frame to the stream |
| `Sender.Run` | sae/src/sae.rs:121-140 | the loop from a given read on stops for a stated reason. `Ok` or the read error comes exactly when every remaining read completed a pass. Otherwise, in the state after the last completed pass, either the queue was empty and the next KME call failed or brought no keys, or the next key was shorter than the buffer, with that `KeyTooShort` |
| `Sender.Send` | sae/src/sae.rs:104-149 | `sae_2` returns `Ok`, or the read error, exactly when every read was encrypted and sent; any other error it returns is one of the reasons above, and then fewer passes completed than there were reads |
| `Sender.ShortReadKeepsStaleBytes` | sae/src/sae.rs:115-121 | after a read of n bytes, the buffer holds those n bytes, then what the previous read left beyond them |
| `Sender.StaleBytesExample` | sae/src/sae.rs:115-135 | for a file of 1024 'a's and one 'b', the second buffer sent is 'b' followed by 1023 stale 'a's |
| `Sender.SendFrames` | sae/src/sae.rs:115-140 | the stream is one frame per pass; pass i masks the full 1024-byte buffer, as read i left it, with the key of pass i; a run that ends without error, or on a failed read, has made one pass per read |
| `Sender.KeysUsedInSupplyOrder` | sae/src/sae.rs:122-132 | the keys used are a prefix of all the keys the refills obtained, in the KME's order; by the end, every key obtained by the refills before the last one has been used |
| `Sender.NoKeyUsedTwice` | sae/src/sae.rs:122-132 | if the KME never repeats an identifier, no identifier is used for two envelopes |
| `Sender.SenderNeverKeyTooShort` | sae/src/sae.rs:18-20 | if every key the KME returns for the sender's request has the requested `KEY_SIZE_BITS`, whatever the number of keys per batch, every key is as long as the buffer, so `new` never fails with `KeyTooShort` |
| `Sender.ReadInto` | sae/src/sae.rs:121 | `reader.read(&mut buffer)` overwrites the buffer's front with the bytes read, in place, and leaves the rest as it was |
| `Sender.Pass` | sae/src/sae.rs:121-139 | one pass over the array buffer, queue and call count fails exactly when `Step` does, with the same error; otherwise it reaches `Step`'s state and returns the frame to write |
| `Sender.Sae2` | sae/src/sae.rs:104-149 | the loop writes exactly the bytes `Send` describes and returns as `Send` says |
| `Receiver.Open` | sae/src/sae.rs:170-174 | a frame's payload yields text exactly when it deserialises, its key id is known to the KME, and decryption succeeds; the text is then the ciphertext unmasked with the KME's key for that id, and well-formed UTF-8; a failure names the first step that failed, each case an iff: `Undeserialisable`, `KeyUnavailable` with the id, or `DecryptFailed` with `decrypt`'s error |
| `Receiver.Receive` | sae/src/sae.rs:153-159 | fewer than four bytes end the loop normally and print nothing |
| `Receiver.ReceivedTextsAreUtf8` | sae/src/sae.rs:174-177 | every text the loop prints is well-formed UTF-8 |
| `Receiver.HandleClient` | sae/src/sae.rs:151-178 | the loop prints exactly the texts `Receive` lists and ends as `Receive` says: a normal end, or a panic naming its cause |
| `Channel.Delivered` | sae/src/sae.rs:170-177 | the receiver prints a prefix of the sender's plaintexts, in order, all of them well-formed; printing stops exactly at the first plaintext that is not well-formed UTF-8, and the loop ends normally exactly when all of them are |
| `Channel.EndToEnd` | sae/src/sae.rs:104-178 | with a sound codec, a receiving KME that knows every key the sender used, and payloads that fit a `u32`, the receiver run on the sender's stream prints what `Delivered` says for the sender's plaintexts |
| `Channel.AsciiFileIsPrinted` | sae/src/sae.rs:104-178 | under those hypotheses, for a US-ASCII file every buffer the sender sent is printed and the loop ends normally; when the sender finished, the receiver printed one buffer per read |
| `Sender.FirstPlaintext` | sae/src/sae.rs:121-135 | once a pass has completed, the first envelope masks the buffer exactly as the first read left it |
| `Channel.SplitFileIsText` | sae/src/sae.rs:110-121 | the file of 1023 'a's followed by "é" is well-formed UTF-8 |
| `Channel.SplitFileFirstBuffer` | sae/src/sae.rs:115-121 | read as 1024 bytes and then 1 byte, that file leaves a first buffer that ends in a bare lead byte, so it is not well-formed |
| `Channel.FirstIllFormedPanics` | sae/src/sae.rs:174 | when the first plaintext is not well-formed, the receiver prints nothing and panics with `DecryptFailed(InvalidUtf8)` |
| `Channel.SplitCharacterPanics` | sae/src/sae.rs:104-178 | for that file and split, whenever the sender finishes without error (under the hypotheses of `Channel.EndToEnd`), the receiver fed its stream panics with `DecryptFailed(InvalidUtf8)` before printing anything |

## Left out

- The KME client in `qukaydee.rs` (HTTP over mutual TLS, JSON, base64) is not part of this model. `get_keys_and_id` is the abstract `Kme.Supplier`, and `get_key_from_id` is the map `Kme.Lookup`.
- `main.rs` (choosing the role, reading configuration) is not part of this model.
- `sae_1` (binding the listener and accepting one connection) is left out: it is I/O only. `handle_client` is modelled on the bytes the peer sends before closing.
- `get_status` (line 89) is left out: its result is discarded.
- `conectar_a_servidor` (lines 188-199) is left out: it is a retry loop around `TcpStream::connect` with a 100 ms sleep.
- The timers (`Instant`) and every `println!` are left out. The receiver's printed texts are kept as a sequence.
- Opening the text file (lines 110-113) is left out. The file is modelled as the byte chunks successive reads return, plus whether the read after the last chunk fails.
- Errors from `write_all` are left out. The stream is the sequence of bytes written.
- serde_json's byte format is left out. The codec is opaque, and round-tripping is the `Otp.Sound` hypothesis. `serde_json::to_vec` of a `String` and a `Vec<u8>` cannot fail, so its error path (line 136) is not modelled.
- The `ok_or` on `pop_front` (lines 130-132) cannot fail, because the queue was just checked or refilled to be non-empty. The model has no such error.
- The panic messages of `handle_client` are left out. A panic is modelled by the `Receiver.Failure` that caused it.
- Tokio scheduling and the async runtime are left out. Each loop is sequential.
