# reliable-encap framing, modelled in Dafny

`reliable-encap` wraps the output of a child process in a framed, digest-protected stream so
that the reader can tell a complete stream from one that was cut short or corrupted. The
encoder, `ReliableEncap`, writes the 14-byte header `reliable-encap`, then one frame per piece
(a big-endian 32-bit length, the payload, and a SHA-256 checkpoint over every payload byte so
far), then a terminator (a zero length and the unchanged checkpoint) and a trailer (the
checkpoint once more). The decoder, `copy_out`, reads the stream back, forwards each payload to
its output and compares every checkpoint with its own running digest.

The model has one module per concern:

- `Bytes`: bytes and the big-endian `u32` length field, including the `as u32` truncation.
- `Digest`: the running digest. The hash algorithm is a parameter of type `Hasher`; the
  digest's state is the sequence of bytes absorbed so far.
- `Io`: the reader (`Source`: the whole input and a cursor) and the writer (`Sink`: an
  append-only buffer with a capacity; a write that would overflow it fails and appends nothing).
- `Wire`: the constants and the wire format as functions (`Frame`, `Terminator`, `Frames`,
  `Body`, `Stream`).
- `Encap`: the class `ReliableEncap` with `New`, `Update`, `FinishWrite` and `Finalize`, each
  stating the exact new output and digest state for every way its writes can fail.
- `EncapDriver`: the call order used by the `reliable-encap` command: `new`, one `update` per
  piece, `finish_write`, and `finalize` only after a clean exit.
- `Decap`: `copy_out` twice over. `Decode` is a reference function giving the result, the
  bytes written and the bytes consumed. `CopyOut` is the step-by-step loop over a `Source` and a
  `Sink`, proved equal to `Decode`.
- `DecapProperties`: the round trip and the error cases, stated on `Decode`.
- `DecapSoundness`: the converse of the round trip. Every `Ok` run has read exactly a
  well-formed stream and written exactly its pieces.
- `DecapHeader`: the header bytes never influence the decoder.
- `RoundTrip`: the two classes run back to back.

## Model

| member | source | states |
|---|---|---|
| Bytes.FromBeU32 | src/reliable_rw.rs:103-105 | the length field read by `read_be_u32` is big-endian and always below 2^32 |
| Bytes.BeU32 | src/reliable_rw.rs:54 | `write_be_u32(len as u32)` emits four bytes that read back as the length modulo 2^32 |
| Bytes.BeU32OfFromBeU32 | src/reliable_rw.rs:103-105 | every four-byte field is the encoding of the number it decodes to, so reading and writing length fields are inverse |
| Digest.RunningDigest.constructor | src/reliable_rw.rs:46 | a fresh digest has absorbed nothing |
| Digest.RunningDigest.Input | src/reliable_rw.rs:59 | `input` appends its bytes to everything absorbed so far |
| Digest.RunningDigest.ResultBytes | src/reliable_rw.rs:65 | `result_bytes` is a 32-byte checkpoint of the bytes absorbed so far and does not change the state |
| Io.Source.ReadExact | src/reliable_rw.rs:97-100 | `read_exact(n)` returns the next n bytes and advances by n, or fails after consuming the rest of the input when fewer remain |
| Io.Source.ReadBeU32 | src/reliable_rw.rs:103 | `read_be_u32` returns the big-endian value of the next four bytes, or fails at the end of the input |
| Io.Sink.Write | src/reliable_rw.rs:120-123 | a write succeeds exactly when the output has room for it; it then appends the whole buffer, otherwise nothing |
| Io.Sink.WriteBeU32 | src/reliable_rw.rs:54-57 | the length field is one four-byte write |
| Wire.DriverPiecesValid | src/reliable_rw.rs:19-23 | pieces of at most PIECE_SIZE bytes, the most the encoder emits, are always within the decoder's MAX_PIECE_SIZE bound |
| Wire.Frame | src/reliable_rw.rs:53-72 | a frame is 36 bytes longer than its piece |
| Wire.Terminator | src/reliable_rw.rs:74-84 | the terminator is 36 bytes long and is exactly the frame of an empty piece |
| Wire.Frames | src/reliable_rw.rs:53-72 | the frames of n pieces take 36 * n bytes plus the pieces' total length |
| Wire.Stream | src/reliable_rw.rs:44-90 | a whole stream is the header plus 36 bytes per piece and for the terminator, plus the pieces and the 32-byte trailer |
| Wire.FramesSnoc | src/reliable_rw.rs:53-72 | each further `update` appends exactly its frame, whose checkpoint covers every earlier piece and this one |
| Wire.BodyCons | src/reliable_rw.rs:53-90 | a body is the first piece's frame followed by the body of the rest, over a digest that has absorbed that piece |
| Encap.ReliableEncap.New | src/reliable_rw.rs:44-51 | `new` fails exactly when the header does not fit; otherwise it writes exactly the header, and its digest has absorbed nothing |
| Encap.ReliableEncap.Update | src/reliable_rw.rs:53-72 | for each amount of room: no write, the length only, length and payload, or the whole frame of 4 + len + 32 bytes; the digest absorbs the piece once the length write succeeded |
| Encap.ReliableEncap.FinishWrite | src/reliable_rw.rs:74-84 | appends the zero length and the unchanged checkpoint, the same as the frame of an empty piece, or the part of it that fits |
| Encap.ReliableEncap.Finalize | src/reliable_rw.rs:86-90 | appends the current checkpoint once more as the trailer, without absorbing the header |
| EncapDriver.UpdateAll | src/reliable_encap.rs:75-91 | the driver's `update` loop succeeds exactly when every frame fits; the output then grew by exactly the frames and the digest absorbed every piece |
| EncapDriver.Encode | src/reliable_encap.rs:69-96 | `new`, the updates, `finish_write` and, after a clean exit, `finalize` succeed exactly when everything fits; the output is then the whole stream, or the stream without its trailer when the exit was not clean |
| Decap.FrameAt | src/reliable_rw.rs:103-116 | a payload that is read is never longer than MAX_PIECE_SIZE and lies within the input |
| Decap.CheckpointAt | src/reliable_rw.rs:125-132 | a checkpoint read is short exactly when fewer than 32 bytes remain |
| Decap.PieceStep | src/reliable_rw.rs:102-137 | one pass of the loop writes at most the room left, stays within the input, makes progress when it goes on, and writes nothing when it accepts the terminator |
| Decap.DecodeTrailer | src/reliable_rw.rs:138-145 | the trailer is accepted exactly when the next 32 bytes equal the digest of every payload byte; it writes nothing |
| Decap.DecodePieces | src/reliable_rw.rs:102-147 | the piece loop stays within the input and writes no more than the output has room for |
| Decap.Decode | src/reliable_rw.rs:94-148 | a whole run stays within the input and writes no more than the output has room for |
| Decap.ReadFrameHead | src/reliable_rw.rs:103-116 | reads a length field and its payload as `FrameAt` says; an oversized length consumes only the four length bytes |
| Decap.ReadCheckpoint | src/reliable_rw.rs:125-132 | reads and compares a checkpoint as `CheckpointAt` says |
| Decap.ForwardPayload | src/reliable_rw.rs:118-136 | absorbs and writes the payload, then reads and compares its checkpoint, as `PayloadStep` says |
| Decap.ReadPiece | src/reliable_rw.rs:102-136 | one pass of the loop body; its result, output and cursor are those of `PieceStep` |
| Decap.ReadTrailer | src/reliable_rw.rs:138-147 | reads and compares the trailer as `DecodeTrailer` says |
| Decap.CopyOut | src/reliable_rw.rs:94-148 | `copy_out` returns the result of `Decode`, appends exactly the bytes `Decode` writes and advances the input by exactly what `Decode` consumes |
| DecapProperties.AcceptFrame | src/reliable_rw.rs:102-136 | a well-formed frame of a valid piece is accepted: the piece is written and the loop goes on after the frame |
| DecapProperties.DecodeFrames | src/reliable_rw.rs:102-136 | the frames of valid pieces are accepted in order, writing their concatenation |
| DecapProperties.AcceptEnd | src/reliable_rw.rs:134-147 | a terminator and a trailer that match end the run with Ok, writing nothing more |
| DecapProperties.RejectTrailer | src/reliable_rw.rs:134-145 | after a matching terminator the loop has ended, and a trailer that does not match is an integrity error |
| DecapProperties.DecodeBody | src/reliable_rw.rs:102-147 | the body of valid pieces decodes to Ok, writing their concatenation and consuming the whole body |
| DecapProperties.DecodeStream | src/reliable_rw.rs:94-148 | round trip: a header, then the body of valid pieces, decodes to Ok, writes exactly the pieces and consumes exactly the stream, whatever follows it |
| DecapProperties.DecodeAfterFrames | src/reliable_rw.rs:94-136 | after the header and valid frames the run continues as the piece loop from the end of those frames, having written their pieces |
| DecapProperties.RejectOversized | src/reliable_rw.rs:103-108 | a length above MAX_PIECE_SIZE is a protocol error after the four length bytes, before any payload byte |
| DecapProperties.OversizedLength | src/reliable_rw.rs:103-108 | after valid frames, a length above 262144 is a protocol error; only the four length bytes are consumed and only the earlier pieces are written |
| DecapProperties.LargestPieceAccepted | src/reliable_rw.rs:23 | the bound is inclusive: a piece of exactly 262144 bytes decodes to Ok |
| DecapProperties.RejectCheckpoint | src/reliable_rw.rs:118-132 | a checkpoint that is not the digest of everything absorbed so far is an integrity error, after the payload was written |
| DecapProperties.BadCheckpoint | src/reliable_rw.rs:118-132 | after valid frames, a wrong checkpoint is an integrity error, and the payload it guards has already been written |
| DecapProperties.BadTrailer | src/reliable_rw.rs:138-145 | a wrong trailer after a matching terminator is an integrity error once every piece was written and the whole stream read |
| DecapProperties.RejectWrite | src/reliable_rw.rs:118-123 | a payload the output has no room for is a write error after it was read and before its checkpoint is read |
| DecapProperties.NoRoom | src/reliable_rw.rs:118-123 | after valid frames that fit, a piece that does not fit is a write error, and exactly the earlier pieces were written |
| DecapProperties.CutBody | src/reliable_rw.rs:111-116 | a body of valid pieces cut anywhere short of its end is a read error that consumes the rest of the input and writes a prefix of the pieces |
| DecapProperties.TruncatedStream | src/reliable_rw.rs:97-141 | every strict prefix of a valid stream, including one cut inside the header, is a read error; the whole prefix is consumed and only a prefix of the payload is written |
| DecapSoundness.Sound | src/reliable_rw.rs:102-147 | a piece loop that returns Ok has read exactly the body of some valid pieces and written exactly their concatenation |
| DecapSoundness.StreamSound | src/reliable_rw.rs:94-148 | a run that returns Ok has consumed exactly a stream of valid pieces behind whatever 14 bytes stood in the header's place, and has written exactly those pieces |
| DecapHeader.SamePieces | src/reliable_rw.rs:102-147 | the piece loop and the trailer read only from the cursor on |
| DecapHeader.HeaderIgnored | src/reliable_rw.rs:97-100 | two inputs that differ only in their 14 header bytes decode alike: the same result, output and bytes consumed |
| RoundTrip.EncodeFresh | src/reliable_encap.rs:69-96 | the encoder, given room for the whole stream, writes exactly the stream of its pieces |
| RoundTrip.CopyOutFresh | src/reliable_rw.rs:94-148 | `copy_out` over a fresh input and output returns what `Decode` says |
| RoundTrip.EncodeThenDecode | src/reliable_rw.rs:44-148 | `new`, one `update` per valid piece, `finish_write` and `finalize`, then `copy_out` over what they wrote: Ok, the concatenated pieces written out, and the whole stream consumed |

## Left out

- SHA-256 is not modelled: `src/sha256.rs` is not part of this model. The digest is any total
  function from byte sequences to 32-byte checkpoints. No property depends on collision
  resistance, so an integrity error is only proved where a checkpoint differs from the expected digest.
- The `IoError` values carried by `ReadError` and `WriteError` are dropped. The decoder's
  result keeps only the error kind.
- Writers are modelled as bounded sinks. A write either appends all of its bytes or fails
  and appends nothing. Partial writes and other causes of write failure are not modelled. Any
  failure mode can still be reached by choosing the capacity.
- Readers are an in-memory input with a cursor. A short read fails after consuming the rest of
  the input, as the blocking `read_exact` of the time did; other read failures are not modelled.
- `Encap.ReliableEncap.Finalize`: the `flush` after the trailer write is not modelled, because a
  bounded sink has nothing to flush.
- The decoder's command, src/reliable_write.rs:43-73, is not part of this model: opening the
  `.tmp` output file, renaming it on success and deleting it on every error are left out.
- Of the encoder's command, src/reliable_encap.rs, only the child process, its exit status
  and signals are left out. Its read loop (lines 69-96) is modelled as `EncapDriver.UpdateAll`
  and `EncapDriver.Encode` over a given list of pieces. The `assert!` panics on a failed call
  become a `false` result, and the child's exit status becomes the flag `exitedCleanly`.
- The earlier draft `reliable_write.rs` and the shared `reliable_rw_common.rs` are not part of
  this model.
- The header is read and never compared with MAGIC_HEADER, which is what `copy_out` does
  (src/reliable_rw.rs:97-100), although `MAGIC_HEADER` is documented as the stream's magic
  number (src/reliable_rw.rs:16-17). `DecapHeader.HeaderIgnored` states the resulting behaviour.
- `EncapDriver.Encode`: it does not require its pieces to be non-empty or at most PIECE_SIZE
  bytes. Only `RoundTrip.EncodeThenDecode` requires valid pieces, because an empty piece would
  be read back as the terminator.
