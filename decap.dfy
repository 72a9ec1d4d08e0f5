/** The decoder, `copy_out`: it reads the stream back, forwards every payload to the output
    and checks every checkpoint against its own running digest.

    `Decode` is the reference meaning of one call: what it returns, which bytes it forwards to
    the output and how many input bytes it consumes, given the input from the cursor on and the
    room left in the output. `CopyOut` is the step-by-step loop, proved to agree with it. */
module Decap {
  import opened Bytes
  import opened Digest
  import opened Wire
  import opened Io

  /** The four ways decoding fails (the I/O error payloads are not modelled). */
  datatype ReliableWriteError = IntegrityError | ProtocolError | ReadError | WriteError

  datatype Outcome = Ok | Err(error: ReliableWriteError)

  /** What one decoding run does: its result, the bytes it wrote to the output, and the number
      of input bytes it consumed. */
  datatype Trace = Trace(outcome: Outcome, written: seq<byte>, consumed: nat)

  /** The trace `t` of a later stage, after `consumed` bytes were read and `written` written. */
  function After(consumed: nat, written: seq<byte>, t: Trace): Trace
  {
    Trace(t.outcome, written + t.written, consumed + t.consumed)
  }

  /** What the input holds for a length field and payload at `pos`: too few bytes, a length
      above MAX_PIECE_SIZE (detected before any payload byte is read), or the payload. */
  datatype FrameHead = Truncated | Oversized | Payload(bytes: seq<byte>)

  function FrameAt(data: seq<byte>, pos: nat): (r: FrameHead)
    requires pos <= |data|
    ensures r.Payload? ==> pos + 4 + |r.bytes| <= |data| && |r.bytes| <= MAX_PIECE_SIZE
  {
    if |data| < pos + 4 then Truncated
    else
      var n := FromBeU32(data[pos..pos + 4]);
      if MAX_PIECE_SIZE < n then Oversized
      else if |data| < pos + 4 + n then Truncated
      else Payload(data[pos + 4..pos + 4 + n])
  }

  /** What the input holds for a checkpoint at `pos`: too few bytes, a digest other than
      `expected`, or `expected` itself. */
  datatype Check = Short | Mismatch | Match

  function CheckpointAt(data: seq<byte>, pos: nat, expected: seq<byte>): (r: Check)
    requires pos <= |data|
    ensures r.Short? <==> |data| < pos + DIGEST_SIZE
  {
    if |data| < pos + DIGEST_SIZE then Short
    else if data[pos..pos + DIGEST_SIZE] != expected then Mismatch
    else Match
  }

  /** How one pass of the piece loop ends: on to the next piece, out of the loop after the
      terminator, or out of `copy_out` with an error. */
  datatype Step = NextPiece | Terminated | Failed(error: ReliableWriteError)

  /** One pass of the piece loop: how it ends, the bytes it wrote and the input bytes it consumed. */
  datatype Pass = Pass(step: Step, written: seq<byte>, consumed: nat)

  /** Where the piece loop stands: the input position, every payload byte absorbed into the
      digest (and written out) so far, and the room left in the output. */
  datatype Cursor = Cursor(pos: nat, absorbed: seq<byte>, room: nat)

  /** The rest of a pass once the length field and the payload `payload` were read at cursor
      `c`: the payload is absorbed and written out (unless the output lacks room), then its
      checkpoint is read and compared; a zero-length payload whose checkpoint matches ends the loop.
      What is consumed is counted from the start of the frame; a short read consumes the rest of
      the input. */
  function PayloadStep(h: Hasher, data: seq<byte>, c: Cursor, payload: seq<byte>): (r: Pass)
    requires c.pos + 4 + |payload| <= |data|
    ensures c.pos + r.consumed <= |data|
    ensures |r.written| <= c.room
    ensures r.step.NextPiece? ==> 0 < r.consumed
    ensures r.step.Terminated? ==> r.written == []
  {
    if c.room < |payload| then Pass(Failed(WriteError), [], 4 + |payload|)
    else match CheckpointAt(data, c.pos + 4 + |payload|, Of(h, c.absorbed + payload))
      case Short => Pass(Failed(ReadError), payload, |data| - c.pos)
      case Mismatch => Pass(Failed(IntegrityError), payload, 4 + |payload| + DIGEST_SIZE)
      case Match =>
        if payload == [] then Pass(Terminated, [], 4 + DIGEST_SIZE)
        else Pass(NextPiece, payload, 4 + |payload| + DIGEST_SIZE)
  }

  /** One pass of the piece loop at cursor `c`: a length field above MAX_PIECE_SIZE fails before
      any payload byte is read, and running out of input while reading the length field or the
      payload is a read error that consumes the rest of the input. */
  function PieceStep(h: Hasher, data: seq<byte>, c: Cursor): (r: Pass)
    requires c.pos <= |data|
    ensures c.pos + r.consumed <= |data|
    ensures |r.written| <= c.room
    ensures r.step.NextPiece? ==> 0 < r.consumed
    ensures r.step.Terminated? ==> r.written == []
  {
    match FrameAt(data, c.pos)
    case Truncated => Pass(Failed(ReadError), [], |data| - c.pos)
    case Oversized => Pass(Failed(ProtocolError), [], 4)
    case Payload(payload) => PayloadStep(h, data, c, payload)
  }

  /** The cursor after a pass: past what it consumed, having absorbed and written what it wrote. */
  function Advance(h: Hasher, data: seq<byte>, c: Cursor): (r: Cursor)
    requires c.pos <= |data|
    ensures r.pos <= |data|
    ensures PieceStep(h, data, c).step.NextPiece? ==> c.pos < r.pos
  {
    var p := PieceStep(h, data, c);
    Cursor(c.pos + p.consumed, c.absorbed + p.written, c.room - |p.written|)
  }

  /** The trailer at `pos`: one more checkpoint, compared with the unchanged digest of `absorbed`. */
  function DecodeTrailer(h: Hasher, data: seq<byte>, pos: nat, absorbed: seq<byte>): (r: Trace)
    requires pos <= |data|
    ensures pos + r.consumed <= |data| && r.written == []
    ensures r.outcome == Ok <==> pos + DIGEST_SIZE <= |data| && data[pos..pos + DIGEST_SIZE] == Of(h, absorbed)
  {
    match CheckpointAt(data, pos, Of(h, absorbed))
    case Short => Trace(Err(ReadError), [], |data| - pos)
    case Mismatch => Trace(Err(IntegrityError), [], DIGEST_SIZE)
    case Match => Trace(Ok, [], DIGEST_SIZE)
  }

  /** The piece loop from cursor `c` on, then the trailer once the terminator was accepted. */
  function DecodePieces(h: Hasher, data: seq<byte>, c: Cursor): (r: Trace)
    requires c.pos <= |data|
    ensures c.pos + r.consumed <= |data|
    ensures |r.written| <= c.room
    decreases |data| - c.pos
  {
    var p := PieceStep(h, data, c);
    match p.step
    case Failed(e) => Trace(Err(e), p.written, p.consumed)
    case Terminated => After(p.consumed, [], DecodeTrailer(h, data, Advance(h, data, c).pos, c.absorbed))
    case NextPiece => After(p.consumed, p.written, DecodePieces(h, data, Advance(h, data, c)))
  }

  /** A whole run from `pos`: the header is read (and never compared with MAGIC_HEADER), then
      the pieces over a fresh digest. */
  function Decode(h: Hasher, data: seq<byte>, pos: nat, room: nat): (r: Trace)
    requires pos <= |data|
    ensures pos + r.consumed <= |data|
    ensures |r.written| <= room
  {
    if |data| < pos + |MAGIC_HEADER| then Trace(Err(ReadError), [], |data| - pos)
    else After(|MAGIC_HEADER|, [], DecodePieces(h, data, Cursor(pos + |MAGIC_HEADER|, [], room)))
  }

  /** `DecodePieces` after one pass of the piece loop, field by field. */
  lemma UnfoldPieces(h: Hasher, data: seq<byte>, c: Cursor)
    requires c.pos <= |data|
    ensures var t := DecodePieces(h, data, c);
            var p := PieceStep(h, data, c);
      && (p.step.Failed? ==> t.outcome == Err(p.step.error) && t.written == p.written && t.consumed == p.consumed)
      && (p.step.Terminated? ==>
            var u := DecodeTrailer(h, data, Advance(h, data, c).pos, c.absorbed);
            t.outcome == u.outcome && t.written == [] && t.consumed == p.consumed + u.consumed)
      && (p.step.NextPiece? ==>
            var u := DecodePieces(h, data, Advance(h, data, c));
            t.outcome == u.outcome && t.written == p.written + u.written && t.consumed == p.consumed + u.consumed)
  {
  }

  /** The loop's view of a run that started at `start` with `room0` bytes of room: it has
      reached cursor `c`, and the rest of the run is the piece loop from there. */
  ghost predicate Resumes(h: Hasher, data: seq<byte>, start: nat, room0: nat, c: Cursor)
  {
    && start <= c.pos <= |data|
    && var t := Decode(h, data, start, room0);
       var u := DecodePieces(h, data, c);
       t.outcome == u.outcome && t.written == c.absorbed + u.written && t.consumed == c.pos - start + u.consumed
  }

  /** Right after the header the whole run is still ahead, over a fresh digest. */
  lemma ResumeAtHeader(h: Hasher, data: seq<byte>, start: nat, room0: nat)
    requires start + |MAGIC_HEADER| <= |data|
    ensures Resumes(h, data, start, room0, Cursor(start + |MAGIC_HEADER|, [], room0))
  {
  }

  /** A pass that ends in an error ends the run with it. */
  lemma ResumeFailed(h: Hasher, data: seq<byte>, start: nat, room0: nat, c: Cursor)
    requires Resumes(h, data, start, room0, c)
    requires PieceStep(h, data, c).step.Failed?
    ensures var t := Decode(h, data, start, room0);
            var p := PieceStep(h, data, c);
      t.outcome == Err(p.step.error) && t.written == c.absorbed + p.written && t.consumed == c.pos - start + p.consumed
  {
    UnfoldPieces(h, data, c);
  }

  /** A pass that accepts the terminator leaves only the trailer, right after it. */
  lemma ResumeTerminated(h: Hasher, data: seq<byte>, start: nat, room0: nat, c: Cursor)
    requires Resumes(h, data, start, room0, c)
    requires PieceStep(h, data, c).step.Terminated?
    ensures var t := Decode(h, data, start, room0);
            var next := Advance(h, data, c).pos;
            var u := DecodeTrailer(h, data, next, c.absorbed);
      t.outcome == u.outcome && t.written == c.absorbed && t.consumed == next - start + u.consumed
  {
    UnfoldPieces(h, data, c);
    assert c.absorbed + [] == c.absorbed;
  }

  /** A pass that accepts a piece leaves the run resumable after it. */
  lemma ResumeNext(h: Hasher, data: seq<byte>, start: nat, room0: nat, c: Cursor)
    requires Resumes(h, data, start, room0, c)
    requires PieceStep(h, data, c).step.NextPiece?
    ensures Resumes(h, data, start, room0, Advance(h, data, c))
  {
    UnfoldPieces(h, data, c);
    AppendTwo(c.absorbed, PieceStep(h, data, c).written, DecodePieces(h, data, Advance(h, data, c)).written);
  }

  /** Reads a length field and, unless it is above MAX_PIECE_SIZE, the payload it announces. */
  method ReadFrameHead(input: Source) returns (r: FrameHead)
    requires input.Valid()
    modifies input
    ensures input.Valid()
    ensures r == FrameAt(input.data, old(input.pos))
    ensures input.pos == match r
                         case Truncated => |input.data|
                         case Oversized => old(input.pos) + 4
                         case Payload(bytes) => old(input.pos) + 4 + |bytes|
  {
    var len := input.ReadBeU32();
    if len.None? {
      return Truncated;
    }
    var n := len.value;
    if MAX_PIECE_SIZE < n {
      return Oversized;
    }
    var data := input.ReadExact(n);
    if data.None? {
      return Truncated;
    }
    return Payload(data.value);
  }

  /** Reads a checkpoint and compares it with `expected`. */
  method ReadCheckpoint(input: Source, expected: seq<byte>) returns (r: Check)
    requires input.Valid()
    modifies input
    ensures input.Valid()
    ensures r == CheckpointAt(input.data, old(input.pos), expected)
    ensures input.pos == if r.Short? then |input.data| else old(input.pos) + DIGEST_SIZE
  {
    var hashData := input.ReadExact(DIGEST_SIZE);
    if hashData.None? {
      return Short;
    }
    if hashData.value != expected {
      return Mismatch;
    }
    return Match;
  }

  /** The second half of the loop body of `copy_out`, once `payload` was read: absorb it, write
      it out, then read and compare its checkpoint. */
  method ForwardPayload(hash: Hasher, absorbed: seq<byte>, payload: seq<byte>,
                        input: Source, output: Sink, ghost c: Cursor)
    returns (step: Step, absorbed': seq<byte>)
    requires input.Valid() && output.Valid()
    requires c.pos + 4 + |payload| == input.pos && c.absorbed == absorbed && c.room == output.Room()
    modifies input, output
    ensures input.Valid() && output.Valid()
    ensures var p := PayloadStep(hash, input.data, c, payload);
      && step == p.step
      && output.data == old(output.data) + p.written
      && input.pos == c.pos + p.consumed
      && (!step.Failed? ==> absorbed' == absorbed + p.written)
  {
    absorbed' := absorbed + payload;
    var ok := output.Write(payload);
    if !ok {
      assert old(output.data) + [] == old(output.data);
      return Failed(WriteError), absorbed';
    }
    var check := ReadCheckpoint(input, Of(hash, absorbed'));
    step := match check
      case Short => Failed(ReadError)
      case Mismatch => Failed(IntegrityError)
      case Match => if |payload| == 0 then Terminated else NextPiece;
    if step.Terminated? {
      assert payload == [] && old(output.data) + [] == old(output.data);
    }
  }

  /** One pass of the loop body of `copy_out`: read a frame head, then absorb and write the
      payload and read and compare its checkpoint. `absorbed` is the digest state on entry and
      `absorbed'` on exit; the ghost cursor `c` names the loop's position, digest state and room,
      and what the pass writes and consumes is what `PieceStep` says. */
  method ReadPiece(hash: Hasher, absorbed: seq<byte>, input: Source, output: Sink, ghost c: Cursor)
    returns (step: Step, absorbed': seq<byte>)
    requires input.Valid() && output.Valid()
    requires c.pos == input.pos && c.absorbed == absorbed && c.room == output.Room()
    modifies input, output
    ensures input.Valid() && output.Valid()
    ensures var p := PieceStep(hash, input.data, c);
      && step == p.step
      && output.data == old(output.data) + p.written
      && input.pos == c.pos + p.consumed
      && (!step.Failed? ==> absorbed' == absorbed + p.written)
  {
    var head := ReadFrameHead(input);
    match head {
      case Truncated =>
        assert old(output.data) + [] == old(output.data);
        step, absorbed' := Failed(ReadError), absorbed;
      case Oversized =>
        assert old(output.data) + [] == old(output.data);
        step, absorbed' := Failed(ProtocolError), absorbed;
      case Payload(payload) =>
        step, absorbed' := ForwardPayload(hash, absorbed, payload, input, output, c);
    }
  }

  /** The end of `copy_out` once the terminator was accepted: the trailer must repeat the
      digest of everything absorbed. */
  method ReadTrailer(hash: Hasher, absorbed: seq<byte>, input: Source) returns (r: Outcome)
    requires input.Valid()
    modifies input
    ensures input.Valid()
    ensures var u := DecodeTrailer(hash, input.data, old(input.pos), absorbed);
      r == u.outcome && input.pos == old(input.pos) + u.consumed
  {
    var check := ReadCheckpoint(input, Of(hash, absorbed));
    r := match check
      case Short => Err(ReadError)
      case Mismatch => Err(IntegrityError)
      case Match => Ok;
  }

  /** `copy_out(input, output)`: decodes the stream at the input's cursor, writing the payload
      bytes to `output`; the result, the output and the cursor are those `Decode` describes. */
  method CopyOut(hash: Hasher, input: Source, output: Sink) returns (r: Outcome)
    requires input.Valid() && output.Valid()
    modifies input, output
    ensures input.Valid() && output.Valid()
    ensures var t := Decode(hash, input.data, old(input.pos), old(output.Room()));
      && r == t.outcome
      && output.data == old(output.data) + t.written
      && input.pos == old(input.pos) + t.consumed
  {
    ghost var data, start, out0, room0 := input.data, input.pos, output.data, output.Room();
    var absorbed: seq<byte> := [];

    var header := input.ReadExact(|MAGIC_HEADER|);
    if header.None? {
      return Err(ReadError);
    }
    ghost var at := Cursor(start + |MAGIC_HEADER|, [], room0);
    ResumeAtHeader(hash, data, start, room0);
    assert out0 + [] == out0;

    while true
      invariant input.Valid() && output.Valid()
      invariant input.pos == at.pos && absorbed == at.absorbed && at.room == output.Room()
      invariant output.data == out0 + absorbed
      invariant Resumes(hash, data, start, room0, at)
      decreases |data| - at.pos
    {
      label Pass:
      var step, absorbed' := ReadPiece(hash, absorbed, input, output, at);
      if step.Failed? {
        ResumeFailed(hash, data, start, room0, at);
        AppendTwo(out0, absorbed, PieceStep(hash, data, at).written);
        return Err(step.error);
      }
      if step.Terminated? {
        ResumeTerminated(hash, data, start, room0, at);
        assert output.data == out0 + absorbed by {
          assert old@Pass(output.data) + [] == old@Pass(output.data);
        }
        at := Advance(hash, data, at);
        assert input.pos == at.pos && absorbed == at.absorbed;
        break;
      }
      ResumeNext(hash, data, start, room0, at);
      AppendTwo(out0, absorbed, PieceStep(hash, data, at).written);
      absorbed, at := absorbed', Advance(hash, data, at);
    }

    r := ReadTrailer(hash, absorbed, input);
  }
}
