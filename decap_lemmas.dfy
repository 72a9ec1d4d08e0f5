/** What `copy_out` does with the streams `ReliableEncap` writes, and with streams that were
    cut short, corrupted or that announce an oversized piece: statements about `Decode`, which
    `CopyOut` is proved to follow. */
module DecapProperties {
  import opened Bytes
  import opened Digest
  import opened Wire
  import opened Decap

  /** `s` lies in `data` starting at `pos`, stated byte by byte so that the verifier unfolds it
      only as far as a proof needs. */
  ghost predicate At(data: seq<byte>, pos: nat, s: seq<byte>)
    decreases |s|
  {
    if s == [] then pos <= |data|
    else pos < |data| && data[pos] == s[0] && At(data, pos + 1, s[1..])
  }

  lemma {:induction false} AtSlice(data: seq<byte>, pos: nat, s: seq<byte>)
    ensures At(data, pos, s) <==> pos + |s| <= |data| && data[pos..pos + |s|] == s
    decreases |s|
  {
    if s != [] {
      AtSlice(data, pos + 1, s[1..]);
      if pos + |s| <= |data| {
        assert data[pos..pos + |s|] == [data[pos]] + data[pos + 1..pos + |s|];
      }
    }
  }

  lemma SplitAt(data: seq<byte>, pos: nat, a: seq<byte>, b: seq<byte>)
    requires At(data, pos, a + b)
    ensures At(data, pos, a) && At(data, pos + |a|, b)
  {
    AtSlice(data, pos, a + b);
    AtSlice(data, pos, a);
    AtSlice(data, pos + |a|, b);
    assert data[pos..pos + |a|] == (a + b)[..|a|];
    assert data[pos + |a|..pos + |a| + |b|] == (a + b)[|a|..];
  }

  lemma JoinAt(data: seq<byte>, pos: nat, a: seq<byte>, b: seq<byte>)
    requires At(data, pos, a) && At(data, pos + |a|, b)
    ensures At(data, pos, a + b)
  {
    AtSlice(data, pos, a + b);
    AtSlice(data, pos, a);
    AtSlice(data, pos + |a|, b);
    assert data[pos..pos + |a| + |b|] == data[pos..pos + |a|] + data[pos + |a|..pos + |a| + |b|];
  }

  /** Where the parts of `pre + s + post` lie. */
  lemma Layout(pre: seq<byte>, s: seq<byte>, post: seq<byte>)
    ensures At(pre + s + post, |pre|, s) && At(pre + s + post, |pre| + |s|, post)
  {
    AtSlice(pre + s + post, |pre|, s);
    AtSlice(pre + s + post, |pre| + |s|, post);
    assert (pre + s + post)[|pre|..|pre| + |s|] == s;
    assert (pre + s + post)[|pre| + |s|..|pre| + |s| + |post|] == post;
  }

  /** The three fields of a frame laid out at `pos`, as the decoder reads them. */
  lemma FieldsAt(data: seq<byte>, pos: nat, p: seq<byte>, check: seq<byte>)
    requires |p| < U32_LIMIT && |check| == DIGEST_SIZE
    requires At(data, pos, BeU32(|p|) + p + check)
    ensures pos + 4 + |p| + DIGEST_SIZE <= |data|
    ensures FromBeU32(data[pos..pos + 4]) == |p|
    ensures data[pos + 4..pos + 4 + |p|] == p
    ensures data[pos + 4 + |p|..pos + 4 + |p| + DIGEST_SIZE] == check
  {
    SplitAt(data, pos, BeU32(|p|) + p, check);
    SplitAt(data, pos, BeU32(|p|), p);
    AtSlice(data, pos, BeU32(|p|));
    AtSlice(data, pos + 4, p);
    AtSlice(data, pos + 4 + |p|, check);
  }

  /** A frame with payload `p` and checkpoint `check` at the cursor, when the output has room
      for `p`: the pass consumes the whole frame and writes `p` whatever the checkpoint says;
      a checkpoint other than the digest of everything absorbed plus `p` is an integrity error,
      and otherwise an empty payload ends the loop and any other is accepted. */
  lemma ReadFrame(h: Hasher, data: seq<byte>, c: Cursor, p: seq<byte>, check: seq<byte>)
    requires |p| <= MAX_PIECE_SIZE && |p| <= c.room
    requires c.pos + 4 + |p| + DIGEST_SIZE <= |data|
    requires FromBeU32(data[c.pos..c.pos + 4]) == |p|
    requires data[c.pos + 4..c.pos + 4 + |p|] == p
    requires data[c.pos + 4 + |p|..c.pos + 4 + |p| + DIGEST_SIZE] == check
    ensures PieceStep(h, data, c).consumed == 4 + |p| + DIGEST_SIZE
    ensures check != Of(h, c.absorbed + p) ==> PieceStep(h, data, c).step == Failed(IntegrityError)
    ensures check == Of(h, c.absorbed + p) && p == [] ==> PieceStep(h, data, c).step == Terminated
    ensures check == Of(h, c.absorbed + p) && p != [] ==> PieceStep(h, data, c).step == NextPiece
    ensures PieceStep(h, data, c).written == p
  {
    assert FrameAt(data, c.pos) == Payload(p);
    assert PieceStep(h, data, c) == PayloadStep(h, data, c, p);
    if check != Of(h, c.absorbed + p) {
      assert CheckpointAt(data, c.pos + 4 + |p|, Of(h, c.absorbed + p)) == Mismatch;
    } else {
      assert CheckpointAt(data, c.pos + 4 + |p|, Of(h, c.absorbed + p)) == Match;
    }
  }

  /** Where the loop stands after accepting the frame of `p` at cursor `c`. */
  function Next(h: Hasher, c: Cursor, p: seq<byte>): (r: Cursor)
    requires |p| <= c.room
    ensures r.pos == c.pos + |Frame(h, c.absorbed, p)| && r.absorbed == c.absorbed + p && r.room + |p| == c.room
  {
    Cursor(c.pos + |Frame(h, c.absorbed, p)|, c.absorbed + p, c.room - |p|)
  }

  /** The frame of a valid piece, with room for it in the output: the loop accepts it, writes
      it and carries on right after it with the piece absorbed. */
  lemma AcceptFrame(h: Hasher, data: seq<byte>, c: Cursor, p: seq<byte>)
    requires 0 < |p| <= MAX_PIECE_SIZE && |p| <= c.room
    requires At(data, c.pos, Frame(h, c.absorbed, p))
    ensures Next(h, c, p).pos <= |data|
    ensures DecodePieces(h, data, c).outcome == DecodePieces(h, data, Next(h, c, p)).outcome
    ensures DecodePieces(h, data, c).written == p + DecodePieces(h, data, Next(h, c, p)).written
    ensures DecodePieces(h, data, c).consumed
         == |Frame(h, c.absorbed, p)| + DecodePieces(h, data, Next(h, c, p)).consumed
  {
    FieldsAt(data, c.pos, p, Of(h, c.absorbed + p));
    ReadFrame(h, data, c, p, Of(h, c.absorbed + p));
    UnfoldPieces(h, data, c);
    assert Advance(h, data, c) == Next(h, c, p);
  }

  /** Where the loop stands after accepting the frames of `pieces` from cursor `c`. */
  function Past(h: Hasher, c: Cursor, pieces: seq<seq<byte>>): (r: Cursor)
    requires |Concat(pieces)| <= c.room
    ensures r.pos == c.pos + |Frames(h, c.absorbed, pieces)|
    ensures r.absorbed == c.absorbed + Concat(pieces)
    ensures r.room + |Concat(pieces)| == c.room
  {
    Cursor(c.pos + |Frames(h, c.absorbed, pieces)|, c.absorbed + Concat(pieces), c.room - |Concat(pieces)|)
  }

  /** The frames of several pieces: the first frame, then the others from where it ends. */
  lemma FramesAt(h: Hasher, data: seq<byte>, c: Cursor, pieces: seq<seq<byte>>)
    requires pieces != [] && |Concat(pieces)| <= c.room
    requires At(data, c.pos, Frames(h, c.absorbed, pieces))
    ensures |pieces[0]| <= c.room && |Concat(pieces[1..])| <= Next(h, c, pieces[0]).room
    ensures At(data, c.pos, Frame(h, c.absorbed, pieces[0]))
    ensures At(data, Next(h, c, pieces[0]).pos, Frames(h, Next(h, c, pieces[0]).absorbed, pieces[1..]))
    ensures Past(h, Next(h, c, pieces[0]), pieces[1..]) == Past(h, c, pieces)
  {
    assert Concat(pieces) == pieces[0] + Concat(pieces[1..]);
    SplitAt(data, c.pos, Frame(h, c.absorbed, pieces[0]), Frames(h, c.absorbed + pieces[0], pieces[1..]));
    AppendTwo(c.absorbed, pieces[0], Concat(pieces[1..]));
  }

  /** The frames of valid pieces, when the output has room for them all: the loop accepts every
      one of them, writing exactly their concatenation, and carries on right after them with
      their bytes absorbed. */
  lemma {:induction false} DecodeFrames(h: Hasher, data: seq<byte>, c: Cursor, pieces: seq<seq<byte>>)
    requires ValidPieces(pieces) && |Concat(pieces)| <= c.room
    requires At(data, c.pos, Frames(h, c.absorbed, pieces))
    ensures Past(h, c, pieces).pos <= |data|
    ensures DecodePieces(h, data, c).outcome == DecodePieces(h, data, Past(h, c, pieces)).outcome
    ensures DecodePieces(h, data, c).written == Concat(pieces) + DecodePieces(h, data, Past(h, c, pieces)).written
    ensures DecodePieces(h, data, c).consumed
         == |Frames(h, c.absorbed, pieces)| + DecodePieces(h, data, Past(h, c, pieces)).consumed
    decreases |pieces|
  {
    if pieces == [] {
      assert c.absorbed + [] == c.absorbed;
      assert Past(h, c, pieces) == c;
    } else {
      ValidPiecesTail(pieces);
      FramesAt(h, data, c, pieces);
      AcceptFrame(h, data, c, pieces[0]);
      DecodeFrames(h, data, Next(h, c, pieces[0]), pieces[1..]);
      AppendTwo(pieces[0], Concat(pieces[1..]), DecodePieces(h, data, Past(h, c, pieces)).written);
    }
  }

  /** The fields of a terminator over the digest of `a`, followed by the trailer `check`, laid out at `pos`. */
  lemma EndFieldsAt(h: Hasher, data: seq<byte>, pos: nat, a: seq<byte>, check: seq<byte>)
    requires |check| == DIGEST_SIZE
    requires At(data, pos, Terminator(h, a) + check)
    ensures pos + FRAME_OVERHEAD + DIGEST_SIZE <= |data|
    ensures FromBeU32(data[pos..pos + 4]) == 0
    ensures data[pos + 4..pos + 4] == []
    ensures data[pos + 4..pos + 4 + DIGEST_SIZE] == Of(h, a)
    ensures data[pos + FRAME_OVERHEAD..pos + FRAME_OVERHEAD + DIGEST_SIZE] == check
  {
    SplitAt(data, pos, Terminator(h, a), check);
    SplitAt(data, pos, BeU32(0), Of(h, a));
    AtSlice(data, pos, BeU32(0));
    AtSlice(data, pos + 4, Of(h, a));
    AtSlice(data, pos + FRAME_OVERHEAD, check);
  }

  /** The terminator and the trailer over the digest of `c.absorbed`: the loop ends and the
      run succeeds, writing nothing more. */
  lemma AcceptEnd(h: Hasher, data: seq<byte>, c: Cursor)
    requires At(data, c.pos, Terminator(h, c.absorbed) + Of(h, c.absorbed))
    ensures DecodePieces(h, data, c).outcome == Ok
    ensures DecodePieces(h, data, c).written == []
    ensures DecodePieces(h, data, c).consumed == FRAME_OVERHEAD + DIGEST_SIZE
  {
    EndFieldsAt(h, data, c.pos, c.absorbed, Of(h, c.absorbed));
    assert c.absorbed + [] == c.absorbed;
    ReadFrame(h, data, c, [], Of(h, c.absorbed));
    UnfoldPieces(h, data, c);
  }

  /** A terminator that verifies, followed by a trailer that does not: the loop has ended, so
      the run fails with an integrity error on the trailer, writing nothing more. */
  lemma RejectTrailer(h: Hasher, data: seq<byte>, c: Cursor, check: seq<byte>)
    requires |check| == DIGEST_SIZE && check != Of(h, c.absorbed)
    requires At(data, c.pos, Terminator(h, c.absorbed) + check)
    ensures DecodePieces(h, data, c).outcome == Err(IntegrityError)
    ensures DecodePieces(h, data, c).written == []
    ensures DecodePieces(h, data, c).consumed == FRAME_OVERHEAD + DIGEST_SIZE
  {
    EndFieldsAt(h, data, c.pos, c.absorbed, check);
    assert c.absorbed + [] == c.absorbed;
    ReadFrame(h, data, c, [], Of(h, c.absorbed));
    UnfoldPieces(h, data, c);
    assert CheckpointAt(data, c.pos + FRAME_OVERHEAD, Of(h, c.absorbed)) == Mismatch;
  }

  /** The body of valid pieces: the frames, then the terminator and the trailer where they end. */
  lemma BodyAt(h: Hasher, data: seq<byte>, c: Cursor, pieces: seq<seq<byte>>)
    requires |Concat(pieces)| <= c.room
    requires At(data, c.pos, Body(h, c.absorbed, pieces))
    ensures At(data, c.pos, Frames(h, c.absorbed, pieces))
    ensures At(data, Past(h, c, pieces).pos,
               Terminator(h, Past(h, c, pieces).absorbed) + Of(h, Past(h, c, pieces).absorbed))
  {
    BodyParts(h, c.absorbed, pieces);
    SplitAt(data, c.pos, Frames(h, c.absorbed, pieces),
            Terminator(h, c.absorbed + Concat(pieces)) + Of(h, c.absorbed + Concat(pieces)));
  }

  /** The body of valid pieces, with room for them in the output: the run succeeds, writes their
      concatenation and consumes exactly the body. */
  lemma DecodeBody(h: Hasher, data: seq<byte>, c: Cursor, pieces: seq<seq<byte>>)
    requires ValidPieces(pieces) && |Concat(pieces)| <= c.room
    requires At(data, c.pos, Body(h, c.absorbed, pieces))
    ensures DecodePieces(h, data, c).outcome == Ok
    ensures DecodePieces(h, data, c).written == Concat(pieces)
    ensures DecodePieces(h, data, c).consumed == |Body(h, c.absorbed, pieces)|
  {
    BodyAt(h, data, c, pieces);
    DecodeFrames(h, data, c, pieces);
    AcceptEnd(h, data, Past(h, c, pieces));
    assert Concat(pieces) + [] == Concat(pieces);
  }

  /** Round trip: any header of the right length followed by the body of valid pieces, when the
      output has room for them, decodes to `Ok`, writes exactly the concatenation of the pieces
      and consumes exactly the stream, whatever follows it. */
  lemma DecodeStream(h: Hasher, header: seq<byte>, pieces: seq<seq<byte>>, rest: seq<byte>, room: nat)
    requires |header| == |MAGIC_HEADER| && ValidPieces(pieces) && |Concat(pieces)| <= room
    ensures Decode(h, Stream(h, header, pieces) + rest, 0, room).outcome == Ok
    ensures Decode(h, Stream(h, header, pieces) + rest, 0, room).written == Concat(pieces)
    ensures Decode(h, Stream(h, header, pieces) + rest, 0, room).consumed == |Stream(h, header, pieces)|
  {
    assert At(Stream(h, header, pieces) + rest, |header|, Body(h, [], pieces)) by {
      assert Stream(h, header, pieces) + rest == header + Body(h, [], pieces) + rest;
      AtSlice(Stream(h, header, pieces) + rest, |header|, Body(h, [], pieces));
    }
    DecodeBody(h, Stream(h, header, pieces) + rest, Cursor(|header|, [], room), pieces);
  }

  /** An input made of a header, the frames of valid pieces and then `tail`: the run accepts
      the frames and goes on with the piece loop right after them. */
  lemma DecodeAfterFrames(h: Hasher, data: seq<byte>, header: seq<byte>, pieces: seq<seq<byte>>,
                          tail: seq<byte>, room: nat)
    requires |header| == |MAGIC_HEADER| && ValidPieces(pieces) && |Concat(pieces)| <= room
    requires data == header + Frames(h, [], pieces) + tail
    ensures Past(h, Cursor(|header|, [], room), pieces).pos == |header| + |Frames(h, [], pieces)|
    ensures Past(h, Cursor(|header|, [], room), pieces).absorbed == Concat(pieces)
    ensures At(data, Past(h, Cursor(|header|, [], room), pieces).pos, tail)
    ensures Decode(h, data, 0, room).outcome
         == DecodePieces(h, data, Past(h, Cursor(|header|, [], room), pieces)).outcome
    ensures Decode(h, data, 0, room).written
         == Concat(pieces) + DecodePieces(h, data, Past(h, Cursor(|header|, [], room), pieces)).written
    ensures Decode(h, data, 0, room).consumed
         == |header| + |Frames(h, [], pieces)| + DecodePieces(h, data, Past(h, Cursor(|header|, [], room), pieces)).consumed
  {
    Layout(header, Frames(h, [], pieces), tail);
    DecodeFrames(h, data, Cursor(|header|, [], room), pieces);
    assert [] + Concat(pieces) == Concat(pieces);
  }

  /** A length field above MAX_PIECE_SIZE at the cursor: the run fails with a protocol error
      right after reading it, before any payload byte, and writes nothing more. */
  lemma RejectOversized(h: Hasher, data: seq<byte>, c: Cursor, n: nat)
    requires MAX_PIECE_SIZE < n < U32_LIMIT
    requires At(data, c.pos, BeU32(n))
    ensures DecodePieces(h, data, c).outcome == Err(ProtocolError)
    ensures DecodePieces(h, data, c).written == []
    ensures DecodePieces(h, data, c).consumed == 4
  {
    AtSlice(data, c.pos, BeU32(n));
    assert FrameAt(data, c.pos) == Oversized;
    UnfoldPieces(h, data, c);
  }

  /** A stream whose next length field, after a header and the frames of valid pieces, announces
      more than MAX_PIECE_SIZE bytes: the run fails with a protocol error once it has read that
      field, before any payload byte, having written exactly the earlier pieces. */
  lemma OversizedLength(h: Hasher, header: seq<byte>, pieces: seq<seq<byte>>, n: nat, rest: seq<byte>, room: nat)
    requires |header| == |MAGIC_HEADER| && ValidPieces(pieces) && |Concat(pieces)| <= room
    requires MAX_PIECE_SIZE < n < U32_LIMIT
    ensures var t := Decode(h, header + Frames(h, [], pieces) + (BeU32(n) + rest), 0, room);
      && t.outcome == Err(ProtocolError)
      && t.written == Concat(pieces)
      && t.consumed == |header| + |Frames(h, [], pieces)| + 4
  {
    DecodeAfterFrames(h, header + Frames(h, [], pieces) + (BeU32(n) + rest), header, pieces, BeU32(n) + rest, room);
    SplitAt(header + Frames(h, [], pieces) + (BeU32(n) + rest), Past(h, Cursor(|header|, [], room), pieces).pos, BeU32(n), rest);
    RejectOversized(h, header + Frames(h, [], pieces) + (BeU32(n) + rest), Past(h, Cursor(|header|, [], room), pieces), n);
    assert Concat(pieces) + [] == Concat(pieces);
  }

  /** The bound is inclusive: a single piece of exactly MAX_PIECE_SIZE bytes round-trips. */
  lemma LargestPieceAccepted(h: Hasher, header: seq<byte>, p: seq<byte>, room: nat)
    requires |header| == |MAGIC_HEADER| && |p| == MAX_PIECE_SIZE && MAX_PIECE_SIZE <= room
    ensures Decode(h, Stream(h, header, [p]), 0, room).outcome == Ok
    ensures Decode(h, Stream(h, header, [p]), 0, room).written == p
  {
    assert Concat([p]) == p + Concat([]);
    assert Stream(h, header, [p]) + [] == Stream(h, header, [p]);
    DecodeStream(h, header, [p], [], room);
  }

  /** A frame at the cursor whose checkpoint is not the digest of everything absorbed plus its
      payload: the run fails with an integrity error after writing the payload. */
  lemma RejectCheckpoint(h: Hasher, data: seq<byte>, c: Cursor, p: seq<byte>, check: seq<byte>)
    requires |p| <= MAX_PIECE_SIZE && |p| <= c.room && |check| == DIGEST_SIZE
    requires check != Of(h, c.absorbed + p)
    requires At(data, c.pos, BeU32(|p|) + p + check)
    ensures DecodePieces(h, data, c).outcome == Err(IntegrityError)
    ensures DecodePieces(h, data, c).written == p
    ensures DecodePieces(h, data, c).consumed == FRAME_OVERHEAD + |p|
  {
    FieldsAt(data, c.pos, p, check);
    MismatchedFrame(h, data, c, p, check);
  }

  lemma MismatchedFrame(h: Hasher, data: seq<byte>, c: Cursor, p: seq<byte>, check: seq<byte>)
    requires |p| <= MAX_PIECE_SIZE && |p| <= c.room
    requires check != Of(h, c.absorbed + p)
    requires c.pos + 4 + |p| + DIGEST_SIZE <= |data|
    requires FromBeU32(data[c.pos..c.pos + 4]) == |p|
    requires data[c.pos + 4..c.pos + 4 + |p|] == p
    requires data[c.pos + 4 + |p|..c.pos + 4 + |p| + DIGEST_SIZE] == check
    ensures DecodePieces(h, data, c).outcome == Err(IntegrityError)
    ensures DecodePieces(h, data, c).written == p
    ensures DecodePieces(h, data, c).consumed == FRAME_OVERHEAD + |p|
  {
    ReadFrame(h, data, c, p, check);
    UnfoldPieces(h, data, c);
  }

  /** A checkpoint that is not the digest of every payload byte so far, after a header and the
      frames of valid pieces: the run fails with an integrity error, and the payload it guarded
      has already been written. With an empty payload this is the terminator's checkpoint. */
  lemma BadCheckpoint(h: Hasher, header: seq<byte>, pieces: seq<seq<byte>>,
                      p: seq<byte>, check: seq<byte>, rest: seq<byte>, room: nat)
    requires |header| == |MAGIC_HEADER| && ValidPieces(pieces) && |p| <= MAX_PIECE_SIZE
    requires |Concat(pieces)| + |p| <= room
    requires |check| == DIGEST_SIZE && check != Of(h, Concat(pieces) + p)
    ensures var t := Decode(h, header + Frames(h, [], pieces) + (BeU32(|p|) + p + check + rest), 0, room);
      && t.outcome == Err(IntegrityError)
      && t.written == Concat(pieces) + p
      && t.consumed == |header| + |Frames(h, [], pieces)| + FRAME_OVERHEAD + |p|
  {
    DecodeAfterFrames(h, header + Frames(h, [], pieces) + (BeU32(|p|) + p + check + rest), header, pieces,
                      BeU32(|p|) + p + check + rest, room);
    SplitAt(header + Frames(h, [], pieces) + (BeU32(|p|) + p + check + rest),
            Past(h, Cursor(|header|, [], room), pieces).pos, BeU32(|p|) + p + check, rest);
    RejectCheckpoint(h, header + Frames(h, [], pieces) + (BeU32(|p|) + p + check + rest),
                     Past(h, Cursor(|header|, [], room), pieces), p, check);
  }

  /** A trailer that is not the digest of the whole payload, after the frames of valid pieces
      and a terminator that verifies: the run fails with an integrity error once it has written
      every piece and read the whole stream. */
  lemma BadTrailer(h: Hasher, header: seq<byte>, pieces: seq<seq<byte>>, check: seq<byte>, rest: seq<byte>, room: nat)
    requires |header| == |MAGIC_HEADER| && ValidPieces(pieces) && |Concat(pieces)| <= room
    requires |check| == DIGEST_SIZE && check != Of(h, Concat(pieces))
    ensures var t := Decode(h, header + Frames(h, [], pieces) + (Terminator(h, Concat(pieces)) + check + rest), 0, room);
      && t.outcome == Err(IntegrityError)
      && t.written == Concat(pieces)
      && t.consumed == |header| + |Frames(h, [], pieces)| + FRAME_OVERHEAD + DIGEST_SIZE
  {
    DecodeAfterFrames(h, header + Frames(h, [], pieces) + (Terminator(h, Concat(pieces)) + check + rest), header, pieces,
                      Terminator(h, Concat(pieces)) + check + rest, room);
    SplitAt(header + Frames(h, [], pieces) + (Terminator(h, Concat(pieces)) + check + rest),
            Past(h, Cursor(|header|, [], room), pieces).pos, Terminator(h, Concat(pieces)) + check, rest);
    RejectTrailer(h, header + Frames(h, [], pieces) + (Terminator(h, Concat(pieces)) + check + rest),
                  Past(h, Cursor(|header|, [], room), pieces), check);
    assert Concat(pieces) + [] == Concat(pieces);
  }

  /** The length field and the payload of `p` laid out at `pos`. */
  lemma HeadAt(data: seq<byte>, pos: nat, p: seq<byte>)
    requires |p| < U32_LIMIT
    requires At(data, pos, BeU32(|p|) + p)
    ensures pos + 4 + |p| <= |data|
    ensures FromBeU32(data[pos..pos + 4]) == |p|
    ensures data[pos + 4..pos + 4 + |p|] == p
  {
    SplitAt(data, pos, BeU32(|p|), p);
    AtSlice(data, pos, BeU32(|p|));
    AtSlice(data, pos + 4, p);
  }

  /** A payload the output has no room for: the run fails with a write error once the payload
      was read, before its checkpoint is, and the output receives none of it. */
  lemma RejectWrite(h: Hasher, data: seq<byte>, c: Cursor, p: seq<byte>)
    requires |p| <= MAX_PIECE_SIZE && c.room < |p|
    requires At(data, c.pos, BeU32(|p|) + p)
    ensures DecodePieces(h, data, c).outcome == Err(WriteError)
    ensures DecodePieces(h, data, c).written == []
    ensures DecodePieces(h, data, c).consumed == 4 + |p|
  {
    HeadAt(data, c.pos, p);
    assert FrameAt(data, c.pos) == Payload(p);
    UnfoldPieces(h, data, c);
  }

  /** A piece the output has no room for, after the frames of valid pieces that did fit: the run
      fails with a write error once that piece was read, having written exactly the earlier ones. */
  lemma NoRoom(h: Hasher, header: seq<byte>, pieces: seq<seq<byte>>, p: seq<byte>, rest: seq<byte>, room: nat)
    requires |header| == |MAGIC_HEADER| && ValidPieces(pieces) && |p| <= MAX_PIECE_SIZE
    requires |Concat(pieces)| <= room < |Concat(pieces)| + |p|
    ensures var t := Decode(h, header + Frames(h, [], pieces) + (BeU32(|p|) + p + rest), 0, room);
      && t.outcome == Err(WriteError)
      && t.written == Concat(pieces)
      && t.consumed == |header| + |Frames(h, [], pieces)| + 4 + |p|
  {
    DecodeAfterFrames(h, header + Frames(h, [], pieces) + (BeU32(|p|) + p + rest), header, pieces,
                      BeU32(|p|) + p + rest, room);
    SplitAt(header + Frames(h, [], pieces) + (BeU32(|p|) + p + rest),
            Past(h, Cursor(|header|, [], room), pieces).pos, BeU32(|p|) + p, rest);
    RejectWrite(h, header + Frames(h, [], pieces) + (BeU32(|p|) + p + rest), Past(h, Cursor(|header|, [], room), pieces), p);
    assert Concat(pieces) + [] == Concat(pieces);
  }

  /** The input ends inside `s` laid out at `pos`: what is there agrees with `s`, and is shorter. */
  ghost predicate Cut(data: seq<byte>, pos: nat, s: seq<byte>)
  {
    pos <= |data| < pos + |s| && data[pos..] == s[..|data| - pos]
  }

  lemma CutSlice(data: seq<byte>, pos: nat, s: seq<byte>, i: nat, j: nat)
    requires Cut(data, pos, s) && i <= j <= |data| - pos
    ensures data[pos + i..pos + j] == s[i..j]
  {
    assert data[pos + i..pos + j] == data[pos..][i..j];
    assert s[i..j] == s[..|data| - pos][i..j];
  }

  /** A cut inside the first part of `a + b` is a cut inside `a`. */
  lemma CutFront(data: seq<byte>, pos: nat, a: seq<byte>, b: seq<byte>)
    requires Cut(data, pos, a + b) && |data| < pos + |a|
    ensures Cut(data, pos, a)
  {
    assert (a + b)[..|data| - pos] == a[..|data| - pos];
  }

  /** A cut past the first part of `a + b` holds all of `a` and a cut inside `b`. */
  lemma CutBack(data: seq<byte>, pos: nat, a: seq<byte>, b: seq<byte>)
    requires Cut(data, pos, a + b) && pos + |a| <= |data|
    ensures At(data, pos, a) && Cut(data, pos + |a|, b)
  {
    AtSlice(data, pos, a);
    CutSlice(data, pos, a + b, 0, |a|);
    CutSlice(data, pos, a + b, |a|, |data| - pos);
    assert (a + b)[0..|a|] == a;
    assert (a + b)[|a|..|data| - pos] == b[..|data| - pos - |a|];
    assert data[pos + 0..pos + |a|] == data[pos..pos + |a|];
    assert data[pos + |a|..pos + (|data| - pos)] == data[pos + |a|..];
  }

  /** The length field of a frame the input ends inside, once the input reaches past it. */
  lemma CutLength(h: Hasher, data: seq<byte>, pos: nat, a: seq<byte>, p: seq<byte>)
    requires |p| <= MAX_PIECE_SIZE
    requires Cut(data, pos, Frame(h, a, p)) && pos + 4 <= |data|
    ensures FromBeU32(data[pos..pos + 4]) == |p|
  {
    FrameFields(h, a, p);
    CutSlice(data, pos, Frame(h, a, p), 0, 4);
    assert data[pos + 0..pos + 4] == data[pos..pos + 4];
    assert Frame(h, a, p)[0..4] == Frame(h, a, p)[..4];
  }

  /** The payload of a frame the input ends inside, once the input reaches past it. */
  lemma CutPayload(h: Hasher, data: seq<byte>, pos: nat, a: seq<byte>, p: seq<byte>)
    requires Cut(data, pos, Frame(h, a, p)) && pos + 4 + |p| <= |data|
    ensures data[pos + 4..pos + 4 + |p|] == p
  {
    FrameFields(h, a, p);
    CutSlice(data, pos, Frame(h, a, p), 4, 4 + |p|);
  }

  /** The input ends inside a frame: the pass fails with a read error that consumes the rest of
      the input, having written at most the payload (all of it once the checkpoint was reached). */
  lemma CutFrame(h: Hasher, data: seq<byte>, c: Cursor, p: seq<byte>)
    requires |p| <= MAX_PIECE_SIZE && |p| <= c.room
    requires Cut(data, c.pos, Frame(h, c.absorbed, p))
    ensures PieceStep(h, data, c).step == Failed(ReadError)
    ensures PieceStep(h, data, c).consumed == |data| - c.pos
    ensures PieceStep(h, data, c).written <= p
  {
    if |data| < c.pos + 4 {
      assert FrameAt(data, c.pos) == Truncated;
    } else {
      CutLength(h, data, c.pos, c.absorbed, p);
      if |data| < c.pos + 4 + |p| {
        assert FrameAt(data, c.pos) == Truncated;
      } else {
        CutPayload(h, data, c.pos, c.absorbed, p);
        assert FrameAt(data, c.pos) == Payload(p);
        assert CheckpointAt(data, c.pos + 4 + |p|, Of(h, c.absorbed + p)) == Short;
      }
    }
  }

  /** The input ends inside the terminator or the trailer: the run fails with a read error that
      consumes the rest of the input, writing nothing more. */
  lemma CutEnd(h: Hasher, data: seq<byte>, c: Cursor)
    requires Cut(data, c.pos, Terminator(h, c.absorbed) + Of(h, c.absorbed))
    ensures DecodePieces(h, data, c).outcome == Err(ReadError)
    ensures DecodePieces(h, data, c).written == []
    ensures DecodePieces(h, data, c).consumed == |data| - c.pos
  {
    UnfoldPieces(h, data, c);
    if |data| < c.pos + FRAME_OVERHEAD {
      CutFront(data, c.pos, Terminator(h, c.absorbed), Of(h, c.absorbed));
      CutFrame(h, data, c, []);
    } else {
      CutBack(data, c.pos, Terminator(h, c.absorbed), Of(h, c.absorbed));
      SplitAt(data, c.pos, BeU32(0), Of(h, c.absorbed));
      AtSlice(data, c.pos, BeU32(0));
      AtSlice(data, c.pos + 4, Of(h, c.absorbed));
      assert c.absorbed + [] == c.absorbed;
      ReadFrame(h, data, c, [], Of(h, c.absorbed));
      assert CheckpointAt(data, c.pos + FRAME_OVERHEAD, Of(h, c.absorbed)) == Short;
    }
  }

  lemma PrefixWithin(w: seq<byte>, a: seq<byte>, b: seq<byte>)
    requires w <= a
    ensures w <= a + b
  {
    assert (a + b)[..|w|] == a[..|w|];
  }

  lemma PrefixAfter(a: seq<byte>, w: seq<byte>, b: seq<byte>)
    requires w <= b
    ensures a + w <= a + b
  {
    assert (a + b)[..|a + w|] == a + b[..|w|];
  }

  /** The input ends inside the body of no pieces: inside the terminator or the trailer. */
  lemma CutEmptyBody(h: Hasher, data: seq<byte>, c: Cursor)
    requires Cut(data, c.pos, Body(h, c.absorbed, []))
    ensures DecodePieces(h, data, c).outcome == Err(ReadError)
    ensures DecodePieces(h, data, c).written == []
    ensures DecodePieces(h, data, c).consumed == |data| - c.pos
  {
    BodyParts(h, c.absorbed, []);
    assert c.absorbed + Concat([]) == c.absorbed;
    assert Frames(h, c.absorbed, []) + (Terminator(h, c.absorbed) + Of(h, c.absorbed))
        == Terminator(h, c.absorbed) + Of(h, c.absorbed);
    CutEnd(h, data, c);
  }

  /** The input ends inside the frame of the first piece of a body. */
  lemma CutFirstFrame(h: Hasher, data: seq<byte>, c: Cursor, pieces: seq<seq<byte>>)
    requires pieces != [] && ValidPieces(pieces) && |Concat(pieces)| <= c.room
    requires Cut(data, c.pos, Body(h, c.absorbed, pieces))
    requires |data| < c.pos + |Frame(h, c.absorbed, pieces[0])|
    ensures DecodePieces(h, data, c).outcome == Err(ReadError)
    ensures DecodePieces(h, data, c).written <= Concat(pieces)
    ensures DecodePieces(h, data, c).consumed == |data| - c.pos
  {
    ValidPiecesTail(pieces);
    BodyCons(h, c.absorbed, pieces);
    assert Concat(pieces) == pieces[0] + Concat(pieces[1..]);
    CutFront(data, c.pos, Frame(h, c.absorbed, pieces[0]), Body(h, c.absorbed + pieces[0], pieces[1..]));
    CutFrame(h, data, c, pieces[0]);
    UnfoldPieces(h, data, c);
    PrefixWithin(PieceStep(h, data, c).written, pieces[0], Concat(pieces[1..]));
  }

  /** The input reaches past the frame of the first piece of a body: the loop accepts it and the
      input ends inside the body of the other pieces. */
  lemma CutPastFirstFrame(h: Hasher, data: seq<byte>, c: Cursor, pieces: seq<seq<byte>>)
    requires pieces != [] && ValidPieces(pieces) && |Concat(pieces)| <= c.room
    requires Cut(data, c.pos, Body(h, c.absorbed, pieces))
    requires c.pos + |Frame(h, c.absorbed, pieces[0])| <= |data|
    ensures Concat(pieces) == pieces[0] + Concat(pieces[1..])
    ensures ValidPieces(pieces[1..]) && |Concat(pieces[1..])| <= Next(h, c, pieces[0]).room
    ensures Cut(data, Next(h, c, pieces[0]).pos, Body(h, Next(h, c, pieces[0]).absorbed, pieces[1..]))
    ensures DecodePieces(h, data, c).outcome == DecodePieces(h, data, Next(h, c, pieces[0])).outcome
    ensures DecodePieces(h, data, c).written == pieces[0] + DecodePieces(h, data, Next(h, c, pieces[0])).written
    ensures DecodePieces(h, data, c).consumed
         == |Frame(h, c.absorbed, pieces[0])| + DecodePieces(h, data, Next(h, c, pieces[0])).consumed
  {
    ValidPiecesTail(pieces);
    BodyCons(h, c.absorbed, pieces);
    assert Concat(pieces) == pieces[0] + Concat(pieces[1..]);
    CutBack(data, c.pos, Frame(h, c.absorbed, pieces[0]), Body(h, c.absorbed + pieces[0], pieces[1..]));
    AcceptFrame(h, data, c, pieces[0]);
  }

  /** The input ends inside the body of valid pieces that the output has room for: the run fails
      with a read error that consumes the rest of the input, having written a prefix of the
      concatenation of the pieces. */
  lemma {:induction false} CutBody(h: Hasher, data: seq<byte>, c: Cursor, pieces: seq<seq<byte>>)
    requires ValidPieces(pieces) && |Concat(pieces)| <= c.room
    requires Cut(data, c.pos, Body(h, c.absorbed, pieces))
    ensures DecodePieces(h, data, c).outcome == Err(ReadError)
    ensures DecodePieces(h, data, c).written <= Concat(pieces)
    ensures DecodePieces(h, data, c).consumed == |data| - c.pos
    decreases |pieces|
  {
    if pieces == [] {
      CutEmptyBody(h, data, c);
    } else if |data| < c.pos + |Frame(h, c.absorbed, pieces[0])| {
      CutFirstFrame(h, data, c, pieces);
    } else {
      CutPastFirstFrame(h, data, c, pieces);
      CutBody(h, data, Next(h, c, pieces[0]), pieces[1..]);
      PrefixAfter(pieces[0], DecodePieces(h, data, Next(h, c, pieces[0])).written, Concat(pieces[1..]));
    }
  }

  /** Cutting `pre + s` past `pre` leaves a cut inside `s`. */
  lemma CutOfPrefix(pre: seq<byte>, s: seq<byte>, k: nat)
    requires |pre| <= k < |pre| + |s|
    ensures Cut((pre + s)[..k], |pre|, s)
  {
    assert (pre + s)[..k][|pre|..] == s[..k - |pre|];
  }

  /** Every strict prefix of a stream of valid pieces, when the output has room for them all, is
      a read error that consumes the whole prefix; what was written is a prefix of the payload. */
  lemma TruncatedStream(h: Hasher, header: seq<byte>, pieces: seq<seq<byte>>, k: nat, room: nat)
    requires |header| == |MAGIC_HEADER| && ValidPieces(pieces) && |Concat(pieces)| <= room
    requires k < |Stream(h, header, pieces)|
    ensures Decode(h, Stream(h, header, pieces)[..k], 0, room).outcome == Err(ReadError)
    ensures Decode(h, Stream(h, header, pieces)[..k], 0, room).written <= Concat(pieces)
    ensures Decode(h, Stream(h, header, pieces)[..k], 0, room).consumed == k
  {
    if |header| <= k {
      CutOfPrefix(header, Body(h, [], pieces), k);
      CutBody(h, Stream(h, header, pieces)[..k], Cursor(|header|, [], room), pieces);
    }
  }

  /** A frame laid out at `pos` from its three fields. */
  lemma FrameFromFields(h: Hasher, data: seq<byte>, pos: nat, a: seq<byte>, p: seq<byte>)
    requires pos + 4 + |p| + DIGEST_SIZE <= |data|
    requires FromBeU32(data[pos..pos + 4]) == |p|
    requires data[pos + 4..pos + 4 + |p|] == p
    requires data[pos + 4 + |p|..pos + 4 + |p| + DIGEST_SIZE] == Of(h, a + p)
    ensures At(data, pos, Frame(h, a, p))
  {
    BeU32OfFromBeU32(data[pos..pos + 4]);
    assert data[pos..pos + 4 + |p| + DIGEST_SIZE]
        == data[pos..pos + 4] + data[pos + 4..pos + 4 + |p|] + data[pos + 4 + |p|..pos + 4 + |p| + DIGEST_SIZE];
    AtSlice(data, pos, Frame(h, a, p));
  }

  lemma PayloadFields(h: Hasher, data: seq<byte>, c: Cursor, p: seq<byte>)
    requires c.pos + 4 + |p| <= |data| && !PayloadStep(h, data, c, p).step.Failed?
    ensures |p| <= c.room
    ensures c.pos + 4 + |p| + DIGEST_SIZE <= |data|
    ensures data[c.pos + 4 + |p|..c.pos + 4 + |p| + DIGEST_SIZE] == Of(h, c.absorbed + p)
    ensures PayloadStep(h, data, c, p).written == p
    ensures PayloadStep(h, data, c, p).consumed == 4 + |p| + DIGEST_SIZE
    ensures PayloadStep(h, data, c, p).step.Terminated? <==> |p| == 0
  {
    assert CheckpointAt(data, c.pos + 4 + |p|, Of(h, c.absorbed + p)) == Match;
  }

  lemma AcceptedFields(h: Hasher, data: seq<byte>, c: Cursor) returns (p: seq<byte>)
    requires c.pos <= |data| && !PieceStep(h, data, c).step.Failed?
    ensures |p| <= MAX_PIECE_SIZE && |p| <= c.room
    ensures c.pos + 4 + |p| + DIGEST_SIZE <= |data|
    ensures FromBeU32(data[c.pos..c.pos + 4]) == |p|
    ensures data[c.pos + 4..c.pos + 4 + |p|] == p
    ensures data[c.pos + 4 + |p|..c.pos + 4 + |p| + DIGEST_SIZE] == Of(h, c.absorbed + p)
    ensures PieceStep(h, data, c).written == p
    ensures PieceStep(h, data, c).consumed == 4 + |p| + DIGEST_SIZE
    ensures PieceStep(h, data, c).step.Terminated? <==> |p| == 0
  {
    assert FrameAt(data, c.pos).Payload?;
    p := FrameAt(data, c.pos).bytes;
    assert PieceStep(h, data, c) == PayloadStep(h, data, c, p);
    PayloadFields(h, data, c, p);
  }

  /** The frame of `p` followed by the body of `rest` is the body of `[p] + rest`. */
  lemma BodyJoin(h: Hasher, data: seq<byte>, pos: nat, a: seq<byte>, p: seq<byte>, rest: seq<seq<byte>>)
    requires At(data, pos, Frame(h, a, p)) && At(data, pos + |Frame(h, a, p)|, Body(h, a + p, rest))
    ensures At(data, pos, Body(h, a, [p] + rest))
    ensures |Body(h, a, [p] + rest)| == |Frame(h, a, p)| + |Body(h, a + p, rest)|
    ensures Concat([p] + rest) == p + Concat(rest)
  {
    assert ([p] + rest)[0] == p && ([p] + rest)[1..] == rest;
    BodyCons(h, a, [p] + rest);
    JoinAt(data, pos, Frame(h, a, p), Body(h, a + p, rest));
  }

  /** A run that succeeds after the loop ended at cursor `c`: the terminator and the trailer over
      the digest of `c.absorbed` lie at `c`. */
  lemma SoundEnd(h: Hasher, data: seq<byte>, c: Cursor)
    requires c.pos <= |data| && PieceStep(h, data, c).step.Terminated?
    requires DecodePieces(h, data, c).outcome == Ok
    ensures At(data, c.pos, Body(h, c.absorbed, []))
    ensures DecodePieces(h, data, c).written == []
    ensures DecodePieces(h, data, c).consumed == |Body(h, c.absorbed, [])|
  {
    var p := AcceptedFields(h, data, c);
    FrameFromFields(h, data, c.pos, c.absorbed, p);
    assert p == [] && c.absorbed + p == c.absorbed;
    UnfoldPieces(h, data, c);
    AtSlice(data, c.pos + FRAME_OVERHEAD, Of(h, c.absorbed));
    JoinAt(data, c.pos, Frame(h, c.absorbed, []), Of(h, c.absorbed));
    BodyParts(h, c.absorbed, []);
    assert Frames(h, c.absorbed, []) + (Terminator(h, c.absorbed + Concat([])) + Of(h, c.absorbed + Concat([])))
        == Frame(h, c.absorbed, []) + Of(h, c.absorbed);
  }
}
