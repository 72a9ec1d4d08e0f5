/** The framed wire format written by the encoder and read back by the decoder:

      stream     = header frame* terminator trailer
      frame      = length(4, big-endian) payload(length) checkpoint(DIGEST_SIZE)
      terminator = 00 00 00 00 checkpoint
      trailer    = checkpoint

    Every checkpoint is the digest of all payload bytes up to and including its own frame;
    the header is not covered by the digest. */
module Wire {
  import opened Bytes
  import opened Digest

  /** The 14-byte prologue, ASCII "reliable-encap". */
  const MAGIC_HEADER: seq<byte> :=
    [0x72, 0x65, 0x6c, 0x69, 0x61, 0x62, 0x6c, 0x65, 0x2d, 0x65, 0x6e, 0x63, 0x61, 0x70]

  /** Largest piece the encoder's driver emits (32 KiB). */
  const PIECE_SIZE: nat := 32 * 1024

  /** Largest piece the decoder accepts (256 KiB). */
  const MAX_PIECE_SIZE: nat := 256 * 1024

  /** Bytes of framing around each payload: the length field and the checkpoint
      (36; the length lemmas below write the number out so that the arithmetic stays linear). */
  const FRAME_OVERHEAD: nat := 4 + DIGEST_SIZE

  /** All pieces joined in order: the bytes the digest absorbs and the decoder writes out. */
  function Concat(pieces: seq<seq<byte>>): seq<byte>
  {
    if pieces == [] then [] else pieces[0] + Concat(pieces[1..])
  }

  /** Pieces the decoder accepts as data: non-empty (an empty one is the terminator) and within the bound. */
  predicate ValidPieces(pieces: seq<seq<byte>>)
  {
    forall i :: 0 <= i < |pieces| ==> 0 < |pieces[i]| <= MAX_PIECE_SIZE
  }

  lemma ValidPiecesTail(pieces: seq<seq<byte>>)
    requires pieces != [] && ValidPieces(pieces)
    ensures 0 < |pieces[0]| <= MAX_PIECE_SIZE && ValidPieces(pieces[1..])
  {
    forall i | 0 <= i < |pieces| - 1 ensures 0 < |pieces[1..][i]| <= MAX_PIECE_SIZE {
      assert pieces[1..][i] == pieces[i + 1];
    }
  }

  lemma ValidPiecesCons(p: seq<byte>, pieces: seq<seq<byte>>)
    requires 0 < |p| <= MAX_PIECE_SIZE && ValidPieces(pieces)
    ensures ValidPieces([p] + pieces)
  {
    forall i | 0 <= i < |pieces| + 1 ensures 0 < |([p] + pieces)[i]| <= MAX_PIECE_SIZE {
      if 0 < i {
        assert ([p] + pieces)[i] == pieces[i - 1];
      }
    }
  }

  /** The pieces the encoder's driver emits, non-empty and at most PIECE_SIZE bytes each, are
      within the decoder's bound. */
  lemma DriverPiecesValid(pieces: seq<seq<byte>>)
    requires forall i :: 0 <= i < |pieces| ==> 0 < |pieces[i]| <= PIECE_SIZE
    ensures ValidPieces(pieces)
  {
  }

  /** One frame for `piece`, when the digest had already absorbed `prior`. */
  function Frame(h: Hasher, prior: seq<byte>, piece: seq<byte>): (r: seq<byte>)
    ensures |r| == FRAME_OVERHEAD + |piece|
  {
    BeU32(|piece|) + piece + Of(h, prior + piece)
  }

  /** The zero-length frame ending the pieces; its checkpoint repeats the digest of `absorbed`. */
  function Terminator(h: Hasher, absorbed: seq<byte>): (r: seq<byte>)
    ensures |r| == FRAME_OVERHEAD
    ensures r == Frame(h, absorbed, [])
  {
    assert absorbed + [] == absorbed;
    BeU32(0) + Of(h, absorbed)
  }

  /** The frames of `pieces` in order, the digest having absorbed `prior` before the first one. */
  function Frames(h: Hasher, prior: seq<byte>, pieces: seq<seq<byte>>): (r: seq<byte>)
    ensures |r| == 36 * |pieces| + |Concat(pieces)|
    decreases |pieces|
  {
    if pieces == [] then []
    else
      Frame(h, prior, pieces[0]) + Frames(h, prior + pieces[0], pieces[1..])
  }

  /** Everything after the header: the frames, the terminator and the trailer. */
  function Body(h: Hasher, prior: seq<byte>, pieces: seq<seq<byte>>): (r: seq<byte>)
    ensures |r| == 36 * (|pieces| + 1) + |Concat(pieces)| + DIGEST_SIZE
  {
    var all := prior + Concat(pieces);
    Frames(h, prior, pieces) + Terminator(h, all) + Of(h, all)
  }

  /** A whole stream: a header followed by the body of `pieces` over a fresh digest. */
  function Stream(h: Hasher, header: seq<byte>, pieces: seq<seq<byte>>): (r: seq<byte>)
    ensures |r| == |header| + 36 * (|pieces| + 1) + |Concat(pieces)| + DIGEST_SIZE
  {
    header + Body(h, [], pieces)
  }

  /** A body is its frames followed by the terminator and the trailer. */
  lemma BodyParts(h: Hasher, prior: seq<byte>, pieces: seq<seq<byte>>)
    ensures Body(h, prior, pieces)
         == Frames(h, prior, pieces) + (Terminator(h, prior + Concat(pieces)) + Of(h, prior + Concat(pieces)))
  {
  }

  lemma {:induction false} ConcatSnoc(pieces: seq<seq<byte>>, p: seq<byte>)
    ensures Concat(pieces + [p]) == Concat(pieces) + p
    decreases |pieces|
  {
    if pieces == [] {
      assert pieces + [p] == [p];
    } else {
      assert (pieces + [p])[1..] == pieces[1..] + [p];
      ConcatSnoc(pieces[1..], p);
    }
  }

  /** Concatenation distributes over joining two lists of pieces. */
  lemma {:induction false} ConcatAppend(a: seq<seq<byte>>, b: seq<seq<byte>>)
    ensures Concat(a + b) == Concat(a) + Concat(b)
    decreases |a|
  {
    if a == [] {
      assert a + b == b;
    } else {
      assert (a + b)[0] == a[0] && (a + b)[1..] == a[1..] + b;
      ConcatAppend(a[1..], b);
      AppendTwo(a[0], Concat(a[1..]), Concat(b));
    }
  }

  /** The frames of the first `i` pieces and the frame of piece `i` fit within the frames of all pieces. */
  lemma FramesPrefix(h: Hasher, pieces: seq<seq<byte>>, i: nat)
    requires i < |pieces|
    ensures |Frames(h, [], pieces[..i])| + FRAME_OVERHEAD + |pieces[i]| <= |Frames(h, [], pieces)|
  {
    assert pieces == pieces[..i] + ([pieces[i]] + pieces[i + 1..]);
    ConcatAppend(pieces[..i], [pieces[i]] + pieces[i + 1..]);
    assert Concat([pieces[i]] + pieces[i + 1..]) == pieces[i] + Concat(pieces[i + 1..]);
  }

  /** Appending a piece appends exactly its frame, over the digest of everything before it. */
  lemma {:induction false} FramesSnoc(h: Hasher, prior: seq<byte>, pieces: seq<seq<byte>>, p: seq<byte>)
    ensures Frames(h, prior, pieces + [p]) == Frames(h, prior, pieces) + Frame(h, prior + Concat(pieces), p)
    decreases |pieces|
  {
    if pieces == [] {
      assert pieces + [p] == [p];
      assert [p][1..] == [];
      assert prior + Concat(pieces) == prior;
    } else {
      assert (pieces + [p])[0] == pieces[0];
      assert (pieces + [p])[1..] == pieces[1..] + [p];
      FramesSnoc(h, prior + pieces[0], pieces[1..], p);
      AppendTwo(prior, pieces[0], Concat(pieces[1..]));
      AppendTwo(Frame(h, prior, pieces[0]), Frames(h, prior + pieces[0], pieces[1..]),
                Frame(h, prior + Concat(pieces), p));
    }
  }

  /** The frames of the first `i + 1` pieces: those of the first `i`, then the frame of piece `i`. */
  lemma FramesStep(h: Hasher, pieces: seq<seq<byte>>, i: nat)
    requires i < |pieces|
    ensures Frames(h, [], pieces[..i + 1]) == Frames(h, [], pieces[..i]) + Frame(h, Concat(pieces[..i]), pieces[i])
    ensures Concat(pieces[..i + 1]) == Concat(pieces[..i]) + pieces[i]
  {
    assert pieces[..i + 1] == pieces[..i] + [pieces[i]];
    FramesSnoc(h, [], pieces[..i], pieces[i]);
    ConcatSnoc(pieces[..i], pieces[i]);
    assert [] + Concat(pieces[..i]) == Concat(pieces[..i]);
  }

  /** A body is the frame of its first piece followed by the body of the others. */
  lemma BodyCons(h: Hasher, prior: seq<byte>, pieces: seq<seq<byte>>)
    requires pieces != []
    ensures Body(h, prior, pieces) == Frame(h, prior, pieces[0]) + Body(h, prior + pieces[0], pieces[1..])
  {
    AppendTwo(prior, pieces[0], Concat(pieces[1..]));
    BodyParts(h, prior, pieces);
    BodyParts(h, prior + pieces[0], pieces[1..]);
  }

  /** The fields of a frame, read back by position. */
  lemma FrameFields(h: Hasher, prior: seq<byte>, piece: seq<byte>)
    ensures Frame(h, prior, piece)[..4] == BeU32(|piece|)
    ensures Frame(h, prior, piece)[4..4 + |piece|] == piece
  {
  }
}
