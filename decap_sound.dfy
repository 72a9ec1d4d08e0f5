/** The converse of the round trip: every run of `copy_out` that returns `Ok` has read exactly a
    well-formed stream, header aside, and written exactly the pieces that stream carries. */
module DecapSoundness {
  import opened Bytes
  import opened Digest
  import opened Wire
  import opened Decap
  import opened DecapProperties

  /** A pass that accepts a piece has read the frame of a valid piece `p`, and the loop goes on
      right after that frame. */
  lemma SoundFrame(h: Hasher, data: seq<byte>, c: Cursor) returns (p: seq<byte>)
    requires c.pos <= |data| && PieceStep(h, data, c).step.NextPiece?
    ensures 0 < |p| <= MAX_PIECE_SIZE && |p| <= c.room
    ensures At(data, c.pos, Frame(h, c.absorbed, p))
    ensures Next(h, c, p).pos <= |data|
    ensures DecodePieces(h, data, c).outcome == DecodePieces(h, data, Next(h, c, p)).outcome
    ensures DecodePieces(h, data, c).written == p + DecodePieces(h, data, Next(h, c, p)).written
    ensures DecodePieces(h, data, c).consumed
         == |Frame(h, c.absorbed, p)| + DecodePieces(h, data, Next(h, c, p)).consumed
  {
    p := AcceptedFields(h, data, c);
    FrameFromFields(h, data, c.pos, c.absorbed, p);
    AcceptFrame(h, data, c, p);
  }

  /** The frame of a valid piece `p` at `c`, followed by the body of valid pieces `rest` where
      the loop goes on after it, is the body of `[p] + rest`. */
  lemma SoundCons(h: Hasher, data: seq<byte>, c: Cursor, p: seq<byte>, rest: seq<seq<byte>>)
    requires 0 < |p| <= MAX_PIECE_SIZE && |p| <= c.room
    requires ValidPieces(rest) && |Concat(rest)| <= Next(h, c, p).room
    requires At(data, c.pos, Frame(h, c.absorbed, p))
    requires At(data, Next(h, c, p).pos, Body(h, Next(h, c, p).absorbed, rest))
    ensures ValidPieces([p] + rest) && |Concat([p] + rest)| <= c.room
    ensures At(data, c.pos, Body(h, c.absorbed, [p] + rest))
    ensures Concat([p] + rest) == p + Concat(rest)
    ensures |Body(h, c.absorbed, [p] + rest)| == |Frame(h, c.absorbed, p)| + |Body(h, Next(h, c, p).absorbed, rest)|
  {
    BodyJoin(h, data, c.pos, c.absorbed, p, rest);
    ValidPiecesCons(p, rest);
  }

  /** A piece loop from `c` that ends with `Ok` has read the body of some valid pieces, written
      exactly their concatenation and consumed exactly that body. */
  lemma {:induction false} Sound(h: Hasher, data: seq<byte>, c: Cursor) returns (pieces: seq<seq<byte>>)
    requires c.pos <= |data| && DecodePieces(h, data, c).outcome == Ok
    ensures ValidPieces(pieces) && |Concat(pieces)| <= c.room
    ensures At(data, c.pos, Body(h, c.absorbed, pieces))
    ensures DecodePieces(h, data, c).written == Concat(pieces)
    ensures DecodePieces(h, data, c).consumed == |Body(h, c.absorbed, pieces)|
    decreases |data| - c.pos
  {
    if PieceStep(h, data, c).step.Failed? {
      UnfoldPieces(h, data, c);
      assert false;
    } else if PieceStep(h, data, c).step.Terminated? {
      SoundEnd(h, data, c);
      pieces := [];
    } else {
      var p := SoundFrame(h, data, c);
      var rest := Sound(h, data, Next(h, c, p));
      SoundCons(h, data, c, p, rest);
      pieces := [p] + rest;
    }
  }

  /** The body of `pieces` right after the 14 bytes at `pos`: together they are the stream of
      `pieces` behind those bytes. */
  lemma StreamAt(h: Hasher, data: seq<byte>, pos: nat, pieces: seq<seq<byte>>)
    requires pos + |MAGIC_HEADER| + |Body(h, [], pieces)| <= |data|
    requires data[pos + |MAGIC_HEADER|..pos + |MAGIC_HEADER| + |Body(h, [], pieces)|] == Body(h, [], pieces)
    ensures data[pos..pos + |MAGIC_HEADER| + |Body(h, [], pieces)|] == Stream(h, data[pos..pos + |MAGIC_HEADER|], pieces)
  {
    var end := pos + |MAGIC_HEADER| + |Body(h, [], pieces)|;
    assert data[pos..end] == data[pos..pos + |MAGIC_HEADER|] + data[pos + |MAGIC_HEADER|..end];
  }

  /** A whole run from `pos` that returns `Ok` has consumed exactly a stream of valid pieces
      behind whatever 14 bytes stood in the header's place, and has written exactly their
      concatenation. */
  lemma StreamSound(h: Hasher, data: seq<byte>, pos: nat, room: nat) returns (pieces: seq<seq<byte>>)
    requires pos <= |data| && Decode(h, data, pos, room).outcome == Ok
    ensures ValidPieces(pieces) && |Concat(pieces)| <= room
    ensures Decode(h, data, pos, room).written == Concat(pieces)
    ensures pos + |MAGIC_HEADER| <= |data|
    ensures data[pos..pos + Decode(h, data, pos, room).consumed] == Stream(h, data[pos..pos + |MAGIC_HEADER|], pieces)
  {
    var start := Cursor(pos + |MAGIC_HEADER|, [], room);
    pieces := Sound(h, data, start);
    assert Decode(h, data, pos, room).consumed == |MAGIC_HEADER| + |Body(h, [], pieces)|;
    AtSlice(data, start.pos, Body(h, start.absorbed, pieces));
    StreamAt(h, data, pos, pieces);
  }
}
