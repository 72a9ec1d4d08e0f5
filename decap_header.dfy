/** `copy_out` reads the 14 header bytes and never compares them with MAGIC_HEADER: what a run
    does depends only on the input after the header. */
module DecapHeader {
  import opened Bytes
  import opened Digest
  import opened Wire
  import opened Decap

  /** `d1` and `d2` have the same length and the same bytes from index `k` on. */
  ghost predicate Agree(d1: seq<byte>, d2: seq<byte>, k: nat)
  {
    |d1| == |d2| && forall i :: k <= i < |d1| ==> d1[i] == d2[i]
  }

  lemma SameSlice(d1: seq<byte>, d2: seq<byte>, k: nat, i: nat, j: nat)
    requires Agree(d1, d2, k) && k <= i <= j <= |d1|
    ensures d1[i..j] == d2[i..j]
  {
    assert forall x :: 0 <= x < j - i ==> d1[i..j][x] == d1[i + x] == d2[i + x] == d2[i..j][x];
  }

  lemma SameFrameHead(d1: seq<byte>, d2: seq<byte>, k: nat, pos: nat)
    requires Agree(d1, d2, k) && k <= pos <= |d1|
    ensures FrameAt(d1, pos) == FrameAt(d2, pos)
  {
    if pos + 4 <= |d1| {
      SameSlice(d1, d2, k, pos, pos + 4);
      var n := FromBeU32(d1[pos..pos + 4]);
      if pos + 4 + n <= |d1| {
        SameSlice(d1, d2, k, pos + 4, pos + 4 + n);
      }
    }
  }

  lemma SameCheckpoint(d1: seq<byte>, d2: seq<byte>, k: nat, pos: nat, expected: seq<byte>)
    requires Agree(d1, d2, k) && k <= pos <= |d1|
    ensures CheckpointAt(d1, pos, expected) == CheckpointAt(d2, pos, expected)
  {
    if pos + DIGEST_SIZE <= |d1| {
      SameSlice(d1, d2, k, pos, pos + DIGEST_SIZE);
    }
  }

  /** One pass of the piece loop reads only from the cursor on. */
  lemma SamePass(h: Hasher, d1: seq<byte>, d2: seq<byte>, k: nat, c: Cursor)
    requires Agree(d1, d2, k) && k <= c.pos <= |d1|
    ensures PieceStep(h, d1, c) == PieceStep(h, d2, c)
  {
    SameFrameHead(d1, d2, k, c.pos);
    match FrameAt(d1, c.pos)
    case Truncated =>
    case Oversized =>
    case Payload(payload) =>
      SameCheckpoint(d1, d2, k, c.pos + 4 + |payload|, Of(h, c.absorbed + payload));
  }

  /** The piece loop and the trailer read only from the cursor on. */
  lemma {:induction false} SamePieces(h: Hasher, d1: seq<byte>, d2: seq<byte>, k: nat, c: Cursor)
    requires Agree(d1, d2, k) && k <= c.pos <= |d1|
    ensures DecodePieces(h, d1, c) == DecodePieces(h, d2, c)
    decreases |d1| - c.pos
  {
    SamePass(h, d1, d2, k, c);
    assert Advance(h, d1, c) == Advance(h, d2, c);
    match PieceStep(h, d1, c).step
    case Failed(e) =>
    case Terminated =>
      SameCheckpoint(d1, d2, k, Advance(h, d1, c).pos, Of(h, c.absorbed));
    case NextPiece =>
      SamePieces(h, d1, d2, k, Advance(h, d1, c));
  }

  /** Two inputs that differ only in their 14 header bytes decode alike: the same result, the
      same bytes written and the same number of bytes consumed. */
  lemma HeaderIgnored(h: Hasher, header1: seq<byte>, header2: seq<byte>, rest: seq<byte>, room: nat)
    requires |header1| == |header2| == |MAGIC_HEADER|
    ensures Decode(h, header1 + rest, 0, room) == Decode(h, header2 + rest, 0, room)
  {
    var d1, d2 := header1 + rest, header2 + rest;
    assert Agree(d1, d2, |MAGIC_HEADER|) by {
      forall i | |MAGIC_HEADER| <= i < |d1| ensures d1[i] == d2[i] {
        assert d1[i] == rest[i - |MAGIC_HEADER|] == d2[i];
      }
    }
    SamePieces(h, d1, d2, |MAGIC_HEADER|, Cursor(|MAGIC_HEADER|, [], room));
  }
}
