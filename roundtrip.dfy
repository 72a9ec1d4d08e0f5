/** The whole round trip through the two classes: what `ReliableEncap` writes for valid pieces,
    `copy_out` reads back into exactly those pieces. */
module RoundTrip {
  import opened Bytes
  import opened Digest
  import opened Wire
  import opened Io
  import opened EncapDriver
  import opened Decap
  import opened DecapProperties

  /** The encoder run over a fresh output with room for the whole stream of `pieces`. */
  method EncodeFresh(hash: Hasher, pieces: seq<seq<byte>>) returns (encoded: seq<byte>)
    ensures encoded == Stream(hash, MAGIC_HEADER, pieces)
  {
    var wire := new Sink(|Stream(hash, MAGIC_HEADER, pieces)|);
    var ok := Encode(wire, hash, pieces, true);
    assert ok;
    encoded := wire.data;
    assert [] + encoded == encoded;
  }

  /** `copy_out` over a fresh input holding `data` and a fresh output with `room` bytes of room. */
  method CopyOutFresh(hash: Hasher, data: seq<byte>, room: nat) returns (r: Outcome, decoded: seq<byte>, consumed: nat)
    ensures r == Decode(hash, data, 0, room).outcome
    ensures decoded == Decode(hash, data, 0, room).written
    ensures consumed == Decode(hash, data, 0, room).consumed
  {
    var input := new Source(data);
    var output := new Sink(room);
    r := CopyOut(hash, input, output);
    decoded, consumed := output.data, input.pos;
  }

  /** Encodes `pieces` (`new`, one `update` per piece, `finish_write`, `finalize`) into an
      output with room for the whole stream, then runs `copy_out` over what was written into an
      output with room for the pieces: the run returns `Ok`, writes exactly the concatenation
      of the pieces and consumes the whole encoded stream. */
  method EncodeThenDecode(hash: Hasher, pieces: seq<seq<byte>>)
    returns (encoded: seq<byte>, r: Outcome, decoded: seq<byte>, consumed: nat)
    requires ValidPieces(pieces)
    ensures encoded == Stream(hash, MAGIC_HEADER, pieces)
    ensures r == Ok && decoded == Concat(pieces) && consumed == |encoded|
  {
    encoded := EncodeFresh(hash, pieces);
    DecodeStream(hash, MAGIC_HEADER, pieces, [], |Concat(pieces)|);
    assert encoded + [] == encoded;
    r, decoded, consumed := CopyOutFresh(hash, encoded, |Concat(pieces)|);
  }
}
