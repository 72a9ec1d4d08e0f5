/** The encoder's call order, as the `reliable-encap` command drives it: `new`, one `update`
    per chunk read from the child's output, `finish_write` once that output ends, and
    `finalize` only when the child exited with status 0. */
module EncapDriver {
  import opened Bytes
  import opened Digest
  import opened Wire
  import opened Io
  import opened Encap

  /** The driver's read loop: one `update` per piece on an encoder that has absorbed nothing
      yet. It succeeds exactly when the output has room for every frame, and then the output
      has grown by exactly those frames and the digest has absorbed every piece. */
  method UpdateAll(enc: ReliableEncap, pieces: seq<seq<byte>>) returns (ok: bool)
    requires enc.output.Valid() && enc.digest.absorbed == []
    modifies enc.output, enc.digest
    ensures enc.output.Valid()
    ensures ok <==> |Frames(enc.digest.hash, [], pieces)| <= old(enc.output.Room())
    ensures ok ==> enc.output.data == old(enc.output.data) + Frames(enc.digest.hash, [], pieces)
    ensures ok ==> enc.digest.absorbed == Concat(pieces)
  {
    var output, hash := enc.output, enc.digest.hash;
    var i := 0;
    while i < |pieces|
      invariant i <= |pieces|
      invariant output.Valid()
      invariant output.data == old(output.data) + Frames(hash, [], pieces[..i])
      invariant enc.digest.absorbed == Concat(pieces[..i])
    {
      FramesPrefix(hash, pieces, i);
      FramesStep(hash, pieces, i);
      ghost var room := output.Room();
      ok := enc.Update(pieces[i]);
      if !ok {
        assert room < FRAME_OVERHEAD + |pieces[i]|;
        return;
      }
      AppendTwo(old(output.data), Frames(hash, [], pieces[..i]), Frame(hash, Concat(pieces[..i]), pieces[i]));
      i := i + 1;
    }
    assert pieces[..i] == pieces;
    return true;
  }

  /** Encodes `pieces` into `output`. It succeeds exactly when the output has room for the
      header, every frame, the terminator and, when the child exited cleanly, the trailer; on
      success the output holds what it held before followed by exactly those bytes -- with a
      clean exit, the whole stream of `pieces`. */
  method Encode(output: Sink, hash: Hasher, pieces: seq<seq<byte>>, exitedCleanly: bool) returns (ok: bool)
    requires output.Valid()
    modifies output
    ensures output.Valid()
    ensures ok <==> |MAGIC_HEADER| + |Frames(hash, [], pieces)| + FRAME_OVERHEAD
                    + (if exitedCleanly then DIGEST_SIZE else 0) <= old(output.Room())
    ensures ok && exitedCleanly ==> output.data == old(output.data) + Stream(hash, MAGIC_HEADER, pieces)
    ensures ok && !exitedCleanly ==>
      output.data == old(output.data) + MAGIC_HEADER + Frames(hash, [], pieces) + Terminator(hash, Concat(pieces))
  {
    var r := ReliableEncap.New(output, hash);
    if r.None? {
      return false;
    }
    var enc := r.value;
    ok := UpdateAll(enc, pieces);
    if !ok {
      return;
    }
    ok := enc.FinishWrite();
    if !ok || !exitedCleanly {
      return;
    }
    ok := enc.Finalize();
    if ok {
      var header, frames := old(output.data) + MAGIC_HEADER, Frames(hash, [], pieces);
      var term, trailer := Terminator(hash, Concat(pieces)), Of(hash, Concat(pieces));
      assert [] + Concat(pieces) == Concat(pieces);
      assert Body(hash, [], pieces) == frames + term + trailer;
      AppendThree(header, frames, term, trailer);
      AppendTwo(old(output.data), MAGIC_HEADER, frames + term + trailer);
    }
  }
}
