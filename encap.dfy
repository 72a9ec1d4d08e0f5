/** The encoder, `ReliableEncap`: it writes the header, then one frame per `Update`, the
    terminator (`FinishWrite`) and the trailer (`Finalize`), keeping a running digest of all
    piece bytes. A failed write aborts the call; bytes already written stay written. */
module Encap {
  import opened Bytes
  import opened Digest
  import opened Wire
  import opened Io

  class ReliableEncap {
    const digest: RunningDigest
    const output: Sink

    constructor (output: Sink, hash: Hasher)
      ensures this.output == output && fresh(digest)
      ensures digest.hash == hash && digest.absorbed == []
    {
      this.output := output;
      digest := new RunningDigest(hash);
    }

    /** `new`: writes the header and returns an encoder whose digest has absorbed nothing;
        the header itself is never fed to the digest. Fails when the header write fails. */
    static method New(output: Sink, hash: Hasher) returns (r: Option<ReliableEncap>)
      requires output.Valid()
      modifies output
      ensures output.Valid()
      ensures r.Some? <==> |MAGIC_HEADER| <= output.capacity - |old(output.data)|
      ensures output.data == if r.Some? then old(output.data) + MAGIC_HEADER else old(output.data)
      ensures r.Some? ==> r.value.output == output && fresh(r.value.digest)
      ensures r.Some? ==> r.value.digest.hash == hash && r.value.digest.absorbed == []
    {
      var rv := new ReliableEncap(output, hash);
      var ok := output.Write(MAGIC_HEADER);
      if !ok {
        return None;
      }
      return Some(rv);
    }

    /** `update(buf)`: appends the frame of `buf` -- its length, `buf`, and the checkpoint over
        every piece byte so far. Each of the three writes can fail and abort the call, leaving
        what was already written. The digest absorbs `buf` as soon as the length write has
        succeeded, so a failed payload or checkpoint write still leaves `buf` absorbed. */
    method Update(buf: seq<byte>) returns (ok: bool)
      requires output.Valid()
      modifies output, digest
      ensures output.Valid()
      ensures var room := output.capacity - |old(output.data)|;
        && (room < 4 ==>
              !ok && output.data == old(output.data) && digest.absorbed == old(digest.absorbed))
        && (4 <= room < 4 + |buf| ==>
              !ok && output.data == old(output.data) + BeU32(|buf|) && digest.absorbed == old(digest.absorbed) + buf)
        && (4 + |buf| <= room < FRAME_OVERHEAD + |buf| ==>
              !ok && output.data == old(output.data) + BeU32(|buf|) + buf && digest.absorbed == old(digest.absorbed) + buf)
        && (FRAME_OVERHEAD + |buf| <= room ==>
              ok && output.data == old(output.data) + Frame(digest.hash, old(digest.absorbed), buf)
              && digest.absorbed == old(digest.absorbed) + buf)
    {
      ghost var before := output.data;
      ok := output.WriteBeU32(|buf|);
      if !ok {
        return;
      }
      digest.Input(buf);
      ok := output.Write(buf);
      if !ok {
        return;
      }
      var hasherRes := digest.ResultBytes();
      ok := output.Write(hasherRes);
      if ok {
        AppendThree(before, BeU32(|buf|), buf, hasherRes);
      }
    }

    /** `finish_write`: appends the zero length field and the unchanged checkpoint. */
    method FinishWrite() returns (ok: bool)
      requires output.Valid()
      modifies output
      ensures output.Valid()
      ensures var room := output.capacity - |old(output.data)|;
        && (room < 4 ==> !ok && output.data == old(output.data))
        && (4 <= room < FRAME_OVERHEAD ==> !ok && output.data == old(output.data) + BeU32(0))
        && (FRAME_OVERHEAD <= room ==>
              ok && output.data == old(output.data) + Terminator(digest.hash, digest.absorbed))
    {
      ghost var before := output.data;
      ok := output.WriteBeU32(0);
      if !ok {
        return;
      }
      var checkpoint := digest.ResultBytes();
      ok := output.Write(checkpoint);
      if ok {
        AppendTwo(before, BeU32(0), checkpoint);
      }
    }

    /** `finalize`: appends the checkpoint once more as the trailer. */
    method Finalize() returns (ok: bool)
      requires output.Valid()
      modifies output
      ensures output.Valid()
      ensures ok <==> DIGEST_SIZE <= output.capacity - |old(output.data)|
      ensures output.data == if ok then old(output.data) + digest.ResultBytes() else old(output.data)
    {
      ok := output.Write(digest.ResultBytes());
    }
  }
}
