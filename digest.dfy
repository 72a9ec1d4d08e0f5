/** The running digest both sides keep over the piece bytes (the `sha256` module of the
    source is not part of this model: its algorithm is a parameter). */
module Digest {
  import opened Bytes

  /** Size of a checkpoint in bytes: 256 output bits / 8. */
  const DIGEST_SIZE: nat := 32

  /** A digest value: always DIGEST_SIZE bytes. */
  type Checkpoint = s: seq<byte> | |s| == DIGEST_SIZE
    witness seq(DIGEST_SIZE, _ => 0 as byte)

  /** A digest algorithm: the checkpoint after absorbing a byte sequence. */
  type Hasher = seq<byte> -> Checkpoint

  /** The checkpoint of `s` under `h`. */
  function Of(h: Hasher, s: seq<byte>): (r: seq<byte>)
    ensures |r| == DIGEST_SIZE
  {
    h(s)
  }

  /** A digest object that absorbs bytes in order; its state is the sequence absorbed so far. */
  class RunningDigest {
    const hash: Hasher
    var absorbed: seq<byte>

    /** A fresh digest, as `Sha256::new()`: nothing absorbed. */
    constructor (hash: Hasher)
      ensures this.hash == hash && absorbed == []
    {
      this.hash := hash;
      absorbed := [];
    }

    /** `input(buf)`: absorbs `buf` after everything absorbed so far. */
    method Input(buf: seq<byte>)
      modifies this
      ensures absorbed == old(absorbed) + buf
    {
      absorbed := absorbed + buf;
    }

    /** `result_bytes()`: the current checkpoint, without disturbing further absorption. */
    function ResultBytes(): (r: seq<byte>)
      reads this
      ensures |r| == DIGEST_SIZE
    {
      Of(hash, absorbed)
    }
  }
}
