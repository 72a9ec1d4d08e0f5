/** The reader and writer the protocol runs over. A reader is the whole input with a cursor;
    a writer is an append-only byte sink whose writes fail once it would overflow its capacity
    (the model's stand-in for any I/O error). */
module Io {
  import opened Bytes

  datatype Option<T> = None | Some(value: T)

  /** A byte source read from front to back. */
  class Source {
    const data: seq<byte>
    var pos: nat

    ghost predicate Valid()
      reads this
    {
      pos <= |data|
    }

    constructor (data: seq<byte>)
      ensures Valid() && this.data == data && pos == 0
    {
      this.data := data;
      pos := 0;
    }

    /** `read_exact(n)`: the next `n` bytes, or a read error when the input ends first,
        in which case everything up to the end has been consumed. */
    method ReadExact(n: nat) returns (r: Option<seq<byte>>)
      requires Valid()
      modifies this
      ensures Valid()
      ensures old(pos) + n <= |data| ==> r == Some(data[old(pos)..old(pos) + n]) && pos == old(pos) + n
      ensures |data| < old(pos) + n ==> r == None && pos == |data|
    {
      if pos + n <= |data| {
        r := Some(data[pos..pos + n]);
        pos := pos + n;
      } else {
        r := None;
        pos := |data|;
      }
    }

    /** `read_be_u32()`: the next four bytes as a big-endian number, or a read error. */
    method ReadBeU32() returns (r: Option<nat>)
      requires Valid()
      modifies this
      ensures Valid()
      ensures old(pos) + 4 <= |data| ==> r == Some(FromBeU32(data[old(pos)..old(pos) + 4])) && pos == old(pos) + 4
      ensures |data| < old(pos) + 4 ==> r == None && pos == |data|
    {
      var b := ReadExact(4);
      if b.Some? {
        r := Some(FromBeU32(b.value));
      } else {
        r := None;
      }
    }
  }

  /** An append-only byte sink of bounded capacity. */
  class Sink {
    var data: seq<byte>
    const capacity: nat

    ghost predicate Valid()
      reads this
    {
      |data| <= capacity
    }

    /** The number of bytes a write may still append. */
    function Room(): (n: nat)
      reads this
      requires Valid()
      ensures |data| + n == capacity
    {
      capacity - |data|
    }

    constructor (capacity: nat)
      ensures Valid() && this.capacity == capacity && data == []
    {
      this.capacity := capacity;
      data := [];
    }

    /** `write(buf)`: appends all of `buf`, or fails and appends nothing. */
    method Write(buf: seq<byte>) returns (ok: bool)
      requires Valid()
      modifies this
      ensures Valid()
      ensures ok <==> |buf| <= old(Room())
      ensures data == if ok then old(data) + buf else old(data)
    {
      ok := |data| + |buf| <= capacity;
      if ok {
        data := data + buf;
      }
    }

    /** `write_be_u32(n as u32)`: one write of the four-byte length field. */
    method WriteBeU32(n: nat) returns (ok: bool)
      requires Valid()
      modifies this
      ensures Valid()
      ensures ok <==> 4 <= old(Room())
      ensures data == if ok then old(data) + BeU32(n) else old(data)
    {
      ok := Write(BeU32(n));
    }
  }
}
