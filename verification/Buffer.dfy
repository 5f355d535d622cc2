/** A growing output buffer with length placeholders (`ProtocolWrite` of
    mongo_common/src/io.rs). */
module Buffer {
  import opened Bytes
  import opened Text

  class ByteBuffer {
    var data: bytes

    constructor ()
      ensures data == []
    {
      data := [];
    }

    method PutBytes(b: bytes)
      modifies this
      ensures data == old(data) + b
    {
      data := data + b;
    }

    method PutU8(v: byte)
      modifies this
      ensures data == old(data) + [v]
    {
      data := data + [v];
    }

    /** Nothing is written when the string holds a NUL. */
    method PutCString(s: Str) returns (ok: bool)
      modifies this
      ensures ok <==> NulFree(s)
      ensures data == if ok then old(data) + (s + [0]) else old(data)
    {
      if 0 in s {
        return false;
      }
      PutBytes(s);
      PutU8(0);
      return true;
    }

    /** Reserve four bytes and say where. */
    method PlaceholderI32() returns (pos: nat)
      modifies this
      ensures pos == |old(data)| && data == old(data) + [0, 0, 0, 0]
    {
      pos := |data|;
      PutBytes([0, 0, 0, 0]);
    }

    method PutU8At(pos: nat, v: byte)
      requires pos < |data|
      modifies this
      ensures data == old(data)[pos := v]
    {
      data := data[pos := v];
    }

    /** Overwrite the four bytes at `pos` and nothing else. */
    method PutI32LeAt(pos: nat, v: int)
      requires pos + 4 <= |data|
      modifies this
      ensures data == old(data)[..pos] + LE32(v) + old(data)[pos + 4..]
    {
      var b := LE32(v);
      PutU8At(pos, b[0]);
      PutU8At(pos + 1, b[1]);
      PutU8At(pos + 2, b[2]);
      PutU8At(pos + 3, b[3]);
      assert b == [b[0], b[1], b[2], b[3]];
    }
  }
}
