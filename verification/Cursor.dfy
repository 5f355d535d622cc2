/** A reading cursor over a byte slice (`ProtocolRead` of mongo_common/src/io.rs):
    a successful read moves it, a failed one leaves it where it was. */
module SliceReader {
  import opened Bytes
  import opened Text
  import opened Io

  /** The cursor went from `before` to `after` as the read function says. */
  predicate Moved<T(==)>(r: Result<T, ReadError>, spec: Read<T>, before: bytes, after: bytes) {
    match spec
    case Ok((v, rest)) => r == Ok(v) && after == rest
    case Err(e) => r == Err(e) && after == before
  }

  class SliceCursor {
    var rest: bytes

    constructor (b: bytes)
      ensures rest == b
    {
      rest := b;
    }

    method TakeBytes(n: nat) returns (r: Result<bytes, ReadError>)
      modifies this
      ensures Moved(r, ReadBytes(old(rest), n), old(rest), rest)
    {
      if |rest| < n {
        return Err(ShortInput(n, |rest|));
      }
      var head := rest[..n];
      rest := rest[n..];
      return Ok(head);
    }

    method TakeU8() returns (r: Result<byte, ReadError>)
      modifies this
      ensures Moved(r, ReadU8(old(rest)), old(rest), rest)
    {
      var b := TakeBytes(1);
      return if b.Ok? then Ok(b.value[0]) else Err(b.error);
    }

    method TakeU32() returns (r: Result<u32, ReadError>)
      modifies this
      ensures Moved(r, ReadU32(old(rest)), old(rest), rest)
    {
      var b := TakeBytes(4);
      return if b.Ok? then Ok(U32(b.value)) else Err(b.error);
    }

    method TakeI32() returns (r: Result<i32, ReadError>)
      modifies this
      ensures Moved(r, ReadI32(old(rest)), old(rest), rest)
    {
      var b := TakeBytes(4);
      return if b.Ok? then Ok(I32(b.value)) else Err(b.error);
    }

    method TakeI64() returns (r: Result<i64, ReadError>)
      modifies this
      ensures Moved(r, ReadI64(old(rest)), old(rest), rest)
    {
      var b := TakeBytes(8);
      return if b.Ok? then Ok(I64(b.value)) else Err(b.error);
    }

    /** Search the terminating NUL and step over it. */
    method TakeCString() returns (r: Result<bytes, ReadError>)
      modifies this
      ensures Moved(r, ReadCString(old(rest)), old(rest), rest)
    {
      var i := 0;
      while i < |rest| && rest[i] != 0
        invariant 0 <= i <= |rest| && FindNul(rest) == i + FindNul(rest[i..])
      {
        assert rest[i..][1..] == rest[i + 1..];
        i := i + 1;
      }
      if i == |rest| {
        return Err(ShortInput(|rest| + 1, |rest|));
      }
      var head := rest[..i];
      rest := rest[i + 1..];
      return Ok(head);
    }
  }
}
