/** Bounded reading from, and appending to, a byte sequence. */
module WireCursor {
  import opened Outcomes
  import opened Bytes

  /** Reject codes of the version-one resource decoder, in order of precedence. */
  datatype Reject =
    | WireBytes
    | Header
    | Magic
    | Version
    | Object
    | FieldCount
    | FieldHeader
    | FieldTag
    | FieldLength
    | FieldValue
    | OptionTag
    | Trailing

  class Cursor {
    var remaining: seq<byte>

    constructor (bytes: seq<byte>)
      ensures remaining == bytes
    {
      remaining := bytes;
    }

    /** Splits off the next `length` bytes, or rejects and leaves the cursor where it was. */
    method Take(length: nat, reject: Reject) returns (r: Result<seq<byte>, Reject>)
      modifies this
      ensures length <= |old(remaining)| ==> r == Ok(old(remaining)[..length]) && remaining == old(remaining)[length..]
      ensures length > |old(remaining)| ==> r == Err(reject) && remaining == old(remaining)
    {
      if length > |remaining| {
        return Err(reject);
      }
      r := Ok(remaining[..length]);
      remaining := remaining[length..];
    }

    method TakeU16(reject: Reject) returns (r: Result<nat, Reject>)
      modifies this
      ensures 2 <= |old(remaining)| ==> r == Ok(FromBigEndian(old(remaining)[..2])) && remaining == old(remaining)[2..]
      ensures 2 > |old(remaining)| ==> r == Err(reject) && remaining == old(remaining)
    {
      var bytes :- Take(2, reject);
      return Ok(FromBigEndian(bytes));
    }

    method TakeU32(reject: Reject) returns (r: Result<nat, Reject>)
      modifies this
      ensures 4 <= |old(remaining)| ==> r == Ok(FromBigEndian(old(remaining)[..4])) && remaining == old(remaining)[4..]
      ensures 4 > |old(remaining)| ==> r == Err(reject) && remaining == old(remaining)
    {
      var bytes :- Take(4, reject);
      return Ok(FromBigEndian(bytes));
    }

    predicate IsEmpty()
      reads this
    {
      remaining == []
    }
  }

  class ByteBuffer {
    var bytes: seq<byte>

    constructor ()
      ensures bytes == []
    {
      bytes := [];
    }

    method Extend(more: seq<byte>)
      modifies this
      ensures bytes == old(bytes) + more
    {
      bytes := bytes + more;
    }
  }
}
