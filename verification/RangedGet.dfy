/** Ranged GETs against one object: inclusive byte ranges, section 14.1.2 of RFC 9110. */
module RangedGet {
  import opened Prelude

  datatype RangeReply = Partial(body: Bytes) | NotSatisfiable

  /** `bytes=first-last`. A last position past the end is clamped to the object. */
  function GetRange(obj: Bytes, first: nat, last: nat): RangeReply
    requires first <= last
  {
    if first >= |obj| then NotSatisfiable else Partial(obj[first..Min(last + 1, |obj|)])
  }

  /** `S3::read_range`: an empty request and a request past the end both give no bytes. */
  function ReadRange(obj: Bytes, offset: nat, len: nat): Bytes {
    if len == 0 then []
    else match GetRange(obj, offset, offset + len - 1)
      case Partial(body) => body
      case NotSatisfiable => []
  }

  /** The first `size` bytes of `obj`, or all of it when it is shorter. */
  function Visible(obj: Bytes, size: nat): Bytes {
    obj[..Min(size, |obj|)]
  }

  /** The plain slice a read of `len` bytes at `offset` stands for. */
  function Slice(v: Bytes, offset: nat, len: nat): Bytes {
    if offset >= |v| then [] else v[offset..Min(offset + len, |v|)]
  }

  lemma ReadRangeIsSlice(obj: Bytes, offset: nat, len: nat)
    ensures ReadRange(obj, offset, len) == Slice(obj, offset, len)
  {
  }

  /** A range that stays below `size` sees only the visible part of the object. */
  lemma ReadRangeVisible(obj: Bytes, size: nat, offset: nat, len: nat)
    requires offset + len <= size
    ensures ReadRange(obj, offset, len) == Slice(Visible(obj, size), offset, len)
  {
  }
}
