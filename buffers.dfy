/** The caller-owned output containers the out-parameter forms write into: a
    growable byte string (std::string / fbstring) and a growable vector of
    strings (std::vector / fbvector of std::string, fbstring or StringPiece). */
module Buffers {
  import opened Bytes

  class ByteString {
    var bytes: bytes

    constructor (init: bytes)
      ensures bytes == init
    {
      bytes := init;
    }

    /** `append` */
    method Append(s: bytes)
      modifies this
      ensures bytes == old(bytes) + s
    {
      bytes := bytes + s;
    }

    /** `push_back` */
    method PushBack(b: byte)
      modifies this
      ensures bytes == old(bytes) + [b]
    {
      bytes := bytes + [b];
    }

    /** `clear` */
    method Clear()
      modifies this
      ensures bytes == []
    {
      bytes := [];
    }

    /** `resize(n)`: truncates, or pads with NUL bytes. */
    method Resize(n: nat)
      modifies this
      ensures bytes == Resized(old(bytes), n)
    {
      bytes := Resized(bytes, n);
    }

    /** `operator[]` assignment of one existing position. */
    method Set(i: nat, b: byte)
      requires i < |bytes|
      modifies this
      ensures bytes == old(bytes)[i := b]
    {
      bytes := bytes[i := b];
    }
  }

  /** The contents `std::string::resize(n)` leaves: the first `n` bytes of `s`,
      padded with NUL bytes when `s` is shorter. */
  function Resized(s: bytes, n: nat): (r: bytes)
    ensures |r| == n
    ensures forall i | 0 <= i < n :: r[i] == if i < |s| then s[i] else '\0'
  {
    if n <= |s| then s[..n] else s + seq(n - |s|, _ => '\0')
  }

  class StringVector {
    var items: seq<bytes>

    constructor (init: seq<bytes>)
      ensures items == init
    {
      items := init;
    }

    /** `push_back` (what `*out++ = ...` does through a back-inserter) */
    method PushBack(s: bytes)
      modifies this
      ensures items == old(items) + [s]
    {
      items := items + [s];
    }

    /** `clear` */
    method Clear()
      modifies this
      ensures items == []
    {
      items := [];
    }
  }
}
