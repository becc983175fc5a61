/**
 * The event buffer (struct ybp_event in ybinlogp.h): a 19-byte header read
 * straight off the file, the byte offset it was read at, and a heap body of
 * length - 19 bytes that the buffer owns.  The reads modelled here are the
 * ones every revision performs: one read(2) of the header into the buffer,
 * and filling a freshly allocated body.
 */
module Events {
  import opened Opt
  import opened Wire

  function Min(a: int, b: int): int { if a < b then a else b }

  /** The bytes one read(2) of `n` bytes at `offset` delivers: all of them,
      or fewer near the end of the file, or none at or past it. */
  function Available(file: seq<Byte>, offset: nat, n: nat): (s: seq<Byte>)
    ensures |s| <= n
    ensures |s| == if offset >= |file| then 0 else Min(n, |file| - offset)
    ensures offset + n <= |file| ==> s == file[offset..offset + n]
    ensures forall i :: 0 <= i < |s| ==> s[i] == file[offset + i]
  {
    if offset >= |file| then [] else file[offset..Min(offset + n, |file|)]
  }

  /** A buffer after a read of `got` into it: the bytes read, then whatever
      was there before. */
  function Overlay(got: seq<Byte>, prior: seq<Byte>): (s: seq<Byte>)
    requires |got| <= |prior|
    ensures |s| == |prior| && s[..|got|] == got && s[|got|..] == prior[|got|..]
  {
    got + prior[|got|..]
  }

  function Zeros(n: nat): (s: seq<Byte>)
    ensures |s| == n && forall i :: 0 <= i < n ==> s[i] == 0
  {
    seq(n, _ => 0)
  }

  /** The header an event buffer holds after read(fd, evbuf, 19) at `offset`:
      a short read overwrites only the bytes it delivered. */
  function HeaderAfterRead(file: seq<Byte>, offset: nat, prior: Header): (h: Header)
    requires WellFormed(prior)
    ensures WellFormed(h)
    ensures offset + EventHeaderSize <= |file| ==> h == HeaderFields(file, offset)
    ensures offset >= |file| ==> h == prior
  {
    if offset + EventHeaderSize <= |file| then HeaderFields(file, offset)
    else if offset >= |file| then prior
    else ShortHeader(Available(file, offset, EventHeaderSize), prior)
  }

  /** A header buffer holding `prior` after a read that delivered only `got`. */
  function ShortHeader(got: seq<Byte>, prior: Header): (h: Header)
    requires |got| < EventHeaderSize && WellFormed(prior)
    ensures WellFormed(h)
  {
    DecodeHeader(Overlay(got, EncodeHeader(prior)))
  }

  /** A buffer of `n` fresh bytes after one read at `offset`: what the file
      holds there, zero past its end. */
  function BodyAfterRead(file: seq<Byte>, offset: nat, n: nat): (s: seq<Byte>)
    ensures |s| == n
    ensures offset + n <= |file| ==> s == file[offset..offset + n]
  {
    Overlay(Available(file, offset, n), Zeros(n))
  }

  /** Allocates a body of `n` bytes and fills it from `offset`. */
  method ReadBody(file: seq<Byte>, offset: nat, n: nat) returns (buf: array<Byte>)
    ensures buf.Length == n && fresh(buf)
    ensures buf[..] == BodyAfterRead(file, offset, n)
  {
    buf := new Byte[n](_ => 0);
    var got := Available(file, offset, n);
    var i := 0;
    while i < |got|
      invariant 0 <= i <= |got|
      invariant buf[..i] == got[..i]
      invariant forall k :: i <= k < n ==> buf[k] == 0
    {
      buf[i] := file[offset + i];
      i := i + 1;
    }
    assert buf[..] == got + Zeros(n)[|got|..];
  }

  class Event {
    var header: Header
    var data: array?<Byte>
    var offset: int

    /** The header fits its wire widths and an owned body is exactly
        length - 19 bytes long. */
    ghost predicate Valid()
      reads this
    {
      WellFormed(header) && (data != null ==> data.Length + EventHeaderSize == header.length)
    }

    /** The body bytes, or None where the C struct holds NULL. */
    function Body(): Option<seq<Byte>>
      reads this, data
    {
      if data == null then None else Some(data[..])
    }

    /** ybp_get_event and ybp_init_event: a zeroed buffer without a body. */
    constructor ()
      ensures Valid() && header == ZeroHeader && data == null && offset == 0
    {
      header := ZeroHeader;
      data := null;
      offset := 0;
    }

    /** ybp_reset_event: drop the body, then zero every field. */
    method Reset()
      modifies this
      ensures Valid() && header == ZeroHeader && data == null && offset == 0
    {
      if data != null {
        data := null;
      }
      header := ZeroHeader;
      offset := 0;
    }

    /** ybp_dispose_event: drop the body (the struct itself is then freed). */
    method Dispose()
      modifies this
      ensures data == null && header == old(header) && offset == old(offset)
    {
      if data != null {
        data := null;
      }
    }

    /** ybp_copy_event(this, source): copy every field, then give this buffer
        a body of its own holding the same length - 19 bytes.  When a buffer
        is copied onto itself the fresh body replaces the one to copy from,
        as it does in the C code. */
    method CopyFrom(source: Event) returns (code: int)
      requires source.Valid()
      modifies this
      ensures code == 0
      ensures header == old(source.header) && offset == old(source.offset)
      ensures old(source.data) == null <==> data == null
      ensures data != null ==> fresh(data) && data.Length + EventHeaderSize == header.length
      ensures data != null && source != this ==> data[..] == old(source.data[..])
      ensures Valid()
    {
      header, data, offset := source.header, source.data, source.offset;
      if source.data != null {
        var n := source.header.length - EventHeaderSize;
        var buf := new Byte[n];
        data := buf;
        var from := source.data;
        forall i | 0 <= i < n {
          buf[i] := from[i];
        }
      }
      code := 0;
    }

    /** The header part of read_event: read(fd, evbuf, 19) at `at`, then
        record the offset and forget the body pointer.  Returns how many
        bytes the read delivered. */
    method ReadHeader(file: seq<Byte>, at: nat) returns (got: nat)
      requires Valid()
      modifies this
      ensures got == |Available(file, at, EventHeaderSize)|
      ensures header == HeaderAfterRead(file, at, old(header))
      ensures offset == at && data == null && Valid()
    {
      header := HeaderAfterRead(file, at, header);
      got := |Available(file, at, EventHeaderSize)|;
      offset := at;
      data := null;
    }
  }
}
