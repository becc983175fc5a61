/**
 * The packed on-disk layouts of ybinlogp.h: every integer is little-endian
 * and fields follow each other with no padding.  Each layout is decoded
 * field by field from a byte sequence instead of by overlaying a struct.
 */
module Wire {
  import opened Opt

  type Byte = b: int | 0 <= b < 256

  const EventHeaderSize: nat := 19
  const BinlogVersion: nat := 4

  /** Type codes the scanner gives a meaning to (ybp_event_types). */
  const QueryEvent: nat := 2
  const RotateEvent: nat := 4
  const IntvarEvent: nat := 5
  const RandEvent: nat := 13
  const FormatDescriptionEvent: nat := 15
  const XidEvent: nat := 16

  function Pow256(n: nat): (r: nat)
    ensures r >= 1
  {
    if n == 0 then 1 else 256 * Pow256(n - 1)
  }

  /** The unsigned little-endian value of `s`. */
  function DecodeLE(s: seq<Byte>): (v: nat)
    ensures v < Pow256(|s|)
  {
    if |s| == 0 then 0
    else
      var rest := DecodeLE(s[1..]);
      assert s[0] + 256 * rest <= 255 + 256 * (Pow256(|s| - 1) - 1);
      s[0] + 256 * rest
  }

  /** The `n` little-endian bytes of `v`. */
  function EncodeLE(v: nat, n: nat): (s: seq<Byte>)
    requires v < Pow256(n)
    ensures |s| == n
  {
    if n == 0 then []
    else
      assert v / 256 < Pow256(n - 1);
      [v % 256] + EncodeLE(v / 256, n - 1)
  }

  lemma {:induction false} DecodeEncodeLE(v: nat, n: nat)
    requires v < Pow256(n)
    ensures DecodeLE(EncodeLE(v, n)) == v
  {
    if n > 0 {
      var s := EncodeLE(v, n);
      assert s[1..] == EncodeLE(v / 256, n - 1);
      DecodeEncodeLE(v / 256, n - 1);
    }
  }

  lemma {:induction false} EncodeDecodeLE(s: seq<Byte>)
    ensures EncodeLE(DecodeLE(s), |s|) == s
  {
    if |s| > 0 {
      var rest := DecodeLE(s[1..]);
      var v := s[0] + 256 * rest;
      assert v % 256 == s[0] && v / 256 == rest;
      EncodeDecodeLE(s[1..]);
    }
  }

  /** Little-endian field of `width` bytes at `at`, read in place. */
  function Field(b: seq<Byte>, at: nat, width: nat): (v: nat)
    requires at + width <= |b|
    ensures v < Pow256(width)
    decreases |b| - at
  {
    if width == 0 then 0
    else
      var rest := Field(b, at + 1, width - 1);
      assert b[at] + 256 * rest <= 255 + 256 * (Pow256(width - 1) - 1);
      b[at] + 256 * rest
  }

  /** A two-byte field is its low byte plus 256 times its high byte. */
  lemma Field2(b: seq<Byte>, at: nat)
    requires at + 2 <= |b|
    ensures Field(b, at, 2) == b[at] as int + 256 * b[at + 1] as int
  {
    assert Field(b, at + 1, 1) == b[at + 1] + 256 * Field(b, at + 2, 0);
  }

  /** A field read in place is the value of its bytes. */
  lemma {:induction false} FieldIsDecode(b: seq<Byte>, at: nat, width: nat)
    requires at + width <= |b|
    ensures Field(b, at, width) == DecodeLE(b[at..at + width])
    decreases width
  {
    if width > 0 {
      FieldIsDecode(b, at + 1, width - 1);
      assert b[at..at + width][1..] == b[at + 1..at + width];
    }
  }

  // ---------------------------------------------------------------------
  // Event header: timestamp u32, type_code u8, server_id u32, length u32,
  // next_position u32, flags u16 -- 19 bytes.

  datatype Header = Header(timestamp: nat, typeCode: nat, serverId: nat,
                           length: nat, nextPosition: nat, flags: nat)

  const ZeroHeader := Header(0, 0, 0, 0, 0, 0)

  /** Every field fits its on-disk width. */
  predicate WellFormed(h: Header)
  {
    && h.timestamp < 0x1_0000_0000 && h.typeCode < 0x100 && h.serverId < 0x1_0000_0000
    && h.length < 0x1_0000_0000 && h.nextPosition < 0x1_0000_0000 && h.flags < 0x1_0000
  }

  /** The header whose 19 bytes start at `at` in `b`, read in place. */
  function HeaderFields(b: seq<Byte>, at: nat): (h: Header)
    requires at + EventHeaderSize <= |b|
    ensures WellFormed(h)
    ensures h.typeCode == b[at + 4]
  {
    Header(Field(b, at, 4), Field(b, at + 4, 1), Field(b, at + 5, 4),
           Field(b, at + 9, 4), Field(b, at + 13, 4), Field(b, at + 17, 2))
  }

  function DecodeHeader(b: seq<Byte>): (h: Header)
    requires |b| == EventHeaderSize
    ensures WellFormed(h)
    ensures h.typeCode == b[4]
  {
    HeaderFields(b, 0)
  }

  /** A field read in place at `at + k` is the field at `k` of the slice
      that starts at `at`. */
  lemma {:induction false} FieldShift(b: seq<Byte>, at: nat, k: nat, width: nat, n: nat)
    requires at + n <= |b| && k + width <= n
    ensures Field(b, at + k, width) == Field(b[at..at + n], k, width)
    decreases width
  {
    if width > 0 {
      FieldShift(b, at, k + 1, width - 1, n);
    }
  }

  /** Reading a header in place is decoding its 19-byte slice. */
  lemma HeaderFieldsAreDecode(b: seq<Byte>, at: nat)
    requires at + EventHeaderSize <= |b|
    ensures HeaderFields(b, at) == DecodeHeader(b[at..at + EventHeaderSize])
  {
    var n := EventHeaderSize;
    FieldShift(b, at, 0, 4, n);
    FieldShift(b, at, 4, 1, n);
    FieldShift(b, at, 5, 4, n);
    FieldShift(b, at, 9, 4, n);
    FieldShift(b, at, 13, 4, n);
    FieldShift(b, at, 17, 2, n);
  }

  function EncodeHeader(h: Header): (b: seq<Byte>)
    requires WellFormed(h)
    ensures |b| == EventHeaderSize
  {
    EncodeLE(h.timestamp, 4) + EncodeLE(h.typeCode, 1) + EncodeLE(h.serverId, 4)
    + EncodeLE(h.length, 4) + EncodeLE(h.nextPosition, 4) + EncodeLE(h.flags, 2)
  }

  /** Encoding then decoding a header gives back every field. */
  lemma HeaderRoundTrip(h: Header)
    requires WellFormed(h)
    ensures DecodeHeader(EncodeHeader(h)) == h
  {
    var b := EncodeHeader(h);
    assert b[0..4] == EncodeLE(h.timestamp, 4);
    assert b[4..5] == EncodeLE(h.typeCode, 1);
    assert b[5..9] == EncodeLE(h.serverId, 4);
    assert b[9..13] == EncodeLE(h.length, 4);
    assert b[13..17] == EncodeLE(h.nextPosition, 4);
    assert b[17..19] == EncodeLE(h.flags, 2);
    DecodeEncodeLE(h.timestamp, 4);
    DecodeEncodeLE(h.typeCode, 1);
    DecodeEncodeLE(h.serverId, 4);
    DecodeEncodeLE(h.length, 4);
    DecodeEncodeLE(h.nextPosition, 4);
    DecodeEncodeLE(h.flags, 2);
    FieldIsDecode(b, 0, 4);
    FieldIsDecode(b, 4, 1);
    FieldIsDecode(b, 5, 4);
    FieldIsDecode(b, 9, 4);
    FieldIsDecode(b, 13, 4);
    FieldIsDecode(b, 17, 2);
  }

  /** Decoding then encoding 19 bytes gives back the same bytes. */
  lemma HeaderBytesRoundTrip(b: seq<Byte>)
    requires |b| == EventHeaderSize
    ensures EncodeHeader(DecodeHeader(b)) == b
  {
    FieldIsDecode(b, 0, 4);
    FieldIsDecode(b, 4, 1);
    FieldIsDecode(b, 5, 4);
    FieldIsDecode(b, 9, 4);
    FieldIsDecode(b, 13, 4);
    FieldIsDecode(b, 17, 2);
    EncodeDecodeLE(b[0..4]);
    EncodeDecodeLE(b[4..5]);
    EncodeDecodeLE(b[5..9]);
    EncodeDecodeLE(b[9..13]);
    EncodeDecodeLE(b[13..17]);
    EncodeDecodeLE(b[17..19]);
    assert b == b[0..4] + b[4..5] + b[5..9] + b[9..13] + b[13..17] + b[17..19];
  }

  // ---------------------------------------------------------------------
  // Format-description body: format_version u16, server_version[50],
  // timestamp u32, header_len u8 -- 57 fixed bytes, then a variable part.

  const FdeFixedSize: nat := 57

  datatype Fde = Fde(formatVersion: nat, serverVersion: seq<Byte>, timestamp: nat, headerLen: nat)

  function DecodeFde(body: seq<Byte>): (r: Option<Fde>)
    ensures r.Some? <==> |body| >= FdeFixedSize
    ensures r.Some? ==> |r.value.serverVersion| == 50 && r.value.formatVersion < Pow256(2)
  {
    if |body| < FdeFixedSize then None
    else Some(Fde(Field(body, 0, 2), body[2..52], Field(body, 52, 4), Field(body, 56, 1)))
  }

  function EncodeFde(f: Fde): (b: seq<Byte>)
    requires |f.serverVersion| == 50
    requires f.formatVersion < Pow256(2) && f.timestamp < Pow256(4) && f.headerLen < Pow256(1)
    ensures |b| == FdeFixedSize
  {
    EncodeLE(f.formatVersion, 2) + f.serverVersion + EncodeLE(f.timestamp, 4) + EncodeLE(f.headerLen, 1)
  }

  lemma FdeRoundTrip(f: Fde, rest: seq<Byte>)
    requires |f.serverVersion| == 50
    requires f.formatVersion < Pow256(2) && f.timestamp < Pow256(4) && f.headerLen < Pow256(1)
    ensures DecodeFde(EncodeFde(f) + rest) == Some(f)
  {
    var b := EncodeFde(f) + rest;
    assert b[0..2] == EncodeLE(f.formatVersion, 2);
    assert b[2..52] == f.serverVersion;
    assert b[52..56] == EncodeLE(f.timestamp, 4);
    assert b[56..57] == EncodeLE(f.headerLen, 1);
    DecodeEncodeLE(f.formatVersion, 2);
    DecodeEncodeLE(f.timestamp, 4);
    DecodeEncodeLE(f.headerLen, 1);
    FieldIsDecode(b, 0, 2);
    FieldIsDecode(b, 52, 4);
    FieldIsDecode(b, 56, 1);
  }

  // ---------------------------------------------------------------------
  // Query body: thread_id u32, query_time u32, db_name_len u8,
  // error_code u16, status_var_len u16 -- 13 bytes, then status variables,
  // the database name with its NUL, and the statement.

  const QueryHeaderSize: nat := 13

  datatype QueryHeader = QueryHeader(threadId: nat, queryTime: nat, dbNameLen: nat,
                                     errorCode: nat, statusVarLen: nat)

  predicate QueryHeaderFits(q: QueryHeader)
  {
    q.threadId < Pow256(4) && q.queryTime < Pow256(4) && q.dbNameLen < Pow256(1)
    && q.errorCode < Pow256(2) && q.statusVarLen < Pow256(2)
  }

  function DecodeQueryHeader(body: seq<Byte>): (r: Option<QueryHeader>)
    ensures r.Some? <==> |body| >= QueryHeaderSize
    ensures r.Some? ==> QueryHeaderFits(r.value)
  {
    if |body| < QueryHeaderSize then None
    else Some(QueryHeader(Field(body, 0, 4), Field(body, 4, 4), Field(body, 8, 1),
                          Field(body, 9, 2), Field(body, 11, 2)))
  }

  function EncodeQueryHeader(q: QueryHeader): (b: seq<Byte>)
    requires QueryHeaderFits(q)
    ensures |b| == QueryHeaderSize
  {
    EncodeLE(q.threadId, 4) + EncodeLE(q.queryTime, 4) + EncodeLE(q.dbNameLen, 1)
    + EncodeLE(q.errorCode, 2) + EncodeLE(q.statusVarLen, 2)
  }

  lemma QueryHeaderRoundTrip(q: QueryHeader, rest: seq<Byte>)
    requires QueryHeaderFits(q)
    ensures DecodeQueryHeader(EncodeQueryHeader(q) + rest) == Some(q)
  {
    var b := EncodeQueryHeader(q) + rest;
    assert b[0..4] == EncodeLE(q.threadId, 4);
    assert b[4..8] == EncodeLE(q.queryTime, 4);
    assert b[8..9] == EncodeLE(q.dbNameLen, 1);
    assert b[9..11] == EncodeLE(q.errorCode, 2);
    assert b[11..13] == EncodeLE(q.statusVarLen, 2);
    DecodeEncodeLE(q.threadId, 4);
    DecodeEncodeLE(q.queryTime, 4);
    DecodeEncodeLE(q.dbNameLen, 1);
    DecodeEncodeLE(q.errorCode, 2);
    DecodeEncodeLE(q.statusVarLen, 2);
    FieldIsDecode(b, 0, 4);
    FieldIsDecode(b, 4, 4);
    FieldIsDecode(b, 8, 1);
    FieldIsDecode(b, 9, 2);
    FieldIsDecode(b, 11, 2);
  }

  /** Decoding the first 13 bytes of a body then encoding gives them back. */
  lemma QueryHeaderBytesRoundTrip(body: seq<Byte>)
    requires |body| >= QueryHeaderSize
    ensures EncodeQueryHeader(DecodeQueryHeader(body).value) == body[..QueryHeaderSize]
  {
    FieldIsDecode(body, 0, 4);
    FieldIsDecode(body, 4, 4);
    FieldIsDecode(body, 8, 1);
    FieldIsDecode(body, 9, 2);
    FieldIsDecode(body, 11, 2);
    EncodeDecodeLE(body[0..4]);
    EncodeDecodeLE(body[4..8]);
    EncodeDecodeLE(body[8..9]);
    EncodeDecodeLE(body[9..11]);
    EncodeDecodeLE(body[11..13]);
    assert body[..13] == body[0..4] + body[4..8] + body[8..9] + body[9..11] + body[11..13];
  }

  // ---------------------------------------------------------------------
  // The small bodies: rand (two u64 seeds), xid (one u64), intvar
  // (u8 type, u64 value) and the fixed part of rotate (u64 next position).

  datatype SmallBody =
    | Rand(seed1: nat, seed2: nat)
    | Xid(id: nat)
    | Intvar(kind: nat, value: nat)
    | Rotate(nextPosition: nat)

  /** Bytes of the fixed layout for each small body's type code. */
  function SmallBodySize(typeCode: nat): nat
  {
    if typeCode == RandEvent then 16
    else if typeCode == XidEvent then 8
    else if typeCode == IntvarEvent then 9
    else if typeCode == RotateEvent then 8
    else 0
  }

  function DecodeSmallBody(typeCode: nat, body: seq<Byte>): (r: Option<SmallBody>)
    ensures r.Some? <==> typeCode in {RandEvent, XidEvent, IntvarEvent, RotateEvent}
                          && |body| >= SmallBodySize(typeCode)
  {
    if typeCode == RandEvent && |body| >= 16 then Some(Rand(Field(body, 0, 8), Field(body, 8, 8)))
    else if typeCode == XidEvent && |body| >= 8 then Some(Xid(Field(body, 0, 8)))
    else if typeCode == IntvarEvent && |body| >= 9 then Some(Intvar(Field(body, 0, 1), Field(body, 1, 8)))
    else if typeCode == RotateEvent && |body| >= 8 then Some(Rotate(Field(body, 0, 8)))
    else None
  }

  function SmallBodyCode(s: SmallBody): nat
  {
    match s
    case Rand(_, _) => RandEvent
    case Xid(_) => XidEvent
    case Intvar(_, _) => IntvarEvent
    case Rotate(_) => RotateEvent
  }

  predicate SmallBodyFits(s: SmallBody)
  {
    match s
    case Rand(a, b) => a < Pow256(8) && b < Pow256(8)
    case Xid(i) => i < Pow256(8)
    case Intvar(k, v) => k < Pow256(1) && v < Pow256(8)
    case Rotate(p) => p < Pow256(8)
  }

  function EncodeSmallBody(s: SmallBody): (b: seq<Byte>)
    requires SmallBodyFits(s)
    ensures |b| == SmallBodySize(SmallBodyCode(s))
  {
    match s
    case Rand(a, c) => EncodeLE(a, 8) + EncodeLE(c, 8)
    case Xid(i) => EncodeLE(i, 8)
    case Intvar(k, v) => EncodeLE(k, 1) + EncodeLE(v, 8)
    case Rotate(p) => EncodeLE(p, 8)
  }

  lemma SmallBodyRoundTrip(s: SmallBody, rest: seq<Byte>)
    requires SmallBodyFits(s)
    ensures DecodeSmallBody(SmallBodyCode(s), EncodeSmallBody(s) + rest) == Some(s)
  {
    var b := EncodeSmallBody(s) + rest;
    match s
    case Rand(a, c) =>
      assert b[0..8] == EncodeLE(a, 8) && b[8..16] == EncodeLE(c, 8);
      DecodeEncodeLE(a, 8);
      DecodeEncodeLE(c, 8);
      FieldIsDecode(b, 0, 8);
      FieldIsDecode(b, 8, 8);
    case Xid(i) =>
      assert b[0..8] == EncodeLE(i, 8);
      DecodeEncodeLE(i, 8);
      FieldIsDecode(b, 0, 8);
    case Intvar(k, v) =>
      assert b[0..1] == EncodeLE(k, 1) && b[1..9] == EncodeLE(v, 8);
      DecodeEncodeLE(k, 1);
      DecodeEncodeLE(v, 8);
      FieldIsDecode(b, 0, 1);
      FieldIsDecode(b, 1, 8);
    case Rotate(p) =>
      assert b[0..8] == EncodeLE(p, 8);
      DecodeEncodeLE(p, 8);
      FieldIsDecode(b, 0, 8);
  }
}
