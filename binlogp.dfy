/**
 * binlogp.c, the earliest revision of the scanner: from a starting offset
 * it reads a 19-byte header at every byte, forward only, prefetches a few
 * body bytes for query and format-description headers, and stops at the
 * first header its strict acceptance predicate passes.
 *
 * MAX_TIMESTAMP, the clock reading taken at startup, is the parameter
 * `maxTs`; the file is the byte sequence `file`, whose length is st_size.
 */
module Binlogp {
  import opened Opt
  import opened Wire
  import opened Validator
  import opened Events
  import opened Scan

  const MaxRetries: nat := 409600
  /** Every bound of check_event is strict. */
  const MinEventLength: nat := 91
  const MaxEventLength: nat := 1073741824
  const MaxServerId: nat := 2147483648
  const MinTimestamp: nat := 1262325600

  /** check_event: 0 < type_code < 27, 91 < event_length < 1 GiB,
      MIN_TIMESTAMP < timestamp < MAX_TIMESTAMP and server_id < 2^31. */
  predicate CheckEvent(h: Header, maxTs: int)
  {
    && MinTypeCode < h.typeCode < MaxTypeCode
    && MinEventLength < h.length < MaxEventLength
    && MinTimestamp < h.timestamp < maxTs
    && h.serverId < MaxServerId
  }

  /** The predicate as a policy of the later revisions: with the strict
      bounds moved in by one it is their shape of test, enforcement off,
      plus the cap on the server id that only this revision has. */
  function EarlyPolicy(maxTs: int): Policy
  {
    Policy(MinEventLength + 1, MaxEventLength, Window(MinTimestamp + 1, maxTs - 1), false, 0, 0)
  }

  lemma CheckEventAsPolicy(h: Header, maxTs: int)
    ensures CheckEvent(h, maxTs) <==> Plausible(h, EarlyPolicy(maxTs)) && h.serverId < MaxServerId
    ensures CheckEvent(h, maxTs) ==> h.length - EventHeaderSize > 72
    ensures maxTs <= MinTimestamp + 1 ==> !CheckEvent(h, maxTs)
  {
  }

  // ---------------------------------------------------------------------
  // The prefetch.

  /** How many body bytes are prefetched for a type code: 8 for a query
      (thread id and query time), 52 for a format description (version and
      server version), none otherwise. */
  function ExtraAmount(typeCode: nat): (n: Option<nat>)
    ensures n.Some? <==> typeCode == QueryEvent || typeCode == FormatDescriptionEvent
    ensures typeCode == QueryEvent ==> n == Some(8)
    ensures typeCode == FormatDescriptionEvent ==> n == Some(52)
  {
    if typeCode == QueryEvent then Some(8)
    else if typeCode == FormatDescriptionEvent then Some(52)
    else None
  }

  /** read_extra_data at offset + 19 for the header's type code: a fresh
      buffer filled by one pread, zero past the end of the file. */
  function Prefetch(file: seq<Byte>, at: nat, typeCode: nat): Option<seq<Byte>>
  {
    match ExtraAmount(typeCode)
    case None => None
    case Some(n) => Some(BodyAfterRead(file, at + EventHeaderSize, n))
  }

  /** For an accepted header the prefetch lies inside the event's own body,
      so what print_event shows of it is the event's first body bytes when
      the event lies in the file. */
  lemma PrefetchWithinEvent(file: seq<Byte>, at: nat, h: Header, maxTs: int)
    requires CheckEvent(h, maxTs)
    ensures var p := Prefetch(file, at, h.typeCode);
            && (p.Some? <==> h.typeCode == QueryEvent || h.typeCode == FormatDescriptionEvent)
            && (p.Some? ==> |p.value| == ExtraAmount(h.typeCode).value < h.length - EventHeaderSize)
            && (p.Some? && at + h.length <= |file| ==>
                  p.value == file[at + EventHeaderSize..at + EventHeaderSize + |p.value|])
  {
  }

  // ---------------------------------------------------------------------
  // nearest_offset.

  /** How nearest_offset ends: it prints the header found at `at` with its
      prefetched bytes; or an offset past the end of the file, a failed
      seek or a short header stops it; or the retry budget runs out. */
  datatype ProbeEnd =
    | Found(at: nat, header: Header, extra: Option<seq<Byte>>)
    | Failed
    | Exhausted

  /** The process exit status main passes on from nearest_offset: 0 for a
      printed event and also for an exhausted budget, 1 for a failure. */
  function ExitStatus(r: ProbeEnd): (status: int)
    ensures status == 1 <==> r.Failed?
    ensures status == 0 <==> !r.Failed?
  {
    if r.Failed? then 1 else 0
  }

  /** The probe from `offset` with `tries` increments already made. */
  function Forward(file: seq<Byte>, maxTs: int, offset: int, tries: nat): ProbeEnd
    decreases MaxRetries - tries
  {
    if tries >= MaxRetries then Exhausted
    else if offset < 0 || |file| < offset + EventHeaderSize then Failed
    else
      var h := HeaderAt(file, offset);
      if CheckEvent(h, maxTs) then Found(offset, h, Prefetch(file, offset, h.typeCode))
      else Forward(file, maxTs, offset + 1, tries + 1)
  }

  /** What the probe promises, with `left` probes still allowed: it finds
      the first accepted header at or after the start and within the
      budget; it fails when the start is negative or when it reaches the
      last header position in the file with nothing accepted before; it
      runs out only when every offset of the budget holds a whole header
      that is rejected. */
  lemma {:induction false} ForwardMeaning(file: seq<Byte>, maxTs: int, offset: int, tries: nat)
    requires tries <= MaxRetries
    decreases MaxRetries - tries
    ensures var r := Forward(file, maxTs, offset, tries);
            var left := MaxRetries - tries;
            && (r.Found? ==>
                  && offset <= r.at < offset + left && r.at + EventHeaderSize <= |file|
                  && r.header == HeaderAt(file, r.at) && CheckEvent(r.header, maxTs)
                  && r.extra == Prefetch(file, r.at, r.header.typeCode)
                  && forall k :: offset <= k < r.at ==> !CheckEvent(HeaderAt(file, k), maxTs))
            && (r.Failed? ==>
                  && left > 0
                  && (offset < 0
                      || (&& |file| - EventHeaderSize < offset + left
                          && forall k :: offset <= k && k + EventHeaderSize <= |file| ==> !CheckEvent(HeaderAt(file, k), maxTs))))
            && (r.Exhausted? ==>
                  && (left > 0 ==> 0 <= offset && offset + left - 1 + EventHeaderSize <= |file|)
                  && forall k :: offset <= k < offset + left ==> !CheckEvent(HeaderAt(file, k), maxTs))
  {
    if tries < MaxRetries && 0 <= offset && offset + EventHeaderSize <= |file|
       && !CheckEvent(HeaderAt(file, offset), maxTs) {
      ForwardMeaning(file, maxTs, offset + 1, tries + 1);
    }
  }

  /** The probe is one pass over consecutive offsets: where an offset in
      the budget holds an accepted header and every offset before it holds
      a rejected one, that is the offset printed. */
  lemma {:induction false} ForwardFindsFirst(file: seq<Byte>, maxTs: int, offset: int, tries: nat, at: int)
    requires tries <= MaxRetries && 0 <= offset <= at < offset + (MaxRetries - tries)
    requires at + EventHeaderSize <= |file| && CheckEvent(HeaderAt(file, at), maxTs)
    requires forall k :: offset <= k < at ==> !CheckEvent(HeaderAt(file, k), maxTs)
    decreases at - offset
    ensures Forward(file, maxTs, offset, tries).Found?
    ensures Forward(file, maxTs, offset, tries).at == at
  {
    if offset < at {
      ForwardFindsFirst(file, maxTs, offset + 1, tries + 1, at);
    }
  }

  /** nearest_offset: from `start`, one byte at a time, at most 409600
      times, read a header, prefetch for the two types that print body
      fields, and stop at the first header check_event accepts.  Returns
      the end of the probe and the value the C function returns. */
  method NearestOffset(file: seq<Byte>, start: int, maxTs: int) returns (r: ProbeEnd, status: int)
    ensures r == Forward(file, maxTs, start, 0)
    ensures status == ExitStatus(r)
  {
    var tries: nat := 0;
    var offset := start;
    var evbuf := new Event();
    while tries < MaxRetries
      invariant offset == start + tries && tries <= MaxRetries
      invariant Forward(file, maxTs, offset, tries) == Forward(file, maxTs, start, 0)
      invariant evbuf.Valid()
      decreases MaxRetries - tries
    {
      if |file| < offset || offset < 0 {
        return Failed, 1;
      }
      var got := evbuf.ReadHeader(file, offset);
      if got != EventHeaderSize {
        return Failed, 1;
      }
      var h := evbuf.header;
      assert h == HeaderAt(file, offset);
      var extra: Option<seq<Byte>> := None;
      var amount := ExtraAmount(h.typeCode);
      if amount.Some? {
        var buf := ReadBody(file, offset + EventHeaderSize, amount.value);
        extra := Some(buf[..]);
      }
      if CheckEvent(h, maxTs) {
        return Found(offset, h, extra), 0;
      }
      offset := offset + 1;
      tries := tries + 1;
    }
    r, status := Exhausted, 0;
  }
}
