/**
 * libybinlogp.c, the first library revision: a parser object whose
 * acceptance predicate has a timestamp window capped at the clock of each
 * read, a read_fde that learns the server ids and moves the cursor past the
 * format-description event, and a ybp_next_event that is still a stub.
 *
 * The clock reading time(NULL) is the parameter `now`, one reading per
 * call; the file is the byte sequence `file`.  The event struct is taken as
 * laid out on a little-endian machine with 8-byte pointers.
 */
module Libybinlogp {
  import opened Opt
  import opened Wire
  import opened Validator
  import opened Events
  import opened Scan

  /** Accepted lengths lie strictly between these two. */
  const MinEventLength: nat := 19
  const MaxEventLength: nat := 16 * 1048576
  const FdeOffset: nat := 4

  /** The parser's fields that reads and the bootstrap consult or set. */
  datatype ParserState = ParserState(
    offset: int,
    enforceServerId: bool,
    hasReadFde: bool,
    slaveServerId: nat,
    masterServerId: nat,
    minTimestamp: int,
    maxTimestamp: int)

  /** ybpi_check_event over the parser: 19 < length < 16 MiB and the
      window [min_timestamp, max_timestamp]. */
  function LibPolicy(s: ParserState): Policy
  {
    Policy(MinEventLength + 1, MaxEventLength, Window(s.minTimestamp, s.maxTimestamp),
           s.enforceServerId, s.slaveServerId, s.masterServerId)
  }

  /** ybpi_check_event accepts exactly the headers that pass the server-id
      rule, have a type code in 1..26, a length in (19, 16 MiB) and a
      timestamp in the window; a bare 19-byte header is never accepted. */
  lemma CheckEventMeaning(h: Header, s: ParserState)
    ensures Plausible(h, LibPolicy(s))
            <==> (&& (!s.enforceServerId || h.serverId == s.slaveServerId || h.serverId == s.masterServerId)
                  && 0 < h.typeCode < 27
                  && 19 < h.length < 16 * 1048576
                  && s.minTimestamp <= h.timestamp <= s.maxTimestamp)
    ensures h.length == EventHeaderSize ==> !Plausible(h, LibPolicy(s))
  {
  }

  /** ybpi_read_event reads with the parser's predicate and has no check
      against the end of the file; this revision has no probe, so no retry
      budget. */
  function ReaderOf(s: ParserState): (rd: Reader)
    ensures rd.policy == LibPolicy(s) && !rd.checksOverrun
  {
    Reader(LibPolicy(s), false, 0)
  }

  /** The parser ybp_init_binlog_parser hands out. */
  function Initial(now: int): ParserState
  {
    ParserState(FdeOffset, false, false, 0, 0, 0, now)
  }

  /** ybpi_next_after: the offset just past an event. */
  function NextAfter(at: int, h: Header): int
  {
    at + h.length
  }

  // ---------------------------------------------------------------------
  // ybp_init_binlog_parser.

  /** What a caller hands ybp_init_binlog_parser as `out`: a NULL pointer,
      a pointer to a NULL handle, or a pointer to a handle already set. */
  datatype OutArg = NullOut | EmptySlot | FilledSlot

  /** The check as written tests the handle `*out`, not `out`: a NULL `out`
      is dereferenced and an empty handle, the usual way to ask for a new
      parser, is refused. */
  function InitOutcomeAsWritten(arg: OutArg): (o: Outcome)
    ensures o == Returned(0) <==> arg == FilledSlot
  {
    match arg
    case NullOut => Undefined
    case EmptySlot => Returned(-1)
    case FilledSlot => Returned(0)
  }

  /** The check the header comment describes: refuse only a NULL `out`. */
  function InitOutcome(arg: OutArg): (o: Outcome)
    ensures o.Returned? && (o.code == -1 <==> arg == NullOut) && (o.code != -1 ==> o.code == 0)
  {
    if arg == NullOut then Returned(-1) else Returned(0)
  }

  /** A caller asking for a parser through an empty handle is refused as
      written and served by the corrected check. */
  lemma InitRefusesEmptySlotAsWritten()
    ensures InitOutcomeAsWritten(EmptySlot) == Returned(-1)
    ensures InitOutcome(EmptySlot) == Returned(0)
    ensures forall arg :: InitOutcome(arg) == Returned(0) ==> arg != NullOut
  {
  }

  /** ybp_init_binlog_parser with the corrected check: a parser with the
      cursor at the format-description event, enforcement off, no ids, the
      window [0, now] and no bootstrap yet. */
  method NewParser(file: seq<Byte>, now: int, arg: OutArg) returns (out: Outcome, p: BinlogParser?)
    ensures out == InitOutcome(arg)
    ensures p != null <==> out == Returned(0)
    ensures p != null ==> fresh(p) && p.file == file && p.State() == Initial(now)
  {
    if arg == NullOut {
      out, p := Returned(-1), null;
    } else {
      p := new BinlogParser(file, now);
      out := Returned(0);
    }
  }

  // ---------------------------------------------------------------------
  // ybp_reset_event as written.

  /** The header after memset(evbuf, 0, sizeof(struct ybp_event*)): the
      first 8 bytes of the packed struct are the timestamp, the type code
      and the low three bytes of the server id; length, next_position,
      flags and the top byte of the server id are kept. */
  function PartlyZeroed(h: Header): (z: Header)
    requires WellFormed(h)
    ensures WellFormed(z)
    ensures z.timestamp == 0 && z.typeCode == 0
    ensures z.serverId % 0x100_0000 == 0 && z.serverId / 0x100_0000 == h.serverId / 0x100_0000
    ensures z.length == h.length && z.nextPosition == h.nextPosition && z.flags == h.flags
  {
    h.(timestamp := 0, typeCode := 0, serverId := h.serverId / 0x100_0000 * 0x100_0000)
  }

  /** ybp_reset_event as written: drop the body, then zero only as many
      bytes as a pointer takes. */
  method ResetEventAsWritten(e: Event)
    requires e.Valid()
    modifies e
    ensures e.Valid() && e.data == null
    ensures e.header == PartlyZeroed(old(e.header)) && e.offset == old(e.offset)
  {
    e.data := null;
    e.header := PartlyZeroed(e.header);
  }

  /** The reset as written keeps the length and the top byte of the server
      id; when read_fde's second read finds the file ended right after the
      FDE, the master id it learns is that byte of the FDE's server id where
      the corrected reset (Event.Reset) gives 0. */
  lemma StaleMasterIdAsWritten(file: seq<Byte>, fde: Header)
    requires WellFormed(fde) && FdeOffset + fde.length >= |file|
    ensures PartlyZeroed(fde).length == fde.length
    ensures HeaderAfterRead(file, FdeOffset + fde.length, PartlyZeroed(fde)).serverId
            == fde.serverId / 0x100_0000 * 0x100_0000
    ensures HeaderAfterRead(file, FdeOffset + fde.length, ZeroHeader).serverId == 0
    ensures fde.serverId >= 0x100_0000 ==>
              HeaderAfterRead(file, FdeOffset + fde.length, PartlyZeroed(fde)).serverId
              != HeaderAfterRead(file, FdeOffset + fde.length, ZeroHeader).serverId
  {
  }

  // ---------------------------------------------------------------------
  // ybpi_read_fde and the stub ybp_next_event.

  datatype Boot =
    | BootFailed(outcome: Outcome)
    | Learned(slave: nat, master: nat, next: int, minTimestamp: int)

  /** ybpi_read_fde with the clock at `now`: read at offset 4 with the
      parser's enforcement as it stands and the window [min_timestamp, now];
      -1 when the header cannot be read whole.  The body is taken as a
      format-description event with no check of the type code: a rejected
      header leaves no body (NULL) and a one-byte body is too short for the
      version field.  A version other than 4 exits with status 1.  Otherwise
      the floor becomes the FDE's timestamp, the slave id its server id, the
      cursor offset + length, and the master id the server id read there
      into a reset buffer. */
  function Bootstrap(file: seq<Byte>, s: ParserState, now: int): Boot
  {
    var v := Look(file, ReaderOf(s.(maxTimestamp := now)), FdeOffset);
    if ReadCode(v) < 0 then BootFailed(Returned(-1))
    else
      var h := HeaderAt(file, FdeOffset);
      BootFrom(file, h, if v == Accepted then Some(BodyAfterRead(file, FdeOffset + EventHeaderSize, h.length - EventHeaderSize))
                        else None)
  }

  /** The rest of the bootstrap from the header read at offset 4 and its
      body, `None` when the read left no body. */
  function BootFrom(file: seq<Byte>, h: Header, body: Option<seq<Byte>>): Boot
  {
    if body.None? || |body.value| < 2 then BootFailed(Undefined)
    else if Field(body.value, 0, 2) != BinlogVersion then BootFailed(Exited(1))
    else
      var next := NextAfter(FdeOffset, h);
      Learned(h.serverId, HeaderAfterRead(file, next, ZeroHeader).serverId, next, h.timestamp)
  }

  function BootOutcome(b: Boot): Outcome
  {
    match b
    case BootFailed(out) => out
    case Learned(_, _, _, _) => Returned(0)
  }

  /** The parser after ybpi_read_fde: every read has set the ceiling to the
      clock; only a bootstrap that learns changes anything else. */
  function AfterFde(s: ParserState, b: Boot, now: int): ParserState
  {
    match b
    case Learned(slave, master, next, minTs) =>
      s.(offset := next, hasReadFde := true, slaveServerId := slave, masterServerId := master,
         minTimestamp := minTs, maxTimestamp := now)
    case BootFailed(_) => s.(maxTimestamp := now)
  }

  /** What a successful read_fde has checked and learned: an accepted FDE
      of version 4 at offset 4 whose timestamp lies between the old floor
      and the clock and becomes the floor exactly; the cursor just past it;
      the slave id its server id; the master id that of the event at the
      cursor when a whole header lies there, and 0 when the file ends at
      the cursor. */
  lemma BootstrapLearns(file: seq<Byte>, s: ParserState, now: int)
    requires Bootstrap(file, s, now).Learned?
    ensures FdeOffset + EventHeaderSize <= |file|
    ensures var b := Bootstrap(file, s, now);
            var h := HeaderAt(file, FdeOffset);
            && 21 <= h.length < MaxEventLength
            && s.minTimestamp <= h.timestamp <= now
            && b.minTimestamp == h.timestamp
            && b.slave == h.serverId
            && b.next == FdeOffset + h.length
            && Field(BodyAfterRead(file, FdeOffset + EventHeaderSize, h.length - EventHeaderSize), 0, 2) == BinlogVersion
            && (b.next + EventHeaderSize <= |file| ==> b.master == HeaderAt(file, b.next).serverId)
            && (b.next >= |file| ==> b.master == 0)
  {
  }

  /** The window applies to the FDE itself: an FDE stamped after the clock,
      or before the floor, is rejected, and read_fde then reads the version
      through a NULL body. */
  lemma BootstrapRejectsOutOfWindowFde(file: seq<Byte>, s: ParserState, now: int)
    requires FdeOffset + EventHeaderSize <= |file|
    requires var t := HeaderAt(file, FdeOffset).timestamp; t > now || t < s.minTimestamp
    ensures Bootstrap(file, s, now) == BootFailed(Undefined)
  {
  }

  /** read_fde returns -1 exactly when the file is too short for the FDE's
      header; it never refuses an FDE for running past the end of the file. */
  lemma BootstrapReadFails(file: seq<Byte>, s: ParserState, now: int)
    ensures Bootstrap(file, s, now) == BootFailed(Returned(-1)) <==> |file| < FdeOffset + EventHeaderSize
  {
  }

  /** read_fde exits with status 1 exactly when the FDE read at offset 4 is
      accepted, its body is long enough for the version field, and that
      field is not 4. */
  lemma BootstrapRejectsVersion(file: seq<Byte>, s: ParserState, now: int)
    ensures Bootstrap(file, s, now) == BootFailed(Exited(1))
            <==> (&& Look(file, ReaderOf(s.(maxTimestamp := now)), FdeOffset) == Accepted
                  && var h := HeaderAt(file, FdeOffset);
                     && EventHeaderSize + 2 <= h.length
                     && Field(BodyAfterRead(file, FdeOffset + EventHeaderSize, h.length - EventHeaderSize), 0, 2)
                        != BinlogVersion)
  {
  }

  /** ybp_next_event: bootstrap when that has not happened, then return 0
      whatever the bootstrap returned; an exit or a bad dereference in the
      bootstrap ends there. */
  function NextEventSpec(file: seq<Byte>, s: ParserState, now: int): (Outcome, ParserState)
  {
    if s.hasReadFde then (Returned(0), s)
    else
      var b := Bootstrap(file, s, now);
      var out := if b.BootFailed? && !b.outcome.Returned? then b.outcome else Returned(0);
      (out, AfterFde(s, b, now))
  }

  /** The stub never reports a failed read nor a last event: whatever it
      returns is 0; a failed bootstrap leaves the flag down so the next
      call tries again, and once the bootstrap has succeeded a call changes
      nothing. */
  lemma NextEventIsStub(file: seq<Byte>, s: ParserState, now: int)
    ensures var (out, s') := NextEventSpec(file, s, now);
            && (out.Returned? ==> out.code == 0)
            && (s'.hasReadFde <==> s.hasReadFde || Bootstrap(file, s, now).Learned?)
            && (s.hasReadFde ==> s' == s)
            && (out == Returned(0) && !s'.hasReadFde ==> |file| < FdeOffset + EventHeaderSize)
  {
    BootstrapReadFails(file, s, now);
  }

  /** Two calls in a row after a successful bootstrap: the second returns 0
      and leaves the parser as the first left it. */
  lemma NextEventOnce(file: seq<Byte>, s: ParserState, now: int, later: int)
    requires Bootstrap(file, s, now).Learned?
    ensures var (_, s1) := NextEventSpec(file, s, now);
            NextEventSpec(file, s1, later) == (Returned(0), s1)
  {
  }

  // ---------------------------------------------------------------------
  // The parser object.

  class BinlogParser {
    /** The bytes of the open file. */
    const file: seq<Byte>
    var offset: int
    var enforceServerId: bool
    var hasReadFde: bool
    var slaveServerId: nat
    var masterServerId: nat
    var minTimestamp: int
    var maxTimestamp: int

    function State(): ParserState
      reads this
    {
      ParserState(offset, enforceServerId, hasReadFde, slaveServerId, masterServerId,
                  minTimestamp, maxTimestamp)
    }

    /** The fields ybp_init_binlog_parser sets. */
    constructor (file: seq<Byte>, now: int)
      ensures this.file == file && State() == Initial(now)
    {
      this.file := file;
      offset := FdeOffset;
      enforceServerId := false;
      hasReadFde := false;
      slaveServerId := 0;
      masterServerId := 0;
      minTimestamp := 0;
      maxTimestamp := now;
    }

    /** ybpi_read_event: the ceiling becomes the clock, then -1 for a failed
        seek or a short header, else 0; the header read is in the buffer
        with its offset, and only an accepted header gets a body, read with
        no check against the end of the file. */
    method ReadEvent(at: int, evbuf: Event, now: int) returns (code: int, ghost v: Verdict)
      requires evbuf.Valid()
      modifies this`maxTimestamp, evbuf
      ensures maxTimestamp == now
      ensures v == Look(file, ReaderOf(State()), at) && code == ReadCode(v) && v != Overruns
      ensures at < 0 ==> unchanged(evbuf)
      ensures at >= 0 ==> evbuf.header == HeaderAfterRead(file, at, old(evbuf.header)) && evbuf.offset == at
      ensures evbuf.Valid()
      ensures at >= 0 ==> (evbuf.data != null <==> v == Accepted)
      ensures at >= 0 && evbuf.data != null ==>
                fresh(evbuf.data)
                && evbuf.data[..] == BodyAfterRead(file, at + EventHeaderSize, evbuf.header.length - EventHeaderSize)
    {
      maxTimestamp := now;
      v := Look(file, ReaderOf(State()), at);
      if at < 0 {
        code := -1;
      } else {
        var got := evbuf.ReadHeader(file, at);
        if got != EventHeaderSize {
          code := -1;
        } else {
          assert evbuf.header == HeaderAt(file, at);
          if Plausible(evbuf.header, LibPolicy(State())) {
            var body := ReadBody(file, at + EventHeaderSize, evbuf.header.length - EventHeaderSize);
            evbuf.data := body;
          }
          code := 0;
        }
      }
    }

    /** ybpi_read_fde. */
    method ReadFde(now: int) returns (out: Outcome)
      modifies this`maxTimestamp, this`minTimestamp, this`slaveServerId, this`masterServerId,
               this`offset, this`hasReadFde
      ensures out == BootOutcome(Bootstrap(file, old(State()), now))
      ensures State() == AfterFde(old(State()), Bootstrap(file, old(State()), now), now)
    {
      var evbuf := new Event();
      var code := ReadFdeEvent(evbuf, now);
      if code < 0 {
        out := Returned(-1);
      } else {
        ghost var b := BootFrom(file, evbuf.header, evbuf.Body());
        assert b.BootFailed? ==> b.outcome != Returned(-1);
        out := Examine(evbuf, now);
      }
    }

    /** The first read of ybpi_read_fde: it fails exactly when the
        bootstrap returns -1, and otherwise leaves in `evbuf` what the rest
        of the bootstrap works from. */
    method ReadFdeEvent(evbuf: Event, now: int) returns (code: int)
      requires evbuf.Valid()
      modifies this`maxTimestamp, evbuf
      ensures evbuf.Valid() && maxTimestamp == now
      ensures code < 0 <==> Bootstrap(file, old(State()), now) == BootFailed(Returned(-1))
      ensures code >= 0 ==> evbuf.offset == FdeOffset
                            && Bootstrap(file, old(State()), now) == BootFrom(file, evbuf.header, evbuf.Body())
    {
      ghost var s0 := State();
      var c, v := ReadEvent(FdeOffset, evbuf, now);
      assert v == Look(file, ReaderOf(s0.(maxTimestamp := now)), FdeOffset);
      code := c;
      if code >= 0 {
        assert evbuf.header == HeaderAt(file, FdeOffset);
        assert evbuf.Body() == if v == Accepted then Some(BodyAfterRead(file, FdeOffset + EventHeaderSize, evbuf.header.length - EventHeaderSize))
                               else None;
      }
    }

    /** The rest of ybpi_read_fde from the FDE in `evbuf`: the version
        check, then the learning. */
    method Examine(evbuf: Event, now: int) returns (out: Outcome)
      requires evbuf.Valid() && evbuf.offset == FdeOffset
      modifies this`slaveServerId, this`masterServerId, this`offset, this`minTimestamp,
               this`maxTimestamp, this`hasReadFde, evbuf
      ensures var b := BootFrom(file, old(evbuf.header), old(evbuf.Body()));
              && out == BootOutcome(b)
              && (b.Learned? ==> State() == AfterFde(old(State()), b, now))
              && (!b.Learned? ==> State() == old(State()))
    {
      if evbuf.data == null || evbuf.data.Length < 2 {
        out := Undefined;
      } else {
        var version := Field(evbuf.data[..], 0, 2);
        if version != BinlogVersion {
          out := Exited(1);
        } else {
          Learn(evbuf, now);
          out := Returned(0);
        }
      }
    }

    /** The learning half of ybpi_read_fde, from an FDE in `evbuf`. */
    method Learn(evbuf: Event, now: int)
      requires evbuf.Valid() && evbuf.offset == FdeOffset
      modifies this`slaveServerId, this`masterServerId, this`offset, this`minTimestamp,
               this`maxTimestamp, this`hasReadFde, evbuf
      ensures hasReadFde && slaveServerId == old(evbuf.header).serverId
      ensures offset == FdeOffset + old(evbuf.header).length
      ensures masterServerId == HeaderAfterRead(file, offset, ZeroHeader).serverId
      ensures minTimestamp == old(evbuf.header).timestamp && maxTimestamp == now
    {
      minTimestamp := evbuf.header.timestamp;
      slaveServerId := evbuf.header.serverId;
      var next := NextAfter(evbuf.offset, evbuf.header);
      offset := next;
      evbuf.Reset();
      var _, _ := ReadEvent(next, evbuf, now);
      masterServerId := evbuf.header.serverId;
      evbuf.Dispose();
      hasReadFde := true;
    }

    /** ybp_next_event, the stub. */
    method NextEvent(now: int) returns (out: Outcome)
      modifies this`maxTimestamp, this`minTimestamp, this`slaveServerId, this`masterServerId,
               this`offset, this`hasReadFde
      ensures (out, State()) == NextEventSpec(file, old(State()), now)
    {
      out := Returned(0);
      if !hasReadFde {
        var boot := ReadFde(now);
        if !boot.Returned? {
          out := boot;
        }
      }
    }
  }
}
