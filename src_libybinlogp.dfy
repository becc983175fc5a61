/**
 * src/libybinlogp.c, the library revision of the scanner: a parser object
 * over one open binlog, its acceptance predicate (no timestamp window), the
 * probe and time search, the bootstrap from the format-description event,
 * and the length-chained cursor ybp_next_event.
 *
 * The clock reading time(NULL) is the parameter `now`; the file is the
 * byte sequence `file`, whose length is the parser's file_size.
 */
module SrcLibybinlogp {
  import opened Opt
  import opened Wire
  import opened Validator
  import opened Events
  import opened Scan

  const MinEventLength: nat := 19
  const MaxEventLength: nat := 16 * 1048576
  const MaxRetries: nat := 16 * 1048576
  const TimestampFudge: nat := 3600
  /** The format-description event follows the 4-byte magic number. */
  const FdeOffset: nat := 4

  /** ybpi_check_event's constants: 19 <= length < 16 MiB and no timestamp
      window; the server-id rule as the parser is set. */
  function SrcPolicy(enforce: bool, slave: nat, master: nat): (p: Policy)
    ensures p.window == Unbounded
  {
    Policy(MinEventLength, MaxEventLength, Unbounded, enforce, slave, master)
  }

  /** ybpi_check_event accepts exactly the headers that pass the server-id
      rule, have a type code in 1..26 and a length in [19, 16 MiB); the
      timestamp plays no part. */
  lemma CheckEventMeaning(h: Header, enforce: bool, slave: nat, master: nat, t: nat)
    ensures Plausible(h, SrcPolicy(enforce, slave, master))
            <==> (&& (!enforce || h.serverId == slave || h.serverId == master)
                  && 0 < h.typeCode < 27
                  && 19 <= h.length < 16 * 1048576)
    ensures Plausible(h.(timestamp := t), SrcPolicy(enforce, slave, master))
            == Plausible(h, SrcPolicy(enforce, slave, master))
  {
    TimestampIgnoredWhenUnbounded(h, SrcPolicy(enforce, slave, master), t);
  }

  /** The reader of the bootstrap's first read: enforcement off. */
  function FdeReader(): Reader
  {
    Reader(SrcPolicy(false, 0, 0), true, MaxRetries)
  }

  /** With enforcement off the server ids the parser holds make no
      difference to any read. */
  lemma {:induction false} UnenforcedLookIgnoresIds(file: seq<Byte>, slave: nat, master: nat, at: int)
    ensures Look(file, Reader(SrcPolicy(false, slave, master), true, MaxRetries), at) == Look(file, FdeReader(), at)
  {
    if 0 <= at && at + EventHeaderSize <= |file| {
      var h := HeaderAt(file, at);
      assert Plausible(h, SrcPolicy(false, slave, master)) == Plausible(h, SrcPolicy(false, 0, 0));
    }
  }

  // ---------------------------------------------------------------------
  // The bootstrap: what ybpi_read_fde learns from the head of the file.

  /** The bootstrap either fails with the outcome of ybpi_read_fde, or learns
      the two server ids, the offset of the event after the FDE and the
      timestamp floor. */
  datatype Boot =
    | BootFailed(outcome: Outcome)
    | Learned(slave: nat, master: nat, next: int, minTimestamp: int)

  /** ybpi_read_fde: read the event at offset 4 with enforcement off; -1 when
      that read fails.  Its body is taken as a format-description event
      without checking the type code: a header of another type, one whose
      body was not read (rejected) or a body too short for the version field
      is a dereference of memory the buffer does not own.  A version other
      than 4 exits with status 1.  Otherwise the FDE gives the slave id and
      the event after it (read into a zeroed buffer, its result ignored)
      gives the master id; the floor is the earlier of the two timestamps
      less an hour. */
  function Bootstrap(file: seq<Byte>): (b: Boot)
  {
    var v := Look(file, FdeReader(), FdeOffset);
    if ReadCode(v) < 0 then BootFailed(Returned(-1))
    else
      var h := HeaderAt(file, FdeOffset);
      if h.typeCode != FormatDescriptionEvent || v != Accepted || h.length < EventHeaderSize + 2 then
        BootFailed(Undefined)
      else if Field(file, FdeOffset + EventHeaderSize, 2) != BinlogVersion then
        BootFailed(Exited(1))
      else
        var next := FdeOffset + h.length;
        var h2 := HeaderAfterRead(file, next, ZeroHeader);
        Learned(h.serverId, h2.serverId, next, Min(h.timestamp, h2.timestamp) - TimestampFudge)
  }

  /** What a successful bootstrap has checked and learned: a version-4
      format-description event at offset 4 lying wholly in the file, the
      cursor right after it, the slave id from it, the master id from the
      event after it read into a zeroed buffer (0 when the file ends at the
      FDE), a floor an hour before the earlier of their two timestamps, and an
      FDE that then passes the acceptance predicate with enforcement on. */
  lemma BootstrapLearns(file: seq<Byte>)
    requires Bootstrap(file).Learned?
    ensures FdeOffset + EventHeaderSize + 2 <= |file|
    ensures var b := Bootstrap(file);
            var h := HeaderAt(file, FdeOffset);
            && h.typeCode == FormatDescriptionEvent
            && Field(file, FdeOffset + EventHeaderSize, 2) == BinlogVersion
            && b.next == FdeOffset + h.length <= |file|
            && b.slave == h.serverId
            && b.minTimestamp + TimestampFudge <= h.timestamp
            && Plausible(h, SrcPolicy(true, b.slave, b.master))
            && (b.next + EventHeaderSize <= |file| ==>
                  && b.master == HeaderAt(file, b.next).serverId
                  && b.minTimestamp + TimestampFudge <= HeaderAt(file, b.next).timestamp)
    ensures var b := Bootstrap(file);
            var h2 := HeaderAfterRead(file, b.next, ZeroHeader);
            && b.master == h2.serverId
            && b.minTimestamp == Min(HeaderAt(file, FdeOffset).timestamp, h2.timestamp) - TimestampFudge
            && (b.next >= |file| ==> b.master == 0 && b.minTimestamp + TimestampFudge == 0)
  {
  }

  /** ybpi_read_fde exits with status 1 exactly when the FDE at offset 4 is
      read whole and accepted, is of the format-description type, is long
      enough for the version field, and that field is not 4. */
  lemma BootstrapRejectsVersion(file: seq<Byte>)
    ensures Bootstrap(file) == BootFailed(Exited(1))
            <==> (&& Look(file, FdeReader(), FdeOffset) == Accepted
                  && HeaderAt(file, FdeOffset).typeCode == FormatDescriptionEvent
                  && EventHeaderSize + 2 <= HeaderAt(file, FdeOffset).length
                  && Field(file, FdeOffset + EventHeaderSize, 2) != BinlogVersion)
  {
  }

  /** The bootstrap reports -1 exactly when the FDE header cannot be read
      whole or the FDE claims to run past the end of the file. */
  lemma BootstrapReadFails(file: seq<Byte>)
    ensures Bootstrap(file) == BootFailed(Returned(-1))
            <==> (|file| < FdeOffset + EventHeaderSize
                  || FdeOffset + HeaderAt(file, FdeOffset).length > |file|)
  {
  }

  // ---------------------------------------------------------------------
  // The cursor step of ybp_next_event.

  /** A cursor step: ybp_next_event's return value and the new offset. */
  datatype Step = Step(code: int, offset: int)

  /** ybp_next_event after the bootstrap: read at `at` (acceptance plays no
      part in the result); a failed read returns its code and leaves the
      cursor; otherwise the cursor moves to at + length, and the step
      reports the last event (0) when that is not positive or not before
      the end of the file, or when the header's next_position is its own
      offset or not before the end; it reports 1 otherwise. */
  function Advance(file: seq<Byte>, at: int): (s: Step)
    ensures s.code < 0 <==> ReadCode(Look(file, FdeReader(), at)) < 0
    ensures s.code < 0 ==> s.code == ReadCode(Look(file, FdeReader(), at)) && s.offset == at
    ensures s.code >= 0 ==> s.code in {0, 1} && 0 <= at && s.offset == at + HeaderAt(file, at).length
    ensures s.code == 1 ==> 0 < s.offset < |file|
    ensures s.code >= 0 ==>
              (s.code == 0 <==> (|| s.offset <= 0
                                 || HeaderAt(file, at).nextPosition == at
                                 || HeaderAt(file, at).nextPosition >= |file|
                                 || s.offset >= |file|))
  {
    var code := ReadCode(Look(file, FdeReader(), at));
    if code < 0 then Step(code, at)
    else
      var h := HeaderAt(file, at);
      var next := at + h.length;
      if next <= 0 || h.nextPosition == at || h.nextPosition >= |file| || next >= |file| then Step(0, next)
      else Step(1, next)
  }

  /** As written, a header of length 0 in the middle of a file makes the
      step report "more" without moving: 100 zero bytes read at 50. */
  lemma AdvanceStalls()
    ensures Advance(Zeros(100), 50) == Step(1, 50)
  {
    var file := Zeros(100);
    var b := file[50..50 + EventHeaderSize];
    assert b == Zeros(EventHeaderSize);
    ZeroFields(b);
  }

  /** Every field of an all-zero header is zero. */
  lemma ZeroFields(b: seq<Byte>)
    requires |b| == EventHeaderSize && forall i :: 0 <= i < |b| ==> b[i] == 0
    ensures DecodeHeader(b) == ZeroHeader
  {
    ZeroField(b, 0, 4);
    ZeroField(b, 4, 1);
    ZeroField(b, 5, 4);
    ZeroField(b, 9, 4);
    ZeroField(b, 13, 4);
    ZeroField(b, 17, 2);
  }

  lemma {:induction false} ZeroField(b: seq<Byte>, at: nat, width: nat)
    requires at + width <= |b| && forall i :: at <= i < at + width ==> b[i] == 0
    ensures Field(b, at, width) == 0
    decreases width
  {
    if width > 0 {
      ZeroField(b, at + 1, width - 1);
    }
  }

  /** The step as evidently intended: a header shorter than a header ends
      the walk, so "more" always moves the cursor a whole header forward. */
  function AdvanceChecked(file: seq<Byte>, at: int): (s: Step)
    ensures s.code == 1 ==> 0 <= at && at + EventHeaderSize <= s.offset < |file|
    ensures s.code != 1 ==> s == Advance(file, at) || (s.code == 0 && s.offset == Advance(file, at).offset)
  {
    var s := Advance(file, at);
    if s.code == 1 && HeaderAt(file, at).length < EventHeaderSize then Step(0, s.offset) else s
  }

  /** The offsets a caller visits stepping with AdvanceChecked until it
      stops returning 1; each visit is a whole header past the one before,
      so the walk ends within |file| / 19 steps. */
  function Chain(file: seq<Byte>, at: int): (cs: seq<int>)
    decreases |file| - at
    ensures |cs| >= 1 && cs[0] == at
    ensures forall i :: 0 < i < |cs| ==> cs[i - 1] + EventHeaderSize <= cs[i] < |file|
  {
    var s := AdvanceChecked(file, at);
    if s.code == 1 then [at] + Chain(file, s.offset) else [at]
  }

  /** On an event at least a header long the corrected step is the step as
      written. */
  lemma AdvanceCheckedAgrees(file: seq<Byte>, at: int)
    requires 0 <= at && at + EventHeaderSize <= |file| && HeaderAt(file, at).length >= EventHeaderSize
    ensures AdvanceChecked(file, at) == Advance(file, at)
  {
  }

  /** The corrected step leaves the same 100 zero bytes at once. */
  lemma AdvanceCheckedStops()
    ensures AdvanceChecked(Zeros(100), 50) == Step(0, 50)
  {
    AdvanceStalls();
  }

  // ---------------------------------------------------------------------
  // The parser's state and what each operation makes of it.

  /** The fields of struct ybp_binlog_parser that the operations change. */
  datatype ParserState = ParserState(
    offset: int,
    enforceServerId: bool,
    hasReadFde: bool,
    slaveServerId: nat,
    masterServerId: nat,
    minTimestamp: int,
    maxTimestamp: int)

  /** The reader ybpi_read_event and ybpi_check_event use in state `s`. */
  function ReaderOf(s: ParserState): (rd: Reader)
    ensures rd.policy == SrcPolicy(s.enforceServerId, s.slaveServerId, s.masterServerId)
    ensures rd.checksOverrun && rd.maxRetries == MaxRetries
  {
    Reader(SrcPolicy(s.enforceServerId, s.slaveServerId, s.masterServerId), true, MaxRetries)
  }

  /** The state ybp_get_binlog_parser sets up before it bootstraps: offset
      4, enforcement off, both ids and the floor zero, the ceiling an hour
      from now. */
  function Initial(now: int): ParserState
  {
    ParserState(FdeOffset, false, false, 0, 0, 0, now + TimestampFudge)
  }

  /** The state after a read: only the ceiling moves, to an hour from now. */
  function Touched(s: ParserState, now: int): ParserState
  {
    s.(maxTimestamp := now + TimestampFudge)
  }

  /** ybpi_read_fde's return for a bootstrap. */
  function BootOutcome(b: Boot): Outcome
  {
    match b
    case BootFailed(out) => out
    case Learned(_, _, _, _) => Returned(0)
  }

  /** The parser after ybpi_read_fde: a successful bootstrap records what it
      learned and marks the parser; a failed first read leaves enforcement
      off; nothing else changes but the ceiling. */
  function AfterBoot(s: ParserState, b: Boot, now: int): ParserState
  {
    match b
    case Learned(slave, master, next, minTs) =>
      Touched(s, now).(hasReadFde := true, slaveServerId := slave, masterServerId := master,
                       offset := next, minTimestamp := minTs)
    case BootFailed(out) =>
      Touched(s, now).(enforceServerId := s.enforceServerId && out != Returned(-1))
  }

  /** The offset ybp_next_event reads at: the cursor, after bootstrapping
      first when that has not happened. */
  function NextStart(file: seq<Byte>, s: ParserState, now: int): int
  {
    if s.hasReadFde then s.offset else AfterBoot(s, Bootstrap(file), now).offset
  }

  /** What ybp_next_event returns and leaves. */
  datatype Next = Next(out: Outcome, state: ParserState)

  /** ybp_next_event: bootstrap when that has not happened (an exit or
      undefined behaviour there ends everything; a failed read does not
      stop it), then take a cursor step from NextStart with enforcement
      off and put the caller's setting back. */
  function NextEventSpec(file: seq<Byte>, s: ParserState, now: int): Next
  {
    var b := Bootstrap(file);
    var s1 := if s.hasReadFde then s else AfterBoot(s, b, now);
    if !s.hasReadFde && b.BootFailed? && b.outcome != Returned(-1) then Next(b.outcome, s1)
    else
      var st := Advance(file, s1.offset);
      Next(Returned(st.code), Touched(s1, now).(offset := st.offset, enforceServerId := s.enforceServerId))
  }

  /** Once bootstrapped, ybp_next_event is a plain cursor step: the
      bootstrap's results and the caller's enforcement setting are kept,
      and the code is the documented 0 (last), negative (error) or 1. */
  lemma NextEventSteps(file: seq<Byte>, s: ParserState, now: int)
    requires s.hasReadFde
    ensures var n := NextEventSpec(file, s, now);
            var st := Advance(file, s.offset);
            && n.out == Returned(st.code) && n.out.code in {-2, -1, 0, 1}
            && n.state == s.(offset := st.offset, maxTimestamp := now + TimestampFudge)
            && (n.out.code < 0 ==> n.state.offset == s.offset)
            && (n.out.code == 1 ==> 0 < n.state.offset < |file|)
            && (n.out.code >= 0 ==>
                  var h := HeaderAt(file, s.offset);
                  (n.out.code == 0 <==> (|| n.state.offset <= 0 || h.nextPosition == s.offset
                                         || h.nextPosition >= |file| || n.state.offset >= |file|)))
  {
  }

  /** The bootstrap happens on the first ybp_next_event only: when it
      learns, the parser is marked, holds what was learned and steps from
      the event after the FDE; a fatal bootstrap returns its outcome. */
  lemma NextEventBootstraps(file: seq<Byte>, s: ParserState, now: int)
    requires !s.hasReadFde
    ensures var n := NextEventSpec(file, s, now);
            var b := Bootstrap(file);
            && (b.Learned? ==>
                  && n.state.hasReadFde && n.state.slaveServerId == b.slave
                  && n.state.masterServerId == b.master && n.state.minTimestamp == b.minTimestamp
                  && n.state.enforceServerId == s.enforceServerId
                  && n.out == Returned(Advance(file, b.next).code))
            && (b.BootFailed? ==> !n.state.hasReadFde)
            && (b.BootFailed? && b.outcome != Returned(-1) ==> n.out == b.outcome)
  {
  }

  /** The event `e` holds the one that starts at `at`: its header, its
      offset, and a body of exactly the file's length - 19 bytes there. */
  ghost predicate Holds(file: seq<Byte>, e: Event, at: int)
    reads e, e.data
  {
    && 0 <= at && at + EventHeaderSize <= |file|
    && e.header == HeaderAt(file, at) && e.offset == at
    && e.data != null && EventHeaderSize <= e.header.length && at + e.header.length <= |file|
    && e.data[..] == file[at + EventHeaderSize..at + e.header.length]
  }

  /** A body read from the file gives the same version field as the file
      does in place. */
  lemma VersionInPlace(file: seq<Byte>, at: nat, body: seq<Byte>)
    requires 2 <= |body| && at + |body| <= |file| && body == file[at..at + |body|]
    ensures Field(body, 0, 2) == Field(file, at, 2)
  {
    Field2(body, 0);
    Field2(file, at);
    assert body[0] == file[at] && body[1] == file[at + 1];
  }

  class BinlogParser {
    /** The bytes of the open file; its length is file_size. */
    const file: seq<Byte>
    var offset: int
    var enforceServerId: bool
    var hasReadFde: bool
    var slaveServerId: nat
    var masterServerId: nat
    var minTimestamp: int
    var maxTimestamp: int

    function State(): ParserState
      reads this
    {
      ParserState(offset, enforceServerId, hasReadFde, slaveServerId, masterServerId,
                  minTimestamp, maxTimestamp)
    }

    /** ybp_get_binlog_parser up to its bootstrap. */
    constructor (file: seq<Byte>, now: int)
      ensures this.file == file && State() == Initial(now)
    {
      this.file := file;
      offset := FdeOffset;
      enforceServerId := false;
      hasReadFde := false;
      slaveServerId := 0;
      masterServerId := 0;
      minTimestamp := 0;
      maxTimestamp := now + TimestampFudge;
    }

    /** ybpi_read_event: the code is read_event's status for the verdict at
        `at`; a header that is read is in the buffer with its offset, and a
        body of exactly length - 19 file bytes is attached only when the
        header is accepted. */
    method ReadEvent(at: int, evbuf: Event, now: int) returns (code: int, ghost v: Verdict)
      requires evbuf.Valid()
      modifies this`maxTimestamp, evbuf
      ensures maxTimestamp == now + TimestampFudge
      ensures v == Look(file, ReaderOf(old(State())), at) && code == ReadCode(v)
      ensures at < 0 ==> unchanged(evbuf)
      ensures at >= 0 ==> evbuf.header == HeaderAfterRead(file, at, old(evbuf.header)) && evbuf.offset == at
      ensures evbuf.Valid()
      ensures at >= 0 ==> (evbuf.data != null <==> v == Accepted)
      ensures at >= 0 && evbuf.data != null ==>
                fresh(evbuf.data) && evbuf.data[..] == file[at + EventHeaderSize..at + evbuf.header.length]
    {
      v := Look(file, ReaderOf(State()), at);
      maxTimestamp := now + TimestampFudge;
      if at < 0 {
        code := -1;
      } else {
        var got := evbuf.ReadHeader(file, at);
        if got != EventHeaderSize {
          code := -1;
        } else if evbuf.header.length + evbuf.offset > |file| {
          code := -2;
        } else {
          assert evbuf.header == HeaderAt(file, at);
          if Plausible(evbuf.header, ReaderOf(State()).policy) {
            var n := evbuf.header.length - EventHeaderSize;
            var body := ReadBody(file, at + EventHeaderSize, n);
            assert body[..] == file[at + EventHeaderSize..at + EventHeaderSize + n];
            evbuf.data := body;
          }
          code := 0;
        }
      }
    }

    /** ybpi_nearest_offset: the probe's result, and on success a copy of
        the accepted event in `outbuf` when one is given. */
    method NearestOffset(start: int, outbuf: Event?, direction: int, now: int) returns (r: int)
      requires outbuf != null ==> outbuf.Valid()
      modifies this`maxTimestamp, outbuf
      ensures r == Scan.NearestOffset(file, ReaderOf(old(State())), start, direction, 0)
      ensures maxTimestamp == old(maxTimestamp) || maxTimestamp == now + TimestampFudge
      ensures outbuf != null && r < 0 ==> unchanged(outbuf)
      ensures outbuf != null && r >= 0 ==> outbuf.Valid() && Holds(file, outbuf, r) && fresh(outbuf.data)
    {
      ghost var s0 := State();
      var retries: nat := 0;
      var at := start;
      var evbuf := new Event();
      r := -2;
      while retries < MaxRetries && at >= 0 && at <= |file| - EventHeaderSize
        invariant maxTimestamp == s0.maxTimestamp || maxTimestamp == now + TimestampFudge
        invariant Scan.NearestOffset(file, ReaderOf(s0), at, direction, retries)
                  == Scan.NearestOffset(file, ReaderOf(s0), start, direction, 0)
        invariant fresh(evbuf) && evbuf.Valid()
        invariant outbuf != null ==> unchanged(outbuf)
        decreases MaxRetries - retries
      {
        NearestOffsetStep(file, ReaderOf(s0), at, direction, retries);
        assert ReaderOf(State()) == ReaderOf(s0);
        var code, hit := ProbeAt(at, evbuf, outbuf, now);
        if code < 0 {
          evbuf.Dispose();
          return -1;
        }
        if hit {
          evbuf.Dispose();
          return at;
        }
        at := at + direction;
        retries := retries + 1;
      }
      NearestOffsetStep(file, ReaderOf(s0), at, direction, retries);
      evbuf.Dispose();
    }

    /** One pass of ybp_nearest_offset's loop: reset the scratch event, read
        at `at`, and when the header passes the acceptance predicate copy it
        to the caller's event. */
    method ProbeAt(at: int, evbuf: Event, outbuf: Event?, now: int) returns (code: int, hit: bool)
      requires 0 <= at && evbuf != outbuf && (outbuf != null ==> outbuf.Valid())
      modifies this`maxTimestamp, evbuf, outbuf
      ensures maxTimestamp == now + TimestampFudge
      ensures var v := Look(file, ReaderOf(old(State())), at);
              code == ReadCode(v) && (hit <==> v == Accepted)
      ensures evbuf.Valid()
      ensures outbuf != null && !hit ==> unchanged(outbuf)
      ensures outbuf != null && hit ==> outbuf.Valid() && Holds(file, outbuf, at) && fresh(outbuf.data)
    {
      evbuf.Reset();
      var c, _ := ReadEvent(at, evbuf, now);
      code := c;
      hit := code >= 0 && Plausible(evbuf.header, ReaderOf(State()).policy);
      if hit && outbuf != null {
        var _ := outbuf.CopyFrom(evbuf);
      }
    }

    /** ybp_nearest_time: the halving search's result. */
    method NearestTime(target: int, now: int) returns (r: int)
      modifies this`maxTimestamp
      ensures r == Scan.NearestTime(file, ReaderOf(old(State())), target)
      ensures State() == old(State()) || State() == Touched(old(State()), now)
    {
      ghost var s0 := State();
      ghost var sc := ScannerOf(file, ReaderOf(s0));
      var evbuf := new Event();
      var at := |file| / 2;
      var increment := |file| / 4;
      var direction := 1;
      var lastFound := 0;
      while increment > 2
        invariant State() == s0 || State() == Touched(s0, now)
        invariant direction == 1 || direction == -1
        invariant TimeSearch(sc, StampOf(file), target, at, increment, direction, lastFound).result
                  == Scan.NearestTime(file, ReaderOf(s0), target)
        invariant fresh(evbuf) && evbuf.Valid()
        decreases increment
      {
        evbuf.Reset();
        var found := NearestOffset(at, evbuf, direction, now);
        TimeSearchRound(sc, StampOf(file), target, at, increment, direction, lastFound, found);
        if found == -1 {
          return found;
        } else if found == -2 {
          lastFound := found;
          break;
        }
        assert StampOf(file)(found) == evbuf.header.timestamp;
        lastFound := found;
        var delta := evbuf.header.timestamp - target;
        if delta > 0 {
          direction := -1;
        } else if delta < 0 {
          direction := 1;
        }
        if delta == 0 {
          break;
        }
        at := Moved(at, increment, direction);
        increment := increment / 2;
      }
      evbuf.Dispose();
      r := lastFound;
    }

    /** ybpi_read_fde: the bootstrap's outcome and the parser it leaves. */
    method ReadFde(now: int) returns (out: Outcome)
      modifies this`enforceServerId, this`slaveServerId, this`masterServerId, this`offset,
               this`minTimestamp, this`maxTimestamp, this`hasReadFde
      ensures out == BootOutcome(Bootstrap(file))
      ensures State() == AfterBoot(old(State()), Bootstrap(file), now)
    {
      var esi := enforceServerId;
      enforceServerId := false;
      var evbuf := new Event();
      UnenforcedLookIgnoresIds(file, slaveServerId, masterServerId, FdeOffset);
      var code, _ := ReadEvent(FdeOffset, evbuf, now);
      if code < 0 {
        evbuf.Dispose();
        out := Returned(-1);
      } else {
        enforceServerId := esi;
        assert evbuf.header == HeaderAt(file, FdeOffset);
        var body := EventAsFde(evbuf);
        if body.None? || |body.value| < 2 {
          out := Undefined;
        } else {
          var version := Field(body.value, 0, 2);
          assert body.value == file[FdeOffset + EventHeaderSize..FdeOffset + evbuf.header.length];
          VersionInPlace(file, FdeOffset + EventHeaderSize, body.value);
          if version != BinlogVersion {
            out := Exited(1);
          } else {
            Learn(evbuf, now);
            out := Returned(0);
          }
        }
      }
    }

    /** The second half of ybpi_read_fde, once the FDE at offset 4 is in
        `evbuf`: the slave id from it, the cursor after it, the master id
        and timestamp of the event read there into a zeroed buffer. */
    method Learn(evbuf: Event, now: int)
      requires evbuf.Valid() && evbuf.offset == FdeOffset
      modifies this`slaveServerId, this`masterServerId, this`offset, this`minTimestamp,
               this`maxTimestamp, this`hasReadFde, evbuf
      ensures hasReadFde && slaveServerId == old(evbuf.header).serverId
      ensures offset == FdeOffset + old(evbuf.header).length
      ensures masterServerId == HeaderAfterRead(file, offset, ZeroHeader).serverId
      ensures minTimestamp == Min(old(evbuf.header).timestamp, HeaderAfterRead(file, offset, ZeroHeader).timestamp)
                              - TimestampFudge
      ensures maxTimestamp == now + TimestampFudge && enforceServerId == old(enforceServerId)
    {
      var fdeTime := evbuf.header.timestamp;
      slaveServerId := evbuf.header.serverId;
      var next := evbuf.offset + evbuf.header.length;
      offset := next;
      evbuf.Reset();
      var _, _ := ReadEvent(next, evbuf, now);
      assert evbuf.header == HeaderAfterRead(file, next, ZeroHeader);
      masterServerId := evbuf.header.serverId;
      var evtTime := evbuf.header.timestamp;
      evbuf.Dispose();
      minTimestamp := Min(fdeTime, evtTime) - TimestampFudge;
      hasReadFde := true;
    }

    /** ybp_next_event. */
    method NextEvent(evbuf: Event, now: int) returns (out: Outcome)
      requires evbuf.Valid()
      modifies this`enforceServerId, this`slaveServerId, this`masterServerId, this`offset,
               this`minTimestamp, this`maxTimestamp, this`hasReadFde, evbuf
      ensures var n := NextEventSpec(file, old(State()), now);
              out == n.out && State() == n.state
      ensures var at := NextStart(file, old(State()), now);
              out.Returned? ==>
                && evbuf.Valid()
                && (at >= 0 ==> evbuf.offset == at && evbuf.header == HeaderAfterRead(file, at, old(evbuf.header)))
                && (at >= 0 ==> (evbuf.data != null <==> Look(file, FdeReader(), at) == Accepted))
    {
      var esi := enforceServerId;
      var fatal := false;
      if !hasReadFde {
        out := ReadFde(now);
        fatal := out.Exited? || out.Undefined?;
      }
      if !fatal {
        out := ReadAndAdvance(esi, evbuf, now);
      }
    }

    /** The cursor step of ybp_next_event: read at the cursor with
        enforcement off, put `esi` back as the setting, and move the cursor
        to offset + length when the read succeeds. */
    method ReadAndAdvance(esi: bool, evbuf: Event, now: int) returns (out: Outcome)
      requires evbuf.Valid()
      modifies this`enforceServerId, this`offset, this`maxTimestamp, evbuf
      ensures var st := Advance(file, old(offset));
              && out == Returned(st.code)
              && State() == Touched(old(State()), now).(offset := st.offset, enforceServerId := esi)
      ensures evbuf.Valid()
      ensures var at := old(offset);
              && (at >= 0 ==> evbuf.offset == at && evbuf.header == HeaderAfterRead(file, at, old(evbuf.header)))
              && (at >= 0 ==> (evbuf.data != null <==> Look(file, FdeReader(), at) == Accepted))
    {
      enforceServerId := false;
      var at := offset;
      UnenforcedLookIgnoresIds(file, slaveServerId, masterServerId, at);
      var ret, _ := ReadEvent(at, evbuf, now);
      enforceServerId := esi;
      if ret < 0 {
        out := Returned(ret);
      } else {
        offset := evbuf.offset + evbuf.header.length;
        if offset <= 0 || evbuf.header.nextPosition == evbuf.offset || evbuf.header.nextPosition >= |file|
           || offset >= |file| {
          out := Returned(0);
        } else {
          out := Returned(1);
        }
      }
    }
  }

  // ---------------------------------------------------------------------
  // Typed views of an event body.

  /** ybp_get_binlog_parser: the fields set, then the bootstrap from the
      format-description event.  The C function discards read_fde's result;
      it is returned here, since an exit(1) or a NULL dereference inside the
      bootstrap ends the program before the parser is handed back. */
  method GetBinlogParser(file: seq<Byte>, now: int) returns (p: BinlogParser, out: Outcome)
    ensures fresh(p) && p.file == file
    ensures out == BootOutcome(Bootstrap(file))
    ensures p.State() == AfterBoot(Initial(now), Bootstrap(file), now)
  {
    p := new BinlogParser(file, now);
    out := p.ReadFde(now);
  }

  /** On a file whose format-description event checks out, the parser
      ybp_get_binlog_parser hands back has read it: the ids and floor are
      learned, the cursor is past the FDE, enforcement is still off and the
      ceiling is an hour from now; on any other file no FDE is marked read. */
  lemma GetBinlogParserBootstraps(file: seq<Byte>, now: int)
    ensures var b := Bootstrap(file);
            var s := AfterBoot(Initial(now), b, now);
            && (b.Learned? ==>
                  && s.hasReadFde && !s.enforceServerId
                  && s.slaveServerId == b.slave && s.masterServerId == b.master
                  && s.offset == b.next && s.minTimestamp == b.minTimestamp
                  && s.maxTimestamp == now + TimestampFudge)
            && (b.BootFailed? ==> s == Initial(now))
  {
  }

  /** On a header that lies in the file but claims to run past its end,
      read_event reports -2 and nearest_offset gives up with -1 at once,
      whatever lies beyond. */
  lemma NearestOffsetGivesUpOnOverrun(file: seq<Byte>, s: ParserState, at: int, direction: int)
    requires 0 <= at && at + EventHeaderSize <= |file| && at + HeaderAt(file, at).length > |file|
    ensures ReadCode(Look(file, ReaderOf(s), at)) == -2
    ensures Scan.NearestOffset(file, ReaderOf(s), at, direction, 0) == -1
  {
    NearestOffsetStep(file, ReaderOf(s), at, direction, 0);
  }

  /** ybp_event_as_fde: the body seen as a format-description event, or
      None (NULL) for another type code; a body that was never read is NULL
      as well. */
  function EventAsFde(e: Event): (r: Option<seq<Byte>>)
    reads e, e.data
    ensures r.Some? <==> e.header.typeCode == FormatDescriptionEvent && e.data != null
    ensures r.Some? ==> r.value == e.data[..]
  {
    if e.header.typeCode != FormatDescriptionEvent || e.data == null then None else Some(e.data[..])
  }

  /** ybp_event_as_qe: the body seen as a query event, or None (NULL). */
  function EventAsQe(e: Event): (r: Option<seq<Byte>>)
    reads e, e.data
    ensures r.Some? <==> e.header.typeCode == QueryEvent && e.data != null
    ensures r.Some? ==> r.value == e.data[..]
  {
    if e.header.typeCode != QueryEvent || e.data == null then None else Some(e.data[..])
  }
}
