/**
 * ybinlogp.c, the command-line revision: the scanner state lives in
 * globals (the timestamp window, the two server ids and the enforcement
 * switch), the acceptance predicate checks the timestamp window and wants a
 * length above 19, read_event has no overrun check, nearest_time hands its
 * offset back as a C int and copies its last event out, and main follows
 * the length chain from the event it found.
 *
 * The clock reading MAX_TIMESTAMP takes at startup is the parameter `now`;
 * the file is the byte sequence `file`, whose length is st_size.
 */
module Ybinlogp {
  import opened Opt
  import opened Wire
  import opened Validator
  import opened Events
  import opened Scan

  const MaxRetries: nat := 102400
  /** Accepted lengths lie strictly between these two. */
  const MinEventLength: nat := 19
  const MaxEventLength: nat := 10485760
  const FdeOffset: nat := 4

  /** The globals check_event reads. */
  datatype Settings = Settings(
    minTimestamp: int,
    maxTimestamp: int,
    slaveServerId: nat,
    masterServerId: nat,
    enforceServerId: bool)

  /** check_event's constants over the globals: 19 < length < 10 MiB and
      the window [MIN_TIMESTAMP, MAX_TIMESTAMP]. */
  function CliPolicy(s: Settings): Policy
  {
    Policy(MinEventLength + 1, MaxEventLength, Window(s.minTimestamp, s.maxTimestamp),
           s.enforceServerId, s.slaveServerId, s.masterServerId)
  }

  /** check_event accepts exactly the headers that pass the server-id rule,
      have a type code in 1..26, a length in (19, 10 MiB) and a timestamp in
      the window; an event of exactly 19 bytes is never accepted. */
  lemma CheckEventMeaning(h: Header, s: Settings)
    ensures Plausible(h, CliPolicy(s))
            <==> (&& (!s.enforceServerId || h.serverId == s.slaveServerId || h.serverId == s.masterServerId)
                  && 0 < h.typeCode < 27
                  && 19 < h.length < 10485760
                  && s.minTimestamp <= h.timestamp <= s.maxTimestamp)
    ensures h.length == EventHeaderSize ==> !Plausible(h, CliPolicy(s))
  {
  }

  /** read_event reads with the globals' predicate and never refuses an
      event for running past the end of the file. */
  function ReaderOf(s: Settings): (rd: Reader)
    ensures rd.policy == CliPolicy(s) && !rd.checksOverrun && rd.maxRetries == MaxRetries
  {
    Reader(CliPolicy(s), false, MaxRetries)
  }

  /** The globals at startup: MAX_TIMESTAMP is the clock, enforcement is on
      unless -S turned it off, and the rest are zero. */
  function Startup(now: int, enforce: bool): Settings
  {
    Settings(0, now, 0, 0, enforce)
  }

  // ---------------------------------------------------------------------
  // read_fde.

  /** What read_fde comes to: a failure with its outcome, or the two server
      ids and the new floor. */
  datatype Boot =
    | BootFailed(outcome: Outcome)
    | Learned(slave: nat, master: nat, minTimestamp: int)

  /** read_fde: read the event at offset 4 with enforcement off (the window
      still applies); -1 when the header cannot be read whole.  The body is
      taken as a format-description event with no check of the type code:
      a header that was rejected leaves no body to read (NULL), and a body
      of one byte is too short for the version field.  A version other
      than 4 exits with status 1.  Otherwise the floor becomes the FDE's
      own timestamp, the slave id its server id, and the master id the
      server id read at offset + length into a zeroed buffer. */
  function Bootstrap(file: seq<Byte>, s: Settings): Boot
  {
    var v := Look(file, ReaderOf(s.(enforceServerId := false)), FdeOffset);
    if ReadCode(v) < 0 then BootFailed(Returned(-1))
    else
      var h := HeaderAt(file, FdeOffset);
      var body := if v == Accepted then Some(BodyAfterRead(file, FdeOffset + EventHeaderSize, h.length - EventHeaderSize))
                  else None;
      BootFrom(file, h, body)
  }

  /** The rest of read_fde once the header `h` at offset 4 has been read
      with `body` (None where the buffer holds NULL). */
  function BootFrom(file: seq<Byte>, h: Header, body: Option<seq<Byte>>): Boot
  {
    if body.None? || |body.value| < 2 then BootFailed(Undefined)
    else if Field(body.value, 0, 2) != BinlogVersion then BootFailed(Exited(1))
    else Learned(h.serverId, HeaderAfterRead(file, FdeOffset + h.length, ZeroHeader).serverId, h.timestamp)
  }

  /** read_fde reads with enforcement off whatever the setting. */
  lemma BootstrapIgnoresEnforcement(file: seq<Byte>, s: Settings)
    ensures Bootstrap(file, s.(enforceServerId := false)) == Bootstrap(file, s)
  {
    assert s.(enforceServerId := false).(enforceServerId := false) == s.(enforceServerId := false);
  }

  function BootOutcome(b: Boot): Outcome
  {
    match b
    case BootFailed(out) => out
    case Learned(_, _, _) => Returned(0)
  }

  /** The globals after read_fde: a failed first read returns before the
      enforcement switch is put back, so it stays off. */
  function AfterFde(s: Settings, b: Boot): Settings
  {
    match b
    case Learned(slave, master, minTs) =>
      s.(slaveServerId := slave, masterServerId := master, minTimestamp := minTs)
    case BootFailed(out) =>
      if out == Returned(-1) then s.(enforceServerId := false) else s
  }

  /** What a successful read_fde has checked and learned: an accepted FDE
      at offset 4 whose timestamp lies in the window it was read with and
      becomes the floor exactly, with no allowance; the slave id is its
      server id; the master id is that of the event after it when that
      header lies in the file, and 0 when the file ends there. */
  lemma BootstrapLearns(file: seq<Byte>, s: Settings)
    requires Bootstrap(file, s).Learned?
    ensures FdeOffset + EventHeaderSize <= |file|
    ensures var b := Bootstrap(file, s);
            var h := HeaderAt(file, FdeOffset);
            && EventHeaderSize + 2 <= h.length
            && Field(BodyAfterRead(file, FdeOffset + EventHeaderSize, h.length - EventHeaderSize), 0, 2) == BinlogVersion
            && s.minTimestamp <= h.timestamp <= s.maxTimestamp
            && b.minTimestamp == h.timestamp
            && b.slave == h.serverId
            && (FdeOffset + h.length + EventHeaderSize <= |file| ==>
                  b.master == HeaderAt(file, FdeOffset + h.length).serverId)
            && (FdeOffset + h.length >= |file| ==> b.master == 0)
  {
  }

  /** The ways read_fde fails: -1 exactly when the file is shorter than the
      magic number and one header; undefined behaviour when the FDE is
      rejected, with enforcement off; and a process exit only on a version
      other than 4. */
  lemma BootstrapFails(file: seq<Byte>, s: Settings)
    ensures Bootstrap(file, s) == BootFailed(Returned(-1)) <==> |file| < FdeOffset + EventHeaderSize
    ensures FdeOffset + EventHeaderSize <= |file|
            && !Plausible(HeaderAt(file, FdeOffset), CliPolicy(s.(enforceServerId := false)))
            ==> Bootstrap(file, s) == BootFailed(Undefined)
    ensures Bootstrap(file, s).BootFailed? && Bootstrap(file, s).outcome.Exited? ==>
              Bootstrap(file, s).outcome == Exited(1)
  {
  }

  /** read_fde exits with status 1 exactly when it reads a whole FDE header
      that passes the check with enforcement off, with a body long enough
      for the version field, and that field is not 4. */
  lemma BootstrapRejectsVersion(file: seq<Byte>, s: Settings)
    ensures Bootstrap(file, s) == BootFailed(Exited(1))
            <==> (&& FdeOffset + EventHeaderSize <= |file|
                  && var h := HeaderAt(file, FdeOffset);
                     && Plausible(h, CliPolicy(s.(enforceServerId := false)))
                     && EventHeaderSize + 2 <= h.length
                     && Field(BodyAfterRead(file, FdeOffset + EventHeaderSize, h.length - EventHeaderSize), 0, 2)
                        != BinlogVersion)
  {
  }

  // ---------------------------------------------------------------------
  // nearest_time's return value.

  /** The conversion of an off64_t to the int nearest_time returns: the low
      32 bits as a two's-complement value. */
  function ToInt(x: int): (r: int)
    ensures -0x8000_0000 <= r < 0x8000_0000
    ensures -0x8000_0000 <= x < 0x8000_0000 ==> r == x
    ensures (r - x) % 0x1_0000_0000 == 0
  {
    (x + 0x8000_0000) % 0x1_0000_0000 - 0x8000_0000
  }

  /** As written, an event found at offset 2^31 or beyond in a file over
      2 GiB comes back negative: at 2^31 it reads as -2^31, which main
      takes for a failed search. */
  lemma NearestTimeTruncates()
    ensures ToInt(0x8000_0000) == -0x8000_0000
    ensures ToInt(0x1_0000_0000 - 2) == -2
  {
  }

  /** In a file under 2 GiB the conversion changes nothing, so nearest_time
      returns the search's own result. */
  lemma NearestTimeFitsInt(file: seq<Byte>, s: Settings, target: int)
    requires |file| < 0x8000_0000
    ensures ToInt(Scan.NearestTime(file, ReaderOf(s), target)) == Scan.NearestTime(file, ReaderOf(s), target)
  {
    NearestTimeOutcome(file, ReaderOf(s), target);
  }

  // ---------------------------------------------------------------------
  // main's exit status and follow-on loop.

  /** main's exit status after the search, as written: -2 sets 2, and the
      test for any negative offset that follows sets 1 over it, so both
      failures exit 1. */
  method ExitStatusAsWritten(offset: int) returns (status: int)
    ensures status == (if offset < 0 then 1 else 0)
  {
    status := 0;
    if offset == -2 {
      status := 2;
    }
    if offset < 0 {
      status := 1;
    }
  }

  /** The exit status as evidently intended: 2 when no record was found,
      1 on a read error, 0 otherwise. */
  function ExitStatus(offset: int): (status: int)
    ensures status == 2 <==> offset == -2
    ensures status == 1 <==> offset < 0 && offset != -2
    ensures status == 0 <==> offset >= 0
  {
    if offset == -2 then 2 else if offset < 0 then 1 else 0
  }

  /** The status as written differs from the intended one exactly when
      nothing was found. */
  lemma ExitStatusOverwritten(offset: int)
    ensures (if offset < 0 then 1 else 0) != ExitStatus(offset) <==> offset == -2
  {
  }

  /** The follow-on loop's cursor: main's offset and the header in evbuf,
      which was read at that offset. */
  datatype Cursor = Cursor(at: int, header: Header)

  /** next_after: chain by the length field, never by next_position. */
  function NextAfter(c: Cursor): (n: int)
    ensures c.at >= 0 ==> n >= c.at
    ensures c.header.length >= EventHeaderSize ==> n >= c.at + EventHeaderSize
  {
    c.at + c.header.length
  }

  /** The loop condition as written. */
  predicate Continues(file: seq<Byte>, c: Cursor, shown: int, numToShow: int)
  {
    shown < numToShow && c.at > 0 && c.header.nextPosition != c.at && c.header.nextPosition < |file|
  }

  /** One pass as written: move to next_after, zero the buffer, read there
      (its result is ignored: a read at or past the end of the file leaves
      the zeroed header, and a short read leaves the bytes it delivered over
      it). */
  function FollowStep(file: seq<Byte>, c: Cursor): (c1: Cursor)
    requires c.at >= 0 && WellFormed(c.header)
    ensures c1.at == NextAfter(c) && WellFormed(c1.header)
    ensures c1.at + EventHeaderSize <= |file| ==> c1.header == HeaderAt(file, c1.at)
    ensures c1.at >= |file| ==> c1.header == ZeroHeader
    ensures c1.at < |file| < c1.at + EventHeaderSize ==> c1.header == HeaderAfterRead(file, c1.at, ZeroHeader)
  {
    var n := NextAfter(c);
    Cursor(n, HeaderAfterRead(file, n, ZeroHeader))
  }

  /** As written, with -a all (shown stays 1 below 2) the loop never ends
      once an event reaches exactly to the end of the file while its
      next_position is below the file size and not its own offset: the next
      read, at the end of the file, fails and leaves a zeroed header, whose
      length 0 keeps the cursor where it is while the condition still
      holds. */
  lemma FollowOnStallsAtEnd(file: seq<Byte>, c: Cursor)
    requires 0 < c.at && WellFormed(c.header) && NextAfter(c) == |file|
    requires c.header.nextPosition != c.at && c.header.nextPosition < |file|
    ensures Continues(file, c, 1, 2)
    ensures var c1 := FollowStep(file, c);
            && c1 == Cursor(|file|, ZeroHeader)
            && Continues(file, c1, 1, 2)
            && FollowStep(file, c1) == c1
  {
  }

  /** The loop condition as evidently intended: also stop once the header
      at the cursor could not be read whole, or claims less than a header's
      length, so that every pass moves at least 19 bytes forward. */
  predicate ContinuesChecked(file: seq<Byte>, c: Cursor, shown: int, numToShow: int)
  {
    Continues(file, c, shown, numToShow) && c.at + EventHeaderSize <= |file| && c.header.length >= EventHeaderSize
  }

  /** The offsets main prints after the first event, with the corrected
      condition; without -a all each pass counts towards num_to_show. */
  function Followed(file: seq<Byte>, c: Cursor, shown: int, numToShow: int, showAll: bool): seq<int>
    requires c.at >= 0 && WellFormed(c.header)
    decreases |file| - c.at
  {
    if !ContinuesChecked(file, c, shown, numToShow) then []
    else
      var c1 := FollowStep(file, c);
      [c1.at] + Followed(file, c1, if showAll then shown else shown + 1, numToShow, showAll)
  }

  /** The corrected loop ends: each printed offset is at least a header
      past the one before it (the first past the start), at most one lies
      at or past the point where no further header fits, and without -a all
      no more than num_to_show - shown are printed. */
  lemma {:induction false} FollowedBounds(file: seq<Byte>, c: Cursor, shown: int, numToShow: int, showAll: bool)
    requires c.at >= 0 && WellFormed(c.header)
    decreases |file| - c.at
    ensures var p := Followed(file, c, shown, numToShow, showAll);
            && (p != [] ==> c.at + EventHeaderSize <= p[0])
            && (forall i :: 0 < i < |p| ==> p[i - 1] + EventHeaderSize <= p[i])
            && (forall i :: 0 <= i < |p| - 1 ==> p[i] + EventHeaderSize <= |file|)
            && (!showAll ==> |p| <= if numToShow > shown then numToShow - shown else 0)
  {
    if ContinuesChecked(file, c, shown, numToShow) {
      var c1 := FollowStep(file, c);
      var shown1 := if showAll then shown else shown + 1;
      FollowedBounds(file, c1, shown1, numToShow, showAll);
      var rest := Followed(file, c1, shown1, numToShow, showAll);
      var p := [c1.at] + rest;
      assert Followed(file, c, shown, numToShow, showAll) == p;
      assert rest != [] ==> ContinuesChecked(file, c1, shown1, numToShow);
      forall i | 0 < i < |p|
        ensures p[i - 1] + EventHeaderSize <= p[i]
      {
        if i > 1 {
          assert p[i] == rest[i - 1] && p[i - 1] == rest[i - 2];
        }
      }
    }
  }

  /** An event buffer holding the event at `at` as read_event leaves it:
      its header, its offset, and a body of length - 19 bytes read from
      after the header (zero where the file ends first). */
  ghost predicate Holds(file: seq<Byte>, e: Events.Event, at: int)
    reads e, e.data
  {
    && 0 <= at && at + EventHeaderSize <= |file|
    && e.header == HeaderAt(file, at) && e.offset == at
    && e.data != null && e.header.length >= EventHeaderSize
    && e.data[..] == BodyAfterRead(file, at + EventHeaderSize, e.header.length - EventHeaderSize)
  }

  lemma AppendOne(a: seq<int>, x: int, b: seq<int>)
    ensures a + ([x] + b) == (a + [x]) + b
  {
  }

  /** A buffer as reset_event leaves it. */
  ghost predicate Zeroed(e: Events.Event)
    reads e
  {
    e.header == ZeroHeader && e.offset == 0 && e.data == null
  }

  /** The event nearest_time leaves behind for a search ending in `found`:
      the event there when a round found it, a zeroed one when the search
      ran off the end of the file or made no round (the file is under 12
      bytes and `found` is 0). */
  ghost predicate Probed(file: seq<Byte>, e: Events.Event, found: int)
    reads e, e.data
  {
    && (found >= 0 && |file| / 4 > 2 ==> Holds(file, e, found))
    && (found < 0 || |file| / 4 <= 2 ==> Zeroed(e))
  }

  /** The program's globals over one open binlog. */
  class Globals {
    /** The bytes of the file; its length is stbuf.st_size. */
    const file: seq<Byte>
    var minTimestamp: int
    var maxTimestamp: int
    var slaveServerId: nat
    var masterServerId: nat
    var enforceServerId: bool

    function State(): Settings
      reads this
    {
      Settings(minTimestamp, maxTimestamp, slaveServerId, masterServerId, enforceServerId)
    }

    /** The globals as main sets them before read_fde. */
    constructor (file: seq<Byte>, now: int, enforce: bool)
      ensures this.file == file && State() == Startup(now, enforce)
    {
      this.file := file;
      minTimestamp := 0;
      maxTimestamp := now;
      slaveServerId := 0;
      masterServerId := 0;
      enforceServerId := enforce;
    }

    /** read_event: -1 for a failed seek or a short header, else 0; the
        header read is in the buffer with its offset, and only an accepted
        header gets a body, read with no check against the end of the file. */
    method ReadEvent(at: int, evbuf: Event) returns (code: int, ghost v: Verdict)
      requires evbuf.Valid()
      modifies evbuf
      ensures v == Look(file, ReaderOf(State()), at) && code == ReadCode(v) && v != Overruns
      ensures at < 0 ==> unchanged(evbuf)
      ensures at >= 0 ==> evbuf.header == HeaderAfterRead(file, at, old(evbuf.header)) && evbuf.offset == at
      ensures evbuf.Valid()
      ensures at >= 0 ==> (evbuf.data != null <==> v == Accepted)
      ensures at >= 0 && evbuf.data != null ==>
                fresh(evbuf.data)
                && evbuf.data[..] == BodyAfterRead(file, at + EventHeaderSize, evbuf.header.length - EventHeaderSize)
    {
      v := Look(file, ReaderOf(State()), at);
      if at < 0 {
        code := -1;
      } else {
        var got := evbuf.ReadHeader(file, at);
        if got != EventHeaderSize {
          code := -1;
        } else {
          assert evbuf.header == HeaderAt(file, at);
          if Plausible(evbuf.header, CliPolicy(State())) {
            var body := ReadBody(file, at + EventHeaderSize, evbuf.header.length - EventHeaderSize);
            evbuf.data := body;
          }
          code := 0;
        }
      }
    }

    /** One pass of nearest_offset's loop: reset the scratch event, read at
        `at`, and when the header passes check_event copy it out. */
    method ProbeAt(at: int, evbuf: Event, outbuf: Event?) returns (code: int, hit: bool)
      requires 0 <= at && evbuf != outbuf && (outbuf != null ==> outbuf.Valid())
      modifies evbuf, outbuf
      ensures var v := Look(file, ReaderOf(State()), at);
              code == ReadCode(v) && (hit <==> v == Accepted)
      ensures evbuf.Valid()
      ensures outbuf != null && !hit ==> unchanged(outbuf)
      ensures outbuf != null && hit ==> outbuf.Valid() && Holds(file, outbuf, at) && fresh(outbuf.data)
    {
      evbuf.Reset();
      var c, _ := ReadEvent(at, evbuf);
      code := c;
      hit := code >= 0 && Plausible(evbuf.header, CliPolicy(State()));
      if hit && outbuf != null {
        var _ := outbuf.CopyFrom(evbuf);
      }
    }

    /** nearest_offset: the probe's result (102400 tries), and on success a
        copy of the accepted event in `outbuf` when one is given. */
    method NearestOffset(start: int, outbuf: Event?, direction: int) returns (r: int)
      requires outbuf != null ==> outbuf.Valid()
      modifies outbuf
      ensures r == Scan.NearestOffset(file, ReaderOf(State()), start, direction, 0)
      ensures outbuf != null && r < 0 ==> unchanged(outbuf)
      ensures outbuf != null && r >= 0 ==> outbuf.Valid() && Holds(file, outbuf, r) && fresh(outbuf.data)
    {
      var retries: nat := 0;
      var at := start;
      var evbuf := new Event();
      while retries < MaxRetries && at >= 0 && at <= |file| - EventHeaderSize
        invariant Scan.NearestOffset(file, ReaderOf(State()), at, direction, retries)
                  == Scan.NearestOffset(file, ReaderOf(State()), start, direction, 0)
        invariant fresh(evbuf) && evbuf.Valid()
        invariant outbuf != null ==> unchanged(outbuf)
        decreases MaxRetries - retries
      {
        NearestOffsetStep(file, ReaderOf(State()), at, direction, retries);
        var code, hit := ProbeAt(at, evbuf, outbuf);
        if code < 0 {
          // ybinlogp.c returns -1 here.  This read_event has no overrun
          // check, and within [0, st_size - 19] a header is always read
          // whole, so only a failed lseek or read(2) could bring the code
          // below zero; those I/O errors are not modelled.
          assert false;
        }
        if hit {
          evbuf.Dispose();
          return at;
        }
        at := at + direction;
        retries := retries + 1;
      }
      NearestOffsetStep(file, ReaderOf(State()), at, direction, retries);
      evbuf.Dispose();
      r := -2;
    }

    /** nearest_time: the halving search's result converted to int; unless
        a probe failed with -1, the last event probed is copied to `outbuf`,
        which is a zeroed event when the search ran off the end of the file
        or made no round at all. */
    method NearestTime(target: int, outbuf: Event?) returns (r: int)
      requires outbuf != null ==> outbuf.Valid()
      modifies outbuf
      ensures var found := Scan.NearestTime(file, ReaderOf(State()), target);
              && r == ToInt(found)
              && (outbuf != null && found == -1 ==> unchanged(outbuf))
              && (outbuf != null && found != -1 ==> outbuf.Valid() && Probed(file, outbuf, found))
    {
      var found, evbuf := TimeSearchLoop(target);
      if found == -1 {
        return -1;
      }
      if outbuf != null {
        var _ := outbuf.CopyFrom(evbuf);
      }
      evbuf.Dispose();
      r := ToInt(found);
    }

    /** The loop of nearest_time: the search's result, and the scratch
        event as the loop leaves it. */
    method TimeSearchLoop(target: int) returns (lastFound: int, evbuf: Event)
      ensures lastFound == Scan.NearestTime(file, ReaderOf(State()), target)
      ensures fresh(evbuf) && evbuf.Valid() && Probed(file, evbuf, lastFound)
    {
      ghost var sc := ScannerOf(file, ReaderOf(State()));
      evbuf := new Event();
      var at := |file| / 2;
      var increment := |file| / 4;
      var direction := 1;
      lastFound := 0;
      ghost var probed := false;
      while increment > 2
        invariant direction == 1 || direction == -1
        invariant TimeSearch(sc, StampOf(file), target, at, increment, direction, lastFound).result
                  == Scan.NearestTime(file, ReaderOf(State()), target)
        invariant fresh(evbuf) && evbuf.Valid()
        invariant !probed ==> increment == |file| / 4 && lastFound == 0 && Zeroed(evbuf)
        invariant probed ==> lastFound >= 0 && Holds(file, evbuf, lastFound)
        decreases increment
      {
        evbuf.Reset();
        var found := NearestOffset(at, evbuf, direction);
        TimeSearchRound(sc, StampOf(file), target, at, increment, direction, lastFound, found);
        if found < 0 {
          lastFound := found;
          break;
        }
        assert StampOf(file)(found) == evbuf.header.timestamp;
        lastFound := found;
        probed := true;
        var delta := evbuf.header.timestamp - target;
        if delta > 0 {
          direction := -1;
        } else if delta < 0 {
          direction := 1;
        }
        if delta == 0 {
          break;
        }
        at := Moved(at, increment, direction);
        increment := increment / 2;
      }
    }

    /** read_fde: the bootstrap's outcome and the globals it leaves. */
    method ReadFde() returns (out: Outcome)
      modifies this`enforceServerId, this`minTimestamp, this`slaveServerId, this`masterServerId
      ensures out == BootOutcome(Bootstrap(file, old(State())))
      ensures State() == AfterFde(old(State()), Bootstrap(file, old(State())))
    {
      ghost var s0 := State();
      var evbuf := new Event();
      var oldEsi := enforceServerId;
      enforceServerId := false;
      BootstrapIgnoresEnforcement(file, s0);
      var code := ReadFdeEvent(evbuf);
      if code < 0 {
        out := Returned(-1);
      } else {
        enforceServerId := oldEsi;
        ghost var b := BootFrom(file, evbuf.header, evbuf.Body());
        assert b.BootFailed? ==> b.outcome != Returned(-1);
        out := Examine(evbuf);
      }
    }

    /** The first read of read_fde, made with enforcement off: it fails
        exactly when the bootstrap returns -1, and otherwise leaves in
        `evbuf` what the rest of the bootstrap works from. */
    method ReadFdeEvent(evbuf: Event) returns (code: int)
      requires evbuf.Valid() && !enforceServerId
      modifies evbuf
      ensures evbuf.Valid()
      ensures code < 0 <==> Bootstrap(file, State()) == BootFailed(Returned(-1))
      ensures code >= 0 ==> evbuf.offset == FdeOffset && Bootstrap(file, State()) == BootFrom(file, evbuf.header, evbuf.Body())
    {
      var c, v := ReadEvent(FdeOffset, evbuf);
      code := c;
      if code >= 0 {
        assert evbuf.header == HeaderAt(file, FdeOffset);
        assert evbuf.Body() == if v == Accepted then Some(BodyAfterRead(file, FdeOffset + EventHeaderSize, evbuf.header.length - EventHeaderSize))
                               else None;
      }
    }

    /** The rest of read_fde from the FDE in `evbuf`: check the version and,
        when it is 4, learn from it and from the event after it. */
    method Examine(evbuf: Event) returns (out: Outcome)
      requires evbuf.Valid() && evbuf.offset == FdeOffset
      modifies this`minTimestamp, this`slaveServerId, this`masterServerId, evbuf
      ensures var b := BootFrom(file, old(evbuf.header), old(evbuf.Body()));
              && out == BootOutcome(b)
              && (b.Learned? ==> minTimestamp == b.minTimestamp && slaveServerId == b.slave && masterServerId == b.master)
              && (!b.Learned? ==> minTimestamp == old(minTimestamp) && slaveServerId == old(slaveServerId)
                                  && masterServerId == old(masterServerId))
    {
      if evbuf.data == null || evbuf.data.Length < 2 {
        out := Undefined;
      } else {
        var version := Field(evbuf.data[..], 0, 2);
        if version != BinlogVersion {
          out := Exited(1);
        } else {
          Learn(evbuf);
          out := Returned(0);
        }
      }
    }

    /** The learning half of read_fde, from the FDE in `evbuf`: the floor and
        the slave id from it, the master id from the event after it. */
    method Learn(evbuf: Event)
      requires evbuf.Valid() && evbuf.offset == FdeOffset
      modifies this`minTimestamp, this`slaveServerId, this`masterServerId, evbuf
      ensures minTimestamp == old(evbuf.header).timestamp && slaveServerId == old(evbuf.header).serverId
      ensures masterServerId == HeaderAfterRead(file, FdeOffset + old(evbuf.header).length, ZeroHeader).serverId
    {
      minTimestamp := evbuf.header.timestamp;
      slaveServerId := evbuf.header.serverId;
      var offset := NextAfter(Cursor(evbuf.offset, evbuf.header));
      evbuf.Reset();
      var _, _ := ReadEvent(offset, evbuf);
      masterServerId := evbuf.header.serverId;
    }

    /** main's follow-on loop with the corrected condition: from the event
        the search left in `evbuf`, step by length and print each event
        read; returns the offsets printed. */
    method FollowOn(evbuf: Event, numToShow: int, showAll: bool) returns (printed: seq<int>)
      requires evbuf.Valid() && evbuf.offset >= 0
      modifies evbuf
      ensures printed == Followed(file, Cursor(old(evbuf.offset), old(evbuf.header)), 1, numToShow, showAll)
    {
      ghost var c0 := Cursor(evbuf.offset, evbuf.header);
      var shown := 1;
      var offset := evbuf.offset;
      printed := [];
      while shown < numToShow && offset > 0 && evbuf.header.nextPosition != evbuf.offset
            && evbuf.header.nextPosition < |file|
            && offset + EventHeaderSize <= |file| && evbuf.header.length >= EventHeaderSize
        invariant evbuf.Valid() && evbuf.offset == offset >= 0
        invariant printed + Followed(file, Cursor(offset, evbuf.header), shown, numToShow, showAll)
                  == Followed(file, c0, 1, numToShow, showAll)
        decreases |file| - offset
      {
        ghost var c1 := FollowStep(file, Cursor(offset, evbuf.header));
        ghost var shown1 := if showAll then shown else shown + 1;
        ghost var rest := Followed(file, c1, shown1, numToShow, showAll);
        assert Followed(file, Cursor(offset, evbuf.header), shown, numToShow, showAll) == [c1.at] + rest;
        AppendOne(printed, c1.at, rest);
        offset := NextAfter(Cursor(evbuf.offset, evbuf.header));
        evbuf.Reset();
        var _, _ := ReadEvent(offset, evbuf);
        if offset > 0 {
          printed := printed + [offset];
        }
        if !showAll {
          shown := shown + 1;
        }
      }
    }
  }
}
