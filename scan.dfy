/**
 * What the scanners compute, stated once for every revision: the verdict of
 * reading one header at an offset, the byte-by-byte probe for the nearest
 * plausible header (nearest_offset), and the halving search by timestamp
 * (nearest_time).  The revisions' loops are proved equal to these
 * functions; the properties of the functions are proved here.
 *
 * The file is the byte sequence it held when its size was taken, so the
 * file size of the C code is |file| throughout.
 */
module Scan {
  import opened Wire
  import opened Validator

  /** One reader configuration: its acceptance policy, whether read_event
      refuses an event that runs past the end of the file, and the probe's
      retry budget (MAX_RETRIES). */
  datatype Reader = Reader(policy: Policy, checksOverrun: bool, maxRetries: nat)

  /** How a C routine ends: it returns a value, the process exits with a
      status, or it dereferences memory it does not own. */
  datatype Outcome = Returned(code: int) | Exited(status: int) | Undefined

  /** What one attempt to read an event at an offset ends in. */
  datatype Verdict = SeekFailed | ShortRead | Overruns | Rejected | Accepted

  /** The header whose 19 bytes start at `offset`. */
  function HeaderAt(file: seq<Byte>, offset: nat): (h: Header)
    requires offset + EventHeaderSize <= |file|
    ensures WellFormed(h) && h.typeCode == file[offset + 4]
  {
    HeaderFields(file, offset)
  }

  /** read_event at `offset`: lseek refuses a negative offset, fewer than 19
      bytes before the end is a short header, an event running past the end
      is refused where the reader checks for it, and otherwise the header is
      judged by the acceptance predicate. */
  function Look(file: seq<Byte>, rd: Reader, offset: int): (v: Verdict)
    ensures v == SeekFailed <==> offset < 0
    ensures v == ShortRead <==> 0 <= offset && |file| < offset + EventHeaderSize
    ensures v in {Overruns, Rejected, Accepted} ==> 0 <= offset && offset + EventHeaderSize <= |file|
    ensures v == Overruns <==> (&& rd.checksOverrun && 0 <= offset && offset + EventHeaderSize <= |file|
                                && offset + HeaderAt(file, offset).length > |file|)
    ensures v == Accepted <==> (&& v != SeekFailed && v != ShortRead && v != Overruns
                                && Plausible(HeaderAt(file, offset), rd.policy))
    ensures v == Rejected <==> (&& v != SeekFailed && v != ShortRead && v != Overruns
                                && !Plausible(HeaderAt(file, offset), rd.policy))
  {
    if offset < 0 then SeekFailed
    else if |file| < offset + EventHeaderSize then ShortRead
    else
      var h := HeaderAt(file, offset);
      if rd.checksOverrun && offset + h.length > |file| then Overruns
      else if Plausible(h, rd.policy) then Accepted
      else Rejected
  }

  /** The status read_event returns for a verdict: -1 for a failed seek or
      a short header, -2 for an overrun, 0 when a header was read. */
  function ReadCode(v: Verdict): (code: int)
    ensures code < 0 <==> v in {SeekFailed, ShortRead, Overruns}
    ensures code == -2 <==> v == Overruns
  {
    match v
    case SeekFailed => -1
    case ShortRead => -1
    case Overruns => -2
    case Rejected => 0
    case Accepted => 0
  }

  /** What the probe and the search see of a file: the verdict at every
      offset, the last offset a whole header fits at, and the retry budget. */
  datatype Scanner = Scanner(look: int -> Verdict, last: int, budget: nat)

  /** The scanner of `file` read by `rd`. */
  function ScannerOf(file: seq<Byte>, rd: Reader): (sc: Scanner)
    ensures sc.last == |file| - EventHeaderSize && sc.budget == rd.maxRetries
  {
    Scanner(o => Look(file, rd, o), |file| - EventHeaderSize, rd.maxRetries)
  }

  /** The timestamp of the header at each offset where a whole one fits. */
  function StampOf(file: seq<Byte>): int -> int
  {
    o => if 0 <= o && o + EventHeaderSize <= |file| then HeaderAt(file, o).timestamp else 0
  }

  /** In bounds for a probe: a whole header fits between 0 and the end. */
  predicate InRange(sc: Scanner, offset: int)
  {
    0 <= offset <= sc.last
  }

  /** nearest_offset from `offset` after `retries` steps: the offset of the
      first header accepted while stepping by `direction`, -1 as soon as a
      read fails, -2 once the budget or the file runs out. */
  function Probe(sc: Scanner, offset: int, direction: int, retries: nat): (r: int)
    decreases sc.budget - retries
    ensures r == -1 || r == -2 || (InRange(sc, r) && sc.look(r) == Accepted)
  {
    if retries >= sc.budget || !InRange(sc, offset) then -2
    else
      match sc.look(offset)
      case Accepted => offset
      case Rejected => Probe(sc, offset + direction, direction, retries + 1)
      case _ => -1
  }

  /** nearest_offset on a file: the first accepted offset lies in the file
      and holds a plausible header. */
  function NearestOffset(file: seq<Byte>, rd: Reader, offset: int, direction: int, retries: nat): (r: int)
    ensures r == -1 || r == -2
            || (0 <= r <= |file| - EventHeaderSize && Look(file, rd, r) == Accepted
                && Plausible(HeaderAt(file, r), rd.policy))
  {
    Probe(ScannerOf(file, rd), offset, direction, retries)
  }

  /** One step of nearest_offset on a file: out of budget or out of range
      ends it with -2, a failed read with -1, an accepted header there is
      the result, and a rejected one hands on to the next offset. */
  lemma NearestOffsetStep(file: seq<Byte>, rd: Reader, offset: int, direction: int, retries: nat)
    ensures retries >= rd.maxRetries || offset < 0 || offset > |file| - EventHeaderSize
            ==> NearestOffset(file, rd, offset, direction, retries) == -2
    ensures retries < rd.maxRetries && 0 <= offset <= |file| - EventHeaderSize ==>
              var v := Look(file, rd, offset);
              && (v == Accepted ==> NearestOffset(file, rd, offset, direction, retries) == offset)
              && (ReadCode(v) < 0 ==> NearestOffset(file, rd, offset, direction, retries) == -1)
              && (v == Rejected ==> NearestOffset(file, rd, offset, direction, retries)
                                    == NearestOffset(file, rd, offset + direction, direction, retries + 1))
  {
  }

  /** The offsets nearest_offset reads a header at, in order. */
  function Probes(sc: Scanner, offset: int, direction: int, retries: nat): seq<int>
    decreases sc.budget - retries
  {
    if retries >= sc.budget || !InRange(sc, offset) then []
    else if sc.look(offset) == Rejected then [offset] + Probes(sc, offset + direction, direction, retries + 1)
    else [offset]
  }

  /** Every probe lies in [0, |file| - 19], the first is at `offset` and
      each moves `direction` from the one before; there are no more than the
      budget left; all but the last are rejected. */
  lemma {:induction false} ProbeTrace(sc: Scanner, offset: int, direction: int, retries: nat)
    decreases sc.budget - retries
    ensures var ps := Probes(sc, offset, direction, retries);
            && (ps != [] ==> ps[0] == offset && retries + |ps| <= sc.budget)
            && (forall i :: 0 <= i < |ps| ==> InRange(sc, ps[i]))
            && (forall i :: 0 < i < |ps| ==> ps[i] == ps[i - 1] + direction)
            && (forall i :: 0 <= i < |ps| - 1 ==> sc.look(ps[i]) == Rejected)
  {
    if retries < sc.budget && InRange(sc, offset) && sc.look(offset) == Rejected {
      ProbeTrace(sc, offset + direction, direction, retries + 1);
      var rest := Probes(sc, offset + direction, direction, retries + 1);
      var ps := [offset] + rest;
      assert Probes(sc, offset, direction, retries) == ps;
      forall i | 0 < i < |ps|
        ensures ps[i] == ps[i - 1] + direction
      {
        if i > 1 {
          assert ps[i] == rest[i - 1] && ps[i - 1] == rest[i - 2];
        }
      }
    }
  }

  /** The result is the last probe when that one is accepted, -1 when its
      read failed, and -2 when it was rejected (or no probe was made) and
      the next step is out of budget or out of range. */
  lemma {:induction false} ProbeResult(sc: Scanner, offset: int, direction: int, retries: nat)
    decreases sc.budget - retries
    ensures var ps := Probes(sc, offset, direction, retries);
            var r := Probe(sc, offset, direction, retries);
            && (r >= 0 <==> ps != [] && sc.look(ps[|ps| - 1]) == Accepted)
            && (r >= 0 ==> r == ps[|ps| - 1])
            && (r == -1 <==> ps != [] && ReadCode(sc.look(ps[|ps| - 1])) < 0)
            && (r == -2 <==> ps == [] || sc.look(ps[|ps| - 1]) == Rejected)
            && (r == -2 && ps != [] ==>
                  retries + |ps| == sc.budget || !InRange(sc, ps[|ps| - 1] + direction))
  {
    var ps := Probes(sc, offset, direction, retries);
    if retries < sc.budget && InRange(sc, offset) {
      var v := sc.look(offset);
      if v == Rejected {
        ProbeResult(sc, offset + direction, direction, retries + 1);
        var rest := Probes(sc, offset + direction, direction, retries + 1);
        assert ps == [offset] + rest;
        if rest == [] {
          assert ps[|ps| - 1] == offset;
        } else {
          assert ps[|ps| - 1] == rest[|rest| - 1];
        }
      } else {
        assert ps == [offset];
      }
    }
  }

  /** With every header from x up to e rejected and the one at e accepted,
      a forward probe from x with budget to spare finds e. */
  lemma {:induction false} FindsFirstPlausible(sc: Scanner, x: int, e: int, retries: nat)
    requires 0 <= x <= e <= sc.last
    requires retries + (e - x) < sc.budget
    requires forall o :: x <= o < e ==> sc.look(o) == Rejected
    requires sc.look(e) == Accepted
    ensures Probe(sc, x, 1, retries) == e
    decreases e - x
  {
    if x < e {
      FindsFirstPlausible(sc, x + 1, e, retries + 1);
    }
  }

  /** With every header from x to the last whole-header offset rejected, a
      forward probe from x reports -2, whatever its budget. */
  lemma {:induction false} NothingPlausibleToEnd(sc: Scanner, x: int, retries: nat)
    requires forall o :: x <= o <= sc.last ==> sc.look(o) == Rejected
    ensures Probe(sc, x, 1, retries) == -2
    decreases sc.last - x
  {
    if retries < sc.budget && InRange(sc, x) {
      NothingPlausibleToEnd(sc, x + 1, retries + 1);
    }
  }

  // ---------------------------------------------------------------------
  // The halving search by timestamp.

  /** The next cursor: one step in the direction taken. */
  function Moved(offset: int, increment: int, d: int): int
  {
    offset + increment * d
  }

  /** The direction of the next round after landing on timestamp t: back
      when past the target, forward when before it, unchanged on a hit. */
  function Turn(t: int, target: int, direction: int): (d: int)
    ensures t > target ==> d == -1
    ensures t < target ==> d == 1
    ensures t == target ==> d == direction
  {
    if t > target then -1 else if t < target then 1 else direction
  }

  /** The outcome of a search (-1, -2 or an offset) and the cursors of the
      rounds it made. */
  datatype Search = Search(result: int, cursors: seq<int>)

  /** nearest_time from its loop state: a round probes from `offset` in
      `direction`; -1 returns at once, -2 ends the search with -2, and a hit
      on the target ends it with that offset; otherwise the cursor moves
      `increment` bytes toward the target and the increment halves.  The
      search stops once the increment is 2 or less, with the last found
      offset. */
  function TimeSearch(sc: Scanner, stamp: int -> int, target: int, offset: int, increment: int,
                      direction: int, lastFound: int): (s: Search)
    decreases increment
    ensures s.result == -1 || s.result == -2 || s.result == lastFound
            || (InRange(sc, s.result) && sc.look(s.result) == Accepted)
  {
    if increment <= 2 then Search(lastFound, [])
    else
      var found := Probe(sc, offset, direction, 0);
      if found < 0 then Search(found, [offset])
      else
        var t := stamp(found);
        if t == target then Search(found, [offset])
        else
          var d := Turn(t, target, direction);
          var rest := TimeSearch(sc, stamp, target, Moved(offset, increment, d), increment / 2, d, found);
          Search(rest.result, [offset] + rest.cursors)
  }

  /** One round of the search as a loop takes it: stop on a failed probe
      or an exact hit, else continue from the turned cursor. */
  lemma TimeSearchRound(sc: Scanner, stamp: int -> int, target: int, offset: int, increment: int,
                        direction: int, lastFound: int, found: int)
    requires increment > 2 && found == Probe(sc, offset, direction, 0)
    ensures var s := TimeSearch(sc, stamp, target, offset, increment, direction, lastFound).result;
            && (found < 0 || stamp(found) == target ==> s == found)
            && (found >= 0 && stamp(found) != target ==>
                  var d := Turn(stamp(found), target, direction);
                  s == TimeSearch(sc, stamp, target, Moved(offset, increment, d), increment / 2, d, found).result)
  {
  }

  /** nearest_time on a file: start in the middle with a quarter of the
      file as step. */
  function NearestTime(file: seq<Byte>, rd: Reader, target: int): int
  {
    TimeSearch(ScannerOf(file, rd), StampOf(file), target, |file| / 2, |file| / 4, 1, 0).result
  }

  /** The number of rounds a step of `increment` allows. */
  function Rounds(increment: int): nat
    decreases increment
  {
    if increment <= 2 then 0 else 1 + Rounds(increment / 2)
  }

  /** Every round's cursor lies in [0, size], and the search makes at most
      Rounds(increment) rounds, as long as the cursor starts at least twice
      the step away from either end. */
  lemma {:induction false} CursorsInFile(sc: Scanner, stamp: int -> int, target: int, size: int, offset: int,
                                         increment: int, direction: int, lastFound: int)
    requires direction == 1 || direction == -1
    requires 2 * increment <= offset <= size - 2 * increment
    decreases increment
    ensures var cs := TimeSearch(sc, stamp, target, offset, increment, direction, lastFound).cursors;
            && |cs| <= Rounds(increment)
            && (forall i :: 0 <= i < |cs| ==> 0 <= cs[i] <= size)
  {
    if increment > 2 {
      var found := Probe(sc, offset, direction, 0);
      if found >= 0 && stamp(found) != target {
        var d := Turn(stamp(found), target, direction);
        var next := if d == 1 then offset + increment else offset - increment;
        assert Moved(offset, increment, d) == next;
        assert 2 * (increment / 2) <= increment;
        CursorsInFile(sc, stamp, target, size, next, increment / 2, d, found);
        var rest := TimeSearch(sc, stamp, target, next, increment / 2, d, found);
        assert TimeSearch(sc, stamp, target, offset, increment, direction, lastFound).cursors
               == [offset] + rest.cursors;
      }
    }
  }

  /** nearest_time returns 0 without probing when a quarter of the file is
      2 bytes or less; otherwise it returns -1, -2 or an offset holding an
      accepted header, after at most Rounds(|file| / 4) rounds whose cursors
      all lie in the file, the first in its middle. */
  lemma NearestTimeOutcome(file: seq<Byte>, rd: Reader, target: int)
    ensures var s := TimeSearch(ScannerOf(file, rd), StampOf(file), target, |file| / 2, |file| / 4, 1, 0);
            && (|file| / 4 <= 2 ==> s.result == 0 && s.cursors == [])
            && (|file| / 4 > 2 ==>
                  s.cursors[0] == |file| / 2
                  && (s.result == -1 || s.result == -2
                      || (0 <= s.result <= |file| - EventHeaderSize && Look(file, rd, s.result) == Accepted)))
            && |s.cursors| <= Rounds(|file| / 4)
            && forall i :: 0 <= i < |s.cursors| ==> 0 <= s.cursors[i] <= |file|
  {
    CursorsInFile(ScannerOf(file, rd), StampOf(file), target, |file|, |file| / 2, |file| / 4, 1, 0);
  }
}
