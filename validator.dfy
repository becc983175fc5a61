/**
 * The plausibility test that stands in for a checksum: does a 19-byte
 * header read at an arbitrary offset look like the start of an event?
 * The three revisions of the ybinlogp scanner share its shape and differ
 * only in their constants, so it is stated once over a Policy.
 */
module Validator {
  import opened Wire

  /** type_code must lie strictly between these two (MIN_TYPE_CODE, MAX_TYPE_CODE). */
  const MinTypeCode: nat := 0
  const MaxTypeCode: nat := 27

  /** Inclusive timestamp window, or none at all. */
  datatype Window = Unbounded | Window(lo: int, hi: int)

  datatype Policy = Policy(
    minLength: nat,          // accepted lengths are >= minLength
    maxLength: nat,          // accepted lengths are <  maxLength
    window: Window,
    enforceServerId: bool,
    slaveServerId: int,
    masterServerId: int)

  predicate InWindow(t: int, w: Window)
  {
    match w
    case Unbounded => true
    case Window(lo, hi) => lo <= t <= hi
  }

  predicate ServerIdAllowed(h: Header, p: Policy)
  {
    !p.enforceServerId || h.serverId == p.slaveServerId || h.serverId == p.masterServerId
  }

  predicate Plausible(h: Header, p: Policy)
  {
    && ServerIdAllowed(h, p)
    && MinTypeCode < h.typeCode < MaxTypeCode
    && p.minLength <= h.length < p.maxLength
    && InWindow(h.timestamp, p.window)
  }

  /** An accepted header declares a body of length - 19 bytes that is
      non-negative and bounded by the policy's cap, so the allocation the
      reader makes for it is neither negative nor runaway. */
  lemma AcceptedBodyIsBounded(h: Header, p: Policy)
    requires Plausible(h, p) && p.minLength >= EventHeaderSize
    ensures 0 <= h.length - EventHeaderSize < p.maxLength - EventHeaderSize
  {
  }

  /** With server-id enforcement off the server id is never consulted. */
  lemma ServerIdIgnoredWhenNotEnforced(h: Header, p: Policy, sid: nat)
    requires !p.enforceServerId
    ensures Plausible(h.(serverId := sid), p) == Plausible(h, p)
  {
  }

  /** With no window the timestamp is never consulted. */
  lemma TimestampIgnoredWhenUnbounded(h: Header, p: Policy, t: nat)
    requires p.window == Unbounded
    ensures Plausible(h.(timestamp := t), p) == Plausible(h, p)
  {
  }

  /** A stricter policy accepts no more headers than a looser one. */
  predicate NoLooser(strict: Policy, loose: Policy)
  {
    && loose.minLength <= strict.minLength
    && strict.maxLength <= loose.maxLength
    && (loose.window == Unbounded || (strict.window.Window? && loose.window.lo <= strict.window.lo
                                        && strict.window.hi <= loose.window.hi))
    && (loose.enforceServerId ==>
          strict.enforceServerId
          && {strict.slaveServerId, strict.masterServerId} <= {loose.slaveServerId, loose.masterServerId})
  }

  lemma StricterAcceptsLess(h: Header, strict: Policy, loose: Policy)
    requires NoLooser(strict, loose)
    ensures Plausible(h, strict) ==> Plausible(h, loose)
  {
    if Plausible(h, strict) && loose.enforceServerId {
      assert h.serverId in {strict.slaveServerId, strict.masterServerId};
    }
  }
}
