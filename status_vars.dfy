/**
 * The status-variable walk inside ybp_print_event (src/libybinlogp.c):
 * a cursor over the status variables of a query body that reads a code
 * byte, asserts the code is below 10, and skips the code's payload, until
 * the cursor is no longer below status_var_len.  Only the cursor
 * arithmetic is modelled; what the printer writes for each entry is not.
 */
module StatusVars {
  import opened Opt
  import opened Wire
  import opened YbinlogpPrivate

  /** How a walk ends: it passes status_var_len having met `codes` in order
      and stopping at `end`; or the assert on a code byte at `at` fails; or
      the walk reads the byte at `at`, the first one past the end of the
      body it reaches (a code, a length byte or a payload byte). */
  datatype WalkResult =
    | Walked(codes: seq<Byte>, end: nat)
    | AssertFails(at: nat)
    | OutOfBody(at: nat)

  /** The codes whose payload starts with a length byte. */
  predicate HasSizeByte(code: Byte)
  {
    code == QCatalogCode || code == QTimeZoneCode || code == QCatalogNzCode
  }

  /** The longest entry: a catalog name of 255 bytes with its code, length
      byte and NUL. */
  const MaxEntrySize: nat := 258

  /** The bytes the printer's switch moves the cursor over for one entry,
      the code byte included; `size` is the length byte where the code has
      one.  Code 9 has no case of its own and goes through the table. */
  function EntrySize(code: Byte, size: Byte): (n: nat)
    requires code < 10
    ensures 2 <= n <= MaxEntrySize
  {
    if code == QFlags2Code then 1 + 4
    else if code == QSqlModeCode then 1 + 8
    else if code == QCatalogCode then 1 + 1 + size + 1
    else if code == QAutoIncrement then 1 + 2 + 2
    else if code == QCharsetCode then 1 + 2 + 2 + 2
    else if code == QTimeZoneCode || code == QCatalogNzCode then 1 + 1 + size
    else if code == QLcTimeNamesCode || code == QCharsetDatabaseCode then 1 + 2
    else TableEntrySize(code, size)
  }

  /** The default branch: a positive table entry is a fixed payload, -1 a
      length byte and that many bytes, -2 a length byte and one byte more. */
  function TableEntrySize(code: Byte, size: Byte): (n: nat)
    requires code < 10
  {
    var incr := StatusVarDataLen[code];
    if incr > 0 then 1 + incr
    else if incr == -1 then 1 + size + 1
    else 1 + size + 2
  }

  /** The switch and the size table agree on every code below 10, so the
      cases written out skip exactly what the table says. */
  lemma SwitchAgreesWithTable(code: Byte, size: Byte)
    requires code < 10
    ensures EntrySize(code, size) == TableEntrySize(code, size)
    ensures HasSizeByte(code) <==> StatusVarDataLen[code] < 0
  {
    StatusVarDataLenShape();
  }

  /** Whether strndup(p, n), with p at `from`, reads past the body: it reads
      until a NUL byte or n bytes, whichever comes first. */
  function StrndupOverreads(vars: seq<Byte>, from: nat, n: nat): bool
    decreases n
  {
    if n == 0 then false
    else if from >= |vars| then true
    else if vars[from] == 0 then false
    else StrndupOverreads(vars, from + 1, n - 1)
  }

  /** A string that lies in the body is read without passing its end. */
  lemma {:induction false} StrndupInBody(vars: seq<Byte>, from: nat, n: nat)
    requires from + n <= |vars|
    decreases n
    ensures !StrndupOverreads(vars, from, n)
  {
    if n > 0 && vars[from] != 0 {
      StrndupInBody(vars, from + 1, n - 1);
    }
  }

  /** Whether the case for `code` reads a payload byte past the body: the
      written-out cases dereference their whole fixed payload or strndup
      their string (size + 1 bytes for Q_CATALOG_CODE), and the default
      branch, taken by code 9 only, reads nothing after the code. */
  predicate PayloadOverreads(vars: seq<Byte>, at: nat, code: Byte, size: Byte)
    requires code < 10
  {
    if code == QCatalogCode then StrndupOverreads(vars, at + 2, size as int + 1)
    else if HasSizeByte(code) then StrndupOverreads(vars, at + 2, size)
    else if code == QTableMapForUpdateCode then false
    else at + EntrySize(code, 0) > |vars|
  }

  /** `codes` met before a walk that ends in `r`. */
  function Prepend(codes: seq<Byte>, r: WalkResult): (p: WalkResult)
    ensures p.Walked? <==> r.Walked?
    ensures p.Walked? ==> p.codes == codes + r.codes && p.end == r.end
    ensures !p.Walked? ==> p == r
  {
    if r.Walked? then Walked(codes + r.codes, r.end) else r
  }

  lemma PrependTwice(cs: seq<Byte>, ds: seq<Byte>, r: WalkResult)
    ensures Prepend(cs, Prepend(ds, r)) == Prepend(cs + ds, r)
  {
    if r.Walked? {
      assert cs + (ds + r.codes) == (cs + ds) + r.codes;
    }
  }

  /** The walk from cursor `at` over `vars` (the body from the first status
      variable to its end) while the cursor is below `len`, status_var_len. */
  function Walk(vars: seq<Byte>, len: nat, at: nat): (r: WalkResult)
    decreases len - at
  {
    if at >= len then Walked([], at)
    else if at >= |vars| then OutOfBody(at)
    else
      var code := vars[at];
      if code >= 10 then AssertFails(at)
      else if HasSizeByte(code) && at + 1 >= |vars| then OutOfBody(at + 1)
      else
        var size := if HasSizeByte(code) then vars[at + 1] else 0;
        if PayloadOverreads(vars, at, code, size) then OutOfBody(|vars|)
        else Prepend([code], Walk(vars, len, at + EntrySize(code, size)))
  }

  /** A walk that finishes has passed status_var_len by less than one entry,
      met only codes below 10, and at least one code when it began below
      the limit; a failed assert is on a code byte of 10 or more inside the
      status variables; a read past the body is at or after its end, and
      the entries before it lie in the body. */
  lemma {:induction false} WalkBounds(vars: seq<Byte>, len: nat, at: nat)
    decreases len - at
    ensures var r := Walk(vars, len, at);
            && (r.Walked? ==> len <= r.end && (at < len ==> r.end < len + MaxEntrySize && |r.codes| > 0))
            && (r.Walked? ==> forall i :: 0 <= i < |r.codes| ==> r.codes[i] < 10)
            && (r.AssertFails? ==> at <= r.at < len && r.at < |vars| && vars[r.at] >= 10)
            && (r.OutOfBody? ==> at <= r.at && |vars| <= r.at)
  {
    if at < len && at < |vars| && vars[at] < 10 && !(HasSizeByte(vars[at]) && at + 1 >= |vars|) {
      var code := vars[at];
      var size := if HasSizeByte(code) then vars[at + 1] else 0;
      if !PayloadOverreads(vars, at, code, size) {
        WalkBounds(vars, len, at + EntrySize(code, size));
      }
    }
  }

  /** A Q_FLAGS2_CODE entry whose four payload bytes lie past a one-byte
      body is reported as a read past the body, not as a finished walk. */
  lemma FixedPayloadOverread()
    ensures Walk([0], 1, 0) == OutOfBody(1)
  {
  }

  /** The walk of ybp_print_event: from the start of the status variables,
      stepping entry by entry while the cursor is below `len`. */
  method WalkStatusVars(vars: seq<Byte>, len: nat) returns (r: WalkResult)
    ensures r == Walk(vars, len, 0)
  {
    var at: nat := 0;
    var codes: seq<Byte> := [];
    while at < len
      invariant Prepend(codes, Walk(vars, len, at)) == Walk(vars, len, 0)
      decreases len - at
    {
      if at >= |vars| {
        return OutOfBody(at);
      }
      var code := vars[at];
      if code >= 10 {
        return AssertFails(at);
      }
      var size: Byte := 0;
      if HasSizeByte(code) {
        if at + 1 >= |vars| {
          return OutOfBody(at + 1);
        }
        size := vars[at + 1];
      }
      if PayloadOverreads(vars, at, code, size) {
        return OutOfBody(|vars|);
      }
      PrependTwice(codes, [code], Walk(vars, len, at + EntrySize(code, size)));
      codes := codes + [code];
      at := at + EntrySize(code, size);
    }
    r := Walked(codes, at);
  }

  /** The walk over a query body: None where the body is shorter than the
      13-byte fixed header it reads status_var_len from. */
  function QueryStatusVars(body: seq<Byte>): (r: Option<WalkResult>)
    ensures r.None? <==> |body| < QueryHeaderSize
  {
    match DecodeQueryHeader(body)
    case None => None
    case Some(q) => Some(Walk(body[StatusVarsAt()..], q.statusVarLen, 0))
  }

  // ---------------------------------------------------------------------
  // Status variables as written by the server, and the walk over them.

  /** One status variable: its code and the bytes after the code. */
  datatype StatusVar = StatusVar(code: Byte, payload: seq<Byte>)

  /** A well-formed entry: a known code, and a payload as long as the walk
      skips (a length byte first where the code has one). */
  predicate WellFormedVar(v: StatusVar)
  {
    && v.code < 10
    && (if HasSizeByte(v.code) then |v.payload| >= 1 && 1 + |v.payload| == EntrySize(v.code, v.payload[0])
        else 1 + |v.payload| == EntrySize(v.code, 0))
  }

  /** Every entry of `vs` is well formed. */
  predicate AllWellFormed(vs: seq<StatusVar>)
  {
    vs == [] || (WellFormedVar(vs[0]) && AllWellFormed(vs[1..]))
  }

  function EncodeVars(vs: seq<StatusVar>): (b: seq<Byte>)
  {
    if vs == [] then [] else [vs[0].code] + vs[0].payload + EncodeVars(vs[1..])
  }

  function Codes(vs: seq<StatusVar>): (cs: seq<Byte>)
    ensures |cs| == |vs| && forall i :: 0 <= i < |vs| ==> cs[i] == vs[i].code
  {
    if vs == [] then [] else [vs[0].code] + Codes(vs[1..])
  }

  /** Walking well-formed entries that lie at `at` in `vars` and end at
      status_var_len meets each code in order and stops exactly at their
      end, whatever follows. */
  lemma {:induction false} WalkEncoded(vars: seq<Byte>, len: nat, at: nat, vs: seq<StatusVar>)
    requires AllWellFormed(vs)
    requires at + |EncodeVars(vs)| == len <= |vars| && vars[at..len] == EncodeVars(vs)
    decreases |vs|
    ensures Walk(vars, len, at) == Walked(Codes(vs), len)
  {
    if vs != [] {
      var v := vs[0];
      var n := 1 + |v.payload|;
      var tail := EncodeVars(vs[1..]);
      assert EncodeVars(vs) == ([v.code] + v.payload) + tail;
      assert vars[at] == EncodeVars(vs)[0] == v.code;
      if HasSizeByte(v.code) {
        assert vars[at + 1] == EncodeVars(vs)[1] == v.payload[0];
      }
      assert vars[at + n..len] == EncodeVars(vs)[n..] == tail;
      WalkStep(vars, len, at, v);
      WalkEncoded(vars, len, at + n, vs[1..]);
      assert Codes(vs) == [v.code] + Codes(vs[1..]);
    }
  }

  /** One well-formed entry at `at`, below status_var_len: the walk meets
      its code and goes on right after its payload. */
  lemma WalkStep(vars: seq<Byte>, len: nat, at: nat, v: StatusVar)
    requires WellFormedVar(v) && at < len && at + 1 + |v.payload| <= |vars| && vars[at] == v.code
    requires HasSizeByte(v.code) ==> vars[at + 1] == v.payload[0]
    ensures Walk(vars, len, at) == Prepend([v.code], Walk(vars, len, at + 1 + |v.payload|))
  {
    var size := if HasSizeByte(v.code) then vars[at + 1] else 0;
    assert EntrySize(v.code, size) == 1 + |v.payload|;
    if HasSizeByte(v.code) {
      StrndupInBody(vars, at + 2, if v.code == QCatalogCode then size as int + 1 else size as int);
    }
  }

  /** The round trip for a query body's status variables. */
  lemma WalkEncodedVars(vs: seq<StatusVar>, rest: seq<Byte>)
    requires AllWellFormed(vs)
    ensures Walk(EncodeVars(vs) + rest, |EncodeVars(vs)|, 0) == Walked(Codes(vs), |EncodeVars(vs)|)
  {
    var vars := EncodeVars(vs) + rest;
    assert vars[0..|EncodeVars(vs)|] == EncodeVars(vs);
    WalkEncoded(vars, |EncodeVars(vs)|, 0, vs);
  }
}
