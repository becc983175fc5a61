/**
 * libybinlogp/ybinlogp-private.h: the name tables, the payload-size table
 * of the query status variables, and the offset/length arithmetic that
 * locates the parts of a query or rotate body.
 */
module YbinlogpPrivate {
  import opened Opt
  import opened Wire
  import Validator

  // ---------------------------------------------------------------------
  // Name tables.

  const EventTypes: seq<string> := [
    "UNKNOWN_EVENT", "START_EVENT_V3", "QUERY_EVENT", "STOP_EVENT", "ROTATE_EVENT",
    "INTVAR_EVENT", "LOAD_EVENT", "SLAVE_EVENT", "CREATE_FILE_EVENT", "APPEND_BLOCK_EVENT",
    "EXEC_LOAD_EVENT", "DELETE_FILE_EVENT", "NEW_LOAD_EVENT", "RAND_EVENT", "USER_VAR_EVENT",
    "FORMAT_DESCRIPTION_EVENT", "XID_EVENT", "BEGIN_LOAD_QUERY_EVENT", "EXECUTE_LOAD_QUERY_EVENT",
    "TABLE_MAP_EVENT", "PRE_GA_WRITE_ROWS_EVENT", "PRE_GA_DELETE_ROWS_EVENT", "WRITE_ROWS_EVENT",
    "UPDATE_ROWS_EVENT", "DELETE_ROWS_EVENT", "INCIDENT_EVENT", "HEARTBEAT_LOG_EVENT"]

  const VariableTypes: seq<string> := [
    "Q_FLAGS2_CODE", "Q_SQL_MODE_CODE", "Q_CATALOG_CODE", "Q_AUTO_INCREMENT", "Q_CHARSET_CODE",
    "Q_TIME_ZONE_CODE", "Q_CATALOG_NZ_CODE", "Q_LC_TIME_NAMES_CODE", "Q_CHARSET_DATABASE_CODE",
    "Q_TABLE_MAP_FOR_UPDATE_CODE"]

  const IntvarTypes: seq<string> := ["", "LAST_INSERT_ID_EVENT", "INSERT_ID_EVENT"]

  const Flags: seq<string> := [
    "LOG_EVENT_BINLOG_IN_USE", "LOG_EVENT_FORCED_ROTATE", "LOG_EVENT_THREAD_SPECIFIC",
    "LOG_EVENT_SUPPRESS_USE", "LOG_EVENT_UPDATE_TABLE_MAP_VERSION", "LOG_EVENT_ARTIFICIAL",
    "LOG_EVENT_RELAY_LOG", "", "", "", "", "", "", "", "", ""]

  const StatusVarTypes: seq<string> := VariableTypes

  /** The name of a type code; the table is indexed without a bounds check,
      so the caller must keep the code below 27. */
  function EventTypeName(typeCode: nat): (name: string)
    requires typeCode < |EventTypes|
    ensures name == EventTypes[typeCode]
  {
    EventTypes[typeCode]
  }

  /** Every code the acceptance predicate lets through names an entry of the
      27-entry table; code 0 names UNKNOWN_EVENT and is never accepted. */
  lemma AcceptedCodesAreNamed(h: Header, p: Validator.Policy)
    requires Validator.Plausible(h, p)
    ensures |EventTypes| == Validator.MaxTypeCode
    ensures 1 <= h.typeCode < |EventTypes|
    ensures EventTypeName(h.typeCode) != "UNKNOWN_EVENT"
  {
  }

  /** Sizes of the tables: 27 event types, 10 status-variable names in both
      tables, 3 intvar kinds and 16 header flag bits. */
  lemma TableSizes()
    ensures |EventTypes| == 27 && |VariableTypes| == 10 && |StatusVarTypes| == 10
    ensures |IntvarTypes| == 3 && |Flags| == 16
    ensures forall c :: 0 <= c < |EventTypes| && EventTypes[c] == "FORMAT_DESCRIPTION_EVENT"
              ==> c == FormatDescriptionEvent
  {
  }

  // ---------------------------------------------------------------------
  // Status variables.

  const QFlags2Code: nat := 0
  const QSqlModeCode: nat := 1
  const QCatalogCode: nat := 2
  const QAutoIncrement: nat := 3
  const QCharsetCode: nat := 4
  const QTimeZoneCode: nat := 5
  const QCatalogNzCode: nat := 6
  const QLcTimeNamesCode: nat := 7
  const QCharsetDatabaseCode: nat := 8
  const QTableMapForUpdateCode: nat := 9

  /** ybpi_status_var_data_len_by_type: a fixed payload size, or -1 for
      "a length byte, then that many bytes", or -2 for "a length byte that
      undercounts by one". */
  const StatusVarDataLen: seq<int> := [4, 8, -2, 4, 6, -1, -1, 2, 2, 8]

  /** The table's meaning: seven fixed payloads and three length-prefixed ones. */
  lemma StatusVarDataLenShape()
    ensures |StatusVarDataLen| == |VariableTypes|
    ensures forall c :: c in {0, 1, 3, 4, 7, 8, 9} ==> StatusVarDataLen[c] > 0
    ensures StatusVarDataLen[QCatalogCode] == -2
    ensures StatusVarDataLen[QTimeZoneCode] == -1 && StatusVarDataLen[QCatalogNzCode] == -1
  {
  }

  // ---------------------------------------------------------------------
  // Query body arithmetic: status variables right after the 13-byte fixed
  // header, then db_name_len bytes of name and a NUL, then the statement.

  const SizeT: nat := 0x1_0000_0000_0000_0000

  function StatusVarsAt(): nat { QueryHeaderSize }

  function DbNameAt(q: QueryHeader): (at: nat)
    ensures at == StatusVarsAt() + q.statusVarLen
  {
    QueryHeaderSize + q.statusVarLen
  }

  function StatementAt(q: QueryHeader): (at: nat)
    ensures at == DbNameAt(q) + q.dbNameLen + 1
  {
    QueryHeaderSize + q.statusVarLen + q.dbNameLen + 1
  }

  /** query_event_statement_len as written: the first subtraction is done on
      the 32-bit length, the rest in size_t, with no guard against going
      below zero. */
  function StatementLenAsWritten(length: nat, q: QueryHeader): (n: nat)
    ensures n < SizeT
  {
    (((length - EventHeaderSize) % 0x1_0000_0000) - QueryHeaderSize - q.statusVarLen - q.dbNameLen - 1) % SizeT
  }

  /** The statement length when the fixed header, status variables and
      database name fit in the body, and None when they do not. */
  function StatementLen(bodyLen: nat, q: QueryHeader): (r: Option<nat>)
    ensures r.Some? <==> StatementAt(q) <= bodyLen
    ensures r.Some? ==> StatementAt(q) + r.value == bodyLen
  {
    if StatementAt(q) <= bodyLen then Some(bodyLen - StatementAt(q)) else None
  }

  /** When nothing underflows the unchecked arithmetic agrees with the checked one. */
  lemma StatementLenAgrees(length: nat, q: QueryHeader)
    requires EventHeaderSize <= length < 0x1_0000_0000
    requires StatementLen(length - EventHeaderSize, q).Some?
    ensures StatementLenAsWritten(length, q) == StatementLen(length - EventHeaderSize, q).value
  {
  }

  /** A 40-byte query event (21-byte body) declaring 10 bytes of status
      variables and a 5-byte database name: the unchecked length wraps to
      2^64 - 8 where the checked one reports the malformation. */
  lemma StatementLenUnderflows()
    ensures StatementLenAsWritten(40, QueryHeader(0, 0, 5, 0, 10)) == SizeT - 8
    ensures StatementLen(40 - EventHeaderSize, QueryHeader(0, 0, 5, 0, 10)) == None
  {
  }

  datatype QueryParts = QueryParts(header: QueryHeader, statusVars: seq<Byte>, dbName: seq<Byte>,
                                   nul: Byte, statement: seq<Byte>)

  /** The parts of a query body located by the macros above, or None when
      the body is too short for its own declared lengths. */
  function SplitQuery(body: seq<Byte>): (r: Option<QueryParts>)
    ensures r.Some? ==> DecodeQueryHeader(body) == Some(r.value.header)
    ensures r.Some? ==> |r.value.statusVars| == r.value.header.statusVarLen
                        && |r.value.dbName| == r.value.header.dbNameLen
    ensures r.None? <==> (DecodeQueryHeader(body).None?
                          || StatementLen(|body|, DecodeQueryHeader(body).value).None?)
  {
    match DecodeQueryHeader(body)
    case None => None
    case Some(q) =>
      match StatementLen(|body|, q)
      case None => None
      case Some(n) =>
        Some(QueryParts(q, body[StatusVarsAt()..DbNameAt(q)], body[DbNameAt(q)..DbNameAt(q) + q.dbNameLen],
                        body[StatementAt(q) - 1], body[StatementAt(q)..]))
  }

  /** Fixed header, status variables, database name, its NUL and the
      statement tile the body exactly. */
  lemma SplitQueryTiles(body: seq<Byte>)
    requires SplitQuery(body).Some?
    ensures var p := SplitQuery(body).value;
            body == EncodeQueryHeader(p.header) + p.statusVars + p.dbName + [p.nul] + p.statement
  {
    var q := DecodeQueryHeader(body).value;
    QueryHeaderBytesRoundTrip(body);
    Tile5(body, QueryHeaderSize, DbNameAt(q), DbNameAt(q) + q.dbNameLen, StatementAt(q));
  }

  /** Five consecutive slices cut at i <= j <= k < l tile the sequence. */
  lemma Tile5(b: seq<Byte>, i: nat, j: nat, k: nat, l: nat)
    requires i <= j <= k && k + 1 == l <= |b|
    ensures b == b[..i] + b[i..j] + b[j..k] + [b[k]] + b[l..]
  {
    assert b[..i] + b[i..j] + b[j..k] + [b[k]] + b[l..] == b[..k] + b[k..];
  }

  // ---------------------------------------------------------------------
  // Rotate body: a u64 next position, then the file name (no NUL) to the end.

  const RotateFileNameAt: nat := 8

  /** rotate_event_file_name_len as written: (size_t)(length - 19 - 8),
      the subtraction done without a guard. */
  function RotateFileNameLenAsWritten(length: nat): (n: nat)
    ensures n < SizeT
  {
    (((length - EventHeaderSize) % 0x1_0000_0000) - RotateFileNameAt) % SizeT
  }

  function RotateFileNameLen(length: nat): (r: Option<nat>)
    ensures r.Some? <==> length >= EventHeaderSize + RotateFileNameAt
    ensures r.Some? ==> EventHeaderSize + RotateFileNameAt + r.value == length
  {
    if length >= EventHeaderSize + RotateFileNameAt then Some(length - EventHeaderSize - RotateFileNameAt)
    else None
  }

  /** A rotate event of length 20, which the newest acceptance predicate
      lets through, makes the unchecked name length wrap to 2^64 - 7. */
  lemma RotateFileNameLenUnderflows()
    ensures RotateFileNameLenAsWritten(20) == SizeT - 7
    ensures RotateFileNameLen(20) == None
  {
  }

  /** The file name of a rotate body and its next position; the name
      occupies exactly the rest of the body. */
  function SplitRotate(length: nat, body: seq<Byte>): (r: Option<(nat, seq<Byte>)>)
    requires |body| + EventHeaderSize == length
    ensures r.Some? <==> |body| >= RotateFileNameAt
    ensures r.Some? ==> r.value.0 < Pow256(8) && body == EncodeLE(r.value.0, 8) + r.value.1
    ensures r.Some? ==> Some(|r.value.1|) == RotateFileNameLen(length)
  {
    match RotateFileNameLen(length)
    case None => None
    case Some(n) =>
      EncodeDecodeLE(body[..8]);
      FieldIsDecode(body, 0, 8);
      assert body == body[..8] + body[8..];
      Some((Field(body, 0, 8), body[RotateFileNameAt..]))
  }
}
