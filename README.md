# ybinlogp scanning engine, modelled in Dafny

ybinlogp finds events in a MySQL binary log (format version 4) that has no
index. It starts from any byte offset or an approximate timestamp. Every
event starts with a 19-byte little-endian header: timestamp, type code,
server id, length, next position and flags. The engine tests the 19 bytes
at a candidate offset with a plausibility predicate, which stands in for a
checksum. It steps one byte at a time until a header passes (the probe),
and it binary-searches byte offsets by timestamp on top of that probe. It
learns the server ids and a timestamp floor from the format-description
event (FDE) at offset 4. It then walks the log by chaining each event's
offset to its offset plus its length.

The repository holds four revisions of this engine. The model covers each
of them against its own constants:

| revision | module | length bounds | timestamp window | retries |
|---|---|---|---|---|
| binlogp.c | `Binlogp` | 91 < length < 1 GiB | (2010-01-01, clock) strict, server id < 2^31 | 409600 |
| ybinlogp.c | `Ybinlogp` | 19 < length < 10 MiB | [FDE time, clock] | 102400 |
| libybinlogp.c | `Libybinlogp` | 19 < length < 16 MiB | [min_timestamp, clock of each read] | none |
| src/libybinlogp.c | `SrcLibybinlogp` | 19 <= length < 16 MiB | none | 16 Mi |

Shared modules:
- `Wire` holds the packed layouts of ybinlogp.h as field-by-field
  little-endian decoders, each with its encoder and round trips.
- `Validator` holds the acceptance predicate over a `Policy` of constants.
- `Events` holds the event buffer class: header, owned body and offset, with
  reset, copy and dispose, and the byte-level effect of a header read and a
  body read.
- `Scan` holds the verdict of one read, the probe and the halving time search.
  These are functions over an abstract `Scanner`. Their properties are proved
  once and each revision's loops are proved equal to them.
- `YbinlogpPrivate` holds the name tables, the status-variable size table and
  the query/rotate body arithmetic of libybinlogp/ybinlogp-private.h.
- `StatusVars` holds the status-variable cursor walk of `ybp_print_event`.

Modelling conventions:
- The file is a byte sequence. Its length is the file size (`st_size`,
  `file_size`).
- The clock `time(NULL)` is a parameter `now`.
- `exit(1)` is the outcome `Exited(1)`. A dereference of a NULL body is the
  outcome `Undefined`.
- Parser state that the C code keeps in a struct or in globals is a Dafny
  class. Its methods carry `modifies` clauses and are proved against
  specification functions of the old state.

Points where the revisions differ, or where the code does less than its
messages or comments suggest:
- The older revisions check a timestamp window (ybinlogp.c:305-319,
  libybinlogp.c:93-106). src/libybinlogp.c's `ybpi_check_event` consults no
  timestamp (src/libybinlogp.c:169-175), and the model of that revision has
  none.
- ybinlogp.c prints "Could not find any records" and sets status 2, but the
  next test sets 1 (ybinlogp.c:649-655). The model exits 1. See Findings.
- Nothing in `nearest_time` (src/libybinlogp.c:234-276, ybinlogp.c:463-510)
  guarantees landing on the event with the target timestamp, even when
  timestamps increase. The model states what the loop does: the cursors,
  the direction rule, the early stop on an exact match and the result kinds.
- libybinlogp.c's `ybpi_read_fde` reads the event after the FDE into a
  buffer reset by the partial `memset` of libybinlogp.c:65-67. The
  `Libybinlogp` bootstrap and parser use the corrected full reset. The
  reset as written is `Libybinlogp.ResetEventAsWritten`, and the master id
  it yields is `Libybinlogp.StaleMasterIdAsWritten`. See Findings.

## Model

| member | source | states |
|---|---|---|
| Wire.DecodeEncodeLE | ybinlogp.h:37-48 | decoding the n little-endian bytes of a value below 256^n gives that value back |
| Wire.EncodeDecodeLE | ybinlogp.h:37-48 | encoding the value of any byte string at its own width gives the same bytes back |
| Wire.FieldIsDecode | ybinlogp.h:37-48 | a packed field read in place is the little-endian value of its slice |
| Wire.HeaderFields | ybinlogp.h:39-45 | a header read in place has every field within its wire width, and its type code is the byte at offset 4 |
| Wire.HeaderFieldsAreDecode | ybinlogp.h:39-45 | reading a header in place at any offset is decoding the 19-byte slice there |
| Wire.HeaderRoundTrip | ybinlogp.h:37-48 | decode(encode(h)) == h for every header whose fields fit their widths |
| Wire.HeaderBytesRoundTrip | ybinlogp.h:37-48 | encode(decode(b)) == b for every 19 bytes, so the layout is a bijection |
| Wire.DecodeFde | ybinlogp.h:52-58 | an FDE body decodes exactly when it holds the 57 fixed bytes; server_version is 50 bytes and format_version fits a u16 |
| Wire.FdeRoundTrip | ybinlogp.h:52-58 | an encoded FDE followed by any bytes decodes to the same FDE |
| Wire.DecodeQueryHeader | ybinlogp.h:64-73 | a query body decodes exactly when it holds the 13 fixed bytes, and every field fits its width |
| Wire.QueryHeaderRoundTrip | ybinlogp.h:64-73 | an encoded query header followed by any bytes decodes to the same header |
| Wire.QueryHeaderBytesRoundTrip | ybinlogp.h:64-73 | decoding then re-encoding gives back the first 13 bytes of any body long enough |
| Wire.DecodeSmallBody | ybinlogp.h:75-94 | rand, xid, intvar and rotate bodies decode exactly when their type matches and the body holds 16, 8, 9 or 8 bytes |
| Wire.SmallBodyRoundTrip | ybinlogp.h:75-94 | each encoded small body followed by any bytes decodes to the same value |
| Validator.AcceptedBodyIsBounded | src/libybinlogp.c:169-175 | an accepted header's body length, length - 19, is non-negative and below the cap, so the allocation is bounded |
| Validator.ServerIdIgnoredWhenNotEnforced | src/libybinlogp.c:169-171 | with enforcement off, changing the server id never changes acceptance |
| Validator.TimestampIgnoredWhenUnbounded | src/libybinlogp.c:169-175 | without a window, changing the timestamp never changes acceptance |
| Validator.StricterAcceptsLess | ybinlogp.c:305-319 | a policy with tighter bounds and fewer allowed ids accepts only headers a looser one accepts |
| Events.Available | src/libybinlogp.c:292-301 | one read delivers every byte requested inside the file, fewer near its end and none at or past it, each equal to the file byte |
| Events.HeaderAfterRead | src/libybinlogp.c:292-294 | a whole read replaces the header with the file's 19 bytes, a read at or past the end leaves the old header, and the result always fits the wire widths |
| Events.BodyAfterRead | src/libybinlogp.c:311-323 | a filled body has exactly the requested length and equals the file bytes when it lies inside the file |
| Events.ReadBody | src/libybinlogp.c:305-323 | allocates a fresh array of the body length whose contents are what the reads deliver |
| Events.Event.constructor | src/libybinlogp.c:104-115 | a new event has every field zero and no body |
| Events.Event.Reset | src/libybinlogp.c:144-153 | reset drops the body and zeroes every field |
| Events.Event.Dispose | src/libybinlogp.c:117-126 | dispose drops the body and touches nothing else |
| Events.Event.CopyFrom | src/libybinlogp.c:128-142 | the copy has the source's header and offset, and a body of its own, freshly allocated, of length - 19 bytes equal to the source's body |
| Events.Event.ReadHeader | binlogp.c:184-193 | returns how many header bytes were delivered, records the offset and clears the body pointer |
| Scan.HeaderAt | ybinlogp.h:39-45 | the header at an offset fits the wire widths and has the type code found at offset + 4 |
| Scan.Look | src/libybinlogp.c:283-305 | a read fails to seek exactly at negative offsets, is short exactly when 19 bytes do not fit, overruns exactly when the overrun check is on and an in-range header's length passes the end, and otherwise on an in-range header is accepted exactly when the predicate holds and rejected exactly when it fails |
| Scan.ReadCode | src/libybinlogp.c:288-304 | read_event returns a negative code exactly for a failed seek, a short header or an overrun, and -2 exactly for an overrun |
| Scan.Probe | src/libybinlogp.c:200-229 | the probe returns -1, -2, or an offset in range that holds an accepted header |
| Scan.NearestOffset | src/libybinlogp.c:200-229 | on a file, the probe's offset result lies in [0, size - 19] and holds a plausible header |
| Scan.ProbeTrace | src/libybinlogp.c:202-224 | the probed offsets start at the start offset, all lie in range, differ by direction, number at most the budget, and all but the last are rejected |
| Scan.ProbeResult | src/libybinlogp.c:207-228 | the result is the last probed offset exactly when it is accepted, -1 exactly when its read failed, and -2 exactly when the budget or the range ran out |
| Scan.FindsFirstPlausible | src/libybinlogp.c:207-224 | a forward probe with budget to spare returns the first accepted offset after a run of rejected ones |
| Scan.NothingPlausibleToEnd | src/libybinlogp.c:207-228 | a forward probe over rejected headers up to the last whole-header offset returns -2 |
| Scan.Turn | src/libybinlogp.c:255-261 | the search turns back when past the target, forward when before it, and keeps its direction on a hit |
| Scan.TimeSearch | src/libybinlogp.c:242-273 | the search result is -1, -2, the last offset found, or an accepted offset in range |
| Scan.CursorsInFile | src/libybinlogp.c:238-272 | when the cursor starts two steps from both ends, every round's cursor stays in [0, size] and there are at most log2-many rounds |
| Scan.NearestTimeOutcome | src/libybinlogp.c:234-276 | a file whose quarter is at most 2 makes no round and returns 0; otherwise the first cursor is the middle, every cursor lies in the file, and the result is -1, -2 or an accepted offset |
| SrcLibybinlogp.CheckEventMeaning | src/libybinlogp.c:169-175 | accepted iff enforcement is off or the id is the slave's or master's, 0 < type < 27, and 19 <= length < 16 MiB; the timestamp never matters |
| SrcLibybinlogp.UnenforcedLookIgnoresIds | src/libybinlogp.c:343-349 | with enforcement off, the learned server ids make no difference to any read |
| SrcLibybinlogp.BootstrapLearns | src/libybinlogp.c:334-385 | a successful bootstrap read an FDE of version 4 at offset 4 inside the file; the cursor is 4 + its length, the slave id is its id, the master id is that of the next event read into a zeroed buffer (0 when the file ends at the FDE), and the floor is min(FDE timestamp, next timestamp) - 3600, at least an hour below both |
| SrcLibybinlogp.BootstrapRejectsVersion | src/libybinlogp.c:355-360 | the bootstrap exits with status 1 exactly when an accepted, whole FDE of type 15 long enough for the version field has a format_version other than 4 |
| SrcLibybinlogp.BootstrapReadFails | src/libybinlogp.c:349-353 | the bootstrap returns -1 exactly when the FDE header is cut short or the FDE runs past the end of the file |
| SrcLibybinlogp.Advance | src/libybinlogp.c:395-414 | a failed read returns its negative code and keeps the offset; otherwise the offset becomes offset + length and the code is 0 exactly when the new offset is not positive, next_position is the event's own offset, next_position is not before the end, or the new offset is not before the end, and 1 otherwise |
| SrcLibybinlogp.AdvanceStalls | src/libybinlogp.c:402-412 | as written, a zero-filled region makes the step report "more" without moving |
| SrcLibybinlogp.AdvanceChecked | src/libybinlogp.c:402-413 | the corrected step reports "more" only after moving at least a header forward and strictly inside the file; otherwise it agrees with the step as written or reports 0 at the same offset |
| SrcLibybinlogp.Chain | src/libybinlogp.c:182-188 | the corrected chain starts at the cursor and moves at least 19 bytes per step inside the file, so it ends |
| SrcLibybinlogp.AdvanceCheckedAgrees | src/libybinlogp.c:402-413 | on an event at least a header long the corrected step and the step as written agree |
| SrcLibybinlogp.AdvanceCheckedStops | src/libybinlogp.c:402-413 | the corrected step stops at once on the zero-filled region that stalls the step as written |
| SrcLibybinlogp.NextEventSteps | src/libybinlogp.c:387-415 | after bootstrap, next_event returns the step's code (-2, -1, 0 or 1), moves the cursor only when the read succeeds, returns 0 exactly on one of the four end conditions and 1 otherwise, keeps the cursor inside the file on 1, and restores enforcement |
| SrcLibybinlogp.NextEventBootstraps | src/libybinlogp.c:387-397 | before bootstrap, next_event learns the ids and floor and reads past the FDE, keeps the caller's enforcement, and passes a fatal bootstrap outcome through |
| SrcLibybinlogp.BinlogParser.constructor | src/libybinlogp.c:62-75 | the fields set before the bootstrap: offset 4, enforcement off, ids and floor 0, ceiling an hour from now, no FDE read |
| SrcLibybinlogp.GetBinlogParser | src/libybinlogp.c:62-79 | the parser handed back is a fresh one over the file in exactly the state the bootstrap leaves from the initial fields, with the bootstrap's outcome |
| SrcLibybinlogp.GetBinlogParserBootstraps | src/libybinlogp.c:76-77 | on a file whose FDE checks out the parser has read it, learned the ids and floor, sits past it with enforcement off and the ceiling an hour from now; otherwise it keeps the initial fields |
| SrcLibybinlogp.NearestOffsetGivesUpOnOverrun | src/libybinlogp.c:207-212 | on an in-range header whose length runs past the end, read_event gives -2 and nearest_offset gives up with -1 |
| SrcLibybinlogp.BinlogParser.ReadEvent | src/libybinlogp.c:283-329 | sets the ceiling to now + 3600, returns the verdict's code, records header and offset, and allocates a body exactly when accepted, holding the file's length - 19 bytes |
| SrcLibybinlogp.BinlogParser.NearestOffset | src/libybinlogp.c:200-229 | returns the probe's result and, when it is an offset, leaves a fresh copy of that event in outbuf; on failure outbuf is untouched |
| SrcLibybinlogp.BinlogParser.ProbeAt | src/libybinlogp.c:209-219 | one pass of the loop: the read's code, a hit exactly when accepted, and the accepted event copied out |
| SrcLibybinlogp.BinlogParser.NearestTime | src/libybinlogp.c:234-276 | returns the halving search's own off64_t result |
| SrcLibybinlogp.BinlogParser.ReadFde | src/libybinlogp.c:334-385 | returns the bootstrap's outcome and leaves exactly the state the bootstrap specifies |
| SrcLibybinlogp.BinlogParser.Learn | src/libybinlogp.c:361-383 | the slave id from the FDE, the cursor past it, the master id from the next read, the floor min(FDE time, next time) - 3600, and the FDE flag set |
| SrcLibybinlogp.BinlogParser.NextEvent | src/libybinlogp.c:387-415 | returns and leaves exactly what next_event's specification says, and the buffer holds the header read at the cursor, with a body exactly when accepted |
| SrcLibybinlogp.BinlogParser.ReadAndAdvance | src/libybinlogp.c:395-414 | reads at the cursor with enforcement off, restores it, and moves the cursor by the step |
| SrcLibybinlogp.EventAsFde | src/libybinlogp.c:417-426 | the body seen as an FDE exists exactly for type 15 with a body, and is that body |
| SrcLibybinlogp.EventAsQe | src/libybinlogp.c:428-436 | the body seen as a query exists exactly for type 2 with a body, and is that body |
| StatusVars.EntrySize | src/libybinlogp.c:626-732 | every entry with a code below 10 takes between 2 and 258 bytes |
| StatusVars.SwitchAgreesWithTable | src/libybinlogp.c:712-729 | the written-out cases skip exactly what the size table says, and a length byte comes first exactly for negative table entries |
| StatusVars.WalkBounds | src/libybinlogp.c:619-734 | a finished walk ends at or past status_var_len and within one entry of it, with codes all below 10; a tripped assert is at a code of 10 or more; a read past the body, of a code, a length byte or a payload, is reported at or past the body end |
| StatusVars.StrndupInBody | src/libybinlogp.c:654 | a string of n bytes that lies in the body is read by strndup without passing its end |
| StatusVars.FixedPayloadOverread | src/libybinlogp.c:627-630 | a Q_FLAGS2_CODE entry whose 4-byte payload lies past a one-byte body is reported as a read past the body |
| StatusVars.WalkStatusVars | src/libybinlogp.c:619-734 | the loop computes the walk from the first status variable |
| StatusVars.QueryStatusVars | src/libybinlogp.c:619-622 | no walk exactly when the body is shorter than the 13-byte query header |
| StatusVars.WalkStep | src/libybinlogp.c:622-733 | a well-formed entry below status_var_len yields its code and the walk continues right after its payload |
| StatusVars.WalkEncoded | src/libybinlogp.c:622-733 | walking the encoding of well-formed entries yields exactly their codes and ends at the encoding's end |
| StatusVars.WalkEncodedVars | src/libybinlogp.c:619-734 | the walk over encoded status variables and any trailing bytes yields their codes in order |
| YbinlogpPrivate.AcceptedCodesAreNamed | libybinlogp/ybinlogp-private.h:14-42 | every accepted type code indexes the 27-entry table and is never UNKNOWN_EVENT |
| YbinlogpPrivate.TableSizes | libybinlogp/ybinlogp-private.h:44-80 | 27 event types, 10 status variable names, 3 intvar kinds and 16 flags; FORMAT_DESCRIPTION_EVENT is code 15 |
| YbinlogpPrivate.StatusVarDataLenShape | libybinlogp/ybinlogp-private.h:117-133 | codes 0,1,3,4,7,8,9 have fixed payloads, code 2 is -2, and codes 5 and 6 are -1 |
| YbinlogpPrivate.StatementLenAsWritten | libybinlogp/ybinlogp-private.h:170 | the unguarded size_t statement length is always below 2^64 |
| YbinlogpPrivate.StatementLen | libybinlogp/ybinlogp-private.h:170 | the checked statement length exists exactly when the parts before it fit in the body, and then fills the body to its end |
| YbinlogpPrivate.StatementLenAgrees | libybinlogp/ybinlogp-private.h:170 | when nothing underflows the unguarded and checked lengths agree |
| YbinlogpPrivate.StatementLenUnderflows | libybinlogp/ybinlogp-private.h:170 | a 40-byte event with a 10-byte status block and a 5-byte name gives 2^64 - 8 as written |
| YbinlogpPrivate.SplitQuery | libybinlogp/ybinlogp-private.h:168-171 | the parts exist exactly when the header decodes and the statement length is defined, with status variables and name of their declared lengths |
| YbinlogpPrivate.SplitQueryTiles | libybinlogp/ybinlogp-private.h:168-171 | header, status variables, name, NUL and statement tile the body exactly |
| YbinlogpPrivate.RotateFileNameLenAsWritten | libybinlogp/ybinlogp-private.h:173 | the unguarded size_t name length is always below 2^64 |
| YbinlogpPrivate.RotateFileNameLen | libybinlogp/ybinlogp-private.h:172-173 | the checked name length exists exactly when length >= 27, and then 19 + 8 + it == length |
| YbinlogpPrivate.RotateFileNameLenUnderflows | libybinlogp/ybinlogp-private.h:173 | a rotate event of length 20 gives 2^64 - 7 as written and no length checked |
| YbinlogpPrivate.SplitRotate | libybinlogp/ybinlogp-private.h:172-173 | a rotate body splits into its u64 next position and a file name filling the rest, whose length is the checked name length |
| Ybinlogp.CheckEventMeaning | ybinlogp.c:305-319 | accepted iff enforcement allows the id, 0 < type < 27, 19 < length < 10485760 and the timestamp is in [MIN_TIMESTAMP, MAX_TIMESTAMP]; length 19 is never accepted |
| Ybinlogp.BootstrapIgnoresEnforcement | ybinlogp.c:519-526 | read_fde reads the FDE with enforcement off whatever the setting |
| Ybinlogp.BootstrapLearns | ybinlogp.c:515-547 | a successful read_fde accepted an FDE at least 21 bytes long inside the window whose format_version is 4; the floor is its timestamp exactly, the slave id is its id, and the master id is the next event's, or 0 at the end of the file |
| Ybinlogp.BootstrapRejectsVersion | ybinlogp.c:526-534 | read_fde exits with status 1 exactly when a whole FDE header passes the unenforced check and its body, long enough for the version field, has a format_version other than 4 |
| Ybinlogp.BootstrapFails | ybinlogp.c:522-534 | -1 exactly when the file is too short for the FDE header; an FDE the predicate rejects leaves a NULL body that is dereferenced; the only exit is exit(1) |
| Ybinlogp.ToInt | ybinlogp.c:463 | the int conversion keeps values in int range, is the identity there, and is congruent modulo 2^32 |
| Ybinlogp.NearestTimeTruncates | ybinlogp.c:463-509 | offset 2^31 comes back as -2^31 and offset 2^32 - 2 as -2 |
| Ybinlogp.NearestTimeFitsInt | ybinlogp.c:463-509 | in a file under 2 GiB nearest_time returns the search's own result |
| Ybinlogp.ExitStatusAsWritten | ybinlogp.c:641-655 | as written the exit status is 1 for every negative offset and 0 otherwise |
| Ybinlogp.ExitStatus | ybinlogp.c:649-655 | the intended status: 2 exactly when nothing was found, 1 exactly for other failures, 0 exactly on success |
| Ybinlogp.ExitStatusOverwritten | ybinlogp.c:649-655 | the status as written differs from the intended one exactly for offset -2, nothing found |
| Ybinlogp.NextAfter | ybinlogp.c:410-417 | the next offset never lies before the current one, and lies at least a header past it when the length is at least 19 |
| Ybinlogp.FollowStep | ybinlogp.c:665-667 | one pass moves to next_after and holds the header read there when it lies whole in the file, a zeroed header at or past the end, or the bytes delivered over a zeroed header when the read comes short |
| Ybinlogp.FollowOnStallsAtEnd | ybinlogp.c:658-675 | as written, with -a all, an event reaching exactly to the end with a smaller next_position makes the loop repeat forever at the end |
| Ybinlogp.FollowedBounds | ybinlogp.c:658-675 | the corrected loop prints offsets each at least a header past the previous, all but the last inside the file, and at most num_to_show - 1 without -a all |
| Ybinlogp.Globals.constructor | ybinlogp.c:36-41 | at startup MAX_TIMESTAMP is the clock, enforcement is as chosen, and the floor and ids are 0 |
| Ybinlogp.Globals.ReadEvent | ybinlogp.c:321-354 | returns the verdict's code (never an overrun), records header and offset, and allocates a body exactly when accepted, holding one read's bytes |
| Ybinlogp.Globals.ProbeAt | ybinlogp.c:436-446 | one pass of the loop: the read's code, a hit exactly when accepted, and the accepted event copied out |
| Ybinlogp.Globals.NearestOffset | ybinlogp.c:424-457 | returns the probe's result and, when it is an offset, leaves a fresh copy of that event in outbuf; on failure outbuf is untouched |
| Ybinlogp.Globals.NearestTime | ybinlogp.c:463-510 | returns the search's result converted to int, and copies the last probed event out unless a read failed |
| Ybinlogp.Globals.TimeSearchLoop | ybinlogp.c:465-505 | the loop's last_found is the halving search's result and the scratch event holds the last probed event |
| Ybinlogp.Globals.ReadFde | ybinlogp.c:515-547 | returns the bootstrap's outcome and leaves exactly the globals it specifies, with enforcement left off after a failed first read |
| Ybinlogp.Globals.ReadFdeEvent | ybinlogp.c:519-525 | the first read fails exactly when the bootstrap returns -1, and otherwise leaves what the rest of the bootstrap works from |
| Ybinlogp.Globals.Examine | ybinlogp.c:526-542 | the version check and learning give the bootstrap's outcome, and the globals change only when it learns |
| Ybinlogp.Globals.Learn | ybinlogp.c:535-542 | the floor is the FDE timestamp exactly, the slave id its id, and the master id that of the event after it |
| Ybinlogp.Globals.FollowOn | ybinlogp.c:658-675 | the corrected follow-on loop prints exactly the offsets of the chain specification |
| Libybinlogp.CheckEventMeaning | libybinlogp.c:93-106 | accepted iff enforcement allows the id, 0 < type < 27, 19 < length < 16 MiB and the timestamp is in [min_timestamp, max_timestamp]; length 19 is never accepted |
| Libybinlogp.InitOutcomeAsWritten | libybinlogp.c:45-52 | as written, init succeeds exactly when *out is already non-NULL |
| Libybinlogp.InitOutcome | ybinlogp.h:97-105 | the documented check: -1 exactly for a NULL out, 0 otherwise |
| Libybinlogp.InitRefusesEmptySlotAsWritten | libybinlogp.c:50-52 | a pointer to an empty handle is refused as written and served by the corrected check |
| Libybinlogp.NewParser | libybinlogp.c:45-63 | returns the corrected outcome and a fresh parser exactly on success, at offset 4 with enforcement off, ids and floor 0, ceiling now, and no FDE read |
| Libybinlogp.PartlyZeroed | libybinlogp.c:65-67 | zeroing the first 8 bytes of the packed event clears timestamp, type code and the low three bytes of the server id, and keeps its top byte, length, next position and flags |
| Libybinlogp.ResetEventAsWritten | libybinlogp.c:79-87 | reset as written drops the body and zeroes only timestamp, type and the low three bytes of the server id |
| Libybinlogp.StaleMasterIdAsWritten | libybinlogp.c:187-192 | when the FDE reaches to the end of the file, the master id as written is the FDE's server id with its low three bytes cleared, and 0 with a full reset; they differ whenever that id is 2^24 or more |
| Libybinlogp.BootstrapLearns | libybinlogp.c:163-198 | a successful read_fde accepted a version 4 FDE with 21 <= length < 16 MiB inside [floor, now]; the floor is its timestamp, the slave id its id, the cursor 4 + length, and, with the corrected full reset, the master id the next event's, or 0 at the end |
| Libybinlogp.BootstrapRejectsOutOfWindowFde | libybinlogp.c:175-180 | an FDE dated after the clock or before the floor is rejected, leaving a NULL body that is dereferenced |
| Libybinlogp.BootstrapRejectsVersion | libybinlogp.c:178-183 | read_fde exits with status 1 exactly when the FDE read at offset 4 is accepted, its body is long enough for the version field, and its format_version is not 4 |
| Libybinlogp.BootstrapReadFails | libybinlogp.c:175-177 | read_fde returns -1 exactly when the file is too short for the FDE header |
| Libybinlogp.NextEventIsStub | libybinlogp.c:200-206 | next_event returns 0 whenever it returns, bootstraps only when no FDE was read yet, and otherwise changes nothing |
| Libybinlogp.NextEventOnce | libybinlogp.c:200-206 | after a successful bootstrap a second call returns 0 and changes nothing |
| Libybinlogp.BinlogParser.constructor | libybinlogp.c:53-60 | the fields init sets: offset 4, enforcement off, ids and floor 0, ceiling now, no FDE read |
| Libybinlogp.BinlogParser.ReadEvent | libybinlogp.c:124-158 | sets the ceiling to now, returns the verdict's code (never an overrun), records header and offset, and allocates a body exactly when accepted |
| Libybinlogp.BinlogParser.ReadFde | libybinlogp.c:163-198 | returns the bootstrap's outcome and leaves exactly the parser it specifies, reading the next event into a buffer with the corrected full reset |
| Libybinlogp.BinlogParser.ReadFdeEvent | libybinlogp.c:170-177 | the first read fails exactly when the bootstrap returns -1, and otherwise leaves what the rest of the bootstrap works from |
| Libybinlogp.BinlogParser.Examine | libybinlogp.c:178-197 | the version check and learning give the bootstrap's outcome, and the parser changes only when it learns |
| Libybinlogp.BinlogParser.Learn | libybinlogp.c:184-196 | the floor is the FDE timestamp, the slave id its id, the cursor past it, the master id from a buffer with the corrected full reset, and the FDE flag set |
| Libybinlogp.BinlogParser.NextEvent | libybinlogp.c:200-206 | returns and leaves exactly what the stub's specification says |
| Binlogp.CheckEventAsPolicy | binlogp.c:132-145 | the strict predicate is the shared policy with bounds moved in by one plus server id < 2^31; an accepted body exceeds 72 bytes; a clock at or before 2010-01-01 + 1s accepts nothing |
| Binlogp.ExtraAmount | binlogp.c:195-202 | bytes are prefetched exactly for query and format-description events: 8 for a query, 52 for a format description |
| Binlogp.PrefetchWithinEvent | binlogp.c:147-159 | for an accepted header a prefetch exists exactly for query and format-description events, is shorter than the body, and equals the body's first bytes when the event lies in the file |
| Binlogp.ExitStatus | binlogp.c:258-264 | the process exits 1 exactly when the probe failed, and 0 when it found an event or ran out of budget |
| Binlogp.ForwardMeaning | binlogp.c:161-215 | found: the first accepted header in the budget, with its prefetch; failed: a negative start, or the end reached with everything before it rejected; exhausted: every offset of the budget holds a whole, rejected header |
| Binlogp.ForwardFindsFirst | binlogp.c:171-209 | an accepted offset within the budget after a run of rejected ones is the one the probe finds |
| Binlogp.NearestOffset | binlogp.c:161-215 | the loop returns the forward probe's end and the exit status main passes on |

## Left out

- Operating-system failures are not modelled: a failed `read` or `lseek` on a valid offset, `malloc` failure, `fstat`/`stat`/`open`. A seek fails only at a negative offset, and a read is short only near the end of the file.
- The file does not grow while it is read. The file size is the sequence's length, so `ybp_update_bp` (src/libybinlogp.c:91-96) is left out.
- The clock is one reading per call (`now`) rather than one per `time(NULL)`.
- Memory that `malloc` returns uninitialised and a short read does not fill is modelled as zero bytes.
- All printing is left out, as is the argument parsing of both `main`s: `print_event`, `ybp_print_event` except its status-variable walk, `ybp_print_event_simple`, `ybp_event_type`, `usage` and `getopt`. binlogp.c's `-t` mode does nothing (binlogp.c:259-260), so its absence changes no behaviour.
- `ybp_rewind_bp`, `ybp_tell_bp`, `ybp_dispose_binlog_parser` and the `ybp_event_to_safe_*` / `ybp_dispose_safe_*` converters of src/libybinlogp.c are left out. They are field accessors and copying wrappers outside the scanning engine.
- The Python bindings, the CPython extensions, the test drivers and binlogp.h are not part of this model.
- Status-variable codes are read as unsigned bytes. On a platform with signed `char`, a code byte of 128 or more is negative when converted to `enum ybpi_e_status_var_types`. Where the enum's underlying type is unsigned, as with GCC and Clang, that value is large and `assert(status_var_type < 10)` fails, as in the model. With a signed underlying type, or with the assert compiled out (`-DNDEBUG`), the code indexes the size table out of bounds; the model does not cover those builds and stops the walk at any code of 10 or more.
- binlogp.c's `read_extra_data` allocates twice and leaks the first buffer, and `nearest_offset` leaks the prefetch of the accepted event. Leaks are not modelled.
- libybinlogp.c:47 allocates only `sizeof(struct binlog_parser*)` bytes for the parser and then writes every field, overflowing the heap block. The model allocates a whole parser.
- The partial `memset` of libybinlogp.c:65-67 is modelled for a little-endian machine with 8-byte pointers, the layout on which it zeroes timestamp, type code and three bytes of the server id.
- Scan.TimeSearch: states the result kinds and the cursor bounds, not that the search lands on an exact timestamp in a log of increasing timestamps, because the code does not guarantee that.
- SrcLibybinlogp.BinlogParser.NearestOffset: states the ceiling as unchanged or an hour past `now`, not which one. It is the latter exactly when at least one read was made.
- SrcLibybinlogp.BinlogParser.NearestTime: states the parser as unchanged or with only the ceiling moved, not which one, for the same reason.
- Events.Event.CopyFrom: always returns 0, because the `malloc` failure that returns -1 is not modelled.

## Findings

| source | as written | input that shows it | evidently intended | confidence | as-written member | corrected member |
|---|---|---|---|---|---|---|
| ybinlogp.c:649-655 | status 2 for "Could not find any records" is overwritten by the next test, `offset < 0`, so the exit status is 1 | a search or probe that returns -2 | exit status 2 for "nothing found", distinct from 1 for an I/O error | not executed; high | Ybinlogp.ExitStatusAsWritten | Ybinlogp.ExitStatus |
| src/libybinlogp.c:402-412 | `ybp_next_event` sets the offset to offset + length and returns 1 even when length is 0, so a caller looping on it never advances | a zero-filled region of 100 bytes with the cursor at 50 | report the last event when the step does not move the cursor at least one header forward | not executed; medium | SrcLibybinlogp.AdvanceStalls | SrcLibybinlogp.AdvanceChecked |
| libybinlogp/ybinlogp-private.h:170 | `query_event_statement_len` subtracts in unsigned arithmetic with no guard | a query event of length 40 with status_var_len 10 and db_name_len 5: 2^64 - 8 | report a malformed body when the parts do not fit | not executed; high | YbinlogpPrivate.StatementLenUnderflows | YbinlogpPrivate.StatementLen |
| libybinlogp/ybinlogp-private.h:173 | `rotate_event_file_name_len` subtracts 27 from the length with no guard | a rotate event of length 20, which src/libybinlogp.c accepts: 2^64 - 7 | no file name when the body is shorter than 8 bytes | not executed; high | YbinlogpPrivate.RotateFileNameLenUnderflows | YbinlogpPrivate.RotateFileNameLen |
| ybinlogp.c:658-675 | under `-a all`, once next_after reaches the end of the file, the failed read leaves a zeroed header of length 0 and the loop condition still holds, so it repeats forever | an event ending exactly at the end of the file whose next_position is below the file size and not its own offset | stop when no whole header could be read or it claims fewer than 19 bytes | not executed; medium | Ybinlogp.FollowOnStallsAtEnd | Ybinlogp.Globals.FollowOn |
| ybinlogp.c:463 | `nearest_time` returns its off64_t result as an `int` | a file over 2 GiB with the found event at offset 2^31 (returned as -2^31) or 2^32 - 2 (returned as -2, "no records") | return the off64_t offset, as src/libybinlogp.c does | not executed; medium | Ybinlogp.NearestTimeTruncates | SrcLibybinlogp.BinlogParser.NearestTime |
| libybinlogp.c:65-67 | `ybp_init_event` zeroes `sizeof(struct ybp_event*)` bytes, not the whole event, so a reset keeps the top byte of the server id | an FDE with server id 2^24 or more that reaches to the end of the file: the master id becomes that top byte instead of 0 | zero the whole struct | not executed; high | Libybinlogp.StaleMasterIdAsWritten | Libybinlogp.BinlogParser.ReadFde |
| libybinlogp.c:50-52 | `ybp_init_binlog_parser` tests `*out` instead of `out`, so it refuses a pointer to an empty handle and dereferences a NULL `out` | a caller passing the address of a NULL handle, as the header comment describes | refuse only a NULL `out` | not executed; high | Libybinlogp.InitRefusesEmptySlotAsWritten | Libybinlogp.NewParser |
