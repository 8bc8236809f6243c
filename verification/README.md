# ethercat-soem CoE discovery and decoding, in Dafny

This project models the part of the `ethercat-soem` master that works out what a
slave offers over CANopen over EtherCAT (CoE), and how the values a slave answers
are decoded:

- reading a slave's object dictionary (`read_od_list`): object descriptions,
  entry descriptions and the access word of each entry;
- the lookups into the cached dictionaries (`cached_sdo_entry`,
  `cached_sdo_info`, and the same lookup in `read_sdo_entry`);
- single-entry and complete-access SDO reads (`read_sdo_entry`,
  `read_sdo_complete`), including the byte count asked of the engine and the
  buffer layout of a complete access;
- decoding raw bytes into typed values (`value_from_slice`);
- resolving the PDO assignment of every slave (`coe_pdo_info`,
  `si_pdo_assign`): sync-manager types, assigned PDOs, mapping descriptors, and
  the running PDO and entry positions;
- the AL status codes (`AlStatus` and its `From<u16>`);
- the process-data views and the state, DC and lost flags of the engine's slave
  record (`ethercat-soem-ctx` `Slave`).

The native SOEM engine is not modelled. Every engine call is an oracle: a total
function in the `Engine` datatype. It maps a request to the engine's answer, and
`None` stands for a non-positive return code. The decoding of CoE data-type codes
(`DataType::from_u16` in the `ethercat_types` crate) is the `dataTypeOf`
parameter of `Master`. The I/O map behind the slave views is passed in as a byte
string.

The PDO resolution reads a slave only through `read_sdo_entry` and the cached
object descriptions. `PdoMapping.SlaveAccess` packages those two reads for one
slave (`PdoMapping.Access` builds it from a `Master`), so the resolution is
stated over the answers of that slave alone.

Modules, by file:

| file | module | models |
|---|---|---|
| wrappers.dfy | Wrappers | `Option` / `Result` |
| bytes.dfy | Bytes | fixed-width integers, big- and little-endian readings, two's complement, byte counts |
| types.dfy | EcTypes | data types, values, dictionary records, PDO records, errors |
| codec.dfy | ValueCodec | `value_from_slice` |
| access.dfy | AccessRights | `access_from_u16`, `access` |
| al_status.dfy | AlStatusCodes | `AlStatus` |
| slave.dfy | SlaveView | the engine's slave record |
| engine.dfy | SoemEngine | engine oracles, `read_sdo` |
| od.dfy | ObjectDictionary | `read_od_list`, cached lookups, `read_sdo_entry`, `read_sdo_complete` |
| pdo.dfy | PdoMapping | `sm_comm_type`, `si_pdo_assign`, `coe_pdo_info` |

The model follows the code on these points:

- Multi-byte values are decoded big-endian (`from_be_bytes`).
- A `Bool` is true only when its first byte is exactly 1.
- Decoding has no bit offsets: a value starts at a byte boundary.
- The resolution of one slave (`PdoMapping.AssignSms`) is a walk over its
  sync managers whose step is `si_pdo_assign` with corrected numbering
  (`PdoMapping.Corrected`); the same walk with the step as written is
  `PdoMapping.AssignSmsAsWritten`.
- In `coe_pdo_info`, an error for one slave aborts the whole resolution for
  every slave (the `?` operator); it is not confined to the failing slave.

## Model

| member | source | states |
|---|---|---|
| Bytes.ByteCount | src/lib.rs:652-654 | the byte count asked for an entry of `bitLen` bits holds every bit and has no spare byte (it is ceil(bitLen / 8)) |
| Bytes.BeValueOfBeBytes | src/util.rs:17-24 | big-endian decoding inverts big-endian encoding for every number that fits in the width |
| Bytes.BeBytesOfBeValue | src/util.rs:17-24 | big-endian encoding of a decoded slice gives the slice back, so decoding loses nothing |
| Bytes.FromBeOfBeValue | src/lib.rs:258-261 | on a little-endian host, `from_be` applied to a big-endian reading gives the little-endian reading of the same bytes |
| Bytes.ToSignedOfToUnsigned | src/util.rs:16-19 | two's complement reinterpretation gives back every signed value of the width |
| Bytes.ToUnsignedOfToSigned | src/util.rs:16-19 | two's complement reinterpretation gives back every unsigned bit pattern of the width |
| ValueCodec.ValueFromSlice | src/util.rs:6-71 | an empty slice is `ValueFromEmptyBuf`; a type without a decoding is `UnsuportedDataType`; a supported type succeeds exactly when the slice has the width the type fixes (or any length for the variable types), and fails with a slice-length error otherwise; a success has the requested type |
| ValueCodec.IntRoundTrip | src/util.rs:14-24 | each integer value of each integer type decodes back from its big-endian two's complement bytes |
| ValueCodec.IntDecodeExact | src/util.rs:17-24 | a multi-byte slice that decodes to an integer is exactly that integer's big-endian bytes |
| ValueCodec.FirstByteOnly | src/util.rs:13-21 | Bool, Byte, I8 and U8 depend on the first byte alone and ignore the rest |
| ValueCodec.BoolIsByteOne | src/util.rs:13 | a Bool is true exactly when the first byte is 1, so 0x02 reads false |
| ValueCodec.I8IsTwosComplement | src/util.rs:16 | I8 reads the first byte as two's complement (0xFF is -1, 0x80 is -128) |
| ValueCodec.BytesPassThrough | src/util.rs:31-64 | U8Array and Raw carry the slice unchanged |
| ValueCodec.BigEndianExamples | src/util.rs:17-24 | the first byte is most significant, and a wrong-length slice is refused |
| AccessRights.AccessOf | src/lib.rs:797-804 | read and write flags can be recovered from the access, and Unknown means neither flag |
| AccessRights.AccessFromU16 | src/lib.rs:776-795 | in each state (PreOp, SafeOp, Op) the entry is readable exactly when bit 0/1/2 is set and writable exactly when bit 3/4/5 is set |
| AccessRights.AccessRoundTrip | src/lib.rs:776-795 | re-encoding the decoded access gives the word with bits 6 and up cleared |
| AccessRights.AccessEncodeRoundTrip | src/lib.rs:776-804 | every access triple is the decoding of its own encoding |
| AccessRights.HighBitsIgnored | src/lib.rs:776-784 | the PDO-mapping bits 6 and 7 (and all higher bits) never change the decoded access |
| AccessRights.AccessExamples | src/lib.rs:810-844 | the four cases of the unit test `get_access_type_from_u8` |
| AlStatusCodes.FromCodeRoundTrip | src/al_status.rs:8-178 | every variant is read back from its own code |
| AlStatusCodes.CodeOfFromU16 | src/al_status.rs:174-178 | a code that reads as a listed variant is that variant's code |
| AlStatusCodes.UnknownIffUnlisted | src/al_status.rs:174-178 | a code reads as Unknown exactly when it is 0xFFFF or no listed variant has it |
| AlStatusCodes.AlStatusExamples | src/al_status.rs:8-178 | listed codes such as 0x0000 and 0x001B read as their variants; gaps such as 0x0003 and 0x002F read as Unknown |
| SlaveView.ViewLen | ethercat-soem-ctx/src/slave.rs:67-73 | a view is empty exactly when the region has no bits; a region of fewer than eight bits still gets one byte |
| SlaveView.Outputs | ethercat-soem-ctx/src/slave.rs:67-74 | the output view starts at the slave's output offset and has the view length of its output bytes and bits |
| SlaveView.OutputsMut | ethercat-soem-ctx/src/slave.rs:76-83 | the writable output view is the same range as the read-only one |
| SlaveView.Inputs | ethercat-soem-ctx/src/slave.rs:99-106 | the input view follows the same length rule over the input bytes and bits |
| SlaveView.ViewBytes | ethercat-soem-ctx/src/slave.rs:67-74 | a view's bytes are the I/O map bytes of its range |
| SlaveView.ViewCoversBits | ethercat-soem-ctx/src/slave.rs:59-74 | under the engine's sizing rule, taken here in full as an assumption (zero bytes below eight bits, which slave.rs:62 documents, and ceil(bits / 8) bytes from eight bits on, which the source does not document), a view holds every bit and is exactly ceil(bits / 8) bytes long |
| SlaveView.SetState | ethercat-soem-ctx/src/slave.rs:21-23 | the new state is read back and no other field changes |
| SoemEngine.ReadSdoRaw | src/lib.rs:608-637 | a read fails exactly when the engine reports failure, and then it names the slave and the SDO; the request goes to wire address slave + 1 |
| ObjectDictionary.EntrySlot | src/lib.rs:575-602 | a dictionary slot is empty exactly when the data-type code is unknown or the bit length is 0; otherwise it holds the type, length, decoded access and name of its row |
| ObjectDictionary.EntrySlots | src/lib.rs:574-604 | an object has one slot per subindex 0..=max subindex, slot j from row j |
| ObjectDictionary.ReadObjects | src/lib.rs:572-605 | the listed objects are read in order; the whole read succeeds exactly when every description read and entry read succeeds; the first failing item's error is returned |
| ObjectDictionary.ReadOdList | src/lib.rs:559-606 | a failed list read is `ReadOdList(slave)`; otherwise the read succeeds exactly when every description read and entry read succeeds, a failure is the error of the first item whose read failed, and a success holds at list position k the object built from the k-th listed index, its description and its entry rows, with max subindex + 1 slots |
| ObjectDictionary.FindObject | src/lib.rs:380 | the first object with the index is found; None means no object has it |
| ObjectDictionary.LookupObject | src/lib.rs:378-380 | the first cached object with the index, or None when the slave has no dictionary or no such object |
| ObjectDictionary.CachedSdoInfo | src/lib.rs:386-391 | the description of the first cached object with the index, the same object `cached_sdo_entry` looks in; None exactly when the lookup finds no such object |
| ObjectDictionary.CachedSdoEntry | src/lib.rs:373-384 | slot `subIdx` of the first object with the index; None when the object is missing, the subindex is out of range, or the slot is empty |
| ObjectDictionary.ReadSdoEntry | src/lib.rs:639-659 | a missing entry is `SubIdxNotFound`; otherwise the engine is asked for ceil(bit length / 8) bytes of the entry, a failed engine read is `ReadSdo(slave, sdo)`, and an answer gives exactly the decoding of the answer under the entry's type, errors included |
| ObjectDictionary.SlotLayout | src/lib.rs:673-682 | each decodable entry gets its byte count and type, and each empty entry gets an empty slot |
| ObjectDictionary.MaxBytes | src/lib.rs:683-688 | the largest byte count of any slot, and one slot attains it |
| ObjectDictionary.BufferHoldsAllSlots | src/lib.rs:683-690 | the complete-access buffer (largest count times number of slots) holds all decodable slots packed end to end |
| ObjectDictionary.DecodeSlots | src/lib.rs:700-714 | a success has one value per slot, and empty slots give no value; the packed slots fit in the answer |
| ObjectDictionary.DecodeSlotsContents | src/lib.rs:700-714 | slot j is decoded from the bytes at its offset (the sum of the decodable slots before it), as many as its byte count |
| ObjectDictionary.DecodeSlotsSucceeds | src/lib.rs:700-714 | decoding the packed slots succeeds exactly when every decodable slot lies within the answer at its offset and decodes there under its type |
| ObjectDictionary.DecodeSlotsFails | src/lib.rs:700-714 | a failed decoding stops at the first decodable slot that does not fit or does not decode: its error is `SliceOutOfRange` when the slot runs past the answer, and otherwise that slot's decoding error |
| ObjectDictionary.ReadSdoComplete | src/lib.rs:661-716 | a missing object is `IdxNotFound`; otherwise a complete-access read of subindex 0 asks for the whole buffer, a failed engine read is `ReadSdo(slave, idx:0)`, and an answer decodes exactly when every decodable entry lies in it at its packed offset and decodes there; a failed decoding has the error of the first entry that does not fit (`SliceOutOfRange`) or does not decode; a success has one value per slot of the object, present exactly for the decodable ones |
| ObjectDictionary.ReadSdoCompleteLayout | src/lib.rs:683-714 | in a successful complete access the buffer holds every entry, and entry j is the decoding of its ceil(bit length / 8) bytes at its packed offset |
| PdoMapping.UnpackDescriptor | src/lib.rs:318-320 | a 32-bit mapping descriptor splits into index (bits 16-31), subindex (bits 8-15) and bit length (bits 0-7), and packing them gives the descriptor back |
| PdoMapping.UnpackPack | src/lib.rs:318-320 | every mapping is recovered from its packed descriptor |
| PdoMapping.ReadU8 | src/lib.rs:393-410 | succeeds exactly when the entry reads as a U8, a failed read keeps its error, and a value of another type is `UnexpectedDataType` |
| PdoMapping.ReadU16FromBe | src/lib.rs:249-270 | succeeds exactly when the entry reads as a U16, a failed read keeps its error, a value of another type is `UnexpectedDataType`, and the result's two bytes are the value's bytes swapped |
| PdoMapping.ReadU32FromBe | src/lib.rs:304-317 | succeeds exactly when the entry reads as a U32, a failed read keeps its error, a value of another type is `UnexpectedDataType`, and the result's four bytes are the value's bytes in reverse |
| Bytes.FromBeSwapsBytes | src/lib.rs:258-261 | on a little-endian host, `from_be` reverses the bytes of its argument |
| PdoMapping.FromBeReadsLittleEndian | src/lib.rs:258-261 | the PDO index and the mapping descriptor are the little-endian readings of the 2 and 4 bytes the slave answered |
| PdoMapping.SmCount | src/lib.rs:153-162 | the number of scanned sync managers is the count from 0x1C00:0 minus one, capped at 8 |
| PdoMapping.CollectSmTypes | src/lib.rs:166-178 | the scan of consecutive sync managers lists, in strictly ascending order, every scanned sync manager with the type it reported except SM2 reporting type 2, and nothing else; a failed read aborts the scan with the error of the first failing sync manager |
| PdoMapping.ReadSmTypesListed | src/lib.rs:166-178 | sync manager sm is listed with type t exactly when 2 <= sm <= sm_cnt, 0x1C00:(sm+1) reads as t, and it is not SM2 reporting type 2 |
| PdoMapping.ReadSmTypesFails | src/lib.rs:166-167 | a failed scan fails with the error of the first sync manager in 2..=sm_cnt whose type could not be read, all earlier ones having been read |
| PdoMapping.SmsOfType | src/lib.rs:184 | a sync manager is selected exactly when it is listed with the type |
| PdoMapping.SmsOfTypeAscending | src/lib.rs:168-184 | the selected sync managers stay in ascending order |
| PdoMapping.ResolveOrder | src/lib.rs:183-184 | the sync managers resolved are exactly the outputs and inputs ones |
| PdoMapping.ResolveOrderOutputsFirst | src/lib.rs:183-199 | every outputs sync manager is resolved before every inputs one, each group in ascending order |
| PdoMapping.ReadPdoEntries | src/lib.rs:299-347 | the read succeeds exactly when every mapping descriptor at subindexes 1..=count can be read, and otherwise fails with the error of the first that cannot; a success has count entries, entry k at position pos + k carrying the index, subindex and bit length unpacked from the descriptor at subindex k + 1 and the name of the dictionary entry it maps |
| PdoMapping.ReadOnePdo | src/lib.rs:249-347 | the read succeeds exactly when the PDO index (a U16 through `from_be` at the assignment subindex), its entry count (a U8 at subindex 0 of the PDO) and every mapping descriptor can be read; a success carries that index and count, count entries numbered from the running entry position, entry k mapping the descriptor at subindex k + 1; a failure is the index read's error, else the count read's, else the first failing descriptor's |
| PdoMapping.ReadAssigned | src/lib.rs:241-347 | the read succeeds exactly when every PDO at the remaining assignment subindexes can be read; it has one read per such PDO, each with as many entries as its count; read k is the read of the PDO at subindex sub + k, started at the entry position where read k - 1 stopped; a failure has the error of the first PDO that cannot be read |
| PdoMapping.ReadAssignment | src/lib.rs:214-347 | the PDO count is a U8 at subindex 0 of 0x1C10 + sm, and a failed count read is its error; the read succeeds exactly when the count reads and every assigned PDO can be read, and then holds count reads, the PDOs at subindexes 1..=count in order, entries numbered on from the entry offset; when the count reads, a failure has the error of the first assigned PDO that cannot be read |
| PdoMapping.MakePdo | src/lib.rs:348-368 | a PDO record carries the sync manager, position, index, count and entries it was given, and the name of the object its first entry maps (or an empty name) |
| PdoMapping.Kept | src/lib.rs:354-367 | the PDOs that are emitted are exactly the reads that map at least one entry, never more than were read |
| PdoMapping.KeptAll | src/lib.rs:354-367 | when every read maps an entry, every read is emitted, in order |
| PdoMapping.PlacePdosNumbersKept | src/lib.rs:241-367 | with corrected numbering, the emitted PDOs are the non-empty reads in their read order, made into records at positions nextPos, nextPos + 1, ... |
| PdoMapping.PlacePdos | src/lib.rs:348-368 | with corrected numbering, PDOs without entries are dropped, the emitted ones get consecutive positions, and no entry is lost |
| PdoMapping.PlacePdosAsWritten | src/lib.rs:241-242 | the numbering as written: positions ascend and lie between the offset and the offset plus the number of assigned PDOs |
| PdoMapping.AsWrittenEmitsPlaced | src/lib.rs:241-242 | as written, every emitted PDO is the record of a non-empty read i, at position offset + sub - 1 + i |
| PdoMapping.AsWrittenPlacesAll | src/lib.rs:241-242 | as written, every non-empty read i is emitted, as the record at position offset + sub - 1 + i |
| PdoMapping.PlaceAgreesWithoutEmpty | src/lib.rs:241-242 | when no assigned PDO is empty, the numbering as written equals the corrected one |
| PdoMapping.SiPdoAssign | src/lib.rs:207-371 | `si_pdo_assign` with corrected numbering: a failed assignment read is its error; a success is exactly the non-empty PDOs read for sync manager sm, in assignment order, made into records at consecutive positions from the PDO offset, each with entry count equal to its number of entries, and with entries at consecutive positions from the entry offset |
| PdoMapping.SiPdoAssignAsWritten | src/lib.rs:207-371 | `si_pdo_assign` as written: non-empty PDOs of sync manager sm at positions within the offset plus the assignment count; the non-empty PDO at assignment subindex s is emitted at position offset + s - 1, and nothing else is emitted |
| PdoMapping.SiAgreesWithoutEmpty | src/lib.rs:241-242 | a sync manager that never assigns an empty PDO gets the same PDOs from both numberings |
| PdoMapping.WalkNumbers | src/lib.rs:186-198 | when each sync manager's PDOs are numbered from the running offsets, the offsets advanced by the PDOs and entries emitted make positions and entry positions run across all sync managers without gaps or repeats |
| PdoMapping.CorrectedSteps | src/lib.rs:186-198 | the corrected per-sync-manager step emits non-empty, counted PDOs of that sync manager numbered from the offsets it is given |
| PdoMapping.AsWrittenSteps | src/lib.rs:186-198 | the per-sync-manager step as written emits non-empty PDOs at or after the PDO offset it is given |
| PdoMapping.CorrectedFirstFails | src/lib.rs:183-186 | with corrected numbering, a failing `si_pdo_assign` for the first sync manager is the error of the whole resolution (`AssignSms` is this walk) |
| PdoMapping.CorrectedThen | src/lib.rs:183-198 | with corrected numbering, the resolution is the first sync manager's `si_pdo_assign` PDOs followed by the resolution of the rest, started after the PDOs and entries the first one emitted |
| PdoMapping.CorrectedRestFails | src/lib.rs:183-198 | with corrected numbering, after a successful first sync manager, a failure in the rest is the error of the whole resolution |
| PdoMapping.AssignSms | src/lib.rs:180-199 | with corrected numbering: across the resolved sync managers, the PDOs are non-empty and counted, belong to those sync managers, and PDO positions and entry positions each run from the starting offsets without gaps or repeats |
| PdoMapping.AssignSmsAsWritten | src/lib.rs:180-199 | the resolution as written: all emitted PDOs are non-empty and sit at or after the starting PDO offset |
| PdoMapping.AsWrittenRepeatsPosition | src/lib.rs:193 | the resolution as written gives two PDOs of one slave the same position, where the corrected one gives 0 and 1 |
| PdoMapping.SlavePdoInfo | src/lib.rs:145-201 | with corrected numbering: a failed read of 0x1C00:0 is the slave's error; a slave reporting two or fewer sync-manager types is skipped; otherwise a failed type scan is its error, and the result is the resolution of the outputs sync managers and then the inputs ones from positions 0, failing with its error; its PDOs are non-empty and counted, with positions and entry positions running from 0 |
| PdoMapping.CollectMaps | src/lib.rs:141-204 | the per-slave results in slave order give a map holding exactly the slaves that are not skipped, each with its own PDOs; an error is the error of the first failing slave, every earlier slave having succeeded |
| PdoMapping.CoePdoInfo | src/lib.rs:144 | with corrected numbering: only slaves below the slave count taken modulo 2^16 are mapped |
| PdoMapping.CoePdoInfoSlave | src/lib.rs:141-204 | with corrected numbering: on success every slave below the count resolved without error; a slave is mapped exactly when it is not skipped, and then to its own PDOs, positioned from 0 |
| PdoMapping.CoePdoInfoFails | src/lib.rs:141-204 | a failure is the error of the first slave below the count whose resolution failed, every earlier slave having resolved |

## Left out

- The SOEM engine itself (the `ethercat-soem-sys` bindings and the `ethercat-soem-ctx` context calls) is foreign code. Each call is an oracle parameter, and SDO timeouts are not modelled.
- `DataType::from_u16` belongs to the `ethercat_types` crate and is not part of this model. It is the `dataTypeOf` parameter.
- Initialisation, configuration and the cyclic operations are outside the modelled core. This covers `init`, `auto_config`, `request_states`, `check_states`, `states`, `send_processdata`, `recv_processdata`, the group work counters, `dc_time`, `write_sdo`, `write_sdo_entry` and `ctx_errors`.
- Logging and the `debug_assert!` checks are not modelled: the non-empty slice in `value_from_slice` (src/util.rs:7), the non-empty answer in `read_sdo_entry` and the bit-length comparison in `si_pdo_assign`. So `ValueFromSlice` follows a release build: an empty slice is `ValueFromEmptyBuf` rather than a debug-build panic.
- The host is fixed as little-endian, which is what `from_be` assumes when it is modelled as a byte swap.
- `F32` and `F64` values carry their IEEE 754 bit patterns. Floating-point arithmetic is outside the model.
- `String` values carry their raw bytes. Lossy UTF-8 decoding is not modelled.
- The other plain getters of the engine's slave record are out of scope. These include `config_addr`, `eep_*`, `sm`, `fmmu`, the DC receive times, the mailbox fields and `name`.
- src/context.rs and src/slave.rs are not part of this model.
- The error type only shows some of the variants the code raises. The model uses the names the code raises, including its spelling `UnsuportedDataType`, and adds two errors:
  - `SliceLength`: a failed `try_into` of the slice.
  - `SliceOutOfRange`: the slice-index panic in `read_sdo_complete`.
- PdoMapping.AssignSms: positions are unbounded naturals. The source keeps them in `u8` counters (`pdo_cnt_offset += len as u8`), which wrap or panic past 255 PDOs or entries on one slave.
- PdoMapping.AssignSmsAsWritten: the numbering as written is proved to agree with the corrected one for each sync manager (`SiAgreesWithoutEmpty`), not for a whole slave at once.
- AlStatusCodes.FromU16: the function carries no contract of its own. Its properties are the lemmas `FromCodeRoundTrip`, `CodeOfFromU16` and `UnknownIffUnlisted`.
- PdoMapping.SlavePdoInfo: states the resolution with corrected numbering (`AssignSms`), not the numbering as written, which can give two PDOs of one slave the same position (see Findings).
- PdoMapping.CoePdoInfo: built on `SlavePdoInfo`, so it also has corrected numbering rather than the numbering as written.
- PdoMapping.CoePdoInfoSlave: the PDOs it promises have corrected numbering, not the numbering as written.
- SlaveView.ViewCoversBits: takes as an assumption that the engine sizes a region of eight or more bits as ceil(bits / 8) bytes. The source documents only the rule below eight bits.
- SlaveView.HasDc: a plain getter whose contract is its definition. `SetStateKeepsFlags` shows that setting the state keeps it.
- SlaveView.IsLost: a plain getter whose contract is its definition. `SetStateKeepsFlags` shows that setting the state keeps it.
- SoemEngine.WireAddr: the wire address is slave + 1 on naturals. The source computes `u16::from(slave) + 1` (src/lib.rs:561, src/lib.rs:619), which overflows at slave position 0xFFFF: a panic in a debug build, a wrap to address 0 in a release build. That case is not modelled.
- SoemEngine.ReadSdoRaw: does not promise that an answer is at most the requested size. The `ethercat-soem-ctx` `sdo_read` wrapper returns a prefix of the target buffer, but the engine oracle here may answer with any number of bytes. Every other property holds for answers of any length.

## Findings

| source | as written | input that shows it | evidently intended | confidence | as-written member | corrected member |
|---|---|---|---|---|---|---|
| src/lib.rs:242 | The position of the PDO at assignment subindex `s` is `pdo_pos_offset + s - 1`, which counts PDOs dropped for having no entries. The caller advances the offset only by the number of PDOs emitted (src/lib.rs:193). | SM2 assigns an empty PDO 0x1600 and then 0x1601 with one entry; SM3 assigns 0x1A00 with one entry. 0x1601 gets position 1, the offset for SM3 becomes 1, and 0x1A00 also gets position 1. | The PDOs of a slave get distinct consecutive positions 0, 1, 2, ..., as they do when no PDO is empty. | medium; not executed | PdoMapping.AsWrittenRepeatsPosition | PdoMapping.AssignSms |
