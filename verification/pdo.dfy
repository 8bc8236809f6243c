/** PDO assignment resolution (`coe_pdo_info`, `si_pdo_assign`): which
    sync managers carry process data, which PDOs are assigned to each, and
    which dictionary entries each PDO maps, with running positions. */
module PdoMapping {
  import opened Bytes
  import opened Wrappers
  import opened EcTypes
  import opened ValueCodec
  import opened SoemEngine
  import opened ObjectDictionary

  const MAX_SM_CNT: nat := 8
  const SDO_IDX_PDO_ASSIGN: u16 := 0x1C10
  const SDO_IDX_SM_COMM_TYPE: u16 := 0x1C00
  const SM_TYPE_MBX_READ: u8 := 2
  const SM_TYPE_OUTPUTS: u8 := 3
  const SM_TYPE_INPUTS: u8 := 4

  // ---------------------------------------------------------------------
  // PDO mapping descriptors

  /** A PDO mapping descriptor split into its fields: the mapped object's
      index and subindex and the length in bits. */
  datatype Mapping = Mapping(idx: u16, subIdx: u8, bitLen: u8)

  /** Unpack a 32-bit mapping descriptor laid out as
      [index:16][subindex:8][bit length:8]: bits 0-7 are the bit length,
      bits 8-15 the subindex and bits 16-31 the index. */
  function UnpackDescriptor(d: u32): (e: Mapping)
    ensures PackDescriptor(e) == d
  {
    var upper := d / 0x100;
    assert upper == (upper / 0x100) * 0x100 + upper % 0x100;
    assert d == upper * 0x100 + d % 0x100;
    Mapping(upper / 0x100, upper % 0x100, d % 0x100)
  }

  /** Reference packing of a mapping back into a descriptor. */
  function PackDescriptor(e: Mapping): u32
  {
    e.idx * 0x1_0000 + e.subIdx * 0x100 + e.bitLen
  }

  /** Every mapping is recovered from its packed descriptor. */
  lemma UnpackPack(e: Mapping)
    ensures UnpackDescriptor(PackDescriptor(e)) == e
  {
    var upper := e.idx as nat * 0x100 + e.subIdx as nat;
    SplitLowByte(upper, e.bitLen as nat);
    SplitLowByte(e.idx as nat, e.subIdx as nat);
  }

  /** Division by 0x100 splits off the low byte. */
  lemma SplitLowByte(q: nat, r: nat)
    requires r < 0x100
    ensures (q * 0x100 + r) / 0x100 == q && (q * 0x100 + r) % 0x100 == r
  {
  }

  /** How PDO resolution sees one slave: SDO reads through
      `read_sdo_entry`, and the cached entry and object descriptions it
      takes names from. */
  datatype SlaveAccess = SlaveAccess(
    read: SdoIdx -> Result<Value, Error>,
    entry: SdoIdx -> Option<SdoEntryInfo>,
    info: u16 -> Option<SdoInfo>)

  /** The access to slave `slave` of master m. */
  function Access(m: Master, slave: SlavePos): SlaveAccess
  {
    SlaveAccess(
      sdo => ReadSdoEntry(m, slave, sdo),
      sdo => CachedSdoEntry(m, slave, sdo),
      (idx: u16) => CachedSdoInfo(m, slave, idx))
  }

  // ---------------------------------------------------------------------
  // Typed SDO reads

  /** An SDO read through `read_sdo_entry` that must yield a U8. */
  function ReadU8(acc: SlaveAccess, sdo: SdoIdx): (r: Result<u8, Error>)
    ensures r.Ok? <==> acc.read(sdo).Ok? && acc.read(sdo).value.U8Value?
    ensures acc.read(sdo).Err? ==> r == Err(acc.read(sdo).error)
    ensures r.Ok? ==> r.value == acc.read(sdo).value.u8
    ensures acc.read(sdo).Ok? && !acc.read(sdo).value.U8Value? ==>
      r == Err(UnexpectedDataType)
  {
    var v :- acc.read(sdo);
    if v.U8Value? then Ok(v.u8) else Err(UnexpectedDataType)
  }

  /** An SDO read that must yield a U16, passed through `u16::from_be`. */
  function ReadU16FromBe(acc: SlaveAccess, sdo: SdoIdx): (r: Result<u16, Error>)
    ensures r.Ok? <==> acc.read(sdo).Ok? && acc.read(sdo).value.U16Value?
    ensures acc.read(sdo).Err? ==> r == Err(acc.read(sdo).error)
    ensures acc.read(sdo).Ok? && !acc.read(sdo).value.U16Value? ==>
      r == Err(UnexpectedDataType)
    ensures r.Ok? ==> BeBytes(r.value as nat, 2) == Reverse(BeBytes(acc.read(sdo).value.u16 as nat, 2))
  {
    var v :- acc.read(sdo);
    if v.U16Value? then
      FromBeSwapsBytes(v.u16 as nat, 2);
      Ok(FromBe(v.u16, 2))
    else Err(UnexpectedDataType)
  }

  /** An SDO read that must yield a U32, passed through `u32::from_be`. */
  function ReadU32FromBe(acc: SlaveAccess, sdo: SdoIdx): (r: Result<u32, Error>)
    ensures r.Ok? <==> acc.read(sdo).Ok? && acc.read(sdo).value.U32Value?
    ensures acc.read(sdo).Err? ==> r == Err(acc.read(sdo).error)
    ensures acc.read(sdo).Ok? && !acc.read(sdo).value.U32Value? ==>
      r == Err(UnexpectedDataType)
    ensures r.Ok? ==> BeBytes(r.value as nat, 4) == Reverse(BeBytes(acc.read(sdo).value.u32 as nat, 4))
  {
    var v :- acc.read(sdo);
    if v.U32Value? then
      FromBeSwapsBytes(v.u32 as nat, 4);
      Ok(FromBe(v.u32, 4))
    else Err(UnexpectedDataType)
  }

  /** The bytes the engine answered for a single-entry read of sdo. */
  function AnsweredBytes(m: Master, slave: SlavePos, sdo: SdoIdx): seq<byte>
    requires CachedSdoEntry(m, slave, sdo).Some?
  {
    var e := CachedSdoEntry(m, slave, sdo).value;
    var answer := m.engine.sdoRead(WireAddr(slave), sdo, false, ByteCount(e.bitLen as nat));
    if answer.Some? then answer.value else []
  }

  /** Decoding big-endian and then applying `from_be` reads the slave's
      bytes least significant first, as CoE transfers them: the PDO index
      and the mapping descriptor are the little-endian readings of the two
      and four bytes the slave answered. */
  lemma FromBeReadsLittleEndian(m: Master, slave: SlavePos, sdo: SdoIdx)
    ensures ReadU16FromBe(Access(m, slave), sdo).Ok? ==>
      |AnsweredBytes(m, slave, sdo)| == 2 && ReadU16FromBe(Access(m, slave), sdo).value == LeValue(AnsweredBytes(m, slave, sdo))
    ensures ReadU32FromBe(Access(m, slave), sdo).Ok? ==>
      |AnsweredBytes(m, slave, sdo)| == 4 && ReadU32FromBe(Access(m, slave), sdo).value == LeValue(AnsweredBytes(m, slave, sdo))
  {
    if ReadSdoEntry(m, slave, sdo).Ok? {
      FromBeOfBeValue(AnsweredBytes(m, slave, sdo));
    }
  }

  // ---------------------------------------------------------------------
  // Sync managers

  /** `sm_comm_type`: subindex `sub` of the SM communication type object. */
  function SmCommType(acc: SlaveAccess, sub: u8): Result<u8, Error>
  {
    ReadU8(acc, SdoIdx(SDO_IDX_SM_COMM_TYPE, sub))
  }

  /** Communication type of sync manager sm, stored at subindex sm + 1. */
  function SmTypeOf(acc: SlaveAccess, sm: nat): Result<u8, Error>
    requires sm < 255
  {
    SmCommType(acc, (sm + 1) as u8)
  }

  /** A sync manager and its communication type. */
  datatype SmEntry = SmEntry(sm: u8, commType: u8)

  /** The one pair that is dropped: SM2 reporting type 2 (mailbox read). */
  predicate MailboxQuirk(sm: nat, commType: u8)
  {
    sm == 2 && commType == SM_TYPE_MBX_READ
  }

  /** The number of sync managers that are scanned: the defined ones (the
      count read from 0x1C00:0, minus one), at most MAX_SM_CNT. */
  function SmCount(objCnt: u8): (n: nat)
    requires objCnt > 2
    ensures 2 <= n <= MAX_SM_CNT
    ensures n <= objCnt as nat - 1
    ensures n == objCnt as nat - 1 || n == MAX_SM_CNT
  {
    var smCnt := objCnt as nat - 1;
    if smCnt > MAX_SM_CNT then MAX_SM_CNT else smCnt
  }

  /** The scan of the sync managers first, first+1, ... given the type each
      one reported (`types[i]` for sync manager first + i), in ascending
      order. The result is strictly ascending, holds every scanned sync
      manager with its type except SM2 reporting type 2, and nothing else;
      the first failed read aborts the scan with its error. */
  function CollectSmTypes(types: seq<Result<u8, Error>>, first: nat): (r: Result<seq<SmEntry>, Error>)
    requires first + |types| <= 0x100
    ensures r.Ok? ==> forall i :: 0 <= i < |types| ==> types[i].Ok?
    ensures r.Ok? ==> forall e :: e in r.value <==> ScannedAs(types, first, e)
    ensures r.Ok? ==> AscendingSms(r.value)
    ensures r.Ok? ==> forall e :: e in r.value ==> first <= e.sm as nat
    ensures r.Err? ==> exists i: nat :: FirstFailure(types, i, r.error)
  {
    if |types| == 0 then Ok([])
    else
      match types[0]
      case Err(e) =>
        assert FirstFailure(types, 0, e);
        Err(e)
      case Ok(smType) =>
        var tail := types[1..];
        match CollectSmTypes(tail, first + 1)
        case Err(e) =>
          var i: nat :| FirstFailure(tail, i, e);
          assert FirstFailure(types, i + 1, e) by {
            forall j | 0 <= j < i + 1 ensures types[j].Ok? {
              if j > 0 { assert types[j] == tail[j - 1]; }
            }
          }
          Err(e)
        case Ok(rest) =>
          assert forall i :: 0 < i < |types| ==> types[i] == tail[i - 1];
          assert forall e :: ScannedAs(types, first, e) <==>
            (e == SmEntry(first as u8, smType) && !MailboxQuirk(first, smType)) || ScannedAs(tail, first + 1, e) by {
            forall e ensures ScannedAs(types, first, e) <==>
              (e == SmEntry(first as u8, smType) && !MailboxQuirk(first, smType)) || ScannedAs(tail, first + 1, e) {
              if first < e.sm as nat < first + |types| {
                assert types[e.sm as nat - first] == tail[e.sm as nat - (first + 1)];
              }
            }
          }
          if MailboxQuirk(first, smType) then Ok(rest)
          else
            var r := [SmEntry(first as u8, smType)] + rest;
            assert forall k :: 0 < k < |r| ==> r[k] == rest[k - 1];
            assert forall e :: e in r <==> e == r[0] || e in rest;
            Ok(r)
  }

  /** e is what the scan of `types` (starting at sync manager `first`)
      reports for e's sync manager. */
  predicate ScannedAs(types: seq<Result<u8, Error>>, first: nat, e: SmEntry)
  {
    && first <= e.sm as nat < first + |types|
    && types[e.sm as nat - first] == Ok(e.commType)
    && !MailboxQuirk(e.sm as nat, e.commType)
  }

  /** The read at position i is the first that failed, with error e. */
  predicate FirstFailure<T>(rs: seq<Result<T, Error>>, i: nat, e: Error)
  {
    && i < |rs| && rs[i] == Err(e)
    && forall j :: 0 <= j < i ==> rs[j].Ok?
  }

  /** The types reported by sync managers 2..=smCnt, in order. */
  function SmTypeReads(acc: SlaveAccess, smCnt: nat): (types: seq<Result<u8, Error>>)
    requires 2 <= smCnt <= MAX_SM_CNT
    ensures |types| == smCnt - 1
    ensures forall i :: 0 <= i < smCnt - 1 ==> types[i] == SmTypeOf(acc, 2 + i)
  {
    seq(smCnt - 1, i requires 0 <= i < smCnt - 1 => SmTypeOf(acc, 2 + i))
  }

  /** The sync managers 2..=smCnt, read in ascending order from
      0x1C00:(sm+1). */
  function ReadSmTypes(acc: SlaveAccess, smCnt: nat): Result<seq<SmEntry>, Error>
    requires 2 <= smCnt <= MAX_SM_CNT
  {
    CollectSmTypes(SmTypeReads(acc, smCnt), 2)
  }

  /** What the scan of one slave's sync managers lists: sync manager sm is
      listed, with the type read from 0x1C00:(sm+1), exactly when it is one
      of 2..=smCnt and is not SM2 reporting type 2; the list is strictly
      ascending. */
  lemma ReadSmTypesListed(acc: SlaveAccess, smCnt: nat, sm: nat, t: u8)
    requires 2 <= smCnt <= MAX_SM_CNT && sm < 0x100
    requires ReadSmTypes(acc, smCnt).Ok?
    ensures SmEntry(sm as u8, t) in ReadSmTypes(acc, smCnt).value <==>
      2 <= sm <= smCnt && SmTypeOf(acc, sm) == Ok(t) && !MailboxQuirk(sm, t)
    ensures AscendingSms(ReadSmTypes(acc, smCnt).value)
  {
    var types := SmTypeReads(acc, smCnt);
    if 2 <= sm <= smCnt {
      assert types[sm - 2] == SmTypeOf(acc, sm);
    }
  }

  /** A failed scan fails with the error of the first sync manager whose
      type could not be read. */
  lemma ReadSmTypesFails(acc: SlaveAccess, smCnt: nat)
    requires 2 <= smCnt <= MAX_SM_CNT
    requires ReadSmTypes(acc, smCnt).Err?
    ensures exists sm ::
      (2 <= sm <= smCnt && SmTypeOf(acc, sm) == Err(ReadSmTypes(acc, smCnt).error)
       && forall s :: 2 <= s < sm ==> SmTypeOf(acc, s).Ok?)
  {
    var types := SmTypeReads(acc, smCnt);
    var i: nat :| FirstFailure(types, i, ReadSmTypes(acc, smCnt).error);
    assert SmTypeOf(acc, 2 + i) == Err(ReadSmTypes(acc, smCnt).error);
    assert forall s :: 2 <= s < 2 + i ==> types[s - 2] == SmTypeOf(acc, s);
  }

  /** The sync managers of one type, in the order they were read. */
  function SmsOfType(types: seq<SmEntry>, t: u8): (r: seq<u8>)
    ensures forall s :: s in r <==> SmEntry(s, t) in types
    ensures |r| <= |types|
  {
    if |types| == 0 then []
    else
      var rest := SmsOfType(types[1..], t);
      assert forall e :: e in types <==> e == types[0] || e in types[1..];
      if types[0].commType == t then [types[0].sm] + rest else rest
  }

  /** Strictly ascending sync-manager numbers. */
  predicate Ascending(sms: seq<u8>)
  {
    forall k, j :: 0 <= k < j < |sms| ==> sms[k] < sms[j]
  }

  /** Strictly ascending by sync-manager number. */
  predicate AscendingSms(types: seq<SmEntry>)
  {
    forall k, j :: 0 <= k < j < |types| ==> types[k].sm < types[j].sm
  }

  /** Picking one type out of an ascending list keeps it ascending. */
  lemma {:induction false} SmsOfTypeAscending(types: seq<SmEntry>, t: u8)
    requires AscendingSms(types)
    ensures Ascending(SmsOfType(types, t))
  {
    if |types| > 0 {
      SmsOfTypeAscending(types[1..], t);
      var rest := SmsOfType(types[1..], t);
      forall s | s in rest ensures types[0].sm < s {
        assert SmEntry(s, t) in types[1..];
        var j :| 0 <= j < |types[1..]| && types[1..][j] == SmEntry(s, t);
        assert types[j + 1].sm == s;
      }
      if types[0].commType == t {
        var r := [types[0].sm] + rest;
        forall k, j | 0 <= k < j < |r| ensures r[k] < r[j] {
          if k > 0 {
            assert r[k] == rest[k - 1] && r[j] == rest[j - 1];
          } else {
            assert rest[j - 1] in rest;
          }
        }
      }
    }
  }

  /** The order in which sync managers are resolved: every outputs sync
      manager, then every inputs sync manager. */
  function ResolveOrder(types: seq<SmEntry>): (r: seq<u8>)
    ensures forall s :: s in r <==> SmEntry(s, SM_TYPE_OUTPUTS) in types || SmEntry(s, SM_TYPE_INPUTS) in types
  {
    SmsOfType(types, SM_TYPE_OUTPUTS) + SmsOfType(types, SM_TYPE_INPUTS)
  }

  /** In an ascending list no sync manager has two types. */
  lemma OneTypePerSm(types: seq<SmEntry>, s: u8, a: u8, b: u8)
    requires AscendingSms(types) && SmEntry(s, a) in types && SmEntry(s, b) in types
    ensures a == b
  {
    var i :| 0 <= i < |types| && types[i] == SmEntry(s, a);
    var j :| 0 <= j < |types| && types[j] == SmEntry(s, b);
    assert !(i < j) && !(j < i);
  }

  /** Every outputs sync manager is resolved before every inputs sync
      manager, and within each type the sync managers ascend. */
  lemma {:induction false} ResolveOrderOutputsFirst(types: seq<SmEntry>)
    requires AscendingSms(types)
    ensures var r := ResolveOrder(types);
      forall k, j ::
        (0 <= k < |r| && 0 <= j < |r| && SmEntry(r[k], SM_TYPE_OUTPUTS) in types
         && SmEntry(r[j], SM_TYPE_INPUTS) in types) ==> k < j
    ensures Ascending(SmsOfType(types, SM_TYPE_OUTPUTS)) && Ascending(SmsOfType(types, SM_TYPE_INPUTS))
  {
    SmsOfTypeAscending(types, SM_TYPE_OUTPUTS);
    SmsOfTypeAscending(types, SM_TYPE_INPUTS);
    var o, i := SmsOfType(types, SM_TYPE_OUTPUTS), SmsOfType(types, SM_TYPE_INPUTS);
    var r := o + i;
    forall k, j | 0 <= k < |r| && 0 <= j < |r| && SmEntry(r[k], SM_TYPE_OUTPUTS) in types
        && SmEntry(r[j], SM_TYPE_INPUTS) in types
      ensures k < j
    {
      if k >= |o| {
        assert r[k] in i;
        OneTypePerSm(types, r[k], SM_TYPE_OUTPUTS, SM_TYPE_INPUTS);
      }
      if j < |o| {
        assert r[j] in o;
        OneTypePerSm(types, r[j], SM_TYPE_OUTPUTS, SM_TYPE_INPUTS);
      }
    }
  }

  // ---------------------------------------------------------------------
  // Reading the PDOs assigned to one sync manager

  /** Entry positions run start, start + 1, ... without gaps. */
  predicate EntriesFrom(es: seq<PdoEntryInfo>, start: nat)
  {
    forall k :: 0 <= k < |es| ==> es[k].pos == start + k
  }

  /** The mapping descriptor at subindex s of PDO pdoIdx, read as a U32
      through `from_be`. */
  function DescriptorAt(acc: SlaveAccess, pdoIdx: u16, s: nat): Result<u32, Error>
    requires s < 0x100
  {
    ReadU32FromBe(acc, SdoIdx(pdoIdx, s as u8))
  }

  /** The name a mapped entry takes: the description of the dictionary
      entry it maps, or an empty name when the dictionary has none. */
  function EntryName(acc: SlaveAccess, sdo: SdoIdx): string
  {
    match acc.entry(sdo)
    case Some(info) => info.description
    case None => ""
  }

  /** Entry e maps what descriptor d describes: the unpacked index and
      subindex and bit length, named after the dictionary entry at that
      index. */
  predicate MapsDescriptor(acc: SlaveAccess, e: PdoEntryInfo, d: u32)
  {
    var mapping := UnpackDescriptor(d);
    && e.entryIdx == SdoIdx(mapping.idx, mapping.subIdx)
    && e.bitLen == mapping.bitLen
    && e.name == EntryName(acc, e.entryIdx)
  }

  /** The descriptor at subindex s of PDO pdoIdx can be read, and e is the
      entry it describes. */
  predicate MapsSubindex(acc: SlaveAccess, pdoIdx: u16, s: nat, e: PdoEntryInfo)
  {
    && s < 0x100
    && DescriptorAt(acc, pdoIdx, s).Ok?
    && MapsDescriptor(acc, e, DescriptorAt(acc, pdoIdx, s).value)
  }

  /** The mapped entries of PDO pdoIdx, subindexes sub..=cnt: each read as a
      32-bit descriptor through `from_be`, unpacked, and named after the
      dictionary entry it maps. Positions run from pos; the first
      descriptor that cannot be read aborts with its error. */
  function MapEntries(acc: SlaveAccess, pdoIdx: u16, sub: nat, cnt: u8, pos: nat)
    : (r: Result<seq<PdoEntryInfo>, Error>)
    requires 1 <= sub <= cnt as nat + 1
    decreases cnt as nat + 1 - sub
    ensures r.Ok? ==> |r.value| == cnt as nat + 1 - sub
    ensures r.Ok? ==> EntriesFrom(r.value, pos)
  {
    if sub > cnt as nat then Ok([])
    else
      match DescriptorAt(acc, pdoIdx, sub)
      case Err(err) => Err(err)
      case Ok(d) =>
        var mapping := UnpackDescriptor(d);
        var sdo := SdoIdx(mapping.idx, mapping.subIdx);
        match MapEntries(acc, pdoIdx, sub + 1, cnt, pos + 1)
        case Err(err) => Err(err)
        case Ok(rest) =>
          var r := [PdoEntryInfo(pos, sdo, mapping.bitLen, EntryName(acc, sdo))] + rest;
          assert forall k :: 0 < k < |r| ==> r[k] == rest[k - 1];
          Ok(r)
  }

  /** Entry k of the mapped entries is what the descriptor at subindex
      s = sub + k describes. */
  lemma {:induction false} MapEntriesAt(acc: SlaveAccess, pdoIdx: u16, sub: nat, cnt: u8, pos: nat, k: nat, s: nat)
    requires 1 <= sub <= cnt as nat + 1 && s == sub + k
    requires MapEntries(acc, pdoIdx, sub, cnt, pos).Ok? && k < |MapEntries(acc, pdoIdx, sub, cnt, pos).value|
    ensures MapsSubindex(acc, pdoIdx, s, MapEntries(acc, pdoIdx, sub, cnt, pos).value[k])
    decreases k
  {
    var r := MapEntries(acc, pdoIdx, sub, cnt, pos).value;
    var rest := MapEntries(acc, pdoIdx, sub + 1, cnt, pos + 1).value;
    assert r[1..] == rest;
    if k > 0 {
      MapEntriesAt(acc, pdoIdx, sub + 1, cnt, pos + 1, k - 1, s);
      assert r[k] == rest[k - 1];
    }
  }

  /** The mapped entries are read exactly when every descriptor can be
      read; otherwise the error is that of the first descriptor that cannot. */
  lemma {:induction false} MapEntriesSucceeds(acc: SlaveAccess, pdoIdx: u16, sub: nat, cnt: u8, pos: nat)
    requires 1 <= sub <= cnt as nat + 1
    ensures MapEntries(acc, pdoIdx, sub, cnt, pos).Ok? <==>
      forall s :: sub <= s <= cnt as nat ==> DescriptorAt(acc, pdoIdx, s).Ok?
    ensures MapEntries(acc, pdoIdx, sub, cnt, pos).Err? ==>
      exists s :: && sub <= s <= cnt as nat
                  && (forall t :: sub <= t < s ==> DescriptorAt(acc, pdoIdx, t).Ok?)
                  && DescriptorAt(acc, pdoIdx, s) == Err(MapEntries(acc, pdoIdx, sub, cnt, pos).error)
    decreases cnt as nat + 1 - sub
  {
    var r := MapEntries(acc, pdoIdx, sub, cnt, pos);
    if sub <= cnt as nat && DescriptorAt(acc, pdoIdx, sub).Ok? {
      MapEntriesSucceeds(acc, pdoIdx, sub + 1, cnt, pos + 1);
      if r.Err? {
        assert MapEntries(acc, pdoIdx, sub + 1, cnt, pos + 1) == r;
        var s :| && sub + 1 <= s <= cnt as nat
                 && (forall t :: sub + 1 <= t < s ==> DescriptorAt(acc, pdoIdx, t).Ok?)
                 && DescriptorAt(acc, pdoIdx, s) == Err(r.error);
        assert forall t :: sub <= t < s ==> DescriptorAt(acc, pdoIdx, t).Ok?;
      }
    } else if sub <= cnt as nat {
      assert DescriptorAt(acc, pdoIdx, sub) == Err(r.error);
    }
  }

  /** `si_pdo_assign`'s loop over the mapped entries of PDO pdoIdx,
      subindexes 1..=cnt: entry k maps what the descriptor at subindex
      k + 1 describes, and positions run from pos. The read succeeds exactly
      when every descriptor can be read, and fails with the error of the
      first that cannot. */
  function ReadPdoEntries(acc: SlaveAccess, pdoIdx: u16, cnt: u8, pos: nat)
    : (r: Result<seq<PdoEntryInfo>, Error>)
    ensures r.Ok? <==> forall s :: 1 <= s <= cnt as nat ==> DescriptorAt(acc, pdoIdx, s).Ok?
    ensures r.Ok? ==> |r.value| == cnt as nat
    ensures r.Ok? ==> EntriesFrom(r.value, pos)
    ensures r.Ok? ==> forall k :: 0 <= k < |r.value| ==>
      MapsSubindex(acc, pdoIdx, k + 1, r.value[k])
    ensures r.Err? ==> exists s :: && 1 <= s <= cnt as nat
                                  && (forall t :: 1 <= t < s ==> DescriptorAt(acc, pdoIdx, t).Ok?)
                                  && DescriptorAt(acc, pdoIdx, s) == Err(r.error)
  {
    MapEntriesSucceeds(acc, pdoIdx, 1, cnt, pos);
    var r := MapEntries(acc, pdoIdx, 1, cnt, pos);
    if r.Ok? then
      MapEntriesAll(acc, pdoIdx, cnt, pos);
      r
    else r
  }

  /** Every entry of a successful read maps its descriptor. */
  lemma MapEntriesAll(acc: SlaveAccess, pdoIdx: u16, cnt: u8, pos: nat)
    requires MapEntries(acc, pdoIdx, 1, cnt, pos).Ok?
    ensures forall k :: 0 <= k < |MapEntries(acc, pdoIdx, 1, cnt, pos).value| ==>
      MapsSubindex(acc, pdoIdx, k + 1, MapEntries(acc, pdoIdx, 1, cnt, pos).value[k])
  {
    forall k | 0 <= k < |MapEntries(acc, pdoIdx, 1, cnt, pos).value|
      ensures MapsSubindex(acc, pdoIdx, k + 1, MapEntries(acc, pdoIdx, 1, cnt, pos).value[k])
    {
      MapEntriesAt(acc, pdoIdx, 1, cnt, pos, k, k + 1);
    }
  }

  /** What is read for one assigned PDO: its index, its entry count, and
      its entries. */
  datatype PdoRead = PdoRead(idx: u16, entryCount: u8, entries: seq<PdoEntryInfo>)

  /** Every read for the PDO assigned at subindex sub of assignIdx
      succeeds: its index, its entry count, and each of its mapping
      descriptors. */
  predicate PdoReadable(acc: SlaveAccess, assignIdx: u16, sub: u8)
  {
    var pdoIdx := ReadU16FromBe(acc, SdoIdx(assignIdx, sub));
    && pdoIdx.Ok?
    && ReadU8(acc, SdoIdx(pdoIdx.value, 0)).Ok?
    && forall s :: 1 <= s <= ReadU8(acc, SdoIdx(pdoIdx.value, 0)).value as nat ==>
         DescriptorAt(acc, pdoIdx.value, s).Ok?
  }

  /** Read the PDO assigned at subindex `sub` of assignment object
      `assignIdx`: its index (a U16 through `from_be`), its entry count
      (a U8 at subindex 0 of the PDO), then its entries from position
      entryPos. The first read that fails aborts with its error. */
  function ReadOnePdo(acc: SlaveAccess, assignIdx: u16, sub: u8, entryPos: nat)
    : (r: Result<PdoRead, Error>)
    ensures r.Ok? <==> PdoReadable(acc, assignIdx, sub)
    ensures r.Ok? ==> ReadU16FromBe(acc, SdoIdx(assignIdx, sub)) == Ok(r.value.idx)
    ensures r.Ok? ==> ReadU8(acc, SdoIdx(r.value.idx, 0)) == Ok(r.value.entryCount)
    ensures r.Ok? ==> |r.value.entries| == r.value.entryCount as nat
    ensures r.Ok? ==> EntriesFrom(r.value.entries, entryPos)
    ensures r.Ok? ==> forall k :: 0 <= k < |r.value.entries| ==>
      MapsSubindex(acc, r.value.idx, k + 1, r.value.entries[k])
    ensures r.Err? ==> var pdoIdx := ReadU16FromBe(acc, SdoIdx(assignIdx, sub));
      if pdoIdx.Err? then r.error == pdoIdx.error
      else if ReadU8(acc, SdoIdx(pdoIdx.value, 0)).Err? then r.error == ReadU8(acc, SdoIdx(pdoIdx.value, 0)).error
      else exists s ::
        && 1 <= s <= ReadU8(acc, SdoIdx(pdoIdx.value, 0)).value as nat
        && (forall t :: 1 <= t < s ==> DescriptorAt(acc, pdoIdx.value, t).Ok?)
        && DescriptorAt(acc, pdoIdx.value, s) == Err(r.error)
  {
    match ReadU16FromBe(acc, SdoIdx(assignIdx, sub))
    case Err(err) => Err(err)
    case Ok(pdoIdx) =>
      match ReadU8(acc, SdoIdx(pdoIdx, 0))
      case Err(err) => Err(err)
      case Ok(cnt) =>
        match ReadPdoEntries(acc, pdoIdx, cnt, entryPos)
        case Err(err) => Err(err)
        case Ok(entries) => Ok(PdoRead(pdoIdx, cnt, entries))
  }

  /** The entries of a list of PDO rds, in order. */
  function ReadEntries(rds: seq<PdoRead>): seq<PdoEntryInfo>
  {
    if |rds| == 0 then [] else rds[0].entries + ReadEntries(rds[1..])
  }

  /** Every read PDO has as many entries as its entry count says. */
  predicate CountedReads(rds: seq<PdoRead>)
  {
    forall k :: 0 <= k < |rds| ==> |rds[k].entries| == rds[k].entryCount as nat
  }

  /** rds are the PDOs read at subindexes sub, sub + 1, ... of assignIdx,
      in order, each numbering its entries from where the one before it
      stopped. */
  predicate ReadInOrder(acc: SlaveAccess, assignIdx: u16, sub: nat, rds: seq<PdoRead>, entryPos: nat)
    decreases |rds|
  {
    || |rds| == 0
    || (&& sub < 0x100
        && ReadOnePdo(acc, assignIdx, sub as u8, entryPos) == Ok(rds[0])
        && ReadInOrder(acc, assignIdx, sub + 1, rds[1..], entryPos + |rds[0].entries|))
  }

  /** Subindex s is the first of sub..=cnt whose PDO cannot be read, and
      err is the error its read fails with. */
  ghost predicate PdoFailsFirstAt(acc: SlaveAccess, assignIdx: u16, sub: nat, cnt: u8, s: u8, err: Error)
  {
    && sub <= s as nat <= cnt as nat
    && (forall t: u8 :: sub <= t as nat < s as nat ==> PdoReadable(acc, assignIdx, t))
    && exists e: nat :: ReadOnePdo(acc, assignIdx, s, e) == Err(err)
  }

  /** Some subindex of sub..=cnt is the first whose PDO cannot be read, and
      err is its error. */
  ghost predicate PdoFailsFirst(acc: SlaveAccess, assignIdx: u16, sub: nat, cnt: u8, err: Error)
  {
    exists s: u8 :: PdoFailsFirstAt(acc, assignIdx, sub, cnt, s, err)
  }

  /** A PDO that cannot be read at sub is the first failure from sub. */
  lemma PdoFailsHere(acc: SlaveAccess, assignIdx: u16, sub: nat, cnt: u8, entryPos: nat, err: Error)
    requires 1 <= sub <= cnt as nat
    requires ReadOnePdo(acc, assignIdx, sub as u8, entryPos) == Err(err)
    ensures PdoFailsFirst(acc, assignIdx, sub, cnt, err)
  {
    assert PdoFailsFirstAt(acc, assignIdx, sub, cnt, sub as u8, err);
  }

  /** After a readable PDO at sub, the first failure from sub + 1 is the
      first failure from sub. */
  lemma PdoFailsLater(acc: SlaveAccess, assignIdx: u16, sub: nat, cnt: u8, err: Error)
    requires 1 <= sub <= cnt as nat && PdoReadable(acc, assignIdx, sub as u8)
    requires PdoFailsFirst(acc, assignIdx, sub + 1, cnt, err)
    ensures PdoFailsFirst(acc, assignIdx, sub, cnt, err)
  {
    var s: u8 :| PdoFailsFirstAt(acc, assignIdx, sub + 1, cnt, s, err);
    forall t: u8 | sub <= t as nat < s as nat ensures PdoReadable(acc, assignIdx, t) {
      if t as nat == sub { assert t == sub as u8; }
    }
    assert PdoFailsFirstAt(acc, assignIdx, sub, cnt, s, err);
  }

  /** The PDOs assigned at subindexes sub..=cnt of `assignIdx`, read in
      order, empty ones included; entry positions continue from one PDO to
      the next. The read succeeds exactly when every assigned PDO can be
      read. */
  function ReadAssigned(acc: SlaveAccess, assignIdx: u16, sub: nat, cnt: u8, entryPos: nat)
    : (r: Result<seq<PdoRead>, Error>)
    requires 1 <= sub <= cnt as nat + 1
    decreases cnt as nat + 1 - sub
    ensures r.Ok? <==> forall s: u8 :: sub <= s as nat <= cnt as nat ==> PdoReadable(acc, assignIdx, s)
    ensures r.Ok? ==> |r.value| == cnt as nat + 1 - sub
    ensures r.Ok? ==> CountedReads(r.value)
    ensures r.Ok? ==> EntriesFrom(ReadEntries(r.value), entryPos)
    ensures r.Ok? ==> ReadInOrder(acc, assignIdx, sub, r.value, entryPos)
    ensures r.Err? ==> PdoFailsFirst(acc, assignIdx, sub, cnt, r.error)
  {
    if sub > cnt as nat then Ok([])
    else
      match ReadOnePdo(acc, assignIdx, sub as u8, entryPos)
      case Err(err) =>
        assert !PdoReadable(acc, assignIdx, sub as u8);
        PdoFailsHere(acc, assignIdx, sub, cnt, entryPos, err);
        Err(err)
      case Ok(rd) =>
        assert PdoReadable(acc, assignIdx, sub as u8);
        match ReadAssigned(acc, assignIdx, sub + 1, cnt, entryPos + |rd.entries|)
        case Err(err) =>
          assert !forall s: u8 :: sub + 1 <= s as nat <= cnt as nat ==> PdoReadable(acc, assignIdx, s);
          PdoFailsLater(acc, assignIdx, sub, cnt, err);
          Err(err)
        case Ok(rest) =>
          var r := [rd] + rest;
          ReadInOrderCons(acc, assignIdx, sub as u8, rd, rest, entryPos);
          assert r[1..] == rest;
          assert ReadEntries(r) == rd.entries + ReadEntries(rest);
          assert forall s: u8 :: sub <= s as nat <= cnt as nat ==> PdoReadable(acc, assignIdx, s) by {
            forall s: u8 | sub <= s as nat <= cnt as nat ensures PdoReadable(acc, assignIdx, s) {
              if s as nat == sub { assert s == sub as u8; }
            }
          }
          Ok(r)
  }

  /** A PDO read at sub, followed by reads in order from sub + 1 that
      start after its entries, are reads in order from sub. */
  lemma ReadInOrderCons(acc: SlaveAccess, assignIdx: u16, sub: u8, rd: PdoRead, rest: seq<PdoRead>, entryPos: nat)
    requires ReadOnePdo(acc, assignIdx, sub, entryPos) == Ok(rd)
    requires ReadInOrder(acc, assignIdx, sub as nat + 1, rest, entryPos + |rd.entries|)
    ensures ReadInOrder(acc, assignIdx, sub as nat, [rd] + rest, entryPos)
  {
    var r := [rd] + rest;
    assert r[0] == rd && r[1..] == rest;
  }

  /** The assignment object of sync manager sm: 0x1C10 + sm. */
  function AssignIdx(sm: u8): u16
  {
    SDO_IDX_PDO_ASSIGN + sm as u16
  }

  /** Everything assigned to sync manager sm: the PDO count (a U8 at
      subindex 0 of its assignment object), then that many PDOs. */
  function ReadAssignment(acc: SlaveAccess, sm: u8, entryPos: nat)
    : (r: Result<seq<PdoRead>, Error>)
    ensures ReadU8(acc, SdoIdx(AssignIdx(sm), 0)).Err? ==> r == Err(ReadU8(acc, SdoIdx(AssignIdx(sm), 0)).error)
    ensures r.Ok? <==> && ReadU8(acc, SdoIdx(AssignIdx(sm), 0)).Ok?
                       && forall s: u8 :: 1 <= s as nat <= ReadU8(acc, SdoIdx(AssignIdx(sm), 0)).value as nat ==>
                            PdoReadable(acc, AssignIdx(sm), s)
    ensures r.Ok? ==> |r.value| == ReadU8(acc, SdoIdx(AssignIdx(sm), 0)).value as nat
    ensures r.Ok? ==> ReadInOrder(acc, AssignIdx(sm), 1, r.value, entryPos)
    ensures r.Ok? ==> CountedReads(r.value)
    ensures r.Ok? ==> EntriesFrom(ReadEntries(r.value), entryPos)
    ensures ReadU8(acc, SdoIdx(AssignIdx(sm), 0)).Ok? && r.Err? ==>
      PdoFailsFirst(acc, AssignIdx(sm), 1, ReadU8(acc, SdoIdx(AssignIdx(sm), 0)).value, r.error)
  {
    match ReadU8(acc, SdoIdx(AssignIdx(sm), 0))
    case Err(err) => Err(err)
    case Ok(cnt) =>
      ReadAssigned(acc, AssignIdx(sm), 1, cnt, entryPos)
  }

  // ---------------------------------------------------------------------
  // Numbering the PDOs of one sync manager

  /** The entries of a list of PDOs, in order. */
  function AllEntries(pdos: seq<Pdo>): seq<PdoEntryInfo>
  {
    if |pdos| == 0 then [] else pdos[0].entries + AllEntries(pdos[1..])
  }

  /** How many entries a list of PDOs holds. */
  function EntryCount(pdos: seq<Pdo>): nat
  {
    if |pdos| == 0 then 0 else |pdos[0].entries| + EntryCount(pdos[1..])
  }

  lemma {:induction false} EntryCountIsLength(pdos: seq<Pdo>)
    ensures EntryCount(pdos) == |AllEntries(pdos)|
    decreases |pdos|
  {
    if |pdos| > 0 {
      EntryCountIsLength(pdos[1..]);
    }
  }

  lemma {:induction false} AllEntriesAppend(a: seq<Pdo>, b: seq<Pdo>)
    ensures AllEntries(a + b) == AllEntries(a) + AllEntries(b)
  {
    if |a| == 0 {
      assert a + b == b;
    } else {
      assert (a + b)[1..] == a[1..] + b;
      AllEntriesAppend(a[1..], b);
    }
  }

  /** PDO positions run start, start + 1, ... without gaps. */
  predicate PdosFrom(pdos: seq<Pdo>, start: nat)
  {
    forall k :: 0 <= k < |pdos| ==> pdos[k].info.pos == start + k
  }

  /** Every PDO maps at least one entry. */
  predicate NonEmptyPdos(pdos: seq<Pdo>)
  {
    forall k :: 0 <= k < |pdos| ==> |pdos[k].entries| > 0
  }

  /** Every PDO's entry count is the number of its entries. */
  predicate CountedPdos(pdos: seq<Pdo>)
  {
    forall k :: 0 <= k < |pdos| ==> |pdos[k].entries| == pdos[k].info.entryCount as nat
  }

  /** Every PDO belongs to sync manager sm. */
  predicate OnSm(pdos: seq<Pdo>, sm: u8)
  {
    forall k :: 0 <= k < |pdos| ==> pdos[k].info.sm == sm
  }

  /** The PDO record for a non-empty PDO read, named after the object its
      first entry maps (empty name when the dictionary has none). */
  function MakePdo(acc: SlaveAccess, sm: u8, pos: nat, rd: PdoRead): (p: Pdo)
    requires |rd.entries| > 0
    ensures p.info.sm == sm && p.info.pos == pos
    ensures p.info.idx == rd.idx && p.info.entryCount == rd.entryCount && p.entries == rd.entries
    ensures acc.info(rd.entries[0].entryIdx.idx).Some? ==>
      p.info.name == acc.info(rd.entries[0].entryIdx.idx).value.name
    ensures acc.info(rd.entries[0].entryIdx.idx).None? ==> p.info.name == ""
  {
    var name := match acc.info(rd.entries[0].entryIdx.idx)
      case Some(info) => info.name
      case None => "";
    Pdo(PdoInfo(sm, pos, rd.idx, rd.entryCount, name), rd.entries)
  }

  /** No read PDO is empty. */
  predicate NoEmptyReads(rds: seq<PdoRead>)
  {
    forall k :: 0 <= k < |rds| ==> |rds[k].entries| > 0
  }

  /** The reads that map at least one entry, in their original order. */
  function Kept(rds: seq<PdoRead>): (r: seq<PdoRead>)
    ensures |r| <= |rds| && NoEmptyReads(r)
    ensures forall rd :: rd in r <==> rd in rds && |rd.entries| > 0
  {
    if |rds| == 0 then []
    else if |rds[0].entries| == 0 then Kept(rds[1..])
    else [rds[0]] + Kept(rds[1..])
  }

  /** Nothing is dropped from reads that all map entries. */
  lemma {:induction false} KeptAll(rds: seq<PdoRead>)
    requires NoEmptyReads(rds)
    ensures Kept(rds) == rds
  {
    if |rds| > 0 {
      var tail := rds[1..];
      assert NoEmptyReads(tail) by {
        assert forall k :: 0 <= k < |tail| ==> tail[k] == rds[k + 1];
      }
      KeptAll(tail);
      assert rds == [rds[0]] + tail;
    }
  }

  /** Reads that all map entries made into PDOs of sync manager sm at
      positions nextPos, nextPos + 1, ... one per read, in order. */
  function Numbered(acc: SlaveAccess, sm: u8, rds: seq<PdoRead>, nextPos: nat): (r: seq<Pdo>)
    requires NoEmptyReads(rds)
    ensures |r| == |rds|
  {
    seq(|rds|, k requires 0 <= k < |rds| => MakePdo(acc, sm, nextPos + k, rds[k]))
  }

  /** The emitted PDOs of one sync manager: PDOs without entries are
      dropped, and the emitted ones take positions nextPos, nextPos + 1, ...
      The entries are kept as read, so nothing but empty PDOs is lost. */
  function PlacePdos(acc: SlaveAccess, sm: u8, rds: seq<PdoRead>, nextPos: nat): (r: seq<Pdo>)
    ensures |r| <= |rds|
    ensures NonEmptyPdos(r) && PdosFrom(r, nextPos) && OnSm(r, sm)
    ensures CountedReads(rds) ==> CountedPdos(r)
    ensures AllEntries(r) == ReadEntries(rds)
  {
    if |rds| == 0 then []
    else if |rds[0].entries| == 0 then
      PlacePdos(acc, sm, rds[1..], nextPos)
    else
      var p := MakePdo(acc, sm, nextPos, rds[0]);
      var rest := PlacePdos(acc, sm, rds[1..], nextPos + 1);
      assert ([p] + rest)[1..] == rest;
      [p] + rest
  }

  /** Numbering a first read, then the rest one position on. */
  lemma NumberedCons(acc: SlaveAccess, sm: u8, rd: PdoRead, rds: seq<PdoRead>, nextPos: nat)
    requires |rd.entries| > 0 && NoEmptyReads(rds) && NoEmptyReads([rd] + rds)
    ensures Numbered(acc, sm, [rd] + rds, nextPos) == [MakePdo(acc, sm, nextPos, rd)] + Numbered(acc, sm, rds, nextPos + 1)
  {
    var lhs := Numbered(acc, sm, [rd] + rds, nextPos);
    var rhs := [MakePdo(acc, sm, nextPos, rd)] + Numbered(acc, sm, rds, nextPos + 1);
    forall k | 0 <= k < |lhs| ensures lhs[k] == rhs[k] {
      if k > 0 {
        assert ([rd] + rds)[k] == rds[k - 1];
        assert nextPos + k == nextPos + 1 + (k - 1);
      }
    }
  }

  /** The emitted PDOs are exactly the non-empty reads, in order, numbered
      on from nextPos. */
  lemma {:induction false} PlacePdosNumbersKept(acc: SlaveAccess, sm: u8, rds: seq<PdoRead>, nextPos: nat)
    ensures PlacePdos(acc, sm, rds, nextPos) == Numbered(acc, sm, Kept(rds), nextPos)
    decreases |rds|
  {
    if |rds| > 0 {
      var tail := rds[1..];
      if |rds[0].entries| == 0 {
        PlacePdosNumbersKept(acc, sm, tail, nextPos);
      } else {
        PlacePdosNumbersKept(acc, sm, tail, nextPos + 1);
        assert Kept(rds) == [rds[0]] + Kept(tail);
        NumberedCons(acc, sm, rds[0], Kept(tail), nextPos);
      }
    }
  }

  /** PDO numbering as the source writes it: the PDO at subindex s gets
      position offset + s - 1, counting dropped empty PDOs too. Within one
      sync manager the positions ascend and stay below offset + |rds|
      (with sub = 1). */
  function PlacePdosAsWritten(acc: SlaveAccess, sm: u8, rds: seq<PdoRead>, offset: nat, sub: nat)
    : (r: seq<Pdo>)
    requires sub >= 1
    ensures |r| <= |rds|
    ensures NonEmptyPdos(r) && OnSm(r, sm)
    ensures forall k :: 0 <= k < |r| ==> offset + sub - 1 <= r[k].info.pos < offset + sub - 1 + |rds|
    ensures forall k, j :: 0 <= k < j < |r| ==> r[k].info.pos < r[j].info.pos
  {
    if |rds| == 0 then []
    else
      var rest := PlacePdosAsWritten(acc, sm, rds[1..], offset, sub + 1);
      if |rds[0].entries| == 0 then rest
      else [MakePdo(acc, sm, offset + sub - 1, rds[0])] + rest
  }

  /** p is the record the source's numbering makes for some non-empty read
      i of rds: the read at assignment subindex sub + i, at position
      offset + sub - 1 + i. */
  ghost predicate PlacedBySubindex(acc: SlaveAccess, sm: u8, rds: seq<PdoRead>, offset: nat, sub: nat, p: Pdo)
    requires sub >= 1
  {
    exists i :: 0 <= i < |rds| && |rds[i].entries| > 0 && p == MakePdo(acc, sm, offset + sub - 1 + i, rds[i])
  }

  /** Every PDO the source's numbering emits is a non-empty read i of rds
      at position offset + sub - 1 + i. */
  lemma {:induction false} AsWrittenEmitsPlaced(acc: SlaveAccess, sm: u8, rds: seq<PdoRead>, offset: nat, sub: nat)
    requires sub >= 1
    ensures forall k :: 0 <= k < |PlacePdosAsWritten(acc, sm, rds, offset, sub)| ==>
      PlacedBySubindex(acc, sm, rds, offset, sub, PlacePdosAsWritten(acc, sm, rds, offset, sub)[k])
    decreases |rds|
  {
    if |rds| > 0 {
      var r := PlacePdosAsWritten(acc, sm, rds, offset, sub);
      var rest := PlacePdosAsWritten(acc, sm, rds[1..], offset, sub + 1);
      AsWrittenEmitsPlaced(acc, sm, rds[1..], offset, sub + 1);
      forall k | 0 <= k < |rest| ensures PlacedBySubindex(acc, sm, rds, offset, sub, rest[k]) {
        PlacedShift(acc, sm, rds, offset, sub, rest[k]);
      }
      if |rds[0].entries| == 0 {
        PlaceAsWrittenSkip(acc, sm, rds, offset, sub);
      } else {
        PlaceAsWrittenHead(acc, sm, rds, offset, sub);
        var p := MakePdo(acc, sm, offset + sub - 1 + 0, rds[0]);
        assert PlacedBySubindex(acc, sm, rds, offset, sub, p);
        assert r == [p] + rest;
        assert forall k :: 0 < k < |r| ==> r[k] == rest[k - 1];
      }
    }
  }

  /** A record placed for read i of rds[1..] from subindex sub + 1 is the
      record placed for read i + 1 of rds from subindex sub. */
  lemma PlacedShift(acc: SlaveAccess, sm: u8, rds: seq<PdoRead>, offset: nat, sub: nat, p: Pdo)
    requires sub >= 1 && |rds| > 0
    requires PlacedBySubindex(acc, sm, rds[1..], offset, sub + 1, p)
    ensures PlacedBySubindex(acc, sm, rds, offset, sub, p)
  {
    var tail := rds[1..];
    var i :| 0 <= i < |tail| && |tail[i].entries| > 0 && p == MakePdo(acc, sm, offset + (sub + 1) - 1 + i, tail[i]);
    assert rds[i + 1] == tail[i];
    assert offset + sub - 1 + (i + 1) == offset + (sub + 1) - 1 + i;
  }

  /** Every non-empty read i of rds has its record at position
      offset + sub - 1 + i among out. */
  ghost predicate AllPlaced(acc: SlaveAccess, sm: u8, rds: seq<PdoRead>, offset: nat, sub: nat, out: seq<Pdo>)
    requires sub >= 1
  {
    forall i :: 0 <= i < |rds| && |rds[i].entries| > 0 ==>
      MakePdo(acc, sm, offset + sub - 1 + i, rds[i]) in out
  }

  /** The source's numbering emits every non-empty read i of rds, at
      position offset + sub - 1 + i. */
  lemma {:induction false} AsWrittenPlacesAll(acc: SlaveAccess, sm: u8, rds: seq<PdoRead>, offset: nat, sub: nat)
    requires sub >= 1
    ensures AllPlaced(acc, sm, rds, offset, sub, PlacePdosAsWritten(acc, sm, rds, offset, sub))
    decreases |rds|
  {
    if |rds| > 0 {
      var rest := PlacePdosAsWritten(acc, sm, rds[1..], offset, sub + 1);
      AsWrittenPlacesAll(acc, sm, rds[1..], offset, sub + 1);
      var first: seq<Pdo>;
      if |rds[0].entries| == 0 {
        PlaceAsWrittenSkip(acc, sm, rds, offset, sub);
        first := [];
      } else {
        PlaceAsWrittenHead(acc, sm, rds, offset, sub);
        first := [MakePdo(acc, sm, offset + sub - 1, rds[0])];
      }
      PlacesAllStep(acc, sm, rds, offset, sub, first, rest);
    }
  }

  /** One step of AsWrittenPlacesAll, over the emitted PDOs as values: the
      first read's record (if any) followed by the tail's records. */
  lemma PlacesAllStep(acc: SlaveAccess, sm: u8, rds: seq<PdoRead>, offset: nat, sub: nat,
                      first: seq<Pdo>, rest: seq<Pdo>)
    requires sub >= 1 && |rds| > 0
    requires |rds[0].entries| > 0 ==> first == [MakePdo(acc, sm, offset + sub - 1, rds[0])]
    requires AllPlaced(acc, sm, rds[1..], offset, sub + 1, rest)
    ensures AllPlaced(acc, sm, rds, offset, sub, first + rest)
  {
    forall i | 0 <= i < |rds| && |rds[i].entries| > 0
      ensures MakePdo(acc, sm, offset + sub - 1 + i, rds[i]) in first + rest
    {
      if i > 0 {
        PlacedLater(acc, sm, rds, offset, sub, i, first, rest);
      } else {
        assert (first + rest)[0] == MakePdo(acc, sm, offset + sub - 1 + i, rds[i]);
      }
    }
  }

  /** Read i > 0 of rds is read i - 1 of rds[1..], one subindex on, so
      what the tail's numbering emits for it is what the whole emits. */
  lemma PlacedLater(acc: SlaveAccess, sm: u8, rds: seq<PdoRead>, offset: nat, sub: nat, i: nat,
                    first: seq<Pdo>, rest: seq<Pdo>)
    requires sub >= 1 && 0 < i < |rds| && |rds[i].entries| > 0
    requires AllPlaced(acc, sm, rds[1..], offset, sub + 1, rest)
    ensures MakePdo(acc, sm, offset + sub - 1 + i, rds[i]) in first + rest
  {
    var tail := rds[1..];
    assert tail[i - 1] == rds[i];
    assert offset + (sub + 1) - 1 + (i - 1) == offset + sub - 1 + i;
    assert MakePdo(acc, sm, offset + sub - 1 + i, rds[i]) in rest;
  }

  /** The source's numbering drops a first PDO without entries, and the
      rest keep their subindexes. */
  lemma PlaceAsWrittenSkip(acc: SlaveAccess, sm: u8, rds: seq<PdoRead>, offset: nat, sub: nat)
    requires sub >= 1 && |rds| > 0 && |rds[0].entries| == 0
    ensures PlacePdosAsWritten(acc, sm, rds, offset, sub) == PlacePdosAsWritten(acc, sm, rds[1..], offset, sub + 1)
  {
  }

  /** When no PDO is dropped the source's numbering is the corrected one. */
  lemma {:induction false} PlaceAgreesWithoutEmpty(acc: SlaveAccess, sm: u8, rds: seq<PdoRead>, offset: nat, sub: nat)
    requires sub >= 1 && NoEmptyReads(rds)
    ensures PlacePdosAsWritten(acc, sm, rds, offset, sub) == PlacePdos(acc, sm, rds, offset + sub - 1)
  {
    if |rds| > 0 {
      NoEmptyTail(rds);
      var p := MakePdo(acc, sm, offset + sub - 1, rds[0]);
      var asWritten := PlacePdosAsWritten(acc, sm, rds[1..], offset, sub + 1);
      var corrected := PlacePdos(acc, sm, rds[1..], offset + sub);
      PlaceAgreesWithoutEmpty(acc, sm, rds[1..], offset, sub + 1);
      assert asWritten == corrected;
      PlaceAsWrittenHead(acc, sm, rds, offset, sub);
      PlaceHead(acc, sm, rds, offset + sub - 1);
      assert PlacePdosAsWritten(acc, sm, rds, offset, sub) == [p] + asWritten;
      assert PlacePdos(acc, sm, rds, offset + sub - 1) == [p] + corrected;
    }
  }

  /** Dropping the first read of a list without empty PDOs leaves one
      without empty PDOs. */
  lemma NoEmptyTail(rds: seq<PdoRead>)
    requires |rds| > 0 && NoEmptyReads(rds)
    ensures |rds[0].entries| > 0 && NoEmptyReads(rds[1..])
  {
    assert forall k :: 0 <= k < |rds| - 1 ==> rds[1..][k] == rds[k + 1];
  }

  /** The source's numbering keeps a first PDO that has entries, at
      offset + sub - 1. */
  lemma PlaceAsWrittenHead(acc: SlaveAccess, sm: u8, rds: seq<PdoRead>, offset: nat, sub: nat)
    requires sub >= 1 && |rds| > 0 && |rds[0].entries| > 0
    ensures PlacePdosAsWritten(acc, sm, rds, offset, sub) ==
      [MakePdo(acc, sm, offset + sub - 1, rds[0])] + PlacePdosAsWritten(acc, sm, rds[1..], offset, sub + 1)
  {
  }

  /** The corrected numbering keeps a first PDO that has entries, at
      nextPos. */
  lemma PlaceHead(acc: SlaveAccess, sm: u8, rds: seq<PdoRead>, nextPos: nat)
    requires |rds| > 0 && |rds[0].entries| > 0
    ensures PlacePdos(acc, sm, rds, nextPos) == [MakePdo(acc, sm, nextPos, rds[0])] + PlacePdos(acc, sm, rds[1..], nextPos + 1)
  {
  }

  /** `si_pdo_assign`, with the PDO positions numbered by emitted PDO: the
      PDOs of sync manager sm take positions pdoPosOffset, pdoPosOffset + 1,
      ... and their entries entryPosOffset, entryPosOffset + 1, ... */
  function SiPdoAssign(acc: SlaveAccess, sm: u8, pdoPosOffset: nat, entryPosOffset: nat)
    : (r: Result<seq<Pdo>, Error>)
    ensures r.Ok? <==> ReadAssignment(acc, sm, entryPosOffset).Ok?
    ensures r.Ok? ==> |r.value| <= |ReadAssignment(acc, sm, entryPosOffset).value|
    ensures r.Ok? ==> AllEntries(r.value) == ReadEntries(ReadAssignment(acc, sm, entryPosOffset).value)
    ensures r.Ok? ==> NonEmptyPdos(r.value) && CountedPdos(r.value) && OnSm(r.value, sm)
    ensures r.Ok? ==> PdosFrom(r.value, pdoPosOffset)
    ensures r.Ok? ==> EntriesFrom(AllEntries(r.value), entryPosOffset)
    ensures ReadAssignment(acc, sm, entryPosOffset).Err? ==> r == Err(ReadAssignment(acc, sm, entryPosOffset).error)
    ensures r.Ok? ==> r.value == Numbered(acc, sm, Kept(ReadAssignment(acc, sm, entryPosOffset).value), pdoPosOffset)
  {
    match ReadAssignment(acc, sm, entryPosOffset)
    case Err(e) => Err(e)
    case Ok(rds) =>
      PlacePdosNumbersKept(acc, sm, rds, pdoPosOffset);
      Ok(PlacePdos(acc, sm, rds, pdoPosOffset))
  }

  /** `si_pdo_assign` as the source writes it: the PDO at subindex s gets
      position pdoPosOffset + s - 1. */
  function SiPdoAssignAsWritten(acc: SlaveAccess, sm: u8, pdoPosOffset: nat, entryPosOffset: nat)
    : (r: Result<seq<Pdo>, Error>)
    ensures r.Ok? <==> ReadAssignment(acc, sm, entryPosOffset).Ok?
    ensures r.Ok? ==> NonEmptyPdos(r.value) && OnSm(r.value, sm)
    ensures r.Ok? ==> forall k :: 0 <= k < |r.value| ==>
      pdoPosOffset <= r.value[k].info.pos < pdoPosOffset + |ReadAssignment(acc, sm, entryPosOffset).value|
    ensures r.Ok? ==> forall k :: 0 <= k < |r.value| ==>
      PlacedBySubindex(acc, sm, ReadAssignment(acc, sm, entryPosOffset).value, pdoPosOffset, 1, r.value[k])
    ensures r.Ok? ==> AllPlaced(acc, sm, ReadAssignment(acc, sm, entryPosOffset).value, pdoPosOffset, 1, r.value)
  {
    match ReadAssignment(acc, sm, entryPosOffset)
    case Err(e) => Err(e)
    case Ok(rds) =>
      AsWrittenEmitsPlaced(acc, sm, rds, pdoPosOffset, 1);
      AsWrittenPlacesAll(acc, sm, rds, pdoPosOffset, 1);
      Ok(PlacePdosAsWritten(acc, sm, rds, pdoPosOffset, 1))
  }

  // ---------------------------------------------------------------------
  // PDOs of one slave

  /** The resolution of one sync manager, given the PDO and entry
      positions it starts from. */
  type SmAssign = (u8, nat, nat) -> Result<seq<Pdo>, Error>

  /** Every successful resolution emits only PDOs with entries. */
  ghost predicate EmitsNonEmpty(assign: SmAssign)
  {
    forall sm: u8, p: nat, e: nat :: assign(sm, p, e).Ok? ==> NonEmptyPdos(assign(sm, p, e).value)
  }

  /** Every successful resolution numbers its PDOs and entries on from the
      positions it was given, and each PDO holds as many entries as it
      declares. */
  ghost predicate NumbersOn(assign: SmAssign)
  {
    forall sm: u8, p: nat, e: nat :: assign(sm, p, e).Ok? ==>
      && CountedPdos(assign(sm, p, e).value)
      && PdosFrom(assign(sm, p, e).value, p)
      && EntriesFrom(AllEntries(assign(sm, p, e).value), e)
  }

  /** Every successful resolution places its PDOs at or after the PDO
      position it was given. */
  ghost predicate PlacesAtOrAfter(assign: SmAssign)
  {
    forall sm: u8, p: nat, e: nat :: assign(sm, p, e).Ok? ==>
      forall k :: 0 <= k < |assign(sm, p, e).value| ==> p <= assign(sm, p, e).value[k].info.pos
  }

  /** Every successful resolution keeps to the sync manager it was asked
      about. */
  ghost predicate KeepsSm(assign: SmAssign)
  {
    forall sm: u8, p: nat, e: nat :: assign(sm, p, e).Ok? ==> OnSm(assign(sm, p, e).value, sm)
  }

  /** The sync managers `sms` resolved in order, each starting its PDO and
      entry positions where the previous one stopped (advanced by the PDOs
      and entries it emitted); the first failure aborts the walk. */
  function WalkSms(assign: SmAssign, sms: seq<u8>, pdoPos: nat, entryPos: nat): Result<seq<Pdo>, Error>
    decreases |sms|
  {
    if |sms| == 0 then Ok([])
    else
      var first := assign(sms[0], pdoPos, entryPos);
      if first.Err? then first
      else
        var rest := WalkSms(assign, sms[1..], pdoPos + |first.value|, entryPos + EntryCount(first.value));
        if rest.Err? then rest else Ok(first.value + rest.value)
  }

  /** One step of the walk: the first sync manager's PDOs, then the rest's,
      numbered on from where the first stopped. */
  lemma {:induction false} WalkStep(assign: SmAssign, sms: seq<u8>, pdoPos: nat, entryPos: nat, a: seq<Pdo>, rest: seq<Pdo>)
    requires |sms| > 0
    requires assign(sms[0], pdoPos, entryPos) == Ok(a)
    requires WalkSms(assign, sms[1..], pdoPos + |a|, entryPos + EntryCount(a)) == Ok(rest)
    ensures WalkSms(assign, sms, pdoPos, entryPos) == Ok(a + rest)
  {
  }

  /** After a successful first step, a failing walk over the rest aborts
      the whole walk with its error. */
  lemma WalkRestFails(assign: SmAssign, sms: seq<u8>, pdoPos: nat, entryPos: nat, a: seq<Pdo>, err: Error)
    requires |sms| > 0
    requires assign(sms[0], pdoPos, entryPos) == Ok(a)
    requires WalkSms(assign, sms[1..], pdoPos + |a|, entryPos + EntryCount(a)) == Err(err)
    ensures WalkSms(assign, sms, pdoPos, entryPos) == Err(err)
  {
  }

  /** A successful walk over a non-empty list is the first sync manager's
      successful resolution followed by the successful walk over the rest. */
  lemma {:induction false} WalkUnfold(assign: SmAssign, sms: seq<u8>, pdoPos: nat, entryPos: nat)
    requires |sms| > 0 && WalkSms(assign, sms, pdoPos, entryPos).Ok?
    ensures assign(sms[0], pdoPos, entryPos).Ok?
    ensures var a := assign(sms[0], pdoPos, entryPos).value;
      && WalkSms(assign, sms[1..], pdoPos + |a|, entryPos + EntryCount(a)).Ok?
      && WalkSms(assign, sms, pdoPos, entryPos).value ==
         a + WalkSms(assign, sms[1..], pdoPos + |a|, entryPos + EntryCount(a)).value
  {
  }

  /** The walk emits only PDOs with entries when every step does. */
  lemma {:induction false} WalkNonEmpty(assign: SmAssign, sms: seq<u8>, pdoPos: nat, entryPos: nat)
    requires EmitsNonEmpty(assign) && WalkSms(assign, sms, pdoPos, entryPos).Ok?
    ensures NonEmptyPdos(WalkSms(assign, sms, pdoPos, entryPos).value)
    decreases |sms|
  {
    if |sms| > 0 {
      WalkUnfold(assign, sms, pdoPos, entryPos);
      var a := assign(sms[0], pdoPos, entryPos).value;
      WalkNonEmpty(assign, sms[1..], pdoPos + |a|, entryPos + EntryCount(a));
    }
  }

  /** The walk keeps every PDO on one of the sync managers it walked when
      every step keeps to its own. */
  lemma {:induction false} WalkOnSms(assign: SmAssign, sms: seq<u8>, pdoPos: nat, entryPos: nat)
    requires KeepsSm(assign) && WalkSms(assign, sms, pdoPos, entryPos).Ok?
    ensures var r := WalkSms(assign, sms, pdoPos, entryPos).value;
      forall k :: 0 <= k < |r| ==> r[k].info.sm in sms
    decreases |sms|
  {
    if |sms| > 0 {
      WalkUnfold(assign, sms, pdoPos, entryPos);
      var a := assign(sms[0], pdoPos, entryPos).value;
      var rest := WalkSms(assign, sms[1..], pdoPos + |a|, entryPos + EntryCount(a)).value;
      WalkOnSms(assign, sms[1..], pdoPos + |a|, entryPos + EntryCount(a));
      assert OnSm(a, sms[0]);
      forall k | 0 <= k < |rest| ensures rest[k].info.sm in sms {
        assert rest[k].info.sm in sms[1..];
      }
    }
  }

  /** The walk places every PDO at or after its starting position when
      every step does. */
  lemma {:induction false} WalkAtOrAfter(assign: SmAssign, sms: seq<u8>, pdoPos: nat, entryPos: nat)
    requires PlacesAtOrAfter(assign) && WalkSms(assign, sms, pdoPos, entryPos).Ok?
    ensures var r := WalkSms(assign, sms, pdoPos, entryPos).value;
      forall k :: 0 <= k < |r| ==> pdoPos <= r[k].info.pos
    decreases |sms|
  {
    if |sms| > 0 {
      WalkUnfold(assign, sms, pdoPos, entryPos);
      var a := assign(sms[0], pdoPos, entryPos).value;
      WalkAtOrAfter(assign, sms[1..], pdoPos + |a|, entryPos + EntryCount(a));
    }
  }

  /** The walk numbers PDOs and entries on without gaps or repeats when
      every step numbers on from the positions it is given. */
  lemma {:induction false} WalkNumbers(assign: SmAssign, sms: seq<u8>, pdoPos: nat, entryPos: nat)
    requires NumbersOn(assign) && WalkSms(assign, sms, pdoPos, entryPos).Ok?
    ensures var r := WalkSms(assign, sms, pdoPos, entryPos).value;
      CountedPdos(r) && PdosFrom(r, pdoPos) && EntriesFrom(AllEntries(r), entryPos)
    decreases |sms|
  {
    if |sms| > 0 {
      WalkUnfold(assign, sms, pdoPos, entryPos);
      var a := assign(sms[0], pdoPos, entryPos).value;
      var p', e' := pdoPos + |a|, entryPos + EntryCount(a);
      var rest := WalkSms(assign, sms[1..], p', e').value;
      WalkNumbers(assign, sms[1..], p', e');
      EntryCountIsLength(a);
      NumbersConcat(a, rest, pdoPos, entryPos);
    }
  }

  /** PDOs numbered from p and e followed by PDOs numbered on after them
      are numbered from p and e. */
  lemma NumbersConcat(a: seq<Pdo>, rest: seq<Pdo>, p: nat, e: nat)
    requires CountedPdos(a) && PdosFrom(a, p) && EntriesFrom(AllEntries(a), e)
    requires CountedPdos(rest) && PdosFrom(rest, p + |a|) && EntriesFrom(AllEntries(rest), e + |AllEntries(a)|)
    ensures CountedPdos(a + rest) && PdosFrom(a + rest, p) && EntriesFrom(AllEntries(a + rest), e)
  {
    var r := a + rest;
    forall k | 0 <= k < |r|
      ensures |r[k].entries| == r[k].info.entryCount as nat && r[k].info.pos == p + k
    {
      if k >= |a| {
        assert r[k] == rest[k - |a|];
      }
    }
    AllEntriesAppend(a, rest);
    var ea: seq<PdoEntryInfo>, er: seq<PdoEntryInfo> := AllEntries(a), AllEntries(rest);
    forall k | 0 <= k < |ea + er| ensures (ea + er)[k].pos == e + k {
      if k >= |ea| {
        assert (ea + er)[k] == er[k - |ea|];
      }
    }
  }

  /** The corrected per-sync-manager resolution. */
  function Corrected(acc: SlaveAccess): SmAssign
  {
    (sm: u8, p: nat, e: nat) => SiPdoAssign(acc, sm, p, e)
  }

  /** Each corrected step emits non-empty PDOs of its own sync manager,
      numbered on from the positions it is given. */
  lemma CorrectedSteps(acc: SlaveAccess)
    ensures EmitsNonEmpty(Corrected(acc)) && NumbersOn(Corrected(acc)) && KeepsSm(Corrected(acc))
  {
    forall sm: u8, p: nat, e: nat | Corrected(acc)(sm, p, e).Ok?
      ensures var v := Corrected(acc)(sm, p, e).value;
        NonEmptyPdos(v) && CountedPdos(v) && PdosFrom(v, p) && EntriesFrom(AllEntries(v), e) && OnSm(v, sm)
    {
      assert Corrected(acc)(sm, p, e) == SiPdoAssign(acc, sm, p, e);
    }
  }

  /** The per-sync-manager resolution as the source writes it. */
  function AsWritten(acc: SlaveAccess): SmAssign
  {
    (sm: u8, p: nat, e: nat) => SiPdoAssignAsWritten(acc, sm, p, e)
  }

  /** Each step as written emits non-empty PDOs at or after the position
      it is given. */
  lemma AsWrittenSteps(acc: SlaveAccess)
    ensures EmitsNonEmpty(AsWritten(acc)) && PlacesAtOrAfter(AsWritten(acc))
  {
    forall sm: u8, p: nat, e: nat | AsWritten(acc)(sm, p, e).Ok?
      ensures var v := AsWritten(acc)(sm, p, e).value;
        NonEmptyPdos(v) && forall k :: 0 <= k < |v| ==> p <= v[k].info.pos
    {
      assert AsWritten(acc)(sm, p, e) == SiPdoAssignAsWritten(acc, sm, p, e);
    }
  }

  /** The sync managers `sms` resolved in order with the corrected
      numbering: PDO and entry positions run on without gaps or repeats
      across sync managers, and every PDO belongs to one of `sms`. */
  function AssignSms(acc: SlaveAccess, sms: seq<u8>, pdoPos: nat, entryPos: nat)
    : (r: Result<seq<Pdo>, Error>)
    ensures r.Ok? ==> NonEmptyPdos(r.value) && CountedPdos(r.value)
    ensures r.Ok? ==> PdosFrom(r.value, pdoPos)
    ensures r.Ok? ==> EntriesFrom(AllEntries(r.value), entryPos)
    ensures r.Ok? ==> forall k :: 0 <= k < |r.value| ==> r.value[k].info.sm in sms
  {
    CorrectedWalk(acc, sms, pdoPos, entryPos);
    WalkSms(Corrected(acc), sms, pdoPos, entryPos)
  }

  /** What the Walk* lemmas give for the corrected steps. */
  lemma CorrectedWalk(acc: SlaveAccess, sms: seq<u8>, pdoPos: nat, entryPos: nat)
    ensures var r := WalkSms(Corrected(acc), sms, pdoPos, entryPos);
      r.Ok? ==>
        && NonEmptyPdos(r.value) && CountedPdos(r.value)
        && PdosFrom(r.value, pdoPos)
        && EntriesFrom(AllEntries(r.value), entryPos)
        && forall k :: 0 <= k < |r.value| ==> r.value[k].info.sm in sms
  {
    if WalkSms(Corrected(acc), sms, pdoPos, entryPos).Ok? {
      CorrectedSteps(acc);
      WalkNonEmpty(Corrected(acc), sms, pdoPos, entryPos);
      WalkNumbers(Corrected(acc), sms, pdoPos, entryPos);
      WalkOnSms(Corrected(acc), sms, pdoPos, entryPos);
    }
  }

  /** A corrected step is `si_pdo_assign`. */
  lemma CorrectedIsSi(acc: SlaveAccess, sm: u8, pdoPos: nat, entryPos: nat)
    ensures Corrected(acc)(sm, pdoPos, entryPos) == SiPdoAssign(acc, sm, pdoPos, entryPos)
  {
  }

  // AssignSms one sync manager at a time: it is the walk with the
  // corrected steps, so it is the `si_pdo_assign` results of the sync
  // managers concatenated in order, the first error aborting.

  /** AssignSms is the walk with the corrected steps. */
  lemma AssignSmsIsWalk(acc: SlaveAccess, sms: seq<u8>, pdoPos: nat, entryPos: nat)
    ensures AssignSms(acc, sms, pdoPos, entryPos) == WalkSms(Corrected(acc), sms, pdoPos, entryPos)
  {
  }

  /** The corrected walk over no sync manager gives no PDOs. */
  lemma CorrectedNone(acc: SlaveAccess, pdoPos: nat, entryPos: nat)
    ensures WalkSms(Corrected(acc), [], pdoPos, entryPos) == Ok([])
  {
  }

  /** A failing `si_pdo_assign` for the first sync manager aborts the walk
      with its error. */
  lemma CorrectedFirstFails(acc: SlaveAccess, sms: seq<u8>, pdoPos: nat, entryPos: nat)
    requires |sms| > 0 && SiPdoAssign(acc, sms[0], pdoPos, entryPos).Err?
    ensures WalkSms(Corrected(acc), sms, pdoPos, entryPos) == Err(SiPdoAssign(acc, sms[0], pdoPos, entryPos).error)
  {
    CorrectedIsSi(acc, sms[0], pdoPos, entryPos);
  }

  /** The first sync manager's `si_pdo_assign` PDOs a, followed by the PDOs
      of the walk over the rest, which starts its PDO and entry positions
      after a's. */
  lemma CorrectedThen(acc: SlaveAccess, sms: seq<u8>, pdoPos: nat, entryPos: nat, a: seq<Pdo>, rest: seq<Pdo>)
    requires |sms| > 0 && SiPdoAssign(acc, sms[0], pdoPos, entryPos) == Ok(a)
    requires WalkSms(Corrected(acc), sms[1..], pdoPos + |a|, entryPos + EntryCount(a)) == Ok(rest)
    ensures WalkSms(Corrected(acc), sms, pdoPos, entryPos) == Ok(a + rest)
  {
    CorrectedIsSi(acc, sms[0], pdoPos, entryPos);
    WalkStep(Corrected(acc), sms, pdoPos, entryPos, a, rest);
  }

  /** After a successful first sync manager, a failing walk over the rest
      aborts the whole walk with its error. */
  lemma CorrectedRestFails(acc: SlaveAccess, sms: seq<u8>, pdoPos: nat, entryPos: nat, a: seq<Pdo>, err: Error)
    requires |sms| > 0 && SiPdoAssign(acc, sms[0], pdoPos, entryPos) == Ok(a)
    requires WalkSms(Corrected(acc), sms[1..], pdoPos + |a|, entryPos + EntryCount(a)) == Err(err)
    ensures WalkSms(Corrected(acc), sms, pdoPos, entryPos) == Err(err)
  {
    CorrectedIsSi(acc, sms[0], pdoPos, entryPos);
    WalkRestFails(Corrected(acc), sms, pdoPos, entryPos, a, err);
  }

  /** The same walk over the source's per-sync-manager numbering: every
      PDO has entries and sits at or after the starting position. */
  function AssignSmsAsWritten(acc: SlaveAccess, sms: seq<u8>, pdoPos: nat, entryPos: nat)
    : (r: Result<seq<Pdo>, Error>)
    ensures r.Ok? ==> NonEmptyPdos(r.value)
    ensures r.Ok? ==> forall k :: 0 <= k < |r.value| ==> pdoPos <= r.value[k].info.pos
  {
    var r := WalkSms(AsWritten(acc), sms, pdoPos, entryPos);
    if r.Ok? then
      AsWrittenSteps(acc);
      WalkNonEmpty(AsWritten(acc), sms, pdoPos, entryPos);
      WalkAtOrAfter(AsWritten(acc), sms, pdoPos, entryPos);
      r
    else r
  }

  /** Sync manager sm never assigns an empty PDO, whatever the entry offset. */
  ghost predicate NoEmptyAssigned(acc: SlaveAccess, sm: u8)
  {
    forall e: nat :: ReadAssignment(acc, sm, e).Ok? ==> NoEmptyReads(ReadAssignment(acc, sm, e).value)
  }

  /** For one sync manager without empty PDOs both numberings agree. */
  lemma SiAgreesWithoutEmpty(acc: SlaveAccess, sm: u8, pdoPos: nat, entryPos: nat)
    requires NoEmptyAssigned(acc, sm)
    ensures SiPdoAssignAsWritten(acc, sm, pdoPos, entryPos) == SiPdoAssign(acc, sm, pdoPos, entryPos)
  {
    var rd := ReadAssignment(acc, sm, entryPos);
    if rd.Ok? {
      PlaceAgreesWithoutEmpty(acc, sm, rd.value, pdoPos, 1);
    }
  }

  /** Two example entries for the counterexample below. */
  const ENTRY_A: PdoEntryInfo := PdoEntryInfo(0, SdoIdx(0x7000, 1), 8, "")
  const ENTRY_B: PdoEntryInfo := PdoEntryInfo(1, SdoIdx(0x6000, 1), 8, "")

  /** What SM2 assigns in the counterexample: an empty PDO, then a PDO with
      one entry. */
  const SM2_READS: seq<PdoRead> := [PdoRead(0x1600, 0, []), PdoRead(0x1601, 1, [ENTRY_A])]

  /** What SM3 assigns in the counterexample: one PDO with one entry. */
  const SM3_READS: seq<PdoRead> := [PdoRead(0x1A00, 1, [ENTRY_B])]

  /** The source's numbering repeats a PDO position: SM2 assigns an empty
      PDO 0x1600 and then PDO 0x1601 with one entry, SM3 assigns PDO 0x1A00
      with one entry. 0x1601 gets position 0 + 2 - 1 = 1, the offset for SM3
      advances by the one emitted PDO to 1, and 0x1A00 also gets position 1.
      The corrected numbering gives 0 and 1. */
  lemma AsWrittenRepeatsPosition(acc: SlaveAccess)
    requires ReadAssignment(acc, 2, 0) == Ok(SM2_READS)
    requires ReadAssignment(acc, 3, 1) == Ok(SM3_READS)
    ensures AssignSmsAsWritten(acc, [2, 3], 0, 0).Ok?
    ensures var r := AssignSmsAsWritten(acc, [2, 3], 0, 0).value;
      |r| == 2 && r[0].info.idx == 0x1601 && r[1].info.idx == 0x1A00 && r[0].info.pos == r[1].info.pos == 1
    ensures AssignSms(acc, [2, 3], 0, 0).Ok?
    ensures var r := AssignSms(acc, [2, 3], 0, 0).value;
      |r| == 2 && r[0].info.idx == 0x1601 && r[1].info.idx == 0x1A00 && r[0].info.pos == 0 && r[1].info.pos == 1
  {
    var p2, p3 := AsWrittenTwo(acc);
    var q2, q3 := CorrectedTwo(acc);
  }

  /** The counterexample walked as written. */
  lemma AsWrittenTwo(acc: SlaveAccess) returns (p2: Pdo, p3: Pdo)
    requires ReadAssignment(acc, 2, 0) == Ok(SM2_READS)
    requires ReadAssignment(acc, 3, 1) == Ok(SM3_READS)
    ensures AssignSmsAsWritten(acc, [2, 3], 0, 0) == Ok([p2, p3])
    ensures p2.info.idx == 0x1601 && p3.info.idx == 0x1A00 && p2.info.pos == p3.info.pos == 1
  {
    p2 := AsWrittenSm2(acc);
    p3 := AsWrittenSm3(acc);
    WalkTwo(AsWritten(acc), 2, 3, p2, p3);
  }

  /** The counterexample walked with the corrected numbering. */
  lemma CorrectedTwo(acc: SlaveAccess) returns (q2: Pdo, q3: Pdo)
    requires ReadAssignment(acc, 2, 0) == Ok(SM2_READS)
    requires ReadAssignment(acc, 3, 1) == Ok(SM3_READS)
    ensures AssignSms(acc, [2, 3], 0, 0) == Ok([q2, q3])
    ensures q2.info.idx == 0x1601 && q3.info.idx == 0x1A00 && q2.info.pos == 0 && q3.info.pos == 1
  {
    q2 := CorrectedSm2(acc);
    q3 := CorrectedSm3(acc);
    WalkTwo(Corrected(acc), 2, 3, q2, q3);
  }

  /** A walk from position 0 over two sync managers that emit one PDO each:
      the first one's PDO, then the second one's, numbered on after it. */
  lemma WalkTwo(assign: SmAssign, sm1: u8, sm2: u8, p: Pdo, q: Pdo)
    requires assign(sm1, 0, 0) == Ok([p])
    requires assign(sm2, 1, |p.entries|) == Ok([q])
    ensures WalkSms(assign, [sm1, sm2], 0, 0) == Ok([p, q])
  {
    assert EntryCount([p]) == |p.entries|;
    WalkOne(assign, sm2, 1, |p.entries|, [q]);
    assert [sm1, sm2][1..] == [sm2];
    WalkStep(assign, [sm1, sm2], 0, 0, [p], [q]);
    assert [p] + [q] == [p, q];
  }

  /** A walk over one sync manager is that sync manager's resolution. */
  lemma WalkOne(assign: SmAssign, sm: u8, pdoPos: nat, entryPos: nat, a: seq<Pdo>)
    requires assign(sm, pdoPos, entryPos) == Ok(a)
    ensures WalkSms(assign, [sm], pdoPos, entryPos) == Ok(a)
  {
    assert [sm][1..] == [];
    assert a + [] == a;
  }

  /** The counterexample's SM2 as written: only 0x1601 is kept, at position 1. */
  lemma AsWrittenSm2(acc: SlaveAccess) returns (p: Pdo)
    requires ReadAssignment(acc, 2, 0) == Ok(SM2_READS)
    ensures AsWritten(acc)(2, 0, 0) == Ok([p])
    ensures p.info.idx == 0x1601 && p.info.pos == 1 && p.entries == [ENTRY_A]
  {
    assert SM2_READS[1..] == [SM2_READS[1]];
    assert SM2_READS[1..][1..] == [];
    p := MakePdo(acc, 2, 1, SM2_READS[1]);
    assert PlacePdosAsWritten(acc, 2, SM2_READS[1..], 0, 2) == [p];
  }

  /** The counterexample's SM3 as written: 0x1A00 at position 1. */
  lemma AsWrittenSm3(acc: SlaveAccess) returns (p: Pdo)
    requires ReadAssignment(acc, 3, 1) == Ok(SM3_READS)
    ensures AsWritten(acc)(3, 1, 1) == Ok([p])
    ensures p.info.idx == 0x1A00 && p.info.pos == 1
  {
    assert SM3_READS[1..] == [];
    p := MakePdo(acc, 3, 1, SM3_READS[0]);
    assert PlacePdosAsWritten(acc, 3, SM3_READS, 1, 1) == [p];
  }

  /** The counterexample's SM2 corrected: 0x1601 at position 0. */
  lemma CorrectedSm2(acc: SlaveAccess) returns (p: Pdo)
    requires ReadAssignment(acc, 2, 0) == Ok(SM2_READS)
    ensures Corrected(acc)(2, 0, 0) == Ok([p])
    ensures p.info.idx == 0x1601 && p.info.pos == 0 && p.entries == [ENTRY_A]
  {
    assert SM2_READS[1..] == [SM2_READS[1]];
    assert SM2_READS[1..][1..] == [];
    p := MakePdo(acc, 2, 0, SM2_READS[1]);
    assert PlacePdos(acc, 2, SM2_READS[1..], 0) == [p];
  }

  /** The counterexample's SM3 corrected: 0x1A00 at position 1. */
  lemma CorrectedSm3(acc: SlaveAccess) returns (p: Pdo)
    requires ReadAssignment(acc, 3, 1) == Ok(SM3_READS)
    ensures Corrected(acc)(3, 1, 1) == Ok([p])
    ensures p.info.idx == 0x1A00 && p.info.pos == 1
  {
    assert SM3_READS[1..] == [];
    p := MakePdo(acc, 3, 1, SM3_READS[0]);
    assert PlacePdos(acc, 3, SM3_READS, 1) == [p];
  }

  /** The PDO map of one slave, or None when it reports two or fewer sync
      manager types and is skipped. Outputs sync managers are resolved
      before inputs ones; PDO and entry positions both start at 0 and run
      without gaps or repeats over the whole slave. */
  function SlavePdoInfo(acc: SlaveAccess): (r: Result<Option<seq<Pdo>>, Error>)
    ensures SmCommType(acc, 0).Err? ==> r == Err(SmCommType(acc, 0).error)
    ensures SmCommType(acc, 0).Ok? && SmCommType(acc, 0).value <= 2 ==> r == Ok(None)
    ensures r.Ok? && r.value.Some? ==>
      && SmCommType(acc, 0).Ok? && SmCommType(acc, 0).value > 2
      && NonEmptyPdos(r.value.value) && CountedPdos(r.value.value)
      && PdosFrom(r.value.value, 0)
      && EntriesFrom(AllEntries(r.value.value), 0)
    ensures SmCommType(acc, 0).Ok? && SmCommType(acc, 0).value > 2 ==>
      var types := ReadSmTypes(acc, SmCount(SmCommType(acc, 0).value));
      && (types.Err? ==> r == Err(types.error))
      && (types.Ok? && AssignSms(acc, ResolveOrder(types.value), 0, 0).Err? ==>
            r == Err(AssignSms(acc, ResolveOrder(types.value), 0, 0).error))
      && (types.Ok? && AssignSms(acc, ResolveOrder(types.value), 0, 0).Ok? ==>
            r == Ok(Some(AssignSms(acc, ResolveOrder(types.value), 0, 0).value)))
  {
    var objCnt :- SmCommType(acc, 0);
    if objCnt <= 2 then Ok(None)
    else
      var types :- ReadSmTypes(acc, SmCount(objCnt));
      var pdos :- AssignSms(acc, ResolveOrder(types), 0, 0);
      Ok(Some(pdos))
  }

  /** The per-slave results collected into one map, in slave order: a
      skipped slave gets no entry, and the first error aborts the whole
      collection with that error. */
  function CollectMaps(rs: seq<Result<Option<seq<Pdo>>, Error>>): (r: Result<map<SlavePos, seq<Pdo>>, Error>)
    requires |rs| <= 0x1_0000
    ensures r.Ok? ==> forall s :: 0 <= s < |rs| ==> rs[s].Ok?
    ensures r.Ok? ==> forall s: SlavePos :: s in r.value <==> (s as nat < |rs| && rs[s] != Ok(None))
    ensures r.Ok? ==> forall s: SlavePos :: s in r.value ==> s as nat < |rs| && rs[s] == Ok(Some(r.value[s]))
    ensures r.Err? ==> exists s: nat :: FirstFailure(rs, s, r.error)
  {
    if |rs| == 0 then Ok(map[])
    else
      var last := |rs| - 1;
      var prefix := rs[..last];
      match CollectMaps(prefix)
      case Err(e) =>
        var s: nat :| FirstFailure(prefix, s, e);
        assert FirstFailure(rs, s, e) by {
          assert forall t :: 0 <= t < s ==> rs[t] == prefix[t];
        }
        Err(e)
      case Ok(prev) =>
        assert forall t :: 0 <= t < last ==> rs[t] == prefix[t];
        match rs[last]
        case Err(e) =>
          assert FirstFailure(rs, last, e);
          Err(e)
        case Ok(None) => Ok(prev)
        case Ok(Some(pdos)) => Ok(prev[last as u16 := pdos])
  }

  /** The resolution results of slaves 0..count-1, in order. */
  function SlaveResults(m: Master, count: nat): (rs: seq<Result<Option<seq<Pdo>>, Error>>)
    requires count <= 0x1_0000
    ensures |rs| == count
    ensures forall s :: 0 <= s < count ==> rs[s] == SlavePdoInfo(Access(m, s as u16))
  {
    seq(count, s requires 0 <= s < count => SlavePdoInfo(Access(m, s as u16)))
  }

  /** `coe_pdo_info`: every slave is resolved in order, the slaves being
      counted through a 16-bit position (so the engine's slave count is
      taken modulo 2^16); only slaves below that count get an entry. */
  function CoePdoInfo(m: Master, slaveCount: nat): (r: Result<map<SlavePos, seq<Pdo>>, Error>)
    ensures r.Ok? ==> forall s :: s in r.value ==> s as nat < slaveCount % 0x1_0000
  {
    CollectMaps(SlaveResults(m, slaveCount % 0x1_0000))
  }

  /** What `coe_pdo_info` reports for one slave below the count: every such
      slave was resolved without error; a skipped slave has no entry and
      any other slave maps to its own PDOs, numbered from 0. */
  lemma CoePdoInfoSlave(m: Master, slaveCount: nat, s: SlavePos)
    requires s as nat < slaveCount % 0x1_0000
    requires CoePdoInfo(m, slaveCount).Ok?
    ensures SlavePdoInfo(Access(m, s)).Ok?
    ensures s in CoePdoInfo(m, slaveCount).value <==> SlavePdoInfo(Access(m, s)).value.Some?
    ensures s in CoePdoInfo(m, slaveCount).value ==>
      && SlavePdoInfo(Access(m, s)) == Ok(Some(CoePdoInfo(m, slaveCount).value[s]))
      && PdosFrom(CoePdoInfo(m, slaveCount).value[s], 0)
  {
    assert SlaveResults(m, slaveCount % 0x1_0000)[s] == SlavePdoInfo(Access(m, s));
  }

  /** A failed `coe_pdo_info` fails with the error of the first slave whose
      resolution failed. */
  lemma CoePdoInfoFails(m: Master, slaveCount: nat)
    requires CoePdoInfo(m, slaveCount).Err?
    ensures exists s: SlavePos ::
      (s as nat < slaveCount % 0x1_0000 && SlavePdoInfo(Access(m, s)) == Err(CoePdoInfo(m, slaveCount).error)
       && forall t: SlavePos :: t < s ==> SlavePdoInfo(Access(m, t)).Ok?)
  {
    var rs := SlaveResults(m, slaveCount % 0x1_0000);
    var i: nat :| FirstFailure(rs, i, CoePdoInfo(m, slaveCount).error);
    assert SlavePdoInfo(Access(m, i as u16)) == Err(CoePdoInfo(m, slaveCount).error);
    assert forall t: SlavePos :: t < i as u16 ==> rs[t] == SlavePdoInfo(Access(m, t));
  }
}
