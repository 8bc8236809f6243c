/** Object-dictionary discovery (`read_od_list`), the lookups into the
    cached dictionaries (`cached_sdo_entry`, `cached_sdo_info`, and the same
    lookup inside `read_sdo_entry`), and the two SDO reads that use them:
    single-entry (`read_sdo_entry`) and complete access (`read_sdo_complete`). */
module ObjectDictionary {
  import opened Bytes
  import opened Wrappers
  import opened EcTypes
  import opened AccessRights
  import opened ValueCodec
  import opened SoemEngine

  // ---------------------------------------------------------------------
  // Discovery

  /** The dictionary slot built from one row of an entry-description list:
      empty exactly when the data-type code is unknown or the bit length is
      0; otherwise the decoded type, the bit length, the access decoded
      from the row's access word, and the row's name. */
  function EntrySlot(dataTypeOf: u16 -> Option<DataType>, row: OeRow): (r: Option<SdoEntryInfo>)
    ensures r.None? <==> dataTypeOf(row.dataType).None? || row.bitLen == 0
    ensures r.Some? ==> r.value == SdoEntryInfo(dataTypeOf(row.dataType).value, row.bitLen,
                                               AccessFromU16(row.access), row.name)
  {
    var bitLen := if row.bitLen == 0 then None else Some(row.bitLen);
    match (dataTypeOf(row.dataType), bitLen)
    case (Some(dt), Some(len)) => Some(SdoEntryInfo(dt, len, AccessFromU16(row.access), row.name))
    case _ => None
  }

  /** The slots of one object: one per subindex 0..=maxSub, slot j built
      from row j of the entry-description list. */
  function EntrySlots(dataTypeOf: u16 -> Option<DataType>, oe: OeList, maxSub: u8): (r: seq<Option<SdoEntryInfo>>)
    ensures |r| == maxSub as nat + 1
    ensures forall j :: 0 <= j < |r| ==> r[j] == EntrySlot(dataTypeOf, oe[j])
  {
    seq(maxSub as nat + 1, j requires 0 <= j <= maxSub as nat => EntrySlot(dataTypeOf, oe[j]))
  }

  /** The object-description read for list item `item` succeeded. */
  predicate DescRead(m: Master, slave: SlavePos, item: nat)
  {
    m.engine.odDesc(WireAddr(slave), item).Some?
  }

  /** The entry-description read for list item `item` succeeded. */
  predicate OeRead(m: Master, slave: SlavePos, item: nat)
  {
    m.engine.oeList(WireAddr(slave), item).Some?
  }

  /** The object built for list item `item` from the engine's answers. */
  function ObjectAt(m: Master, slave: SlavePos, indexes: OdIndexList, item: nat): SdoObject
    requires item < |indexes| && DescRead(m, slave, item) && OeRead(m, slave, item)
  {
    var desc := m.engine.odDesc(WireAddr(slave), item).value;
    var oe := m.engine.oeList(WireAddr(slave), item).value;
    SdoObject(SdoInfo(item as u16, indexes[item], desc.maxSub, desc.objectCode, desc.name),
              EntrySlots(m.dataTypeOf, oe, desc.maxSub))
  }

  /** Items `from..` of the object list, read in order: for each item the
      object description, then the entry descriptions. The first failed read
      aborts with an error naming its item; otherwise there is one object
      per item, in list order. */
  function ReadObjects(m: Master, slave: SlavePos, indexes: OdIndexList, from: nat): (r: Result<SdoTable, Error>)
    requires from <= |indexes|
    decreases |indexes| - from
    ensures r.Ok? <==> forall k :: from <= k < |indexes| ==> DescRead(m, slave, k) && OeRead(m, slave, k)
    ensures r.Ok? ==> |r.value| == |indexes| - from
    ensures r.Ok? ==> forall k :: from <= k < |indexes| ==> r.value[k - from] == ObjectAt(m, slave, indexes, k)
    ensures r.Err? ==> FailsFrom(m, slave, from, |indexes|, r.error)
  {
    if from == |indexes| then Ok([])
    else
      match m.engine.odDesc(WireAddr(slave), from)
      case None =>
        assert FirstFailure(m, slave, from, from, ReadOdDesc(from));
        Err(ReadOdDesc(from))
      case Some(desc) =>
        match m.engine.oeList(WireAddr(slave), from)
        case None =>
          assert FirstFailure(m, slave, from, from, ReadOeList(from));
          Err(ReadOeList(from))
        case Some(oe) =>
          var info := SdoInfo(from as u16, indexes[from], desc.maxSub, desc.objectCode, desc.name);
          var entries := EntrySlots(m.dataTypeOf, oe, desc.maxSub);
          match ReadObjects(m, slave, indexes, from + 1)
          case Err(e) =>
            FailureLater(m, slave, indexes, from, e);
            Err(e)
          case Ok(rest) =>
            Ok([SdoObject(info, entries)] + rest)
  }

  /** A failure after item `from`, whose own reads succeeded, is also the
      first failure counted from `from`. */
  lemma FailureLater(m: Master, slave: SlavePos, indexes: OdIndexList, from: nat, e: Error)
    requires from < |indexes| && DescRead(m, slave, from) && OeRead(m, slave, from)
    requires FailsFrom(m, slave, from + 1, |indexes|, e)
    ensures FailsFrom(m, slave, from, |indexes|, e)
  {
    var p :| from + 1 <= p < |indexes| && FirstFailure(m, slave, from + 1, p, e);
    assert FirstFailure(m, slave, from, p, e);
  }

  /** Item p is the first item from `from` on whose reads failed, and `e` is
      the error its failing read raises. */
  ghost predicate FirstFailure(m: Master, slave: SlavePos, from: nat, p: nat, e: Error)
  {
    && (forall k :: from <= k < p ==> DescRead(m, slave, k) && OeRead(m, slave, k))
    && (if !DescRead(m, slave, p) then e == ReadOdDesc(p) else !OeRead(m, slave, p) && e == ReadOeList(p))
  }

  /** Some item in from..n is the first whose reads failed, with error e. */
  ghost predicate FailsFrom(m: Master, slave: SlavePos, from: nat, n: nat, e: Error)
  {
    exists p :: from <= p < n && FirstFailure(m, slave, from, p, e)
  }

  /** `read_od_list`: the object list of a slave and, for each listed
      object, its description and its entry slots. */
  function ReadOdList(m: Master, slave: SlavePos): (r: Result<SdoTable, Error>)
    ensures m.engine.odList(WireAddr(slave)).None? ==> r == Err(Error.ReadOdList(slave))
    ensures m.engine.odList(WireAddr(slave)).Some? ==> var indexes := m.engine.odList(WireAddr(slave)).value;
      && (r.Ok? <==> forall k :: 0 <= k < |indexes| ==> DescRead(m, slave, k) && OeRead(m, slave, k))
      && (r.Err? ==> FailsFrom(m, slave, 0, |indexes|, r.error))
    ensures r.Ok? ==> var indexes := m.engine.odList(WireAddr(slave)).value;
      && |r.value| == |indexes|
      && forall k :: 0 <= k < |indexes| ==>
           && r.value[k] == ObjectAt(m, slave, indexes, k)
           && r.value[k].info.idx == indexes[k]
           && r.value[k].info.pos == k
           && |r.value[k].entries| == r.value[k].info.maxSubIdx as nat + 1
  {
    match m.engine.odList(WireAddr(slave))
    case None => Err(Error.ReadOdList(slave))
    case Some(indexes) =>
      var r := ReadObjects(m, slave, indexes, 0);
      assert r.Ok? ==> forall k :: 0 <= k < |indexes| ==> r.value[k] == ObjectAt(m, slave, indexes, k) by {
        if r.Ok? {
          forall k | 0 <= k < |indexes| ensures r.value[k] == ObjectAt(m, slave, indexes, k) {
            assert r.value[k - 0] == ObjectAt(m, slave, indexes, k);
          }
        }
      }
      r
  }

  // ---------------------------------------------------------------------
  // Lookups

  /** Item k is the first object of the table with index idx. */
  ghost predicate FirstWithIdx(t: SdoTable, idx: u16, k: nat)
  {
    k < |t| && t[k].info.idx == idx && forall j :: 0 <= j < k ==> t[j].info.idx != idx
  }

  /** Position of the first object at or after `from` whose index is idx
      (`iter().find`). */
  function FindObject(t: SdoTable, idx: u16, from: nat): (r: Option<nat>)
    requires from <= |t|
    decreases |t| - from
    ensures r.Some? ==> from <= r.value < |t| && t[r.value].info.idx == idx
    ensures r.Some? ==> forall k :: from <= k < r.value ==> t[k].info.idx != idx
    ensures r.None? ==> forall k :: from <= k < |t| ==> t[k].info.idx != idx
  {
    if from == |t| then None
    else if t[from].info.idx == idx then Some(from)
    else FindObject(t, idx, from + 1)
  }

  /** The object with index idx in a slave's cached dictionary: the first
      one listed when there are several, None when the slave has no
      dictionary or no such object. */
  function LookupObject(m: Master, slave: SlavePos, idx: u16): (r: Option<SdoObject>)
    ensures r.Some? ==> slave in m.sdos && (exists k: nat :: FirstWithIdx(m.sdos[slave], idx, k) && r.value == m.sdos[slave][k])
    ensures r.None? ==> slave !in m.sdos || forall k :: 0 <= k < |m.sdos[slave]| ==> m.sdos[slave][k].info.idx != idx
  {
    if slave !in m.sdos then None
    else
      match FindObject(m.sdos[slave], idx, 0)
      case Some(k) => assert FirstWithIdx(m.sdos[slave], idx, k); Some(m.sdos[slave][k])
      case None => None
  }

  /** `cached_sdo_info`: the description of the object with index idx. */
  function CachedSdoInfo(m: Master, slave: SlavePos, idx: u16): (r: Option<SdoInfo>)
    ensures r.Some? ==> r.value.idx == idx
    ensures r.None? <==> LookupObject(m, slave, idx).None?
    ensures forall k: nat :: slave in m.sdos && FirstWithIdx(m.sdos[slave], idx, k) ==>
      r == Some(m.sdos[slave][k].info)
  {
    match LookupObject(m, slave, idx)
    case Some(obj) => Some(obj.info)
    case None => None
  }

  /** `cached_sdo_entry`: slot `subIdx` of the object with index `idx`; None
      when there is no such object, the subindex is beyond its slots, or the
      slot is not decodable. */
  function CachedSdoEntry(m: Master, slave: SlavePos, sdo: SdoIdx): (r: Option<SdoEntryInfo>)
    ensures r.Some? ==>
      (slave in m.sdos &&
       exists k: nat :: FirstWithIdx(m.sdos[slave], sdo.idx, k) &&
         sdo.subIdx < |m.sdos[slave][k].entries| && m.sdos[slave][k].entries[sdo.subIdx] == r)
    ensures forall k: nat :: slave in m.sdos && FirstWithIdx(m.sdos[slave], sdo.idx, k) ==>
      r == (if sdo.subIdx < |m.sdos[slave][k].entries| then m.sdos[slave][k].entries[sdo.subIdx] else None)
  {
    match LookupObject(m, slave, sdo.idx)
    case Some(obj) => if sdo.subIdx as nat < |obj.entries| then obj.entries[sdo.subIdx] else None
    case None => None
  }

  // ---------------------------------------------------------------------
  // SDO reads

  /** `read_sdo_entry`: look the entry up in the cached dictionary (an
      entry that is missing or not decodable is SubIdxNotFound), ask the
      engine for ceil(bitLen / 8) bytes, and decode what it returns with the
      entry's data type. */
  function ReadSdoEntry(m: Master, slave: SlavePos, sdo: SdoIdx): (r: Result<Value, Error>)
    ensures CachedSdoEntry(m, slave, sdo).None? ==> r == Err(SubIdxNotFound(slave, sdo))
    ensures r.Ok? ==> var e := CachedSdoEntry(m, slave, sdo).value;
      && HasType(r.value, e.dataType)
      && m.engine.sdoRead(WireAddr(slave), sdo, false, ByteCount(e.bitLen as nat)).Some?
      && r == ValueFromSlice(e.dataType, m.engine.sdoRead(WireAddr(slave), sdo, false, ByteCount(e.bitLen as nat)).value)
    ensures CachedSdoEntry(m, slave, sdo).Some? ==> var e := CachedSdoEntry(m, slave, sdo).value;
      var answer := m.engine.sdoRead(WireAddr(slave), sdo, false, ByteCount(e.bitLen as nat));
      && (answer.None? ==> r == Err(Error.ReadSdo(slave, sdo)))
      && (answer.Some? ==> r == ValueFromSlice(e.dataType, answer.value))
  {
    var info :- CachedSdoEntry(m, slave, sdo).OkOr(SubIdxNotFound(slave, sdo));
    var raw :- ReadSdoRaw(m, slave, sdo, false, ByteCount(info.bitLen as nat));
    ValueFromSlice(info.dataType, raw)
  }

  /** A slot of a complete-access read: the byte count and data type of a
      decodable entry, or None. */
  type Slot = Option<(nat, DataType)>

  function SlotLayout(entries: seq<Option<SdoEntryInfo>>): (r: seq<Slot>)
    ensures |r| == |entries|
    ensures forall j :: 0 <= j < |r| ==> (r[j].None? <==> entries[j].None?)
    ensures forall j :: 0 <= j < |r| && r[j].Some? ==>
      r[j].value == (ByteCount(entries[j].value.bitLen as nat), entries[j].value.dataType)
  {
    seq(|entries|, j requires 0 <= j < |entries| =>
      match entries[j]
      case Some(e) => Some((ByteCount(e.bitLen as nat), e.dataType))
      case None => None)
  }

  /** Bytes a slot occupies in the complete-access buffer. */
  function SlotBytes(s: Slot): nat
  {
    match s
    case Some((cnt, _)) => cnt
    case None => 0
  }

  /** Total bytes of the decodable slots. */
  function SumBytes(l: seq<Slot>): nat
  {
    if |l| == 0 then 0 else SlotBytes(l[0]) + SumBytes(l[1..])
  }

  /** Largest byte count of a decodable slot, 0 when there is none. */
  function MaxBytes(l: seq<Slot>): (r: nat)
    ensures forall j :: 0 <= j < |l| ==> SlotBytes(l[j]) <= r
    ensures |l| > 0 ==> exists j :: 0 <= j < |l| && SlotBytes(l[j]) == r
  {
    if |l| == 0 then 0
    else
      var rest := MaxBytes(l[1..]);
      assert forall j :: 1 <= j < |l| ==> l[j] == l[1..][j - 1];
      if SlotBytes(l[0]) >= rest then SlotBytes(l[0]) else rest
  }

  /** The buffer a complete-access read asks for: the largest slot size
      times the number of slots. */
  function BufferSize(l: seq<Slot>): nat
  {
    MaxBytes(l) * |l|
  }

  lemma MulMonotone(a: nat, b: nat, c: nat)
    requires a <= b
    ensures a * c <= b * c
  {
  }

  lemma Distribute(a: nat, n: nat)
    requires n > 0
    ensures a * n == a + a * (n - 1)
  {
  }

  /** The buffer is large enough for all decodable slots packed end to end. */
  lemma {:induction false} BufferHoldsAllSlots(l: seq<Slot>)
    ensures SumBytes(l) <= BufferSize(l)
  {
    if |l| > 0 {
      var n := |l|;
      var m := MaxBytes(l);
      var tail := MaxBytes(l[1..]);
      BufferHoldsAllSlots(l[1..]);
      assert tail <= m;
      MulMonotone(tail, m, n - 1);
      Distribute(m, n);
    }
  }

  /** Offset of slot j in the complete-access buffer: the decodable slots
      before it, packed from `start`. */
  function SlotOffset(l: seq<Slot>, start: nat, j: nat): nat
    requires j <= |l|
  {
    start + SumBytes(l[..j])
  }

  lemma SumBytesSplit(l: seq<Slot>, j: nat)
    requires 0 < j <= |l|
    ensures SumBytes(l[..j]) == SlotBytes(l[0]) + SumBytes(l[1..][..j - 1])
  {
    assert l[..j][1..] == l[1..][..j - 1];
  }

  /** Decode the slots from consecutive ranges of the buffer, starting at
      `pos`: a decodable slot takes its bytes and advances the position, a
      non-decodable slot yields None and takes nothing. A range beyond the
      buffer is where the source panics; a decoding error aborts. */
  function DecodeSlots(l: seq<Slot>, raw: seq<byte>, pos: nat): (r: Result<seq<Option<Value>>, Error>)
    requires pos <= |raw|
    decreases |l|
    ensures r.Ok? ==> pos + SumBytes(l) <= |raw|
    ensures r.Ok? ==> |r.value| == |l|
    ensures r.Ok? ==> forall j :: 0 <= j < |l| ==> (r.value[j].None? <==> l[j].None?)
  {
    if |l| == 0 then Ok([])
    else
      match l[0]
      case None =>
        var rest :- DecodeSlots(l[1..], raw, pos);
        Ok([None] + rest)
      case Some((cnt, dt)) =>
        if pos + cnt > |raw| then Err(SliceOutOfRange)
        else
          var v :- ValueFromSlice(dt, raw[pos..pos + cnt]);
          var rest :- DecodeSlots(l[1..], raw, pos + cnt);
          Ok([Some(v)] + rest)
  }

  /** The value of decodable slot j is the decoding of the bytes at its
      offset: slots are packed in order, each taking exactly its byte count,
      and non-decodable slots take none. */
  lemma {:induction false} DecodeSlotsContents(l: seq<Slot>, raw: seq<byte>, pos: nat, j: nat)
    requires pos <= |raw| && DecodeSlots(l, raw, pos).Ok?
    requires j < |l| && l[j].Some?
    ensures SlotOffset(l, pos, j) + l[j].value.0 <= |raw|
    ensures Ok(DecodeSlots(l, raw, pos).value[j].value) ==
      ValueFromSlice(l[j].value.1, raw[SlotOffset(l, pos, j)..SlotOffset(l, pos, j) + l[j].value.0])
  {
    var next := pos + SlotBytes(l[0]);
    DecodeSlotsHead(l, raw, pos);
    OffsetsShift(l, pos, next);
    if j > 0 {
      DecodeSlotsContents(l[1..], raw, next, j - 1);
      assert DecodeSlots(l, raw, pos).value[j] == DecodeSlots(l[1..], raw, next).value[j - 1];
    }
  }

  /** A successful decoding is the first slot's value followed by the
      decoding of the rest from the first slot's end. */
  lemma DecodeSlotsHead(l: seq<Slot>, raw: seq<byte>, pos: nat)
    requires pos <= |raw| && |l| > 0 && DecodeSlots(l, raw, pos).Ok?
    ensures pos + SlotBytes(l[0]) <= |raw|
    ensures DecodeSlots(l[1..], raw, pos + SlotBytes(l[0])).Ok?
    ensures DecodeSlots(l, raw, pos).value[1..] == DecodeSlots(l[1..], raw, pos + SlotBytes(l[0])).value
    ensures l[0].Some? ==>
      Ok(DecodeSlots(l, raw, pos).value[0].value) == ValueFromSlice(l[0].value.1, raw[pos..pos + l[0].value.0])
  {
  }

  /** Offsets of the slots after the first are the offsets within the tail,
      shifted past the first slot. */
  lemma OffsetsShift(l: seq<Slot>, pos: nat, next: nat)
    requires |l| > 0 && next == pos + SlotBytes(l[0])
    ensures forall j :: 1 <= j <= |l| ==> SlotOffset(l, pos, j) == SlotOffset(l[1..], next, j - 1)
    ensures SlotOffset(l, pos, 0) == pos
  {
    forall j | 1 <= j <= |l|
      ensures SlotOffset(l, pos, j) == SlotOffset(l[1..], next, j - 1)
    {
      SumBytesSplit(l, j);
    }
  }

  /** Every decodable slot, placed at its packed offset from pos, lies
      within the buffer and decodes under its data type. */
  predicate SlotsDecode(l: seq<Slot>, raw: seq<byte>, pos: nat)
  {
    forall j :: 0 <= j < |l| && l[j].Some? ==> SlotDecodes(l, raw, pos, j)
  }

  /** Decodable slot j, placed at its packed offset from pos, lies within
      the buffer and decodes under its data type. */
  predicate SlotDecodes(l: seq<Slot>, raw: seq<byte>, pos: nat, j: nat)
    requires j < |l| && l[j].Some?
  {
    && SlotOffset(l, pos, j) + l[j].value.0 <= |raw|
    && ValueFromSlice(l[j].value.1, raw[SlotOffset(l, pos, j)..SlotOffset(l, pos, j) + l[j].value.0]).Ok?
  }

  /** Slot j is the first decodable slot that does not lie within the
      buffer or does not decode there, and err is what decoding raises at
      it: SliceOutOfRange for a slot beyond the buffer, otherwise the
      slot's own decoding error. */
  ghost predicate FirstBadSlot(l: seq<Slot>, raw: seq<byte>, pos: nat, j: nat, err: Error)
  {
    && j < |l| && l[j].Some?
    && (forall i :: 0 <= i < j && l[i].Some? ==> SlotDecodes(l, raw, pos, i))
    && var at := SlotOffset(l, pos, j);
       if at + l[j].value.0 > |raw| then err == SliceOutOfRange
       else ValueFromSlice(l[j].value.1, raw[at..at + l[j].value.0]) == Err(err)
  }

  /** Some slot is the first that does not decode, with error err. */
  ghost predicate SlotsFailWith(l: seq<Slot>, raw: seq<byte>, pos: nat, err: Error)
  {
    exists j :: FirstBadSlot(l, raw, pos, j, err)
  }

  /** The first slot, placed at pos, lies within the buffer and decodes
      there (trivially so when it is not decodable). */
  predicate HeadDecodes(l: seq<Slot>, raw: seq<byte>, pos: nat)
    requires |l| > 0
  {
    match l[0]
    case None => true
    case Some((cnt, dt)) => pos + cnt <= |raw| && ValueFromSlice(dt, raw[pos..pos + cnt]).Ok?
  }

  /** The slots decode when the first one does and the rest decode one
      slot further on. */
  lemma SlotsDecodeFromTail(l: seq<Slot>, raw: seq<byte>, pos: nat)
    requires |l| > 0 && HeadDecodes(l, raw, pos) && SlotsDecode(l[1..], raw, pos + SlotBytes(l[0]))
    ensures SlotsDecode(l, raw, pos)
  {
    var next, tail := pos + SlotBytes(l[0]), l[1..];
    OffsetsShift(l, pos, next);
    forall j | 0 <= j < |l| && l[j].Some?
      ensures SlotOffset(l, pos, j) + l[j].value.0 <= |raw|
      ensures ValueFromSlice(l[j].value.1, raw[SlotOffset(l, pos, j)..SlotOffset(l, pos, j) + l[j].value.0]).Ok?
    {
      if j > 0 {
        assert l[j] == tail[j - 1];
        assert SlotOffset(l, pos, j) == SlotOffset(tail, next, j - 1);
      }
    }
  }

  /** When the slots decode, so does the first and so do the rest, one
      slot further on. */
  lemma SlotsDecodeToTail(l: seq<Slot>, raw: seq<byte>, pos: nat)
    requires |l| > 0 && SlotsDecode(l, raw, pos)
    ensures HeadDecodes(l, raw, pos) && SlotsDecode(l[1..], raw, pos + SlotBytes(l[0]))
  {
    var next, tail := pos + SlotBytes(l[0]), l[1..];
    OffsetsShift(l, pos, next);
    forall j | 0 <= j < |tail| && tail[j].Some?
      ensures SlotOffset(tail, next, j) + tail[j].value.0 <= |raw|
      ensures ValueFromSlice(tail[j].value.1, raw[SlotOffset(tail, next, j)..SlotOffset(tail, next, j) + tail[j].value.0]).Ok?
    {
      assert l[j + 1] == tail[j];
      assert SlotOffset(l, pos, j + 1) == SlotOffset(tail, next, j);
    }
  }

  /** One step of decoding: the first slot decodes and then the rest does,
      from the first slot's end. */
  lemma DecodeSlotsStep(l: seq<Slot>, raw: seq<byte>, pos: nat)
    requires pos <= |raw| && |l| > 0
    ensures DecodeSlots(l, raw, pos).Ok? <==>
      HeadDecodes(l, raw, pos) && DecodeSlots(l[1..], raw, pos + SlotBytes(l[0])).Ok?
  {
  }

  /** Decoding the slots succeeds exactly when every decodable slot lies
      within the buffer at its packed offset and decodes there. */
  lemma {:induction false} DecodeSlotsSucceeds(l: seq<Slot>, raw: seq<byte>, pos: nat)
    requires pos <= |raw|
    ensures DecodeSlots(l, raw, pos).Ok? <==> SlotsDecode(l, raw, pos)
    decreases |l|
  {
    if |l| > 0 {
      var next := pos + SlotBytes(l[0]);
      DecodeSlotsStep(l, raw, pos);
      if HeadDecodes(l, raw, pos) {
        DecodeSlotsSucceeds(l[1..], raw, next);
        if SlotsDecode(l[1..], raw, next) {
          SlotsDecodeFromTail(l, raw, pos);
        }
      }
      if SlotsDecode(l, raw, pos) {
        SlotsDecodeToTail(l, raw, pos);
      }
    }
  }

  /** A failed decoding fails at the first slot that does not decode, with
      the error of that slot: SliceOutOfRange where the slot runs past the
      buffer, otherwise its decoding error. */
  lemma {:induction false} DecodeSlotsFails(l: seq<Slot>, raw: seq<byte>, pos: nat)
    requires pos <= |raw| && DecodeSlots(l, raw, pos).Err?
    ensures SlotsFailWith(l, raw, pos, DecodeSlots(l, raw, pos).error)
    decreases |l|
  {
    DecodeSlotsEmpty(l, raw, pos);
    if HeadDecodes(l, raw, pos) {
      DecodeSlotsTailErr(l, raw, pos);
      DecodeSlotsFails(l[1..], raw, pos + SlotBytes(l[0]));
      FailsShift(l, raw, pos, DecodeSlots(l, raw, pos).error);
    } else {
      BadSlotHere(l, raw, pos);
    }
  }

  /** When the first slot decodes, a failed decoding fails with the error
      of the rest, decoded from the first slot's end. */
  lemma DecodeSlotsTailErr(l: seq<Slot>, raw: seq<byte>, pos: nat)
    requires pos <= |raw| && |l| > 0 && DecodeSlots(l, raw, pos).Err? && HeadDecodes(l, raw, pos)
    ensures pos + SlotBytes(l[0]) <= |raw|
    ensures DecodeSlots(l[1..], raw, pos + SlotBytes(l[0])) == DecodeSlots(l, raw, pos)
  {
  }

  /** A first slot that does not decode is the first bad slot, with the
      error decoding gives there. */
  lemma BadSlotHere(l: seq<Slot>, raw: seq<byte>, pos: nat)
    requires pos <= |raw| && |l| > 0 && !HeadDecodes(l, raw, pos)
    ensures DecodeSlots(l, raw, pos).Err?
    ensures FirstBadSlot(l, raw, pos, 0, DecodeSlots(l, raw, pos).error)
  {
    assert SlotOffset(l, pos, 0) == pos by { assert l[..0] == []; }
  }

  /** Nothing fails to decode in an empty layout. */
  lemma DecodeSlotsEmpty(l: seq<Slot>, raw: seq<byte>, pos: nat)
    requires pos <= |raw| && DecodeSlots(l, raw, pos).Err?
    ensures |l| > 0
  {
  }

  /** A failure of the rest, after a first slot that decodes, is a failure
      of the whole. */
  lemma FailsShift(l: seq<Slot>, raw: seq<byte>, pos: nat, err: Error)
    requires |l| > 0 && HeadDecodes(l, raw, pos)
    requires SlotsFailWith(l[1..], raw, pos + SlotBytes(l[0]), err)
    ensures SlotsFailWith(l, raw, pos, err)
  {
    var j :| FirstBadSlot(l[1..], raw, pos + SlotBytes(l[0]), j, err);
    BadSlotShift(l, raw, pos, j, err);
  }

  /** A bad slot j of the rest, after a first slot that decodes, is bad
      slot j + 1 of the whole. */
  lemma BadSlotShift(l: seq<Slot>, raw: seq<byte>, pos: nat, j: nat, err: Error)
    requires |l| > 0 && HeadDecodes(l, raw, pos)
    requires FirstBadSlot(l[1..], raw, pos + SlotBytes(l[0]), j, err)
    ensures FirstBadSlot(l, raw, pos, j + 1, err)
  {
    var next, tail := pos + SlotBytes(l[0]), l[1..];
    OffsetsShift(l, pos, next);
    assert l[j + 1] == tail[j];
    forall i | 0 <= i < j + 1 && l[i].Some? ensures SlotDecodes(l, raw, pos, i) {
      if i > 0 {
        assert l[i] == tail[i - 1];
        assert SlotDecodes(tail, raw, next, i - 1);
      }
    }
  }

  /** `read_sdo_complete`: one complete-access read of object idx, into a
      buffer of (largest slot size) x (number of slots) bytes, decoded slot by
      slot. An object missing from the cached dictionary is IdxNotFound. */
  function ReadSdoComplete(m: Master, slave: SlavePos, idx: u16): (r: Result<seq<Option<Value>>, Error>)
    ensures LookupObject(m, slave, idx).None? ==> r == Err(IdxNotFound(slave, idx))
    ensures r.Ok? ==> var obj := LookupObject(m, slave, idx).value;
      && |r.value| == |obj.entries|
      && forall j :: 0 <= j < |obj.entries| ==> (r.value[j].None? <==> obj.entries[j].None?)
    ensures LookupObject(m, slave, idx).Some? ==>
      var l := SlotLayout(LookupObject(m, slave, idx).value.entries);
      var answer := m.engine.sdoRead(WireAddr(slave), SdoIdx(idx, 0), true, BufferSize(l));
      && (answer.None? ==> r == Err(Error.ReadSdo(slave, SdoIdx(idx, 0))))
      && (answer.Some? ==> (r.Ok? <==> SlotsDecode(l, answer.value, 0)))
      && (answer.Some? && r.Err? ==> SlotsFailWith(l, answer.value, 0, r.error))
  {
    match LookupObject(m, slave, idx)
    case None => Err(IdxNotFound(slave, idx))
    case Some(obj) =>
      var layout := SlotLayout(obj.entries);
      match ReadSdoRaw(m, slave, SdoIdx(idx, 0), true, BufferSize(layout))
      case Err(e) => Err(e)
      case Ok(raw) =>
        DecodeSlotsSucceeds(layout, raw, 0);
        if DecodeSlots(layout, raw, 0).Err? then
          DecodeSlotsFails(layout, raw, 0);
          DecodeSlots(layout, raw, 0)
        else
          DecodeSlots(layout, raw, 0)
  }

  /** The complete-access layout: the buffer asked of the engine holds all
      decodable entries packed end to end, and entry j's value is the
      decoding, under its data type, of the ceil(bit length / 8) bytes at
      its offset, where the offset is the sum of the byte counts of the
      decodable entries before it. */
  lemma ReadSdoCompleteLayout(m: Master, slave: SlavePos, idx: u16, j: nat)
    requires ReadSdoComplete(m, slave, idx).Ok?
    requires j < |LookupObject(m, slave, idx).value.entries|
    requires LookupObject(m, slave, idx).value.entries[j].Some?
    ensures var l := SlotLayout(LookupObject(m, slave, idx).value.entries);
      SumBytes(l) <= BufferSize(l)
    ensures var l := SlotLayout(LookupObject(m, slave, idx).value.entries);
      SlotDecodedAt(l, ReadSdoRaw(m, slave, SdoIdx(idx, 0), true, BufferSize(l)).value,
        ReadSdoComplete(m, slave, idx).value, j, LookupObject(m, slave, idx).value.entries[j].value)
  {
    var obj := LookupObject(m, slave, idx).value;
    var l := SlotLayout(obj.entries);
    var rr := ReadSdoRaw(m, slave, SdoIdx(idx, 0), true, BufferSize(l));
    assert rr.Ok? && ReadSdoComplete(m, slave, idx) == DecodeSlots(l, rr.value, 0);
    BufferHoldsAllSlots(l);
    var e := obj.entries[j].value;
    assert l[j] == Some((ByteCount(e.bitLen as nat), e.dataType));
    LayoutSlot(l, rr.value, ReadSdoComplete(m, slave, idx).value, j, e);
  }

  /** Slot j of a decoded layout, holding entry e, is the decoding of its
      own bytes. */
  lemma LayoutSlot(l: seq<Slot>, raw: seq<byte>, vals: seq<Option<Value>>, j: nat, e: SdoEntryInfo)
    requires DecodeSlots(l, raw, 0) == Ok(vals)
    requires j < |l| && l[j] == Some((ByteCount(e.bitLen as nat), e.dataType))
    ensures SlotDecodedAt(l, raw, vals, j, e)
  {
    DecodeSlotsContents(l, raw, 0, j);
  }

  /** Value j, of entry e, is the decoding under e's data type of the
      ceil(bit length / 8) bytes at slot j's offset in raw. */
  predicate SlotDecodedAt(l: seq<Slot>, raw: seq<byte>, vals: seq<Option<Value>>, j: nat, e: SdoEntryInfo)
  {
    && j < |l| && j < |vals| && vals[j].Some?
    && var at := SlotOffset(l, 0, j);
      && at + ByteCount(e.bitLen as nat) <= |raw|
      && Ok(vals[j].value) == ValueFromSlice(e.dataType, raw[at..at + ByteCount(e.bitLen as nat)])
  }
}
