/** The native EtherCAT engine, seen from the master as a set of oracles:
    every mailbox request becomes a total function from the request to the
    engine's answer, where None stands for a non-positive return code. */
module SoemEngine {
  import opened Bytes
  import opened Wrappers
  import opened EcTypes

  /** Capacity of the engine's object-description list. */
  const MAX_OD_LIST: nat := 1024

  /** Capacity of the engine's entry-description list. */
  const MAX_OE_LIST: nat := 256

  /** The object indexes an object-description list read returns. */
  type OdIndexList = s: seq<u16> | |s| <= MAX_OD_LIST

  /** What an object-description read fills in for one listed object. */
  datatype OdDesc = OdDesc(objectCode: u8, maxSub: u8, name: string)

  /** One row of an entry-description list: the raw data-type code, bit
      length and access word of one subindex, and its name. */
  datatype OeRow = OeRow(dataType: u16, bitLen: u16, access: bv16, name: string)

  /** An entry-description list: the engine's fixed table of rows, one per
      possible subindex. */
  type OeList = s: seq<OeRow> | |s| == MAX_OE_LIST
    witness seq(MAX_OE_LIST, _ => OeRow(0, 0, 0, ""))

  /** The engine calls the modelled code makes. Slaves are addressed by
      their wire address (position + 1). `sdoRead` gets the SDO, the
      complete-access flag and the size of the buffer handed in, and
      answers with the bytes it wrote. */
  datatype Engine = Engine(
    sdoRead: (nat, SdoIdx, bool, nat) -> Option<seq<byte>>,
    odList: nat -> Option<OdIndexList>,
    odDesc: (nat, nat) -> Option<OdDesc>,
    oeList: (nat, nat) -> Option<OeList>)

  /** The master: the engine, the decoding of CoE data-type codes (a table
      of the `ethercat_types` crate, which is not part of this model), and
      the object dictionaries cached per slave by configuration. */
  datatype Master = Master(
    engine: Engine,
    dataTypeOf: u16 -> Option<DataType>,
    sdos: map<SlavePos, SdoTable>)

  /** Address of a slave on the wire. */
  function WireAddr(slave: SlavePos): nat
  {
    slave as nat + 1
  }

  /** `read_sdo`: one SDO read; a failed read names the slave and the SDO. */
  function ReadSdoRaw(m: Master, slave: SlavePos, sdo: SdoIdx, complete: bool, size: nat): (r: Result<seq<byte>, Error>)
    ensures r.Err? <==> m.engine.sdoRead(WireAddr(slave), sdo, complete, size).None?
    ensures r.Err? ==> r.error == Error.ReadSdo(slave, sdo)
    ensures r.Ok? ==> r.value == m.engine.sdoRead(WireAddr(slave), sdo, complete, size).value
  {
    m.engine.sdoRead(WireAddr(slave), sdo, complete, size).OkOr(Error.ReadSdo(slave, sdo))
  }
}
