/** Decoding of the CoE object-access word of an entry description
    (`access_from_u16`, `access`): bits 0-2 allow reading and bits 3-5
    allow writing in PreOp, SafeOp and Op respectively. */
module AccessRights {
  import opened EcTypes

  const RD_P: bv16 := 0x0001
  const RD_S: bv16 := 0x0002
  const RD_O: bv16 := 0x0004
  const WR_P: bv16 := 0x0008
  const WR_S: bv16 := 0x0010
  const WR_O: bv16 := 0x0020

  predicate CanRead(a: Access)
  {
    a == ReadOnly || a == ReadWrite
  }

  predicate CanWrite(a: Access)
  {
    a == WriteOnly || a == ReadWrite
  }

  /** The access in one state, from its read flag and its write flag. The
      flags can be read back from the result, so no two flag pairs share an
      access, and Unknown means neither flag. */
  function AccessOf(read: bool, write: bool): (a: Access)
    ensures CanRead(a) == read && CanWrite(a) == write
    ensures a == Unknown <==> !read && !write
  {
    match (read, write)
    case (true, false) => ReadOnly
    case (false, true) => WriteOnly
    case (true, true) => ReadWrite
    case _ => Unknown
  }

  /** The access word of an entry, decoded per AL state: each state may be
      read exactly when its read bit is set and written exactly when its
      write bit is set; bits 6 and up play no part. */
  function AccessFromU16(x: bv16): (r: SdoEntryAccess)
    ensures CanRead(r.preOp) == (x & RD_P != 0) && CanWrite(r.preOp) == (x & WR_P != 0)
    ensures CanRead(r.safeOp) == (x & RD_S != 0) && CanWrite(r.safeOp) == (x & WR_S != 0)
    ensures CanRead(r.op) == (x & RD_O != 0) && CanWrite(r.op) == (x & WR_O != 0)
  {
    var p := AccessOf(x & RD_P > 0, x & WR_P > 0);
    var s := AccessOf(x & RD_S > 0, x & WR_S > 0);
    var o := AccessOf(x & RD_O > 0, x & WR_O > 0);
    SdoEntryAccess(p, s, o)
  }

  /** Reference encoding of an access triple back into its six flag bits. */
  function AccessToU16(a: SdoEntryAccess): bv16
  {
    (if CanRead(a.preOp) then RD_P else 0)
    | (if CanRead(a.safeOp) then RD_S else 0)
    | (if CanRead(a.op) then RD_O else 0)
    | (if CanWrite(a.preOp) then WR_P else 0)
    | (if CanWrite(a.safeOp) then WR_S else 0)
    | (if CanWrite(a.op) then WR_O else 0)
  }

  /** Decoding keeps exactly the six access bits: re-encoding the decoded
      access gives the word with bits 6 and up cleared. */
  lemma AccessRoundTrip(x: bv16)
    ensures AccessToU16(AccessFromU16(x)) == x & 0x3F
  {
  }

  /** Every access triple is the decoding of its own encoding. */
  lemma AccessEncodeRoundTrip(a: SdoEntryAccess)
    ensures AccessFromU16(AccessToU16(a)) == a
  {
  }

  /** Bits 6 and up (the PDO-mapping flags) never change the decoded access. */
  lemma HighBitsIgnored(x: bv16)
    ensures AccessFromU16(x) == AccessFromU16(x & 0x3F)
  {
  }

  /** The four cases of the source's unit test. */
  lemma AccessExamples()
    ensures AccessFromU16(0) == SdoEntryAccess(Unknown, Unknown, Unknown)
    ensures AccessFromU16(0x01) == SdoEntryAccess(ReadOnly, Unknown, Unknown)
    ensures AccessFromU16(0x09) == SdoEntryAccess(ReadWrite, Unknown, Unknown)
    ensures AccessFromU16(0x1D) == SdoEntryAccess(ReadWrite, WriteOnly, ReadOnly)
  {
  }
}
