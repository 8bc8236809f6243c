/** The slave record of the engine wrapper (`ethercat-soem-ctx` `Slave`),
    reduced to the fields its accessors read, and the length rule of its
    process-data views. The views are ranges of the engine's shared I/O
    map, which is passed in as a byte string. */
module SlaveView {
  import opened Bytes

  /** The fields of one entry of the engine's slave table that the
      modelled accessors read or write. `outputs` and `inputs` are the
      offsets of the slave's regions in the I/O map. */
  datatype Slave = Slave(
    state: u16,
    alStatusCode: u16,
    outputBits: u16,
    outputBytes: u32,
    outputs: nat,
    inputBits: u16,
    inputBytes: u32,
    inputs: nat,
    hasDc: u8,
    isLost: u8)

  /** A range of the I/O map. */
  datatype View = View(start: nat, len: nat)

  /** Length of a process-data view: the byte count, except that a region
      of fewer than eight bits (byte count 0, bit count > 0) still has one
      byte. The view is empty exactly when there is no data at all. */
  function ViewLen(bytes: nat, bits: nat): (n: nat)
    ensures n == 0 <==> bytes == 0 && bits == 0
    ensures bytes > 0 ==> n == bytes
    ensures bytes == 0 && bits > 0 ==> n == 1
  {
    if bytes == 0 && bits > 0 then 1 else bytes
  }

  /** `outputs()`: the output region of the slave. */
  function Outputs(s: Slave): (v: View)
    ensures v.start == s.outputs
    ensures v.len == ViewLen(s.outputBytes, s.outputBits)
  {
    View(s.outputs, ViewLen(s.outputBytes, s.outputBits))
  }

  /** `outputs_mut()`: the same region as `outputs()`, handed out for writing. */
  function OutputsMut(s: Slave): (v: View)
    ensures v == Outputs(s)
  {
    View(s.outputs, ViewLen(s.outputBytes, s.outputBits))
  }

  /** `inputs()`: the input region of the slave, under the same length rule. */
  function Inputs(s: Slave): (v: View)
    ensures v.start == s.inputs
    ensures v.len == ViewLen(s.inputBytes, s.inputBits)
  {
    View(s.inputs, ViewLen(s.inputBytes, s.inputBits))
  }

  /** The bytes of a view. The engine lays the regions out inside its I/O
      map, which the precondition states. */
  function ViewBytes(io: seq<byte>, v: View): (r: seq<byte>)
    requires v.start + v.len <= |io|
    ensures |r| == v.len
    ensures forall i :: 0 <= i < v.len ==> r[i] == io[v.start + i]
  {
    io[v.start..v.start + v.len]
  }

  /** The engine's sizing convention: a region of fewer than eight bits has
      byte count 0, any other region its bits rounded up to whole bytes. */
  predicate EngineSized(bytes: nat, bits: nat)
  {
    bytes == if bits < 8 then 0 else ByteCount(bits)
  }

  /** Under the engine's sizing convention the view holds every bit of
      the region and no spare byte: it is exactly ceil(bits / 8) long. */
  lemma ViewCoversBits(bytes: nat, bits: nat)
    requires EngineSized(bytes, bits)
    ensures ViewLen(bytes, bits) == ByteCount(bits)
    ensures ViewLen(bytes, bits) * 8 >= bits
  {
  }

  /** AL state of the slave. */
  function State(s: Slave): u16
  {
    s.state
  }

  /** `set_state`: the state is replaced and no other field changes. */
  function SetState(s: Slave, st: u16): (r: Slave)
    ensures State(r) == st
    ensures r.(state := s.state) == s
  {
    s.(state := st)
  }

  /** Whether the slave is capable of distributed clocks. */
  function HasDc(s: Slave): (r: bool)
    ensures r <==> s.hasDc != 0
  {
    s.hasDc != 0
  }

  /** Whether the slave has been marked as not responding. */
  function IsLost(s: Slave): (r: bool)
    ensures r <==> s.isLost != 0
  {
    s.isLost != 0
  }

  /** Changing the state keeps the DC capability and the lost flag, and
      the process-data views. */
  lemma SetStateKeepsFlags(s: Slave, st: u16)
    ensures HasDc(SetState(s, st)) == HasDc(s)
    ensures IsLost(SetState(s, st)) == IsLost(s)
    ensures Outputs(SetState(s, st)) == Outputs(s) && Inputs(SetState(s, st)) == Inputs(s)
  {
  }
}
