/**
 This module models the memory bus: 64 KiB of byte-addressed RAM, zeroed at
 construction, with bounds-checked writes (out-of-range writes are dropped)
 and bounds-checked reads (out-of-range reads yield 0).
 */
module MemoryBus {
  import opened Bytes

  /** Number of bytes of RAM on the bus (64 * 1024). */
  const RAM_SIZE: nat := 0x1_0000

  /** The RAM contents: exactly one byte per address 0x0000..0xFFFF. */
  type Ram = s: seq<byte> | |s| == RAM_SIZE witness seq(RAM_SIZE, _ => 0)

  datatype Bus = Bus(ram: Ram)

  /** Addresses are arbitrary integers; only 0x0000..0xFFFF reach the RAM. */
  predicate InRange(address: int) {
    0x0000 <= address <= 0xFFFF
  }

  /** A freshly constructed bus: every address, in range or not, reads 0. */
  function NewBus(): (b: Bus)
    ensures |b.ram| == 65536
    ensures forall address :: Read(b, address, false) == 0
  {
    Bus(seq(RAM_SIZE, _ => 0))
  }

  /** Store `data` at `address`; an address outside the RAM is ignored. */
  function Write(b: Bus, data: byte, address: int): (b': Bus)
    ensures InRange(address) ==> b'.ram[address] == data
    ensures forall i :: 0 <= i < RAM_SIZE && i != address ==> b'.ram[i] == b.ram[i]
    ensures !InRange(address) ==> b' == b
  {
    if InRange(address) then Bus(b.ram[address := data]) else b
  }

  /** The byte at `address`, or 0 outside the RAM. `readOnly` has no effect. */
  function Read(b: Bus, address: int, readOnly: bool): (r: byte)
    ensures !InRange(address) ==> r == 0
    ensures InRange(address) ==> r == b.ram[address]
  {
    if InRange(address) then b.ram[address] else 0
  }

  /** Reading never depends on the `readOnly` hint. */
  lemma ReadIgnoresReadOnly(b: Bus, address: int)
    ensures Read(b, address, true) == Read(b, address, false)
  {
  }

  /** Round trip: a byte written in range reads back unchanged. */
  lemma ReadAfterWrite(b: Bus, data: byte, address: int)
    requires InRange(address)
    ensures Read(Write(b, data, address), address, false) == data
  {
  }

  /** Frame: a write leaves every other address reading as before. */
  lemma ReadOtherAfterWrite(b: Bus, data: byte, address: int, other: int)
    requires other != address
    ensures Read(Write(b, data, address), other, false) == Read(b, other, false)
  {
  }

  /** Two writes to the same address: the last one wins. */
  lemma WriteWriteSame(b: Bus, d1: byte, d2: byte, address: int)
    ensures Write(Write(b, d1, address), d2, address) == Write(b, d2, address)
  {
    if InRange(address) {
      assert Write(Write(b, d1, address), d2, address).ram == Write(b, d2, address).ram;
    }
  }

  /** Writes to different addresses commute. */
  lemma WriteWriteOther(b: Bus, d1: byte, a1: int, d2: byte, a2: int)
    requires a1 != a2
    ensures Write(Write(b, d1, a1), d2, a2) == Write(Write(b, d2, a2), d1, a1)
  {
    assert Write(Write(b, d1, a1), d2, a2).ram == Write(Write(b, d2, a2), d1, a1).ram;
  }

  /** Writing back the byte already stored changes nothing. */
  lemma WriteSameValue(b: Bus, address: int)
    ensures Write(b, Read(b, address, false), address) == b
  {
    if InRange(address) {
      assert Write(b, Read(b, address, false), address).ram == b.ram;
    }
  }

  /** Two buses that agree on every read are the same bus. */
  lemma ReadsDetermineBus(b1: Bus, b2: Bus)
    requires forall address :: Read(b1, address, false) == Read(b2, address, false)
    ensures b1 == b2
  {
    forall i | 0 <= i < RAM_SIZE
      ensures b1.ram[i] == b2.ram[i]
    {
      assert Read(b1, i, false) == Read(b2, i, false);
    }
  }

  /** One call of `write(data, address)` in a session. */
  datatype WriteOp = WriteOp(data: byte, address: int)

  /** The bus after performing `ops` in order, first to last. */
  function WriteAll(b: Bus, ops: seq<WriteOp>): Bus
    decreases |ops|
  {
    if |ops| == 0 then b
    else
      var last := ops[|ops| - 1];
      Write(WriteAll(b, ops[..|ops| - 1]), last.data, last.address)
  }

  /** Reference answer: the data of the latest op aimed at `address`, or `prior` if none is. */
  function LastWrite(ops: seq<WriteOp>, address: int, prior: byte): (r: byte)
    ensures (forall i :: 0 <= i < |ops| ==> ops[i].address != address) ==> r == prior
    decreases |ops|
  {
    if |ops| == 0 then prior
    else if ops[|ops| - 1].address == address then ops[|ops| - 1].data
    else LastWrite(ops[..|ops| - 1], address, prior)
  }

  /** After a whole session of writes, each in-range address reads the last byte
      written to it (or its original contents); out-of-range addresses read 0. */
  lemma {:induction false} ReadAfterWriteAll(b: Bus, ops: seq<WriteOp>, address: int)
    ensures Read(WriteAll(b, ops), address, false)
         == if InRange(address) then LastWrite(ops, address, Read(b, address, false)) else 0
    decreases |ops|
  {
    if |ops| > 0 && InRange(address) {
      var init := ops[..|ops| - 1];
      ReadAfterWriteAll(b, init, address);
    }
  }

  /** A session whose every write is out of range leaves the bus unchanged. */
  lemma {:induction false} OutOfRangeWritesIgnored(b: Bus, ops: seq<WriteOp>)
    requires forall i :: 0 <= i < |ops| ==> !InRange(ops[i].address)
    ensures WriteAll(b, ops) == b
    decreases |ops|
  {
    if |ops| > 0 {
      OutOfRangeWritesIgnored(b, ops[..|ops| - 1]);
    }
  }
}
