/**
 This module models the processor's register file: the status register with its
 flag operations, the index registers, the accumulator, the program counter and
 the stack pointer, connected to a memory bus whose reads and writes it forwards.
 The bus is held by value: each operation returns the processor with its new bus.
 */
module Processor {
  import opened Bytes
  import StatusFlags
  import MemoryBus

  datatype Cpu = Cpu(
    bus: MemoryBus.Bus,
    status: byte,
    x: byte,
    y: byte,
    accumulator: byte,
    pc: word,
    sp: byte
  )

  /** A processor connected to `bus`, with every register zero and so every flag off. */
  function NewCpu(bus: MemoryBus.Bus): (c: Cpu)
    ensures c.bus == bus
    ensures c.status == 0 && c.x == 0 && c.y == 0 && c.accumulator == 0 && c.pc == 0 && c.sp == 0
    ensures StatusFlags.Flags(c.status) == {}
    ensures forall f :: StatusFlags.GetFlag(c.status, f) == 0
  {
    Cpu(bus, 0, 0, 0, 0, 0, 0)
  }

  /** `write(data, address)`: passed unchanged to the bus; no register changes. */
  function Write(c: Cpu, data: byte, address: int): (c': Cpu)
    ensures c'.(bus := c.bus) == c
    ensures c'.bus == MemoryBus.Write(c.bus, data, address)
    ensures MemoryBus.InRange(address) ==> Read(c', address, false) == data
    ensures forall other :: other != address ==> Read(c', other, false) == Read(c, other, false)
  {
    c.(bus := MemoryBus.Write(c.bus, data, address))
  }

  /** `read(address, readOnly)`: the bus's answer for `address`, whatever `readOnly` says. */
  function Read(c: Cpu, address: int, readOnly: bool): (r: byte)
    ensures r == MemoryBus.Read(c.bus, address, false)
    ensures r == MemoryBus.Read(c.bus, address, true)
    ensures !MemoryBus.InRange(address) ==> r == 0
  {
    MemoryBus.Read(c.bus, address, false)
  }

  /** `set_flag(f, state)` on the processor: only the status register changes, and in it only f's bit. */
  function SetFlag(c: Cpu, f: StatusFlags.Flag, state: bool): (c': Cpu)
    ensures c' == c.(status := c'.status)
    ensures StatusFlags.GetFlag(c'.status, f) != 0 <==> state
    ensures forall g :: g != f ==> StatusFlags.GetFlag(c'.status, g) == StatusFlags.GetFlag(c.status, g)
  {
    var s := StatusFlags.SetFlag(c.status, f, state);
    StatusFlags.SetThenGet(c.status, f, state);
    assert forall g :: g != f ==> StatusFlags.GetFlag(s, g) == StatusFlags.GetFlag(c.status, g) by {
      forall g | g != f ensures StatusFlags.GetFlag(s, g) == StatusFlags.GetFlag(c.status, g) {
        StatusFlags.SetFlagFrame(c.status, f, state, g);
      }
    }
    c.(status := s)
  }

  /** `get_flag(f)` on the processor: f's mask when f is on, 0 when it is off. */
  function GetFlag(c: Cpu, f: StatusFlags.Flag): (r: byte)
    ensures r == (if f in StatusFlags.Flags(c.status) then StatusFlags.Mask(f) else 0)
  {
    StatusFlags.GetFlag(c.status, f)
  }

  /** Round trip through the processor: a flag reads back as it was set. */
  lemma GetAfterSetFlag(c: Cpu, f: StatusFlags.Flag, state: bool)
    ensures GetFlag(SetFlag(c, f, state), f) == (if state then StatusFlags.Mask(f) else 0)
  {
    StatusFlags.SetThenGet(c.status, f, state);
  }
}
