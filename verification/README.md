# py_nes_emu core in Dafny

This project models the part of `py_nes_emu` that exists so far: the 6502
status register with its eight named flags, the processor's register file at
construction, and the 64 KiB memory bus that the processor reads and writes
through.

- `bytes.dfy` (`Bytes`): `byte` (8 bits) and `word` (16 bits).
- `bus.dfy` (`MemoryBus`): the bus as a 65,536-byte sequence. `Write` and `Read` are
  pure functions with bounds checks. Integer addresses outside 0x0000..0xFFFF are
  ignored by `Write` and read as 0 by `Read`. There are lemmas for the round trip,
  the frame condition, last-write-wins and commutation of writes. A whole session of
  writes (`WriteAll`) is related to an independent reference answer (`LastWrite`).
- `flags.dfy` (`StatusFlags`): the flags as a closed enumeration `Flag`. A flag's mask
  is `1 << Bit(f)`, and `SetFlag`/`GetFlag` work on an 8-bit status value. The module
  relates the register to the set of flags that are on (`Flags`/`Pack`, a bijection).
  Setting a flag adds it to that set and clearing it removes it. A run of updates
  (`SetAll`) is related to the last update of each flag (`LastState`).
- `cpu.dfy` (`Processor`): the register file `Cpu` (bus, status, X, Y, accumulator,
  program counter, stack pointer). It covers construction, flag setting and querying,
  and the forwarding `Write`/`Read`.

The Python processor holds a reference to a bus object that the caller shares.
In the model the bus is a value inside `Cpu`, and `Processor.Write` returns the
processor with its updated bus. Reading is a pure function, so a read cannot
change memory, and the `readOnly` argument is accepted and ignored.

The model follows the code where it departs from the usual 6502 register-file interface:
- `get_flag` returns the flag's mask or 0, not a boolean.
- Out-of-range bus addresses are not rejected. Writes to them are silently dropped, and reads from them return 0.

## Model

| member | source | states |
|---|---|---|
| MemoryBus.NewBus | bus.py:5-6 | a new bus has 65,536 bytes and every address, in range or not, reads 0 |
| MemoryBus.Write | bus.py:8-10 | an in-range write stores the byte at its address, every other cell is unchanged, and an out-of-range write leaves the bus as it was |
| MemoryBus.Read | bus.py:12-16 | an in-range read returns the stored byte; an out-of-range read returns 0 |
| MemoryBus.ReadIgnoresReadOnly | bus.py:12-16 | the read-only hint never changes what a read returns |
| MemoryBus.ReadAfterWrite | bus.py:8-16 | round trip: reading an in-range address right after writing d there gives d |
| MemoryBus.ReadOtherAfterWrite | bus.py:8-16 | a write leaves every other address reading as before |
| MemoryBus.WriteWriteSame | bus.py:8-10 | two writes to one address equal the second write alone |
| MemoryBus.WriteWriteOther | bus.py:8-10 | writes to distinct addresses commute |
| MemoryBus.WriteSameValue | bus.py:8-16 | writing back the byte an address already reads leaves the bus unchanged |
| MemoryBus.ReadsDetermineBus | bus.py:12-16 | two buses that agree on every read are equal, so reads observe the whole memory |
| MemoryBus.ReadAfterWriteAll | bus.py:8-16 | after any session of writes, an in-range address reads the latest byte written to it (else its earlier contents) and an out-of-range one reads 0 |
| MemoryBus.OutOfRangeWritesIgnored | bus.py:8-10 | a session made only of out-of-range writes leaves the bus unchanged |
| StatusFlags.Bit | cpu.py:11-20 | each flag sits at its own bit position below 8, in the order carry, zero, interrupts, decimal, break, unused, overflow, negative |
| StatusFlags.MaskValues | cpu.py:11-20 | the masks of the eight flags are 0x01, 0x02, ..., 0x80 |
| StatusFlags.MasksAreDistinctSingleBits | cpu.py:11-20 | each mask is a single non-zero bit, and masks of distinct flags do not overlap |
| StatusFlags.SetFlag | cpu.py:40-44 | setting a flag turns its bit on, clearing turns it off, and every bit outside the flag's mask is unchanged; the register stays 8 bits |
| StatusFlags.GetFlag | cpu.py:46-48 | the query returns the flag's mask exactly when the flag's bit is set and 0 exactly when it is clear |
| StatusFlags.SetThenGet | cpu.py:40-48 | round trip: after set_flag(f, s), get_flag(f) is non-zero iff s, and equals the mask when s holds |
| StatusFlags.SetFlagFrame | cpu.py:40-48 | setting f leaves the query result of every other flag unchanged |
| StatusFlags.SetFlagIdempotent | cpu.py:40-44 | setting a flag to the same state twice equals setting it once |
| StatusFlags.SetFlagLastWins | cpu.py:40-44 | of two settings of one flag, the second decides the register |
| StatusFlags.SetFlagsCommute | cpu.py:40-44 | settings of two different flags can be done in either order |
| StatusFlags.SetFlagToCurrent | cpu.py:40-48 | setting a flag to the state it already reports leaves the register unchanged |
| StatusFlags.PackBits | cpu.py:11-20 | the register built from a set of flags has exactly those flags on |
| StatusFlags.FlagsOfPack | cpu.py:11-20 | building a register from a set of flags and reading its flags back gives that set |
| StatusFlags.PackOfFlags | cpu.py:11-20 | the eight flags cover the whole register: rebuilding a value from its flags gives the value back |
| StatusFlags.FlagsInjective | cpu.py:11-20 | two register values with the same flags on are equal |
| StatusFlags.FlagOnAfterSet | cpu.py:40-48 | after set_flag(f, s), flag f is on iff s, and any other flag is on iff it was on before |
| StatusFlags.SetFlagView | cpu.py:40-44 | seen as a set of flags, setting f adds f and clearing f removes f, nothing else |
| StatusFlags.GetFlagAfterSetAll | cpu.py:40-48 | after any run of set_flag calls, a flag is on iff the last call for it set it, or, if no call named it, iff it was on before |
| Processor.NewCpu | cpu.py:6-32 | a new processor is connected to the given bus, with status, X, Y, accumulator, program counter and stack pointer all 0 and so every flag off |
| Processor.Write | cpu.py:34-35 | the write reaches the bus unchanged, changes no register, reads back at its address when in range, and leaves other addresses as they were |
| Processor.Read | cpu.py:37-38 | the read returns the bus's answer for the address, the same whichever read-only hint is given, and 0 out of range |
| Processor.SetFlag | cpu.py:40-44 | only the status register changes; in it f reads as the given state and every other flag is unchanged |
| Processor.GetFlag | cpu.py:46-48 | the query returns f's mask when f is among the register's flags that are on and 0 otherwise |
| Processor.GetAfterSetFlag | cpu.py:40-48 | round trip through the processor: get_flag after set_flag returns the mask for true and 0 for false |

## Left out

- The 6502 execution engine is not modelled because no source exists for it. This covers the opcode table, addressing modes, cycle counting, stack operations and the reset, IRQ and NMI sequences.
- `main.py` is not part of this model. It is a driver that builds a bus and a processor and performs one write, which `Processor.Write` covers.
- Unknown flag names are not modelled. In Python they raise `KeyError`, but the closed `Flag` enumeration makes them impossible.
- numpy's type handling is not modelled. The masks are 64-bit `np.uint`, so setting or clearing a flag widens the stored register type, although its value stays in 0..255. In the model the register is always an 8-bit value.
- Conversion of data arguments is not modelled. Data is an 8-bit value, so a wider argument that numpy would truncate when storing cannot be passed.
- Shared bus identity is not modelled. The processor and the caller share one Python bus object; here the bus is copied into the `Cpu` value and returned with it.
