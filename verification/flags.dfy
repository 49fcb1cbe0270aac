/**
 This module models the processor status register as an 8-bit value holding
 eight named single-bit flags, with the set/clear and query operations on it.
 The flags form a closed enumeration, so an unknown flag name cannot occur.
 */
module StatusFlags {
  import opened Bytes

  datatype Flag = Carry | Zero | Interrupts | Decimal | Break | Unused | Overflow | Negative

  /** All flags, listed so that a flag's index is its bit position. */
  const AllFlags: seq<Flag> := [Carry, Zero, Interrupts, Decimal, Break, Unused, Overflow, Negative]

  /** The bit position that a flag occupies in the status register. */
  function Bit(f: Flag): (n: nat)
    ensures n < 8 && AllFlags[n] == f
  {
    match f
    case Carry => 0
    case Zero => 1
    case Interrupts => 2
    case Decimal => 3
    case Break => 4
    case Unused => 5
    case Overflow => 6
    case Negative => 7
  }

  /** The single-bit mask of a flag: one shifted left by its bit position. */
  function Mask(f: Flag): byte
  {
    1 << Bit(f)
  }

  /** Bit `n` of `status`, read by shifting rather than masking. */
  predicate BitSet(status: byte, n: nat)
    requires n < 8
  {
    (status >> n) & 1 == 1
  }

  /** The masks are exactly 0x01, 0x02, ..., 0x80 in flag order. */
  lemma MaskValues()
    ensures Mask(Carry) == 0x01 && Mask(Zero) == 0x02
    ensures Mask(Interrupts) == 0x04 && Mask(Decimal) == 0x08
    ensures Mask(Break) == 0x10 && Mask(Unused) == 0x20
    ensures Mask(Overflow) == 0x40 && Mask(Negative) == 0x80
  {
  }

  /** Every mask has exactly one bit set, and distinct flags use disjoint bits. */
  lemma MasksAreDistinctSingleBits(f: Flag, g: Flag)
    ensures Mask(f) != 0 && Mask(f) & (Mask(f) - 1) == 0
    ensures BitSet(Mask(f), Bit(f))
    ensures f != g ==> Mask(f) & Mask(g) == 0
  {
    MaskValues();
  }

  /** Turn one flag on (`state`) or off (`!state`) in the status register. */
  function SetFlag(status: byte, f: Flag, state: bool): (s: byte)
    ensures state ==> s & Mask(f) == Mask(f)
    ensures !state ==> s & Mask(f) == 0
    ensures s & !Mask(f) == status & !Mask(f)
  {
    if state then status | Mask(f) else status & !Mask(f)
  }

  /** Query one flag: the flag's mask when its bit is set, and 0 when it is clear. */
  function GetFlag(status: byte, f: Flag): (r: byte)
    ensures r == Mask(f) <==> BitSet(status, Bit(f))
    ensures r == 0 <==> !BitSet(status, Bit(f))
  {
    status & Mask(f)
  }

  /** Round trip: after setting a flag to `state`, querying it is non-zero iff `state`. */
  lemma SetThenGet(status: byte, f: Flag, state: bool)
    ensures GetFlag(SetFlag(status, f, state), f) != 0 <==> state
    ensures state ==> GetFlag(SetFlag(status, f, state), f) == Mask(f)
  {
  }

  /** Setting a flag leaves every other flag reading as before. */
  lemma SetFlagFrame(status: byte, f: Flag, state: bool, g: Flag)
    requires f != g
    ensures GetFlag(SetFlag(status, f, state), g) == GetFlag(status, g)
  {
    MasksAreDistinctSingleBits(f, g);
  }

  /** Setting the same state twice is the same as setting it once. */
  lemma SetFlagIdempotent(status: byte, f: Flag, state: bool)
    ensures SetFlag(SetFlag(status, f, state), f, state) == SetFlag(status, f, state)
  {
  }

  /** Of two settings of one flag, the last one wins. */
  lemma SetFlagLastWins(status: byte, f: Flag, s1: bool, s2: bool)
    ensures SetFlag(SetFlag(status, f, s1), f, s2) == SetFlag(status, f, s2)
  {
  }

  /** Settings of two different flags commute. */
  lemma SetFlagsCommute(status: byte, f: Flag, s1: bool, g: Flag, s2: bool)
    requires f != g
    ensures SetFlag(SetFlag(status, f, s1), g, s2) == SetFlag(SetFlag(status, g, s2), f, s1)
  {
    MasksAreDistinctSingleBits(f, g);
  }

  /** Re-setting a flag to the state it already has changes nothing. */
  lemma SetFlagToCurrent(status: byte, f: Flag)
    ensures SetFlag(status, f, GetFlag(status, f) != 0) == status
  {
  }

  // The status register viewed as the set of flags that are on.

  /** The flags whose bits are set in `status`. */
  function Flags(status: byte): set<Flag>
  {
    set f | f in AllFlags && GetFlag(status, f) != 0
  }

  /** The status value whose set bits are exactly the flags in `fs`. */
  function Pack(fs: set<Flag>): byte
  {
    PackBelow(fs, 8)
  }

  /** The status value holding the flags of `fs` among bit positions below `n`. */
  function PackBelow(fs: set<Flag>, n: nat): byte
    requires n <= 8
  {
    if n == 0 then 0
    else
      var rest := PackBelow(fs, n - 1);
      if AllFlags[n - 1] in fs then rest | Mask(AllFlags[n - 1]) else rest
  }

  /** Or-ing in a one-bit mask sets that bit and keeps the others. */
  lemma BitOfOr(a: byte, m: nat, k: nat)
    requires m < 8 && k < 8
    ensures BitSet(a | (1 << m), k) <==> BitSet(a, k) || k == m
  {
  }

  /** A byte is determined by its eight bits. */
  lemma BitsDetermineByte(a: byte, b: byte)
    requires forall k :: 0 <= k < 8 ==> (BitSet(a, k) <==> BitSet(b, k))
    ensures a == b
  {
    assert BitSet(a, 0) == BitSet(b, 0) && BitSet(a, 1) == BitSet(b, 1);
    assert BitSet(a, 2) == BitSet(b, 2) && BitSet(a, 3) == BitSet(b, 3);
    assert BitSet(a, 4) == BitSet(b, 4) && BitSet(a, 5) == BitSet(b, 5);
    assert BitSet(a, 6) == BitSet(b, 6) && BitSet(a, 7) == BitSet(b, 7);
  }

  /** Bit `k` of `PackBelow(fs, n)` is set iff `k < n` and the flag at `k` is in `fs`. */
  lemma {:induction false} PackBelowBits(fs: set<Flag>, n: nat)
    requires n <= 8
    ensures forall k :: 0 <= k < 8 ==> (BitSet(PackBelow(fs, n), k) <==> k < n && AllFlags[k] in fs)
  {
    if n > 0 {
      PackBelowBits(fs, n - 1);
      var rest := PackBelow(fs, n - 1);
      assert Bit(AllFlags[n - 1]) == n - 1;
      if AllFlags[n - 1] in fs {
        forall k | 0 <= k < 8
          ensures BitSet(PackBelow(fs, n), k) <==> k < n && AllFlags[k] in fs
        {
          BitOfOr(rest, n - 1, k);
        }
      }
    }
  }

  /** Bit `k` of a packed set is on iff the flag at position `k` is in the set. */
  lemma PackBits(fs: set<Flag>, f: Flag)
    ensures GetFlag(Pack(fs), f) != 0 <==> f in fs
  {
    PackBelowBits(fs, 8);
  }

  /** Packing then viewing a set of flags gives the set back. */
  lemma FlagsOfPack(fs: set<Flag>)
    ensures Flags(Pack(fs)) == fs
  {
    forall f ensures f in Flags(Pack(fs)) <==> f in fs {
      PackBits(fs, f);
    }
  }

  /** Viewing then packing a status value gives the value back, so the view loses nothing. */
  lemma PackOfFlags(status: byte)
    ensures Pack(Flags(status)) == status
  {
    var fs := Flags(status);
    PackBelowBits(fs, 8);
    forall k | 0 <= k < 8
      ensures BitSet(Pack(fs), k) <==> BitSet(status, k)
    {
      assert Bit(AllFlags[k]) == k;
    }
    BitsDetermineByte(Pack(fs), status);
  }

  /** Two status values with the same flags on are equal. */
  lemma FlagsInjective(s1: byte, s2: byte)
    requires Flags(s1) == Flags(s2)
    ensures s1 == s2
  {
    PackOfFlags(s1);
    PackOfFlags(s2);
  }

  /** After setting f to `state`, flag g is on iff it is f and `state` holds, or it is
      another flag that was on before. */
  lemma FlagOnAfterSet(status: byte, f: Flag, state: bool, g: Flag)
    ensures GetFlag(SetFlag(status, f, state), g) != 0
        <==> if g == f then state else GetFlag(status, g) != 0
  {
    if g == f {
      SetThenGet(status, f, state);
    } else {
      SetFlagFrame(status, f, state, g);
    }
  }

  /** Setting a flag adds it to the set of flags that are on; clearing removes it. */
  lemma SetFlagView(status: byte, f: Flag, state: bool)
    ensures Flags(SetFlag(status, f, state)) == if state then Flags(status) + {f} else Flags(status) - {f}
  {
    var after := SetFlag(status, f, state);
    var expected := if state then Flags(status) + {f} else Flags(status) - {f};
    forall g
      ensures g in Flags(after) <==> g in expected
    {
      assert AllFlags[Bit(g)] == g;
      FlagOnAfterSet(status, f, state, g);
    }
  }

  // A run of `set_flag` calls on one register.

  /** One call of `set_flag(flag, state)`. */
  datatype FlagUpdate = FlagUpdate(flag: Flag, state: bool)

  /** The status register after applying `ups` in order, first to last. */
  function SetAll(status: byte, ups: seq<FlagUpdate>): byte
    decreases |ups|
  {
    if |ups| == 0 then status
    else
      var last := ups[|ups| - 1];
      SetFlag(SetAll(status, ups[..|ups| - 1]), last.flag, last.state)
  }

  /** Reference answer: the state of the latest update to `f`, or `prior` if none touches it. */
  function LastState(ups: seq<FlagUpdate>, f: Flag, prior: bool): (r: bool)
    ensures (forall i :: 0 <= i < |ups| ==> ups[i].flag != f) ==> r == prior
    decreases |ups|
  {
    if |ups| == 0 then prior
    else if ups[|ups| - 1].flag == f then ups[|ups| - 1].state
    else LastState(ups[..|ups| - 1], f, prior)
  }

  /** After a run of updates each flag is on iff the last update to it turned it on,
      or, if none touched it, iff it was on before. */
  lemma {:induction false} GetFlagAfterSetAll(status: byte, ups: seq<FlagUpdate>, f: Flag)
    ensures GetFlag(SetAll(status, ups), f) != 0 <==> LastState(ups, f, GetFlag(status, f) != 0)
    decreases |ups|
  {
    if |ups| > 0 {
      var init := ups[..|ups| - 1];
      var last := ups[|ups| - 1];
      GetFlagAfterSetAll(status, init, f);
      FlagOnAfterSet(SetAll(status, init), last.flag, last.state, f);
    }
  }
}
