/** The status flags in a tuple's header byte. Which bit holds the active flag and which
    the dirty flag is decided by the tuple class, which is not part of this model; the
    bits are therefore parameters, and the flag test is shown to pass exactly when they
    are different bits, whatever the header held before. */
module TupleFlags {

  type FlagBit = b: nat | b < 8

  /** The header byte with only `bit` set. */
  function Mask(bit: FlagBit): (m: bv8)
    ensures m != 0 && m & (m - 1) == 0
  {
    match bit
    case 0 => 0x01 case 1 => 0x02 case 2 => 0x04 case 3 => 0x08
    case 4 => 0x10 case 5 => 0x20 case 6 => 0x40 case 7 => 0x80
  }

  /** setXxxTrue / setXxxFalse on the header byte. */
  function SetFlag(header: bv8, bit: FlagBit, on: bool): bv8
  {
    if on then header | Mask(bit) else header & !Mask(bit)
  }

  /** isXxx on the header byte. */
  predicate IsSet(header: bv8, bit: FlagBit)
  {
    header & Mask(bit) != 0
  }

  /** Setting or clearing a flag makes it read back as written. */
  lemma SetFlagReadsBack(header: bv8, bit: FlagBit, on: bool)
    ensures IsSet(SetFlag(header, bit, on), bit) == on
  {
    var m := Mask(bit);
    assert (header | m) & m == m;
    assert (header & !m) & m == 0;
  }

  /** Setting or clearing a flag leaves every other flag as it was. */
  lemma SetFlagKeepsOthers(header: bv8, bit: FlagBit, other: FlagBit, on: bool)
    requires bit != other
    ensures IsSet(SetFlag(header, bit, on), other) == IsSet(header, other)
  {
    MasksDisjoint(bit, other);
    var m, n := Mask(bit), Mask(other);
    assert (header | m) & n == header & n;
    assert (header & !m) & n == header & n;
  }

  /** Two different flags occupy different bits. */
  lemma MasksDisjoint(bit: FlagBit, other: FlagBit)
    requires bit != other
    ensures Mask(bit) & Mask(other) == 0
  {
    match bit
    case 0 => case 1 => case 2 => case 3 =>
    case 4 => case 5 => case 6 => case 7 =>
  }

  /** The flag test on a tuple over uninitialised storage: clear active and set dirty,
      then set active, then clear dirty, checking both flags after each step. */
  method FlagTest(activeBit: FlagBit, dirtyBit: FlagBit, storage: bv8) returns (passed: bool)
    ensures passed <==> activeBit != dirtyBit
  {
    var header := SetFlag(storage, activeBit, false);
    SetFlagReadsBack(storage, activeBit, false);
    if activeBit != dirtyBit {
      SetFlagKeepsOthers(header, dirtyBit, activeBit, true);
    }
    SetFlagReadsBack(header, dirtyBit, true);
    header := SetFlag(header, dirtyBit, true);
    var first := !IsSet(header, activeBit) && IsSet(header, dirtyBit);

    SetFlagReadsBack(header, activeBit, true);
    if activeBit != dirtyBit {
      SetFlagKeepsOthers(header, activeBit, dirtyBit, true);
    }
    header := SetFlag(header, activeBit, true);
    var second := IsSet(header, dirtyBit) && IsSet(header, activeBit);

    SetFlagReadsBack(header, dirtyBit, false);
    if activeBit != dirtyBit {
      SetFlagKeepsOthers(header, dirtyBit, activeBit, false);
    }
    header := SetFlag(header, dirtyBit, false);
    var third := IsSet(header, activeBit) && !IsSet(header, dirtyBit);

    passed := first && second && third;
  }
}
