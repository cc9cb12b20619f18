/**
 * The x86-64 hardware breakpoint registers: DR7 (the control register that
 * enables the four breakpoints and says what each one watches), DR6 (the
 * status register that says which breakpoint fired) and the saved debug
 * state of a thread (DR7, DR6 and the four breakpoint addresses DR0-DR3).
 *
 * A 64-bit register is modelled as its 64 bits, least significant first:
 * bit `i` of the word is `w[i]`, so `value | (1 << i)` is `w[i := true]`
 * and a two-bit field at `shift` is bits `shift` and `shift + 1`.
 * Loading and storing the registers themselves is privileged I/O and is left
 * to the caller.
 */
module Debug {

  /** The number of hardware breakpoints. */
  const BreakpointCount: nat := 4

  /** The width of a debug register. */
  const WordBits: nat := 64

  /** A 64-bit register, bit 0 first. */
  type Word = w: seq<bool> | |w| == 64 witness seq(64, i => false)

  /** Whether a breakpoint is enabled for the current task (local), globally, or not at all. */
  datatype Mode = Disabled | Local | Global | ModeMask

  /** What access a breakpoint fires on. */
  datatype Condition = Execute | Write | ReadWriteExecute | ReadWrite

  /** How many bytes a breakpoint watches. */
  datatype Length = Byte | TwoBytes | EightBytes | FourBytes

  /** The settings of one breakpoint held in DR7. */
  datatype RegisterConfig = RegisterConfig(condition: Condition, length: Length, mode: Mode)

  /** One breakpoint: its address and its DR7 settings. */
  datatype Breakpoint = Breakpoint(address: bv64, condition: Condition, length: Length, mode: Mode)

  // ---------------------------------------------------------------------
  // Two-bit field codes
  // ---------------------------------------------------------------------

  function ModeCode(m: Mode): (c: nat)
    ensures c < 4
  {
    match m
    case Disabled => 0
    case Local => 1
    case Global => 2
    case ModeMask => 3
  }

  /** The mode a two-bit field holds; the inverse of `ModeCode`. */
  function ModeOf(c: nat): (m: Mode)
    requires c < 4
    ensures ModeCode(m) == c
  {
    if c == 0 then Disabled else if c == 1 then Local else if c == 2 then Global else ModeMask
  }

  function ConditionCode(c: Condition): (r: nat)
    ensures r < 4
  {
    match c
    case Execute => 0
    case Write => 1
    case ReadWriteExecute => 2
    case ReadWrite => 3
  }

  /** The condition a two-bit field holds; the inverse of `ConditionCode`. */
  function ConditionOf(c: nat): (r: Condition)
    requires c < 4
    ensures ConditionCode(r) == c
  {
    if c == 0 then Execute else if c == 1 then Write else if c == 2 then ReadWriteExecute else ReadWrite
  }

  function LengthCode(l: Length): (c: nat)
    ensures c < 4
  {
    match l
    case Byte => 0
    case TwoBytes => 1
    case EightBytes => 2
    case FourBytes => 3
  }

  /** The length a two-bit field holds; the inverse of `LengthCode`. */
  function LengthOf(c: nat): (l: Length)
    requires c < 4
    ensures LengthCode(l) == c
  {
    if c == 0 then Byte else if c == 1 then TwoBytes else if c == 2 then EightBytes else FourBytes
  }

  /** Every enumerator survives the trip through its code. */
  lemma CodesRoundTrip(m: Mode, c: Condition, l: Length)
    ensures ModeOf(ModeCode(m)) == m
    ensures ConditionOf(ConditionCode(c)) == c
    ensures LengthOf(LengthCode(l)) == l
  {
    match m
    case Disabled =>
    case Local =>
    case Global =>
    case ModeMask =>
  }

  // ---------------------------------------------------------------------
  // Two-bit fields of a register
  // ---------------------------------------------------------------------

  /** The two-bit field whose low bit is bit `shift`: `(value & (3 << shift)) >> shift`. */
  function Field(w: Word, shift: nat): (r: nat)
    requires shift + 1 < WordBits
    ensures r < 4
    ensures r % 2 == 1 <==> w[shift]
    ensures r / 2 == 1 <==> w[shift + 1]
  {
    (if w[shift + 1] then 2 else 0) + (if w[shift] then 1 else 0)
  }

  /** `(value & ~(3 << shift)) | (code << shift)`: the field at `shift` replaced by `code`. */
  function WithField(w: Word, shift: nat, code: nat): (r: Word)
    requires shift + 1 < WordBits && code < 4
    ensures Field(r, shift) == code
    ensures forall i :: 0 <= i < WordBits && i != shift && i != shift + 1 ==> r[i] == w[i]
  {
    w[shift := code % 2 == 1][shift + 1 := code / 2 == 1]
  }

  /** Replacing one field leaves a field that does not overlap it as it was. */
  lemma FieldApart(w: Word, shift: nat, code: nat, other: nat)
    requires shift + 1 < WordBits && code < 4 && other + 1 < WordBits
    requires shift + 2 <= other || other + 2 <= shift
    ensures Field(WithField(w, shift, code), other) == Field(w, other)
  {
    var r := WithField(w, shift, code);
    assert r[other] == w[other] && r[other + 1] == w[other + 1];
  }

  /** Where the condition field of breakpoint `reg` starts. */
  function ConditionShift(reg: nat): (s: nat)
    requires reg <= 4
    ensures 16 <= s <= 32
  {
    16 + reg * 4
  }

  /** Where the length field of breakpoint `reg` starts. */
  function LengthShift(reg: nat): (s: nat)
    requires reg <= 4
    ensures s == ConditionShift(reg) + 2
  {
    18 + reg * 4
  }

  /** Where the enable field of breakpoint `reg` starts. */
  function ModeShift(reg: nat): (s: nat)
    requires reg <= 4
    ensures s <= 8
  {
    reg * 2
  }

  /** The local and global exact-breakpoint enables LE and GE. */
  const LocalExact: nat := 8
  const GlobalExact: nat := 9

  /** The fields of two different breakpoints never overlap. */
  lemma FieldsDisjoint(reg: nat, other: nat)
    requires reg < BreakpointCount && other < BreakpointCount && reg != other
    ensures ConditionShift(reg) + 2 <= ConditionShift(other) || ConditionShift(other) + 2 <= ConditionShift(reg)
    ensures LengthShift(reg) + 2 <= LengthShift(other) || LengthShift(other) + 2 <= LengthShift(reg)
    ensures ConditionShift(reg) + 2 <= LengthShift(other) || LengthShift(other) + 2 <= ConditionShift(reg)
    ensures ModeShift(reg) + 2 <= ModeShift(other) || ModeShift(other) + 2 <= ModeShift(reg)
  {
  }

  // ---------------------------------------------------------------------
  // DR7
  // ---------------------------------------------------------------------

  /** The DR7 flag bits that have names. */
  datatype Dr7Flag = L0 | G0 | L1 | G1 | L2 | G2 | L3 | G3 | LE | GE | Rtm7 | GD

  /** The bit each DR7 flag occupies. */
  function Dr7Bit(f: Dr7Flag): (i: nat)
    ensures i < WordBits && i != Dr7Reserved
  {
    match f
    case L0 => 0
    case G0 => 1
    case L1 => 2
    case G1 => 3
    case L2 => 4
    case G2 => 5
    case L3 => 6
    case G3 => 7
    case LE => 8
    case GE => 9
    case Rtm7 => 11
    case GD => 13
  }

  /** Bit 10 of DR7, which reads as one. */
  const Dr7Reserved: nat := 10

  /** The condition breakpoint `reg` watches for in a DR7 value. */
  function ConditionAt(w: Word, reg: nat): (c: Condition)
    requires reg <= 4
    ensures ConditionCode(c) == Field(w, ConditionShift(reg))
  {
    ConditionOf(Field(w, ConditionShift(reg)))
  }

  /** The length breakpoint `reg` watches in a DR7 value. */
  function LengthAt(w: Word, reg: nat): (l: Length)
    requires reg <= 4
    ensures LengthCode(l) == Field(w, LengthShift(reg))
  {
    LengthOf(Field(w, LengthShift(reg)))
  }

  /** Whether breakpoint `reg` is enabled in a DR7 value. */
  function ModeAt(w: Word, reg: nat): (m: Mode)
    requires reg <= 4
    ensures ModeCode(m) == Field(w, ModeShift(reg))
  {
    ModeOf(Field(w, ModeShift(reg)))
  }

  /** The three settings of breakpoint `reg` in a DR7 value. */
  function ConfigAt(w: Word, reg: nat): (config: RegisterConfig)
    requires reg <= 4
    ensures ConditionCode(config.condition) == Field(w, ConditionShift(reg))
    ensures LengthCode(config.length) == Field(w, LengthShift(reg))
    ensures ModeCode(config.mode) == Field(w, ModeShift(reg))
  {
    RegisterConfig(ConditionAt(w, reg), LengthAt(w, reg), ModeAt(w, reg))
  }

  /** A DR7 value with the three fields of breakpoint `reg` set to `config`, condition first. */
  function Configured(w: Word, reg: nat, config: RegisterConfig): Word
    requires reg <= 4
  {
    var w1 := WithField(w, ConditionShift(reg), ConditionCode(config.condition));
    var w2 := WithField(w1, LengthShift(reg), LengthCode(config.length));
    WithField(w2, ModeShift(reg), ModeCode(config.mode))
  }

  /** Configuring a breakpoint is read back exactly, for each of the five registers the index admits. */
  lemma ConfiguredReadsBack(w: Word, reg: nat, config: RegisterConfig)
    requires reg <= 4
    ensures ConfigAt(Configured(w, reg, config), reg) == config
  {
    var w1 := WithField(w, ConditionShift(reg), ConditionCode(config.condition));
    var w2 := WithField(w1, LengthShift(reg), LengthCode(config.length));
    FieldApart(w1, LengthShift(reg), LengthCode(config.length), ConditionShift(reg));
    FieldApart(w2, ModeShift(reg), ModeCode(config.mode), ConditionShift(reg));
    FieldApart(w2, ModeShift(reg), ModeCode(config.mode), LengthShift(reg));
    CodesRoundTrip(config.mode, config.condition, config.length);
  }

  /** Configuring a breakpoint leaves every other breakpoint's settings as they were. */
  lemma ConfiguredKeepsOthers(w: Word, reg: nat, config: RegisterConfig, other: nat)
    requires reg < BreakpointCount && other < BreakpointCount && reg != other
    ensures ConfigAt(Configured(w, reg, config), other) == ConfigAt(w, other)
  {
    var w1 := WithField(w, ConditionShift(reg), ConditionCode(config.condition));
    var w2 := WithField(w1, LengthShift(reg), LengthCode(config.length));
    FieldsDisjoint(reg, other);
    FieldApart(w, ConditionShift(reg), ConditionCode(config.condition), ConditionShift(other));
    FieldApart(w1, LengthShift(reg), LengthCode(config.length), ConditionShift(other));
    FieldApart(w2, ModeShift(reg), ModeCode(config.mode), ConditionShift(other));
    FieldApart(w, ConditionShift(reg), ConditionCode(config.condition), LengthShift(other));
    FieldApart(w1, LengthShift(reg), LengthCode(config.length), LengthShift(other));
    FieldApart(w2, ModeShift(reg), ModeCode(config.mode), LengthShift(other));
    FieldApart(w, ConditionShift(reg), ConditionCode(config.condition), ModeShift(other));
    FieldApart(w1, LengthShift(reg), LengthCode(config.length), ModeShift(other));
    FieldApart(w2, ModeShift(reg), ModeCode(config.mode), ModeShift(other));
  }

  /** Configuring a breakpoint changes only its own six bits. */
  lemma ConfiguredChangesOnlyItsFields(w: Word, reg: nat, config: RegisterConfig, i: nat)
    requires reg <= 4 && i < WordBits
    requires i != ModeShift(reg) && i != ModeShift(reg) + 1
    requires !(ConditionShift(reg) <= i < ConditionShift(reg) + 4)
    ensures Configured(w, reg, config)[i] == w[i]
  {
  }

  /**
   * The register index is checked only against 4, one past the last
   * breakpoint. For register 4 the enable field lands on LE and GE, so
   * disabling "breakpoint 4" clears both exact-breakpoint enables.
   */
  lemma RegisterFourClearsExactEnables(w: Word, config: RegisterConfig)
    requires config.mode == Disabled
    ensures ModeShift(4) == LocalExact
    ensures !Configured(w, 4, config)[LocalExact] && !Configured(w, 4, config)[GlobalExact]
  {
    assert Field(Configured(w, 4, config), ModeShift(4)) == 0;
  }

  /** For the four real breakpoints the exact-breakpoint enables are never touched. */
  lemma ConfiguredKeepsExactEnables(w: Word, reg: nat, config: RegisterConfig)
    requires reg < BreakpointCount
    ensures Configured(w, reg, config)[LocalExact] == w[LocalExact]
    ensures Configured(w, reg, config)[GlobalExact] == w[GlobalExact]
  {
    ConfiguredChangesOnlyItsFields(w, reg, config, LocalExact);
    ConfiguredChangesOnlyItsFields(w, reg, config, GlobalExact);
  }

  /** The debug control register. */
  class DR7 {
    var value: Word

    /** A register holding exactly `value`, as read from the hardware. */
    constructor Load(value: Word)
      ensures this.value == value
    {
      this.value := value;
    }

    /** A register built from `value` with its always-one bit 10 set and every other bit kept. */
    constructor Of(value: Word)
      ensures this.value[Dr7Reserved]
      ensures forall i :: 0 <= i < WordBits && i != Dr7Reserved ==> this.value[i] == value[i]
    {
      this.value := value[Dr7Reserved := true];
    }

    predicate Test(f: Dr7Flag)
      reads this
    {
      value[Dr7Bit(f)]
    }

    /** Sets one flag and no other bit. */
    method Set(f: Dr7Flag)
      modifies this
      ensures Test(f)
      ensures forall i :: 0 <= i < WordBits && i != Dr7Bit(f) ==> value[i] == old(value[i])
    {
      value := value[Dr7Bit(f) := true];
    }

    /** Clears one flag and no other bit. */
    method Clear(f: Dr7Flag)
      modifies this
      ensures !Test(f)
      ensures forall i :: 0 <= i < WordBits && i != Dr7Bit(f) ==> value[i] == old(value[i])
    {
      value := value[Dr7Bit(f) := false];
    }

    function GetConfig(reg: nat): (config: RegisterConfig)
      requires reg <= 4
      reads this
      ensures ConditionCode(config.condition) == Field(value, ConditionShift(reg))
      ensures LengthCode(config.length) == Field(value, LengthShift(reg))
      ensures ModeCode(config.mode) == Field(value, ModeShift(reg))
    {
      ConfigAt(value, reg)
    }

    method SetCondition(reg: nat, condition: Condition)
      requires reg <= 4
      modifies this
      ensures value == WithField(old(value), ConditionShift(reg), ConditionCode(condition))
    {
      value := WithField(value, ConditionShift(reg), ConditionCode(condition));
    }

    method SetLength(reg: nat, length: Length)
      requires reg <= 4
      modifies this
      ensures value == WithField(old(value), LengthShift(reg), LengthCode(length))
    {
      value := WithField(value, LengthShift(reg), LengthCode(length));
    }

    method SetMode(reg: nat, mode: Mode)
      requires reg <= 4
      modifies this
      ensures value == WithField(old(value), ModeShift(reg), ModeCode(mode))
    {
      value := WithField(value, ModeShift(reg), ModeCode(mode));
    }

    /**
     * Sets the three fields of breakpoint `reg`; reading them back gives
     * `config` (see `ConfiguredReadsBack`, `ConfiguredKeepsOthers`).
     */
    method Configure(reg: nat, config: RegisterConfig)
      requires reg <= 4
      modifies this
      ensures value == Configured(old(value), reg, config)
      ensures GetConfig(reg) == config
    {
      ghost var before := value;
      SetCondition(reg, config.condition);
      SetLength(reg, config.length);
      SetMode(reg, config.mode);
      ConfiguredReadsBack(before, reg, config);
    }
  }

  // ---------------------------------------------------------------------
  // DR6
  // ---------------------------------------------------------------------

  /** The DR6 flag bits that have names. */
  datatype Dr6Flag = B0 | B1 | B2 | B3 | Bld | BD | BS | BT | Rtm6

  /** The bit each DR6 flag occupies. */
  function Dr6Bit(f: Dr6Flag): (i: nat)
    ensures i < WordBits && !Dr6Reserved(i)
  {
    match f
    case B0 => 0
    case B1 => 1
    case B2 => 2
    case B3 => 3
    case Bld => 11
    case BD => 13
    case BS => 14
    case BT => 15
    case Rtm6 => 16
  }

  /** The bits of DR6 that read as one: 0xFFFF_FFFF_0000_07F0. */
  predicate Dr6Reserved(i: nat)
  {
    4 <= i <= 10 || 32 <= i
  }

  /** The flag that says breakpoint `reg` fired: bit `reg`. */
  function HitFlag(reg: nat): (f: Dr6Flag)
    requires reg < BreakpointCount
    ensures Dr6Bit(f) == reg
  {
    if reg == 0 then B0 else if reg == 1 then B1 else if reg == 2 then B2 else B3
  }

  /**
   * Whether breakpoint `reg` was hit, as written: the register number itself
   * is the bit mask, so `value & reg` tests bit 0 for register 1, bit 1 for
   * register 2, both for register 3, bit 2 for register 4 and nothing for
   * register 0.
   */
  predicate DetectedAsWritten(w: Word, reg: nat)
    requires reg <= 4
  {
    (reg % 2 == 1 && w[0]) || ((reg / 2) % 2 == 1 && w[1]) || ((reg / 4) % 2 == 1 && w[2])
  }

  /** Whether breakpoint `reg` was hit: its own flag B0-B3 is set. */
  predicate Detected(w: Word, reg: nat)
    requires reg < BreakpointCount
  {
    w[Dr6Bit(HitFlag(reg))]
  }

  /** The debug status register. */
  class DR6 {
    var value: Word

    /** A register holding exactly `value`, as read from the hardware. */
    constructor Load(value: Word)
      ensures this.value == value
    {
      this.value := value;
    }

    /** A register built from `value` with its always-one bits set and every other bit kept. */
    constructor Of(value: Word)
      ensures forall i :: 0 <= i < WordBits ==> this.value[i] == (value[i] || Dr6Reserved(i))
    {
      this.value := seq(64, i requires 0 <= i < 64 => value[i] || Dr6Reserved(i));
    }

    predicate Test(f: Dr6Flag)
      reads this
    {
      value[Dr6Bit(f)]
    }

    /** Sets one flag and no other bit. */
    method Set(f: Dr6Flag)
      modifies this
      ensures Test(f)
      ensures forall i :: 0 <= i < WordBits && i != Dr6Bit(f) ==> value[i] == old(value[i])
    {
      value := value[Dr6Bit(f) := true];
    }

    /** Clears one flag and no other bit. */
    method Clear(f: Dr6Flag)
      modifies this
      ensures !Test(f)
      ensures forall i :: 0 <= i < WordBits && i != Dr6Bit(f) ==> value[i] == old(value[i])
    {
      value := value[Dr6Bit(f) := false];
    }
  }

  /** `Detected` reports exactly the flag of the breakpoint it is asked about. */
  lemma DetectedIsHitFlag(w: Word, reg: nat)
    requires reg < BreakpointCount
    ensures Detected(w, reg) <==> w[reg]
    ensures Detected(w[reg := true], reg) && !Detected(w[reg := false], reg)
  {
  }

  /** With only breakpoint 0's flag set, the as-written test reports register 1 and not register 0. */
  lemma DetectedShiftedByOne(w: Word)
    requires w[0] && !w[1] && !w[2]
    ensures Detected(w, 0) && !Detected(w, 1)
    ensures !DetectedAsWritten(w, 0) && DetectedAsWritten(w, 1)
  {
  }

  // ---------------------------------------------------------------------
  // Debug state
  // ---------------------------------------------------------------------

  /** The saved debug registers of a thread. */
  class DebugState {
    const dr7: DR7
    const dr6: DR6
    const addresses: array<bv64>

    ghost predicate Valid()
      reads this
    {
      addresses.Length == BreakpointCount
    }

    constructor Of(dr7: Word, dr6: Word, addresses: seq<bv64>)
      requires |addresses| == BreakpointCount
      ensures Valid()
      ensures this.dr7.value == dr7 && this.dr6.value == dr6 && this.addresses[..] == addresses
      ensures fresh(this.dr7) && fresh(this.dr6) && fresh(this.addresses)
    {
      this.dr7 := new DR7.Load(dr7);
      this.dr6 := new DR6.Load(dr6);
      this.addresses := new bv64[4](i requires 0 <= i < 4 => addresses[i]);
    }

    function GetConfig(reg: nat): (bp: Breakpoint)
      requires Valid() && reg < BreakpointCount
      reads this, addresses, dr7
      ensures bp.address == addresses[reg]
      ensures RegisterConfig(bp.condition, bp.length, bp.mode) == ConfigAt(dr7.value, reg)
    {
      var config := dr7.GetConfig(reg);
      Breakpoint(addresses[reg], config.condition, config.length, config.mode)
    }

    /**
     * Points breakpoint `reg` at `bp`: reading it back gives `bp`, and the
     * other breakpoints, DR6 and the exact-breakpoint enables are unchanged.
     */
    method Configure(reg: nat, bp: Breakpoint)
      requires Valid() && reg < BreakpointCount
      modifies addresses, dr7
      ensures GetConfig(reg) == bp
      ensures forall other :: 0 <= other < BreakpointCount && other != reg ==> GetConfig(other) == old(GetConfig(other))
      ensures dr7.value[LocalExact] == old(dr7.value[LocalExact]) && dr7.value[GlobalExact] == old(dr7.value[GlobalExact])
      ensures dr6.value == old(dr6.value)
    {
      ghost var before := dr7.value;
      var config := RegisterConfig(bp.condition, bp.length, bp.mode);
      addresses[reg] := bp.address;
      dr7.Configure(reg, config);
      ConfiguredKeepsExactEnables(before, reg, config);
      forall other | 0 <= other < BreakpointCount && other != reg
        ensures ConfigAt(dr7.value, other) == ConfigAt(before, other)
      {
        ConfiguredKeepsOthers(before, reg, config, other);
      }
    }
  }
}
