/**
 * The register encodings of the local APIC and the I/O APIC (apic.cpp):
 * interrupt command words, the timer divide configuration, the spurious
 * interrupt vector, I/O APIC redirection entries and the routing of a
 * global system interrupt (GSI) to the I/O APIC that serves it.
 *
 * Registers are bit-vectors of the width the kernel uses. Reading and
 * writing the registers themselves (MMIO and MSRs) is not modelled; the
 * routing methods return the register writes they would make.
 */
module Apic {
  import opened Status
  import Util

  // ---------------------------------------------------------------------
  // Interrupt command register
  // ---------------------------------------------------------------------

  /** `apic::IcrDeliver`: the destination shorthand. */
  datatype IcrDeliver = Single | Self | All | Other

  /** `apic::IcrMode`: the delivery mode. */
  datatype IcrMode = Fixed | Lowest | Smi | Nmi | Init | Startup

  /** `apic::DestinationMode`. */
  datatype DestinationMode = Physical | Logical

  /** `apic::Trigger`. */
  datatype Trigger = Edge | Level

  /** `apic::Level`. */
  datatype Level = DeAssert | Assert

  /** `apic::Polarity`. */
  datatype Polarity = ActiveHigh | ActiveLow

  function DeliverCode(d: IcrDeliver): (c: bv32)
    ensures c <= 3
  {
    match d
    case Single => 0
    case Self => 1
    case All => 2
    case Other => 3
  }

  function ModeCode(m: IcrMode): (c: bv32)
    ensures c <= 6 && c != 3
  {
    match m
    case Fixed => 0
    case Lowest => 1
    case Smi => 2
    case Nmi => 4
    case Init => 5
    case Startup => 6
  }

  function DestinationCode(d: DestinationMode): (c: bv32) ensures c <= 1 { if d == Physical then 0 else 1 }
  function TriggerCode(t: Trigger): (c: bv32) ensures c <= 1 { if t == Edge then 0 else 1 }
  function LevelCode(l: Level): (c: bv32) ensures c <= 1 { if l == DeAssert then 0 else 1 }
  function PolarityCode(p: Polarity): (c: bv32) ensures c <= 1 { if p == ActiveHigh then 0 else 1 }

  /** `apic::IpiAlert`: an inter-processor interrupt. */
  datatype IpiAlert = IpiAlert(vector: bv8, mode: IcrMode, dst: DestinationMode, trigger: Trigger, level: Level)

  /** `IpiAlert::init()`: an INIT IPI. */
  function InitAlert(): IpiAlert
  {
    IpiAlert(0, Init, Physical, Edge, Assert)
  }

  /** `IpiAlert::sipi(address)`: a startup IPI whose vector is the page number of `address`, truncated to 8 bits. */
  function SipiAlert(address: nat): IpiAlert
  {
    IpiAlert(((address / 4096) % 256) as bv8, Startup, Physical, Edge, Assert)
  }

  /**
   * `BuildIpi`: the low word of the interrupt command register. The vector
   * is in bits 0-7, the delivery mode in bits 8-10, the destination mode
   * in bit 11, the level in bit 14 and the trigger in bit 15; nothing
   * else is set.
   */
  function BuildIpi(alert: IpiAlert): (r: bv32)
    ensures r & 0xFF == alert.vector as bv32
    ensures (r >> 8) & 7 == ModeCode(alert.mode)
    ensures (r >> 11) & 1 == DestinationCode(alert.dst)
    ensures (r >> 14) & 1 == LevelCode(alert.level)
    ensures (r >> 15) & 1 == TriggerCode(alert.trigger)
    ensures r & 0xFFFF_3000 == 0
  {
    var v, m, d, l, t := alert.vector as bv32, ModeCode(alert.mode), DestinationCode(alert.dst),
      LevelCode(alert.level), TriggerCode(alert.trigger);
    IpiBits(v, m, d, l, t);
    v | (m << 8) | (d << 11) | (l << 14) | (t << 15)
  }

  /** Where each field of a command word lands. */
  lemma IpiBits(v: bv32, m: bv32, d: bv32, l: bv32, t: bv32)
    requires v < 256 && m < 8 && d < 2 && l < 2 && t < 2
    ensures var r := v | (m << 8) | (d << 11) | (l << 14) | (t << 15);
      r & 0xFF == v && (r >> 8) & 7 == m && (r >> 11) & 1 == d
      && (r >> 14) & 1 == l && (r >> 15) & 1 == t && r & 0xFFFF_3000 == 0
  {
  }

  /** The delivery mode a 3-bit field encodes, if any. */
  function ModeOf(code: bv32): Option<IcrMode>
  {
    if code == 0 then Some(Fixed)
    else if code == 1 then Some(Lowest)
    else if code == 2 then Some(Smi)
    else if code == 4 then Some(Nmi)
    else if code == 5 then Some(Init)
    else if code == 6 then Some(Startup)
    else None
  }

  /** Reading a command word back into an alert: the inverse of `BuildIpi`. */
  function DecodeIpi(word: bv32): Option<IpiAlert>
  {
    if word & 0xFFFF_3000 != 0 then None
    else match ModeOf((word >> 8) & 7)
      case None => None
      case Some(mode) =>
        Some(IpiAlert(
          (word & 0xFF) as bv8, mode,
          if (word >> 11) & 1 == 0 then Physical else Logical,
          if (word >> 15) & 1 == 0 then Edge else Level,
          if (word >> 14) & 1 == 0 then DeAssert else Assert))
  }

  /** Decoding an encoded alert gives the alert back. */
  lemma DecodeBuildIpi(alert: IpiAlert)
    ensures DecodeIpi(BuildIpi(alert)) == Some(alert)
  {
    var w := BuildIpi(alert);
    assert ModeOf(ModeCode(alert.mode)) == Some(alert.mode) by {
      match alert.mode
      case Fixed =>
      case Lowest =>
      case Smi =>
      case Nmi =>
      case Init =>
      case Startup =>
    }
    assert (w & 0xFF) as bv8 == alert.vector;
  }

  /** A word that decodes is the encoding of what it decodes to. */
  lemma BuildDecodedIpi(alert: IpiAlert, word: bv32)
    requires DecodeIpi(word) == Some(alert)
    ensures BuildIpi(alert) == word
  {
    DecodedCodes(alert, word);
    IpiUnpack(word);
  }

  /** The codes of a decoded alert are the fields of the word it came from. */
  lemma DecodedCodes(alert: IpiAlert, word: bv32)
    requires DecodeIpi(word) == Some(alert)
    ensures word & 0xFFFF_3000 == 0
    ensures alert.vector as bv32 == word & 0xFF
    ensures ModeCode(alert.mode) == (word >> 8) & 7
    ensures DestinationCode(alert.dst) == (word >> 11) & 1
    ensures LevelCode(alert.level) == (word >> 14) & 1
    ensures TriggerCode(alert.trigger) == (word >> 15) & 1
  {
    var code := (word >> 8) & 7;
    assert code != 3 && code != 7 && ModeOf(code) == Some(alert.mode);
    assert (word >> 11) & 1 < 2 && (word >> 14) & 1 < 2 && (word >> 15) & 1 < 2;
  }

  /** A command word with its reserved bits clear is the sum of its fields. */
  lemma IpiUnpack(a: bv32)
    requires a & 0xFFFF_3000 == 0
    ensures a == (a & 0xFF) | (((a >> 8) & 7) << 8) | (((a >> 11) & 1) << 11)
      | (((a >> 14) & 1) << 14) | (((a >> 15) & 1) << 15)
  {
  }

  /** The two encodings `apic.cpp` checks with `static_assert`. */
  lemma KnownIpis()
    ensures BuildIpi(InitAlert()) == 0x4500
    ensures BuildIpi(SipiAlert(0x8000)) == 0x4608
  {
    KnownInitIpi();
    KnownSipiIpi();
  }

  lemma KnownInitIpi()
    ensures BuildIpi(InitAlert()) == 0x4500
  {
    var init := InitAlert();
    assert ModeCode(init.mode) == 5 && DestinationCode(init.dst) == 0;
    assert LevelCode(init.level) == 1 && TriggerCode(init.trigger) == 0;
    assert BuildIpi(init) == 0 | (5 << 8) | (0 << 11) | (1 << 14) | (0 << 15);
  }

  lemma KnownSipiIpi()
    ensures BuildIpi(SipiAlert(0x8000)) == 0x4608
  {
    var sipi := SipiAlert(0x8000);
    SipiVectorOfTrampoline();
    assert ModeCode(sipi.mode) == 6 && DestinationCode(sipi.dst) == 0;
    assert LevelCode(sipi.level) == 1 && TriggerCode(sipi.trigger) == 0;
    assert BuildIpi(sipi) == 8 | (6 << 8) | (0 << 11) | (1 << 14) | (0 << 15);
  }

  /** The trampoline at 0x8000 is page 8. */
  lemma SipiVectorOfTrampoline()
    ensures SipiAlert(0x8000).vector == 8
  {
    assert (0x8000 / 4096) % 256 == 8;
  }

  /** `BuildIpiShorthand`: `BuildIpi` with the destination shorthand in bits 18-19. */
  function BuildIpiShorthand(alert: IpiAlert, deliver: IcrDeliver): (r: bv32)
    ensures (r >> 18) & 3 == DeliverCode(deliver)
    ensures r & 0xFFFF == BuildIpi(alert)
    ensures r & 0xFFF3_0000 == 0
  {
    var b, d := BuildIpi(alert), DeliverCode(deliver);
    ShorthandBits(b, d);
    b | (d << 18)
  }

  /** Where the shorthand lands beside a command word. */
  lemma ShorthandBits(b: bv32, d: bv32)
    requires b & 0xFFFF_3000 == 0 && d < 4
    ensures var r := b | (d << 18);
      (r >> 18) & 3 == d && r & 0xFFFF == b && r & 0xFFF3_0000 == 0
  {
  }

  // ---------------------------------------------------------------------
  // Timer divide configuration
  // ---------------------------------------------------------------------

  /** `apic::TimerDivide`: divide the bus clock by 1, 2, 4, ..., 128. */
  datatype TimerDivide = By1 | By2 | By4 | By8 | By16 | By32 | By64 | By128

  /** The enumerator's value in `apic::TimerDivide`. */
  function DivideCode(t: TimerDivide): bv32
  {
    match t
    case By1 => 7
    case By2 => 0
    case By4 => 1
    case By8 => 2
    case By16 => 3
    case By32 => 4
    case By64 => 5
    case By128 => 6
  }

  /** The divisor an enumerator is named after. */
  function Divisor(t: TimerDivide): nat
  {
    match t
    case By1 => 1
    case By2 => 2
    case By4 => 4
    case By8 => 8
    case By16 => 16
    case By32 => 32
    case By64 => 64
    case By128 => 128
  }

  /**
   * `setTimerDivisor`: the divide configuration register keeps the value
   * in bits 0, 1 and 3, so bit 2 of the code moves to bit 3.
   */
  function DivideRegister(t: TimerDivide): (r: bv32)
    ensures r & 0xFFFF_FFF4 == 0
  {
    var v := DivideCode(t);
    (v & 3) | ((v & 4) << 1)
  }

  function Pow2(n: nat): nat
  {
    if n == 0 then 1 else 2 * Pow2(n - 1)
  }

  /**
   * The divisor the hardware applies for a divide configuration value
   * (Intel SDM volume 3A, section 12.5.4): bits 0, 1 and 3 form a code
   * `c`, and the divisor is 2 to the power `(c + 1) mod 8`.
   */
  function HardwareDivisor(register: bv32): nat
  {
    var c := (register & 3) | ((register >> 1) & 4);
    Pow2(((c as int) + 1) % 8)
  }

  /** The register `setTimerDivisor` writes makes the hardware divide by the enumerator's divisor. */
  lemma DivideRegisterDivides(t: TimerDivide)
    ensures HardwareDivisor(DivideRegister(t)) == Divisor(t)
  {
    var c := (DivideRegister(t) & 3) | ((DivideRegister(t) >> 1) & 4);
    assert c == DivideCode(t);
    match t
    case By1 => assert Pow2(0) == 1;
    case By2 => assert Pow2(1) == 2;
    case By4 => assert Pow2(2) == 4;
    case By8 => assert Pow2(3) == 8;
    case By16 => assert Pow2(4) == 16;
    case By32 => assert Pow2(5) == 32;
    case By64 => assert Pow2(6) == 64;
    case By128 => assert Pow2(7) == 128;
  }

  /** Distinct divide settings give distinct register values. */
  lemma DivideRegisterInjective(s: TimerDivide, t: TimerDivide)
    requires DivideRegister(s) == DivideRegister(t)
    ensures s == t
  {
    DivideRegisterDivides(s);
    DivideRegisterDivides(t);
  }

  // ---------------------------------------------------------------------
  // Spurious interrupt vector and local vector table entries
  // ---------------------------------------------------------------------

  /** `setSpuriousVector`: the vector replaces the low byte of the register and nothing else. */
  function SetSpuriousVector(register: bv32, vector: bv8): (r: bv32)
    ensures r & 0xFF == vector as bv32
    ensures r & 0xFFFF_FF00 == register & 0xFFFF_FF00
  {
    (register & !0xFF) | vector as bv32
  }

  /** `apic::TimerMode`. */
  datatype TimerMode = OneShot | Periodic | Deadline | NoTimer

  function TimerCode(m: TimerMode): (c: bv32)
    ensures c <= 3
  {
    match m
    case OneShot => 0
    case Periodic => 1
    case Deadline => 2
    case NoTimer => 3
  }

  /** `apic::IvtConfig`. */
  datatype IvtConfig = IvtConfig(vector: bv8, polarity: Polarity, trigger: Trigger, enabled: bool, timer: TimerMode)

  /**
   * `IApic::configure`: a local vector table entry. The timer mode goes in
   * bits 17-18 only for the timer entry and only when a mode is given.
   */
  function LvtEntry(isTimer: bool, config: IvtConfig): (r: bv32)
    ensures r & 0xFF == config.vector as bv32
    ensures (r >> 13) & 1 == PolarityCode(config.polarity)
    ensures (r >> 15) & 1 == TriggerCode(config.trigger)
    ensures ((r >> 16) & 1 == 0) <==> config.enabled
    ensures (r >> 17) & 3 == (if isTimer && config.timer != NoTimer then TimerCode(config.timer) else 0)
    ensures r & 0xFFF8_5F00 == 0
  {
    var v, p, t, m := config.vector as bv32, PolarityCode(config.polarity), TriggerCode(config.trigger),
      if config.enabled then 0 else 1;
    var timer := if isTimer && config.timer != NoTimer then TimerCode(config.timer) else 0;
    LvtBits(v, p, t, m, timer);
    v | (p << 13) | (t << 15) | (m << 16) | (timer << 17)
  }

  /** Where each field of a local vector table entry lands. */
  lemma LvtBits(v: bv32, p: bv32, t: bv32, m: bv32, timer: bv32)
    requires v < 256 && p < 2 && t < 2 && m < 2 && timer < 4
    ensures var r := v | (p << 13) | (t << 15) | (m << 16) | (timer << 17);
      r & 0xFF == v && (r >> 13) & 1 == p && (r >> 15) & 1 == t && (r >> 16) & 1 == m
      && (r >> 17) & 3 == timer && r & 0xFFF8_5F00 == 0
  {
  }

  // ---------------------------------------------------------------------
  // I/O APIC redirection
  // ---------------------------------------------------------------------

  /** The range of a `uint32_t`. */
  const Word32: nat := 0x1_0000_0000

  /** A `uint32_t`, as an integer. */
  type Word = x: int | 0 <= x < 0x1_0000_0000

  /** `IoApic::inputCount`: bits 16-23 of the version register hold the number of inputs less one. */
  function InputCount(version: Word): (n: nat)
    ensures 1 <= n <= 256
  {
    (version / 0x1_0000) % 256 + 1
  }

  /** An I/O APIC: its interrupt base, the first GSI it serves, and its version register. */
  datatype IoApic = IoApic(isrBase: Word, version: Word)

  /** The GSI an I/O APIC serves last, computed in 32 bits (`first + inputCount() - 1`). */
  function LastGsi(ioApic: IoApic): (last: Word)
    ensures ioApic.isrBase + InputCount(ioApic.version) <= Word32
      ==> last == ioApic.isrBase + InputCount(ioApic.version) - 1
    ensures ioApic.isrBase + InputCount(ioApic.version) > Word32
      ==> last < ioApic.isrBase
  {
    var sum := ioApic.isrBase + InputCount(ioApic.version) - 1;
    if sum < Word32 then sum else sum - Word32
  }

  /**
   * `IoApicContainsGsi`: `gsi` lies between the first and last GSI of the
   * I/O APIC. When the last GSI wraps around 32 bits, no GSI is
   * contained.
   */
  function ContainsGsi(ioApic: IoApic, gsi: Word): (r: bool)
    ensures var first, count := ioApic.isrBase, InputCount(ioApic.version);
      (first + count <= Word32 ==> (r <==> first <= gsi <= first + count - 1))
      && (first + count > Word32 ==> !r)
  {
    gsi >= ioApic.isrBase && gsi <= LastGsi(ioApic)
  }

  /** `uint32_t` arithmetic: the value reduced modulo 2 to the 32. */
  function Wrap(x: int): Word
  {
    x % Word32
  }

  /**
   * `IoApic::setRedirect`'s register index, `(redirect - mIsrBase) * 2 +
   * 0x10` in 32 bits: two 32-bit registers per input from 0x10.
   */
  function RedirectIndex(ioApic: IoApic, gsi: Word): (r: Word)
    ensures ContainsGsi(ioApic, gsi)
      ==> (r == 0x10 + 2 * (gsi - ioApic.isrBase)
           && 0x10 <= r < 0x10 + 2 * InputCount(ioApic.version))
  {
    var d := gsi - ioApic.isrBase;
    if d < 0 || d >= 256 then Wrap(Wrap(Wrap(d) * 2) + 0x10)
    else
      Util.DivModUnique(d, Word32, 0, d);
      Util.DivModUnique(d * 2, Word32, 0, d * 2);
      Util.DivModUnique(d * 2 + 0x10, Word32, 0, d * 2 + 0x10);
      Wrap(Wrap(Wrap(d) * 2) + 0x10)
  }

  /**
   * The low word of the redirection entry `IoApic::setRedirect` builds:
   * the vector in bits 0-7, active low in bit 13, level triggered in bit
   * 15 and masked in bit 16.
   */
  function RedirectFlags(config: IvtConfig): (r: bv32)
    ensures r & 0xFF == config.vector as bv32
    ensures (r >> 13) & 1 == PolarityCode(config.polarity)
    ensures (r >> 15) & 1 == TriggerCode(config.trigger)
    ensures ((r >> 16) & 1 == 0) <==> config.enabled
    ensures r & 0xFFFE_5F00 == 0
  {
    var v, p, t, m := config.vector as bv32, PolarityCode(config.polarity), TriggerCode(config.trigger),
      if config.enabled then 0 else 1;
    LvtBits(v, p, t, m, 0);
    v | (p << 13) | (t << 15) | (m << 16)
  }

  /**
   * The 64-bit redirection entry: the flags in the low word, and the
   * target APIC's id shifted to bits 56-63, which keeps only its low byte.
   */
  function RedirectEntry(config: IvtConfig, targetId: bv32): (r: bv64)
    ensures r & 0xFFFF_FFFF == RedirectFlags(config) as bv64
    ensures (r >> 32) & 0xFF_FFFF == 0
    ensures r >> 56 == (targetId & 0xFF) as bv64
  {
    RedirectFlags(config) as bv64 | (targetId as bv64 << 56)
  }

  /** A write of `value` to register `register` of the I/O APIC at `ioApic`. */
  datatype RegisterWrite = RegisterWrite(ioApic: nat, register: Word, value: bv32)

  /** The two writes that store `entry` in the redirection registers at `index`: low word first. */
  function RedirectWrites(at: nat, index: Word, entry: bv64): (w: seq<RegisterWrite>)
    ensures |w| == 2 && w[0].ioApic == at && w[1].ioApic == at
    ensures (w[1].value as bv64 << 32) | w[0].value as bv64 == entry
    ensures w[0].register == index && w[1].register == Wrap(index + 1)
  {
    [RegisterWrite(at, index, (entry & 0xFFFF_FFFF) as bv32), RegisterWrite(at, Wrap(index + 1), (entry >> 32) as bv32)]
  }

  /**
   * The loop of `IoApicSet::setRedirect`: the first I/O APIC that
   * contains `gsi`, if any.
   */
  method FindIoApic(ioApics: seq<IoApic>, gsi: Word) returns (found: Option<nat>)
    ensures found.Some? ==> found.value < |ioApics| && ContainsGsi(ioApics[found.value], gsi)
    ensures found.Some? ==> forall j :: 0 <= j < found.value ==> !ContainsGsi(ioApics[j], gsi)
    ensures found.None? ==> forall j :: 0 <= j < |ioApics| ==> !ContainsGsi(ioApics[j], gsi)
  {
    for i := 0 to |ioApics|
      invariant forall j :: 0 <= j < i ==> !ContainsGsi(ioApics[j], gsi)
    {
      if ContainsGsi(ioApics[i], gsi) {
        return Some(i);
      }
    }
    return None;
  }

  /**
   * What `IoApicSet::setRedirect` does for `gsi`: the redirection entry
   * goes to the first I/O APIC serving it; when none does, nothing is
   * written.
   */
  predicate Redirected(ioApics: seq<IoApic>, config: IvtConfig, gsi: Word, targetId: bv32, writes: seq<RegisterWrite>)
  {
    (writes == [] <==> forall j :: 0 <= j < |ioApics| ==> !ContainsGsi(ioApics[j], gsi))
    && (writes != [] ==>
          var at := writes[0].ioApic;
          at < |ioApics| && ContainsGsi(ioApics[at], gsi)
          && (forall j :: 0 <= j < at ==> !ContainsGsi(ioApics[j], gsi))
          && writes == RedirectWrites(at, RedirectIndex(ioApics[at], gsi), RedirectEntry(config, targetId)))
  }

  /** `IoApicSet::setRedirect`. */
  method SetRedirect(ioApics: seq<IoApic>, config: IvtConfig, gsi: Word, targetId: bv32) returns (writes: seq<RegisterWrite>)
    ensures Redirected(ioApics, config, gsi, targetId, writes)
  {
    var found := FindIoApic(ioApics, gsi);
    match found
    case None => writes := [];
    case Some(at) =>
      writes := RedirectWrites(at, RedirectIndex(ioApics[at], gsi), RedirectEntry(config, targetId));
  }

  // ---------------------------------------------------------------------
  // Interrupt source overrides
  // ---------------------------------------------------------------------

  /**
   * A MADT interrupt source override: the ISA IRQ `source` is wired to
   * global system interrupt `interrupt`, with the MPS INTI `flags`.
   */
  datatype SourceOverride = SourceOverride(source: Util.Octet, interrupt: Word, flags: bv16)

  /**
   * `GetIsoTriggerMode`: bits 2-3 of the flags. 00 (conforming to the
   * ISA bus) and 01 are edge triggered, 11 level triggered; the reserved
   * 10 is taken as edge.
   */
  function IsoTrigger(iso: SourceOverride): (t: Trigger)
    ensures t == Level <==> iso.flags & 12 == 12
  {
    var bits := iso.flags & 12;
    if bits == 0 || bits == 4 then Edge
    else if bits == 12 then Level
    else Edge
  }

  /**
   * `GetIsoPolarity` as written: bits 0-1 of the flags, where 01 is
   * active high and 00, 11 and the reserved 10 are all active low.
   */
  function IsoPolarityAsWritten(iso: SourceOverride): (p: Polarity)
    ensures p == ActiveHigh <==> iso.flags & 3 == 1
  {
    var bits := iso.flags & 3;
    if bits == 0 || bits == 3 then ActiveLow
    else if bits == 1 then ActiveHigh
    else ActiveLow
  }

  /**
   * The polarity of an override: 00 conforms to the ISA bus, which is
   * active high (section 5.2.12.5 of ACPI 6.5), as `IsoTrigger` already
   * reads 00 as the ISA bus's edge triggering; 01 is active high, 11
   * active low, and the reserved 10 is taken as active low.
   */
  function IsoPolarity(iso: SourceOverride): (p: Polarity)
    ensures p == ActiveHigh <==> iso.flags & 3 == 0 || iso.flags & 3 == 1
  {
    var bits := iso.flags & 3;
    if bits == 0 || bits == 1 then ActiveHigh
    else ActiveLow
  }

  /**
   * An override whose flags are all "conforms to the bus" (0), the usual
   * entry for the ISA timer, is decoded as an edge-triggered but active
   * low input: the ISA bus's triggering with the opposite of its polarity.
   */
  lemma ConformingOverrideAsWritten(iso: SourceOverride)
    requires iso.flags == 0
    ensures IsoTrigger(iso) == Edge
    ensures IsoPolarityAsWritten(iso) == ActiveLow
    ensures IsoPolarity(iso) == ActiveHigh
  {
  }

  /** The two decoders agree except on the conforming polarity. */
  lemma PolarityDecodersAgree(iso: SourceOverride)
    requires iso.flags & 3 != 0
    ensures IsoPolarity(iso) == IsoPolarityAsWritten(iso)
  {
  }

  /** The configuration `setLegacyRedirect` builds from an override: same vector, the override's wiring, enabled. */
  function OverrideConfig(config: IvtConfig, iso: SourceOverride): (c: IvtConfig)
    ensures c.vector == config.vector && c.enabled
    ensures c.polarity == IsoPolarity(iso) && c.trigger == IsoTrigger(iso)
  {
    IvtConfig(config.vector, IsoPolarity(iso), IsoTrigger(iso), true, NoTimer)
  }

  /**
   * The loop of `IoApicSet::setLegacyRedirect`: the first override for
   * ISA IRQ `irq` rewires it to the override's GSI with the override's
   * polarity and trigger; without one the IRQ number is used as the GSI
   * and the configuration is kept.
   */
  method LegacyRoute(overrides: seq<SourceOverride>, config: IvtConfig, irq: Word)
    returns (found: Option<nat>, route: IvtConfig, gsi: Word)
    ensures found.Some? ==>
      var k := found.value;
      k < |overrides| && overrides[k].source == irq
      && (forall j :: 0 <= j < k ==> overrides[j].source != irq)
      && route == OverrideConfig(config, overrides[k]) && gsi == overrides[k].interrupt
    ensures found.None? ==>
      (forall j :: 0 <= j < |overrides| ==> overrides[j].source != irq)
      && route == config && gsi == irq
  {
    for i := 0 to |overrides|
      invariant forall j :: 0 <= j < i ==> overrides[j].source != irq
    {
      if overrides[i].source == irq {
        return Some(i), OverrideConfig(config, overrides[i]), overrides[i].interrupt;
      }
    }
    return None, config, irq;
  }

  /** The first override for ISA IRQ `irq`, if there is one. */
  function FirstOverride(overrides: seq<SourceOverride>, irq: Word): (r: Option<nat>)
    ensures r.Some? ==> r.value < |overrides| && overrides[r.value].source == irq
    ensures r.Some? ==> forall j :: 0 <= j < r.value ==> overrides[j].source != irq
    ensures r.None? ==> forall j :: 0 <= j < |overrides| ==> overrides[j].source != irq
  {
    if |overrides| == 0 then None
    else if overrides[0].source == irq then Some(0)
    else match FirstOverride(overrides[1..], irq)
      case None => None
      case Some(k) => Some(k + 1)
  }

  /**
   * `IoApicSet::setLegacyRedirect`: the IRQ is redirected as the first
   * override for it says, or as itself when there is none.
   */
  method SetLegacyRedirect(overrides: seq<SourceOverride>, ioApics: seq<IoApic>, config: IvtConfig, irq: Word, targetId: bv32)
    returns (writes: seq<RegisterWrite>)
    ensures var k := FirstOverride(overrides, irq);
      (k.None? ==> Redirected(ioApics, config, irq, targetId, writes))
      && (k.Some? ==> Redirected(ioApics, OverrideConfig(config, overrides[k.value]), overrides[k.value].interrupt, targetId, writes))
  {
    var found, route, gsi := LegacyRoute(overrides, config, irq);
    writes := SetRedirect(ioApics, route, gsi, targetId);
  }
}
