/** Register access to up to 16 chips through the XFLOW windows: what the hardware is assumed to
    do with a bus access, the driver's four register helpers and its two entry points, and the
    one flat memory per chip and access mode that they implement. */
module Xflow {

  import opened LittleEndian

  const CHIPS := 16
  const WINDOW := 0x40_0000
  const BUFFER_PREFIX := 0x800_0000
  const CONFIG_PREFIX := 0xC00_0000
  const BASE_REGISTER := 0
  const CONTROL_REGISTER := 4
  /** Where chip 0's bus reaches the registers and windows of the other chips. */
  const RELAY := 0x6000_0000

  // ----- hardware

  datatype Location = Location(chip: nat, mpu: bool, address: Word)

  /** The mode and base register of every chip, and what each chip's memory holds in each mode. */
  datatype Hardware = Hardware(control: seq<Word>, base: seq<Word>, memory: map<Location, Word>) {
    predicate Valid() { |control| == CHIPS && |base| == CHIPS }

    predicate Idle() { forall c :: 0 <= c < |control| ==> control[c] == 0 }
  }

  datatype Target = Control(chip: nat) | Base(chip: nat) | Window(chip: nat, offset: nat) | Unmapped

  /** The XFLOW address map: bits 22 to 25 name the chip. */
  function Decode(x: int): (t: Target)
    ensures !t.Unmapped? ==> t.chip < CHIPS
    ensures t.Window? ==> t.offset < WINDOW
  {
    if CONFIG_PREFIX <= x < CONFIG_PREFIX + CHIPS * WINDOW then
      var chip, register := (x - CONFIG_PREFIX) / WINDOW, (x - CONFIG_PREFIX) % WINDOW;
      if register == BASE_REGISTER then Base(chip)
      else if register == CONTROL_REGISTER then Control(chip)
      else Unmapped
    else if BUFFER_PREFIX <= x < BUFFER_PREFIX + CHIPS * WINDOW then
      Window((x - BUFFER_PREFIX) / WINDOW, (x - BUFFER_PREFIX) % WINDOW)
    else
      Unmapped
  }

  function Sum(base: Word, offset: int): Word { (base + offset) % 0x1_0000_0000 }

  function Fetch(memory: map<Location, Word>, at: Location): Word {
    if at in memory then memory[at] else 0
  }

  /** The address in a chip's memory that an offset into its window reaches: base plus offset, in
      the chip's current mode. */
  function Reached(hw: Hardware, chip: nat, offset: nat): Location
    requires hw.Valid() && chip < CHIPS
  {
    Location(chip, hw.control[chip] == 0, Sum(hw.base[chip], offset))
  }

  function StoreAt(hw: Hardware, t: Target, value: Word): (r: Hardware)
    requires hw.Valid() && (!t.Unmapped? ==> t.chip < CHIPS)
    ensures r.Valid()
  {
    match t
    case Control(c) => hw.(control := hw.control[c := value])
    case Base(c) => hw.(base := hw.base[c := value])
    case Window(c, offset) => hw.(memory := hw.memory[Reached(hw, c, offset) := value])
    case Unmapped => hw
  }

  function LoadAt(hw: Hardware, t: Target): Word
    requires hw.Valid() && (!t.Unmapped? ==> t.chip < CHIPS)
  {
    match t
    case Control(c) => hw.control[c]
    case Base(c) => hw.base[c]
    case Window(c, offset) => Fetch(hw.memory, Reached(hw, c, offset))
    case Unmapped => 0
  }

  /** Addresses of chip 0's non-MPU bus that belong to another chip's registers or window. */
  predicate InRelay(address: int) {
    var t := Decode(address - RELAY);
    !t.Unmapped? && t.chip != 0
  }

  /** Chip 0's window in non-MPU mode reaches the other chips; every other access stays local. */
  function Route(hw: Hardware, x: int): (t: Target)
    requires hw.Valid()
    ensures !t.Unmapped? ==> t.chip < CHIPS
  {
    var t := Decode(x);
    if t.Window? && t.chip == 0 && hw.control[0] != 0 && InRelay(Sum(hw.base[0], t.offset)) then
      Decode(Sum(hw.base[0], t.offset) - RELAY)
    else
      t
  }

  // ----- the probed device

  datatype BarMode = Xflow256 | Xflow128 | Sram | FourBar | ThreeBar16 | ThreeBar64 | NotValid

  const BARS := 6
  const KB := 0x400
  const MB := 0x10_0000

  /** How a call gets at a chip's registers: its own through a BAR, through chip 0, or not at all
      because they lie behind the end of the BAR. */
  datatype Path = Direct | Relayed | Blind

  /** The sizes of the six BARs and which of them are mapped; everything else follows in probing. */
  datatype Config = Config(present: bool, sizes: seq<nat>, usable: seq<bool>) {
    /** Sizes are powers of two of at least 16 bytes, or 0; more is not needed than that they are
        multiples of 16. */
    predicate Sized() { |sizes| == |usable| == BARS && forall b :: 0 <= b < BARS ==> sizes[b] % 16 == 0 }

    function Mode(): BarMode
      requires Sized()
    {
      if sizes[0] == 256 * MB && sizes[1] == 1 * MB then Xflow256
      else if sizes[1] == 0 && sizes[2] == 1 * MB then Xflow128
      else if sizes[1] == 0 && sizes[0] == 1 * MB then Sram
      else if sizes[0] == 512 * KB && sizes[2] == 256 * KB && sizes[4] == 4 * KB && sizes[5] == 1 * MB then FourBar
      else if (sizes[0] == 16 * MB || sizes[0] == 64 * MB) && (sizes[2] == 16 * MB || sizes[2] == 64 * MB) && sizes[4] == 1 * MB then
        if sizes[0] == 16 * MB then ThreeBar16 else ThreeBar64
      else NotValid
    }

    /** A device of a mode that uses the windows. */
    predicate Valid() { Sized() && Mode() != Sram && Mode() != NotValid }

    function ConfBar(): (bar: nat)
      requires Valid()
      ensures bar < BARS
    {
      if Mode() == Xflow256 || Mode() == Xflow128 then 0 else 2
    }

    function ConfOffset(): int
      requires Valid()
    {
      if Mode() == Xflow256 then 0 else if Mode() == Xflow128 then BUFFER_PREFIX else CONFIG_PREFIX
    }

    /** The windows are always in BAR 0. */
    function BufferOffset(): int
      requires Valid()
    {
      if Mode() == Xflow256 then 0 else BUFFER_PREFIX
    }

    /** A word of the address map lies inside the BAR for the registers, and for the windows. */
    predicate CoversConf(x: int)
      requires Valid()
    {
      0 <= x - ConfOffset() && x - ConfOffset() + 4 <= sizes[ConfBar()]
    }

    predicate CoversBuffer(x: int)
      requires Valid()
    {
      0 <= x - BufferOffset() && x - BufferOffset() + 4 <= sizes[0]
    }

    /** memx_xflow_basic_check returns 0. The BAR indexes are always set after probing. */
    predicate Accepts(chip: nat)
      requires Valid()
    {
      && present && usable[ConfBar()] && usable[0]
      && chip < CHIPS && !(Mode() == ThreeBar16 && chip >= 4)
      && (Mode() == FourBar ==> usable[4])
    }

    /** Chips above 0 have no BAR of their own in 4-BAR mode. */
    predicate Indirect(chip: nat)
      requires Valid()
    {
      chip != 0 && Mode() == FourBar
    }

    function PathOf(chip: nat): (path: Path)
      requires Valid()
      ensures path == Relayed <==> Indirect(chip)
    {
      if Indirect(chip) then Relayed else if CoversConf(XflowOffset(chip, true)) then Direct else Blind
    }

    /** The data access of a call lies inside the BAR. */
    predicate CoversData(chip: nat, offset: nat)
      requires Valid()
    {
      CoversBuffer(AccessAddress(PathOf(chip), chip, offset))
    }
  }

  /** GET_XFLOW_OFFSET: the prefix and the chip field occupy different bits. */
  function XflowOffset(chip: nat, config: bool): (x: int)
    ensures BUFFER_PREFIX <= x <= CONFIG_PREFIX + 15 * WINDOW
  {
    (if config then CONFIG_PREFIX else BUFFER_PREFIX) + (chip % 16) * WINDOW
  }

  lemma RegistersDecode(chip: nat)
    requires chip < CHIPS
    ensures Decode(XflowOffset(chip, true) + BASE_REGISTER) == Base(chip)
    ensures Decode(XflowOffset(chip, true) + CONTROL_REGISTER) == Control(chip)
  {
    var x := XflowOffset(chip, true);
    assert (x - CONFIG_PREFIX) / WINDOW == chip && (x - CONFIG_PREFIX) % WINDOW == 0;
    assert (x + 4 - CONFIG_PREFIX) / WINDOW == chip && (x + 4 - CONFIG_PREFIX) % WINDOW == 4;
  }

  /** The driver adds the offset without a check. Windows follow one another, so an offset reaches the
      window as many chips further on as it has whole windows, and behind the last chip's window the
      registers or nothing. */
  lemma WindowReach(chip: nat, offset: nat)
    requires chip < CHIPS
    ensures chip * WINDOW + offset < CHIPS * WINDOW ==>
      Decode(XflowOffset(chip, false) + offset) == Window(chip + offset / WINDOW, offset % WINDOW)
    ensures chip * WINDOW + offset >= CHIPS * WINDOW ==> !Decode(XflowOffset(chip, false) + offset).Window?
    ensures offset < WINDOW ==> Decode(XflowOffset(chip, false) + offset) == Window(chip, offset)
  {
    var k, r := offset / WINDOW, offset % WINDOW;
    assert chip * WINDOW + offset == (chip + k) * WINDOW + r;
    assert (chip * WINDOW + offset) / WINDOW == chip + k && (chip * WINDOW + offset) % WINDOW == r;
  }

  /** With chip 0 in non-MPU mode and its base register at the relay's image of an address, an access
      through chip 0's window goes where a direct access to that address would go. */
  lemma RelayedAccess(hw: Hardware, x: int, offset: nat)
    requires hw.Valid() && 0 <= x && x + offset < 0x1000_0000 && offset < WINDOW
    requires !Decode(x + offset).Unmapped? && Decode(x + offset).chip != 0
    requires hw.control[0] == 1 && hw.base[0] == RELAY + x
    ensures Route(hw, XflowOffset(0, false) + offset) == Decode(x + offset)
  {
    WindowReach(0, offset);
    assert Sum(RELAY + x, offset) == RELAY + x + offset;
  }

  /** The bus address of a data access; the indirect path goes through chip 0's window. */
  function AccessAddress(path: Path, chip: nat, offset: nat): int {
    XflowOffset(if path == Relayed then 0 else chip, false) + offset
  }

  /** What it reaches. An access behind the end of the BAR reaches nothing. */
  function DataTarget(hw: Hardware, path: Path, covered: bool, chip: nat, offset: nat): (t: Target)
    requires hw.Valid()
    ensures !t.Unmapped? ==> t.chip < CHIPS
  {
    if covered then Route(hw, AccessAddress(path, chip, offset)) else Unmapped
  }

  /** A chip's two registers are covered together. */
  lemma RegistersCovered(config: Config, chip: nat)
    requires config.Valid()
    ensures config.CoversConf(XflowOffset(chip, true)) <==> config.CoversConf(XflowOffset(chip, true) + CONTROL_REGISTER)
  {
  }

  /** What the indirect path itself needs is covered in 4-BAR mode. */
  lemma FourBarCovers(config: Config)
    requires config.Valid() && config.Mode() == FourBar
    ensures config.CoversConf(XflowOffset(0, true)) && config.CoversConf(XflowOffset(0, true) + CONTROL_REGISTER)
    ensures config.CoversBuffer(XflowOffset(0, false)) && config.PathOf(0) == Direct
  {
  }

  /** Register accesses are never relayed. */
  lemma Routes(hw: Hardware, chip: nat)
    requires hw.Valid() && chip < CHIPS
    ensures Route(hw, XflowOffset(chip, true) + BASE_REGISTER) == Base(chip)
    ensures Route(hw, XflowOffset(chip, true) + CONTROL_REGISTER) == Control(chip)
  {
    RegistersDecode(chip);
  }

  /** Where a call's data access ends up when no relay is involved. */
  function Aim(chip: nat, base: Word, offset: nat, mpu: bool): Location {
    Location(chip, mpu, Sum(base, offset))
  }

  /** The call asks chip 0's own bus for an address that the relay takes over. */
  predicate HitsRelay(chip: nat, base: Word, offset: nat, mpu: bool) {
    chip == 0 && !mpu && InRelay(Sum(base, offset))
  }

  /** The registers that a completed call leaves behind: the chip, and the relaying chip 0, are in
      MPU mode again; base registers keep the last address they were given. */
  function Settled(hw: Hardware, path: Path, chip: nat, base: Word, mpu: bool): (r: Hardware)
    requires hw.Valid() && chip < CHIPS
    ensures r.Valid()
  {
    match path
    case Relayed =>
      var last := RELAY + (if mpu then XflowOffset(chip, false) else XflowOffset(chip, true) + CONTROL_REGISTER);
      hw.(control := hw.control[chip := 0][0 := 0], base := hw.base[chip := base][0 := last])
    case Direct => hw.(control := hw.control[chip := 0], base := hw.base[chip := base])
    case Blind => hw
  }

  // ----- the steps of a call

  function Mode(mpu: bool): Word { if mpu then 0 else 1 }

  /** Setting a chip's mode; the indirect path also uses up chip 0's registers. */
  function ModeSet(hw: Hardware, path: Path, chip: nat, mpu: bool): (r: Hardware)
    requires hw.Valid() && chip < CHIPS
    ensures r.Valid()
  {
    match path
    case Relayed =>
      hw.(control := hw.control[0 := 1][chip := Mode(mpu)], base := hw.base[0 := RELAY + XflowOffset(chip, true) + CONTROL_REGISTER])
    case Direct => hw.(control := hw.control[chip := Mode(mpu)])
    case Blind => hw
  }

  function BaseSet(hw: Hardware, path: Path, chip: nat, base: Word): (r: Hardware)
    requires hw.Valid() && chip < CHIPS
    ensures r.Valid()
  {
    match path
    case Relayed => hw.(control := hw.control[0 := 1], base := hw.base[0 := RELAY + XflowOffset(chip, true)][chip := base])
    case Direct => hw.(base := hw.base[chip := base])
    case Blind => hw
  }

  function WindowAimed(hw: Hardware, path: Path, chip: nat): (r: Hardware)
    requires hw.Valid()
    ensures r.Valid()
  {
    if path == Relayed then hw.(control := hw.control[0 := 1], base := hw.base[0 := RELAY + XflowOffset(chip, false)]) else hw
  }

  function Restored(hw: Hardware, path: Path, chip: nat, mpu: bool): (r: Hardware)
    requires hw.Valid() && chip < CHIPS
    ensures r.Valid()
  {
    var own := if mpu then hw else ModeSet(hw, path, chip, true);
    if path == Relayed then ModeSet(own, Direct, 0, true) else own
  }

  function Prepared(hw: Hardware, path: Path, chip: nat, base: Word, mpu: bool): (r: Hardware)
    requires hw.Valid() && chip < CHIPS
    ensures r.Valid()
  {
    WindowAimed(BaseSet(ModeSet(hw, path, chip, mpu), path, chip, base), path, chip)
  }

  /** The registers settle, on every path. */
  lemma StepsSettle(hw: Hardware, path: Path, chip: nat, base: Word, mpu: bool)
    requires hw.Valid() && chip < CHIPS && (path == Relayed ==> chip != 0)
    ensures Restored(Prepared(hw, path, chip, base, mpu), path, chip, mpu) == Settled(hw, path, chip, base, mpu)
  {
    hide XflowOffset;
    var r, q := Restored(Prepared(hw, path, chip, base, mpu), path, chip, mpu), Settled(hw, path, chip, base, mpu);
    assert r.control == q.control;
    assert r.base == q.base;
  }

  /** The hardware after memx_xflow_write, for any offset. */
  function Written(hw: Hardware, path: Path, covered: bool, chip: nat, base: Word, offset: nat, value: Word, mpu: bool): (r: Hardware)
    requires hw.Valid() && chip < CHIPS
    ensures r.Valid()
  {
    var p := Prepared(hw, path, chip, base, mpu);
    Restored(StoreAt(p, DataTarget(p, path, covered, chip, offset), value), path, chip, mpu)
  }

  /** The value memx_xflow_read returns. */
  function ReadValue(hw: Hardware, path: Path, covered: bool, chip: nat, base: Word, offset: nat, mpu: bool): Word
    requires hw.Valid() && chip < CHIPS
  {
    var p := Prepared(hw, path, chip, base, mpu);
    LoadAt(p, DataTarget(p, path, covered, chip, offset))
  }

  /** The address and mode asked for. */
  predicate AtHome(p: Hardware, t: Target, at: Location)
    requires p.Valid() && (!t.Unmapped? ==> t.chip < CHIPS)
  {
    t.Window? && Reached(p, t.chip, t.offset) == at
  }

  /** The chip's registers hold what the call asks for when the data access comes: they have been
      set, or, where that is impossible, happen to be right already. */
  predicate Steered(hw: Hardware, path: Path, chip: nat, base: Word, mpu: bool)
    requires hw.Valid() && chip < CHIPS
  {
    path == Blind ==> hw.base[chip] == base && (hw.control[chip] == 0) == mpu
  }

  /** The address asked for lies inside the BAR and the window and outside the relay. */
  predicate Inside(covered: bool, chip: nat, base: Word, offset: nat, mpu: bool) {
    covered && offset < WINDOW && !HitsRelay(chip, base, offset, mpu)
  }

  /** What the steps before the data access leave in the registers it depends on. */
  lemma PreparedRegisters(hw: Hardware, path: Path, chip: nat, base: Word, mpu: bool)
    requires hw.Valid() && chip < CHIPS && (path == Relayed ==> chip != 0)
    ensures var p := Prepared(hw, path, chip, base, mpu);
      && p.memory == hw.memory
      && (path != Blind ==> p.base[chip] == base && p.control[chip] == Mode(mpu))
      && (path == Blind ==> p == hw)
      && (path == Relayed ==> p.control[0] == 1 && p.base[0] == RELAY + XflowOffset(chip, false))
  {
    hide XflowOffset;
  }

  /** Inside the window a steered data access goes to the address asked for, or where the relay
      takes it. */
  lemma StepsAim(hw: Hardware, path: Path, chip: nat, base: Word, offset: nat, mpu: bool)
    requires hw.Valid() && chip < CHIPS && (path == Relayed ==> chip != 0) && offset < WINDOW
    requires Steered(hw, path, chip, base, mpu)
    ensures var p := Prepared(hw, path, chip, base, mpu);
      if HitsRelay(chip, base, offset, mpu) then DataTarget(p, path, true, chip, offset) == Decode(Sum(base, offset) - RELAY)
      else DataTarget(p, path, true, chip, offset) == Window(chip, offset) && Reached(p, chip, offset) == Aim(chip, base, offset, mpu)
  {
    hide XflowOffset, Decode, InRelay, Sum, Prepared;
    var p := Prepared(hw, path, chip, base, mpu);
    PreparedRegisters(hw, path, chip, base, mpu);
    WindowReach(chip, offset);
    if path == Relayed {
      RelayedAccess(p, XflowOffset(chip, false), offset);
    }
  }

  /** An offset outside the window leads to another chip, to another address, or to no memory at
      all. */
  lemma StepsStray(hw: Hardware, path: Path, chip: nat, base: Word, offset: Word, mpu: bool)
    requires hw.Valid() && chip < CHIPS && (path == Relayed ==> chip != 0) && offset >= WINDOW
    ensures var p := Prepared(hw, path, chip, base, mpu);
      !AtHome(p, DataTarget(p, path, true, chip, offset), Aim(chip, base, offset, mpu))
  {
    hide XflowOffset, Decode, InRelay, Prepared;
    var p := Prepared(hw, path, chip, base, mpu);
    PreparedRegisters(hw, path, chip, base, mpu);
    WindowReach(if path == Relayed then 0 else chip, offset);
    WholeWindows(base, offset);
  }

  /** Whole windows do not add up to a full turn of the 32-bit address. */
  lemma WholeWindows(base: Word, offset: Word)
    requires offset >= WINDOW
    ensures offset / WINDOW >= 1 && Sum(base, offset % WINDOW) != Sum(base, offset)
  {
  }

  /** Registers that cannot be set and are not right lead elsewhere. */
  lemma UnsteeredStrays(hw: Hardware, chip: nat, base: Word, offset: Word, mpu: bool)
    requires hw.Valid() && chip < CHIPS && !Steered(hw, Blind, chip, base, mpu) && offset < WINDOW
    ensures !AtHome(hw, DataTarget(hw, Blind, true, chip, offset), Aim(chip, base, offset, mpu))
  {
    hide XflowOffset, Decode, Sum;
    WindowReach(chip, offset);
    SumsDiffer(hw.base[chip], base, offset);
  }

  lemma SumsDiffer(a: Word, b: Word, offset: Word)
    ensures a != b ==> Sum(a, offset) != Sum(b, offset)
  {
  }

  /** A data access is at home exactly when it is steered and inside. */
  lemma AtHomeWhenInside(hw: Hardware, path: Path, covered: bool, chip: nat, base: Word, offset: Word, mpu: bool)
    requires hw.Valid() && chip < CHIPS && (path == Relayed ==> chip != 0)
    ensures var p := Prepared(hw, path, chip, base, mpu);
      AtHome(p, DataTarget(p, path, covered, chip, offset), Aim(chip, base, offset, mpu)) <==>
        Inside(covered, chip, base, offset, mpu) && Steered(hw, path, chip, base, mpu)
  {
    hide XflowOffset, Decode, Sum, Prepared, Steered, Route, HitsRelay;
    PreparedRegisters(hw, path, chip, base, mpu);
    if offset >= WINDOW {
      StepsStray(hw, path, chip, base, offset, mpu);
    } else if Steered(hw, path, chip, base, mpu) {
      StepsAim(hw, path, chip, base, offset, mpu);
      RelayIsElsewhere(chip, base, offset, mpu);
    } else {
      assert path == Blind by { BlindOnly(hw, path, chip, base, mpu); }
      UnsteeredStrays(hw, chip, base, offset, mpu);
    }
  }

  lemma BlindOnly(hw: Hardware, path: Path, chip: nat, base: Word, mpu: bool)
    requires hw.Valid() && chip < CHIPS && !Steered(hw, path, chip, base, mpu)
    ensures path == Blind
  {
  }

  lemma RelayIsElsewhere(chip: nat, base: Word, offset: Word, mpu: bool)
    ensures var t := Decode(Sum(base, offset) - RELAY); HitsRelay(chip, base, offset, mpu) ==> !t.Unmapped? && t.chip != chip
  {
  }

  /** The register steps neither look at the memory nor change it. */
  lemma OnlyRegisters(hw: Hardware, memory: map<Location, Word>, path: Path, chip: nat, base: Word, mpu: bool)
    requires hw.Valid() && chip < CHIPS
    ensures Restored(hw, path, chip, mpu).memory == hw.memory
    ensures Prepared(hw.(memory := memory), path, chip, base, mpu) == Prepared(hw, path, chip, base, mpu).(memory := memory)
    ensures Restored(hw.(memory := memory), path, chip, mpu) == Restored(hw, path, chip, mpu).(memory := memory)
    ensures Settled(hw.(memory := memory), path, chip, base, mpu) == Settled(hw, path, chip, base, mpu).(memory := memory)
  {
    hide XflowOffset;
  }

  /** All steps of a write that is inside and steered: one store in the flat memory, and settled
      registers. */
  lemma WriteComposes(hw: Hardware, path: Path, covered: bool, chip: nat, base: Word, offset: nat, value: Word, mpu: bool)
    requires hw.Valid() && chip < CHIPS && (path == Relayed ==> chip != 0)
    requires Inside(covered, chip, base, offset, mpu) && Steered(hw, path, chip, base, mpu)
    ensures Written(hw, path, covered, chip, base, offset, value, mpu) ==
      Settled(hw.(memory := hw.memory[Aim(chip, base, offset, mpu) := value]), path, chip, base, mpu)
  {
    hide XflowOffset, Decode, Sum, Prepared, DataTarget, Restored, Settled, HitsRelay, Aim, Steered;
    var p, memory := Prepared(hw, path, chip, base, mpu), hw.memory[Aim(chip, base, offset, mpu) := value];
    StepsAim(hw, path, chip, base, offset, mpu);
    StepsSettle(hw, path, chip, base, mpu);
    PreparedRegisters(hw, path, chip, base, mpu);
    OnlyRegisters(p, memory, path, chip, base, mpu);
    OnlyRegisters(hw, memory, path, chip, base, mpu);
  }

  /** A write that the relay takes to another chip: that chip is changed, and registers settle. */
  lemma RelayedWriteComposes(hw: Hardware, base: Word, offset: nat, value: Word)
    requires hw.Valid() && offset < WINDOW && HitsRelay(0, base, offset, false)
    ensures Written(hw, Direct, true, 0, base, offset, value, false) ==
      Settled(StoreAt(hw, Decode(Sum(base, offset) - RELAY), value), Direct, 0, base, false)
  {
    hide XflowOffset, Sum, Decode, DataTarget;
    StepsAim(hw, Direct, 0, base, offset, false);
    var t := Decode(Sum(base, offset) - RELAY);
    var r, q := Restored(StoreAt(Prepared(hw, Direct, 0, base, false), t, value), Direct, 0, false), Settled(StoreAt(hw, t, value), Direct, 0, base, false);
    assert r.control == q.control;
    assert r.base == q.base;
  }

  /** The steps of a read that is inside and steered: the value comes from where the call aims. */
  lemma ReadComposes(hw: Hardware, path: Path, covered: bool, chip: nat, base: Word, offset: nat, mpu: bool)
    requires hw.Valid() && chip < CHIPS && (path == Relayed ==> chip != 0)
    requires Inside(covered, chip, base, offset, mpu) && Steered(hw, path, chip, base, mpu)
    ensures ReadValue(hw, path, covered, chip, base, offset, mpu) == Fetch(hw.memory, Aim(chip, base, offset, mpu))
  {
    hide XflowOffset, Decode, Sum, DataTarget, Restored, Settled, Prepared, HitsRelay, Aim, Steered;
    PreparedRegisters(hw, path, chip, base, mpu);
    StepsAim(hw, path, chip, base, offset, mpu);
  }

  // ----- which chips are served, from the BAR sizes alone

  /** The four BAR layouts that use the windows. */
  predicate Wide(config: Config)
    requires config.Sized()
  {
    config.sizes[0] == 0x1000_0000 && config.sizes[1] == 0x10_0000
  }

  predicate OneBar(config: Config)
    requires config.Sized()
  {
    config.sizes[1] == 0 && config.sizes[2] == 0x10_0000
  }

  predicate Small(config: Config)
    requires config.Sized()
  {
    config.sizes[0] == 0x8_0000 && config.sizes[2] == 0x4_0000 && config.sizes[4] == 0x1000 && config.sizes[5] == 0x10_0000
  }

  predicate Split(config: Config)
    requires config.Sized()
  {
    && (config.sizes[0] == 0x100_0000 || config.sizes[0] == 0x400_0000)
    && (config.sizes[2] == 0x100_0000 || config.sizes[2] == 0x400_0000)
    && config.sizes[4] == 0x10_0000
  }

  /** Every word that a call needs, two registers and one of the window, lies inside a mapped BAR. */
  predicate Served(config: Config, chip: nat, offset: nat)
    requires config.Sized()
  {
    && config.present && config.usable[0] && chip < 16 && offset < 0x40_0000
    && (|| Wide(config)
        || (OneBar(config) && 0x400_0000 + chip * 0x40_0000 + 8 <= config.sizes[0])
        || (Small(config) && config.usable[2] && config.usable[4] && offset + 4 <= 0x8_0000)
        || (Split(config) && config.usable[2] && chip * 0x40_0000 + 8 <= config.sizes[2] && chip * 0x40_0000 + offset + 4 <= config.sizes[0]))
  }

  /** Calls that have no effect. */
  predicate Dropped(config: Config, chip: nat)
    requires config.Sized()
  {
    || !config.present || !config.usable[0] || chip >= 16
    || ((Small(config) || Split(config)) && !config.usable[2])
    || (Small(config) && !config.usable[4])
    || (Split(config) && config.sizes[0] == 0x100_0000 && chip >= 4)
  }

  /** Chip 0's own bus reaches another chip's window or registers. */
  predicate Relays(chip: nat, base: Word, offset: nat, mpu: bool) {
    var sum := (base + offset) % 0x1_0000_0000;
    && chip == 0 && !mpu
    && (|| 0x6840_0000 <= sum < 0x6C00_0000
        || (0x6C40_0000 <= sum < 0x7000_0000 && (sum % 0x40_0000 == 0 || sum % 0x40_0000 == 4)))
  }

  lemma RelaysExactly(chip: nat, base: Word, offset: nat, mpu: bool)
    ensures Relays(chip, base, offset, mpu) <==> HitsRelay(chip, base, offset, mpu)
  {
    var sum := (base + offset) % 0x1_0000_0000;
    assert sum - RELAY - CONFIG_PREFIX == sum - 0x6C00_0000 && 0x6C00_0000 == 432 * WINDOW;
    assert (sum - 0x6C00_0000) % WINDOW == sum % WINDOW;
  }

  lemma LayoutsExactly(config: Config)
    requires config.Sized()
    ensures config.Valid() <==> Wide(config) || OneBar(config) || Small(config) || Split(config)
    ensures config.Valid() ==>
      && (config.Mode() == Xflow256 <==> Wide(config)) && (config.Mode() == Xflow128 <==> OneBar(config)) && (config.Mode() == FourBar <==> Small(config))
      && (config.Mode() == ThreeBar16 <==> Split(config) && config.sizes[0] == 0x100_0000)
      && (config.Mode() == ThreeBar64 <==> Split(config) && config.sizes[0] == 0x400_0000)
  {
  }

  lemma AcceptsExactly(config: Config, chip: nat)
    requires config.Valid()
    ensures config.Accepts(chip) <==> !Dropped(config, chip)
  {
    LayoutsExactly(config);
  }

  // ----- whole runs

  datatype Call =
    | Write(chip: nat, base: Word, offset: Word, value: Word, mpu: bool)
    | Read(chip: nat, base: Word, offset: Word, mpu: bool)

  /** The hardware and the returned value of one call; a write returns nothing, shown as 0. */
  function Step(hw: Hardware, config: Config, call: Call): (r: (Hardware, Word))
    requires hw.Valid() && config.Valid()
    ensures r.0.Valid()
  {
    if !config.Accepts(call.chip) then (hw, 0)
    else
      var path, covered := config.PathOf(call.chip), config.CoversData(call.chip, call.offset);
      match call
      case Write(c, b, o, v, m) => (Written(hw, path, covered, c, b, o, v, m), 0)
      case Read(c, b, o, m) => (Settled(hw, path, c, b, m), ReadValue(hw, path, covered, c, b, o, m))
  }

  function Execute(hw: Hardware, config: Config, calls: seq<Call>): (r: (Hardware, seq<Word>))
    requires hw.Valid() && config.Valid()
    ensures r.0.Valid() && |r.1| == |calls|
  {
    if calls == [] then (hw, [])
    else
      var before := Execute(hw, config, calls[..|calls| - 1]);
      var last := Step(before.0, config, calls[|calls| - 1]);
      (last.0, before.1 + [last.1])
  }

  /** One flat memory per chip and access mode: the specification of a call. */
  function FlatStep(memory: map<Location, Word>, config: Config, call: Call): (map<Location, Word>, Word)
    requires config.Valid()
  {
    if Dropped(config, call.chip) then (memory, 0)
    else match call
      case Write(c, b, o, v, m) => (memory[Aim(c, b, o, m) := v], 0)
      case Read(c, b, o, m) => (memory, Fetch(memory, Aim(c, b, o, m)))
  }

  function FlatExecute(memory: map<Location, Word>, config: Config, calls: seq<Call>): (r: (map<Location, Word>, seq<Word>))
    requires config.Valid()
    ensures |r.1| == |calls|
  {
    if calls == [] then (memory, [])
    else
      var before := FlatExecute(memory, config, calls[..|calls| - 1]);
      var last := FlatStep(before.0, config, calls[|calls| - 1]);
      (last.0, before.1 + [last.1])
  }

  /** The call reaches the address asked for, in every state of the hardware. */
  predicate InReach(config: Config, chip: nat, base: Word, offset: nat, mpu: bool)
    requires config.Valid()
  {
    config.PathOf(chip) != Blind && Inside(config.CoversData(chip, offset), chip, base, offset, mpu)
  }

  predicate AllInReach(config: Config, calls: seq<Call>)
    requires config.Valid()
  {
    forall i :: 0 <= i < |calls| ==> InReach(config, calls[i].chip, calls[i].base, calls[i].offset, calls[i].mpu)
  }

  /** Any call in reach is a call on the flat memory, and leaves an idle device idle. */
  lemma StepIsFlat(hw: Hardware, config: Config, call: Call)
    requires hw.Valid() && config.Valid() && InReach(config, call.chip, call.base, call.offset, call.mpu)
    ensures Step(hw, config, call).0.memory == FlatStep(hw.memory, config, call).0
    ensures Step(hw, config, call).1 == FlatStep(hw.memory, config, call).1
    ensures hw.Idle() ==> Step(hw, config, call).0.Idle()
  {
    AcceptsExactly(config, call.chip);
    hide XflowOffset, Written, ReadValue, Inside, Aim, Dropped, Config.CoversConf, Config.CoversData, Config.Mode;
    if config.Accepts(call.chip) {
      var path, covered := config.PathOf(call.chip), config.CoversData(call.chip, call.offset);
      match call
      case Write(c, b, o, v, m) => WriteComposes(hw, path, covered, c, b, o, v, m);
      case Read(c, b, o, m) => ReadComposes(hw, path, covered, c, b, o, m);
    }
  }

  /** Any run of calls in reach is a run on the flat memory: same values returned, same contents
      left, and every chip is back in MPU mode. */
  lemma {:induction false} RunIsFlat(hw: Hardware, config: Config, calls: seq<Call>)
    requires hw.Valid() && config.Valid() && AllInReach(config, calls)
    ensures Execute(hw, config, calls).0.memory == FlatExecute(hw.memory, config, calls).0
    ensures Execute(hw, config, calls).1 == FlatExecute(hw.memory, config, calls).1
    ensures hw.Idle() ==> Execute(hw, config, calls).0.Idle()
  {
    hide Step, FlatStep, InReach, Hardware.Idle, Config.Valid;
    if calls != [] {
      RunIsFlat(hw, config, calls[..|calls| - 1]);
      StepIsFlat(Execute(hw, config, calls[..|calls| - 1]).0, config, calls[|calls| - 1]);
    }
  }

  /** The indirect path through chip 0 and the direct path cannot be told apart: two devices with
      the same memory and any register contents give the same values and the same memory after
      every run of calls that are in reach of both, whatever their BAR modes, as long as both or
      neither drop each call. */
  lemma {:induction false} PathsAgree(hw: Hardware, config: Config, hw': Hardware, config': Config, calls: seq<Call>)
    requires hw.Valid() && config.Valid() && hw'.Valid() && config'.Valid()
    requires hw.memory == hw'.memory && AllInReach(config, calls) && AllInReach(config', calls)
    requires forall i :: 0 <= i < |calls| ==> Dropped(config, calls[i].chip) == Dropped(config', calls[i].chip)
    ensures Execute(hw, config, calls).0.memory == Execute(hw', config', calls).0.memory
    ensures Execute(hw, config, calls).1 == Execute(hw', config', calls).1
  {
    hide InReach, Config.Valid;
    RunIsFlat(hw, config, calls);
    RunIsFlat(hw', config', calls);
    FlatForgetsConfig(hw.memory, config, config', calls);
  }

  lemma {:induction false} FlatForgetsConfig(memory: map<Location, Word>, config: Config, config': Config, calls: seq<Call>)
    requires config.Valid() && config'.Valid()
    requires forall i :: 0 <= i < |calls| ==> Dropped(config, calls[i].chip) == Dropped(config', calls[i].chip)
    ensures FlatExecute(memory, config, calls) == FlatExecute(memory, config', calls)
  {
    hide Config.Valid, Dropped;
    if calls != [] {
      FlatForgetsConfig(memory, config, config', calls[..|calls| - 1]);
    }
  }

  // ----- the conditions are exact

  /** A store somewhere else leaves the memory different from the flat one, for some value. */
  lemma StoreElsewhere(p: Hardware, t: Target, at: Location, value: Word)
    requires p.Valid() && (!t.Unmapped? ==> t.chip < CHIPS)
    ensures AtHome(p, t, at) ==> StoreAt(p, t, value).memory == p.memory[at := value]
    ensures !AtHome(p, t, at) && Fetch(p.memory, at) != value ==> StoreAt(p, t, value).memory != p.memory[at := value]
  {
    if !AtHome(p, t, at) && Fetch(p.memory, at) != value {
      var after := StoreAt(p, t, value).memory;
      assert p.memory[at := value][at] == value;
      assert at in after ==> after[at] == p.memory[at];
      assert at in after ==> after[at] != value;
    }
  }

  /** For an accepted chip, and in a given state of the hardware, a write is a write to the flat
      memory, for every value, if and only if it is inside and steered. */
  lemma WriteIsFlat(hw: Hardware, config: Config, chip: nat, base: Word, offset: Word, mpu: bool)
    requires hw.Valid() && config.Valid() && config.Accepts(chip)
    ensures Inside(config.CoversData(chip, offset), chip, base, offset, mpu) && Steered(hw, config.PathOf(chip), chip, base, mpu) <==>
      forall v: Word :: Step(hw, config, Write(chip, base, offset, v, mpu)).0.memory ==
        FlatStep(hw.memory, config, Write(chip, base, offset, v, mpu)).0
  {
    AcceptsExactly(config, chip);
    hide XflowOffset, Prepared, DataTarget, Restored, Inside, Steered, Aim, StoreAt, Dropped, AtHome, Config.CoversConf, Config.CoversData, Config.Mode, Config.Valid;
    var path, covered, at := config.PathOf(chip), config.CoversData(chip, offset), Aim(chip, base, offset, mpu);
    IndirectNotZero(config, chip);
    var p := Prepared(hw, path, chip, base, mpu);
    var t := DataTarget(p, path, covered, chip, offset);
    AtHomeWhenInside(hw, path, covered, chip, base, offset, mpu);
    PreparedRegisters(hw, path, chip, base, mpu);
    forall v: Word
      ensures AtHome(p, t, at) ==>
        Step(hw, config, Write(chip, base, offset, v, mpu)).0.memory == FlatStep(hw.memory, config, Write(chip, base, offset, v, mpu)).0
      ensures !AtHome(p, t, at) && Fetch(hw.memory, at) != v ==>
        Step(hw, config, Write(chip, base, offset, v, mpu)).0.memory != FlatStep(hw.memory, config, Write(chip, base, offset, v, mpu)).0
    {
      StoreElsewhere(p, t, at, v);
      OnlyRegisters(StoreAt(p, t, v), map[], path, chip, base, mpu);
    }
    var other: Word := if Fetch(hw.memory, at) == 0 then 1 else 0;
    assert !AtHome(p, t, at) ==>
      Step(hw, config, Write(chip, base, offset, other, mpu)).0.memory != FlatStep(hw.memory, config, Write(chip, base, offset, other, mpu)).0;
  }

  lemma IndirectNotZero(config: Config, chip: nat)
    requires config.Valid() && config.Accepts(chip)
    ensures chip < CHIPS && (config.PathOf(chip) == Relayed ==> chip != 0)
  {
  }

  /** And a read returns the flat memory's value, whatever the memory holds, under the same
      condition. */
  lemma ReadIsFlat(hw: Hardware, config: Config, chip: nat, base: Word, offset: Word, mpu: bool)
    requires hw.Valid() && config.Valid() && config.Accepts(chip)
    ensures Inside(config.CoversData(chip, offset), chip, base, offset, mpu) && Steered(hw, config.PathOf(chip), chip, base, mpu) <==>
      forall m: map<Location, Word> :: Step(hw.(memory := m), config, Read(chip, base, offset, mpu)).1 ==
        FlatStep(m, config, Read(chip, base, offset, mpu)).1
  {
    AcceptsExactly(config, chip);
    hide XflowOffset, Prepared, DataTarget, Restored, Settled, Inside, Aim, Dropped, Config.CoversConf, Config.CoversData, Config.Mode, Config.Valid;
    var path, covered, at := config.PathOf(chip), config.CoversData(chip, offset), Aim(chip, base, offset, mpu);
    IndirectNotZero(config, chip);
    if Inside(covered, chip, base, offset, mpu) && Steered(hw, path, chip, base, mpu) {
      forall m: map<Location, Word>
        ensures Step(hw.(memory := m), config, Read(chip, base, offset, mpu)).1 == FlatStep(m, config, Read(chip, base, offset, mpu)).1
      {
        ReadComposes(hw.(memory := m), path, covered, chip, base, offset, mpu);
      }
    } else {
      StrayRead(hw, path, covered, chip, base, offset, mpu, map[at := 0]);
      StrayRead(hw, path, covered, chip, base, offset, mpu, map[at := 1]);
      var m: map<Location, Word> := if ReadValue(hw.(memory := map[at := 0]), path, covered, chip, base, offset, mpu) == 0 then map[at := 1] else map[at := 0];
      assert Step(hw.(memory := m), config, Read(chip, base, offset, mpu)).1 != FlatStep(m, config, Read(chip, base, offset, mpu)).1;
    }
  }

  /** A read that strays does not look at the location asked for. */
  lemma StrayRead(hw: Hardware, path: Path, covered: bool, chip: nat, base: Word, offset: Word, mpu: bool, m: map<Location, Word>)
    requires hw.Valid() && chip < CHIPS && (path == Relayed ==> chip != 0)
    requires !(Inside(covered, chip, base, offset, mpu) && Steered(hw, path, chip, base, mpu))
    requires m.Keys == {Aim(chip, base, offset, mpu)}
    ensures ReadValue(hw.(memory := m), path, covered, chip, base, offset, mpu) == ReadValue(hw.(memory := map[]), path, covered, chip, base, offset, mpu)
  {
    hide XflowOffset, Prepared, Decode, Inside, Steered, Aim, Sum, InRelay;
    var p := Prepared(hw, path, chip, base, mpu);
    OnlyRegisters(hw, m, path, chip, base, mpu);
    OnlyRegisters(hw, map[], path, chip, base, mpu);
    AtHomeWhenInside(hw, path, covered, chip, base, offset, mpu);
  }

  /** In reach is exactly what is needed for a flat write in every state of the hardware. */
  lemma ReachIsExact(config: Config, chip: nat, base: Word, offset: Word, mpu: bool)
    requires config.Valid() && config.Accepts(chip)
    ensures InReach(config, chip, base, offset, mpu) <==>
      forall hw: Hardware, v: Word :: hw.Valid() ==>
        Step(hw, config, Write(chip, base, offset, v, mpu)).0.memory == FlatStep(hw.memory, config, Write(chip, base, offset, v, mpu)).0
  {
    hide Step, FlatStep, Inside, Config.CoversData, Config.CoversConf, Config.Mode, Config.Valid;
    if InReach(config, chip, base, offset, mpu) {
      forall hw: Hardware, v: Word | hw.Valid()
        ensures Step(hw, config, Write(chip, base, offset, v, mpu)).0.memory == FlatStep(hw.memory, config, Write(chip, base, offset, v, mpu)).0
      {
        StepIsFlat(hw, config, Write(chip, base, offset, v, mpu));
      }
    } else {
      var wrong: Word := if mpu then 1 else 0;
      var hw := Hardware(seq(CHIPS, _ => wrong), seq(CHIPS, _ => 0 as Word), map[]);
      IndirectNotZero(config, chip);
      WriteIsFlat(hw, config, chip, base, offset, mpu);
    }
  }

  /** What reach means in each mode. The registers of chips from 4 on are out of reach when the
      windows have 64 MB and the registers 16 MB; in 4-BAR mode only the first 512 KB of a window
      are in reach. */
  lemma ReachByMode(config: Config, chip: nat, offset: nat)
    requires config.Valid() && config.Accepts(chip) && offset < WINDOW
    ensures config.CoversData(chip, offset) <==>
      (if config.Mode() == FourBar then 0 else chip * WINDOW) + offset + 4 <= config.sizes[0]
    ensures config.PathOf(chip) == Blind <==>
      || (config.Mode() == ThreeBar64 && config.sizes[2] == 16 * MB && chip >= 4)
      || (config.Mode() == Xflow128 && config.sizes[0] <= 64 * MB + chip * WINDOW)
  {
  }

  /** Being accepted and in reach is having all words mapped and no relay in the way. */
  lemma ServedExactly(config: Config, chip: nat, base: Word, offset: nat, mpu: bool)
    requires config.Valid()
    ensures config.Accepts(chip) && InReach(config, chip, base, offset, mpu) <==>
      Served(config, chip, offset) && !Relays(chip, base, offset, mpu)
  {
    LayoutsExactly(config);
    AcceptsExactly(config, chip);
    RelaysExactly(chip, base, offset, mpu);
    hide HitsRelay, Relays;
    if config.Accepts(chip) && offset < WINDOW {
      ReachByMode(config, chip, offset);
    }
  }

  /** A chip below 16 whose words are all mapped is served: the word at base plus offset is stored and
      loaded, in the mode asked for. */
  lemma ServedChips(hw: Hardware, config: Config, chip: nat, base: Word, offset: Word, value: Word, mpu: bool)
    requires hw.Valid() && config.Sized() && Served(config, chip, offset) && !Relays(chip, base, offset, mpu)
    ensures config.Valid()
    ensures var at := Location(chip, mpu, (base + offset) % 0x1_0000_0000);
      && Step(hw, config, Write(chip, base, offset, value, mpu)).0.memory == hw.memory[at := value]
      && Step(hw, config, Read(chip, base, offset, mpu)).0.memory == hw.memory
      && Step(hw, config, Read(chip, base, offset, mpu)).1 == if at in hw.memory then hw.memory[at] else 0
  {
    LayoutsExactly(config);
    ServedExactly(config, chip, base, offset, mpu);
    hide Step, InReach, Served, Relays, Config.Valid, Config.Accepts;
    StepIsFlat(hw, config, Write(chip, base, offset, value, mpu));
    StepIsFlat(hw, config, Read(chip, base, offset, mpu));
  }

  /** Everyone else that is turned away: nothing changes and 0 is read. */
  lemma DroppedCalls(hw: Hardware, config: Config, call: Call)
    requires hw.Valid() && config.Valid() && Dropped(config, call.chip)
    ensures Step(hw, config, call) == (hw, 0)
  {
    AcceptsExactly(config, call.chip);
  }

  // ----- calls that are not flat

  /** Behind the 512 KB of the window BAR of 4-BAR mode nothing is stored and zero is read, for chip 0
      and every other. */
  lemma BehindTheBar(hw: Hardware, config: Config, chip: nat, base: Word, offset: Word, value: Word, mpu: bool)
    requires hw.Valid() && config.Valid() && config.Mode() == FourBar && config.Accepts(chip) && offset + 4 > 512 * KB
    ensures !InReach(config, chip, base, offset, mpu)
    ensures Step(hw, config, Write(chip, base, offset, value, mpu)).0.memory == hw.memory
    ensures Step(hw, config, Read(chip, base, offset, mpu)).1 == 0
  {
    assert !config.CoversData(chip, offset);
    hide XflowOffset, Config.CoversData, Config.CoversConf, Config.Mode, Config.Valid;
    var p := Prepared(hw, config.PathOf(chip), chip, base, mpu);
    IndirectNotZero(config, chip);
    OnlyRegisters(p, map[], config.PathOf(chip), chip, base, mpu);
    PreparedRegisters(hw, config.PathOf(chip), chip, base, mpu);
  }

  /** The first such word: offset 0x80000, base 0, in MPU mode. */
  lemma FirstWordBehindTheBar(hw: Hardware, config: Config, chip: nat, value: Word)
    requires hw.Valid() && config.Valid() && config.Mode() == FourBar && config.Accepts(chip)
    ensures Step(hw, config, Write(chip, 0, 0x8_0000, value, true)).0.memory == hw.memory
    ensures value != Fetch(hw.memory, Location(chip, true, 0x8_0000)) ==>
      hw.memory != FlatStep(hw.memory, config, Write(chip, 0, 0x8_0000, value, true)).0
  {
    BehindTheBar(hw, config, chip, 0, 0x8_0000, value, true);
    AcceptsExactly(config, chip);
    hide Step, Dropped, Config.CoversConf, Config.Mode, Config.Valid;
    var at := Location(chip, true, 0x8_0000);
    assert Aim(chip, 0, 0x8_0000, true) == at;
    assert hw.memory[at := value][at] == value;
  }

  /** Windows of 64 MB with registers of 16 MB: chip 4 is accepted, but its registers cannot be set. */
  lemma RegistersBehindTheBar()
    ensures var config := Config(true, [64 * MB, 16, 16 * MB, 0, 1 * MB, 0], [true, true, true, false, true, false]);
      config.Valid() && config.Mode() == ThreeBar64 && config.Accepts(4) && config.PathOf(4) == Blind
  {
  }

  /** One window further, chip 1's accesses would go to chip 2 on the direct path and to the beginning
      of chip 1's own window on the indirect one. */
  lemma OneWindowTooFar()
    ensures Decode(AccessAddress(Direct, 1, WINDOW)) == Window(2, 0) && Decode(AccessAddress(Relayed, 1, WINDOW)) == Window(1, 0)
    ensures !Inside(true, 1, 0, WINDOW, true)
  {
    WindowReach(1, WINDOW);
    WindowReach(0, WINDOW);
  }

  /** A non-MPU write of chip 0 to the relay's image of chip 1's window stores in chip 1. */
  lemma RelayTakesOver(hw: Hardware, value: Word)
    requires hw.Valid()
    ensures HitsRelay(0, 0x6840_0000, 0, false)
    ensures Written(hw, Direct, true, 0, 0x6840_0000, 0, value, false).memory == hw.memory[Reached(hw, 1, 0) := value]
  {
    assert Sum(0x6840_0000, 0) - RELAY == 0x840_0000 && Decode(0x840_0000) == Window(1, 0);
    RelayedWriteComposes(hw, 0x6840_0000, 0, value);
  }

  /** The same for the two entry points. */
  lemma ServedCall(hw: Hardware, config: Config, chip: nat, base: Word, offset: Word, value: Word, mpu: bool)
    requires hw.Valid() && config.Valid()
    ensures config.Accepts(chip) <==> !Dropped(config, chip)
    ensures Served(config, chip, offset) && !Relays(chip, base, offset, mpu) ==>
      config.Accepts(chip) && InReach(config, chip, base, offset, mpu) && chip < CHIPS
    ensures Aim(chip, base, offset, mpu) == Location(chip, mpu, (base + offset) % 0x1_0000_0000)
    ensures chip < CHIPS ==> forall m: map<Location, Word> :: Settled(hw.(memory := m), config.PathOf(chip), chip, base, mpu).memory == m
  {
    AcceptsExactly(config, chip);
    ServedExactly(config, chip, base, offset, mpu);
  }

  class Device {
    const config: Config
    var hardware: Hardware

    constructor (config: Config, hardware: Hardware)
      ensures this.config == config && this.hardware == hardware
    {
      this.config, this.hardware := config, hardware;
    }

    predicate Valid()
      reads this
    {
      config.Valid() && hardware.Valid()
    }

    /** A store at a position of the BAR for the registers; positions behind its end reach nothing. */
    method PokeConf(position: int, value: Word)
      requires Valid()
      modifies this
      ensures Valid()
      ensures var x := position + config.ConfOffset();
        hardware == if config.CoversConf(x) then StoreAt(old(hardware), Route(old(hardware), x), value) else old(hardware)
    {
      if 0 <= position && position + 4 <= config.sizes[config.ConfBar()] {
        hardware := StoreAt(hardware, Route(hardware, position + config.ConfOffset()), value);
      }
    }

    /** A store at a position of the BAR for the windows. */
    method PokeBuffer(position: int, value: Word)
      requires Valid()
      modifies this
      ensures Valid()
      ensures var x := position + config.BufferOffset();
        hardware == if config.CoversBuffer(x) then StoreAt(old(hardware), Route(old(hardware), x), value) else old(hardware)
    {
      if 0 <= position && position + 4 <= config.sizes[0] {
        hardware := StoreAt(hardware, Route(hardware, position + config.BufferOffset()), value);
      }
    }

    method PeekBuffer(position: int) returns (value: Word)
      requires Valid()
      ensures var x := position + config.BufferOffset();
        value == if config.CoversBuffer(x) then LoadAt(hardware, Route(hardware, x)) else 0
    {
      value := 0;
      if 0 <= position && position + 4 <= config.sizes[0] {
        value := LoadAt(hardware, Route(hardware, position + config.BufferOffset()));
      }
    }

    /** The two stores that point chip 0's relay at an address of the map. */
    method AimRelay(x: int)
      requires Valid() && config.Mode() == FourBar && 0 <= x < 0x1000_0000
      modifies this
      ensures Valid()
      ensures hardware == old(hardware).(control := old(hardware).control[0 := 1], base := old(hardware).base[0 := RELAY + x])
    {
      FourBarCovers(config);
      hide Route, Decode, XflowOffset, Sum, InRelay, Reached, Config.CoversConf, Config.ConfOffset, Config.Mode, Config.Valid;
      Routes(hardware, 0);
      PokeConf(XflowOffset(0, true) + CONTROL_REGISTER - config.ConfOffset(), 1);
      Routes(hardware, 0);
      PokeConf(XflowOffset(0, true) + BASE_REGISTER - config.ConfOffset(), RELAY + x);
    }

    method SetAccessMode(chip: nat, mpu: bool)
      requires Valid()
      modifies this
      ensures Valid()
      ensures hardware == if config.Accepts(chip) then ModeSet(old(hardware), config.PathOf(chip), chip, mpu) else old(hardware)
    {
      hide Route, Decode, XflowOffset, Sum, InRelay, Reached, Config.CoversConf, Config.ConfOffset, Config.BufferOffset, Config.CoversBuffer, Config.Mode;
      if !config.Accepts(chip) {
        return;
      }
      RegistersDecode(chip);
      RegistersCovered(config, chip);
      Routes(hardware, chip);
      if chip == 0 || config.Mode() != FourBar {
        PokeConf(XflowOffset(chip, true) + CONTROL_REGISTER - config.ConfOffset(), if mpu then 0 else 1);
      } else {
        FourBarCovers(config);
        AimRelay(XflowOffset(chip, true) + CONTROL_REGISTER);
        RelayedAccess(hardware, XflowOffset(chip, true) + CONTROL_REGISTER, 0);
        PokeBuffer(XflowOffset(0, false) - config.BufferOffset(), if mpu then 0 else 1);
      }
    }

    method SetBaseAddress(chip: nat, base: Word)
      requires Valid()
      modifies this
      ensures Valid()
      ensures hardware == if config.Accepts(chip) then BaseSet(old(hardware), config.PathOf(chip), chip, base) else old(hardware)
    {
      hide Route, Decode, XflowOffset, Sum, InRelay, Reached, Config.CoversConf, Config.ConfOffset, Config.BufferOffset, Config.CoversBuffer, Config.Mode;
      if !config.Accepts(chip) {
        return;
      }
      RegistersDecode(chip);
      Routes(hardware, chip);
      if chip == 0 || config.Mode() != FourBar {
        PokeConf(XflowOffset(chip, true) + BASE_REGISTER - config.ConfOffset(), base);
      } else {
        FourBarCovers(config);
        AimRelay(XflowOffset(chip, true) + BASE_REGISTER);
        RelayedAccess(hardware, XflowOffset(chip, true) + BASE_REGISTER, 0);
        PokeBuffer(XflowOffset(0, false) - config.BufferOffset(), base);
      }
    }

    method WriteBuffer(chip: nat, offset: Word, value: Word)
      requires Valid()
      modifies this
      ensures Valid()
      ensures hardware ==
        if config.Accepts(chip) then
          var aimed := WindowAimed(old(hardware), config.PathOf(chip), chip);
          StoreAt(aimed, DataTarget(aimed, config.PathOf(chip), config.CoversData(chip, offset), chip, offset), value)
        else old(hardware)
    {
      hide Route, Decode, XflowOffset, Reached, Fetch, Config.CoversConf, Config.BufferOffset, Config.CoversBuffer, Config.Mode;
      if !config.Accepts(chip) {
        return;
      }
      if chip == 0 || config.Mode() != FourBar {
        PokeBuffer(XflowOffset(chip, false) + offset - config.BufferOffset(), value);
      } else {
        AimRelay(XflowOffset(chip, false));
        PokeBuffer(XflowOffset(0, false) + offset - config.BufferOffset(), value);
      }
    }

    method ReadBuffer(chip: nat, offset: Word) returns (value: Word)
      requires Valid()
      modifies this
      ensures Valid()
      ensures hardware == if config.Accepts(chip) then WindowAimed(old(hardware), config.PathOf(chip), chip) else old(hardware)
      ensures value ==
        if config.Accepts(chip) then LoadAt(hardware, DataTarget(hardware, config.PathOf(chip), config.CoversData(chip, offset), chip, offset))
        else 0
    {
      hide Route, Decode, XflowOffset, Reached, Fetch, Config.CoversConf, Config.BufferOffset, Config.CoversBuffer, Config.Mode;
      if !config.Accepts(chip) {
        return 0;
      }
      if chip == 0 || config.Mode() != FourBar {
        value := PeekBuffer(XflowOffset(chip, false) + offset - config.BufferOffset());
      } else {
        AimRelay(XflowOffset(chip, false));
        value := PeekBuffer(XflowOffset(0, false) + offset - config.BufferOffset());
      }
    }

    /** memx_xflow_write. */
    method Write(chip: nat, base: Word, offset: Word, value: Word, mpu: bool)
      requires Valid()
      modifies this
      ensures Valid()
      ensures hardware ==
        if config.Accepts(chip) then
          Written(old(hardware), config.PathOf(chip), config.CoversData(chip, offset), chip, base, offset, value, mpu)
        else old(hardware)
      ensures config.Accepts(chip) && InReach(config, chip, base, offset, mpu) ==>
        var was := old(hardware);
        hardware == Settled(was.(memory := was.memory[Aim(chip, base, offset, mpu) := value]), config.PathOf(chip), chip, base, mpu)
      ensures Served(config, chip, offset) && !Relays(chip, base, offset, mpu) ==>
        hardware.memory == old(hardware).memory[Location(chip, mpu, (base + offset) % 0x1_0000_0000) := value]
      ensures Dropped(config, chip) ==> hardware == old(hardware)
    {
      ServedCall(hardware, config, chip, base, offset, value, mpu);
      if !config.Accepts(chip) {
        return;
      }
      hide Route, Decode, XflowOffset, InRelay, ModeSet, BaseSet, WindowAimed, StoreAt, LoadAt, DataTarget, Settled, ReadValue, Inside, Aim,
           Config.CoversConf, Config.CoversData, Config.Mode, Config.Valid;
      IndirectNotZero(config, chip);
      if InReach(config, chip, base, offset, mpu) {
        WriteComposes(hardware, config.PathOf(chip), config.CoversData(chip, offset), chip, base, offset, value, mpu);
      }
      SetAccessMode(chip, mpu);
      SetBaseAddress(chip, base);
      WriteBuffer(chip, offset, value);
      if !mpu {
        SetAccessMode(chip, true);
      }
      if config.Mode() == FourBar && chip > 0 {
        ChipZeroToo(config, chip);
        SetAccessMode(0, true);
      }
    }

    /** memx_xflow_read. */
    method Read(chip: nat, base: Word, offset: Word, mpu: bool) returns (value: Word)
      requires Valid()
      modifies this
      ensures Valid()
      ensures hardware == if config.Accepts(chip) then Settled(old(hardware), config.PathOf(chip), chip, base, mpu) else old(hardware)
      ensures value ==
        if config.Accepts(chip) then ReadValue(old(hardware), config.PathOf(chip), config.CoversData(chip, offset), chip, base, offset, mpu)
        else 0
      ensures config.Accepts(chip) && InReach(config, chip, base, offset, mpu) ==>
        value == Fetch(old(hardware).memory, Aim(chip, base, offset, mpu))
      ensures Served(config, chip, offset) && !Relays(chip, base, offset, mpu) ==>
        value == Fetch(old(hardware).memory, Location(chip, mpu, (base + offset) % 0x1_0000_0000))
      ensures Dropped(config, chip) ==> value == 0 && hardware == old(hardware)
    {
      ServedCall(hardware, config, chip, base, offset, 0, mpu);
      if !config.Accepts(chip) {
        return 0;
      }
      hide Route, Decode, XflowOffset, InRelay, ModeSet, BaseSet, WindowAimed, StoreAt, LoadAt, DataTarget, Settled, Written, Inside, Aim,
           Config.CoversConf, Config.CoversData, Config.Mode, Config.Valid;
      IndirectNotZero(config, chip);
      if InReach(config, chip, base, offset, mpu) {
        ReadComposes(hardware, config.PathOf(chip), config.CoversData(chip, offset), chip, base, offset, mpu);
      }
      StepsSettle(hardware, config.PathOf(chip), chip, base, mpu);
      SetAccessMode(chip, mpu);
      SetBaseAddress(chip, base);
      value := ReadBuffer(chip, offset);
      if !mpu {
        SetAccessMode(chip, true);
      }
      if config.Mode() == FourBar && chip > 0 {
        ChipZeroToo(config, chip);
        SetAccessMode(0, true);
      }
    }

    /** Any history of calls, for which the runs above stand. */
    method Perform(calls: seq<Call>) returns (values: seq<Word>)
      requires Valid()
      modifies this
      ensures Valid()
      ensures (hardware, values) == Execute(old(hardware), config, calls)
    {
      hide Config.CoversConf, Config.CoversData, Config.Mode, Config.Valid, Config.Accepts, Written, Settled, ReadValue;
      values := [];
      for i := 0 to |calls|
        invariant Valid()
        invariant (hardware, values) == Execute(old(hardware), config, calls[..i])
      {
        assert calls[..i + 1][..i] == calls[..i];
        var value: Word := 0;
        match calls[i] {
          case Write(c, b, o, v, m) => Write(c, b, o, v, m);
          case Read(c, b, o, m) => value := Read(c, b, o, m);
        }
        values := values + [value];
      }
      assert calls[..|calls|] == calls;
    }
  }

  /** In 4-BAR mode chip 0 is accepted with every other chip, and is reached directly. */
  lemma ChipZeroToo(config: Config, chip: nat)
    requires config.Valid() && config.Mode() == FourBar && config.Accepts(chip)
    ensures config.Accepts(0) && config.PathOf(0) == Direct
  {
    FourBarCovers(config);
  }
}
