/** Whole runs of the emulated EEPROM: any commands, power cut anywhere, recovered at the next power-up. */
module FlashRuns {
  import opened Arith
  import opened Banks
  import opened Bytes
  import opened CacheWindow
  import opened DirtyMaps
  import opened Discipline
  import opened FlashBoot
  import opened FlashEeprom
  import opened FlashFormat
  import opened FlashPorts
  import opened Lines
  import opened TornErases

  datatype Command =
    | Put(addr: nat, data: seq<Byte>)
    | Wipe(addr: nat, size: nat)
    | Get(addr: nat, size: nat)
    | Flush
    | Remount

  /** How one command of a run ended. */
  datatype Event =
    | Done(command: Command, bytes: seq<Byte>)
    | Refused(command: Command)
    | Lost(command: Command)

  predicate InBounds(size: nat, addr: nat, n: nat) {
    0 < n && addr < size && n <= size - addr
  }

  predicate Accepts(size: nat, command: Command) {
    match command
    case Put(addr, data) => InBounds(size, addr, |data|)
    case Wipe(addr, n) => InBounds(size, addr, n)
    case Get(addr, n) => InBounds(size, addr, n)
    case _ => true
  }

  /** A plain byte array executing the command. */
  function Apply(command: Command, img: seq<Byte>): (r: seq<Byte>)
    requires Accepts(|img|, command)
    ensures |r| == |img|
  {
    match command
    case Put(addr, data) => Splice(img, addr, data)
    case Wipe(addr, n) => Splice(img, addr, Blank(n))
    case _ => img
  }

  /** What a plain byte array answers to the command. */
  function Answer(command: Command, img: seq<Byte>): seq<Byte>
    requires Accepts(|img|, command)
  {
    match command
    case Get(addr, n) => img[addr..addr + n]
    case _ => []
  }

  /** Allowed effect of one event: acknowledged means done in full, refused means out of range and no effect,
      lost means every line is as before or as if the command had completed, provided a cut erase is `safe`. */
  ghost predicate Step(ls: nat, count: nat, safe: bool, before: seq<Byte>, e: Event, after: seq<Byte>) {
    && IsImage(ls, count, before) && IsImage(ls, count, after)
    && match e
       case Done(c, bytes) => Accepts(|before|, c) && after == Apply(c, before) && bytes == Answer(c, before)
       case Refused(c) => !Accepts(|before|, c) && after == before
       case Lost(c) =>
         safe ==> LinesFrom(ls, count, after, if Accepts(|before|, c) then {before, Apply(c, before)} else {before})
  }

  /** A run seen from outside: `images[i]` is what the flash stores before event `i`. Unless the run is `whole`, a
      bank erase was cut unsafely inside its last event. */
  ghost predicate Explains(ls: nat, count: nat, whole: bool, images: seq<seq<Byte>>, events: seq<Event>) {
    && |images| == |events| + 1
    && (forall i :: 0 <= i < |images| ==> IsImage(ls, count, images[i]))
    && forall i :: 0 <= i < |events| ==> Explained(ls, count, whole, images, events, i)
  }

  ghost predicate Explained(ls: nat, count: nat, whole: bool, images: seq<seq<Byte>>, events: seq<Event>, i: nat)
    requires i < |events| < |images|
  {
    Step(ls, count, whole || i < |events| - 1, images[i], events[i], images[i + 1])
  }

  lemma ExplainsNext(ls: nat, count: nat, images: seq<seq<Byte>>, events: seq<Event>, whole: bool, e: Event,
                     after: seq<Byte>)
    requires Explains(ls, count, true, images, events) && IsImage(ls, count, after)
    requires Step(ls, count, whole, images[|events|], e, after)
    ensures Explains(ls, count, whole, images + [after], events + [e])
  {
    hide Step;
    var images', events' := images + [after], events + [e];
    forall i | 0 <= i < |events'|
      ensures Explained(ls, count, whole, images', events', i)
    {
      if i < |events| {
        assert Explained(ls, count, true, images, events, i);
      }
    }
  }

  /** An upper bound on the bank switches one command can cause. */
  function Switches(command: Command): nat {
    match command
    case Put(_, data) => |data| + 1
    case Wipe(_, n) => n + 1
    case _ => 1
  }

  /** The record slots one command takes: one for each line it addresses. */
  function Records(ls: nat, size: nat, command: Command): nat
    requires ls > 0
  {
    if !Accepts(size, command) then 0
    else match command
      case Put(addr, data) => LinesTouched(ls, addr, |data|)
      case Wipe(addr, n) => LinesTouched(ls, addr, n)
      case _ => 0
  }

  function TotalRecords(ls: nat, size: nat, commands: seq<Command>): nat
    requires ls > 0
  {
    if |commands| == 0 then 0
    else TotalRecords(ls, size, commands[..|commands| - 1]) + Records(ls, size, commands[|commands| - 1])
  }

  /** Where the append log of a device stands. */
  datatype Level = Level(powered: bool, log: seq<FlashOp>, base: nat, seqNo: nat, used: nat)

  ghost function LevelOf(dev: FlashEe): Level
    reads dev, dev.port
  {
    Level(dev.port.powered, dev.port.log, dev.activeBase, dev.activeSeq, dev.used)
  }

  /** Flash was only programmed; with power the same bank is active, with `n` more slots written. */
  ghost predicate Appending(a: Level, b: Level, n: nat) {
    && OnlyPrograms(a.log, b.log)
    && (b.powered ==> b.base == a.base && b.seqNo == a.seqNo && b.used == a.used + n)
  }

  /** Without a loss `total` lines take `total` slots, and nothing is erased while a bank of `slots` slots affords
      them. */
  ghost predicate Thrifty(a: Level, b: Level, slots: nat, lossless: bool, total: nat) {
    a.powered && lossless ==> b.powered && (a.used + total <= slots ==> Appending(a, b, total))
  }

  lemma ThriftyNext(a: Level, b: Level, c: Level, slots: nat, lossless: bool, lost: bool, total: nat, n: nat)
    requires Thrifty(a, b, slots, lossless, total) && (c.powered <==> !lost)
    requires b.powered && b.used + n <= slots ==> Appending(b, c, n)
    ensures Thrifty(a, c, slots, lossless && !lost, total + n)
  {
  }

  lemma {:induction false} TotalNext(ls: nat, size: nat, commands: seq<Command>, n: nat)
    requires ls > 0 && n < |commands|
    ensures TotalRecords(ls, size, commands[..n + 1]) ==
      TotalRecords(ls, size, commands[..n]) + Records(ls, size, commands[n])
  {
    assert commands[..n + 1][..n] == commands[..n];
  }

  predicate Lossless(events: seq<Event>) {
    forall i :: 0 <= i < |events| ==> !events[i].Lost?
  }

  /** Cutting a bank erase of this device is harmless. */
  predicate Safe(dev: FlashEe)
    reads dev`geo
  {
    SafeUnit(dev.geo.eraseSize, dev.port.factory)
  }

  /** Not powerless with a bank erase cut unsafely. */
  predicate Whole(dev: FlashEe)
    reads dev`geo, dev.port
  {
    dev.port.powered || dev.Intact()
  }

  /** Mounted or not: the next power-up recovers exactly the stored image while the device is whole. */
  ghost predicate Recoverable(dev: FlashEe)
    reads dev, dev.port
  {
    dev.Derived() && dev.Fits() && (Whole(dev) ==> Sound(dev.geo, dev.port.cells))
  }

  /** Mounted, powered, and everything acknowledged so far is stored. */
  ghost predicate Up(dev: FlashEe)
    reads dev, dev.port, dev.cache, dev.dirty.bits
  {
    Recoverable(dev) && dev.Valid() && dev.Live() == dev.Durable() && dev.Clean()
  }

  lemma ValidIsRecoverable(dev: FlashEe)
    requires dev.Derived() && dev.Valid()
    ensures Recoverable(dev)
  {
    hide Multiple, View, ProbeHeader, EncodeHeader, Views, Active, Off, Sound;
    ActiveSound(dev.geo, dev.port.cells, dev.activeBase, dev.activeSeq, dev.used);
  }

  /** Unmounts and mounts again. */
  method DoRemount(dev: FlashEe) returns (status: Status)
    requires Up(dev) && dev.activeSeq < 0xFFFF_FFFF
    modifies dev, dev.port, dev.cache, dev.dirty.bits
    ensures dev.port.Grown()
    ensures dev.geo == old(dev.geo) && Recoverable(dev)
    ensures Whole(dev) ==> dev.Durable() == old(dev.Durable())
    ensures dev.port.powered ==> status == Success && Up(dev)
    ensures Appending(old(LevelOf(dev)), LevelOf(dev), 0)
  {
    hide Multiple, View, ProbeHeader, EncodeHeader, Views, Active, Off, ShownLine, Times, Stored, Sound, Overlaid,
      LineOf, Bit, ValidateGeometry, Boot, Formatted;
    ghost var img := dev.Durable();
    var refuses: bool := *;
    status := dev.Deinit(refuses);
    if !dev.port.powered {
      if dev.Intact() {
        LinesFromOne(dev.cfg.lineSize, dev.geo.lineCount, dev.Durable(), {img, img}, img);
      }
      return;
    }
    ActiveSound(dev.geo, dev.port.cells, dev.activeBase, dev.activeSeq, dev.used);
    ActiveBoots(dev.geo, dev.port.cells, dev.activeBase, dev.activeSeq, dev.used);
    status := dev.Init();
  }

  lemma LostStep(ls: nat, count: nat, safe: bool, before: seq<Byte>, c: Command, after: seq<Byte>,
                 sources: set<seq<Byte>>)
    requires IsImage(ls, count, before) && IsImage(ls, count, after)
    requires safe ==> LinesFrom(ls, count, after, sources)
    requires forall s :: s in sources ==> s == before || (Accepts(|before|, c) && s == Apply(c, before))
    ensures Step(ls, count, safe, before, Lost(c), after)
  {
    hide LineOf;
    var targets := if Accepts(|before|, c) then {before, Apply(c, before)} else {before};
    if safe {
      forall i | 0 <= i < count
        ensures LineIn(ls, count, after, targets, i)
      {
        assert LineIn(ls, count, after, sources, i);
      }
    }
  }

  /** Executes one command on a device that is up. */
  method Execute(dev: FlashEe, command: Command) returns (event: Event)
    requires Up(dev) && dev.activeSeq + Switches(command) < 0xFFFF_FFFF
    modifies dev, dev.port, dev.cache, dev.dirty.bits
    ensures dev.port.Grown()
    ensures dev.geo == old(dev.geo) && Recoverable(dev)
    ensures event.command == command
    ensures Step(dev.cfg.lineSize, dev.geo.lineCount, Whole(dev), old(dev.Durable()), event, dev.Durable())
    ensures event.Lost? <==> !dev.port.powered
    ensures dev.port.powered ==> Up(dev)
    ensures old(dev.used) + Records(dev.cfg.lineSize, dev.cfg.logicalSize, command) <= dev.geo.maxRecords ==>
      Appending(old(LevelOf(dev)), LevelOf(dev), Records(dev.cfg.lineSize, dev.cfg.logicalSize, command))
  {
    hide Multiple, View, ProbeHeader, EncodeHeader, Views, Active, Off, ShownLine, Times, Stored, Sound, Overlaid,
      LineOf, Bit, LinesFrom, ValidateGeometry, LinesTouched, FilledLines, Splice, Orderly, TopsErased, History,
      FlashEe.CleanLinesShown, FlashEe.WindowPlaced;
    ghost var before := dev.Durable();
    var status, bytes := Success, [];
    match command {
      case Put(addr, data) =>
        status := dev.Write(addr, data);
        assert Accepts(|before|, command) ==>
          {before, before, Apply(command, before)} == {before, Apply(command, before)};
      case Wipe(addr, n) =>
        status := dev.Erase(addr, n);
        assert Accepts(|before|, command) ==>
          {before, before, Apply(command, before)} == {before, Apply(command, before)};
      case Get(addr, n) => status, bytes := dev.Read(addr, n);
      case Flush => status := dev.Sync();
      case Remount => status := DoRemount(dev);
    }
    ghost var after := dev.Durable();
    if dev.port.powered {
      ValidIsRecoverable(dev);
      event := if status == Success then Done(command, bytes) else Refused(command);
    } else {
      ghost var sources := if Accepts(|before|, command) then {before, Apply(command, before)} else {before};
      LinesFromSelf(dev.cfg.lineSize, dev.geo.lineCount, before, sources);
      LostStep(dev.cfg.lineSize, dev.geo.lineCount, Whole(dev), before, command, after, sources);
      event := Lost(command);
    }
  }

  /** One turn of a run: power comes back if it was gone, the store is mounted, the command is issued.
      A device whose sequence numbers are about to run out stops taking commands. */
  method Turn(dev: FlashEe, command: Command) returns (worn: bool, event: Event)
    requires Recoverable(dev) && Whole(dev) && (dev.port.powered ==> Up(dev))
    modifies dev, dev.port, dev.cache, dev.dirty.bits
    ensures dev.port.Grown()
    ensures dev.geo == old(dev.geo) && Recoverable(dev) && (dev.port.powered ==> Up(dev))
    ensures worn ==>
      dev.port.powered && dev.activeSeq + Switches(command) >= 0xFFFF_FFFF && dev.Durable() == old(dev.Durable())
    ensures !worn ==> event.command == command && (event.Lost? <==> !dev.port.powered)
    ensures old(dev.port.powered) && worn ==>
      dev.port.powered && Appending(old(LevelOf(dev)), LevelOf(dev), 0)
    ensures (old(dev.port.powered) && !worn &&
             old(dev.used) + Records(dev.cfg.lineSize, dev.cfg.logicalSize, command) <= dev.geo.maxRecords) ==>
        Appending(old(LevelOf(dev)), LevelOf(dev), Records(dev.cfg.lineSize, dev.cfg.logicalSize, command))
    ensures !worn ==> Step(dev.cfg.lineSize, dev.geo.lineCount, Whole(dev), old(dev.Durable()), event, dev.Durable())
  {
    hide Multiple, View, ProbeHeader, EncodeHeader, Views, Active, Off, ShownLine, Times, Stored, Sound, Overlaid,
      LineOf, Bit, LinesFrom, ValidateGeometry, Step, Records, FilledLines, FlashEe.CleanLinesShown,
      FlashEe.WindowPlaced;
    ghost var before := dev.Durable();
    worn, event := false, Lost(command);
    if !dev.port.powered {
      var _ := dev.Reboot();
      if !dev.port.powered {
        LinesFromSelf(dev.cfg.lineSize, dev.geo.lineCount, before, {before});
        LostStep(dev.cfg.lineSize, dev.geo.lineCount, Whole(dev), before, command, dev.Durable(), {before});
        return;
      }
    }
    if dev.activeSeq + Switches(command) >= 0xFFFF_FFFF {
      worn := true;
      return;
    }
    event := Execute(dev, command);
  }

  /** A device and the bounds its runs are measured by. */
  datatype Frame = Frame(lineSize: nat, lineCount: nat, size: nat, slots: nat)

  ghost function FrameOf(dev: FlashEe): Frame
    reads dev`geo
  {
    Frame(dev.cfg.lineSize, dev.geo.lineCount, dev.cfg.logicalSize, dev.geo.maxRecords)
  }

  /** A run so far: it executed the first commands by allowed steps and without waste. */
  ghost predicate Ran(f: Frame, commands: seq<Command>, a: Level, b: Level, whole: bool, images: seq<seq<Byte>>,
                      events: seq<Event>) {
    && f.lineSize > 0
    && Explains(f.lineSize, f.lineCount, whole, images, events)
    && |events| <= |commands| && (forall i :: 0 <= i < |events| ==> events[i].command == commands[i])
    && Thrifty(a, b, f.slots, Lossless(events), TotalRecords(f.lineSize, f.size, commands[..|events|]))
  }

  lemma RanNothing(f: Frame, commands: seq<Command>, a: Level, whole: bool, image: seq<Byte>)
    requires f.lineSize > 0 && IsImage(f.lineSize, f.lineCount, image)
    ensures Ran(f, commands, a, a, whole, [image], [])
  {
  }

  lemma RanIdle(f: Frame, commands: seq<Command>, a: Level, b: Level, c: Level, images: seq<seq<Byte>>,
                events: seq<Event>)
    requires Ran(f, commands, a, b, true, images, events) && c.powered && (b.powered ==> Appending(b, c, 0))
    ensures Ran(f, commands, a, c, true, images, events)
  {
    hide Explains;
    ThriftyNext(a, b, c, f.slots, Lossless(events), false, TotalRecords(f.lineSize, f.size, commands[..|events|]), 0);
  }

  lemma RanNext(f: Frame, commands: seq<Command>, a: Level, b: Level, c: Level, images: seq<seq<Byte>>,
                events: seq<Event>, whole: bool, event: Event, after: seq<Byte>)
    requires Ran(f, commands, a, b, true, images, events) && |events| < |commands|
    requires event.command == commands[|events|] && (event.Lost? <==> !c.powered)
    requires IsImage(f.lineSize, f.lineCount, after)
    requires Step(f.lineSize, f.lineCount, whole, images[|events|], event, after)
    requires var n := Records(f.lineSize, f.size, commands[|events|]);
      b.powered && b.used + n <= f.slots ==> Appending(b, c, n)
    ensures Ran(f, commands, a, c, whole, images + [after], events + [event])
  {
    hide Step, Records, Thrifty;
    ExplainsNext(f.lineSize, f.lineCount, images, events, whole, event, after);
    hide Explains;
    var total := TotalRecords(f.lineSize, f.size, commands[..|events|]);
    var n := Records(f.lineSize, f.size, commands[|events|]);
    TotalNext(f.lineSize, f.size, commands, |events|);
    ThriftyNext(a, b, c, f.slots, Lossless(events), event.Lost?, total, n);
    var all := events + [event];
    assert all[|events|] == event && forall i :: 0 <= i < |events| ==> all[i] == events[i];
  }

  /** Any run, power cut anywhere: the stored image moves exactly by allowed steps, and no program or erase touches a
      record of the active bank. Only a bank erase cut unsafely ends the run, with the event it was cut in. Without a
      loss every line written takes one slot, and banks switch only when the slots run out. */
  method Run(dev: FlashEe, commands: seq<Command>) returns (events: seq<Event>, ghost images: seq<seq<Byte>>)
    requires Recoverable(dev) && (dev.port.powered ==> Up(dev))
    modifies dev, dev.port, dev.cache, dev.dirty.bits
    ensures dev.port.Grown()
    ensures dev.geo == old(dev.geo) && Recoverable(dev) && (dev.port.powered ==> Up(dev))
    ensures Orderly(dev.geo, dev.port.log) && History(dev.geo.eraseSize, dev.port.log, dev.port.states)
    ensures |old(dev.port.states)| == |old(dev.port.log)| + 1
    ensures dev.port.states[|old(dev.port.log)|] == old(dev.port.cells)
    ensures dev.port.states[|dev.port.log|] == dev.port.cells
    ensures Ran(FrameOf(dev), commands, old(LevelOf(dev)), LevelOf(dev), Whole(dev), images, events)
    ensures images[0] == old(dev.Durable()) && images[|events|] == dev.Durable()
    ensures Whole(dev) || |events| > 0 ==> old(Whole(dev))
    ensures |events| < |commands| && Whole(dev) ==>
      dev.activeSeq + Switches(commands[|events|]) >= 0xFFFF_FFFF
  {
    hide Multiple, View, ProbeHeader, EncodeHeader, Views, Active, Off, ShownLine, Times, Stored, Sound, Overlaid,
      LineOf, Bit, LinesFrom, ValidateGeometry, Step, Records, FilledLines, FlashEe.CleanLinesShown,
      FlashEe.WindowPlaced, Appending;
    events, images := [], [dev.Durable()];
    RanNothing(FrameOf(dev), commands, LevelOf(dev), Whole(dev), dev.Durable());
    while |events| < |commands| && Whole(dev)
      invariant dev.geo == old(dev.geo) && Recoverable(dev) && (dev.port.powered ==> Up(dev))
      invariant |images| == |events| + 1 && |events| <= |commands|
      invariant Ran(FrameOf(dev), commands, old(LevelOf(dev)), LevelOf(dev), Whole(dev), images, events)
      invariant images[0] == old(dev.Durable()) && images[|events|] == dev.Durable()
      invariant if |events| == 0 then Whole(dev) == old(Whole(dev)) else old(Whole(dev))
      invariant dev.port.Grown()
      modifies dev, dev.port, dev.cache, dev.dirty.bits
    {
      hide Ran;
      ghost var was := LevelOf(dev);
      var worn, event := Turn(dev, commands[|events|]);
      ghost var now := LevelOf(dev);
      if worn {
        RanIdle(FrameOf(dev), commands, old(LevelOf(dev)), was, now, images, events);
        return;
      }
      RanNext(FrameOf(dev), commands, old(LevelOf(dev)), was, now, images, events, Whole(dev), event, dev.Durable());
      events, images := events + [event], images + [dev.Durable()];
    }
  }

  /** A device from the factory: erased flash stores an erased image. */
  lemma ErasedFlash(g: Geo, cells: seq<Byte>)
    requires IsFlash(g, cells) && IsErased(cells)
    ensures Sound(g, cells) && Stored(g, cells) == Blank(g.cfg.logicalSize)
  {
    hide Multiple, View, BankImage;
    forall base | base in {0, g.bankSize}
      ensures !HeaderOk(g, BankAt(g, cells, base))
    {
      InactiveHeaderRejected(g, Header(g, BankAt(g, cells, base)));
    }
    UnformattedBoots(g, cells);
  }

  /** The whole life of a device, from its first power-up. */
  method Lifetime(cfg: Config, port: FlashPort, commands: seq<Command>)
    returns (dev: FlashEe, events: seq<Event>, ghost images: seq<seq<Byte>>)
    requires port.Valid()
    requires var r := ValidateGeometry(cfg, port.regionSize, port.eraseSize, port.programSize);
      && r.Ok? && r.value.Valid() && Sound(r.value, port.cells) && Orderly(r.value, port.log)
      && (port.factory ==> TopsErased(r.value, port.cells))
    modifies port
    ensures port.Grown()
    ensures fresh({dev, dev.cache, dev.dirty.bits}) && dev.cfg == cfg && dev.port == port
    ensures Recoverable(dev) && (dev.port.powered ==> Up(dev))
    ensures Explains(cfg.lineSize, dev.geo.lineCount, Whole(dev), images, events)
    ensures SafeUnit(port.eraseSize, port.factory) ==> Whole(dev)
    ensures Whole(dev) || |events| > 0 ==>
      && images[0] == Stored(dev.geo, old(port.cells))
      && (IsErased(old(port.cells)) ==> images[0] == Blank(cfg.logicalSize))
    ensures images[|events|] == dev.Durable()
    ensures |events| <= |commands| && forall i :: 0 <= i < |events| ==> events[i].command == commands[i]
  {
    hide Multiple, View, ProbeHeader, EncodeHeader, Views, Active, Off, ShownLine, Times, Stored, Sound, Overlaid,
      LineOf, Bit, LinesFrom, ValidateGeometry, Step, Boot, Formatted;
    ghost var cells := port.cells;
    GeometryShape(cfg, port.regionSize, port.eraseSize, port.programSize);
    dev := new FlashEe(cfg, port);
    dev.PowerCycle();
    var _ := dev.Init();
    if IsErased(cells) {
      ErasedFlash(dev.geo, cells);
    }
    events, images := Run(dev, commands);
  }

  /** A factory-fresh device with the default configuration on a 64 KiB region of 4 KiB sectors. */
  method FactoryRun(crc16: (U16, seq<Byte>) -> U16, commands: seq<Command>)
    returns (dev: FlashEe, events: seq<Event>, ghost images: seq<seq<Byte>>)
    ensures fresh({dev, dev.port, dev.cache, dev.dirty.bits})
    ensures Recoverable(dev) && Safe(dev) && (dev.port.powered ==> Up(dev))
    ensures dev.cfg.lineSize == 32 && dev.geo.lineCount == 128
    ensures Explains(32, 128, true, images, events)
    ensures images[0] == Blank(4096) && images[|events|] == dev.Durable()
    ensures |events| <= |commands| && forall i :: 0 <= i < |events| ==> events[i].command == commands[i]
  {
    hide Multiple, View, ProbeHeader, EncodeHeader, Views, Active, Stored, Sound, ValidateGeometry, Step, Times, Bit,
      LineOf;
    DefaultGeometry(crc16);
    var cells := Blank(0x1_0000);
    var port := new FlashPort(0x1_0000, 4096, 8, cells);
    ErasedFlash(Geo(DefaultConfig(crc16), 4096, 8, 0x8000, 128, 48, 56, 584), cells);
    ErasedTops(Geo(DefaultConfig(crc16), 4096, 8, 0x8000, 128, 48, 56, 584), cells);
    dev, events, images := Lifetime(DefaultConfig(crc16), port, commands);
  }

  // ----- What every run guarantees

  /** Byte `x` may be changed by the command. */
  predicate Touches(command: Command, x: nat) {
    match command
    case Put(addr, data) => addr <= x < addr + |data|
    case Wipe(addr, n) => addr <= x < addr + n
    case _ => false
  }

  /** An event leaves every byte alone that its command does not address, even when power is cut inside it. */
  lemma StepKeeps(ls: nat, count: nat, safe: bool, before: seq<Byte>, e: Event, after: seq<Byte>, x: nat)
    requires Step(ls, count, safe, before, e, after) && ls > 0 && x < |before| && !Touches(e.command, x)
    requires safe || !e.Lost?
    ensures |after| == |before| && after[x] == before[x]
  {
    hide LinesFrom, LineOf;
    if e.Lost? {
      var sources := if Accepts(|before|, e.command) then {before, Apply(e.command, before)} else {before};
      var s := ByteFrom(ls, count, after, sources, x);
    }
  }

  /** Durability: a byte keeps its value for as long as no later command addresses it,
      through any number of power cuts, reboots, checkpoints and bank switches. */
  lemma {:induction false} Untouched(ls: nat, count: nat, whole: bool, images: seq<seq<Byte>>, events: seq<Event>,
                                     i: nat, j: nat, x: nat)
    requires Explains(ls, count, whole, images, events) && ls > 0 && i <= j <= |events| && x < LineStart(ls, count)
    requires whole || j < |events|
    requires forall k :: i <= k < j ==> !Touches(events[k].command, x)
    ensures |images[i]| == |images[j]| == LineStart(ls, count)
    ensures images[j][x] == images[i][x]
    decreases j - i
  {
    hide Step;
    if i < j {
      assert Explained(ls, count, whole, images, events, i);
      StepKeeps(ls, count, true, images[i], events[i], images[i + 1], x);
      Untouched(ls, count, whole, images, events, i + 1, j, x);
    }
  }

  /** Acknowledged writes survive: once a write returned success its bytes stay until a later command addresses them. */
  lemma AcknowledgedSurvives(ls: nat, count: nat, whole: bool, images: seq<seq<Byte>>, events: seq<Event>, i: nat,
                             j: nat, x: nat)
    requires Explains(ls, count, whole, images, events) && ls > 0 && i < j <= |events|
    requires events[i].Done? && events[i].command.Put? && Touches(events[i].command, x)
    requires whole || j < |events|
    requires forall k :: i < k < j ==> !Touches(events[k].command, x)
    ensures x < |images[j]| && images[j][x] == events[i].command.data[x - events[i].command.addr]
  {
    assert Explained(ls, count, whole, images, events, i);
    Untouched(ls, count, whole, images, events, i + 1, j, x);
  }

  /** What a plain byte array does with one command, and what it reports. */
  function PlainNext(img: seq<Byte>, c: Command): seq<Byte> {
    if Accepts(|img|, c) then Apply(c, img) else img
  }

  function PlainEvent(img: seq<Byte>, c: Command): Event {
    if Accepts(|img|, c) then Done(c, Answer(c, img)) else Refused(c)
  }

  /** The events a plain byte array produces. */
  function PlainEvents(img: seq<Byte>, commands: seq<Command>): (r: seq<Event>)
    ensures |r| == |commands|
    decreases |commands|
  {
    if |commands| == 0 then []
    else [PlainEvent(img, commands[0])] + PlainEvents(PlainNext(img, commands[0]), commands[1..])
  }

  lemma StepPlain(ls: nat, count: nat, safe: bool, before: seq<Byte>, e: Event, after: seq<Byte>)
    requires Step(ls, count, safe, before, e, after) && !e.Lost?
    ensures e == PlainEvent(before, e.command) && after == PlainNext(before, e.command)
  {
    hide LinesFrom, Splice;
  }

  /** Without a power loss the store is indistinguishable from a plain byte array. */
  lemma {:induction false} FaultFree(ls: nat, count: nat, whole: bool, images: seq<seq<Byte>>, events: seq<Event>,
                                     commands: seq<Command>)
    requires Explains(ls, count, whole, images, events) && |commands| == |events|
    requires forall i :: 0 <= i < |events| ==> events[i].command == commands[i] && !events[i].Lost?
    ensures events == PlainEvents(images[0], commands)
  {
    hide Step, PlainEvent, PlainNext;
    if |events| > 0 {
      assert Explained(ls, count, whole, images, events, 0);
      StepPlain(ls, count, whole || 0 < |events| - 1, images[0], events[0], images[1]);
      forall i | 0 <= i < |events| - 1
        ensures Explained(ls, count, whole, images[1..], events[1..], i)
      {
        assert Explained(ls, count, whole, images, events, i + 1);
      }
      FaultFree(ls, count, whole, images[1..], events[1..], commands[1..]);
      assert events == [events[0]] + events[1..];
    }
  }
}
