/** The storage port of the parameter NVM on top of the flash-emulated EEPROM: a completed write is durable, an
    interrupted one is torn by whole lines. */
module ByteStores {
  import opened Arith
  import opened Banks
  import opened Bytes
  import opened Discipline
  import opened FlashEeprom
  import opened FlashFormat
  import opened FlashPorts
  import opened FlashRuns
  import opened Lines

  /** The device is mounted while powered, and while it is whole it stores `image`. */
  ghost predicate Backed(dev: FlashEe, lineSize: nat, lineCount: nat, safe: bool, image: seq<Byte>, powered: bool)
    reads dev, dev.port, dev.cache, dev.dirty.bits
  {
    && Recoverable(dev) && (safe ==> Safe(dev))
    && dev.port.powered == powered && (powered ==> Up(dev))
    && dev.cfg.lineSize == lineSize && dev.geo.lineCount == lineCount
    && IsImage(lineSize, lineCount, image)
    && (Whole(dev) ==> image == dev.Durable())
  }

  /** Storage backend of the scalar NVM layer. Once power is gone every call fails and no byte changes until the
      next power-up. A device whose sequence numbers are about to run out is switched off, and one that lost power
      inside an unsafe bank erase stays off: it is lost, and `image` is only what it was meant to hold. */
  class ByteStore {
    const dev: FlashEe
    const lineSize: nat
    const lineCount: nat
    const safe: bool  // cutting a bank erase of the device is harmless
    ghost var image: seq<Byte>  // what the next power-up recovers
    var powered: bool

    /** The store and everything below it that changes. */
    ghost function Parts(): set<object> {
      {this, dev, dev.port, dev.cache, dev.dirty.bits}
    }

    /** Power went inside an unsafe bank erase. */
    predicate IsLost()
      reads dev`geo, dev.port
    {
      !Whole(dev)
    }

    ghost predicate Valid()
      reads Parts()
    {
      && lineSize > 0 && lineCount > 0 && IsImage(lineSize, lineCount, image)
      && Backed(dev, lineSize, lineCount, safe, image, powered)
    }

    lemma NeverLost()
      requires Valid() && safe
      ensures !IsLost()
    {
    }

    constructor (dev: FlashEe)
      requires Recoverable(dev) && (dev.port.powered ==> Up(dev))
      ensures Valid() && this.dev == dev && powered == dev.port.powered && image == dev.Durable()
      ensures lineSize == dev.cfg.lineSize && lineCount == dev.geo.lineCount && safe == Safe(dev)
    {
      hide Multiple, View, ProbeHeader, Views, Active, Times, Stored, Sound, LineOf, LinesFrom, ValidateGeometry,
        Orderly, History;
      this.dev, lineSize, lineCount, safe := dev, dev.cfg.lineSize, dev.geo.lineCount, Safe(dev);
      image, powered := dev.Durable(), dev.port.powered;
    }

    /** Power returns and the backend is mounted again; power may be lost once more while that happens, and a lost
        device stays off. */
    method PowerUp()
      requires Valid()
      modifies Parts()
      ensures Valid() && image == old(image)
    {
      hide Multiple, View, ProbeHeader, Views, Active, Times, Stored, Sound, LineOf, LinesFrom, ValidateGeometry,
        Orderly, History;
      if IsLost() {
        return;
      }
      var _ := dev.Reboot();
      powered := dev.port.powered;
    }

    /** Hands one command to the device. */
    method Issue(command: Command) returns (event: Event)
      requires Valid() && Accepts(|image|, command)
      modifies Parts()
      ensures Valid() && (!old(powered) ==> !powered && image == old(image))
      ensures event.Lost? <==> !powered
      ensures powered ==> event == Done(command, Answer(command, old(image))) && image == Apply(command, old(image))
      ensures LinesFrom(lineSize, lineCount, image, {old(image), Apply(command, old(image))})
    {
      hide Multiple, View, ProbeHeader, Views, Active, Times, Stored, Sound, LineOf, LinesFrom, ValidateGeometry,
        Orderly, History, Apply, Answer;
      ghost var before, target := image, Apply(command, image);
      assert IsImage(lineSize, lineCount, target);
      LinesFromSelf(lineSize, lineCount, before, {before, target});
      LinesFromSelf(lineSize, lineCount, target, {before, target});
      event := Lost(command);
      if !powered {
        return;
      }
      if dev.activeSeq + Switches(command) >= 0xFFFF_FFFF {
        SwitchOff();
        return;
      }
      event := Execute(dev, command);
      powered := dev.port.powered;
      if Whole(dev) {
        image := dev.Durable();
      }
    }

    method SwitchOff()
      requires Valid()
      modifies this`powered, dev.port`powered
      ensures Valid() && !powered && image == old(image)
    {
      hide Multiple, View, ProbeHeader, Views, Active, Times, Stored, Sound, LineOf, LinesFrom, ValidateGeometry,
        Orderly, History;
      dev.port.PowerDown();
      powered := false;
    }

    method Read(addr: nat, size: nat) returns (ok: bool, buf: seq<Byte>)
      requires Valid() && 0 < size && addr + size <= |image|
      modifies Parts()
      ensures Valid() && image == old(image)
      ensures ok == powered && (!old(powered) ==> !ok)
      ensures |buf| == size && (ok ==> buf == image[addr..addr + size])
    {
      hide Backed, LinesFrom;
      ghost var before := image;
      var event := Issue(Get(addr, size));
      LinesFromOne(lineSize, lineCount, image, {before, before}, before);
      ok := event.Done?;
      buf := if ok then event.bytes else Blank(size);
    }

    method Write(addr: nat, data: seq<Byte>) returns (ok: bool)
      requires Valid() && 0 < |data| && addr + |data| <= |image|
      modifies Parts()
      ensures Valid() && ok == powered
      ensures !old(powered) ==> !ok && image == old(image)
      ensures ok ==> image == Splice(old(image), addr, data)
      ensures TornUpdate(lineSize, lineCount, old(image), image, addr, data)
    {
      hide Backed, LinesFrom;
      var event := Issue(Put(addr, data));
      ok := event.Done?;
    }

    method Erase(addr: nat, size: nat) returns (ok: bool)
      requires Valid() && 0 < size && addr + size <= |image|
      modifies Parts()
      ensures Valid() && ok == powered
      ensures !old(powered) ==> !ok && image == old(image)
      ensures ok ==> image == Splice(old(image), addr, Blank(size))
      ensures TornUpdate(lineSize, lineCount, old(image), image, addr, Blank(size))
    {
      hide Backed, LinesFrom;
      var event := Issue(Wipe(addr, size));
      ok := event.Done?;
    }

    /** Completed writes are durable already, so a synchronization can only fail by losing power. */
    method Sync() returns (ok: bool)
      requires Valid()
      modifies Parts()
      ensures Valid() && image == old(image)
      ensures ok == powered && (!old(powered) ==> !ok)
    {
      hide Backed, LinesFrom;
      ghost var before := image;
      var event := Issue(Flush);
      LinesFromOne(lineSize, lineCount, image, {before, before}, before);
      ok := event.Done?;
    }
  }

  /** The store of a factory-fresh device: default flash configuration on erased flash. */
  method FactoryStore(crc16: (U16, seq<Byte>) -> U16) returns (store: ByteStore)
    ensures fresh(store.Parts()) && store.Valid() && store.safe && store.lineSize == 32
    ensures store.image == Blank(4096)
  {
    hide Multiple, View, ProbeHeader, Views, Active, Times, Stored, Sound, LineOf, LinesFrom, ValidateGeometry,
      Orderly, History, Explains;
    var dev, _, images := FactoryRun(crc16, []);
    store := new ByteStore(dev);
  }
}
