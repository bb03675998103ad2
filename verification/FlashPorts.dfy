/** The physical flash behind the emulated EEPROM, and what a power cut can leave on it. */
module FlashPorts {
  import opened Arith
  import opened Bytes

  /** Programming can only clear bits: every byte written must survive the AND with its cell. */
  ghost predicate ClearsOnly(cells: seq<Byte>, addr: nat, data: seq<Byte>)
    requires addr + |data| <= |cells|
  {
    forall i :: 0 <= i < |data| ==> And(cells[addr + i], data[i]) == data[i]
  }

  /** The cells after programming the bytes of `data` that `done` selects. */
  function ProgramCells(cells: seq<Byte>, addr: nat, data: seq<Byte>, done: seq<bool>): (r: seq<Byte>)
    requires addr + |data| <= |cells| && |done| == |data|
    ensures |r| == |cells|
    ensures r[..addr] == cells[..addr] && r[addr + |data|..] == cells[addr + |data|..]
    ensures forall i :: 0 <= i < |data| ==>
      r[addr + i] == if done[i] then And(cells[addr + i], data[i]) else cells[addr + i]
  {
    cells[..addr]
    + seq(|data|, i requires 0 <= i < |data| => ProgramCell(cells, addr, data, done, i))
    + cells[addr + |data|..]
  }

  function ProgramCell(cells: seq<Byte>, addr: nat, data: seq<Byte>, done: seq<bool>, i: nat): Byte
    requires addr + |data| <= |cells| && |done| == |data| && i < |data|
  {
    if done[i] then And(cells[addr + i], data[i]) else cells[addr + i]
  }

  /** Outcome of a program call: everything stored, or power lost somewhere on the way. */
  ghost predicate Programmed(ok: bool, before: seq<Byte>, after: seq<Byte>, addr: nat, data: seq<Byte>)
    requires addr + |data| <= |before|
  {
    TornProgram(before, after, addr, data) && (ok ==> after == Splice(before, addr, data))
  }

  /** A full program stores the data; a partial one is torn. */
  lemma ProgramEffect(cells: seq<Byte>, addr: nat, data: seq<Byte>, done: seq<bool>)
    requires addr + |data| <= |cells| && |done| == |data|
    requires ClearsOnly(cells, addr, data)
    ensures TornProgram(cells, ProgramCells(cells, addr, data, done), addr, data)
    ensures (forall i :: 0 <= i < |done| ==> done[i]) ==>
      ProgramCells(cells, addr, data, done) == Splice(cells, addr, data)
  {
    var r := ProgramCells(cells, addr, data, done);
    forall i | addr <= i < addr + |data|
      ensures r[i] == cells[i] || r[i] == data[i - addr]
      ensures done[i - addr] ==> r[i] == data[i - addr]
    {
      assert r[addr + (i - addr)] == ProgramCell(cells, addr, data, done, i - addr);
    }
  }

  /** A power cut during a program: each addressed byte is still the old one or already the new one. */
  ghost predicate TornProgram(before: seq<Byte>, after: seq<Byte>, addr: nat, data: seq<Byte>)
    requires addr + |data| <= |before|
  {
    && |after| == |before|
    && after[..addr] == before[..addr]
    && after[addr + |data|..] == before[addr + |data|..]
    && forall i :: addr <= i < addr + |data| ==> after[i] == before[i] || after[i] == data[i - addr]
  }

  /** An erase that skipped the erase units in `kept` and erased the others. */
  ghost predicate ErasedExcept(before: seq<Byte>, after: seq<Byte>, addr: nat, size: nat, unit: nat, kept: set<int>)
    requires unit > 0 && addr + size <= |before|
  {
    && |after| == |before|
    && after[..addr] == before[..addr]
    && after[addr + size..] == before[addr + size..]
    && forall i :: addr <= i < addr + size ==> after[i] == if i / unit in kept then before[i] else ERASED
  }

  /** A power cut during an erase: each erase unit is wholly erased or wholly untouched. */
  ghost predicate TornErase(before: seq<Byte>, after: seq<Byte>, addr: nat, size: nat, unit: nat)
    requires unit > 0 && addr + size <= |before|
  {
    exists kept :: ErasedExcept(before, after, addr, size, unit, kept)
  }

  /** One program or erase the device carried out, complete or cut, with the cells it met. */
  datatype FlashOp =
    | ProgramOp(before: seq<Byte>, addr: nat, data: seq<Byte>)
    | EraseOp(before: seq<Byte>, addr: nat, size: nat)

  /** The second log continues the first one with programs alone. */
  ghost predicate OnlyPrograms(log: seq<FlashOp>, log': seq<FlashOp>) {
    log <= log' && forall i :: |log| <= i < |log'| ==> log'[i].ProgramOp?
  }

  lemma OnlyProgramsSelf(log: seq<FlashOp>)
    ensures OnlyPrograms(log, log)
  {
  }

  lemma OnlyProgramsTrans(a: seq<FlashOp>, b: seq<FlashOp>, c: seq<FlashOp>)
    requires OnlyPrograms(a, b) && OnlyPrograms(b, c)
    ensures OnlyPrograms(a, c)
  {
  }

  /** What a complete or cut operation can make of the cells. */
  ghost predicate Effect(op: FlashOp, unit: nat, cells': seq<Byte>)
    requires unit > 0
  {
    match op
    case ProgramOp(cells, addr, data) => addr + |data| <= |cells| && TornProgram(cells, cells', addr, data)
    case EraseOp(cells, addr, size) => addr + size <= |cells| && TornErase(cells, cells', addr, size, unit)
  }

  /** `states[i]` are the cells operation `i` met and `states[i + 1]` those it left: the logged operations account for
      every change. */
  ghost predicate History(unit: nat, log: seq<FlashOp>, states: seq<seq<Byte>>)
    requires unit > 0
  {
    && |states| == |log| + 1
    && forall i :: 0 <= i < |log| ==> log[i].before == states[i] && Effect(log[i], unit, states[i + 1])
  }

  lemma HistoryNext(unit: nat, log: seq<FlashOp>, states: seq<seq<Byte>>, op: FlashOp, cells': seq<Byte>)
    requires unit > 0 && History(unit, log, states) && op.before == states[|log|] && Effect(op, unit, cells')
    ensures History(unit, log + [op], states + [cells'])
  {
    hide Effect;
  }

  /** A flash device whose power can disappear inside any program or erase.
      Once power is gone every call fails and no cell changes until the next power-up. */
  class FlashPort {
    const regionSize: nat
    const eraseSize: nat
    const programSize: nat
    const factory: bool  // all cells were erased when the device was made
    var cells: seq<Byte>
    var powered: bool
    var scarred: bool  // power was lost inside some erase
    ghost var log: seq<FlashOp>  // every program and erase so far
    ghost var states: seq<seq<Byte>>  // the cells between them, those of now included

    ghost predicate Valid()
      reads this
    {
      && |cells| == regionSize && eraseSize > 0 && programSize > 0
      && History(eraseSize, log, states) && states[|log|] == cells
    }

    /** Nothing that happened before was forgotten. */
    twostate predicate Grown()
      reads this
    {
      old(log) <= log && old(states) <= states
    }

    constructor (regionSize: nat, eraseSize: nat, programSize: nat, cells: seq<Byte>)
      requires |cells| == regionSize && eraseSize > 0 && programSize > 0
      ensures Valid() && powered && !scarred && this.cells == cells && log == [] && states == [cells]
      ensures this.regionSize == regionSize && this.eraseSize == eraseSize && this.programSize == programSize
      ensures factory == IsErased(cells)
    {
      this.regionSize, this.eraseSize, this.programSize := regionSize, eraseSize, programSize;
      this.cells, powered, scarred, factory, log, states := cells, true, false, IsErased(cells), [], [cells];
    }

    method PowerUp()
      modifies this`powered
      ensures powered
    {
      powered := true;
    }

    method PowerDown()
      modifies this`powered
      ensures !powered
    {
      powered := false;
    }

    /** Shuts the port down; it may refuse and stay as it is, which is for the environment to decide. */
    method Deinit(refuses: bool) returns (ok: bool)
      ensures ok == !refuses
    {
      ok := !refuses;
    }

    /** Reads bytes; power may be lost before the read completes. */
    method Read(addr: nat, size: nat) returns (ok: bool, buf: seq<Byte>)
      requires Valid()
      requires addr + size <= regionSize
      modifies this`powered
      ensures !old(powered) ==> !ok
      ensures ok == powered
      ensures |buf| == size
      ensures ok ==> buf == cells[addr..addr + size]
    {
      if * {
        powered := false;
      }
      if powered {
        return true, cells[addr..addr + size];
      }
      return false, Blank(size);
    }

    /** Programs whole program units; the preconditions are the discipline flash demands. */
    method Program(addr: nat, data: seq<Byte>) returns (ok: bool)
      requires Valid()
      requires Multiple(addr, programSize) && Multiple(|data|, programSize)
      requires addr + |data| <= regionSize
      requires ClearsOnly(cells, addr, data)
      modifies this`cells, this`powered, this`log, this`states
      ensures Valid()
      ensures !old(powered) ==> !ok && cells == old(cells)
      ensures ok == powered
      ensures Programmed(ok, old(cells), cells, addr, data)
      ensures log == old(log) + if old(powered) then [ProgramOp(old(cells), addr, data)] else []
      ensures states == old(states) + if old(powered) then [cells] else []
    {
      if !powered {
        assert log + [] == log && states + [] == states;
        return false;
      }
      ghost var op, past := ProgramOp(cells, addr, data), log;
      log := log + [op];
      var done := seq(|data|, _ => true);
      ok := true;
      if * {
        // Power is lost: an arbitrary subset of the bytes made it into the cells.
        var survivors: set<int> := *;
        done := seq(|data|, i => i in survivors);
        ok, powered := false, false;
      }
      ProgramEffect(cells, addr, data, done);
      cells := ProgramCells(cells, addr, data, done);
      HistoryNext(eraseSize, past, states, op, cells);
      states := states + [cells];
    }

    /** Erases whole erase units. */
    method Erase(addr: nat, size: nat) returns (ok: bool)
      requires Valid()
      requires Multiple(addr, eraseSize) && Multiple(size, eraseSize)
      requires addr + size <= regionSize
      modifies this
      ensures Valid()
      ensures !old(powered) ==> !ok && cells == old(cells)
      ensures ok == powered
      ensures ok ==> cells == Splice(old(cells), addr, Blank(size))
      ensures !ok ==> TornErase(old(cells), cells, addr, size, eraseSize)
      ensures scarred == (old(scarred) || (old(powered) && !ok))
      ensures log == old(log) + if old(powered) then [EraseOp(old(cells), addr, size)] else []
      ensures states == old(states) + if old(powered) then [cells] else []
    {
      if !powered {
        assert log + [] == log && states + [] == states;
        assert ErasedExcept(cells, cells, addr, size, eraseSize, set i | addr <= i < addr + size :: i / eraseSize);
        return false;
      }
      ghost var op, past := EraseOp(cells, addr, size), log;
      log := log + [op];
      ok := true;
      var kept: set<int> := {};
      if * {
        // Power is lost: an arbitrary subset of the units survived.
        kept := *;
        ok, powered, scarred := false, false, true;
      }
      var was, unit := cells, eraseSize;
      cells := seq(|was|, i requires 0 <= i < |was| =>
        if addr <= i < addr + size && i / unit !in kept then ERASED else was[i]);
      assert ErasedExcept(was, cells, addr, size, eraseSize, kept);
      HistoryNext(eraseSize, past, states, op, cells);
      states := states + [cells];
    }
  }
}
