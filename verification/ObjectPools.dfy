/** The fixed-capacity object pool: default initialization, payload writes, and the two ways of resetting it. */
module ObjectPools {
  import opened Arith
  import opened Bytes

  datatype Status = Success | ParNumError | ValueError | InitError

  /** Length limits, element size and default payload of one object parameter. */
  datatype ObjectCfg = ObjectCfg(minLen: nat, maxLen: nat, elemSize: nat, initial: seq<Byte>)

  predicate LenIsValid(c: ObjectCfg, len: nat) {
    && c.minLen <= len <= c.maxLen
    && (c.elemSize > 0 ==> len % c.elemSize == 0)
  }

  predicate DefaultIsValid(c: ObjectCfg) {
    c.minLen <= c.maxLen && LenIsValid(c, |c.initial|)
  }

  /** A length inside the limits of an object that holds a whole number of its elements. */
  ghost predicate Acceptable(c: ObjectCfg, len: nat) {
    && c.minLen <= len <= c.maxLen
    && (c.elemSize > 0 ==> exists n: nat :: Times(n, c.elemSize) == len)
  }

  ghost predicate DefaultFitting(c: ObjectCfg) {
    Acceptable(c, |c.initial|)
  }

  /** The length check accepts exactly those lengths. */
  lemma LenExactly(c: ObjectCfg, len: nat)
    ensures LenIsValid(c, len) <==> Acceptable(c, len)
    ensures LenIsValid(c, len) ==> c.minLen <= len <= c.maxLen
  {
    if c.elemSize > 0 {
      DivTimes(len, c.elemSize);
      if n: nat :| Times(n, c.elemSize) == len {
        TimesDiv(n, c.elemSize, 0);
      }
    }
  }

  lemma DefaultExactly(c: ObjectCfg)
    ensures DefaultIsValid(c) <==> DefaultFitting(c)
  {
    LenExactly(c, |c.initial|);
  }

  datatype Slot = Slot(poolOffset: nat, capacity: nat, len: nat)

  function ZeroBytes(n: nat): (r: seq<Byte>)
    ensures |r| == n
  {
    seq(n, _ => 0)
  }

  /** Bytes before object `i` in a pool packed in object order. */
  function Start(objs: seq<ObjectCfg>, i: nat): nat
    requires i <= |objs|
  {
    if i == 0 then 0 else Start(objs, i - 1) + objs[i - 1].maxLen
  }

  lemma {:induction false} StartMono(objs: seq<ObjectCfg>, i: nat, j: nat)
    requires i < j <= |objs|
    ensures Start(objs, i) + objs[i].maxLen <= Start(objs, j)
  {
    if i < j - 1 {
      StartMono(objs, i, j - 1);
    }
  }

  lemma StartNext(objs: seq<ObjectCfg>, i: nat)
    requires i < |objs|
    ensures Start(objs, i + 1) == Start(objs, i) + objs[i].maxLen
  {
  }

  /** A window holding `data`, cleared behind it. */
  function Window(c: ObjectCfg, data: seq<Byte>): (r: seq<Byte>)
    requires |data| <= c.maxLen
    ensures |r| == c.maxLen
  {
    data + ZeroBytes(c.maxLen - |data|)
  }

  lemma LenFits(c: ObjectCfg, len: nat)
    ensures Acceptable(c, len) ==> len <= c.maxLen
  {
  }

  lemma SpliceNothing(s: seq<Byte>, at: nat)
    requires at <= |s|
    ensures Splice(s, at, []) == s
  {
  }

  ghost predicate DefaultsValid(objs: seq<ObjectCfg>) {
    forall i :: 0 <= i < |objs| ==> DefaultFitting(objs[i])
  }

  /** All default windows of the first `n` objects, back to back. */
  function DefaultPool(objs: seq<ObjectCfg>, n: nat): (r: seq<Byte>)
    requires n <= |objs| && forall i :: 0 <= i < n ==> DefaultFitting(objs[i])
    ensures |r| == Start(objs, n)
  {
    if n == 0 then []
    else
      assert DefaultFitting(objs[n - 1]);
      DefaultPool(objs, n - 1) + Window(objs[n - 1], objs[n - 1].initial)
  }

  function DefaultSlots(objs: seq<ObjectCfg>): (r: seq<Slot>)
    ensures |r| == |objs|
  {
    seq(|objs|, i requires 0 <= i < |objs| => Slot(Start(objs, i), objs[i].maxLen, |objs[i].initial|))
  }

  function NonZero(n: nat): nat {
    if n > 0 then n else 1
  }

  /** Slot table and pool have the shape that default initialization gave them; payload contents are free. */
  ghost predicate Shaped(objs: seq<ObjectCfg>, pool: seq<Byte>, slots: seq<Slot>) {
    && DefaultsValid(objs)
    && |pool| == NonZero(Start(objs, |objs|)) && |slots| == NonZero(|objs|)
    && (forall i :: 0 <= i < |objs| ==>
          slots[i].poolOffset == Start(objs, i) && slots[i].capacity == objs[i].maxLen &&
            Acceptable(objs[i], slots[i].len))
    && (Start(objs, |objs|) == 0 ==> pool == [0])
    && (|objs| == 0 ==> slots == [Slot(0, 0, 0)])
  }

  /** In every such state each payload length is inside the limits of its object. */
  lemma LengthsInLimits(objs: seq<ObjectCfg>, pool: seq<Byte>, slots: seq<Slot>, i: nat) returns (n: nat)
    requires Shaped(objs, pool, slots) && i < |objs|
    ensures i < |slots| && objs[i].minLen <= slots[i].len <= objs[i].maxLen
    ensures objs[i].elemSize > 0 ==> slots[i].len == n * objs[i].elemSize
  {
    n := 0;
    if objs[i].elemSize > 0 {
      n :| Times(n, objs[i].elemSize) == slots[i].len;
      TimesIsProduct(n, objs[i].elemSize);
    }
  }

  /** Every object holds its default payload and nothing else. */
  ghost predicate AtDefaults(objs: seq<ObjectCfg>, pool: seq<Byte>, slots: seq<Slot>) {
    && Shaped(objs, pool, slots)
    && pool[..Start(objs, |objs|)] == DefaultPool(objs, |objs|)
    && slots[..|objs|] == DefaultSlots(objs)
  }

  /** That pins down every byte and every slot. */
  lemma DefaultsUnique(objs: seq<ObjectCfg>, pool: seq<Byte>, slots: seq<Slot>, pool': seq<Byte>, slots': seq<Slot>)
    requires AtDefaults(objs, pool, slots) && AtDefaults(objs, pool', slots')
    ensures pool == pool' && slots == slots'
  {
    if Start(objs, |objs|) > 0 {
      assert pool[..Start(objs, |objs|)] == pool && pool'[..Start(objs, |objs|)] == pool';
    }
    if |objs| > 0 {
      assert slots[..|objs|] == slots && slots'[..|objs|] == slots';
    }
  }

  /** Current payload of object `i`. */
  function Payload(pool: seq<Byte>, slot: Slot): seq<Byte>
    requires slot.poolOffset + slot.capacity <= |pool| && slot.len <= slot.capacity
  {
    pool[slot.poolOffset..slot.poolOffset + slot.len]
  }

  lemma {:induction false} WindowFits(objs: seq<ObjectCfg>, pool: seq<Byte>, slots: seq<Slot>, i: nat)
    requires Shaped(objs, pool, slots) && i < |objs|
    ensures Start(objs, i) + objs[i].maxLen <= |pool| && i < |slots|
    ensures slots[i].poolOffset == Start(objs, i) && slots[i].capacity == objs[i].maxLen &&
      slots[i].len <= slots[i].capacity
  {
    StartMono(objs, i, |objs|);
  }

  /** Pool and slots after object `i` was set to `data`. */
  ghost predicate Written(objs: seq<ObjectCfg>, pool: seq<Byte>, slots: seq<Slot>, pool': seq<Byte>, slots': seq<Slot>,
                          i: nat, data: seq<Byte>) {
    && i < |objs| && Acceptable(objs[i], |data|)
    && Start(objs, i) + objs[i].maxLen <= |pool| && i < |slots|
    && pool' == Splice(pool, Start(objs, i), Window(objs[i], data))
    && slots' == slots[i := slots[i].(len := |data|)]
  }

  /** A write keeps the shape, stores exactly the new payload, and leaves every other object alone. */
  lemma WrittenEffect(objs: seq<ObjectCfg>, pool: seq<Byte>, slots: seq<Slot>, pool': seq<Byte>, slots': seq<Slot>,
                      i: nat, data: seq<Byte>, j: nat)
    requires Shaped(objs, pool, slots) && Written(objs, pool, slots, pool', slots', i, data) && j < |objs|
    ensures Shaped(objs, pool', slots')
    ensures slots[j].poolOffset + slots[j].capacity <= |pool| == |pool'| && slots[j].len <= slots[j].capacity
    ensures slots'[j].poolOffset + slots'[j].capacity <= |pool'| && slots'[j].len <= slots'[j].capacity
    ensures Payload(pool', slots'[j]) == if i == j then data else Payload(pool, slots[j])
  {
    hide Shaped, Acceptable, Splice, Start;
    WrittenShape(objs, pool, slots, pool', slots', i, data);
    WindowFits(objs, pool, slots, i);
    WindowFits(objs, pool, slots, j);
    WindowFits(objs, pool', slots', j);
    LenFits(objs[i], |data|);
    WindowSlice(objs, pool, Window(objs[i], data), i, j, slots'[j].len);
    assert Window(objs[i], data)[..|data|] == data;
  }

  /** The front of window `j` after window `i` was replaced. */
  lemma {:induction false} WindowSlice(objs: seq<ObjectCfg>, pool: seq<Byte>, w: seq<Byte>, i: nat, j: nat, len: nat)
    requires i < |objs| && j < |objs| && |w| == objs[i].maxLen && len <= objs[j].maxLen
    requires Start(objs, i) + objs[i].maxLen <= |pool| && Start(objs, j) + objs[j].maxLen <= |pool|
    ensures Splice(pool, Start(objs, i), w)[Start(objs, j)..Start(objs, j) + len]
      == if i == j then w[..len] else pool[Start(objs, j)..Start(objs, j) + len]
  {
    var at := Start(objs, i);
    if i == j {
      SpliceInside(pool, at, w, at, at + len);
    } else {
      if i < j {
        StartMono(objs, i, j);
      } else {
        StartMono(objs, j, i);
      }
      SpliceOutside(pool, at, w, Start(objs, j), Start(objs, j) + len);
    }
  }

  lemma WrittenShape(objs: seq<ObjectCfg>, pool: seq<Byte>, slots: seq<Slot>, pool': seq<Byte>, slots': seq<Slot>,
                     i: nat, data: seq<Byte>)
    requires Shaped(objs, pool, slots) && Written(objs, pool, slots, pool', slots', i, data)
    ensures Shaped(objs, pool', slots')
  {
    if Start(objs, |objs|) == 0 {
      StartMono(objs, i, |objs|);
      assert pool'[0] == pool[0];
    }
  }

  lemma {:induction false} WrittenNow(objs: seq<ObjectCfg>, pool: seq<Byte>, slots: seq<Slot>, pool': seq<Byte>,
                                      slots': seq<Slot>, i: nat, data: seq<Byte>)
    requires Shaped(objs, pool, slots) && i < |objs| && Acceptable(objs[i], |data|)
    requires i < |slots| && Start(objs, i) + objs[i].maxLen <= |pool|
    requires |data| <= objs[i].maxLen && pool' == Splice(pool, Start(objs, i), Window(objs[i], data))
    requires slots' == slots[i := slots[i].(len := |data|)]
    ensures Shaped(objs, pool', slots') && Written(objs, pool, slots, pool', slots', i, data)
  {
    hide Shaped;
    WrittenShape(objs, pool, slots, pool', slots', i, data);
  }

  /** A payload copied in and its tail cleared behind it. */
  lemma {:induction false} RestoredNow(objs: seq<ObjectCfg>, pool: seq<Byte>, slots: seq<Slot>, pool': seq<Byte>,
                                       slots': seq<Slot>, i: nat, data: seq<Byte>)
    requires Shaped(objs, pool, slots) && i < |objs| && Acceptable(objs[i], |data|)
    requires i < |slots| && Start(objs, i) + objs[i].maxLen <= |pool| && |data| <= objs[i].maxLen
    requires pool' == Splice(Splice(pool, Start(objs, i), data), Start(objs, i) + |data|,
                             ZeroBytes(objs[i].maxLen - |data|))
    requires slots' == slots[i := slots[i].(len := |data|)]
    ensures Shaped(objs, pool', slots') && Written(objs, pool, slots, pool', slots', i, data)
  {
    hide Shaped, Written, Acceptable, Start, Window, Splice, ZeroBytes;
    WindowTail(objs[i], pool, Start(objs, i), data);
    WrittenNow(objs, pool, slots, pool', slots', i, data);
  }

  /** Restoring defaults in progress: the first `n` objects are at their defaults. */
  ghost predicate Restoring(objs: seq<ObjectCfg>, pool: seq<Byte>, slots: seq<Slot>, n: nat) {
    && Shaped(objs, pool, slots) && n <= |objs| && Start(objs, n) <= |pool|
    && pool[..Start(objs, n)] == DefaultPool(objs, n)
    && slots[..n] == DefaultSlots(objs)[..n]
  }

  lemma RestoreStep(objs: seq<ObjectCfg>, pool: seq<Byte>, slots: seq<Slot>, pool': seq<Byte>, slots': seq<Slot>,
                    n: nat)
    requires Restoring(objs, pool, slots, n) && n < |objs|
    requires Written(objs, pool, slots, pool', slots', n, objs[n].initial)
    ensures Restoring(objs, pool', slots', n + 1)
  {
    WrittenShape(objs, pool, slots, pool', slots', n, objs[n].initial);
    var at, w := Start(objs, n), Window(objs[n], objs[n].initial);
    SpliceOutside(pool, at, w, 0, at);
    SpliceInside(pool, at, w, at, at + |w|);
    assert pool'[..at + |w|] == pool'[0..at] + pool'[at..at + |w|];
    forall k | 0 <= k < n + 1
      ensures slots'[k] == DefaultSlots(objs)[k]
    {
      if k < n {
        assert slots[..n][k] == DefaultSlots(objs)[..n][k];
      }
    }
  }

  lemma RestoreDone(objs: seq<ObjectCfg>, pool: seq<Byte>, slots: seq<Slot>)
    requires Restoring(objs, pool, slots, |objs|)
    ensures AtDefaults(objs, pool, slots)
  {
    assert DefaultSlots(objs)[..|objs|] == DefaultSlots(objs);
  }

  class ObjectPool {
    const objs: seq<ObjectCfg>
    const layout: seq<nat>    // pool offsets assigned by the layout module
    const poolBytes: nat      // pool size assigned by the layout module
    const pool: array<Byte>
    const slots: array<Slot>
    const poolMirror: array<Byte>
    const slotsMirror: array<Slot>

    ghost predicate Wired() {
      && |layout| == |objs|
      && pool.Length == poolMirror.Length == NonZero(poolBytes)
      && slots.Length == slotsMirror.Length == NonZero(|objs|)
      && pool != poolMirror && slots != slotsMirror
    }

    /** Initialized, and the mirror holds the defaults. */
    ghost predicate Ready()
      reads pool, slots, poolMirror, slotsMirror
    {
      && Wired()
      && Shaped(objs, pool[..], slots[..])
      && AtDefaults(objs, poolMirror[..], slotsMirror[..])
    }

    constructor (objs: seq<ObjectCfg>, layout: seq<nat>, poolBytes: nat)
      requires |layout| == |objs|
      ensures Wired() && this.objs == objs && this.layout == layout && this.poolBytes == poolBytes
      ensures fresh(pool) && fresh(slots) && fresh(poolMirror) && fresh(slotsMirror)
    {
      this.objs, this.layout, this.poolBytes := objs, layout, poolBytes;
      pool := new Byte[NonZero(poolBytes)];
      slots := new Slot[NonZero(|objs|)](_ => Slot(0, 0, 0));
      poolMirror := new Byte[NonZero(poolBytes)];
      slotsMirror := new Slot[NonZero(|objs|)](_ => Slot(0, 0, 0));
    }

    method SetPool(at: nat, data: seq<Byte>)
      requires at + |data| <= pool.Length
      modifies pool
      ensures pool[..] == Splice(old(pool[..]), at, data)
    {
      forall i | 0 <= i < |data| {
        pool[at + i] := data[i];
      }
    }

    predicate SlotRangeIsValid(slot: Slot) {
      slot.poolOffset <= pool.Length && slot.capacity <= pool.Length - slot.poolOffset && slot.len <= slot.capacity
    }

    /** The configuration and the layout agree. */
    ghost predicate Consistent()
      requires |layout| == |objs|
    {
      && DefaultsValid(objs)
      && (forall i :: 0 <= i < |objs| ==> layout[i] == Start(objs, i))
      && Start(objs, |objs|) == poolBytes
    }

    /** Checks one object and places its default. */
    method PlaceDefault(i: nat, expected: nat) returns (ok: bool)
      requires Wired() && i < |objs| && expected == Start(objs, i) <= pool.Length
      requires Initializing(objs, pool[..], slots[..], i)
      modifies pool, slots
      ensures ok <==> Placeable(i)
      ensures ok ==> Initializing(objs, pool[..], slots[..], i + 1)
    {
      hide Window, DefaultPool, DefaultFitting, Acceptable, LenIsValid, DefaultIsValid, Splice, Initializing, Start;
      DefaultExactly(objs[i]);
      if !DefaultIsValid(objs[i]) {
        return false;
      }
      DefaultFits(objs[i]);
      ghost var pool0, slots0 := pool[..], slots[..];
      slots[i] := Slot(layout[i], objs[i].maxLen, |objs[i].initial|);
      if expected != layout[i] || !SlotRangeIsValid(slots[i]) {
        return false;
      }
      SetPool(slots[i].poolOffset, objs[i].initial);
      InitStep(objs, pool0, slots0, pool[..], slots[..], i);
      return true;
    }

    /** Object `i` passes the checks of the initialization pass. */
    ghost predicate Placeable(i: nat)
      requires |layout| == |objs| && i < |objs|
    {
      DefaultFitting(objs[i]) && layout[i] == Start(objs, i) && Start(objs, i) + objs[i].maxLen <= pool.Length
    }

    /** The pass accepts exactly a consistent configuration. */
    lemma PlaceableIsConsistent()
      requires Wired()
      ensures (forall i :: 0 <= i < |objs| ==> Placeable(i)) && Start(objs, |objs|) == poolBytes <==> Consistent()
    {
      hide DefaultFitting;
      if Consistent() {
        forall i | 0 <= i < |objs|
          ensures Placeable(i)
        {
          StartMono(objs, i, |objs|);
        }
      }
      if forall i :: 0 <= i < |objs| ==> Placeable(i) {
        forall i | 0 <= i < |objs|
          ensures DefaultFitting(objs[i]) && layout[i] == Start(objs, i)
        {
          assert Placeable(i);
        }
      }
    }

    /** Clears everything, then places every default at the offset the layout assigned.
        Succeeds exactly when configuration and layout agree. */
    method InitDefaultsFromTable() returns (status: Status)
      requires Wired()
      modifies pool, slots
      ensures status == if Consistent() then Success else InitError
      ensures status == Success ==> AtDefaults(objs, pool[..], slots[..])
    {
      hide Window, DefaultPool, DefaultFitting, Acceptable, LenIsValid, DefaultIsValid, Splice, Initializing,
        AtDefaults, Consistent, Start;
      PlaceableIsConsistent();
      forall i | 0 <= i < pool.Length {
        pool[i] := 0;
      }
      forall i | 0 <= i < slots.Length {
        slots[i] := Slot(0, 0, 0);
      }
      var expected: nat, i: nat := 0, 0;
      InitStart(objs, pool[..], slots[..]);
      while i < |objs|
        invariant i <= |objs| && expected == Start(objs, i) <= pool.Length
        invariant forall k :: 0 <= k < i ==> Placeable(k)
        invariant Initializing(objs, pool[..], slots[..], i)
        modifies pool, slots
      {
        var ok := PlaceDefault(i, expected);
        if !ok {
          return InitError;
        }
        StartNext(objs, i);
        expected := expected + objs[i].maxLen;
        i := i + 1;
      }
      if expected != poolBytes {
        return InitError;
      }
      InitDone(objs, pool[..], slots[..]);
      return Success;
    }

    /** Remembers the current state as the defaults for the raw reset. */
    method SnapshotDefaultMirror()
      requires Wired() && AtDefaults(objs, pool[..], slots[..])
      modifies poolMirror, slotsMirror
      ensures Ready() && poolMirror[..] == pool[..] && slotsMirror[..] == slots[..]
    {
      forall i | 0 <= i < pool.Length {
        poolMirror[i] := pool[i];
      }
      forall i | 0 <= i < slots.Length {
        slotsMirror[i] := slots[i];
      }
    }

    /** Raw reset: copies the mirror back. */
    method RestoreDefaultMirror()
      requires Ready()
      modifies pool, slots
      ensures Ready() && AtDefaults(objs, pool[..], slots[..])
    {
      forall i | 0 <= i < pool.Length {
        pool[i] := poolMirror[i];
      }
      forall i | 0 <= i < slots.Length {
        slots[i] := slotsMirror[i];
      }
      assert pool[..] == poolMirror[..] && slots[..] == slotsMirror[..];
    }

    /** Commits a new length, clearing the bytes behind it when asked to. */
    method CommitLen(i: nat, len: nat, clearTail: bool) returns (status: Status)
      requires Ready()
      modifies pool, slots
      ensures i >= |objs| ==> status == ParNumError
      ensures i < |objs| ==> status == if Acceptable(objs[i], len) then Success else ValueError
      ensures i < |objs| && !(objs[i].minLen <= len <= objs[i].maxLen) ==> status == ValueError
      ensures status != Success ==> pool[..] == old(pool[..]) && slots[..] == old(slots[..])
      ensures status == Success ==>
        && Start(objs, i) + objs[i].maxLen <= pool.Length && len <= objs[i].maxLen
        && slots[..] == old(slots[..])[i := old(slots[i]).(len := len)]
        && pool[..] ==
          if clearTail then Splice(old(pool[..]), Start(objs, i) + len, ZeroBytes(objs[i].maxLen - len))
          else old(pool[..])
    {
      hide Shaped, AtDefaults, DefaultPool, Window, Splice, LenIsValid, Acceptable, Start;
      if i >= |objs| {
        return ParNumError;
      }
      LenExactly(objs[i], len);
      if !LenIsValid(objs[i], len) {
        return ValueError;
      }
      LenFits(objs[i], len);
      WindowFits(objs, pool[..], slots[..], i);
      if !SlotRangeIsValid(slots[i]) || len > slots[i].capacity {
        return InitError;
      }
      ghost var before := pool[..];
      if clearTail && len < slots[i].capacity {
        SetPool(slots[i].poolOffset + len, ZeroBytes(slots[i].capacity - len));
      } else if clearTail {
        SpliceNothing(before, Start(objs, i) + len);
      }
      slots[i] := slots[i].(len := len);
      return Success;
    }

    /** Replaces one payload. */
    method WritePayload(i: nat, data: seq<Byte>) returns (status: Status)
      requires Ready()
      modifies pool, slots
      ensures Ready()
      ensures i >= |objs| ==> status == ParNumError
      ensures i < |objs| ==> status == if Acceptable(objs[i], |data|) then Success else ValueError
      ensures i < |objs| && !(objs[i].minLen <= |data| <= objs[i].maxLen) ==> status == ValueError
      ensures status != Success ==> pool[..] == old(pool[..]) && slots[..] == old(slots[..])
      ensures status == Success ==> Written(objs, old(pool[..]), old(slots[..]), pool[..], slots[..], i, data)
    {
      hide Shaped, AtDefaults, DefaultPool, Window, Splice, LenIsValid, Acceptable, Start, ZeroBytes, Written;
      if i >= |objs| {
        return ParNumError;
      }
      LenExactly(objs[i], |data|);
      if !LenIsValid(objs[i], |data|) {
        return ValueError;
      }
      LenFits(objs[i], |data|);
      ghost var pool0, slots0 := pool[..], slots[..];
      WindowFits(objs, pool0, slots0, i);
      var slot := slots[i];
      SetPool(slot.poolOffset, ZeroBytes(slot.capacity));
      ClearedShape(objs, pool0, slots0, pool[..], i, ZeroBytes(slot.capacity));
      ghost var pool1 := pool[..];
      SetPool(slot.poolOffset, data);
      ClearedShape(objs, pool1, slots0, pool[..], i, data);
      WindowTwice(objs[i], pool0, slot.poolOffset, data);
      status := CommitLen(i, |data|, false);
      WrittenNow(objs, pool0, slots0, pool[..], slots[..], i, data);
    }

    /** Restores one payload from storage: data first, then length and cleared tail. The result is that of a write. */
    method NvmRestore(i: nat, data: seq<Byte>) returns (status: Status)
      requires Ready()
      modifies pool, slots
      ensures Ready()
      ensures i >= |objs| ==> status == ParNumError
      ensures i < |objs| ==> status == if Acceptable(objs[i], |data|) then Success else ValueError
      ensures i < |objs| && !(objs[i].minLen <= |data| <= objs[i].maxLen) ==> status == ValueError
      ensures status != Success ==> pool[..] == old(pool[..]) && slots[..] == old(slots[..])
      ensures status == Success ==> Written(objs, old(pool[..]), old(slots[..]), pool[..], slots[..], i, data)
    {
      hide Shaped, AtDefaults, DefaultPool, Window, Splice, LenIsValid, Acceptable, Start, ZeroBytes, Written;
      if i >= |objs| {
        return ParNumError;
      }
      LenExactly(objs[i], |data|);
      if !LenIsValid(objs[i], |data|) {
        return ValueError;
      }
      LenFits(objs[i], |data|);
      ghost var pool0, slots0 := pool[..], slots[..];
      WindowFits(objs, pool0, slots0, i);
      SetPool(slots[i].poolOffset, data);
      ClearedShape(objs, pool0, slots0, pool[..], i, data);
      status := CommitLen(i, |data|, true);
      RestoredNow(objs, pool0, slots0, pool[..], slots[..], i, data);
    }

    method WriteDefault(i: nat) returns (status: Status)
      requires Ready()
      modifies pool, slots
      ensures Ready()
      ensures status == if i < |objs| then Success else ParNumError
      ensures status == Success ==> Written(objs, old(pool[..]), old(slots[..]), pool[..], slots[..], i,
        objs[i].initial)
    {
      if i >= |objs| {
        return ParNumError;
      }
      DefaultExactly(objs[i]);
      if !DefaultIsValid(objs[i]) {
        return InitError;
      }
      status := WritePayload(i, objs[i].initial);
    }

    /** Restoring every object default one by one ends in the same state as the raw reset. */
    method SetAllToDefault()
      requires Ready()
      modifies pool, slots
      ensures Ready() && AtDefaults(objs, pool[..], slots[..])
      ensures pool[..] == poolMirror[..] && slots[..] == slotsMirror[..]
    {
      hide Written, Window, DefaultPool, Shaped, AtDefaults, Acceptable, DefaultFitting, Start, Restoring;
      var i: nat := 0;
      assert Restoring(objs, pool[..], slots[..], 0) by {
        RestoreStart(objs, pool[..], slots[..]);
      }
      while i < |objs|
        invariant Ready() && i <= |objs| && Restoring(objs, pool[..], slots[..], i)
        modifies pool, slots
      {
        ghost var pool0, slots0 := pool[..], slots[..];
        var status := WriteDefault(i);
        RestoreStep(objs, pool0, slots0, pool[..], slots[..], i);
        i := i + 1;
      }
      RestoreDone(objs, pool[..], slots[..]);
      DefaultsUnique(objs, pool[..], slots[..], poolMirror[..], slotsMirror[..]);
    }
  }

  lemma RestoreStart(objs: seq<ObjectCfg>, pool: seq<Byte>, slots: seq<Slot>)
    requires Shaped(objs, pool, slots)
    ensures Restoring(objs, pool, slots, 0)
  {
  }

  lemma DefaultFits(c: ObjectCfg)
    ensures DefaultFitting(c) ==> |c.initial| <= c.maxLen
  {
  }

  /** Initialization in progress: `n` defaults are placed, everything behind them is clear. */
  ghost predicate Initializing(objs: seq<ObjectCfg>, pool: seq<Byte>, slots: seq<Slot>, n: nat) {
    && n <= |objs| && |slots| == NonZero(|objs|) && Start(objs, n) <= |pool|
    && (forall i :: 0 <= i < n ==> DefaultFitting(objs[i]))
    && (forall i :: 0 <= i < n ==> slots[i] == Slot(Start(objs, i), objs[i].maxLen, |objs[i].initial|))
    && (forall i :: n <= i < |slots| ==> slots[i] == Slot(0, 0, 0))
    && (forall i :: Start(objs, n) <= i < |pool| ==> pool[i] == 0)
    && PlacedDefaults(objs, pool, n)
  }

  ghost predicate PlacedDefaults(objs: seq<ObjectCfg>, pool: seq<Byte>, n: nat)
    requires n <= |objs| && Start(objs, n) <= |pool|
    requires forall i :: 0 <= i < n ==> DefaultFitting(objs[i])
  {
    pool[..Start(objs, n)] == DefaultPool(objs, n)
  }

  lemma {:induction false} InitStart(objs: seq<ObjectCfg>, pool: seq<Byte>, slots: seq<Slot>)
    requires |slots| == NonZero(|objs|) && (forall i :: 0 <= i < |pool| ==> pool[i] == 0)
    requires forall i :: 0 <= i < |slots| ==> slots[i] == Slot(0, 0, 0)
    ensures Start(objs, 0) == 0 && Initializing(objs, pool, slots, 0)
  {
  }

  lemma {:induction false} InitStep(objs: seq<ObjectCfg>, pool: seq<Byte>, slots: seq<Slot>, pool': seq<Byte>,
                                    slots': seq<Slot>, n: nat)
    requires Initializing(objs, pool, slots, n) && n < |objs| && DefaultFitting(objs[n])
    requires Start(objs, n) + objs[n].maxLen <= |pool|
    requires slots' == slots[n := Slot(Start(objs, n), objs[n].maxLen, |objs[n].initial|)]
    requires pool' == Splice(pool, Start(objs, n), objs[n].initial)
    ensures Initializing(objs, pool', slots', n + 1)
  {
    hide Acceptable, DefaultFitting, Splice, DefaultPool;
    DefaultFits(objs[n]);
    PlacedNext(objs, pool, pool', n);
  }

  lemma PoolNext(objs: seq<ObjectCfg>, n: nat)
    requires n < |objs| && forall i :: 0 <= i < n + 1 ==> DefaultFitting(objs[i])
    ensures |objs[n].initial| <= objs[n].maxLen && Start(objs, n + 1) == Start(objs, n) + objs[n].maxLen
    ensures DefaultPool(objs, n + 1) == DefaultPool(objs, n) + Window(objs[n], objs[n].initial)
  {
    hide Window;
    DefaultFits(objs[n]);
  }

  lemma {:induction false} PlacedNext(objs: seq<ObjectCfg>, pool: seq<Byte>, pool': seq<Byte>, n: nat)
    requires n < |objs| && Start(objs, n) + objs[n].maxLen <= |pool|
    requires forall i :: 0 <= i < n + 1 ==> DefaultFitting(objs[i])
    requires forall i :: Start(objs, n) <= i < |pool| ==> pool[i] == 0
    requires PlacedDefaults(objs, pool, n)
    requires |objs[n].initial| <= objs[n].maxLen && pool' == Splice(pool, Start(objs, n), objs[n].initial)
    ensures PlacedDefaults(objs, pool', n + 1)
  {
    PoolNext(objs, n);
    hide Acceptable, DefaultFitting, Splice, Window, DefaultPool, Start;
    var at, c := Start(objs, n), objs[n];
    SpliceOutside(pool, at, c.initial, 0, at);
    PlacedWindow(c, pool, pool', at);
    var w := Window(c, c.initial);
    assert pool'[..at + c.maxLen] == pool'[0..at] + pool'[at..at + c.maxLen];
    assert pool[0..at] == pool[..at];
  }

  /** A default copied into cleared memory fills its window. */
  lemma PlacedWindow(c: ObjectCfg, pool: seq<Byte>, pool': seq<Byte>, at: nat)
    requires |c.initial| <= c.maxLen && at + c.maxLen <= |pool|
    requires forall i :: at <= i < |pool| ==> pool[i] == 0
    requires pool' == Splice(pool, at, c.initial)
    ensures pool'[at..at + c.maxLen] == Window(c, c.initial)
  {
    hide Splice;
  }

  lemma {:induction false} InitDone(objs: seq<ObjectCfg>, pool: seq<Byte>, slots: seq<Slot>)
    requires Initializing(objs, pool, slots, |objs|) && |pool| == NonZero(Start(objs, |objs|))
    ensures AtDefaults(objs, pool, slots)
  {
    assert objs[..|objs|] == objs;
    if Start(objs, |objs|) == 0 {
      assert pool == [0];
    }
    if |objs| == 0 {
      assert slots == [Slot(0, 0, 0)];
    }
  }

  /** Bytes changed inside one window keep the pool shape. */
  lemma {:induction false} ClearedShape(objs: seq<ObjectCfg>, pool: seq<Byte>, slots: seq<Slot>, pool': seq<Byte>,
                                        i: nat, data: seq<Byte>)
    requires Shaped(objs, pool, slots) && i < |objs| && |data| <= objs[i].maxLen
    requires Start(objs, i) + objs[i].maxLen <= |pool| && pool' == Splice(pool, Start(objs, i), data)
    ensures Shaped(objs, pool', slots)
  {
    if Start(objs, |objs|) == 0 {
      StartMono(objs, i, |objs|);
      assert pool'[0] == pool[0];
    }
  }

  /** Clearing a window and then copying the payload in. */
  lemma WindowTwice(c: ObjectCfg, pool: seq<Byte>, at: nat, data: seq<Byte>)
    requires |data| <= c.maxLen && at + c.maxLen <= |pool|
    ensures Splice(Splice(pool, at, ZeroBytes(c.maxLen)), at, data) == Splice(pool, at, Window(c, data))
  {
  }

  /** Copying the payload in and then clearing behind it. */
  lemma WindowTail(c: ObjectCfg, pool: seq<Byte>, at: nat, data: seq<Byte>)
    requires |data| <= c.maxLen && at + c.maxLen <= |pool|
    ensures Splice(Splice(pool, at, data), at + |data|, ZeroBytes(c.maxLen - |data|)) ==
      Splice(pool, at, Window(c, data))
  {
  }
}
