/** The scalar parameter NVM: header validation, restore, tail append, recovery, and bulk save. */
module ParNvms {
  import opened ByteStores
  import opened Lines
  import opened NvmFormat
  import opened NvmSteps
  import opened Wrappers

  class ParNvm {
    const schema: Schema
    const store: ByteStore
    var isInit: bool
    var live: seq<Value>       // RAM values of the persistent parameters, in slot order
    var loaded: seq<bool>      // slots reconstructed from the stored image
    var loadedCount: nat

    /** The store holds the image, and its first line holds the whole header. */
    ghost predicate Wired()
      reads this, store.Parts()
    {
      && schema.Valid() && store.Valid()
      && NVM_HEAD_SIZE <= store.lineSize
      && Holds(schema, store.image)
      && Typed(schema, live)
      && |loaded| == |schema.params|
    }

    /** What the next undisturbed power-up would restore. */
    ghost function Bootable(): (vs: seq<Value>)
      requires Wired()
      reads this, store.Parts()
      ensures Typed(schema, vs)
    {
      Booted(schema, store.image)
    }

    constructor (schema: Schema, store: ByteStore)
      requires schema.Valid() && store.Valid() && NVM_HEAD_SIZE <= store.lineSize && Holds(schema, store.image)
      ensures Wired() && !isInit && live == Defaults(schema)
      ensures this.schema == schema && this.store == store
    {
      this.schema, this.store := schema, store;
      isInit, live := false, Defaults(schema);
      loaded, loadedCount := seq(|schema.params|, _ => false), 0;
    }

    /** Application write of one live value; storage is not touched. */
    method SetLive(k: nat, v: Value)
      requires Wired() && k < |schema.params| && |v| == schema.params[k].size
      modifies this`live
      ensures Wired() && live == old(live)[k := v]
    {
      live := live[k := v];
    }

    method ClearLut()
      requires Wired()
      modifies this`loaded, this`loadedCount
      ensures Wired() && loadedCount == 0 && forall i :: 0 <= i < |loaded| ==> !loaded[i]
    {
      loaded, loadedCount := seq(|schema.params|, _ => false), 0;
    }

    /** Reads and checks the header. */
    method ValidateHeader() returns (status: Status, head: Head)
      requires Wired()
      modifies store.Parts()
      ensures Wired() && store.image == old(store.image)
      ensures !old(store.powered) ==> !store.powered
      ensures !store.powered ==> status == {ErrorNvm}
      ensures store.powered ==>
        match ReadHead(schema, store.image[..NVM_HEAD_SIZE])
        case Ok(h) => status == {} && head == h
        case Err(flag) => status == {flag}
    {
      hide Backed;
      head := Head(0, 0);
      var ok, buf := store.Read(0, NVM_HEAD_SIZE);
      if !ok {
        return {ErrorNvm}, head;
      }
      match ReadHead(schema, buf) {
        case Err(flag) => status := {flag};
        case Ok(h) => status, head := {}, h;
      }
    }

    /** Writes the header for `n` records, synchronizes, and verifies it when configured. */
    method WriteHeader(n: nat) returns (status: Status)
      requires Wired() && n <= |schema.params|
      modifies store.Parts()
      ensures Wired()
      ensures status == if store.powered then {} else {ErrorNvm}
      ensures !old(store.powered) ==> !store.powered && store.image == old(store.image)
      ensures HeadWrote(schema, store.powered, old(store.image), store.image, n)
    {
      hide Backed, EncodeHead, ReadHead, RecordAt, Load, TornUpdate, Addr;
      ghost var before := store.image;
      var head := EncodeHead(schema, n);
      var ok := store.Write(0, head);
      HeadTouched(schema, store.lineSize, store.lineCount, ok, before, store.image, n);
      if !ok {
        return {ErrorNvm};
      }
      ok := store.Sync();
      if !ok {
        return {ErrorNvm};
      }
      if schema.writeVerify {
        var readback;
        ok, readback := store.Read(0, NVM_HEAD_SIZE);
        if !ok {
          return {ErrorNvm};
        }
        assert readback == head;
        HeadRoundTrip(schema, n);
        match ReadHead(schema, readback) {
          case Err(_) => return {ErrorNvm};
          case Ok(h) =>
            if h != Head(n, schema.digest(schema.params[..n])) {
              return {ErrorNvm};
            }
        }
      }
      return {};
    }

    /** Stores the live value of slot `k`, and verifies it when configured. */
    method Write(k: nat, nvmSync: bool) returns (status: Status)
      requires Wired()
      modifies store.Parts()
      ensures Wired()
      ensures !isInit ==>
        status == {ErrorInit} && store.image == old(store.image) && store.powered == old(store.powered)
      ensures isInit && k >= |schema.params| ==>
        status == {Error} && store.image == old(store.image) && store.powered == old(store.powered)
      ensures !old(store.powered) ==> !store.powered && store.image == old(store.image)
      ensures isInit && k < |schema.params| ==>
        && status == (if store.powered then {} else {ErrorNvm})
        && Addr(schema, k) + RecSize(schema.params[k]) <= |old(store.image)|
        && TornUpdate(store.lineSize, store.lineCount, old(store.image), store.image, Addr(schema, k),
          EncodeRecord(schema, schema.params[k], live[k]))
        && Wrote(schema, store.powered, old(store.image), store.image, k, live[k])
    {
      hide Backed, EncodeRecord, RecordCrc, Load, TornUpdate, Addr, DecodeRecord;
      if !isInit {
        return {ErrorInit};
      }
      if k >= |schema.params| {
        return {Error};
      }
      ghost var before := store.image;
      SlotFits(schema, before, k);
      var addr, rec := Addr(schema, k), EncodeRecord(schema, schema.params[k], live[k]);
      var ok := store.Write(addr, rec);
      RecordTouched(schema, store.lineSize, store.lineCount, ok, before, store.image, k, live[k]);
      if !ok {
        return {ErrorNvm};
      }
      if schema.writeVerify {
        ok := store.Sync();
        if !ok {
          return {ErrorNvm};
        }
        var readback;
        ok, readback := store.Read(addr, RecSize(schema.params[k]));
        if !ok {
          return {ErrorNvm};
        }
        RecordExact(schema, schema.params[k], readback, live[k]);
        match DecodeRecord(schema, schema.params[k], readback) {
          case Err(flag) => return if flag == ErrorCrc then {ErrorNvm, ErrorCrc} else {ErrorNvm};
          case Ok(v) =>
            if v != live[k] {
              return {ErrorNvm};
            }
        }
      } else if nvmSync {
        ok := store.Sync();
        if !ok {
          return {ErrorNvm};
        }
      }
      return {};
    }

    /** Rewrites every record: the signature is erased first and a valid header is written last.
        Cut anywhere, the next power-up restores the old values, the new ones, or all defaults. */
    method WriteScalarAll() returns (status: Status)
      requires Wired() && isInit
      modifies store.Parts(), this`loaded, this`loadedCount
      ensures Wired()
      ensures status == if store.powered then {} else {ErrorNvm}
      ensures !old(store.powered) ==> !store.powered && store.image == old(store.image)
      ensures store.powered ==> Settled(schema, store.image, live)
      ensures Bootable() in {old(Bootable()), Defaults(schema), live}
      ensures store.powered ==> loadedCount == |schema.params| && forall i :: 0 <= i < |loaded| ==> loaded[i]
      ensures !store.powered ==> loadedCount == 0 && forall i :: 0 <= i < |loaded| ==> !loaded[i]
    {
      hide Backed, Load, TornUpdate, Addr, Wrote, HeadWrote, Voided, Rewriting, Booted, Settled;
      status := WriteVoided();
      ghost var img := store.image;
      if Voided(schema, img) {
        VoidedBoots(schema, img);
      }
      if status == {} {
        status := WriteHeader(|schema.params|);
        RewriteDone(schema, store.powered, img, store.image, live);
        if Settled(schema, store.image, live) {
          SettledBoots(schema, store.image, live);
        } else {
          VoidedBoots(schema, store.image);
        }
      }
      if status == {} {
        loaded, loadedCount := seq(|schema.params|, _ => true), |schema.params|;
      } else {
        ClearLut();
      }
    }

    /** First half of the bulk rewrite: invalid signature, then every record. */
    method WriteVoided() returns (status: Status)
      requires Wired() && isInit
      modifies store.Parts()
      ensures Wired()
      ensures status == if store.powered then {} else {ErrorNvm}
      ensures !old(store.powered) ==> !store.powered && store.image == old(store.image)
      ensures status == {} ==> Rewriting(schema, store.image, live, |live|)
      ensures store.image == old(store.image) || Voided(schema, store.image)
    {
      hide Backed, Load, TornUpdate, Addr, Wrote, Voided, EncodeRecord;
      ghost var before := store.image;
      var ok := store.Erase(0, NVM_SIGN_SIZE);
      SignErased(schema, store.lineSize, store.lineCount, ok, before, store.image);
      if !ok {
        return {ErrorNvm};
      }
      ok := store.Sync();
      if !ok {
        return {ErrorNvm};
      }
      RewriteStart(schema, store.image, live);
      var k: nat := 0;
      while k < |schema.params|
        invariant Wired() && store.powered && k <= |schema.params|
        invariant Rewriting(schema, store.image, live, k)
        modifies store.Parts()
      {
        ghost var img := store.image;
        status := Write(k, false);
        RewriteStep(schema, status == {}, img, store.image, live, k);
        if status != {} {
          return;
        }
        k := k + 1;
      }
      return {};
    }

    /** Restores the first `n` stored values into RAM, up to the first bad record. */
    method LoadPrefix(n: nat) returns (status: Status)
      requires Wired() && n <= |schema.params| && live == Defaults(schema)
      modifies store.Parts(), this`live, this`loaded
      ensures Wired() && store.image == old(store.image)
      ensures !old(store.powered) ==> !store.powered
      ensures !store.powered ==> status == if n == 0 then {} else {ErrorNvm}
      ensures store.powered && Load(schema, store.image, n).Err? ==> status == {Load(schema, store.image, n).error}
      ensures store.powered && Load(schema, store.image, n).Ok? ==> status == {}
      ensures status == {} ==>
        && Load(schema, store.image, n) == Ok(live[..n])
        && live[n..] == Defaults(schema)[n..]
        && forall i :: 0 <= i < n ==> loaded[i]
    {
      hide Backed, Addr, DecodeRecord, RecordAt, Load, Defaults;
      LoadNone(schema, store.image);
      var i: nat := 0;
      while i < n
        invariant Wired() && i <= n && store.image == old(store.image)
        invariant i > 0 ==> store.powered
        invariant !old(store.powered) ==> !store.powered
        invariant Load(schema, store.image, i) == Ok(live[..i])
        invariant live[i..] == Defaults(schema)[i..]
        invariant forall j :: 0 <= j < i ==> loaded[j]
        modifies store.Parts(), this`live, this`loaded
      {
        ghost var before := live;
        var p := schema.params[i];
        RecordBytes(schema, store.image, i);
        var ok, rec := store.Read(Addr(schema, i), RecSize(p));
        if !ok {
          return {ErrorNvm};
        }
        LoadInto(schema, store.image, before, i);
        var decoded := DecodeRecord(schema, p, rec);
        if decoded.Err? {
          LoadFault(schema, store.image, i, n);
          return {decoded.error};
        }
        live, loaded, i := live[i := decoded.value], loaded[i := true], i + 1;
        NextTail(before, Defaults(schema), i - 1, decoded.value);
      }
      status := {};
    }

    /** Appends the live values of the slots the stored image does not have yet, header untouched. */
    method AppendTail(n: nat) returns (status: Status)
      requires Wired() && isInit && n <= |schema.params| && Appending(schema, store.image, live, n, n)
      modifies store.Parts(), this`loaded
      ensures Wired()
      ensures status == {} || (status == {ErrorNvm} && !store.powered)
      ensures !old(store.powered) ==> !store.powered && store.image == old(store.image)
      ensures store.powered || n < |schema.params| ==> status == if store.powered then {} else {ErrorNvm}
      ensures Appending(schema, store.image, live, n, n)
      ensures status == {} ==> Appending(schema, store.image, live, n, |schema.params|)
      ensures n == |schema.params| ==> store.image == old(store.image) && store.powered == old(store.powered)
      ensures forall j :: 0 <= j < n ==> loaded[j] == old(loaded[j])
      ensures status == {} ==> forall j :: n <= j < |loaded| ==> loaded[j]
    {
      hide Backed, Addr, DecodeRecord, RecordAt, Load, Wrote, EncodeRecord, Appending, TornUpdate;
      var i := n;
      while i < |schema.params|
        invariant Wired() && n <= i <= |schema.params|
        invariant i > n ==> store.powered
        invariant !old(store.powered) ==> !store.powered && store.image == old(store.image)
        invariant Appending(schema, store.image, live, n, n) && Appending(schema, store.image, live, n, i)
        invariant i == n ==> store.image == old(store.image) && store.powered == old(store.powered)
        invariant forall j :: 0 <= j < n ==> loaded[j] == old(loaded[j])
        invariant forall j :: n <= j < i ==> loaded[j]
        modifies store.Parts(), this`loaded
      {
        ghost var img := store.image;
        status := Write(i, true);
        AppendStep(schema, store.powered, img, store.image, live, n, i);
        if status != {} {
          return;
        }
        loaded := loaded[i := true];
        i := i + 1;
      }
      status := {};
    }

    /** Restores a stored prefix of `n` values, then appends the missing tail and commits the new count. */
    method LoadAll(n: nat) returns (status: Status)
      requires Wired() && isInit && live == Defaults(schema)
      requires n <= |schema.params| ==> Plan(schema, store.image) == Ok(n)
      modifies store.Parts(), this`live, this`loaded, this`loadedCount
      ensures Wired()
      ensures !old(store.powered) ==> !store.powered
      ensures Bootable() == old(Bootable())
      ensures n > |schema.params| ==>
        && status == {Error} && store.image == old(store.image) && store.powered == old(store.powered)
        && loadedCount == 0 && forall i :: 0 <= i < |loaded| ==> !loaded[i]
      ensures n <= |schema.params| && !store.powered ==> status == {ErrorNvm}
      ensures n <= |schema.params| && store.powered ==>
        match old(Stored(schema, store.image))
        case Err(flag) => status == {flag} && store.image == old(store.image) && loadedCount == 0
        case Ok(vs) =>
          && status == {} && live == Bootable() && Settled(schema, store.image, live)
          && (n == |schema.params| ==> store.image == old(store.image))
          && loadedCount == |schema.params| && forall i :: 0 <= i < |loaded| ==> loaded[i]
    {
      hide Backed, Addr, DecodeRecord, RecordAt, Load, Wrote, EncodeRecord, HeadWrote, Appending, TornUpdate, Booted,
        Settled, Plan;
      ClearLut();
      if n > |schema.params| {
        return {Error};
      }
      ghost var img := store.image;
      status := LoadPrefix(n);
      if status != {} {
        return;
      }
      AppendStart(schema, img, live, n);
      AppendingBoots(schema, img, live, n, n);
      status := AppendTail(n);
      AppendingBoots(schema, store.image, live, n, n);
      if status != {} {
        return;
      }
      loadedCount := |schema.params|;
      if n < |schema.params| {
        ghost var full := store.image;
        status := WriteHeader(|schema.params|);
        AppendDone(schema, store.powered, full, store.image, live, n);
      }
    }

    method SetDefaults()
      requires Wired()
      modifies this`live
      ensures Wired() && live == Defaults(schema)
    {
      live := Defaults(schema);
    }

    /** Validates the header and, when it is acceptable, loads the image. */
    method Detect() returns (detected: Status)
      requires Wired() && isInit && live == Defaults(schema)
      modifies store.Parts(), this`live, this`loaded, this`loadedCount
      ensures Wired()
      ensures !old(store.powered) ==> !store.powered
      ensures Bootable() == old(Bootable())
      ensures !store.powered ==> detected == {ErrorNvm}
      ensures store.powered ==>
        match old(Stored(schema, store.image))
        case Err(flag) => detected == {flag} && store.image == old(store.image)
        case Ok(vs) =>
          && detected == {} && live == Bootable() && Settled(schema, store.image, live)
          && (|vs| == |schema.params| ==> store.image == old(store.image))
    {
      hide Backed, Addr, DecodeRecord, RecordAt, Load, Booted, Settled, ReadHead;
      var head;
      detected, head := ValidateHeader();
      if detected != {} {
        return;
      }
      if schema.tableIdCheck {
        if head.count as int > |schema.params| || head.tableId != schema.digest(schema.params[..head.count]) {
          return {ErrorTableId};
        }
      }
      detected := LoadAll(head.count);
    }

    /** Power-up: load, or classify the damage and recover from defaults.
        Cut anywhere it never changes what the next power-up will restore. */
    method Init() returns (status: Status)
      requires Wired() && !isInit && live == Defaults(schema)
      modifies store.Parts(), this`isInit, this`live, this`loaded, this`loadedCount
      ensures Wired() && isInit
      ensures !old(store.powered) ==> !store.powered
      ensures Bootable() == old(Bootable())
      ensures !store.powered ==> status == {WarSetToDef, ErrorNvm} && live == Defaults(schema)
      ensures store.powered ==> !Failed(status) && live == old(Bootable()) && Settled(schema, store.image, live)
      ensures store.powered ==>
        match old(Stored(schema, store.image))
        case Err(_) => status == {WarSetToDef, WarRewritten}
        case Ok(vs) => status == {} && (|vs| == |schema.params| ==> store.image == old(store.image))
    {
      hide Backed, Addr, DecodeRecord, RecordAt, Load, Booted, Settled, Plan;
      isInit := true;
      var detected := Detect();
      ghost var img := store.image;
      status := {};
      if detected != {} {
        SetDefaults();
        status := status + {WarSetToDef};
      }
      if detected * {ErrorTableId, ErrorCrc, Error} != {} {
        StoredFault(schema, img);
        var rewrite := WriteScalarAll();
        status := status + rewrite;
        if !Failed(status) {
          status := status + {WarRewritten};
        }
      }
      if ErrorNvm in detected {
        status := status + {ErrorNvm};
      }
    }

    /** Power returns and the backend is mounted: RAM holds the compiled defaults, storage is as the loss left it.
        Power may be gone again at the end. */
    method PowerCycle()
      requires Wired()
      modifies store.Parts(), this`isInit, this`live, this`loaded, this`loadedCount
      ensures Wired() && !isInit && live == Defaults(schema)
      ensures loadedCount == 0 && forall i :: 0 <= i < |loaded| ==> !loaded[i]
      ensures store.image == old(store.image)
    {
      hide Backed;
      store.PowerUp();
      isInit := false;
      SetDefaults();
      ClearLut();
    }

    /** A bulk save followed by power-ups: once one of them completes, the live values are all old, all new,
        or all defaults; they are all new when the save itself completed. */
    method SaveAndRecover(attempts: nat) returns (saved: Status, up: bool)
      requires Wired() && isInit
      modifies store.Parts(), this`isInit, this`live, this`loaded, this`loadedCount
      ensures Wired()
      ensures up ==> live in {old(Bootable()), Defaults(schema), old(live)}
      ensures up && saved == {} ==> live == old(live)
      ensures up ==> Settled(schema, store.image, live)
    {
      hide Backed, Addr, DecodeRecord, RecordAt, Load, Booted, Settled, Plan;
      ghost var new_ := live;
      saved := WriteScalarAll();
      if saved == {} {
        SettledBoots(schema, store.image, live);
      }
      ghost var bootable := Bootable();
      up := false;
      var tries := 0;
      while tries < attempts && !up
        invariant Wired() && Bootable() == bootable
        invariant up ==> live == bootable && Settled(schema, store.image, live)
        modifies store.Parts(), this`isInit, this`live, this`loaded, this`loadedCount
      {
        PowerCycle();
        var _ := Init();
        up := store.powered;
        tries := tries + 1;
      }
    }
  }

  lemma NextTail(a: seq<Value>, b: seq<Value>, i: nat, v: Value)
    requires i < |a| && i <= |b| && a[i..] == b[i..]
    ensures a[i := v][i + 1..] == b[i + 1..]
  {
    assert a[i..][1..] == b[i..][1..];
  }
}
