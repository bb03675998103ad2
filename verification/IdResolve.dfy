/** ID resolution in the table generator: explicit, locked and automatically allocated IDs. */
module IdResolve {
  import opened IdHash
  import opened SchemaRows
  import opened Wrappers

  datatype Failure = DuplicateEnum | IdOutOfRange | DuplicateId | NoFreeId | BucketCollision

  const MAX_ID: nat := 65535

  /** ID ranges per group. */
  datatype Allocator = Allocator(ranges: map<string, (nat, nat)>, fallback: (nat, nat))

  function RangeOf(cfg: Allocator, row: Row): (nat, nat) {
    if row.group in cfg.ranges then cfg.ranges[row.group] else cfg.fallback
  }

  function AlwaysOn(rows: seq<Row>): (r: nat)
    ensures r <= |rows|
  {
    if |rows| == 0 then 0 else AlwaysOn(rows[..|rows| - 1]) + if rows[|rows| - 1].conditional then 0 else 1
  }

  /** It counts the rows that no condition can drop. */
  lemma {:induction false} AlwaysOnCounts(rows: seq<Row>)
    ensures AlwaysOn(rows) == |set k | 0 <= k < |rows| && !rows[k].conditional|
  {
    var all := set k | 0 <= k < |rows| && !rows[k].conditional;
    if |rows| == 0 {
      assert all == {};
    } else {
      var n := |rows| - 1;
      AlwaysOnCounts(rows[..n]);
      var front := set k | 0 <= k < n && !rows[..n][k].conditional;
      assert all == if rows[n].conditional then front else front + {n};
    }
  }

  /** Bucket width the generator checks at: sized for the rows no build can drop. */
  function TableBits(rows: seq<Row>): (r: nat)
    requires |rows| <= 0x4000_0000
    ensures 1 <= r <= 32
  {
    Bound31();
    BitsBound(2 * if AlwaysOn(rows) > 1 then AlwaysOn(rows) else 1, 31);
    BitsFrom(2 * if AlwaysOn(rows) > 1 then AlwaysOn(rows) else 1, 1)
  }

  /** The least width of at least one bit that gives every unconditional row two buckets. */
  lemma {:induction false} TableRoom(rows: seq<Row>, bits: nat)
    requires |rows| <= 0x4000_0000 && 1 <= bits
    ensures var always := |set k | 0 <= k < |rows| && !rows[k].conditional|;
      TableBits(rows) <= bits <==> Pow2(bits) >= 2 * always
  {
    AlwaysOnCounts(rows);
    var need := 2 * if AlwaysOn(rows) > 1 then AlwaysOn(rows) else 1;
    assert Pow2(1) == 2;
    if bits > 1 {
      PowMono(1, bits);
    }
    if TableBits(rows) < bits {
      PowMono(TableBits(rows), bits);
    }
    if Pow2(bits) >= 2 * AlwaysOn(rows) {
      BitsBound(need, bits);
    }
  }

  lemma Bound31()
    ensures Pow2(31) == 0x8000_0000
  {
    Pow32();
  }

  // ----- Reserving

  function ReserveExplicit(rows: seq<Row>, i: nat, reserved: set<nat>): Result<set<nat>, Failure>
    requires i <= |rows|
    decreases |rows| - i
  {
    if i == |rows| then Ok(reserved)
    else match rows[i].idSpec
      case Auto => ReserveExplicit(rows, i + 1, reserved)
      case Explicit(v) =>
        if v < 0 || v > MAX_ID then Err(IdOutOfRange)
        else if v in reserved then Err(DuplicateId)
        else ReserveExplicit(rows, i + 1, reserved + {v})
  }

  function ReserveLocked(rows: seq<Row>, lock: map<string, nat>, i: nat, reserved: set<nat>): Result<set<nat>, Failure>
    requires i <= |rows|
    decreases |rows| - i
  {
    if i == |rows| then Ok(reserved)
    else if rows[i].idSpec.Auto? && rows[i].enumName in lock then
      var v := lock[rows[i].enumName];
      if v in reserved then Err(DuplicateId) else ReserveLocked(rows, lock, i + 1, reserved + {v})
    else ReserveLocked(rows, lock, i + 1, reserved)
  }

  // ----- Allocating

  function Buckets(ids: set<nat>, bits: nat): set<nat>
    requires bits <= 32
  {
    set v | v in ids :: HashId(v, bits)
  }

  /** First candidate that is neither used nor in a used bucket. */
  function FirstFree(candidate: nat, end: nat, used: set<nat>, bits: nat): (r: Result<nat, Failure>)
    requires bits <= 32
    ensures r.Ok? ==>
      && candidate <= r.value <= end
      && r.value !in used && HashId(r.value, bits) !in Buckets(used, bits)
    ensures forall c :: candidate <= c <= end && (r.Ok? ==> c < r.value) ==>
      c in used || HashId(c, bits) in Buckets(used, bits)
    decreases end + 1 - candidate
  {
    if candidate > end then Err(NoFreeId)
    else if candidate in used || HashId(candidate, bits) in Buckets(used, bits) then
      FirstFree(candidate + 1, end, used, bits)
    else Ok(candidate)
  }

  /** An automatic row without a lock entry. */
  predicate IsFree(row: Row, lock: map<string, nat>) {
    row.idSpec.Auto? && row.enumName !in lock
  }

  function Choose(row: Row, lock: map<string, nat>, cfg: Allocator, used: set<nat>, bits: nat): Result<nat, Failure>
    requires bits <= 32
  {
    match row.idSpec
    case Explicit(v) => if v < 0 || v > MAX_ID then Err(IdOutOfRange) else Ok(v)
    case Auto =>
      if row.enumName in lock then Ok(lock[row.enumName])
      else FirstFree(RangeOf(cfg, row).0, RangeOf(cfg, row).1, used, bits)
  }

  function Assign(rows: seq<Row>, lock: map<string, nat>, cfg: Allocator, bits: nat, used: set<nat>,
                  ids: seq<nat>): Result<seq<nat>, Failure>
    requires bits <= 32 && |ids| <= |rows|
    decreases |rows| - |ids|
  {
    if |ids| == |rows| then Ok(ids)
    else match Choose(rows[|ids|], lock, cfg, used, bits)
      case Err(f) => Err(f)
      case Ok(id) =>
        if id in ids then Err(DuplicateId) else Assign(rows, lock, cfg, bits, used + {id}, ids + [id])
  }

  /** No two IDs share a bucket. */
  function CheckBuckets(ids: seq<nat>, bits: nat, i: nat, seen: set<nat>): bool
    requires bits <= 32 && i <= |ids|
    decreases |ids| - i
  {
    i == |ids| || (HashId(ids[i], bits) !in seen && CheckBuckets(ids, bits, i + 1, seen + {HashId(ids[i], bits)}))
  }

  ghost function Resolve(rows: seq<Row>, lock: map<string, nat>, cfg: Allocator): Result<seq<nat>, Failure>
    requires |rows| <= 0x4000_0000
  {
    if !DistinctEnums(rows) then Err(DuplicateEnum)
    else match ReserveExplicit(rows, 0, {})
      case Err(f) => Err(f)
      case Ok(explicit) =>
        match ReserveLocked(rows, lock, 0, explicit)
        case Err(f) => Err(f)
        case Ok(reserved) =>
          match Assign(rows, lock, cfg, TableBits(rows), reserved, [])
          case Err(f) => Err(f)
          case Ok(ids) => if CheckBuckets(ids, TableBits(rows), 0, {}) then Ok(ids) else Err(BucketCollision)
  }

  // ----- What a resolution guarantees

  ghost predicate DistinctBuckets(ids: seq<nat>, bits: nat)
    requires bits <= 32
  {
    forall i, j :: 0 <= i < j < |ids| ==> HashId(ids[i], bits) != HashId(ids[j], bits)
  }

  lemma {:induction false} CheckedBuckets(ids: seq<nat>, bits: nat, i: nat, seen: set<nat>)
    requires bits <= 32 && i <= |ids|
    ensures CheckBuckets(ids, bits, i, seen) <==>
      && (forall j, k :: i <= j < k < |ids| ==> HashId(ids[j], bits) != HashId(ids[k], bits))
      && (forall j :: i <= j < |ids| ==> HashId(ids[j], bits) !in seen)
    decreases |ids| - i
  {
    hide HashId;
    if i < |ids| {
      CheckedBuckets(ids, bits, i + 1, seen + {HashId(ids[i], bits)});
    }
  }

  /** ID `k` is what row `k` demands, or a fresh one from its range that avoids every reserved and earlier bucket. */
  ghost predicate PlacedAt(rows: seq<Row>, lock: map<string, nat>, cfg: Allocator, bits: nat, reserved: set<nat>,
                           ids: seq<nat>, k: nat)
    requires bits <= 32 && k < |ids| <= |rows|
  {
    if IsFree(rows[k], lock) then
      && (rows[k].group in cfg.ranges ==> cfg.ranges[rows[k].group].0 <= ids[k] <= cfg.ranges[rows[k].group].1)
      && (rows[k].group !in cfg.ranges ==> cfg.fallback.0 <= ids[k] <= cfg.fallback.1)
      && ids[k] !in reserved && HashId(ids[k], bits) !in Buckets(reserved, bits)
      && forall j :: 0 <= j < k ==> HashId(ids[k], bits) != HashId(ids[j], bits)
    else
      ids[k] == match rows[k].idSpec case Explicit(v) => v case Auto => lock[rows[k].enumName]
  }

  ghost predicate Placed(rows: seq<Row>, lock: map<string, nat>, cfg: Allocator, bits: nat, reserved: set<nat>,
                         ids: seq<nat>)
    requires bits <= 32 && |ids| <= |rows|
  {
    && (forall k :: 0 <= k < |ids| ==> PlacedAt(rows, lock, cfg, bits, reserved, ids, k))
    && (forall i, j :: 0 <= i < j < |ids| ==> ids[i] != ids[j])
  }

  lemma PlacedNext(rows: seq<Row>, lock: map<string, nat>, cfg: Allocator, bits: nat, reserved: set<nat>,
                   used: set<nat>, ids: seq<nat>, id: nat)
    requires bits <= 32 && |ids| < |rows| && Placed(rows, lock, cfg, bits, reserved, ids)
    requires used == reserved + (set x | x in ids)
    requires Choose(rows[|ids|], lock, cfg, used, bits) == Ok(id) && id !in ids
    ensures Placed(rows, lock, cfg, bits, reserved, ids + [id])
  {
    hide HashId;
    var ids' := ids + [id];
    forall k | 0 <= k < |ids'|
      ensures PlacedAt(rows, lock, cfg, bits, reserved, ids', k)
    {
      if k < |ids| {
        assert PlacedAt(rows, lock, cfg, bits, reserved, ids, k);
      } else if IsFree(rows[k], lock) {
        forall j | 0 <= j < k
          ensures HashId(id, bits) != HashId(ids'[j], bits)
        {
          assert ids[j] in used && HashId(ids[j], bits) in Buckets(used, bits);
        }
        assert reserved <= used && Buckets(reserved, bits) <= Buckets(used, bits);
      }
    }
  }

  lemma {:induction false} AssignPlaced(rows: seq<Row>, lock: map<string, nat>, cfg: Allocator, bits: nat,
                                        reserved: set<nat>, used: set<nat>, ids: seq<nat>)
    requires bits <= 32 && |ids| <= |rows| && Placed(rows, lock, cfg, bits, reserved, ids)
    requires used == reserved + (set x | x in ids)
    ensures var r := Assign(rows, lock, cfg, bits, used, ids);
      r.Ok? ==> |r.value| == |rows| && Placed(rows, lock, cfg, bits, reserved, r.value)
    decreases |rows| - |ids|
  {
    hide HashId, RangeOf, FirstFree, Placed, Choose;
    if |ids| < |rows| {
      var c := Choose(rows[|ids|], lock, cfg, used, bits);
      if c.Ok? && c.value !in ids {
        PlacedNext(rows, lock, cfg, bits, reserved, used, ids, c.value);
        assert used + {c.value} == reserved + (set x | x in ids + [c.value]);
        AssignPlaced(rows, lock, cfg, bits, reserved, used + {c.value}, ids + [c.value]);
      }
    }
  }

  /** The ID a row brings along: its own number or its lock entry. */
  function Demanded(row: Row, lock: map<string, nat>): (r: int)
    requires !IsFree(row, lock)
  {
    match row.idSpec case Explicit(v) => v case Auto => lock[row.enumName]
  }

  lemma {:induction false} ExplicitReserved(rows: seq<Row>, i: nat, acc: set<nat>)
    requires i <= |rows| && ReserveExplicit(rows, i, acc).Ok?
    ensures acc <= ReserveExplicit(rows, i, acc).value
    ensures forall k :: i <= k < |rows| && rows[k].idSpec.Explicit? ==>
      0 <= rows[k].idSpec.value <= MAX_ID && rows[k].idSpec.value in ReserveExplicit(rows, i, acc).value
    decreases |rows| - i
  {
    if i < |rows| {
      ExplicitReserved(rows, i + 1, if rows[i].idSpec.Auto? then acc else acc + {rows[i].idSpec.value});
    }
  }

  lemma {:induction false} LockedReserved(rows: seq<Row>, lock: map<string, nat>, i: nat, acc: set<nat>)
    requires i <= |rows| && ReserveLocked(rows, lock, i, acc).Ok?
    ensures acc <= ReserveLocked(rows, lock, i, acc).value
    ensures forall k :: i <= k < |rows| && rows[k].idSpec.Auto? && rows[k].enumName in lock ==>
      lock[rows[k].enumName] in ReserveLocked(rows, lock, i, acc).value
    decreases |rows| - i
  {
    if i < |rows| {
      var mine := rows[i].idSpec.Auto? && rows[i].enumName in lock;
      LockedReserved(rows, lock, i + 1, if mine then acc + {lock[rows[i].enumName]} else acc);
    }
  }

  /** The reserved set of a resolution that got past both reserving passes. */
  ghost predicate Reserved(rows: seq<Row>, lock: map<string, nat>, reserved: set<nat>) {
    var e := ReserveExplicit(rows, 0, {});
    e.Ok? && ReserveLocked(rows, lock, 0, e.value) == Ok(reserved)
  }

  lemma ReservedHolds(rows: seq<Row>, lock: map<string, nat>, reserved: set<nat>, k: nat)
    requires Reserved(rows, lock, reserved) && k < |rows| && !IsFree(rows[k], lock)
    ensures 0 <= Demanded(rows[k], lock) && Demanded(rows[k], lock) in reserved
  {
    ExplicitReserved(rows, 0, {});
    LockedReserved(rows, lock, 0, ReserveExplicit(rows, 0, {}).value);
  }

  /** A successful resolution: IDs and buckets are pairwise distinct, explicit and locked IDs are kept,
      and every other ID lies in the range of its group, or in the default range when the group has none.
      Explicit IDs fit 16 bits. */
  lemma Resolution(rows: seq<Row>, lock: map<string, nat>, cfg: Allocator)
    requires |rows| <= 0x4000_0000 && Resolve(rows, lock, cfg).Ok?
    ensures var ids := Resolve(rows, lock, cfg).value;
      && |ids| == |rows|
      && (forall i, j :: 0 <= i < j < |ids| ==> ids[i] != ids[j])
      && DistinctBuckets(ids, TableBits(rows))
      && forall k :: 0 <= k < |ids| ==>
           if !IsFree(rows[k], lock) then ids[k] == Demanded(rows[k], lock)
           else if rows[k].group in cfg.ranges then
             cfg.ranges[rows[k].group].0 <= ids[k] <= cfg.ranges[rows[k].group].1
           else cfg.fallback.0 <= ids[k] <= cfg.fallback.1
    ensures forall k :: 0 <= k < |rows| && rows[k].idSpec.Explicit? ==> 0 <= rows[k].idSpec.value <= 65535
  {
    hide HashId, RangeOf, ReserveExplicit, ReserveLocked, Assign, CheckBuckets, TableBits;
    var bits := TableBits(rows);
    var reserved := ReserveLocked(rows, lock, 0, ReserveExplicit(rows, 0, {}).value).value;
    AssignPlaced(rows, lock, cfg, bits, reserved, reserved, []);
    var ids := Resolve(rows, lock, cfg).value;
    CheckedBuckets(ids, bits, 0, {});
    ExplicitReserved(rows, 0, {});
    forall k | 0 <= k < |ids|
      ensures
        if !IsFree(rows[k], lock) then ids[k] == Demanded(rows[k], lock)
        else if rows[k].group in cfg.ranges then
          cfg.ranges[rows[k].group].0 <= ids[k] <= cfg.ranges[rows[k].group].1
        else cfg.fallback.0 <= ids[k] <= cfg.fallback.1
    {
      assert PlacedAt(rows, lock, cfg, bits, reserved, ids, k);
    }
  }

  /** Allocation never causes a collision: a collision failure always blames two IDs the user fixed. */
  lemma OnlyFixedIdsCollide(rows: seq<Row>, lock: map<string, nat>, cfg: Allocator) returns (i: nat, j: nat)
    requires |rows| <= 0x4000_0000 && Resolve(rows, lock, cfg) == Err(BucketCollision)
    ensures i < j < |rows| && !IsFree(rows[i], lock) && !IsFree(rows[j], lock)
    ensures 0 <= Demanded(rows[i], lock) && 0 <= Demanded(rows[j], lock)
    ensures HashId(Demanded(rows[i], lock), TableBits(rows)) == HashId(Demanded(rows[j], lock), TableBits(rows))
  {
    hide HashId, RangeOf, ReserveExplicit, ReserveLocked, CheckBuckets, TableBits, FirstFree;
    var bits := TableBits(rows);
    ReserveFailures(rows, lock);
    var reserved := ReserveLocked(rows, lock, 0, ReserveExplicit(rows, 0, {}).value).value;
    AssignFailures(rows, lock, cfg, bits, reserved, []);
    AssignPlaced(rows, lock, cfg, bits, reserved, reserved, []);
    var ids := Assign(rows, lock, cfg, bits, reserved, []).value;
    CheckedBuckets(ids, bits, 0, {});
    i, j :| 0 <= i < j < |ids| && HashId(ids[i], bits) == HashId(ids[j], bits);
    assert PlacedAt(rows, lock, cfg, bits, reserved, ids, i) && PlacedAt(rows, lock, cfg, bits, reserved, ids, j);
    if !IsFree(rows[j], lock) {
      ReservedHolds(rows, lock, reserved, j);
    }
    if !IsFree(rows[i], lock) {
      ReservedHolds(rows, lock, reserved, i);
    }
  }

  lemma {:induction false} AssignFailures(rows: seq<Row>, lock: map<string, nat>, cfg: Allocator, bits: nat,
                                          used: set<nat>, ids: seq<nat>)
    requires bits <= 32 && |ids| <= |rows|
    ensures Assign(rows, lock, cfg, bits, used, ids) != Err(BucketCollision)
    decreases |rows| - |ids|
  {
    hide HashId, RangeOf, Buckets;
    if |ids| < |rows| {
      FreeFailures(RangeOf(cfg, rows[|ids|]).0, RangeOf(cfg, rows[|ids|]).1, used, bits);
      var c := Choose(rows[|ids|], lock, cfg, used, bits);
      if c.Ok? {
        AssignFailures(rows, lock, cfg, bits, used + {c.value}, ids + [c.value]);
      }
    }
  }

  lemma {:induction false} FreeFailures(candidate: nat, end: nat, used: set<nat>, bits: nat)
    requires bits <= 32
    ensures FirstFree(candidate, end, used, bits).Err? ==> FirstFree(candidate, end, used, bits) == Err(NoFreeId)
    decreases end + 1 - candidate
  {
    if candidate <= end {
      FreeFailures(candidate + 1, end, used, bits);
    }
  }

  lemma ReserveFailures(rows: seq<Row>, lock: map<string, nat>)
    ensures ReserveExplicit(rows, 0, {}) != Err(BucketCollision)
    ensures forall acc :: ReserveLocked(rows, lock, 0, acc) != Err(BucketCollision)
  {
    ExplicitFailures(rows, 0, {});
    forall acc
      ensures ReserveLocked(rows, lock, 0, acc) != Err(BucketCollision)
    {
      LockedFailures(rows, lock, 0, acc);
    }
  }

  lemma {:induction false} ExplicitFailures(rows: seq<Row>, i: nat, acc: set<nat>)
    requires i <= |rows|
    ensures ReserveExplicit(rows, i, acc) != Err(BucketCollision)
    decreases |rows| - i
  {
    if i < |rows| {
      ExplicitFailures(rows, i + 1, acc);
      if rows[i].idSpec.Explicit? && rows[i].idSpec.value >= 0 {
        ExplicitFailures(rows, i + 1, acc + {rows[i].idSpec.value});
      }
    }
  }

  lemma {:induction false} LockedFailures(rows: seq<Row>, lock: map<string, nat>, i: nat, acc: set<nat>)
    requires i <= |rows|
    ensures ReserveLocked(rows, lock, i, acc) != Err(BucketCollision)
    decreases |rows| - i
  {
    if i < |rows| {
      LockedFailures(rows, lock, i + 1, acc);
      if rows[i].enumName in lock {
        LockedFailures(rows, lock, i + 1, acc + {lock[rows[i].enumName]});
      }
    }
  }

  // ----- Why a resolution fails

  /** Two rows bring the same ID along. */
  ghost predicate SharedId(rows: seq<Row>, lock: map<string, nat>) {
    exists i, j :: 0 <= i < j < |rows| && SameDemand(rows[i], rows[j], lock)
  }

  ghost predicate SameDemand(a: Row, b: Row, lock: map<string, nat>) {
    !IsFree(a, lock) && !IsFree(b, lock) && Demanded(a, lock) == Demanded(b, lock)
  }

  /** Two rows bring along IDs that fall into one bucket. */
  ghost predicate SameBucket(a: Row, b: Row, lock: map<string, nat>, bits: nat)
    requires bits <= 32
  {
    && !IsFree(a, lock) && !IsFree(b, lock)
    && 0 <= Demanded(a, lock) && 0 <= Demanded(b, lock)
    && HashId(Demanded(a, lock), bits) == HashId(Demanded(b, lock), bits)
  }

  ghost predicate WildId(rows: seq<Row>) {
    exists k :: 0 <= k < |rows| && rows[k].idSpec.Explicit? && !(0 <= rows[k].idSpec.value <= 65535)
  }

  /** Row `k` finds its range exhausted: every candidate is taken, or its bucket is. */
  ghost predicate Exhausted(rows: seq<Row>, lock: map<string, nat>, cfg: Allocator, reserved: set<nat>, ids: seq<nat>)
    requires |ids| < |rows| <= 0x4000_0000
  {
    var row, used := rows[|ids|], reserved + (set x | x in ids);
    var range := if row.group in cfg.ranges then cfg.ranges[row.group] else cfg.fallback;
    && IsFree(row, lock)
    && forall c :: range.0 <= c <= range.1 ==> c in used || HashId(c, TableBits(rows)) in Buckets(used, TableBits(rows))
  }

  /** One of the rows below `n`, or an explicit one, brings ID `x` along. */
  ghost predicate BroughtBy(rows: seq<Row>, lock: map<string, nat>, n: nat, x: nat) {
    exists k :: 0 <= k < |rows| && (k < n || rows[k].idSpec.Explicit?) && !IsFree(rows[k], lock) &&
      Demanded(rows[k], lock) == x
  }

  lemma {:induction false} ExplicitCause(rows: seq<Row>, lock: map<string, nat>, i: nat, acc: set<nat>)
    requires i <= |rows|
    requires forall x :: x in acc ==> exists k :: 0 <= k < i && rows[k].idSpec == Explicit(x)
    ensures match ReserveExplicit(rows, i, acc)
            case Err(DuplicateId) => SharedId(rows, lock)
            case Err(IdOutOfRange) => WildId(rows)
            case Err(_) => false
            case Ok(ids) => forall x :: x in ids ==> BroughtBy(rows, lock, 0, x)
    decreases |rows| - i
  {
    if i < |rows| {
      var acc' := if rows[i].idSpec.Explicit? && rows[i].idSpec.value >= 0 then acc + {rows[i].idSpec.value} else acc;
      ExplicitCause(rows, lock, i + 1, acc');
      if rows[i].idSpec.Explicit? && rows[i].idSpec.value in acc {
        var k :| 0 <= k < i && rows[k].idSpec == rows[i].idSpec;
        assert SameDemand(rows[k], rows[i], lock);
      }
    }
  }

  lemma {:induction false} LockedCause(rows: seq<Row>, lock: map<string, nat>, i: nat, acc: set<nat>)
    requires i <= |rows| && forall x :: x in acc ==> BroughtBy(rows, lock, i, x)
    ensures match ReserveLocked(rows, lock, i, acc)
            case Err(DuplicateId) => SharedId(rows, lock)
            case Err(_) => false
            case Ok(ids) => forall x :: x in ids ==> BroughtBy(rows, lock, |rows|, x)
    decreases |rows| - i
  {
    if i < |rows| {
      var mine := rows[i].idSpec.Auto? && rows[i].enumName in lock;
      if mine && lock[rows[i].enumName] in acc {
        var k :| 0 <= k < |rows| && (k < i || rows[k].idSpec.Explicit?) && !IsFree(rows[k], lock) &&
          Demanded(rows[k], lock) == lock[rows[i].enumName];
        assert SameDemand(rows[k], rows[i], lock) && SameDemand(rows[i], rows[k], lock);
      } else {
        LockedCause(rows, lock, i + 1, if mine then acc + {lock[rows[i].enumName]} else acc);
      }
    }
  }

  lemma {:induction false} AssignCause(rows: seq<Row>, lock: map<string, nat>, cfg: Allocator, reserved: set<nat>,
                                       used: set<nat>, ids: seq<nat>)
    requires |ids| <= |rows| <= 0x4000_0000 && Placed(rows, lock, cfg, TableBits(rows), reserved, ids)
    requires used == reserved + (set x | x in ids) && Reserved(rows, lock, reserved)
    ensures match Assign(rows, lock, cfg, TableBits(rows), used, ids)
            case Err(DuplicateId) => SharedId(rows, lock)
            case Err(IdOutOfRange) => WildId(rows)
            case Err(NoFreeId) =>
              exists front :: |front| < |rows| && Placed(rows, lock, cfg, TableBits(rows), reserved, front) &&
                Exhausted(rows, lock, cfg, reserved, front)
            case Err(_) => false
            case Ok(_) => true
    decreases |rows| - |ids|
  {
    hide HashId, Placed, TableBits, Reserved;
    var bits := TableBits(rows);
    if |ids| < |rows| {
      var c := Choose(rows[|ids|], lock, cfg, used, bits);
      if c.Ok? && c.value in ids {
        DuplicateCause(rows, lock, cfg, reserved, used, ids, c.value);
      } else if c.Ok? {
        PlacedNext(rows, lock, cfg, bits, reserved, used, ids, c.value);
        assert used + {c.value} == reserved + (set x | x in ids + [c.value]);
        AssignCause(rows, lock, cfg, reserved, used + {c.value}, ids + [c.value]);
      } else if IsFree(rows[|ids|], lock) {
        FreeFailures(RangeOf(cfg, rows[|ids|]).0, RangeOf(cfg, rows[|ids|]).1, used, bits);
        assert Exhausted(rows, lock, cfg, reserved, ids);
      }
    }
  }

  lemma DuplicateCause(rows: seq<Row>, lock: map<string, nat>, cfg: Allocator, reserved: set<nat>, used: set<nat>,
                       ids: seq<nat>, id: nat)
    requires |ids| < |rows| <= 0x4000_0000 && Placed(rows, lock, cfg, TableBits(rows), reserved, ids)
    requires used == reserved + (set x | x in ids) && id in ids && Reserved(rows, lock, reserved)
    requires Choose(rows[|ids|], lock, cfg, used, TableBits(rows)) == Ok(id)
    ensures SharedId(rows, lock)
  {
    hide HashId, TableBits, FirstFree;
    var n := |ids|;
    var j :| 0 <= j < n && ids[j] == id;
    assert PlacedAt(rows, lock, cfg, TableBits(rows), reserved, ids, j);
    assert !IsFree(rows[n], lock) && Demanded(rows[n], lock) == id;
    ReservedHolds(rows, lock, reserved, n);
    assert !IsFree(rows[j], lock);
    assert SameDemand(rows[j], rows[n], lock);
  }

  /** Every failure names its cause. */
  lemma FailureCause(rows: seq<Row>, lock: map<string, nat>, cfg: Allocator)
    requires |rows| <= 0x4000_0000
    ensures match Resolve(rows, lock, cfg)
            case Err(DuplicateEnum) => exists i, j :: 0 <= i < j < |rows| && rows[i].enumName == rows[j].enumName
            case Err(IdOutOfRange) => WildId(rows)
            case Err(DuplicateId) => SharedId(rows, lock)
            case Err(NoFreeId) =>
              exists reserved, front :: |front| < |rows| && Reserved(rows, lock, reserved) &&
                Placed(rows, lock, cfg, TableBits(rows), reserved, front) &&
                Exhausted(rows, lock, cfg, reserved, front)
            case Err(BucketCollision) =>
              exists i, j :: 0 <= i < j < |rows| && SameBucket(rows[i], rows[j], lock, TableBits(rows))
            case Ok(_) => DistinctEnums(rows)
  {
    hide HashId, ReserveExplicit, ReserveLocked, Assign, CheckBuckets, TableBits, Placed, Exhausted;
    ExplicitCause(rows, lock, 0, {});
    var explicit := ReserveExplicit(rows, 0, {});
    if DistinctEnums(rows) && explicit.Ok? {
      LockedCause(rows, lock, 0, explicit.value);
      var reserved := ReserveLocked(rows, lock, 0, explicit.value);
      if reserved.Ok? {
        NothingPlaced(rows, lock, cfg, reserved.value);
        AssignCause(rows, lock, cfg, reserved.value, reserved.value, []);
      }
    }
    if Resolve(rows, lock, cfg) == Err(BucketCollision) {
      var i, j := OnlyFixedIdsCollide(rows, lock, cfg);
      assert SameBucket(rows[i], rows[j], lock, TableBits(rows));
    }
  }

  lemma NothingPlaced(rows: seq<Row>, lock: map<string, nat>, cfg: Allocator, reserved: set<nat>)
    requires |rows| <= 0x4000_0000
    ensures Placed(rows, lock, cfg, TableBits(rows), reserved, [])
  {
  }

  // ----- Running the generator again with the lock it wrote

  /** The lock file written after a resolution. */
  function EmitLock(rows: seq<Row>, ids: seq<nat>): map<string, nat>
    requires |ids| == |rows|
  {
    if |rows| == 0 then map[]
    else EmitLock(rows[..|rows| - 1], ids[..|rows| - 1])[rows[|rows| - 1].enumName := ids[|rows| - 1]]
  }

  lemma {:induction false} EmittedAt(rows: seq<Row>, ids: seq<nat>, k: nat)
    requires |ids| == |rows| && DistinctEnums(rows) && k < |rows|
    ensures rows[k].enumName in EmitLock(rows, ids) && EmitLock(rows, ids)[rows[k].enumName] == ids[k]
  {
    var n := |rows| - 1;
    if k < n {
      EmittedAt(rows[..n], ids[..n], k);
    }
  }

  /** No row is free: `ids` are the IDs the rows bring along. */
  ghost predicate Fixes(rows: seq<Row>, lock: map<string, nat>, ids: seq<nat>) {
    && |ids| == |rows|
    && forall k :: 0 <= k < |rows| ==> !IsFree(rows[k], lock) && Demanded(rows[k], lock) == ids[k]
  }

  ghost predicate DistinctIds(ids: seq<nat>) {
    forall i, j :: 0 <= i < j < |ids| ==> ids[i] != ids[j]
  }

  ghost predicate InRange(rows: seq<Row>, ids: seq<nat>)
    requires |ids| == |rows|
  {
    forall k :: 0 <= k < |rows| && rows[k].idSpec.Explicit? ==> ids[k] <= MAX_ID
  }

  /** The explicit pass reserves exactly the IDs of explicit rows. */
  lemma {:induction false} ExplicitExact(rows: seq<Row>, i: nat, acc: set<nat>, x: nat)
    requires i <= |rows| && ReserveExplicit(rows, i, acc).Ok? && x in ReserveExplicit(rows, i, acc).value
    ensures x in acc || exists k :: i <= k < |rows| && rows[k].idSpec == Explicit(x)
    decreases |rows| - i
  {
    if i < |rows| {
      ExplicitExact(rows, i + 1, if rows[i].idSpec.Auto? then acc else acc + {rows[i].idSpec.value}, x);
    }
  }

  lemma {:induction false} FixedExplicit(rows: seq<Row>, lock: map<string, nat>, ids: seq<nat>, i: nat, acc: set<nat>)
    requires i <= |rows| && Fixes(rows, lock, ids) && DistinctIds(ids) && InRange(rows, ids)
    requires forall k :: i <= k < |rows| && rows[k].idSpec.Explicit? ==> ids[k] !in acc
    ensures ReserveExplicit(rows, i, acc).Ok?
    decreases |rows| - i
  {
    if i < |rows| {
      FixedExplicit(rows, lock, ids, i + 1, if rows[i].idSpec.Explicit? then acc + {ids[i]} else acc);
    }
  }

  lemma {:induction false} FixedLocked(rows: seq<Row>, lock: map<string, nat>, ids: seq<nat>, i: nat, acc: set<nat>)
    requires i <= |rows| && Fixes(rows, lock, ids) && DistinctIds(ids)
    requires forall k :: i <= k < |rows| && rows[k].idSpec.Auto? ==> ids[k] !in acc
    ensures ReserveLocked(rows, lock, i, acc).Ok?
    decreases |rows| - i
  {
    if i < |rows| {
      FixedLocked(rows, lock, ids, i + 1, if rows[i].idSpec.Auto? then acc + {ids[i]} else acc);
    }
  }

  lemma {:induction false} FixedAssigns(rows: seq<Row>, lock: map<string, nat>, cfg: Allocator, bits: nat,
                                        ids: seq<nat>, i: nat, used: set<nat>)
    requires bits <= 32 && i <= |rows| && Fixes(rows, lock, ids) && DistinctIds(ids) && InRange(rows, ids)
    ensures Assign(rows, lock, cfg, bits, used, ids[..i]) == Ok(ids)
    decreases |rows| - i
  {
    hide HashId, RangeOf, Buckets, FirstFree;
    if i < |rows| {
      FixedAssigns(rows, lock, cfg, bits, ids, i + 1, used + {ids[i]});
      assert ids[..i + 1] == ids[..i] + [ids[i]];
      assert !IsFree(rows[i], lock) && Demanded(rows[i], lock) == ids[i];
    } else {
      assert ids[..i] == ids;
    }
  }

  lemma {:induction false} FixedReserves(rows: seq<Row>, lock: map<string, nat>, ids: seq<nat>)
    requires Fixes(rows, lock, ids) && DistinctIds(ids) && InRange(rows, ids)
    ensures ReserveExplicit(rows, 0, {}).Ok?
    ensures ReserveLocked(rows, lock, 0, ReserveExplicit(rows, 0, {}).value).Ok?
  {
    hide ReserveExplicit, ReserveLocked;
    FixedExplicit(rows, lock, ids, 0, {});
    var explicit := ReserveExplicit(rows, 0, {}).value;
    forall k | 0 <= k < |rows| && rows[k].idSpec.Auto?
      ensures ids[k] !in explicit
    {
      if ids[k] in explicit {
        ExplicitExact(rows, 0, {}, ids[k]);
      }
    }
    FixedLocked(rows, lock, ids, 0, explicit);
  }

  /** A table without free rows resolves exactly when its enum names are distinct, its explicit IDs are in range
      and its IDs fall into distinct buckets; the result is the IDs it brings along. */
  lemma FixedTable(rows: seq<Row>, lock: map<string, nat>, cfg: Allocator, ids: seq<nat>)
    requires |rows| <= 0x4000_0000 && Fixes(rows, lock, ids)
    ensures Resolve(rows, lock, cfg).Ok? <==>
      DistinctEnums(rows) && InRange(rows, ids) && DistinctBuckets(ids, TableBits(rows))
    ensures Resolve(rows, lock, cfg).Ok? ==> Resolve(rows, lock, cfg).value == ids
  {
    hide HashId, RangeOf, Buckets, FirstFree, TableBits, ReserveLocked, ReserveExplicit, Assign, CheckBuckets;
    var bits := TableBits(rows);
    CheckedBuckets(ids, bits, 0, {});
    if Resolve(rows, lock, cfg).Ok? {
      Resolution(rows, lock, cfg);
      ExplicitReserved(rows, 0, {});
      assert Resolve(rows, lock, cfg).value == ids;
    }
    if DistinctEnums(rows) && InRange(rows, ids) && DistinctBuckets(ids, bits) {
      FixedReserves(rows, lock, ids);
      FixedAssigns(rows, lock, cfg, bits, ids, 0, ReserveLocked(rows, lock, 0,
        ReserveExplicit(rows, 0, {}).value).value);
      assert ids[..0] == [];
    }
  }

  /** Regenerating with the emitted lock reproduces exactly the same IDs. */
  lemma {:induction false} Regenerate(rows: seq<Row>, lock: map<string, nat>, cfg: Allocator)
    requires |rows| <= 0x4000_0000 && Resolve(rows, lock, cfg).Ok?
    ensures var ids := Resolve(rows, lock, cfg).value;
      |ids| == |rows| && Resolve(rows, EmitLock(rows, ids), cfg) == Ok(ids)
  {
    hide HashId, RangeOf, TableBits, ReserveLocked, ReserveExplicit, Assign, EmitLock, CheckBuckets;
    Resolution(rows, lock, cfg);
    var ids := Resolve(rows, lock, cfg).value;
    var again := EmitLock(rows, ids);
    forall k | 0 <= k < |rows|
      ensures !IsFree(rows[k], again) && Demanded(rows[k], again) == ids[k]
    {
      EmittedAt(rows, ids, k);
    }
    ExplicitReserved(rows, 0, {});
    FixedTable(rows, again, cfg, ids);
  }
}
