/** The generator's ID pass, step by step over its dictionaries. */
module IdGenerators {
  import opened IdHash
  import opened IdResolve
  import opened SchemaRows
  import opened Wrappers

  class IdGenerator {
    const rows: seq<Row>
    const lock: map<string, nat>
    const cfg: Allocator
    var reservedIds: map<nat, nat>  // ID to row
    var usedIds: map<nat, nat>
    var resolved: seq<nat>

    ghost predicate Valid() {
      |rows| <= 0x4000_0000
    }

    constructor (rows: seq<Row>, lock: map<string, nat>, cfg: Allocator)
      requires |rows| <= 0x4000_0000
      ensures Valid() && reservedIds == map[]
      ensures this.rows == rows && this.lock == lock && this.cfg == cfg
    {
      this.rows, this.lock, this.cfg := rows, lock, cfg;
      reservedIds, usedIds, resolved := map[], map[], [];
    }

    /** Every enum name is used once. */
    method CheckEnums() returns (ok: bool)
      ensures ok <==> DistinctEnums(rows)
    {
      var enums: map<string, nat>, i: nat := map[], 0;
      while i < |rows|
        invariant i <= |rows|
        invariant forall j :: 0 <= j < i ==> rows[j].enumName in enums
        invariant forall name :: name in enums ==> enums[name] < i && rows[enums[name]].enumName == name
        invariant forall j, k :: 0 <= j < k < i ==> rows[j].enumName != rows[k].enumName
      {
        if rows[i].enumName in enums {
          return false;
        }
        enums, i := enums[rows[i].enumName := i], i + 1;
      }
      return true;
    }

    method ReserveId(value: nat, row: nat) returns (ok: bool)
      modifies this`reservedIds
      ensures ok <==> value !in old(reservedIds)
      ensures ok ==> reservedIds == old(reservedIds)[value := row]
      ensures !ok ==> reservedIds == old(reservedIds)
    {
      if value in reservedIds {
        return false;
      }
      reservedIds := reservedIds[value := row];
      return true;
    }

    /** Reserves every explicit ID. */
    method ReserveExplicitIds() returns (r: Result<(), Failure>)
      requires reservedIds == map[]
      modifies this`reservedIds
      ensures match ReserveExplicit(rows, 0, {})
              case Ok(ids) => r == Ok(()) && reservedIds.Keys == ids
              case Err(f) => r == Err(f)
    {
      var i: nat := 0;
      assert reservedIds.Keys == {};
      while i < |rows|
        invariant i <= |rows| && ReserveExplicit(rows, 0, {}) == ReserveExplicit(rows, i, reservedIds.Keys)
        modifies this`reservedIds
      {
        if rows[i].idSpec.Explicit? {
          var value := rows[i].idSpec.value;
          ghost var before := reservedIds.Keys;
          if value < 0 || value > MAX_ID {
            return Err(IdOutOfRange);
          }
          var ok := ReserveId(value, i);
          if !ok {
            return Err(DuplicateId);
          }
          assert reservedIds.Keys == before + {value};
        }
        i := i + 1;
      }
      return Ok(());
    }

    /** Reserves the locked ID of every automatic row that has one. */
    method ReserveLockedIds() returns (r: Result<(), Failure>)
      modifies this`reservedIds
      ensures match ReserveLocked(rows, lock, 0, old(reservedIds.Keys))
              case Ok(ids) => r == Ok(()) && reservedIds.Keys == ids
              case Err(f) => r == Err(f)
    {
      var i: nat := 0;
      while i < |rows|
        invariant i <= |rows|
        invariant ReserveLocked(rows, lock, 0, old(reservedIds.Keys)) == ReserveLocked(rows, lock, i, reservedIds.Keys)
        modifies this`reservedIds
      {
        if rows[i].idSpec.Auto? && rows[i].enumName in lock {
          ghost var before := reservedIds.Keys;
          var ok := ReserveId(lock[rows[i].enumName], i);
          if !ok {
            return Err(DuplicateId);
          }
          assert reservedIds.Keys == before + {lock[rows[i].enumName]};
        }
        i := i + 1;
      }
      return Ok(());
    }

    /** Bucket width for the rows that every build compiles. */
    method HashBitsForRows() returns (bits: nat)
      requires Valid()
      ensures bits == TableBits(rows)
    {
      var always, i: nat := 0, 0;
      while i < |rows|
        invariant i <= |rows| && always == AlwaysOn(rows[..i])
      {
        assert rows[..i + 1][..i] == rows[..i];
        always, i := always + (if rows[i].conditional then 0 else 1), i + 1;
      }
      assert rows[..i] == rows;
      bits := HashBits(always);
    }

    /** Searches the range of the row's group for the first usable ID. */
    method AllocateId(row: Row, bits: nat) returns (r: Result<nat, Failure>)
      requires bits <= 32
      ensures r.Ok? ==>
        && (row.group in cfg.ranges ==> cfg.ranges[row.group].0 <= r.value <= cfg.ranges[row.group].1)
        && (row.group !in cfg.ranges ==> cfg.fallback.0 <= r.value <= cfg.fallback.1)
      ensures r == FirstFree(RangeOf(cfg, row).0, RangeOf(cfg, row).1, usedIds.Keys, bits)
    {
      hide HashId;
      var range := RangeOf(cfg, row);
      var usedBuckets := set v | v in usedIds.Keys :: HashId(v, bits);
      assert usedBuckets == Buckets(usedIds.Keys, bits);
      var candidate: int, end: int := range.0, range.1;
      while candidate <= end
        invariant range.0 <= candidate
        invariant FirstFree(range.0, range.1, usedIds.Keys, bits) == FirstFree(candidate, range.1, usedIds.Keys, bits)
        decreases end + 1 - candidate
      {
        if candidate !in usedIds && HashId(candidate, bits) !in usedBuckets {
          return Ok(candidate);
        }
        candidate := candidate + 1;
      }
      return Err(NoFreeId);
    }

    /** Gives every row its ID. */
    method AssignIds(bits: nat) returns (r: Result<(), Failure>)
      requires bits <= 32
      modifies this`usedIds, this`resolved
      ensures match Assign(rows, lock, cfg, bits, reservedIds.Keys, [])
              case Ok(ids) => r == Ok(()) && resolved == ids
              case Err(f) => r == Err(f)
    {
      hide FirstFree, RangeOf, Buckets;
      usedIds, resolved := reservedIds, [];
      var ids: map<nat, nat> := map[];
      while |resolved| < |rows|
        invariant |resolved| <= |rows|
        invariant forall x :: x in ids <==> x in resolved
        invariant Assign(rows, lock, cfg, bits, reservedIds.Keys, []) ==
          Assign(rows, lock, cfg, bits, usedIds.Keys, resolved)
        modifies this`usedIds, this`resolved
      {
        var i := |resolved|;
        var choice;
        if rows[i].idSpec.Auto? {
          if rows[i].enumName in lock {
            choice := Ok(lock[rows[i].enumName]);
          } else {
            choice := AllocateId(rows[i], bits);
          }
        } else if rows[i].idSpec.value < 0 || rows[i].idSpec.value > MAX_ID {
          choice := Err(IdOutOfRange);
        } else {
          choice := Ok(rows[i].idSpec.value);
        }
        if choice.Err? {
          return Err(choice.error);
        }
        if choice.value in ids {
          return Err(DuplicateId);
        }
        ids := ids[choice.value := i];
        assert usedIds[choice.value := i].Keys == usedIds.Keys + {choice.value};
        usedIds, resolved := usedIds[choice.value := i], resolved + [choice.value];
      }
      return Ok(());
    }

    /** No two resolved IDs share a hash bucket. */
    method CheckCollisions(bits: nat) returns (ok: bool)
      requires bits <= 32
      ensures ok == CheckBuckets(resolved, bits, 0, {})
    {
      hide HashId;
      var buckets: map<nat, nat>, i: nat := map[], 0;
      assert buckets.Keys == {};
      while i < |resolved|
        invariant i <= |resolved| && CheckBuckets(resolved, bits, 0, {}) ==
          CheckBuckets(resolved, bits, i, buckets.Keys)
      {
        var bucket := HashId(resolved[i], bits);
        if bucket in buckets {
          return false;
        }
        assert buckets[bucket := i].Keys == buckets.Keys + {bucket};
        buckets, i := buckets[bucket := i], i + 1;
      }
      return true;
    }

    /** The whole pass: exactly the resolution function, failures included. */
    method ValidateAndResolve() returns (r: Result<seq<nat>, Failure>)
      requires Valid() && reservedIds == map[]
      modifies this
      ensures r == Resolve(rows, lock, cfg)
    {
      hide ReserveExplicit, ReserveLocked, Assign, CheckBuckets, TableBits;
      var distinct := CheckEnums();
      if !distinct {
        return Err(DuplicateEnum);
      }
      var step := ReserveExplicitIds();
      if step.Err? {
        return Err(step.error);
      }
      step := ReserveLockedIds();
      if step.Err? {
        return Err(step.error);
      }
      var bits := HashBitsForRows();
      step := AssignIds(bits);
      if step.Err? {
        return Err(step.error);
      }
      var free := CheckCollisions(bits);
      r := if free then Ok(resolved) else Err(BucketCollision);
    }
  }
}
