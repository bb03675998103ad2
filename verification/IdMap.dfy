/** The compiled ID map: bucket table, lookup by ID, and the optional diagnostic scan at start-up. */
module IdMap {
  import opened IdHash
  import opened IdResolve
  import opened SchemaRows

  datatype Entry = Empty | Occupied(id: nat, num: nat)
  datatype Found = Number(num: nat) | BadNumber | NotFound

  /** Bucket table emitted from the ID list; a later initializer of the same bucket replaces an earlier one. */
  function StaticMap(ids: seq<nat>, bits: nat): (table: seq<Entry>)
    requires bits <= 32
    ensures |table| == Pow2(bits)
  {
    if |ids| == 0 then seq(Pow2(bits), _ => Empty)
    else
      var n := |ids| - 1;
      HashRange(ids[n], bits);
      StaticMap(ids[..n], bits)[HashId(ids[n], bits) := Occupied(ids[n], n)]
  }

  function GetNumById(table: seq<Entry>, bits: nat, numOf: nat, id: nat): Found
    requires bits <= 32 && |table| == Pow2(bits)
  {
    HashRange(id, bits);
    match table[HashId(id, bits)]
    case Empty => NotFound
    case Occupied(stored, num) =>
      if id != stored then NotFound
      else if num >= numOf then BadNumber
      else Number(num)
  }

  /** A bucket holds the last ID that hashes there. */
  lemma {:induction false} BucketHolds(ids: seq<nat>, bits: nat, b: nat)
    requires bits <= 32 && b < Pow2(bits)
    ensures match StaticMap(ids, bits)[b]
            case Empty => forall k :: 0 <= k < |ids| ==> HashId(ids[k], bits) != b
            case Occupied(id, num) =>
              && num < |ids| && ids[num] == id && HashId(id, bits) == b
              && forall k :: num < k < |ids| ==> HashId(ids[k], bits) != b
  {
    hide HashId;
    if |ids| != 0 {
      var n := |ids| - 1;
      BucketHolds(ids[..n], bits, b);
      HashRange(ids[n], bits);
    }
  }

  lemma {:induction false} LookupAt(ids: seq<nat>, bits: nat, n: nat)
    requires bits <= 32 && n < |ids|
    ensures GetNumById(StaticMap(ids, bits), bits, |ids|, ids[n]) == Number(n)
      <==> forall k :: n < k < |ids| ==> HashId(ids[k], bits) != HashId(ids[n], bits)
  {
    hide HashId, StaticMap;
    HashRange(ids[n], bits);
    BucketHolds(ids, bits, HashId(ids[n], bits));
  }

  /** The lookup inverts the ID table exactly when no two IDs share a bucket. */
  lemma {:induction false} InverseIffDistinct(ids: seq<nat>, bits: nat)
    requires bits <= 32
    ensures (forall n :: 0 <= n < |ids| ==> GetNumById(StaticMap(ids, bits), bits, |ids|, ids[n]) == Number(n))
      <==> DistinctBuckets(ids, bits)
  {
    hide HashId, StaticMap, GetNumById;
    forall n | 0 <= n < |ids|
      ensures GetNumById(StaticMap(ids, bits), bits, |ids|, ids[n]) == Number(n)
        <==> forall k :: n < k < |ids| ==> HashId(ids[k], bits) != HashId(ids[n], bits)
    {
      LookupAt(ids, bits, n);
    }
  }

  /** A map compiled for more rows than the table has: the numbers beyond the table are reported as bad. */
  lemma {:induction false} ForeignNumber(ids: seq<nat>, bits: nat, numOf: nat, n: nat)
    requires bits <= 32 && n < |ids| && DistinctBuckets(ids, bits)
    ensures GetNumById(StaticMap(ids, bits), bits, numOf, ids[n]) == if n < numOf then Number(n) else BadNumber
  {
    hide HashId, StaticMap;
    HashRange(ids[n], bits);
    BucketHolds(ids, bits, HashId(ids[n], bits));
  }

  /** An ID outside the table is never found, collisions or not. */
  lemma {:induction false} UnknownNotFound(ids: seq<nat>, bits: nat, id: nat)
    requires bits <= 32 && id !in ids
    ensures GetNumById(StaticMap(ids, bits), bits, |ids|, id) == NotFound
  {
    hide HashId, StaticMap;
    HashRange(id, bits);
    BucketHolds(ids, bits, HashId(id, bits));
  }

  // ----- Every build of a resolved table

  lemma {:induction false} AlwaysOnCompiled(rows: seq<Row>, on: seq<bool>)
    requires Assignment(rows, on)
    ensures AlwaysOn(rows) <= CountOn(on)
  {
    if |rows| != 0 {
      AlwaysOnCompiled(rows[..|rows| - 1], on[..|rows| - 1]);
    }
  }

  /** Width the C build derives from the rows it compiles. */
  function BuildBits(rows: nat): nat {
    LadderBits(2 * rows)
  }

  /** It is the least width that gives every row two buckets, for up to `2^17` rows; beyond that no ladder width
      does. */
  lemma {:induction false} BuildBitsLeast(rows: nat, bits: nat)
    requires 1 <= bits
    ensures rows <= 0x2_0000 ==> (BuildBits(rows) <= bits <==> Pow2(bits) >= 2 * rows)
    ensures Pow2(BuildBits(rows)) >= 2 * rows <==> rows <= 0x2_0000
  {
    hide Pow2, BitsFrom;
    LadderIsLeast(2 * rows);
    PowTable(18);
    if rows <= 0x2_0000 {
      var least := BitsFrom(2 * rows, 1);
      if Pow2(bits) >= 2 * rows {
        BitsBound(2 * rows, bits);
      } else if least < bits {
        PowMono(least, bits);
      }
    }
  }

  lemma {:induction false} BuildIsWider(rows: seq<Row>, on: seq<bool>)
    requires |rows| <= 0x4000_0000 && Assignment(rows, on)
    requires Pow2(BuildBits(CountOn(on))) >= 2 * CountOn(on)
    ensures TableBits(rows) <= BuildBits(CountOn(on)) <= 18
  {
    hide BitsFrom, Pow2;
    AlwaysOnCompiled(rows, on);
    PowTable(18);
    var buckets := 2 * CountOn(on);
    LadderIsLeast(buckets);
    LadderIsLeast(2);
    var always := AlwaysOn(rows);
    BitsMono(2 * if always > 1 then always else 1, if buckets > 2 then buckets else 2);
  }

  /** The IDs compiled into a build, in order. */
  lemma {:induction false} CompiledDistinct(ids: seq<nat>, on: seq<bool>, narrow: nat, wide: nat)
    requires |ids| == |on| && narrow <= wide <= 32 && DistinctBuckets(ids, narrow)
    ensures DistinctBuckets(Compiled(ids, on), wide)
  {
    hide HashId;
    var c := Compiled(ids, on);
    forall i, j | 0 <= i < j < |c|
      ensures HashId(c[i], wide) != HashId(c[j], wide)
    {
      var k := CompiledFrom(ids, on, i);
      var l := CompiledFrom(ids, on, j);
      if l <= k {
        CountOnMono(on, l, k);
      }
      CollisionFreeLifts(ids[k], ids[l], narrow, wide);
    }
  }

  /** Whatever rows a build keeps, once its table-size assertion holds: looking an ID up gives the number
      of the row that carries it, and every other ID is rejected. */
  lemma {:induction false} LookupInEveryBuild(rows: seq<Row>, lock: map<string, nat>, cfg: Allocator, on: seq<bool>)
    requires |rows| <= 0x4000_0000 && Resolve(rows, lock, cfg).Ok? && Assignment(rows, on)
    requires Pow2(BuildBits(CountOn(on))) >= 2 * CountOn(on)
    ensures var ids := Resolve(rows, lock, cfg).value;
      && |ids| == |rows|
      && BuildBits(CountOn(on)) <= 32
      && var built, bits := Compiled(ids, on), BuildBits(CountOn(on));
         forall id: nat, n: nat ::
           GetNumById(StaticMap(built, bits), bits, |built|, id) == Number(n) <==> n < |built| && built[n] == id
  {
    hide HashId, StaticMap, GetNumById, TableBits, Resolve, Pow2, LadderBits;
    Resolution(rows, lock, cfg);
    BuildIsWider(rows, on);
    var ids, bits := Resolve(rows, lock, cfg).value, BuildBits(CountOn(on));
    var built := Compiled(ids, on);
    CompiledDistinct(ids, on, TableBits(rows), bits);
    InverseIffDistinct(built, bits);
    forall id: nat, n: nat
      ensures GetNumById(StaticMap(built, bits), bits, |built|, id) == Number(n) <==> n < |built| && built[n] == id
    {
      if id in built {
        var k :| 0 <= k < |built| && built[k] == id;
        assert GetNumById(StaticMap(built, bits), bits, |built|, built[k]) == Number(k);
        if n < |built| && built[n] == id {
          assert GetNumById(StaticMap(built, bits), bits, |built|, built[n]) == Number(n);
        }
      } else {
        UnknownNotFound(built, bits, id);
      }
    }
  }

  // ----- Start-up diagnostic scan

  /** Row `i` is the first one in the bucket of the later row `j`. */
  ghost predicate FirstBefore(ids: seq<nat>, bits: nat, i: nat, j: nat)
    requires bits <= 32
  {
    && i < j < |ids| && HashId(ids[i], bits) == HashId(ids[j], bits)
    && forall k :: 0 <= k < i ==> HashId(ids[k], bits) != HashId(ids[j], bits)
  }

  ghost predicate ScanClean(ids: seq<nat>, bits: nat, dupCheck: bool, collisionCheck: bool, n: nat)
    requires bits <= 32 && n <= |ids|
  {
    forall i: nat, j: nat :: j < n && FirstBefore(ids, bits, i, j) ==>
      if ids[i] == ids[j] then !dupCheck else !collisionCheck
  }

  method ValidateIdTable(ids: seq<nat>, bits: nat, dupCheck: bool, collisionCheck: bool) returns (ok: bool)
    requires bits <= 32
    ensures ok <==> ScanClean(ids, bits, dupCheck, collisionCheck, |ids|)
  {
    hide HashId;
    var diagMap := new Entry[Pow2(bits)](_ => Empty);
    var num: nat := 0;
    while num < |ids|
      invariant num <= |ids| && ScanClean(ids, bits, dupCheck, collisionCheck, num)
      invariant forall b :: 0 <= b < diagMap.Length && diagMap[b].Empty? ==>
        forall k :: 0 <= k < num ==> HashId(ids[k], bits) != b
      invariant forall b :: 0 <= b < diagMap.Length && diagMap[b].Occupied? ==>
        && diagMap[b].num < num && ids[diagMap[b].num] == diagMap[b].id && HashId(diagMap[b].id, bits) == b
        && forall k :: 0 <= k < diagMap[b].num ==> HashId(ids[k], bits) != b
    {
      HashRange(ids[num], bits);
      var bucket := HashId(ids[num], bits);
      if diagMap[bucket].Empty? {
        diagMap[bucket] := Occupied(ids[num], num);
      } else {
        assert FirstBefore(ids, bits, diagMap[bucket].num, num);
        if dupCheck && diagMap[bucket].id == ids[num] {
          return false;
        }
        if collisionCheck && diagMap[bucket].id != ids[num] {
          return false;
        }
      }
      num := num + 1;
    }
    return true;
  }

  /** With both checks enabled a clean scan means exactly that the lookup inverts the table. */
  lemma BothChecks(ids: seq<nat>, bits: nat)
    requires bits <= 32
    ensures ScanClean(ids, bits, true, true, |ids|) <==> DistinctBuckets(ids, bits)
  {
    hide HashId;
    if ScanClean(ids, bits, true, true, |ids|) {
      forall i, j | 0 <= i < j < |ids|
        ensures HashId(ids[i], bits) != HashId(ids[j], bits)
      {
        if HashId(ids[i], bits) == HashId(ids[j], bits) {
          var f := FirstInBucket(ids, bits, HashId(ids[j], bits), i);
        }
      }
    }
  }

  lemma {:induction false} FirstInBucket(ids: seq<nat>, bits: nat, b: nat, i: nat) returns (f: nat)
    requires bits <= 32 && i < |ids| && HashId(ids[i], bits) == b
    ensures f <= i && HashId(ids[f], bits) == b
    ensures forall k :: 0 <= k < f ==> HashId(ids[k], bits) != b
  {
    hide HashId;
    f := i;
    if k :| 0 <= k < i && HashId(ids[k], bits) == b {
      f := FirstInBucket(ids, bits, b, k);
    }
  }

  // ----- Compile-time checks

  /** A switch compiles exactly when no case label repeats an earlier one. */
  predicate SwitchCompiles(labels: seq<nat>) {
    |labels| == 0 || (SwitchCompiles(labels[..|labels| - 1]) && labels[|labels| - 1] !in labels[..|labels| - 1])
  }

  function BucketLabels(ids: seq<nat>, bits: nat): (r: seq<nat>)
    requires bits <= 32
    ensures |r| == |ids| && forall i :: 0 <= i < |r| ==> r[i] == HashId(ids[i], bits)
  {
    seq(|ids|, i requires 0 <= i < |ids| => HashId(ids[i], bits))
  }

  /** The two generated switches: one over the IDs, one over their buckets. */
  predicate Builds(ids: seq<nat>, bits: nat)
    requires bits <= 32
  {
    SwitchCompiles(ids) && SwitchCompiles(BucketLabels(ids, bits))
  }

  lemma {:induction false} DistinctLabels(labels: seq<nat>)
    ensures SwitchCompiles(labels) <==> forall i, j :: 0 <= i < j < |labels| ==> labels[i] != labels[j]
  {
    if |labels| != 0 {
      var n := |labels| - 1;
      DistinctLabels(labels[..n]);
      if labels[n] in labels[..n] {
        var i :| 0 <= i < n && labels[..n][i] == labels[n];
        assert labels[i] == labels[n];
      } else {
        assert forall i :: 0 <= i < n ==> labels[i] == labels[..n][i];
      }
    }
  }

  /** A table builds exactly when no two IDs share a bucket; the switch over the IDs refuses nothing more. */
  lemma BuildsIffDistinct(ids: seq<nat>, bits: nat)
    requires bits <= 32
    ensures Builds(ids, bits) <==> DistinctBuckets(ids, bits)
  {
    hide HashId;
    DistinctLabels(ids);
    DistinctLabels(BucketLabels(ids, bits));
  }

  /** Every table that builds passes the start-up scan, whatever the two switches are set to. */
  lemma BuiltPassesScan(ids: seq<nat>, bits: nat, dupCheck: bool, collisionCheck: bool)
    requires bits <= 32 && Builds(ids, bits)
    ensures ScanClean(ids, bits, dupCheck, collisionCheck, |ids|)
  {
    hide HashId, Builds;
    BuildsIffDistinct(ids, bits);
  }

  /** Whatever rows a build keeps of a resolved table, once its table-size assertion holds it builds. */
  lemma {:induction false} ResolvedBuilds(rows: seq<Row>, lock: map<string, nat>, cfg: Allocator, on: seq<bool>)
    requires |rows| <= 0x4000_0000 && Resolve(rows, lock, cfg).Ok? && Assignment(rows, on)
    requires Pow2(BuildBits(CountOn(on))) >= 2 * CountOn(on)
    ensures |Resolve(rows, lock, cfg).value| == |rows| && BuildBits(CountOn(on)) <= 32
    ensures Builds(Compiled(Resolve(rows, lock, cfg).value, on), BuildBits(CountOn(on)))
  {
    hide HashId, TableBits, Resolve, Pow2, LadderBits, Builds;
    Resolution(rows, lock, cfg);
    BuildIsWider(rows, on);
    var ids, bits := Resolve(rows, lock, cfg).value, BuildBits(CountOn(on));
    CompiledDistinct(ids, on, TableBits(rows), bits);
    BuildsIffDistinct(Compiled(ids, on), bits);
  }

  // ----- The scan by itself

  ghost predicate Over(ids: seq<nat>, s: set<nat>) {
    forall i :: 0 <= i < |ids| ==> ids[i] in s
  }

  /** The duplicate check alone finds every duplicate in lists over `s` exactly when no two members of `s` share a
      bucket: otherwise a duplicate can hide behind a colliding ID. */
  lemma DuplicateCheckAlone(s: set<nat>, bits: nat)
    requires bits <= 32
    ensures (forall ids: seq<nat> :: Over(ids, s) && ScanClean(ids, bits, true, false, |ids|) ==> DistinctIds(ids))
      <==> forall a, b :: a in s && b in s && a != b ==> HashId(a, bits) != HashId(b, bits)
  {
    hide HashId;
    if forall a, b :: a in s && b in s && a != b ==> HashId(a, bits) != HashId(b, bits) {
      forall ids: seq<nat> | Over(ids, s) && ScanClean(ids, bits, true, false, |ids|)
        ensures DistinctIds(ids)
      {
        NoDuplicate(ids, s, bits);
      }
    } else {
      var a, b :| a in s && b in s && a != b && HashId(a, bits) == HashId(b, bits);
      var ids := [a, b, b];
      forall i: nat, j: nat | j < 3 && FirstBefore(ids, bits, i, j)
        ensures ids[i] != ids[j]
      {
        assert HashId(ids[0], bits) == HashId(ids[j], bits);
      }
      assert Over(ids, s) && ids[1] == ids[2];
    }
  }

  lemma NoDuplicate(ids: seq<nat>, s: set<nat>, bits: nat)
    requires bits <= 32 && Over(ids, s) && ScanClean(ids, bits, true, false, |ids|)
    requires forall a, b :: a in s && b in s && a != b ==> HashId(a, bits) != HashId(b, bits)
    ensures DistinctIds(ids)
  {
    hide HashId;
    forall i, j | 0 <= i < j < |ids|
      ensures ids[i] != ids[j]
    {
      if ids[i] == ids[j] {
        var f := FirstInBucket(ids, bits, HashId(ids[j], bits), i);
      }
    }
  }
}
