/**
 * The `migrate` command: bring the store to a target version by reverting
 * every applied migration above it, newest first, and then applying every
 * missing migration up to it, oldest first. Every decision is taken
 * against the list of applied versions read once at the start.
 */
module MigrateCommand {
  import opened Wrappers
  import opened Versions
  import opened Adapter

  // ---------------------------------------------------------------------
  // Target and direction

  /** `end($versions)` on the sorted snapshot, or 0 when nothing is applied. */
  function Current(snapshot: seq<Version>): Version {
    if snapshot == [] then 0 else snapshot[|snapshot| - 1]
  }

  /** On the ascending snapshot the last entry is the newest applied version. */
  lemma CurrentIsNewest(applied: set<Version>)
    ensures applied == {} ==> Current(SortedKeys(applied)) == 0
    ensures applied != {} ==> IsGreatest(Current(SortedKeys(applied)), applied)
  {
    var snapshot := SortedKeys(applied);
    SortedKeysShape(applied);
    if applied != {} {
      var some :| some in applied;
      assert some in snapshot;
      var last := snapshot[|snapshot| - 1];
      forall v | v in applied ensures v <= last {
        var i :| 0 <= i < |snapshot| && snapshot[i] == v;
      }
    }
  }

  /** PHP's `max` of a non-empty list of numbers. */
  function SeqMax(s: seq<Version>): (r: Version)
    requires s != []
    ensures r in s
    ensures forall i :: 0 <= i < |s| ==> s[i] <= r
    decreases |s|
  {
    if |s| == 1 then s[0]
    else
      var rest := SeqMax(s[1..]);
      if s[0] < rest then rest else s[0]
  }

  /**
   * The version to migrate to, or None when the command returns early: an
   * explicit target must be 0 or a catalog version; without one the target
   * is the largest applied or catalog version, and there is none when both
   * are empty.
   */
  function ResolveTarget(target: Option<Version>, snapshot: seq<Version>, catalog: Catalog): Option<Version> {
    match target
    case Some(t) => if t != 0 && t !in catalog then None else Some(t)
    case None =>
      var numbers := snapshot + SortedKeys(catalog.Keys);
      if numbers == [] then None else Some(SeqMax(numbers))
  }

  /** An explicit target that is 0 or a catalog version: afterwards exactly the catalog versions up to it are applied. */
  lemma ExplicitTargetOutcome(catalog: Catalog, applied: set<Version>, t: Version)
    requires WellKeyed(catalog)
    requires t == 0 || t in catalog
    ensures forall v :: v in Replay(applied, Plan(catalog, SortedKeys(applied), Some(t))) <==>
      if v in catalog then v <= t else v in applied
  {
    PlanOutcome(catalog, applied, Some(t), t);
  }

  /** Without a target: nothing to do only when both lists are empty, otherwise the largest of the two. */
  lemma ResolveTargetImplicit(applied: set<Version>, catalog: Catalog)
    ensures ResolveTarget(None, SortedKeys(applied), catalog) == None <==> applied == {} && catalog == map[]
    ensures ResolveTarget(None, SortedKeys(applied), catalog) != None ==>
      IsGreatest(ResolveTarget(None, SortedKeys(applied), catalog).value, applied + catalog.Keys)
  {
    var snapshot, keys := SortedKeys(applied), SortedKeys(catalog.Keys);
    ListingEmpty(applied);
    ListingEmpty(catalog.Keys);
    assert catalog == map[] <==> catalog.Keys == {};
    var numbers := snapshot + keys;
    if numbers != [] {
      SortedKeysShape(applied);
      SortedKeysShape(catalog.Keys);
      GreatestOfListing(numbers, applied + catalog.Keys);
    }
  }

  lemma ListingEmpty(s: set<Version>)
    ensures SortedKeys(s) == [] <==> s == {}
  {
    SortedKeysShape(s);
    if s != {} {
      var v :| v in s;
      assert v in SortedKeys(s);
    }
  }

  /** The maximum of a list is the greatest member of the set it lists. */
  lemma GreatestOfListing(numbers: seq<Version>, s: set<Version>)
    requires numbers != []
    requires forall v :: v in numbers <==> v in s
    ensures IsGreatest(SeqMax(numbers), s)
  {
    forall v | v in s ensures v <= SeqMax(numbers) {
      var i :| 0 <= i < |numbers| && numbers[i] == v;
    }
  }

  /** `$version > $current ? 'up' : 'down'`: equal versions go down. */
  function DirectionTo(target: Version, current: Version): Direction {
    if target > current then Up else Down
  }

  // ---------------------------------------------------------------------
  // The two passes

  /**
   * The `krsort`ed `foreach` that runs the downs: stop at the first
   * migration not above the target, revert those in the snapshot.
   */
  function DownPass(ms: seq<Migration>, target: Version, snapshot: seq<Version>): seq<Call>
    decreases |ms|
  {
    if ms == [] || ms[0].version <= target then []
    else (if ms[0].version in snapshot then [Call(ms[0], Down)] else []) + DownPass(ms[1..], target, snapshot)
  }

  /**
   * The `ksort`ed `foreach` that runs the ups: stop at the first migration
   * above the target, apply those not in the snapshot.
   */
  function UpPass(ms: seq<Migration>, target: Version, snapshot: seq<Version>): seq<Call>
    decreases |ms|
  {
    if ms == [] || ms[0].version > target then []
    else (if ms[0].version !in snapshot then [Call(ms[0], Up)] else []) + UpPass(ms[1..], target, snapshot)
  }

  /** On a descending list the down pass reverts exactly the snapshot's versions above the target. */
  lemma {:induction false} DownPassMembers(ms: seq<Migration>, target: Version, snapshot: seq<Version>)
    requires forall i, j :: 0 <= i < j < |ms| ==> ms[i].version > ms[j].version
    ensures forall c :: c in DownPass(ms, target, snapshot) <==>
      c.direction == Down && c.migration in ms && c.migration.version > target && c.migration.version in snapshot
    decreases |ms|
  {
    if ms == [] {
    } else if ms[0].version <= target {
      forall m | m in ms ensures m.version <= target {
        var i :| 0 <= i < |ms| && ms[i] == m;
        if i > 0 {
          assert ms[0].version > ms[i].version;
        }
      }
    } else {
      DownPassMembers(ms[1..], target, snapshot);
      assert ms == [ms[0]] + ms[1..];
    }
  }

  /** On a descending list the down pass reverts newest first. */
  lemma {:induction false} DownPassOrdered(ms: seq<Migration>, target: Version, snapshot: seq<Version>)
    requires forall i, j :: 0 <= i < j < |ms| ==> ms[i].version > ms[j].version
    ensures forall i, j :: 0 <= i < j < |DownPass(ms, target, snapshot)| ==>
      DownPass(ms, target, snapshot)[i].migration.version > DownPass(ms, target, snapshot)[j].migration.version
    decreases |ms|
  {
    if ms != [] && ms[0].version > target {
      var tail := ms[1..];
      var rest := DownPass(tail, target, snapshot);
      DownPassOrdered(tail, target, snapshot);
      DownPassMembers(tail, target, snapshot);
      forall c | c in rest ensures c.migration.version < ms[0].version {
        var i :| 0 <= i < |tail| && tail[i] == c.migration;
        assert ms[i + 1] == c.migration;
      }
      var head := if ms[0].version in snapshot then [Call(ms[0], Down)] else [];
      OrderedCons(head, rest, ms[0].version, false);
    }
  }

  /** On an ascending list the up pass applies exactly the missing versions up to the target. */
  lemma {:induction false} UpPassMembers(ms: seq<Migration>, target: Version, snapshot: seq<Version>)
    requires forall i, j :: 0 <= i < j < |ms| ==> ms[i].version < ms[j].version
    ensures forall c :: c in UpPass(ms, target, snapshot) <==>
      c.direction == Up && c.migration in ms && c.migration.version <= target && c.migration.version !in snapshot
    decreases |ms|
  {
    if ms == [] {
    } else if ms[0].version > target {
      forall m | m in ms ensures m.version > target {
        var i :| 0 <= i < |ms| && ms[i] == m;
        if i > 0 {
          assert ms[0].version < ms[i].version;
        }
      }
    } else {
      UpPassMembers(ms[1..], target, snapshot);
      assert ms == [ms[0]] + ms[1..];
    }
  }

  /** On an ascending list the up pass applies oldest first. */
  lemma {:induction false} UpPassOrdered(ms: seq<Migration>, target: Version, snapshot: seq<Version>)
    requires forall i, j :: 0 <= i < j < |ms| ==> ms[i].version < ms[j].version
    ensures forall i, j :: 0 <= i < j < |UpPass(ms, target, snapshot)| ==>
      UpPass(ms, target, snapshot)[i].migration.version < UpPass(ms, target, snapshot)[j].migration.version
    decreases |ms|
  {
    if ms != [] && ms[0].version <= target {
      var tail := ms[1..];
      var rest := UpPass(tail, target, snapshot);
      UpPassOrdered(tail, target, snapshot);
      UpPassMembers(tail, target, snapshot);
      forall c | c in rest ensures c.migration.version > ms[0].version {
        var i :| 0 <= i < |tail| && tail[i] == c.migration;
        assert ms[i + 1] == c.migration;
      }
      var head := if ms[0].version !in snapshot then [Call(ms[0], Up)] else [];
      OrderedCons(head, rest, ms[0].version, true);
    }
  }

  /** Versions ordered one way stay ordered when a call on a version beyond all of them is put in front. */
  lemma OrderedCons(head: seq<Call>, rest: seq<Call>, v: Version, ascending: bool)
    requires |head| <= 1 && forall c :: c in head ==> c.migration.version == v
    requires forall c :: c in rest ==> if ascending then c.migration.version > v else c.migration.version < v
    requires forall i, j :: 0 <= i < j < |rest| ==>
      if ascending then rest[i].migration.version < rest[j].migration.version
      else rest[i].migration.version > rest[j].migration.version
    ensures forall i, j :: 0 <= i < j < |head + rest| ==>
      if ascending then (head + rest)[i].migration.version < (head + rest)[j].migration.version
      else (head + rest)[i].migration.version > (head + rest)[j].migration.version
  {
    var r := head + rest;
    forall i, j | 0 <= i < j < |r|
      ensures if ascending then r[i].migration.version < r[j].migration.version
        else r[i].migration.version > r[j].migration.version
    {
      if i < |head| {
        assert r[i] in head && r[j] == rest[j - |head|] && rest[j - |head|] in rest;
      } else {
        assert r[i] == rest[i - |head|] && r[j] == rest[j - |head|];
      }
    }
  }

  // ---------------------------------------------------------------------
  // The whole command

  /** The down calls of the command: none when the direction is up. */
  function DownCalls(catalog: Catalog, snapshot: seq<Version>, t: Version): seq<Call>
    requires WellKeyed(catalog)
  {
    if DirectionTo(t, Current(snapshot)) == Down then DownPass(Descending(catalog), t, snapshot) else []
  }

  /** Every call `migrate` makes, in order, given the catalog, the snapshot and the target option. */
  function Plan(catalog: Catalog, snapshot: seq<Version>, target: Option<Version>): seq<Call>
    requires WellKeyed(catalog)
  {
    match ResolveTarget(target, snapshot, catalog)
    case None => []
    case Some(t) => DownCalls(catalog, snapshot, t) + UpPass(Ascending(catalog), t, snapshot)
  }

  /** A call the command makes towards `t`: a catalog migration above `t` that is applied goes down, one at or below `t` that is not goes up. */
  predicate Planned(c: Call, catalog: Catalog, applied: set<Version>, t: Version) {
    var v := c.migration.version;
    v in catalog && catalog[v] == c.migration &&
    if c.direction == Down then v > t && v in applied else v <= t && v !in applied
  }

  lemma DownCallsCalls(catalog: Catalog, applied: set<Version>, t: Version)
    requires WellKeyed(catalog)
    ensures forall c :: c in DownCalls(catalog, SortedKeys(applied), t) <==> c.direction == Down && Planned(c, catalog, applied, t)
    ensures forall i, j :: 0 <= i < j < |DownCalls(catalog, SortedKeys(applied), t)| ==>
      DownCalls(catalog, SortedKeys(applied), t)[i].migration.version > DownCalls(catalog, SortedKeys(applied), t)[j].migration.version
  {
    var snapshot := SortedKeys(applied);
    SortedKeysShape(applied);
    var descending := Descending(catalog);
    DescendingShape(catalog);
    DownPassMembers(descending, t, snapshot);
    DownPassOrdered(descending, t, snapshot);
    if DirectionTo(t, Current(snapshot)) == Up {
      CurrentIsNewest(applied);
      assert forall c: Call :: c.direction == Down && Planned(c, catalog, applied, t) ==> c.migration.version <= Current(snapshot);
    }
  }

  /** The calls are exactly the planned ones: each applied catalog migration above the target reverted, each missing one up to it applied. */
  lemma {:induction false} PlanCalls(catalog: Catalog, applied: set<Version>, target: Option<Version>, t: Version)
    requires WellKeyed(catalog)
    requires ResolveTarget(target, SortedKeys(applied), catalog) == Some(t)
    ensures forall c :: c in Plan(catalog, SortedKeys(applied), target) <==> Planned(c, catalog, applied, t)
  {
    var snapshot := SortedKeys(applied);
    SortedKeysShape(applied);
    DownCallsCalls(catalog, applied, t);
    AscendingShape(catalog);
    UpPassMembers(Ascending(catalog), t, snapshot);
  }

  /** All reverts come before any apply; reverts run newest first, applies oldest first, so none repeats. */
  predicate WellOrdered(plan: seq<Call>) {
    (forall i, j :: 0 <= i < j < |plan| && plan[j].direction == Down ==>
      plan[i].direction == Down && plan[i].migration.version > plan[j].migration.version) &&
    (forall i, j :: 0 <= i < j < |plan| && plan[i].direction == Up ==>
      plan[j].direction == Up && plan[i].migration.version < plan[j].migration.version)
  }

  /** Descending downs followed by ascending ups are well ordered. */
  lemma ConcatOrdered(downs: seq<Call>, ups: seq<Call>)
    requires forall c :: c in downs ==> c.direction == Down
    requires forall c :: c in ups ==> c.direction == Up
    requires forall i, j :: 0 <= i < j < |downs| ==> downs[i].migration.version > downs[j].migration.version
    requires forall i, j :: 0 <= i < j < |ups| ==> ups[i].migration.version < ups[j].migration.version
    ensures WellOrdered(downs + ups)
  {
    var plan := downs + ups;
    forall i, j | 0 <= i < j < |plan| && plan[j].direction == Down
      ensures plan[i].direction == Down && plan[i].migration.version > plan[j].migration.version
    {
      assert plan[i] == downs[i] && plan[j] == downs[j];
    }
    forall i, j | 0 <= i < j < |plan| && plan[i].direction == Up
      ensures plan[j].direction == Up && plan[i].migration.version < plan[j].migration.version
    {
      assert plan[i] == ups[i - |downs|] && plan[j] == ups[j - |downs|] && ups[j - |downs|] in ups;
    }
  }

  lemma PlanOrder(catalog: Catalog, applied: set<Version>, target: Option<Version>)
    requires WellKeyed(catalog)
    ensures WellOrdered(Plan(catalog, SortedKeys(applied), target))
  {
    var snapshot := SortedKeys(applied);
    match ResolveTarget(target, snapshot, catalog)
    case None =>
    case Some(t) =>
      DownCallsCalls(catalog, applied, t);
      AscendingShape(catalog);
      UpPassMembers(Ascending(catalog), t, snapshot);
      UpPassOrdered(Ascending(catalog), t, snapshot);
      ConcatOrdered(DownCalls(catalog, snapshot, t), UpPass(Ascending(catalog), t, snapshot));
  }

  /**
   * Afterwards every catalog version up to the target is applied, none
   * above it is, and a version outside the catalog keeps its membership.
   */
  lemma {:induction false} PlanOutcome(catalog: Catalog, applied: set<Version>, target: Option<Version>, t: Version)
    requires WellKeyed(catalog)
    requires ResolveTarget(target, SortedKeys(applied), catalog) == Some(t)
    ensures forall v :: v in Replay(applied, Plan(catalog, SortedKeys(applied), target)) <==>
      if v in catalog then v <= t else v in applied
  {
    var plan := Plan(catalog, SortedKeys(applied), target);
    PlanCalls(catalog, applied, target, t);
    forall v: Version ensures v in Replay(applied, plan) <==> if v in catalog then v <= t else v in applied {
      OutcomeAt(catalog, applied, t, plan, v);
    }
  }

  lemma OutcomeAt(catalog: Catalog, applied: set<Version>, t: Version, plan: seq<Call>, v: Version)
    requires WellKeyed(catalog)
    requires forall c :: c in plan <==> Planned(c, catalog, applied, t)
    ensures v in Replay(applied, plan) <==> if v in catalog then v <= t else v in applied
  {
    if v in catalog && ((v > t && v in applied) || (v <= t && v !in applied)) {
      var d := if v > t then Down else Up;
      assert Planned(Call(catalog[v], d), catalog, applied, t);
      ReplayOneDirection(applied, plan, v, d);
    } else {
      ReplayUntouched(applied, plan, v);
    }
  }

  /** Running the command again towards the same target finds nothing to do. */
  lemma PlanIdempotent(catalog: Catalog, applied: set<Version>, target: Option<Version>, t: Version)
    requires WellKeyed(catalog)
    requires ResolveTarget(target, SortedKeys(applied), catalog) == Some(t)
    ensures Plan(catalog, SortedKeys(Replay(applied, Plan(catalog, SortedKeys(applied), target))), target) == []
  {
    var after := Replay(applied, Plan(catalog, SortedKeys(applied), target));
    PlanOutcome(catalog, applied, target, t);
    ResolveAgain(catalog, applied, after, target, t);
    PlanCalls(catalog, after, target, t);
    assert forall c: Call :: !Planned(c, catalog, after, t);
    FirstIsMember(Plan(catalog, SortedKeys(after), target));
  }

  lemma FirstIsMember(calls: seq<Call>)
    ensures calls != [] ==> calls[0] in calls
  {
  }

  /** The store the command leaves behind resolves to the same target. */
  lemma ResolveAgain(catalog: Catalog, applied: set<Version>, after: set<Version>, target: Option<Version>, t: Version)
    requires ResolveTarget(target, SortedKeys(applied), catalog) == Some(t)
    requires forall v :: v in after <==> if v in catalog then v <= t else v in applied
    ensures ResolveTarget(target, SortedKeys(after), catalog) == Some(t)
  {
    if target.None? {
      ResolveTargetImplicit(applied, catalog);
      ResolveTargetImplicit(after, catalog);
      assert t in after + catalog.Keys;
      assert after + catalog.Keys <= applied + catalog.Keys;
      SameGreatest(applied + catalog.Keys, after + catalog.Keys, t, ResolveTarget(None, SortedKeys(after), catalog).value);
    }
  }

  /** A subset that still holds the greatest member of a set has the same greatest member. */
  lemma SameGreatest(whole: set<Version>, part: set<Version>, t: Version, m: Version)
    requires IsGreatest(t, whole) && IsGreatest(m, part)
    requires part <= whole && t in part
    ensures m == t
  {
  }

  /** An explicit target that is neither 0 nor a catalog version makes no call. */
  lemma UnknownTargetNoCalls(catalog: Catalog, snapshot: seq<Version>, t: Version)
    requires WellKeyed(catalog)
    requires t != 0 && t !in catalog
    ensures Plan(catalog, snapshot, Some(t)) == []
  {
  }

  /** Without a target, an empty store and an empty catalog make no call. */
  lemma NothingKnownNoCalls(catalog: Catalog, applied: set<Version>)
    requires WellKeyed(catalog)
    requires applied == {} && catalog == map[]
    ensures Plan(catalog, SortedKeys(applied), None) == []
  {
    ResolveTargetImplicit(applied, catalog);
  }

  /** The down `foreach`: walk the list, stop at the first version not above the target, revert those in the snapshot. */
  method RunDowns(ms: seq<Migration>, t: Version, snapshot: seq<Version>, store: VersionStore)
    requires store.Valid()
    modifies store
    ensures store.Valid()
    ensures store.log == old(store.log) + DownPass(ms, t, snapshot)
  {
    var i := 0;
    while i < |ms|
      invariant 0 <= i <= |ms|
      invariant store.Valid()
      invariant store.log + DownPass(ms[i..], t, snapshot) == old(store.log) + DownPass(ms, t, snapshot)
    {
      var m := ms[i];
      if m.version <= t {
        break;
      }
      assert ms[i..][1..] == ms[i + 1..];
      if m.version in snapshot {
        store.Down(m);
      }
      i := i + 1;
    }
  }

  /** The up `foreach`: walk the list, stop at the first version above the target, apply those not in the snapshot. */
  method RunUps(ms: seq<Migration>, t: Version, snapshot: seq<Version>, store: VersionStore)
    requires store.Valid()
    modifies store
    ensures store.Valid()
    ensures store.log == old(store.log) + UpPass(ms, t, snapshot)
  {
    var i := 0;
    while i < |ms|
      invariant 0 <= i <= |ms|
      invariant store.Valid()
      invariant store.log + UpPass(ms[i..], t, snapshot) == old(store.log) + UpPass(ms, t, snapshot)
    {
      var m := ms[i];
      if m.version > t {
        break;
      }
      assert ms[i..][1..] == ms[i + 1..];
      if m.version !in snapshot {
        store.Up(m);
      }
      i := i + 1;
    }
  }

  /** Both passes towards a resolved target: the downs when the direction is down, then the ups. */
  method RunTowards(catalog: Catalog, snapshot: seq<Version>, t: Version, store: VersionStore)
    requires WellKeyed(catalog)
    requires store.Valid()
    modifies store
    ensures store.Valid()
    ensures store.log == old(store.log) + (DownCalls(catalog, snapshot, t) + UpPass(Ascending(catalog), t, snapshot))
  {
    ghost var start := store.log;
    ghost var downs := DownCalls(catalog, snapshot, t);
    if DirectionTo(t, Current(snapshot)) == Down {
      RunDowns(Descending(catalog), t, snapshot, store);
    } else {
      assert store.log == start + downs;
    }
    ghost var ups := UpPass(Ascending(catalog), t, snapshot);
    RunUps(Ascending(catalog), t, snapshot, store);
    assert store.log == (start + downs) + ups;
    assert (start + downs) + ups == start + (downs + ups);
  }

  /**
   * Everything after the snapshot is read: resolve the target, return when
   * there is none, otherwise run both passes towards it.
   */
  method RunPlan(catalog: Catalog, snapshot: seq<Version>, target: Option<Version>, store: VersionStore)
    requires WellKeyed(catalog)
    requires store.Valid()
    modifies store
    ensures store.Valid()
    ensures store.log == old(store.log) + Plan(catalog, snapshot, target)
  {
    var resolved := ResolveTarget(target, snapshot, catalog);
    match resolved
    case None =>
      assert store.log == old(store.log) + [];
    case Some(t) =>
      RunTowards(catalog, snapshot, t, store);
  }

  /**
   * `MigrateCommand::execute`: read the applied versions once, then make
   * the planned migrator calls against the store.
   */
  method Execute(catalog: Catalog, store: VersionStore, target: Option<Version>)
    requires WellKeyed(catalog)
    requires store.Valid()
    modifies store
    ensures store.Valid()
    ensures store.log == old(store.log) + Plan(catalog, SortedKeys(old(store.applied)), target)
    ensures store.applied == Replay(old(store.applied), Plan(catalog, SortedKeys(old(store.applied)), target))
  {
    var snapshot := store.FetchAll();
    RunPlan(catalog, snapshot, target, store);
    ReplayConcat(store.initial, old(store.log), Plan(catalog, snapshot, target));
  }
}
