/**
 * The `redo` command: revert one applied migration and apply it again,
 * unless it is not applied or the catalog has no migration with that
 * version.
 */
module RedoCommand {
  import opened Versions
  import opened Adapter
  import DownCommand
  import UpCommand

  /** The calls `redo <version>` makes, decided on the snapshot read at the start. */
  function Plan(catalog: Catalog, snapshot: seq<Version>, version: Version): seq<Call> {
    if version !in snapshot then []
    else if version !in catalog then []
    else [Call(catalog[version], Down), Call(catalog[version], Up)]
  }

  /** A down and then an up on the same catalog migration when the version is applied and known, and no call otherwise. */
  lemma PlanCalls(catalog: Catalog, applied: set<Version>, version: Version)
    ensures Plan(catalog, SortedKeys(applied), version) != [] <==> version in applied && version in catalog
    ensures Plan(catalog, SortedKeys(applied), version) != [] ==>
      Plan(catalog, SortedKeys(applied), version) == [Call(catalog[version], Down), Call(catalog[version], Up)]
  {
    SortedKeysShape(applied);
  }

  /** A redo leaves the applied set exactly as it found it. */
  lemma PlanRestores(catalog: Catalog, applied: set<Version>, version: Version)
    requires WellKeyed(catalog)
    ensures Replay(applied, Plan(catalog, SortedKeys(applied), version)) == applied
  {
    SortedKeysShape(applied);
    var plan := Plan(catalog, SortedKeys(applied), version);
    if plan != [] {
      var migration := catalog[version];
      ReplayAppend(applied, [], Call(migration, Down));
      ReplayAppend(applied, [Call(migration, Down)], Call(migration, Up));
      assert [Call(migration, Down)] + [Call(migration, Up)] == plan;
      assert (applied - {version}) + {version} == applied;
    }
  }

  /** When it acts, a redo makes the calls of `down` followed by those of `up` on the store `down` leaves. */
  lemma PlanIsDownThenUp(catalog: Catalog, applied: set<Version>, version: Version)
    requires WellKeyed(catalog)
    requires version in applied && version in catalog
    ensures Plan(catalog, SortedKeys(applied), version) ==
      DownCommand.Plan(catalog, SortedKeys(applied), version) +
      UpCommand.Plan(catalog, SortedKeys(Replay(applied, DownCommand.Plan(catalog, SortedKeys(applied), version))), version)
  {
    SortedKeysShape(applied);
    DownCommand.PlanOutcome(catalog, applied, version);
    SortedKeysShape(applied - {version});
  }

  /** `RedoCommand::execute`: read the applied versions, return when the version is unapplied or unknown, otherwise `down` then `up` it. */
  method Execute(catalog: Catalog, store: VersionStore, version: Version)
    requires store.Valid()
    modifies store
    ensures store.Valid()
    ensures store.log == old(store.log) + Plan(catalog, SortedKeys(old(store.applied)), version)
    ensures store.applied == Replay(old(store.applied), Plan(catalog, SortedKeys(old(store.applied)), version))
  {
    var snapshot := store.FetchAll();
    if version !in snapshot {
      return;
    }
    if version !in catalog {
      return;
    }
    var migration := catalog[version];
    store.Down(migration);
    store.Up(migration);
    ReplayAppend(old(store.applied), [], Call(migration, Down));
    ReplayAppend(old(store.applied), [Call(migration, Down)], Call(migration, Up));
  }
}
