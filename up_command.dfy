/**
 * The `up` command: apply one migration, given by its version, unless it
 * is already applied or the catalog has no migration with that version.
 */
module UpCommand {
  import opened Versions
  import opened Adapter

  /** The calls `up <version>` makes, decided on the snapshot read at the start. */
  function Plan(catalog: Catalog, snapshot: seq<Version>, version: Version): seq<Call> {
    if version in snapshot then []
    else if version !in catalog then []
    else [Call(catalog[version], Up)]
  }

  /** One up call on the catalog's migration when the version is unapplied and known, and no call otherwise. */
  lemma PlanCalls(catalog: Catalog, applied: set<Version>, version: Version)
    ensures Plan(catalog, SortedKeys(applied), version) != [] <==> version !in applied && version in catalog
    ensures Plan(catalog, SortedKeys(applied), version) != [] ==>
      Plan(catalog, SortedKeys(applied), version) == [Call(catalog[version], Up)]
  {
    SortedKeysShape(applied);
  }

  /** Afterwards the version is applied when the catalog knows it, and no other version has changed. */
  lemma PlanOutcome(catalog: Catalog, applied: set<Version>, version: Version)
    requires WellKeyed(catalog)
    ensures Replay(applied, Plan(catalog, SortedKeys(applied), version)) ==
      if version in catalog then applied + {version} else applied
  {
    SortedKeysShape(applied);
    var plan := Plan(catalog, SortedKeys(applied), version);
    if plan != [] {
      assert plan[..0] == [];
    }
  }

  /** A second `up` of the same version makes no call and leaves the store as the first left it. */
  lemma PlanIdempotent(catalog: Catalog, applied: set<Version>, version: Version)
    requires WellKeyed(catalog)
    ensures Plan(catalog, SortedKeys(Replay(applied, Plan(catalog, SortedKeys(applied), version))), version) == []
  {
    var after := Replay(applied, Plan(catalog, SortedKeys(applied), version));
    PlanOutcome(catalog, applied, version);
    SortedKeysShape(after);
  }

  /** `UpCommand::execute`: read the applied versions, return when the version is applied or unknown, otherwise `up` it. */
  method Execute(catalog: Catalog, store: VersionStore, version: Version)
    requires store.Valid()
    modifies store
    ensures store.Valid()
    ensures store.log == old(store.log) + Plan(catalog, SortedKeys(old(store.applied)), version)
    ensures store.applied == Replay(old(store.applied), Plan(catalog, SortedKeys(old(store.applied)), version))
  {
    var snapshot := store.FetchAll();
    if version in snapshot {
      return;
    }
    if version !in catalog {
      return;
    }
    store.Up(catalog[version]);
    ReplayAppend(old(store.applied), [], Call(catalog[version], Up));
  }
}
