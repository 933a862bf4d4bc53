/**
 * The version store a command reads once and then mutates: the table of
 * applied versions behind `fetchAll`, `up` and `down`.
 */
module Adapter {
  import opened Versions

  class VersionStore {
    /** The versions recorded as applied. */
    var applied: set<Version>
    /** Every migrator call made on this store, oldest first. */
    ghost var log: seq<Call>
    /** The applied set when the store was opened. */
    ghost const initial: set<Version>

    /** The applied set is always the opening set with the logged calls replayed. */
    ghost predicate Valid()
      reads this
    {
      applied == Replay(initial, log)
    }

    constructor (versions: set<Version>)
      ensures Valid()
      ensures applied == versions && log == []
    {
      applied := versions;
      initial := versions;
      log := [];
    }

    /** All applied versions, ascending, as after `sort($versions)`. */
    method FetchAll() returns (versions: seq<Version>)
      ensures StrictlyIncreasing(versions)
      ensures forall v :: v in versions <==> v in applied
      ensures versions == SortedKeys(applied)
    {
      versions := SortedKeys(applied);
      SortedKeysShape(applied);
    }

    /** `$migrator->up($migration)`: run it forward and insert its version. */
    method Up(migration: Migration)
      requires Valid()
      modifies this
      ensures Valid()
      ensures applied == old(applied) + {migration.version}
      ensures log == old(log) + [Call(migration, Direction.Up)]
    {
      ReplayAppend(initial, log, Call(migration, Direction.Up));
      applied := applied + {migration.version};
      log := log + [Call(migration, Direction.Up)];
    }

    /** `$migrator->down($migration)`: run it backward and delete its version. */
    method Down(migration: Migration)
      requires Valid()
      modifies this
      ensures Valid()
      ensures applied == old(applied) - {migration.version}
      ensures log == old(log) + [Call(migration, Direction.Down)]
    {
      ReplayAppend(initial, log, Call(migration, Direction.Down));
      applied := applied - {migration.version};
      log := log + [Call(migration, Direction.Down)];
    }
  }
}
