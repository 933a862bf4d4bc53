/**
 * Versions, migrations, the migration catalog and the calls the commands
 * make on the migrator.
 */
module Versions {

  /** A migration version: the value of the leading digit run of its file name. */
  type Version = nat

  /** A migration object as the bootstrap creates it: `new $class($version)`. */
  datatype Migration = Migration(version: Version, name: string)

  /** The migrations array of a command, keyed by version. */
  type Catalog = map<Version, Migration>

  /** Every migration sits under its own version (AbstractCommand.php:250, 262). */
  predicate WellKeyed(catalog: Catalog) {
    forall v :: v in catalog ==> catalog[v].version == v
  }

  predicate StrictlyIncreasing(s: seq<Version>) {
    forall i, j :: 0 <= i < j < |s| ==> s[i] < s[j]
  }

  predicate IsLeast(k: Version, s: set<Version>) {
    k in s && forall j :: j in s ==> k <= j
  }

  predicate IsGreatest(k: Version, s: set<Version>) {
    k in s && forall j :: j in s ==> j <= k
  }

  lemma MinExists(s: set<Version>)
    requires s != {}
    ensures exists k :: IsLeast(k, s)
    decreases s
  {
    var x :| x in s;
    var rest := s - {x};
    if rest == {} {
      assert s == {x};
      assert IsLeast(x, s);
    } else {
      MinExists(rest);
      var k :| IsLeast(k, rest);
      var m := if x < k then x else k;
      forall j | j in s ensures m <= j {
        if j != x { assert j in rest; }
      }
      assert IsLeast(m, s);
    }
  }

  /** The elements of a finite set of versions in ascending order. */
  function SortedKeys(s: set<Version>): seq<Version>
    decreases s
  {
    if s == {} then []
    else
      MinExists(s);
      var k :| IsLeast(k, s);
      [k] + SortedKeys(s - {k})
  }

  /** The listing is strictly ascending and holds exactly the members of the set. */
  lemma {:induction false} SortedKeysShape(s: set<Version>)
    ensures StrictlyIncreasing(SortedKeys(s))
    ensures forall k :: k in SortedKeys(s) <==> k in s
    decreases s
  {
    if s != {} {
      MinExists(s);
      var k :| IsLeast(k, s);
      var rest := SortedKeys(s - {k});
      SortedKeysShape(s - {k});
      assert SortedKeys(s) == [k] + rest;
      forall i, j | 0 <= i < j < |[k] + rest| ensures ([k] + rest)[i] < ([k] + rest)[j] {
        if i == 0 {
          assert rest[j - 1] in s - {k};
        } else {
          assert ([k] + rest)[i] == rest[i - 1] && ([k] + rest)[j] == rest[j - 1];
        }
      }
    }
  }

  /** The migrations in ascending version order: the array after `ksort`. */
  function Ascending(catalog: Catalog): seq<Migration>
    requires WellKeyed(catalog)
  {
    var keys := SortedKeys(catalog.Keys);
    SortedKeysShape(catalog.Keys);
    seq(|keys|, i requires 0 <= i < |keys| => catalog[keys[i]])
  }

  /** Ascending lists the catalog's migrations by increasing version. */
  lemma AscendingShape(catalog: Catalog)
    requires WellKeyed(catalog)
    ensures forall i, j :: 0 <= i < j < |Ascending(catalog)| ==> Ascending(catalog)[i].version < Ascending(catalog)[j].version
    ensures forall m :: m in Ascending(catalog) <==> m.version in catalog && catalog[m.version] == m
  {
    SortedKeysShape(catalog.Keys);
    AscendingMembers(catalog, SortedKeys(catalog.Keys), Ascending(catalog));
  }

  lemma AscendingMembers(catalog: Catalog, keys: seq<Version>, r: seq<Migration>)
    requires WellKeyed(catalog)
    requires StrictlyIncreasing(keys)
    requires forall k :: k in keys <==> k in catalog
    requires |r| == |keys| && forall i :: 0 <= i < |keys| ==> r[i] == catalog[keys[i]]
    ensures forall i, j :: 0 <= i < j < |r| ==> r[i].version < r[j].version
    ensures forall m :: m in r <==> m.version in catalog && catalog[m.version] == m
  {
    forall i, j | 0 <= i < j < |r| ensures r[i].version < r[j].version {
      assert r[i].version == keys[i] && r[j].version == keys[j];
    }
    forall m: Migration | m.version in catalog && catalog[m.version] == m ensures m in r {
      var i := IndexOf(keys, m.version);
      assert r[i] == m;
    }
  }

  /** The migrations in descending version order: the array after `krsort`. */
  function Descending(catalog: Catalog): seq<Migration>
    requires WellKeyed(catalog)
  {
    var up := Ascending(catalog);
    seq(|up|, i requires 0 <= i < |up| => up[|up| - 1 - i])
  }

  /** Descending lists the catalog's migrations by decreasing version. */
  lemma DescendingShape(catalog: Catalog)
    requires WellKeyed(catalog)
    ensures forall i, j :: 0 <= i < j < |Descending(catalog)| ==> Descending(catalog)[i].version > Descending(catalog)[j].version
    ensures forall m :: m in Descending(catalog) <==> m.version in catalog && catalog[m.version] == m
  {
    AscendingShape(catalog);
    DescendingMembers(catalog, Ascending(catalog), Descending(catalog));
  }

  lemma DescendingMembers(catalog: Catalog, up: seq<Migration>, r: seq<Migration>)
    requires forall i, j :: 0 <= i < j < |up| ==> up[i].version < up[j].version
    requires forall m :: m in up <==> m.version in catalog && catalog[m.version] == m
    requires |r| == |up| && forall i :: 0 <= i < |r| ==> r[i] == up[|up| - 1 - i]
    ensures forall i, j :: 0 <= i < j < |r| ==> r[i].version > r[j].version
    ensures forall m :: m in r <==> m.version in catalog && catalog[m.version] == m
  {
    forall i, j | 0 <= i < j < |r| ensures r[i].version > r[j].version {
      assert up[|up| - 1 - j].version < up[|up| - 1 - i].version;
    }
    forall m | m in up ensures m in r {
      var i :| 0 <= i < |up| && up[i] == m;
      assert r[|up| - 1 - i] == m;
    }
  }

  function IndexOf(s: seq<Version>, v: Version): (i: nat)
    requires v in s
    ensures i < |s| && s[i] == v
  {
    if s[0] == v then 0 else 1 + IndexOf(s[1..], v)
  }

  datatype Direction = Up | Down

  /** One call on the migrator: `$migrator->up($m)` or `$migrator->down($m)`. */
  datatype Call = Call(migration: Migration, direction: Direction)

  /** The applied set after one call: `up` records the version, `down` deletes it. */
  function Step(applied: set<Version>, call: Call): set<Version> {
    if call.direction == Up then applied + {call.migration.version}
    else applied - {call.migration.version}
  }

  /** The applied set after a sequence of calls, made from first to last. */
  function Replay(applied: set<Version>, calls: seq<Call>): set<Version>
    decreases |calls|
  {
    if calls == [] then applied
    else Step(Replay(applied, calls[..|calls| - 1]), calls[|calls| - 1])
  }

  lemma ReplayAppend(applied: set<Version>, calls: seq<Call>, call: Call)
    ensures Replay(applied, calls + [call]) == Step(Replay(applied, calls), call)
  {
    assert (calls + [call])[..|calls|] == calls;
  }

  lemma {:induction false} ReplayConcat(applied: set<Version>, first: seq<Call>, second: seq<Call>)
    ensures Replay(applied, first + second) == Replay(Replay(applied, first), second)
    decreases |second|
  {
    if second == [] {
      assert first + second == first;
    } else {
      var init := second[..|second| - 1];
      assert (first + second)[..|first + second| - 1] == first + init;
      ReplayConcat(applied, first, init);
    }
  }

  /** A version no call mentions keeps its membership. */
  lemma {:induction false} ReplayUntouched(applied: set<Version>, calls: seq<Call>, v: Version)
    requires forall c :: c in calls ==> c.migration.version != v
    ensures v in Replay(applied, calls) <==> v in applied
    decreases |calls|
  {
    if calls != [] {
      var prefix := calls[..|calls| - 1];
      assert forall c :: c in prefix ==> c in calls;
      ReplayUntouched(applied, prefix, v);
    }
  }

  /**
   * A version that some call mentions, where every call on it goes in one
   * direction, ends up applied exactly when that direction is up.
   */
  lemma {:induction false} ReplayOneDirection(applied: set<Version>, calls: seq<Call>, v: Version, d: Direction)
    requires exists c :: c in calls && c.migration.version == v
    requires forall c :: c in calls && c.migration.version == v ==> c.direction == d
    ensures v in Replay(applied, calls) <==> d == Up
    decreases |calls|
  {
    var prefix, last := calls[..|calls| - 1], calls[|calls| - 1];
    assert calls == prefix + [last];
    assert forall c :: c in prefix ==> c in calls;
    if last.migration.version != v {
      var c :| c in calls && c.migration.version == v;
      assert c in prefix;
      ReplayOneDirection(applied, prefix, v, d);
    }
  }
}
