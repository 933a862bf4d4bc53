# phpmig migration engine in Dafny

This project models the engine of phpmig, a PHP tool that manages database migrations. It has two parts.

- **Catalog construction** (`AbstractCommand::bootstrapMigrations`, `migrationToClassName`, `isValidClassName`). The tool takes a list of migration file paths. It reads a version from the leading digits of each basename, and a class name from the rest of the basename (snake_case to PascalCase, checked against PHP's identifier grammar). It rejects the list on:
  - a malformed file name,
  - a duplicate version,
  - an invalid class name,
  - a duplicate class name,
  - a class that does not load.

  Otherwise it returns the migrations keyed by version, in ascending order.
- **The drivers** `migrate`, `up`, `down` and `redo`. Each reads the applied versions from the version store once, then makes `up`/`down` calls on catalog migrations.

The model has these modules:

- `Versions` (versions.dfy): versions, migrations, the catalog, its ascending and descending orders, and calls.
  - `Replay` gives the meaning of a sequence of calls on a set of applied versions.
- `Adapter` (adapter.dfy): the version store, a class `VersionStore`.
  - It holds the applied versions.
  - It keeps a ghost log of every `up`/`down` call.
  - Its invariant says the applied set is the initial set with the log replayed.
- `AbstractCommand` (abstract_command.dfy): the basename and class-name string functions, the class-name check, and `BootstrapMigrations`.
  - `BootstrapMigrations` is the validation loop. It builds `$versions` and `$names` step by step, reassigning two maps on each step.
  - Its result is characterised by the predicate `Acceptable` and by the error predicate `Explains`.
- `MigrateCommand`, `UpCommand`, `DownCommand`, `RedoCommand`: each has two parts.
  - A `Plan` function lists every call the command makes, in order, given the catalog, the snapshot and the argument.
  - An `Execute` method runs the command's loops against a `VersionStore`. It is proved to append exactly `Plan` to the log.
  - The command's properties are lemmas about `Plan` and `Replay`.

Three points of `MigrateCommand::execute` (src/start/Console/Command/MigrateCommand.php:52-115) are easy to misread; the model does what the code does:

- **Target without a value:** it is the largest of the applied versions *and* the catalog versions, not the catalog maximum.
- **Direction:** it is `up` only when the target is above the current version; equal versions go `down`.
- **Unknown explicit non-zero target:** the command returns silently, with no calls and no error.

## Model

| member | source | states |
|---|---|---|
| Versions.SortedKeysShape | src/start/Console/Command/MigrateCommand.php:62 | the ascending listing of a set of versions is strictly increasing and lists exactly the set's members |
| Versions.AscendingShape | src/Phpmig/Console/Command/AbstractCommand.php:269 | after `ksort`, versions strictly increase and the list holds exactly the catalog's migrations, each under its own version |
| Versions.DescendingShape | src/start/Console/Command/MigrateCommand.php:91 | after `krsort`, versions strictly decrease and the list holds exactly the catalog's migrations |
| Versions.ReplayConcat | src/start/Adapter/Zend/Db.php:81-100 | running two call sequences one after the other changes the store as their concatenation does |
| Versions.ReplayUntouched | src/start/Adapter/Zend/Db.php:81-100 | a version no call names stays applied or unapplied as it was |
| Versions.ReplayOneDirection | src/start/Adapter/Zend/Db.php:81-100 | a version that calls move in one direction only ends applied exactly when that direction is up |
| Adapter.VersionStore.constructor | src/Phpmig/Adapter/AdapterInterface.php:24-62 | a store starts with the given applied versions and an empty log |
| Adapter.VersionStore.FetchAll | src/start/Adapter/Zend/Db.php:66-72 | returns the applied versions, each once, in strictly ascending order, and changes nothing |
| Adapter.VersionStore.Up | src/start/Adapter/Zend/Db.php:81-88 | the applied set gains exactly the migration's version, and the log gains one up call |
| Adapter.VersionStore.Down | src/start/Adapter/Zend/Db.php:96-103 | the applied set loses exactly the migration's version, and the log gains one down call |
| AbstractCommand.TrimTrailingSlashesShape | src/Phpmig/Console/Command/AbstractCommand.php:209 | `basename` first drops trailing separators: a prefix with no trailing `/`, and only `/` dropped |
| AbstractCommand.AfterLastSlashShape | src/Phpmig/Console/Command/AbstractCommand.php:209 | the basename is the longest suffix with no `/`: preceded by `/` unless it is the whole string |
| AbstractCommand.AfterLastSlashOf | src/Phpmig/Console/Command/AbstractCommand.php:209 | a directory ending in `/` followed by a separator-free name yields that name |
| AbstractCommand.BasenameHasNoSeparator | src/Phpmig/Console/Command/AbstractCommand.php:209 | a basename contains no `/` |
| AbstractCommand.BasenameOfFile | src/Phpmig/Console/Command/AbstractCommand.php:209 | `dir/file`, joined with `/` as on POSIX, has basename `file` |
| AbstractCommand.LeadingDigits | src/Phpmig/Console/Command/AbstractCommand.php:209 | the match of `^[0-9]+` consists of digits only |
| AbstractCommand.LeadingDigitsShape | src/Phpmig/Console/Command/AbstractCommand.php:209-213 | the match is a prefix of the basename and maximal: the next character is no digit |
| AbstractCommand.LeadingDigitsOf | src/Phpmig/Console/Command/AbstractCommand.php:209-213 | digits followed by a non-digit (or nothing) match exactly those digits |
| AbstractCommand.DigitsValueLeadingZero | src/Phpmig/Console/Command/AbstractCommand.php:213 | a leading zero does not change a version's value |
| AbstractCommand.StripVersionPrefixOf | src/Phpmig/Console/Command/AbstractCommand.php:218 | a basename of digits, `_` and a rest becomes exactly the rest |
| AbstractCommand.StripVersionPrefixUnmatched | src/Phpmig/Console/Command/AbstractCommand.php:218 | a basename with no prefix of digits followed by `_` is left unchanged |
| AbstractCommand.BeforeFirstShape | src/Phpmig/Console/Command/AbstractCommand.php:219-221 | the name is the prefix before the first `.`, and the whole string when there is none |
| AbstractCommand.BeforeFirstOf | src/Phpmig/Console/Command/AbstractCommand.php:219-221 | `a.b` truncates to `a` when `a` has no `.` |
| AbstractCommand.MigrationFileParts | src/Phpmig/Console/Command/AbstractCommand.php:209-221 | a basename `digits_name.ext` has a version, the value of `digits`, and the migration name `name` |
| AbstractCommand.ToUpperAscii | src/Phpmig/Console/Command/AbstractCommand.php:379 | a lower-case ASCII letter becomes its own capital (same position in the alphabet); every other character is unchanged |
| AbstractCommand.ReplaceChar | src/Phpmig/Console/Command/AbstractCommand.php:378 | replacing one character by another keeps the length |
| AbstractCommand.ReplaceCharShape | src/Phpmig/Console/Command/AbstractCommand.php:378 | each occurrence of `from` becomes `to`, and every other character stays |
| AbstractCommand.RemoveCharShape | src/Phpmig/Console/Command/AbstractCommand.php:380 | removing a character leaves no occurrence of it, and leaves a string without it unchanged |
| AbstractCommand.RemoveCharConcat | src/Phpmig/Console/Command/AbstractCommand.php:380 | removal distributes over concatenation |
| AbstractCommand.RemoveCharKeepsAbsent | src/Phpmig/Console/Command/AbstractCommand.php:380 | removal introduces no character |
| AbstractCommand.UcWordsFrom | src/Phpmig/Console/Command/AbstractCommand.php:379 | `ucwords` keeps the length |
| AbstractCommand.UcWordsFromShape | src/Phpmig/Console/Command/AbstractCommand.php:379 | a character is upper-cased exactly when it starts the string or follows a word delimiter; the rest are unchanged |
| AbstractCommand.UcWords | src/Phpmig/Console/Command/AbstractCommand.php:379 | `ucwords` keeps the length |
| AbstractCommand.UcWordsShape | src/Phpmig/Console/Command/AbstractCommand.php:379 | the first character and every character after a delimiter are upper-cased; others unchanged |
| AbstractCommand.UcWordsKeepsAbsent | src/Phpmig/Console/Command/AbstractCommand.php:379 | `ucwords` introduces no character other than an upper-case letter |
| AbstractCommand.ClassNameHasNoSeparators | src/Phpmig/Console/Command/AbstractCommand.php:376-380 | a derived class name contains neither `_` nor a space |
| AbstractCommand.CapitalizedWordHasNoSpace | src/Phpmig/Console/Command/AbstractCommand.php:379 | capitalising a plain word introduces no space |
| AbstractCommand.PlainWordClassName | src/Phpmig/Console/Command/AbstractCommand.php:376-380 | a single plain word becomes that word with its first letter upper-cased |
| AbstractCommand.PlainWordThenRest | src/Phpmig/Console/Command/AbstractCommand.php:376-380 | `word_rest` converts to the capitalised word followed by the conversion of `rest` |
| AbstractCommand.ReplaceWordThenRest | src/Phpmig/Console/Command/AbstractCommand.php:378 | the first `_` after a plain word becomes a space, and the rest is converted on its own |
| AbstractCommand.UcWordsWordThenRest | src/Phpmig/Console/Command/AbstractCommand.php:379 | `ucwords` of `word rest` is the capitalised word, a space, and `ucwords` of `rest` |
| AbstractCommand.ClassNameOfWords | src/Phpmig/Console/Command/AbstractCommand.php:372-380 | snake_case plain words join into their PascalCase concatenation |
| AbstractCommand.CreateTableUserExample | src/Phpmig/Console/Command/AbstractCommand.php:372 | `create_table_user` becomes `CreateTableUser` |
| AbstractCommand.PascalCaseExample | src/Phpmig/Console/Command/AbstractCommand.php:372 | the PascalCase form of `create`, `table`, `user` is `CreateTableUser` |
| AbstractCommand.ValidClassNameShape | src/Phpmig/Console/Command/AbstractCommand.php:397-400 | a valid class name does not start with a digit, contains no word delimiter, and passes the check as written |
| AbstractCommand.TrailingLineFeedAccepted | src/Phpmig/Console/Command/AbstractCommand.php:399 | the file name `foo` plus a line feed derives `Foo` plus a line feed, which the pattern as written accepts and a whole-string identifier check rejects |
| AbstractCommand.LineFeedFileRejected | src/Phpmig/Console/Command/AbstractCommand.php:382-399 | the file `1_foo` plus a line feed plus `.php` passes the check as written, yet the list holding it is not acceptable, and the invalid-class-name error explains it |
| AbstractCommand.MigrationToClassName | src/Phpmig/Console/Command/AbstractCommand.php:376-390 | returns the derived class name exactly when it is a valid class name, and otherwise the invalid-class-name error naming it |
| AbstractCommand.Dedup | src/Phpmig/Console/Command/AbstractCommand.php:204 | `array_unique` keeps exactly the paths of the list |
| AbstractCommand.DedupDistinct | src/Phpmig/Console/Command/AbstractCommand.php:204 | `array_unique` keeps no path twice |
| AbstractCommand.Files | src/Phpmig/Console/Command/AbstractCommand.php:208 | one inspected file per path, in order |
| AbstractCommand.FilesAt | src/Phpmig/Console/Command/AbstractCommand.php:208-222 | the file at a position is what inspecting that path yields |
| AbstractCommand.KeyedByAt | src/Phpmig/Console/Command/AbstractCommand.php:239-262 | with distinct keys, each visited file's value is stored under its key |
| AbstractCommand.KeyedByStep | src/Phpmig/Console/Command/AbstractCommand.php:239-262 | storing a file under a fresh key extends the array by exactly that entry and keeps keys distinct |
| AbstractCommand.UnversionedFound | src/Phpmig/Console/Command/AbstractCommand.php:209-211 | a path with no leading digits explains an invalid-filename error, and the list is not acceptable |
| AbstractCommand.InvalidClassNameFound | src/Phpmig/Console/Command/AbstractCommand.php:382-387 | a versioned path with an invalid class name explains that error, and the list is not acceptable |
| AbstractCommand.NotLoadedFound | src/Phpmig/Console/Command/AbstractCommand.php:241-258 | a class that is undefined, or no migration, explains the matching error, and the list is not acceptable |
| AbstractCommand.DuplicateVersionFound | src/Phpmig/Console/Command/AbstractCommand.php:214-216 | two different paths with the same version explain a duplicate-version error, and the list is not acceptable |
| AbstractCommand.DuplicateNameFound | src/Phpmig/Console/Command/AbstractCommand.php:232-238 | two different paths deriving the same class name explain a duplicate-name error, and the list is not acceptable |
| AbstractCommand.BuiltAcceptable | src/Phpmig/Console/Command/AbstractCommand.php:204-263 | when every distinct path passed and versions and names were distinct, the original list is acceptable |
| AbstractCommand.BuiltCatalog | src/Phpmig/Console/Command/AbstractCommand.php:262 | the built array is well keyed, has exactly the paths' versions as keys, and maps each path's version to that path's migration |
| AbstractCommand.AcceptedStep | src/Phpmig/Console/Command/AbstractCommand.php:208-263 | accepting one more file keeps all visited files accepted |
| AbstractCommand.VisitFile | src/Phpmig/Console/Command/AbstractCommand.php:209-262 | one loop body: an error it throws is explained by the files and makes the list unacceptable; otherwise both arrays grow by this file and stay distinct |
| AbstractCommand.BootstrapMigrations | src/Phpmig/Console/Command/AbstractCommand.php:204-271 | succeeds exactly when the list is acceptable; any error is explained; on success the catalog is well keyed, has exactly the paths' versions and maps each to its path's migration |
| AbstractCommand.RepeatedPathCollapsed | src/Phpmig/Console/Command/AbstractCommand.php:204 | listing a path twice is accepted exactly when the list without the repeat is, so it is no duplicate-version error |
| AbstractCommand.RepeatedFileHarmless | src/Phpmig/Console/Command/AbstractCommand.php:204-238 | repeating a file changes neither acceptance of each file nor the distinctness of versions and names |
| MigrateCommand.CurrentIsNewest | src/start/Console/Command/MigrateCommand.php:62-69 | the current version is 0 when nothing is applied, and otherwise the greatest applied version |
| MigrateCommand.SeqMax | src/start/Console/Command/MigrateCommand.php:82 | `max` returns a member of the list, no smaller than any member |
| MigrateCommand.ExplicitTargetOutcome | src/start/Console/Command/MigrateCommand.php:71-114 | with an explicit target that is 0 or a catalog version, afterwards a catalog version is applied exactly when it is at or below the target, and versions outside the catalog keep their state |
| MigrateCommand.ResolveTargetImplicit | src/start/Console/Command/MigrateCommand.php:76-82 | without a target there is none exactly when nothing is applied and the catalog is empty; otherwise it is the greatest of the applied and catalog versions |
| MigrateCommand.DownPassMembers | src/start/Console/Command/MigrateCommand.php:91-101 | on a descending list, the down pass reverts exactly the listed migrations above the target that are in the snapshot |
| MigrateCommand.DownPassOrdered | src/start/Console/Command/MigrateCommand.php:91-101 | on a descending list, the down pass's calls strictly decrease in version |
| MigrateCommand.UpPassMembers | src/start/Console/Command/MigrateCommand.php:104-114 | on an ascending list, the up pass applies exactly the listed migrations at or below the target that are not in the snapshot |
| MigrateCommand.UpPassOrdered | src/start/Console/Command/MigrateCommand.php:104-114 | on an ascending list, the up pass's calls strictly increase in version |
| MigrateCommand.DownCallsCalls | src/start/Console/Command/MigrateCommand.php:85-102 | the down calls are exactly the reverts of applied catalog migrations above the target, in strictly decreasing order |
| MigrateCommand.PlanCalls | src/start/Console/Command/MigrateCommand.php:85-114 | for a resolved target, the command calls down exactly the applied catalog migrations above it and up exactly the unapplied ones at or below it |
| MigrateCommand.PlanOrder | src/start/Console/Command/MigrateCommand.php:87-114 | all downs come before any up; downs strictly decrease and ups strictly increase in version |
| MigrateCommand.PlanOutcome | src/start/Console/Command/MigrateCommand.php:93-113 | afterwards a catalog version is applied exactly when it is at or below the target; a version outside the catalog keeps its state |
| MigrateCommand.PlanIdempotent | src/start/Console/Command/MigrateCommand.php:71-114 | running the command again with the same target option makes no call |
| MigrateCommand.ResolveAgain | src/start/Console/Command/MigrateCommand.php:71-82 | the store the command leaves resolves, with the same option, to the same target |
| MigrateCommand.UnknownTargetNoCalls | src/start/Console/Command/MigrateCommand.php:71-74 | an explicit non-zero target outside the catalog makes no call |
| MigrateCommand.NothingKnownNoCalls | src/start/Console/Command/MigrateCommand.php:76-80 | with no target, nothing applied and an empty catalog, there is no call |
| MigrateCommand.RunDowns | src/start/Console/Command/MigrateCommand.php:91-101 | the `krsort`ed loop with its `break` appends exactly the down pass to the log |
| MigrateCommand.RunUps | src/start/Console/Command/MigrateCommand.php:104-114 | the `ksort`ed loop with its `break` appends exactly the up pass to the log |
| MigrateCommand.RunTowards | src/start/Console/Command/MigrateCommand.php:85-114 | towards a resolved target, appends the down calls (when the direction is down), then the up pass |
| MigrateCommand.RunPlan | src/start/Console/Command/MigrateCommand.php:71-114 | appends exactly the plan to the log: nothing when there is no target |
| MigrateCommand.Execute | src/start/Console/Command/MigrateCommand.php:52-115 | reads the store once, appends exactly the plan for that snapshot, and leaves the applied set as the plan's replay |
| UpCommand.PlanCalls | src/Phpmig/Console/Command/UpCommand.php:60-69 | a call is made exactly when the version is unapplied and in the catalog, and it is one up of the catalog's migration |
| UpCommand.PlanOutcome | src/Phpmig/Console/Command/UpCommand.php:60-69 | the applied set gains the version when the catalog has it, and nothing else changes |
| UpCommand.PlanIdempotent | src/Phpmig/Console/Command/UpCommand.php:60-69 | a second `up` of the same version makes no call |
| UpCommand.Execute | src/Phpmig/Console/Command/UpCommand.php:51-70 | appends exactly the plan for the snapshot it reads, and leaves the applied set as its replay |
| DownCommand.PlanCalls | src/start/Console/Command/DownCommand.php:60-69 | a call is made exactly when the version is applied and in the catalog, and it is one down of the catalog's migration |
| DownCommand.PlanOutcome | src/start/Console/Command/DownCommand.php:60-69 | the applied set loses the version when the catalog has it, and nothing else changes |
| DownCommand.PlanIdempotent | src/start/Console/Command/DownCommand.php:60-69 | a second `down` of the same version makes no call |
| DownCommand.Execute | src/start/Console/Command/DownCommand.php:51-70 | appends exactly the plan for the snapshot it reads, and leaves the applied set as its replay |
| RedoCommand.PlanCalls | src/Phpmig/Console/Command/RedoCommand.php:60-70 | calls are made exactly when the version is applied and in the catalog: a down and then an up of the same migration |
| RedoCommand.PlanRestores | src/Phpmig/Console/Command/RedoCommand.php:68-70 | after a redo the applied set is what it was before |
| RedoCommand.PlanIsDownThenUp | src/Phpmig/Console/Command/RedoCommand.php:68-70 | a redo is a `down` of the version followed by an `up` on the store that `down` leaves |
| RedoCommand.Execute | src/Phpmig/Console/Command/RedoCommand.php:51-71 | appends exactly the plan for the snapshot it reads, and leaves the applied set as its replay |
| Versions.SortedKeys | src/start/Console/Command/MigrateCommand.php:62 | `sort($versions)` of the applied versions; characterised by `SortedKeysShape`: strictly ascending, exactly the set's members |
| Versions.Ascending | src/Phpmig/Console/Command/AbstractCommand.php:269 | the catalog after `ksort`; characterised by `AscendingShape` |
| Versions.Descending | src/start/Console/Command/MigrateCommand.php:91 | the catalog after `krsort`; characterised by `DescendingShape` |
| Versions.Replay | src/start/Adapter/Zend/Db.php:81-100 | the applied set after a sequence of inserts and deletes; characterised by `ReplayConcat`, `ReplayUntouched`, `ReplayOneDirection` |
| AbstractCommand.Basename | src/Phpmig/Console/Command/AbstractCommand.php:209 | PHP's `basename` on POSIX (`/` the only separator); characterised by `TrimTrailingSlashesShape`, `AfterLastSlashShape`, `BasenameHasNoSeparator`, `BasenameOfFile` |
| AbstractCommand.StripVersionPrefix | src/Phpmig/Console/Command/AbstractCommand.php:218 | the `preg_replace` of a leading `digits_`; characterised by `StripVersionPrefixOf` and `StripVersionPrefixUnmatched` |
| AbstractCommand.MigrationName | src/Phpmig/Console/Command/AbstractCommand.php:218-221 | the migration name of a basename; characterised by `MigrationFileParts` |
| AbstractCommand.ClassNameOf | src/Phpmig/Console/Command/AbstractCommand.php:378-380 | snake_case to PascalCase; characterised by `ClassNameOfWords`, `ClassNameHasNoSeparators`, `CreateTableUserExample` |
| AbstractCommand.IsValidClassName | src/Phpmig/Console/Command/AbstractCommand.php:397-400 | the identifier grammar matched against the whole string, which the build uses; characterised by `ValidClassNameShape` |
| AbstractCommand.IsValidClassNameAsWritten | src/Phpmig/Console/Command/AbstractCommand.php:399 | the pattern as written, which also accepts a valid name followed by one final line feed; characterised by `TrailingLineFeedAccepted` |
| MigrateCommand.Current | src/start/Console/Command/MigrateCommand.php:64-69 | `end` of the sorted snapshot, or 0; characterised by `CurrentIsNewest` |
| MigrateCommand.ResolveTarget | src/start/Console/Command/MigrateCommand.php:71-83 | the target or an early return; characterised by `ResolveTargetImplicit`, `UnknownTargetNoCalls`, `ExplicitTargetOutcome` |
| MigrateCommand.DirectionTo | src/start/Console/Command/MigrateCommand.php:85 | up exactly when the target is above the current version; used by `DownCallsCalls`, which shows no down call happens in the up direction |
| MigrateCommand.DownPass | src/start/Console/Command/MigrateCommand.php:91-101 | the down `foreach`; characterised by `DownPassMembers`, `DownPassOrdered`, and run by `RunDowns` |
| MigrateCommand.UpPass | src/start/Console/Command/MigrateCommand.php:104-114 | the up `foreach`; characterised by `UpPassMembers`, `UpPassOrdered`, and run by `RunUps` |
| MigrateCommand.Plan | src/start/Console/Command/MigrateCommand.php:71-114 | every call of `migrate`; characterised by `PlanCalls`, `PlanOrder`, `PlanOutcome`, `PlanIdempotent`, and run by `Execute` |
| UpCommand.Plan | src/Phpmig/Console/Command/UpCommand.php:60-69 | the calls of `up`; characterised by `UpCommand.PlanCalls`, `PlanOutcome`, `PlanIdempotent` |
| DownCommand.Plan | src/start/Console/Command/DownCommand.php:60-69 | the calls of `down`; characterised by `DownCommand.PlanCalls`, `PlanOutcome`, `PlanIdempotent` |
| RedoCommand.Plan | src/Phpmig/Console/Command/RedoCommand.php:60-70 | the calls of `redo`; characterised by `RedoCommand.PlanCalls`, `PlanRestores`, `PlanIsDownThenUp` |
| AbstractCommand.TrimTrailingSlashes | src/Phpmig/Console/Command/AbstractCommand.php:209 | the first half of `basename`, dropping trailing `/`; characterised by `TrimTrailingSlashesShape` |
| AbstractCommand.AfterLastSlash | src/Phpmig/Console/Command/AbstractCommand.php:209 | the second half of `basename`, the last component; characterised by `AfterLastSlashShape` and `AfterLastSlashOf` |
| AbstractCommand.HasVersion | src/Phpmig/Console/Command/AbstractCommand.php:209-211 | the `preg_match('/^[0-9]+/')` test on the basename; characterised by `LeadingDigitsShape`, `MigrationFileParts` and `UnversionedFound` |
| AbstractCommand.DigitsValue | src/Phpmig/Console/Command/AbstractCommand.php:213 | the numeric value of the matched digits; characterised by `DigitsValueLeadingZero` and `MigrationFileParts` |
| AbstractCommand.VersionOf | src/Phpmig/Console/Command/AbstractCommand.php:213 | `$version`, the value of the basename's leading digits; characterised by `LeadingDigitsOf` and `MigrationFileParts` |
| AbstractCommand.BeforeFirst | src/Phpmig/Console/Command/AbstractCommand.php:219-220 | the `strpos`/`substr` cut before the first `.`; characterised by `BeforeFirstShape` and `BeforeFirstOf` |
| AbstractCommand.RemoveChar | src/Phpmig/Console/Command/AbstractCommand.php:380 | `str_replace(' ', '', ...)`; characterised by `RemoveCharShape`, `RemoveCharConcat` and `RemoveCharKeepsAbsent` |
| AbstractCommand.ClassOf | src/Phpmig/Console/Command/AbstractCommand.php:218-222 | the class name a path derives; characterised by `MigrationFileParts` with `ClassNameOfWords`, and by `DuplicateNameFound` |
| AbstractCommand.MigrationOf | src/Phpmig/Console/Command/AbstractCommand.php:250 | `new $class($version)`: the migration a path stores; characterised by `BuiltCatalog` and `BootstrapMigrations` |
| AbstractCommand.KeyedBy | src/Phpmig/Console/Command/AbstractCommand.php:239-262 | the arrays `$names[$class] = $path` and `$versions[$version] = $migration`; characterised by `KeyedByAt`, `KeyedByStep` and `KeyWitness` |
| Versions.Step | src/start/Adapter/Zend/Db.php:83-100 | one insert or delete of a version; characterised by `ReplayConcat`, `ReplayUntouched`, `ReplayOneDirection`, and by `VersionStore.Up`/`Down` |
| MigrateCommand.DownCalls | src/start/Console/Command/MigrateCommand.php:85-102 | the direction guard and the down pass; characterised by `DownCallsCalls`, and run by `RunTowards` |

## Left out

- Locating and loading the bootstrap file, resolving the adapter and the migration set, and gathering paths with `is_dir`/`realpath`/`glob` (src/Phpmig/Console/Command/AbstractCommand.php:85-203). This is file-system and configuration I/O; the merged path list is an input of `BootstrapMigrations`.
- AbstractCommand.Basename: `/` is the only separator, as in PHP's `basename` on POSIX. The source joins paths with `DIRECTORY_SEPARATOR` (src/Phpmig/Console/Command/AbstractCommand.php:194-202), and on Windows PHP's `basename` also splits at `\` and after a drive letter's `:`. So for `C:\app\migrations\20111018185121_AddUsers.php` the source reads version 20111018185121, while the model takes the whole path as the basename and `VisitFile` reports an invalid file name. Windows path handling is platform behaviour of PHP, not of this code.
- The `GenerateCommand` class-name clash (src/Phpmig/Console/Command/AbstractCommand.php:224-230). It depends on a command class that is not part of this model.
- Class loading (`require_once`, `class_exists`, `instanceof`, the constructor call, src/Phpmig/Console/Command/AbstractCommand.php:241-258). It is a `lookup` parameter that reports, for a path and a class name, whether the class is defined and extends the migration class.
- Output injection (`setOutput`) and the connection switch for a set (src/Phpmig/Console/Command/AbstractCommand.php:260, 265-267). These are console and configuration plumbing.
- AbstractCommand.BootstrapMigrations: versions are natural numbers, so file names whose digits differ only in leading zeros (`001_x`, `1_y`) get the same version. PHP would key them apart as strings ("001" and "1"); the model reports such files as a duplicate version.
- AbstractCommand.BootstrapMigrations: error order is not modelled. With several faulty files, the contract says only that the error returned is explained by some file. It does not say that this is the first faulty file in path order.
- AbstractCommand.MigrationToClassName: it applies the corrected whole-string check `IsValidClassName`, not the pattern as written at src/Phpmig/Console/Command/AbstractCommand.php:399. A class name that is valid but for one final line feed is rejected here, where the source passes it on to class loading (see Findings and `LineFeedFileRejected`).
- AbstractCommand.VisitFile: it rejects a class name ending in a line feed with the invalid-class-name error, for the same reason; the source would go on to the `$names` record and class loading (lines 232-258).
- AbstractCommand.InvalidClassNameFound: "invalid" means invalid under the corrected check, so it also covers a name ending in a line feed, which the source does not reject there.
- AbstractCommand.BootstrapMigrations: `Acceptable` includes the corrected class-name check, so a file list with a class name ending in a line feed is not acceptable, where the source may accept it.
- AbstractCommand.IsValidClassName: a character at or above 0x7f stands for the UTF-8 bytes that encode it. There is no byte-level model of PHP strings.
- MigrateCommand.Execute: PHP loose comparison of numeric strings (`0 != $version`, `in_array`) becomes comparison of natural numbers, and the version `0` is the "zero" target.
- Adapter.VersionStore.FetchAll: it returns the applied versions as they are after `sort($versions)` (src/start/Console/Command/MigrateCommand.php:62), in numeric order. The store's own `ORDER BY version ASC` on a text column (src/start/Adapter/Zend/Db.php:70) orders "10" before "9"; the model does not keep that intermediate order, since `sort` discards it.
- The `Migrator` class, and the migration actions it runs, are not part of this model. Each `up`/`down` is assumed to succeed; an exception that stops a run midway is not modelled.
- The Symfony console layer (options, arguments, help text, `PhpmigApplication`, its test). This is CLI registration with no engine logic.
- `hasSchema`/`createSchema` of the store (src/Phpmig/Adapter/AdapterInterface.php:49-61). The source calls them only while bootstrapping the adapter (src/Phpmig/Console/Command/AbstractCommand.php:158-159), which is left out above; no driver calls them.
- Concurrency: the store has a single writer, and nothing else changes it between the snapshot and the calls.

## Findings

| source | as written | input that shows it | evidently intended | confidence | as-written member | corrected member |
|---|---|---|---|---|---|---|
| src/Phpmig/Console/Command/AbstractCommand.php:399 | the pattern ends in `$` without the `D` modifier, so PCRE also matches before a final line feed | a migration file `1_foo` plus a line feed plus `.php` derives the class name `Foo` plus a line feed, which passes the check | the whole string is a PHP identifier, so such a name is rejected as an invalid class name | not executed | AbstractCommand.IsValidClassNameAsWritten, AbstractCommand.TrailingLineFeedAccepted | AbstractCommand.IsValidClassName, AbstractCommand.ValidClassNameShape |
