# Connection-config connector, modelled in Dafny

The connector answers one question for a plugin runtime: given a connection
name, what are its settings (url, username, password, service type and a
free-form properties map)? Two backends implement that name-keyed contract,
and this project models both of them.

- **In-memory store** (`InMemory`, file `in_memory.dfy`). A class holding one
  map field from connection name to record. Add and edit both put the record
  under its name, overwriting whatever was there, and hand back the record they
  replaced. Delete removes a name. Get is an optional lookup. Get-all copies
  the stored values into a fresh list.
- **Filesystem resolver** (`FileSystem`, file `file_system.dfy`). A read-only
  lookup over a secrets directory. Get reads `root/name/config.yaml` and forces
  the record's name to `name`. If the descriptor cannot be opened, or fails to
  close, the result is empty. Get-all walks
  the root recursively, keeps every directory except the root, looks each one up
  by its last name component, and drops the empty results. If opening the walk
  fails, get-all gives an empty list.

The disk and the YAML library are inputs to the filesystem functions:
- a `Loader` maps a descriptor path to `IOError` (the file could not be
  opened, or failed to close), `ParseError` (the YAML library failed while
  reading or parsing it; it wraps a read failure in its own exception),
  `NullDocument` (an empty file) or `Loaded(config)`;
- a `Walk` is either `RootUnreadable` or the entries the walk yielded, plus
  whether it ran to completion.

Only `IOException` is caught, and only opening and closing the descriptor
throw it. A read or parse failure or an empty descriptor escapes
as an unchecked exception, modelled as `Outcome.Raised`. So does an I/O error
met after the walk has started.

The shared record is `Model.ConnectionConfig`, a datatype with the six fields
of the Java record. Equality is structural.

## Model

| member | source | states |
|---|---|---|
| `Model.WithName` | src/main/java/org/entando/connectionconfigconnector/impl/ConnectionConfigConnectorImpl.java:40 | setting the name changes that field only; the result carries the new name and every other field of the original |
| `InMemory.InMemoryConnectionConfigConnector.constructor` | src/main/java/org/entando/connectionconfigconnector/service/impl/InMemoryConnectionConfigConnector.java:13 | a new store holds no entries |
| `InMemory.InMemoryConnectionConfigConnector.GetConnectionConfig` | src/main/java/org/entando/connectionconfigconnector/service/impl/InMemoryConnectionConfigConnector.java:16-18 | the result is present exactly when the name has an entry, and is then that entry's record; an absent name gives empty |
| `InMemory.InMemoryConnectionConfigConnector.GetConnectionConfigs` | src/main/java/org/entando/connectionconfigconnector/service/impl/InMemoryConnectionConfigConnector.java:21-23 | the list holds the stored records once per key (multiset equality with the map's values), one element per key; the store is not modified |
| `InMemory.InMemoryConnectionConfigConnector.AddConnectionConfig` | src/main/java/org/entando/connectionconfigconnector/service/impl/InMemoryConnectionConfigConnector.java:26-28 | the record is stored under its name, overwriting a duplicate; returns the record previously stored under that name, or None; every other name keeps its record |
| `InMemory.InMemoryConnectionConfigConnector.DeleteConnectionConfig` | src/main/java/org/entando/connectionconfigconnector/service/impl/InMemoryConnectionConfigConnector.java:31-33 | only the given name's entry is removed; deleting an absent name changes nothing |
| `InMemory.InMemoryConnectionConfigConnector.EditConnectionConfig` | src/main/java/org/entando/connectionconfigconnector/service/impl/InMemoryConnectionConfigConnector.java:36-38 | same effect and result as add: the record is stored under its name (inserted when absent), the previous record is returned, other names are untouched |
| `InMemory.BagRemove` | src/main/java/org/entando/connectionconfigconnector/service/impl/InMemoryConnectionConfigConnector.java:21-23 | the snapshot contents of a map are the snapshot of the map without any one key plus that key's record |
| `InMemory.BagSize` | src/main/java/org/entando/connectionconfigconnector/service/impl/InMemoryConnectionConfigConnector.java:21-23 | the snapshot has one element per stored key |
| `InMemory.BagHoldsValues` | src/main/java/org/entando/connectionconfigconnector/service/impl/InMemoryConnectionConfigConnector.java:21-23 | a record is in the snapshot exactly when some name maps to it |
| `InMemory.BagPut` | src/main/java/org/entando/connectionconfigconnector/service/impl/InMemoryConnectionConfigConnector.java:27 | after a put, the snapshot has lost the replaced record (if any) and gained the new one |
| `InMemory.AddThenGetByName` | src/test/java/org/entando/connectionconfigconnector/InMemoryConnectionConfigConnectorTest.java:28-40 | after adding three records with distinct names, each name's lookup returns its record |
| `InMemory.AddThenGetAll` | src/test/java/org/entando/connectionconfigconnector/InMemoryConnectionConfigConnectorTest.java:42-53 | after adding three records with distinct names, the snapshot is exactly those three in any order |
| `InMemory.AddThenDelete` | src/test/java/org/entando/connectionconfigconnector/InMemoryConnectionConfigConnectorTest.java:55-63 | after add then delete of one record, the snapshot is empty and the lookup is empty |
| `InMemory.AddThenEdit` | src/test/java/org/entando/connectionconfigconnector/InMemoryConnectionConfigConnectorTest.java:65-76 | editing a record under an existing name returns the old record and the lookup then returns the edited one |
| `FileSystem.ConfigPathsDistinct` | src/main/java/org/entando/connectionconfigconnector/impl/ConnectionConfigConnectorImpl.java:37 | under one root, two names share a descriptor path exactly when they are equal |
| `FileSystem.GetConnectionConfig` | src/main/java/org/entando/connectionconfigconnector/impl/ConnectionConfigConnectorImpl.java:36-46 | a failure to open or close the descriptor, and only that, gives empty; a loaded record comes back with `name` forced to the requested name and every other field (properties included) as loaded; a read or parse failure in the YAML library, or an empty descriptor, escapes as an exception |
| `FileSystem.GetConnectionConfigs` | src/main/java/org/entando/connectionconfigconnector/impl/ConnectionConfigConnectorImpl.java:49-64 | a root that cannot be walked gives the empty list |
| `FileSystem.CollectMatchesStages` | src/main/java/org/entando/connectionconfigconnector/impl/ConnectionConfigConnectorImpl.java:51-59 | the lazy stream equals the stage-by-stage pipeline (filter directories other than the root, map to names, look up, keep present ones, in walk order); it returns exactly when the walk completed and no kept lookup raises; when a lookup raises, a lookup's failure escapes and never the walk's, otherwise an unfinished walk escapes as an unchecked I/O error |
| `FileSystem.CollectRaisesFirstFailure` | src/main/java/org/entando/connectionconfigconnector/impl/ConnectionConfigConnectorImpl.java:51-59 | when some kept lookup raises, the exception that escapes is that of the first raising lookup in walk order, every earlier lookup having returned |
| `FileSystem.DirectoryNamesFromEntries` | src/main/java/org/entando/connectionconfigconnector/impl/ConnectionConfigConnectorImpl.java:52-55 | a name is looked up exactly when some walked directory other than the root carries it |
| `FileSystem.PresentFromNames` | src/main/java/org/entando/connectionconfigconnector/impl/ConnectionConfigConnectorImpl.java:56-58 | every kept record is the successful lookup of one of the names |
| `FileSystem.PresentComplete` | src/main/java/org/entando/connectionconfigconnector/impl/ConnectionConfigConnectorImpl.java:56-58 | every successful lookup of one of the names is kept |
| `FileSystem.PresentAllLoaded` | src/main/java/org/entando/connectionconfigconnector/impl/ConnectionConfigConnectorImpl.java:56-58 | when every name loads, all records are kept, in name order, each named after its name and otherwise as loaded |
| `FileSystem.ListedRecordsComeFromDirectories` | src/main/java/org/entando/connectionconfigconnector/impl/ConnectionConfigConnectorImpl.java:51-59 | every listed record is the lookup of a walked directory other than the root, and carries that directory's name |
| `FileSystem.ListsEveryFoundDirectory` | src/main/java/org/entando/connectionconfigconnector/impl/ConnectionConfigConnectorImpl.java:51-59 | when the listing returns, it holds the record of every walked directory other than the root whose lookup found one |
| `FileSystem.ListAllLoaded` | src/main/java/org/entando/connectionconfigconnector/impl/ConnectionConfigConnectorImpl.java:51-59 | when every kept directory loads, the list has one record per kept directory, in walk order, each named after its directory |
| `FileSystem.ListWithoutSubdirectories` | src/test/java/org/entando/connectionconfigconnector/ConnectionConfigConnectorStrictTest.java:112-120 | a completed walk with no directory besides the root lists nothing |
| `FileSystem.ListRaisesOnBadDescriptor` | src/main/java/org/entando/connectionconfigconnector/impl/ConnectionConfigConnectorImpl.java:56 | a kept directory whose descriptor fails to parse or is empty makes get-all raise instead of skipping it |
| `FileSystem.NestedDirectoryListedTwice` | src/main/java/org/entando/connectionconfigconnector/impl/ConnectionConfigConnectorImpl.java:51-55 | on a root holding `bar` and `foo/bar`, the recursive walk lists the record of `bar` twice, while the immediate listing lists each connection once |
| `FileSystem.GetImmediateConnectionConfigs` | src/main/java/org/entando/connectionconfigconnector/impl/ConnectionConfigConnectorImpl.java:49-64 | the corrected listing: only the root's immediate subdirectories, with the same error handling; an unreadable root gives the empty list |
| `FileSystem.ImmediateListingHasDistinctNames` | src/main/java/org/entando/connectionconfigconnector/impl/ConnectionConfigConnectorImpl.java:51-55 | the corrected listing never holds two records with the same name |

## Left out

- The common Java interface of the two backends is not written as a Dafny trait, because traits are not used here. Both backends keep the interface's operation names instead.
- The filesystem class declares no add, edit or delete, although the interface it implements lists them. So the filesystem model has no mutations.
- Real disk access and YAML parsing are inputs, as a `Loader` and a `Walk`. An `IOException` thrown while closing the descriptor is folded into `IOError`, since the code maps it to empty as well. A read failure happens inside the YAML library, which wraps it in its own exception, so it is a `ParseError` and escapes.
- Records are modelled as values. The Java record is a mutable bean: the in-memory store keeps the caller's object, get returns that same object, and get-all copies only the list. A caller that mutates a record after adding it, or one it got back, changes the stored entry, and a `setName` can even make a stored record's name differ from its key. The model does not capture this sharing.
- Path joining and normalisation are not modelled. The descriptor path is the list of its three components. The walk's absolute paths are taken as given and compared with the root string verbatim.
- An I/O error met mid-walk is modelled as coming after the last entry the walk yielded. The Java walk reports it when the failing directory is reached.
- Null values are not modelled: record fields, map keys and the loaded record itself, except as `NullDocument`. The concurrent map rejects null names. Names and fields here are always strings.
- The thread safety of the concurrent map is left out. The store is modelled as a sequential map.
- Logging is left out.
- The STRICT/LENIENT dispatcher, the HTTP sidecar backend and the Spring wiring are not part of this model.
- The in-memory store's throwing variant, with not-found and already-exists errors, is not part of this model. The in-memory class modelled here overwrites on a duplicate add and never fails.
- Only `IOException` is caught in the lookup, so a descriptor that fails to parse or is empty is not skipped: the failure escapes from get and from get-all.
- `Files.walk` has no depth limit, although the lookup path `root/<name>/config.yaml` only fits immediate subdirectories; the model follows the code (see Findings).
- FileSystem.GetImmediateConnectionConfigs: reads the recursive walk's completion flag, so an I/O error inside a nested directory still makes it raise, whereas a walk limited to depth 1 would never open that directory.

## Findings

| source | as written | input that shows it | evidently intended | confidence | as-written member | corrected member |
|---|---|---|---|---|---|---|
| src/main/java/org/entando/connectionconfigconnector/impl/ConnectionConfigConnectorImpl.java:51-55 | the walk is recursive; every directory at any depth is kept and looked up as `root/<last name>/config.yaml` | a root `/r` with subdirectories `bar`, `foo` and `foo/bar`, where `/r/bar` and `/r/foo` hold descriptors: the list is bar, foo, bar | one record per immediate subdirectory of the root, the only directories the lookup path `root/<name>/config.yaml` resolves | medium, not executed | `FileSystem.GetConnectionConfigs` (shown by `FileSystem.NestedDirectoryListedTwice`) | `FileSystem.GetImmediateConnectionConfigs` (proved by `FileSystem.ImmediateListingHasDistinctNames`) |
