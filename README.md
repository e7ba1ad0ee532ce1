# Snapshot manager of rdctl, modelled in Dafny

`rdctl` keeps snapshots of a Rancher Desktop installation in a snapshots
directory. Each snapshot is a subdirectory named by a UUID that holds a
`metadata.json` with the snapshot's `Name`, `ID` and `Created` time. The
`snapshot.Manager` lists the snapshots, finds a snapshot's ID from its name,
creates a snapshot (refusing a name that is taken or that does not match
`^[0-9a-zA-Z_-]{0,100}$`, and removing a half-made snapshot directory when
creating its files fails), deletes a snapshot by ID and restores one.

This project models that manager as a small state machine over an abstract
snapshots directory and proves what each operation does to it.

- `names.dfy`, module `SnapshotNames`: the name rule. `ValidName` is the rule as
  a length and character-class predicate; `MatchesNamePattern` reads the regular
  expression `^[0-9a-zA-Z_-]{0,100}$` one character at a time. The two are
  proved equal. The module also gives `Before`, the order in which `os.ReadDir`
  reports directory entries, with the facts that make it a strict total order.
- `store.dfy`, module `SnapshotStore`: the directory. It has a status
  (`Absent`, `Unreadable` or `Present`) and a sequence of entries. Each entry
  has a name and what its `metadata.json` reads as: `Missing`, `Malformed` or
  `Parsed(snapshot)`. The entries are strictly sorted by name, as `os.ReadDir`
  returns them. The module also holds `Listing`, the specification of `List`,
  the searches that `GetSnapshotId` and `Create` perform, and the functions that
  add, change or remove one entry, with lemmas about each.
- `manager.dfy`, module `SnapshotManager`: class `Manager`. Its fields `status`
  and `entries` are the directory. Its methods are `List`, `GetSnapshotId`,
  `Create`, `Delete`, `Restore` and `WriteMetadataFile`. Each `ensures` states
  the result and the new directory for every error path and for success. Three
  small client methods at the end show what a caller can conclude from those
  contracts alone.

Calls into code outside the manager are parameters that say how the call
turned out:

- `uuid.NewRandom()` is `newId: Option<string>`, with `None` when the
  generator fails.
- `time.Now()` is `now`.
- `Snapshotter.CreateFiles` is `createFiles`. It either wrote everything, or it
  failed and left nothing, a directory without metadata, or a directory with a
  broken metadata file.
- `os.RemoveAll` is a `RemoveOutcome`.
- `Snapshotter.RestoreFiles` is a function `Snapshot -> bool`.
- Creating and encoding `metadata.json` are two booleans.

What the proofs establish, beyond each operation's own contract:

- Create never leaves two readable snapshots with the same name if there were
  none before.
- A rolled-back Create leaves the entries as they were.
- After a Create succeeds, looking up the new name gives the new ID.
- Delete and WriteMetadataFile change no entry other than the one they name.
- A failed rollback leaves a directory whose metadata does not read. From then
  on `List`, and so `Create` and `GetSnapshotId`, fail until that directory is
  removed (see `Manager.Create`'s last clauses and `ListEntriesOk`).

## Model

| member | source | states |
|---|---|---|
| `SnapshotNames.ValidName` | src/go/rdctl/pkg/snapshot/manager.go:16 | the name rule stated directly: at most 100 characters, each an ASCII letter, digit, `_` or `-`; `NamePatternIsValidName` proves the pattern means exactly this |
| `SnapshotNames.MatchesNamePattern` | src/go/rdctl/pkg/snapshot/manager.go:16 | the anchored pattern `^[0-9a-zA-Z_-]{0,100}$` read one character at a time; its meaning is proved by `MatchesRepeatIff` and `NamePatternIsValidName` |
| `SnapshotNames.NamePatternIsValidName` | src/go/rdctl/pkg/snapshot/manager.go:16 | the name pattern accepts a name exactly when it has at most 100 characters, each an ASCII letter, digit, `_` or `-` |
| `SnapshotNames.MatchesRepeatIff` | src/go/rdctl/pkg/snapshot/manager.go:16 | an anchored `C{lo,hi}` over the name class matches exactly the strings of `lo` to `hi` class characters |
| `SnapshotNames.NamePatternAccepts` | src/go/rdctl/pkg/snapshot/manager.go:16 | the empty name is accepted, and so is a name mixing letters, digits, `_` and `-` |
| `SnapshotNames.NamePatternRejects` | src/go/rdctl/pkg/snapshot/manager.go:16 | a name with a space, a dot or a slash is rejected |
| `SnapshotNames.NamePatternRejectsLong` | src/go/rdctl/pkg/snapshot/manager.go:16 | every name longer than 100 characters is rejected |
| `SnapshotNames.BeforeIrreflexive` | src/go/rdctl/pkg/snapshot/manager.go:104 | no entry name comes before itself in directory order |
| `SnapshotNames.BeforeTransitive` | src/go/rdctl/pkg/snapshot/manager.go:104 | directory order is transitive |
| `SnapshotNames.BeforeTotal` | src/go/rdctl/pkg/snapshot/manager.go:104 | of two different entry names, one comes first in directory order |
| `SnapshotStore.SortedNamesDistinct` | src/go/rdctl/pkg/snapshot/manager.go:104 | entries in directory order have distinct names |
| `SnapshotStore.ReadEntry` | src/go/rdctl/pkg/snapshot/manager.go:110-118 | reading one entry's `metadata.json`: a missing file is a read error naming the entry, an undecodable one a decode error, otherwise the snapshot it holds |
| `SnapshotStore.ListEntries` | src/go/rdctl/pkg/snapshot/manager.go:108-122 | the loop over the directory entries, front to back, stopping at the first entry that cannot be read; `ListEntriesOk` and `ListEntriesFirstFailure` prove what it returns |
| `SnapshotStore.Listing` | src/go/rdctl/pkg/snapshot/manager.go:104-107 | what `List` returns for each state of the snapshots directory: no snapshots when it does not exist, an error when it cannot be read, otherwise `ListEntries` of its entries |
| `SnapshotStore.ListEntriesOk` | src/go/rdctl/pkg/snapshot/manager.go:108-122 | reading the entries succeeds exactly when every entry's metadata decodes, and then gives one snapshot per entry, in entry order |
| `SnapshotStore.ListEntriesFirstFailure` | src/go/rdctl/pkg/snapshot/manager.go:109-118 | when some metadata does not decode, the whole call fails with the error of the first such entry (unreadable or undecodable) |
| `SnapshotStore.FirstWithName` | src/go/rdctl/pkg/snapshot/manager.go:56-61 | the search gives the first snapshot in list order with the name, and none only when no snapshot has it |
| `SnapshotStore.FindEntry` | src/go/rdctl/pkg/snapshot/manager.go:150-153 | the snapshot path `<snapshots>/<id>` names an entry exactly when one is called `id` |
| `SnapshotStore.InsertionPoint` | src/go/rdctl/pkg/snapshot/manager.go:91-92 | a new snapshot directory appears after every name before it and before the first name after it |
| `SnapshotStore.Insert` | src/go/rdctl/pkg/snapshot/manager.go:91-92 | the directory after CreateFiles has made the snapshot's directory: the new entry at its place in directory order; `InsertSorted`, `RemoveInserted` and `LookupAfterInsert` prove what it keeps |
| `SnapshotStore.InsertSorted` | src/go/rdctl/pkg/snapshot/manager.go:91-92 | adding a directory with a fresh name keeps the entries in directory order |
| `SnapshotStore.RemoveEntry` | src/go/rdctl/pkg/snapshot/manager.go:141-145 | the directory after `os.RemoveAll` of one snapshot directory; `RemoveEntryContents` proves it takes out exactly the entries with that name |
| `SnapshotStore.RemoveEntryContents` | src/go/rdctl/pkg/snapshot/manager.go:141-145 | removing a snapshot directory takes out exactly the entries with that name and keeps every other one |
| `SnapshotStore.RemoveEntryRemoves` | src/go/rdctl/pkg/snapshot/manager.go:141-145 | after the removal no entry has that name |
| `SnapshotStore.RemoveEntrySorted` | src/go/rdctl/pkg/snapshot/manager.go:141-145 | removing an entry keeps the others in directory order |
| `SnapshotStore.RemoveEntryIdempotent` | src/go/rdctl/pkg/snapshot/manager.go:141-145 | removing the same directory again removes nothing more |
| `SnapshotStore.RemoveInserted` | src/go/rdctl/pkg/snapshot/manager.go:90-97 | removing the directory that a failed creation added gives back exactly the entries from before it |
| `SnapshotStore.SetMetadata` | src/go/rdctl/pkg/snapshot/manager.go:21-35 | the directory after the metadata file of one snapshot directory has been written or removed: same length and names, that entry's metadata is the new one, every other entry is unchanged |
| `SnapshotStore.SetMetadataNames` | src/go/rdctl/pkg/snapshot/manager.go:23-35 | writing a metadata file changes no entry's name, so directory order and which names exist stay the same |
| `SnapshotStore.SetMetadataFrame` | src/go/rdctl/pkg/snapshot/manager.go:23-35 | writing one snapshot's metadata file leaves every other entry as it was |
| `SnapshotStore.InsertNamesUnique` | src/go/rdctl/pkg/snapshot/manager.go:71-75 | adding a snapshot whose name no listed snapshot has, or a directory without readable metadata, keeps snapshot names unique |
| `SnapshotStore.RemoveEntryNamesUnique` | src/go/rdctl/pkg/snapshot/manager.go:141-145 | deleting a snapshot keeps snapshot names unique |
| `SnapshotStore.LookupAfterInsert` | src/go/rdctl/pkg/snapshot/manager.go:51-62 | once a snapshot with an unused name is added under a fresh ID, listing succeeds and the first snapshot with that name is the new one, so the lookup gives its ID |
| `SnapshotManager.Manager.constructor` | src/go/rdctl/pkg/snapshot/manager.go:44-49 | a manager starts over a snapshots directory in a given state, whose entries are in directory order |
| `SnapshotManager.Manager.List` | src/go/rdctl/pkg/snapshot/manager.go:103-123 | the result is `Listing`: no snapshots when the directory does not exist, an error when it cannot be read, otherwise the entries read in order (see `ListEntriesOk`) |
| `SnapshotManager.Manager.GetSnapshotId` | src/go/rdctl/pkg/snapshot/manager.go:51-62 | a listing error is passed on wrapped; otherwise the ID of the first listed snapshot with the name, or a not-found error exactly when no listed snapshot has it |
| `SnapshotManager.Manager.Create` | src/go/rdctl/pkg/snapshot/manager.go:65-100 | in order: a listing error, `ErrNameExists` (also for an invalid name), `ErrInvalidName`, an ID error, each leaving the directory unchanged. Success exactly when the checks pass and the files are written; it returns the snapshot with the given name and the fresh ID and adds its entry. A rollback leaves the entries as before; a failed rollback leaves the unreadable directory and breaks listing. Unique names stay unique |
| `SnapshotManager.Manager.Consummate` | src/go/rdctl/pkg/snapshot/manager.go:90-99 | after CreateFiles: success adds the snapshot's entry; a failure removes the leftover directory and restores the previous entries; a removal that fails leaves an entry without readable metadata |
| `SnapshotManager.Manager.Delete` | src/go/rdctl/pkg/snapshot/manager.go:126-146 | a missing or unreadable directory and an unknown ID are errors that change nothing; a known ID is removed, and only it; a failed removal leaves the entries as they were or with that directory's metadata missing; no other entry ever changes |
| `SnapshotManager.Manager.RemoveSnapshotDir` | src/go/rdctl/pkg/snapshot/manager.go:141-145 | removing one snapshot directory, as Delete and Create's rollback do: success takes out exactly that entry; a failure reports an error and leaves the entries as they were, or, when the removal got as far as `metadata.json`, the same entries with that directory's metadata missing, so no metadata has become readable |
| `SnapshotManager.Manager.Restore` | src/go/rdctl/pkg/snapshot/manager.go:149-165 | no entry or no metadata file gives a read error, an undecodable file a decode error, otherwise the outcome is RestoreFiles applied to the snapshot in that metadata |
| `SnapshotManager.Manager.WriteMetadataFile` | src/go/rdctl/pkg/snapshot/manager.go:20-36 | the file can only be created in an existing snapshot directory. A failed encode leaves a metadata file that does not decode, and success leaves one that reads as the snapshot. No other entry changes |

## Left out

- The file system itself. The model does not make real directory, file, JSON
  or path calls (`os.ReadDir`, `os.ReadFile`, `os.Create`, `os.RemoveAll`,
  `filepath.Join`, `json.Marshal`/`Unmarshal`). The directory is an abstract
  status and a list of entries, and a metadata file reads as `Missing`,
  `Malformed` or `Parsed`.
- Snapshot files other than `metadata.json`. They belong to the snapshotter,
  which is not part of this model. `CreateFiles` and `RestoreFiles` are outcome
  parameters. CreateFiles is taken to create the snapshot's directory, and the
  snapshots directory if needed, and to write `metadata.json` last, as the
  comment on `writeMetadataFile` states.
- `time.Now()` and `Created.Local()`. The time is the parameter `now`, an
  opaque value. `Local()` only changes the time zone used to show the instant,
  so the model leaves it out.
- The text of error messages, the `%w` wrapping chain and the regex text inside
  `ErrInvalidName`. Each error is one `ManagerError` constructor with its
  arguments. `List` also returns an empty slice beside its error; the model's
  `Result` has no value on error.
- SnapshotManager.Manager.Create: requires that the generated ID names no
  existing entry. A random UUID colliding with one is not modelled.
- Concurrent use. Two `Create` calls that run at the same time can both pass
  the duplicate check. The model runs one operation at a time.
- Access to a directory that cannot be listed. An unreadable snapshots
  directory is modelled as giving access to none of its entries. The OS may
  still let `Restore` read a file inside it.
- Path normalisation in `Restore` and `writeMetadataFile`. The ID is joined
  into a path without a check. An ID containing `/` or `..` could reach a file
  outside its own directory. The IDs `""` and `"."` make `filepath.Join` give
  `<snapshots>/metadata.json`, so `Restore` would read, and
  `writeMetadataFile` would create, a file in the snapshots directory itself.
  The model only looks an ID up as an exact entry name, so for these IDs it
  answers `MetadataUnreadable` or `MetadataCreateFailed` instead.
- A removal that fails part way is modelled only by whether it deleted
  `metadata.json`. The other files it may have deleted are not modelled.
- `src/go/wsl-helper/pkg/reset/factory_reset_windows.go`,
  `src/go/wsl-helper/cmd/update_host_linux.go` and
  `src/go/privileged-service/cmd/continue.go` are not part of this model. They
  are Windows system calls and command-line wiring, with no logic to state.
