/** The snapshot manager: the operations that read and change the snapshots
    directory. Calls the manager makes into code outside it (the ID generator,
    the clock, the snapshotter that copies files, directory removal) are
    parameters that say how that call turned out. */
module SnapshotManager {
  import opened SnapshotNames
  import opened SnapshotStore

  /** What a failed CreateFiles leaves in the snapshots directory. It writes
      metadata.json last, so a snapshot directory it did not finish holds no
      metadata file, or one whose writing broke off. */
  datatype Leftover = NothingLeft | DirWithoutMetadata | DirWithBrokenMetadata

  /** How the snapshotter's CreateFiles turned out. */
  datatype CreateFilesOutcome = FilesWritten | FilesFailed(leftover: Leftover)

  /** How removing one snapshot directory (os.RemoveAll) turned out: it is
      gone, or the removal stopped part way, perhaps after deleting the
      metadata file. */
  datatype RemoveOutcome = Removed | RemoveFailed(metadataRemoved: bool)

  function LeftoverMetadata(l: Leftover): Metadata
    requires l != NothingLeft
  {
    if l == DirWithoutMetadata then Missing else Malformed
  }

  /** Some listed snapshot already has this name. */
  predicate NameTaken(snaps: seq<Snapshot>, name: string) {
    exists i :: 0 <= i < |snaps| && snaps[i].name == name
  }

  /** Create gets past its checks: the directory lists, the name is free and
      the name is valid. */
  predicate CreateAdmits(listing: Result<seq<Snapshot>>, name: string) {
    listing.Ok? && !NameTaken(listing.value, name) && ValidName(name)
  }

  /** A manager over one snapshots directory: whether it exists and can be
      read, and its entries in the order the directory reports them. */
  class Manager {
    var status: DirStatus
    var entries: seq<Entry>

    ghost predicate Valid()
      reads this
    {
      Sorted(entries) && (status != Present ==> entries == [])
    }

    constructor (status0: DirStatus, entries0: seq<Entry>)
      requires Sorted(entries0) && (status0 != Present ==> entries0 == [])
      ensures Valid() && status == status0 && entries == entries0
    {
      status := status0;
      entries := entries0;
    }

    /** The snapshots present on the system, one per directory entry in entry
        order; see ListEntriesOk and ListEntriesFirstFailure. */
    method List() returns (r: Result<seq<Snapshot>>)
      ensures r == Listing(status, entries)
    {
      if status == Unreadable {
        return Err(SnapshotsDirUnreadable);
      }
      // A snapshots directory that does not exist reads as no entries.
      var dirEntries := if status == Present then entries else [];
      var snapshots: seq<Snapshot> := [];
      var i := 0;
      assert forall rest: seq<Snapshot> :: [] + rest == rest;
      while i < |dirEntries|
        invariant 0 <= i <= |dirEntries|
        invariant Listing(status, entries) == Prepend(snapshots, ListEntries(dirEntries[i..]))
      {
        var entry := dirEntries[i];
        assert dirEntries[i..][0] == entry && dirEntries[i..][1..] == dirEntries[i + 1..];
        match entry.metadata {
          case Missing =>
            return Err(MetadataUnreadable(entry.name));
          case Malformed =>
            return Err(MetadataMalformed(entry.name));
          case Parsed(s) =>
            assert forall rest: seq<Snapshot> :: snapshots + ([s] + rest) == snapshots + [s] + rest;
            snapshots := snapshots + [s];
        }
        i := i + 1;
      }
      assert dirEntries[i..] == [] && snapshots + [] == snapshots;
      return Ok(snapshots);
    }

    /** The ID of the first listed snapshot with the given name. */
    method GetSnapshotId(desiredName: string) returns (r: Result<string>)
      ensures Listing(status, entries).Err? ==>
        r == Err(ListFailed(Listing(status, entries).error))
      ensures Listing(status, entries).Ok? ==>
        var snaps := Listing(status, entries).value;
        (r.Ok? ==> exists i: nat :: IsFirstNamed(snaps, desiredName, i) && snaps[i].id == r.value) &&
        (r.Err? ==> r.error == NameNotFound(desiredName) &&
                    forall i :: 0 <= i < |snaps| ==> snaps[i].name != desiredName)
    {
      var listed := List();
      if listed.Err? {
        return Err(ListFailed(listed.error));
      }
      var snapshots := listed.value;
      match FirstWithName(snapshots, desiredName) {
        case Some(i) =>
          return Ok(snapshots[i].id);
        case None =>
          return Err(NameNotFound(desiredName));
      }
    }

    /** Creates a snapshot called `name`. `newId` is what the UUID generator
        gave (None when it failed), `now` the clock, `createFiles` how the
        snapshotter's CreateFiles turned out and `rollback` how removing its
        leftover directory would turn out. */
    method Create(name: string, newId: Option<string>, now: Timestamp,
                  createFiles: CreateFilesOutcome, rollback: RemoveOutcome)
      returns (r: Result<Snapshot>)
      requires Valid()
      requires newId.Some? ==> !HasEntry(entries, newId.value)
      modifies this
      ensures Valid()
      ensures Listing(old(status), old(entries)).Err? ==>
        r == Err(ListFailed(Listing(old(status), old(entries)).error)) && unchanged(this)
      ensures Listing(old(status), old(entries)).Ok? &&
              NameTaken(Listing(old(status), old(entries)).value, name) ==>
        r == Err(NameExists(name)) && unchanged(this)
      ensures Listing(old(status), old(entries)).Ok? &&
              !NameTaken(Listing(old(status), old(entries)).value, name) && !ValidName(name) ==>
        r == Err(InvalidName(name)) && unchanged(this)
      ensures CreateAdmits(Listing(old(status), old(entries)), name) && newId.None? ==>
        r == Err(IdGenerationFailed) && unchanged(this)
      ensures r.Ok? <==>
        CreateAdmits(Listing(old(status), old(entries)), name) && newId.Some? && createFiles == FilesWritten
      ensures r.Ok? ==>
        r.value == Snapshot(now, name, newId.value) && !HasEntry(old(entries), r.value.id) &&
        status == Present && entries == Insert(old(entries), Entry(r.value.id, Parsed(r.value)))
      ensures CreateAdmits(Listing(old(status), old(entries)), name) && newId.Some? &&
              createFiles.FilesFailed? && (createFiles.leftover == NothingLeft || rollback == Removed) ==>
        r == Err(CreateFilesFailed) && entries == old(entries) &&
        Listing(status, entries) == Listing(old(status), old(entries))
      ensures CreateAdmits(Listing(old(status), old(entries)), name) && newId.Some? &&
              createFiles.FilesFailed? && createFiles.leftover != NothingLeft && rollback.RemoveFailed? ==>
        r == Err(RollbackFailed) && HasEntry(entries, newId.value) &&
        RemoveEntry(entries, newId.value) == old(entries) && Listing(status, entries).Err?
      ensures NamesUnique(old(entries)) ==> NamesUnique(entries)
    {
      var current := List();
      if current.Err? {
        return Err(ListFailed(current.error));
      }
      if FirstWithName(current.value, name).Some? {
        return Err(NameExists(name));
      }
      if !ValidName(name) {
        return Err(InvalidName(name));
      }
      if newId.None? {
        return Err(IdGenerationFailed);
      }
      var snapshot := Snapshot(now, name, newId.value);
      ListEntriesOk(entries);
      forall k | 0 <= k < |entries| && entries[k].metadata.Parsed?
        ensures entries[k].metadata.snapshot.name != name
      {
        assert current.value[k] == entries[k].metadata.snapshot;
      }
      r := Consummate(snapshot, createFiles, rollback);
    }

    /** The steps of Create that can fail once the snapshot is named and has
        an ID, with the snapshot's directory removed again if they do. */
    method Consummate(snapshot: Snapshot, createFiles: CreateFilesOutcome, rollback: RemoveOutcome)
      returns (r: Result<Snapshot>)
      requires Valid() && !HasEntry(entries, snapshot.id)
      modifies this
      ensures Valid()
      ensures r.Ok? <==> createFiles == FilesWritten
      ensures r.Ok? ==>
        r.value == snapshot && status == Present &&
        entries == Insert(old(entries), Entry(snapshot.id, Parsed(snapshot)))
      ensures createFiles.FilesFailed? && (createFiles.leftover == NothingLeft || rollback == Removed) ==>
        r == Err(CreateFilesFailed) && entries == old(entries) &&
        (old(status) == Present ==> status == Present) && (status == Present || status == old(status))
      ensures createFiles.FilesFailed? && createFiles.leftover != NothingLeft && rollback.RemoveFailed? ==>
        r == Err(RollbackFailed) && HasEntry(entries, snapshot.id) &&
        RemoveEntry(entries, snapshot.id) == old(entries) && Listing(status, entries).Err?
      ensures NamesUnique(old(entries)) &&
              (forall k :: 0 <= k < |old(entries)| && old(entries)[k].metadata.Parsed? ==>
                 old(entries)[k].metadata.snapshot.name != snapshot.name) ==>
        NamesUnique(entries)
    {
      if createFiles.FilesWritten? {
        var e := Entry(snapshot.id, Parsed(snapshot));
        InsertSorted(entries, e);
        if NamesUnique(entries) && (forall k :: 0 <= k < |entries| && entries[k].metadata.Parsed? ==>
                                      entries[k].metadata.snapshot.name != snapshot.name) {
          InsertNamesUnique(entries, e);
        }
        entries := Insert(entries, e);
        status := Present;
        return Ok(snapshot);
      }
      if createFiles.leftover == NothingLeft {
        // Removing a directory that does not exist succeeds.
        return Err(CreateFilesFailed);
      }
      var e := Entry(snapshot.id, LeftoverMetadata(createFiles.leftover));
      InsertSorted(entries, e);
      RemoveInserted(entries, e);
      if NamesUnique(entries) { InsertNamesUnique(entries, e); }
      ghost var p := InsertionPoint(entries, e.name);
      entries := Insert(entries, e);
      status := Present;
      assert entries[p] == e;
      var removed := RemoveSnapshotDir(snapshot.id, rollback);
      if removed.Err? {
        ListEntriesOk(entries);
        return Err(RollbackFailed);
      }
      return Err(CreateFilesFailed);
    }

    /** Deletes the snapshot directory named `id`; `removal` is how removing it
        turns out. */
    method Delete(id: string, removal: RemoveOutcome) returns (r: Result<()>)
      requires Valid()
      modifies this
      ensures Valid() && status == old(status)
      ensures RemoveEntry(entries, id) == RemoveEntry(old(entries), id)
      ensures old(status) != Present ==> r == Err(SnapshotsDirUnreadable) && entries == old(entries)
      ensures old(status) == Present && !HasEntry(old(entries), id) ==>
        r == Err(SnapshotNotFound(id)) && entries == old(entries)
      ensures r.Ok? <==> old(status) == Present && HasEntry(old(entries), id) && removal == Removed
      ensures r.Ok? ==> entries == RemoveEntry(old(entries), id) && !HasEntry(entries, id)
      ensures old(status) == Present && HasEntry(old(entries), id) && removal.RemoveFailed? ==>
        r == Err(DirRemovalFailed(id)) && HasEntry(entries, id) &&
        (removal == RemoveFailed(false) ==> entries == old(entries)) &&
        (removal == RemoveFailed(true) ==> entries == SetMetadata(old(entries), id, Missing))
      ensures NamesUnique(old(entries)) ==> NamesUnique(entries)
    {
      if status != Present {
        return Err(SnapshotsDirUnreadable);
      }
      var found := false;
      var i := 0;
      while i < |entries|
        invariant 0 <= i <= |entries|
        invariant !found
        invariant forall k :: 0 <= k < i ==> entries[k].name != id
      {
        if entries[i].name == id {
          found := true;
          break;
        }
        i := i + 1;
      }
      if !found {
        RemoveEntryAbsent(entries, id);
        return Err(SnapshotNotFound(id));
      }
      assert HasEntry(entries, id) by { assert entries[i].name == id; }
      r := RemoveSnapshotDir(id, removal);
    }

    /** Removing the directory of a snapshot that Delete has found. */
    method RemoveSnapshotDir(id: string, removal: RemoveOutcome) returns (r: Result<()>)
      requires Valid() && status == Present && HasEntry(entries, id)
      modifies this
      ensures Valid() && status == old(status)
      ensures RemoveEntry(entries, id) == RemoveEntry(old(entries), id)
      ensures r.Ok? <==> removal == Removed
      ensures r.Ok? ==> entries == RemoveEntry(old(entries), id) && !HasEntry(entries, id)
      ensures r.Err? ==> r == Err(DirRemovalFailed(id)) && HasEntry(entries, id)
      ensures r.Err? ==> (AllParsed(entries) ==> AllParsed(old(entries)))
      ensures removal == RemoveFailed(false) ==> entries == old(entries)
      ensures removal == RemoveFailed(true) ==> entries == SetMetadata(old(entries), id, Missing)
      ensures NamesUnique(old(entries)) ==> NamesUnique(entries)
    {
      match removal {
        case Removed =>
          RemoveEntrySorted(entries, id);
          RemoveEntryRemoves(entries, id);
          RemoveEntryIdempotent(entries, id);
          if NamesUnique(entries) { RemoveEntryNamesUnique(entries, id); }
          entries := RemoveEntry(entries, id);
          return Ok(());
        case RemoveFailed(metadataRemoved) =>
          if metadataRemoved {
            SetMetadataNames(entries, id, Missing, id);
            SetMetadataFrame(entries, id, Missing);
            if NamesUnique(entries) { SetMetadataNamesUnique(entries, id, Missing); }
            ghost var k := FindEntry(entries, id).value;
            entries := SetMetadata(entries, id, Missing);
            assert !entries[k].metadata.Parsed?;
          }
          return Err(DirRemovalFailed(id));
      }
    }

    /** Restores the application to the snapshot whose directory is `id`;
        `restoreFiles` says whether the snapshotter's RestoreFiles succeeds
        for a given snapshot. */
    method Restore(id: string, restoreFiles: Snapshot -> bool) returns (r: Result<()>)
      requires Valid()
      ensures !HasEntry(entries, id) ==> r == Err(MetadataUnreadable(id))
      ensures forall k :: 0 <= k < |entries| && entries[k].name == id ==>
        (entries[k].metadata == Missing ==> r == Err(MetadataUnreadable(id))) &&
        (entries[k].metadata == Malformed ==> r == Err(MetadataMalformed(id))) &&
        (entries[k].metadata.Parsed? ==>
          (r.Ok? <==> restoreFiles(entries[k].metadata.snapshot)) &&
          (r.Err? ==> r.error == RestoreFilesFailed))
    {
      var k := FindEntry(entries, id);
      if k.None? {
        return Err(MetadataUnreadable(id));
      }
      forall j | 0 <= j < |entries| && entries[j].name == id ensures j == k.value {
        if j != k.value { SortedNamesDistinct(entries, j, k.value); }
      }
      match entries[k.value].metadata {
        case Missing =>
          return Err(MetadataUnreadable(id));
        case Malformed =>
          return Err(MetadataMalformed(id));
        case Parsed(snapshot) =>
          if !restoreFiles(snapshot) {
            return Err(RestoreFilesFailed);
          }
          return Ok(());
      }
    }

    /** Writes `snapshot` to the metadata file of its directory, the last step
        of making a snapshot. `createOk` says whether creating the file
        succeeds, `encodeOk` whether encoding into it does. */
    method WriteMetadataFile(snapshot: Snapshot, createOk: bool, encodeOk: bool)
      returns (r: Result<()>)
      requires Valid()
      modifies this
      ensures Valid() && status == old(status)
      ensures RemoveEntry(entries, snapshot.id) == RemoveEntry(old(entries), snapshot.id)
      ensures !(HasEntry(old(entries), snapshot.id) && createOk) ==>
        r == Err(MetadataCreateFailed(snapshot.id)) && entries == old(entries)
      ensures HasEntry(old(entries), snapshot.id) && createOk && !encodeOk ==>
        r == Err(MetadataWriteFailed(snapshot.id)) &&
        entries == SetMetadata(old(entries), snapshot.id, Malformed)
      ensures r.Ok? <==> HasEntry(old(entries), snapshot.id) && createOk && encodeOk
      ensures r.Ok? ==> entries == SetMetadata(old(entries), snapshot.id, Parsed(snapshot))
    {
      // The file can only be created inside an existing snapshot directory.
      var k := FindEntry(entries, snapshot.id);
      if k.None? || !createOk {
        return Err(MetadataCreateFailed(snapshot.id));
      }
      // Creating the file empties it: until encoding finishes it holds no snapshot.
      SetMetadataFrame(entries, snapshot.id, Malformed);
      var truncated := SetMetadata(entries, snapshot.id, Malformed);
      if !encodeOk {
        entries := truncated;
        return Err(MetadataWriteFailed(snapshot.id));
      }
      SetMetadataFrame(entries, snapshot.id, Parsed(snapshot));
      entries := SetMetadata(entries, snapshot.id, Parsed(snapshot));
      return Ok(());
    }
  }

  /** Clients of the manager: what the contracts above let a caller conclude
      about short runs of operations. */
  method CreateThenFind(now: Timestamp)
  {
    var m := new Manager(Absent, []);
    var created := m.Create("nightly", Some("0b6f"), now, FilesWritten, Removed);
    var nightly := Snapshot(now, "nightly", "0b6f");
    assert created == Ok(nightly);
    assert m.entries == [Entry("0b6f", Parsed(nightly))];
    assert ListEntries(m.entries[1..]) == Ok([]) by { assert m.entries[1..] == []; }
    assert [nightly] + [] == [nightly];
    assert Listing(m.status, m.entries) == Ok([nightly]);
    var id := m.GetSnapshotId("nightly");
    assert [nightly][0].name == "nightly";
    var i: nat :| IsFirstNamed([nightly], "nightly", i) && [nightly][i].id == id.value;
    assert id == Ok("0b6f");
  }

  method CreateRefusals(now: Timestamp)
  {
    var nightly := Snapshot(now, "nightly", "0b6f");
    var m := new Manager(Present, [Entry("0b6f", Parsed(nightly))]);
    assert ListEntries(m.entries[1..]) == Ok([]) by { assert m.entries[1..] == []; }
    assert [nightly] + [] == [nightly];
    assert Listing(m.status, m.entries) == Ok([nightly]);
    assert NameTaken([nightly], "nightly") by { assert [nightly][0].name == "nightly"; }
    var again := m.Create("nightly", Some("77c2"), now, FilesWritten, Removed);
    assert again == Err(NameExists("nightly"));
    assert !ValidName("night ly") by { assert !IsNameChar("night ly"[5]); }
    var bad := m.Create("night ly", Some("77c2"), now, FilesWritten, Removed);
    assert bad == Err(InvalidName("night ly"));
    var failed := m.Create("weekly", Some("77c2"), now, FilesFailed(DirWithoutMetadata), Removed);
    assert failed == Err(CreateFilesFailed) && m.entries == [Entry("0b6f", Parsed(nightly))];
  }

  method DeleteTwice(now: Timestamp)
  {
    var m := new Manager(Present, [Entry("0b6f", Parsed(Snapshot(now, "nightly", "0b6f")))]);
    assert HasEntry(m.entries, "0b6f") by { assert m.entries[0].name == "0b6f"; }
    var deleted := m.Delete("0b6f", Removed);
    assert deleted.Ok?;
    assert m.entries == [] by { assert !HasEntry(m.entries, "0b6f"); }
    var listed := m.List();
    assert listed == Ok([]);
    var missing := m.Delete("0b6f", Removed);
    assert missing == Err(SnapshotNotFound("0b6f"));
  }
}
