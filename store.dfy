/** The snapshots directory as the manager sees it, the values read from it,
    and the facts about them that the manager's operations rely on. */
module SnapshotStore {
  import opened SnapshotNames

  datatype Option<T> = None | Some(value: T)

  /** A Go `(value, error)` pair: either a value or the error the call returns. */
  datatype Result<T> = Ok(value: T) | Err(error: ManagerError)

  /** The instant a snapshot was taken; only ever copied, never inspected. */
  type Timestamp = int

  /** The contents of a snapshot's metadata.json. */
  datatype Snapshot = Snapshot(created: Timestamp, name: string, id: string)

  /** What reading `<snapshots>/<entry>/metadata.json` gives: no readable file
      (also the case when the entry is a plain file), a file whose contents do
      not decode, or a decoded snapshot. */
  datatype Metadata = Missing | Malformed | Parsed(snapshot: Snapshot)

  /** One entry of the snapshots directory, named by the snapshot's ID. */
  datatype Entry = Entry(name: string, metadata: Metadata)

  /** The snapshots directory itself: it does not exist, it exists but cannot
      be read, or its entries can be read. */
  datatype DirStatus = Absent | Unreadable | Present

  /** The errors the manager returns, one constructor per distinct error. */
  datatype ManagerError =
    | SnapshotsDirUnreadable
    | MetadataUnreadable(dir: string)
    | MetadataMalformed(dir: string)
    | ListFailed(cause: ManagerError)
    | NameNotFound(name: string)
    | NameExists(name: string)
    | InvalidName(name: string)
    | IdGenerationFailed
    | CreateFilesFailed
    | RollbackFailed
    | SnapshotNotFound(id: string)
    | DirRemovalFailed(id: string)
    | MetadataCreateFailed(id: string)
    | MetadataWriteFailed(id: string)
    | RestoreFilesFailed

  predicate HasEntry(es: seq<Entry>, name: string) {
    exists k :: 0 <= k < |es| && es[k].name == name
  }

  /** Entries in the order the directory reports them: strictly increasing
      names, so no name occurs twice. */
  predicate Sorted(es: seq<Entry>) {
    forall i, j :: 0 <= i < j < |es| ==> Before(es[i].name, es[j].name)
  }

  lemma SortedNamesDistinct(es: seq<Entry>, i: nat, j: nat)
    requires Sorted(es) && i < |es| && j < |es| && i != j
    ensures es[i].name != es[j].name
  {
    if i < j { BeforeIrreflexive(es[i].name); } else { BeforeIrreflexive(es[j].name); }
  }

  /** No two readable snapshots carry the same name. */
  predicate NamesUnique(es: seq<Entry>) {
    forall i, j :: 0 <= i < j < |es| && es[i].metadata.Parsed? && es[j].metadata.Parsed? ==>
      es[i].metadata.snapshot.name != es[j].metadata.snapshot.name
  }

  predicate AllParsed(es: seq<Entry>) {
    forall k :: 0 <= k < |es| ==> es[k].metadata.Parsed?
  }

  // ---------------------------------------------------------------------------
  // Listing the directory

  /** Reading and decoding one entry's metadata file. */
  function ReadEntry(e: Entry): Result<Snapshot> {
    match e.metadata
    case Missing => Err(MetadataUnreadable(e.name))
    case Malformed => Err(MetadataMalformed(e.name))
    case Parsed(s) => Ok(s)
  }

  function Prepend(prefix: seq<Snapshot>, r: Result<seq<Snapshot>>): Result<seq<Snapshot>> {
    match r
    case Ok(rest) => Ok(prefix + rest)
    case Err(e) => Err(e)
  }

  /** The snapshots of a sequence of entries, read front to back; the first
      entry that cannot be read makes the whole result that entry's error. */
  function ListEntries(es: seq<Entry>): Result<seq<Snapshot>>
    decreases |es|
  {
    if es == [] then Ok([])
    else match ReadEntry(es[0])
      case Err(e) => Err(e)
      case Ok(s) => Prepend([s], ListEntries(es[1..]))
  }

  /** What listing the snapshots directory returns. A directory that does not
      exist holds no snapshots; one that cannot be read is an error. */
  function Listing(status: DirStatus, es: seq<Entry>): Result<seq<Snapshot>> {
    match status
    case Absent => Ok([])
    case Unreadable => Err(SnapshotsDirUnreadable)
    case Present => ListEntries(es)
  }

  /** A listing succeeds exactly when every entry's metadata decodes, and then
      holds one snapshot per entry, in entry order. */
  lemma {:induction false} ListEntriesOk(es: seq<Entry>)
    ensures ListEntries(es).Ok? <==> AllParsed(es)
    ensures ListEntries(es).Ok? ==>
      |ListEntries(es).value| == |es| &&
      forall k :: 0 <= k < |es| ==> ListEntries(es).value[k] == es[k].metadata.snapshot
    decreases |es|
  {
    if es != [] {
      ListEntriesOk(es[1..]);
      if AllParsed(es[1..]) && es[0].metadata.Parsed? {
        forall k | 0 <= k < |es| ensures es[k].metadata.Parsed? {
          if k > 0 { assert es[k] == es[1..][k - 1]; }
        }
      }
      if AllParsed(es) {
        forall k | 0 <= k < |es[1..]| ensures es[1..][k].metadata.Parsed? {
          assert es[1..][k] == es[k + 1];
        }
        var rest := ListEntries(es[1..]).value;
        assert ListEntries(es).value == [es[0].metadata.snapshot] + rest;
        forall k | 0 <= k < |es| ensures ListEntries(es).value[k] == es[k].metadata.snapshot {
          if k > 0 { assert es[k] == es[1..][k - 1]; }
        }
      } else if es[0].metadata.Parsed? {
        var k :| 0 <= k < |es| && !es[k].metadata.Parsed?;
        assert !es[1..][k - 1].metadata.Parsed?;
      }
    }
  }

  /** A failed listing reports the first entry whose metadata does not decode. */
  lemma {:induction false} ListEntriesFirstFailure(es: seq<Entry>, k: nat)
    requires k < |es| && !es[k].metadata.Parsed?
    requires forall j :: 0 <= j < k ==> es[j].metadata.Parsed?
    ensures ListEntries(es) == Err(ReadEntry(es[k]).error)
    decreases k
  {
    if k > 0 {
      forall j | 0 <= j < k - 1 ensures es[1..][j].metadata.Parsed? {
        assert es[1..][j] == es[j + 1];
      }
      ListEntriesFirstFailure(es[1..], k - 1);
      assert es[1..][k - 1] == es[k];
    }
  }

  // ---------------------------------------------------------------------------
  // Searching

  predicate IsFirstNamed(snaps: seq<Snapshot>, name: string, i: nat) {
    i < |snaps| && snaps[i].name == name && forall j :: 0 <= j < i ==> snaps[j].name != name
  }

  /** The position of the first snapshot, in list order, with the given name. */
  function FirstWithName(snaps: seq<Snapshot>, name: string): (r: Option<nat>)
    ensures r.Some? ==> IsFirstNamed(snaps, name, r.value)
    ensures r.None? ==> forall j :: 0 <= j < |snaps| ==> snaps[j].name != name
    decreases |snaps|
  {
    if snaps == [] then None
    else if snaps[0].name == name then Some(0)
    else match FirstWithName(snaps[1..], name)
      case None => None
      case Some(i) => Some(i + 1)
  }

  /** The first-named position is unique. */
  lemma FirstNamedUnique(snaps: seq<Snapshot>, name: string, i: nat, j: nat)
    requires IsFirstNamed(snaps, name, i) && IsFirstNamed(snaps, name, j)
    ensures i == j
  {
  }

  /** The position of the entry with the given name. */
  function FindEntry(es: seq<Entry>, name: string): (r: Option<nat>)
    ensures r.Some? ==> r.value < |es| && es[r.value].name == name
    ensures r.None? <==> !HasEntry(es, name)
    decreases |es|
  {
    if es == [] then None
    else if es[0].name == name then Some(0)
    else match FindEntry(es[1..], name)
      case None => None
      case Some(i) => Some(i + 1)
  }

  // ---------------------------------------------------------------------------
  // Adding, changing and removing one entry

  /** Where an entry with the given name goes among sorted entries: after every
      name that precedes it, before the first name that follows it. */
  function InsertionPoint(es: seq<Entry>, name: string): (k: nat)
    ensures k <= |es|
    ensures forall i :: 0 <= i < k ==> !Before(name, es[i].name)
    ensures k < |es| ==> Before(name, es[k].name)
    decreases |es|
  {
    if es == [] || Before(name, es[0].name) then 0
    else 1 + InsertionPoint(es[1..], name)
  }

  /** The entries after a new directory has appeared among them. */
  function Insert(es: seq<Entry>, e: Entry): seq<Entry> {
    var k := InsertionPoint(es, e.name);
    es[..k] + [e] + es[k..]
  }

  /** A new name keeps the entries sorted. */
  lemma InsertSorted(es: seq<Entry>, e: Entry)
    requires Sorted(es) && !HasEntry(es, e.name)
    ensures Sorted(Insert(es, e))
  {
    var k := InsertionPoint(es, e.name);
    var r := Insert(es, e);
    assert forall i :: 0 <= i < |r| ==> r[i] == if i < k then es[i] else if i == k then e else es[i - 1];
    forall i | 0 <= i < k ensures Before(es[i].name, e.name) {
      BeforeTotal(es[i].name, e.name);
    }
    forall j | k <= j < |es| ensures Before(e.name, es[j].name) {
      if j > k { BeforeTransitive(e.name, es[k].name, es[j].name); }
    }
    forall i, j | 0 <= i < j < |r| ensures Before(r[i].name, r[j].name) {
      if i < k && j > k { BeforeTransitive(es[i].name, e.name, es[j - 1].name); }
    }
  }

  /** The entries after the directory with the given name has gone. */
  function RemoveEntry(es: seq<Entry>, name: string): seq<Entry>
    decreases |es|
  {
    if es == [] then []
    else (if es[0].name == name then [] else [es[0]]) + RemoveEntry(es[1..], name)
  }

  /** Removal takes out exactly the entries with that name. */
  lemma {:induction false} RemoveEntryContents(es: seq<Entry>, name: string, x: Entry)
    ensures x in RemoveEntry(es, name) <==> x in es && x.name != name
    decreases |es|
  {
    if es != [] {
      RemoveEntryContents(es[1..], name, x);
      assert es == [es[0]] + es[1..];
    }
  }

  /** After removal no entry has that name. */
  lemma RemoveEntryRemoves(es: seq<Entry>, name: string)
    ensures !HasEntry(RemoveEntry(es, name), name)
  {
    var r := RemoveEntry(es, name);
    forall k | 0 <= k < |r| ensures r[k].name != name {
      RemoveEntryContents(es, name, r[k]);
    }
  }


  lemma {:induction false} RemoveEntryAppend(a: seq<Entry>, b: seq<Entry>, name: string)
    ensures RemoveEntry(a + b, name) == RemoveEntry(a, name) + RemoveEntry(b, name)
    decreases |a|
  {
    if a != [] {
      assert (a + b)[1..] == a[1..] + b;
      RemoveEntryAppend(a[1..], b, name);
    } else {
      assert a + b == b;
    }
  }

  lemma {:induction false} RemoveEntryAbsent(es: seq<Entry>, name: string)
    requires !HasEntry(es, name)
    ensures RemoveEntry(es, name) == es
    decreases |es|
  {
    if es != [] {
      assert !HasEntry(es[1..], name) by {
        forall k | 0 <= k < |es[1..]| ensures es[1..][k].name != name {
          assert es[1..][k] == es[k + 1];
        }
      }
      RemoveEntryAbsent(es[1..], name);
      assert es[0].name != name;
      assert es == [es[0]] + es[1..];
    }
  }

  /** Removing an entry twice removes nothing more. */
  lemma RemoveEntryIdempotent(es: seq<Entry>, name: string)
    ensures RemoveEntry(RemoveEntry(es, name), name) == RemoveEntry(es, name)
  {
    RemoveEntryRemoves(es, name);
    RemoveEntryAbsent(RemoveEntry(es, name), name);
  }

  /** Removing a directory that was just added gives back the entries as they
      were before it appeared. */
  lemma RemoveInserted(es: seq<Entry>, e: Entry)
    requires !HasEntry(es, e.name)
    ensures RemoveEntry(Insert(es, e), e.name) == es
  {
    var n, k := e.name, InsertionPoint(es, e.name);
    var front, back := es[..k], es[k..];
    assert !HasEntry(front, n) by {
      forall j | 0 <= j < |front| ensures front[j].name != n { assert front[j] == es[j]; }
    }
    assert !HasEntry(back, n) by {
      forall j | 0 <= j < |back| ensures back[j].name != n { assert back[j] == es[k + j]; }
    }
    RemoveEntryAppend(front + [e], back, n);
    RemoveEntryAppend(front, [e], n);
    RemoveEntryAbsent(front, n);
    RemoveEntryAbsent(back, n);
    assert RemoveEntry([e], n) == [] by { assert [e][1..] == []; }
    calc {
      RemoveEntry(Insert(es, e), n);
      RemoveEntry(front + [e] + back, n);
      RemoveEntry(front + [e], n) + RemoveEntry(back, n);
      RemoveEntry(front, n) + RemoveEntry([e], n) + RemoveEntry(back, n);
      front + [] + back;
      es;
    }
  }

  /** Removing an entry keeps the rest in order. */
  lemma {:induction false} RemoveEntrySorted(es: seq<Entry>, name: string)
    requires Sorted(es)
    ensures Sorted(RemoveEntry(es, name))
    decreases |es|
  {
    if es != [] {
      assert Sorted(es[1..]) by {
        forall i, j | 0 <= i < j < |es[1..]| ensures Before(es[1..][i].name, es[1..][j].name) {
          assert es[1..][i] == es[i + 1] && es[1..][j] == es[j + 1];
        }
      }
      RemoveEntrySorted(es[1..], name);
      var rest := RemoveEntry(es[1..], name);
      if es[0].name != name {
        forall j | 0 <= j < |rest| ensures Before(es[0].name, rest[j].name) {
          RemoveEntryContents(es[1..], name, rest[j]);
          assert rest[j] in es[1..];
          var m :| 0 <= m < |es[1..]| && es[1..][m] == rest[j];
          assert es[1..][m] == es[m + 1];
        }
        var r := RemoveEntry(es, name);
        assert r == [es[0]] + rest;
        forall i, j | 0 <= i < j < |r| ensures Before(r[i].name, r[j].name) {
          if i > 0 { assert r[i] == rest[i - 1] && r[j] == rest[j - 1]; }
          else { assert r[j] == rest[j - 1]; }
        }
      } else {
        assert RemoveEntry(es, name) == rest;
      }
    }
  }

  /** The entries after the metadata file of the named directory has changed. */
  function SetMetadata(es: seq<Entry>, name: string, m: Metadata): (r: seq<Entry>)
    ensures |r| == |es|
    ensures forall i :: 0 <= i < |es| ==> r[i].name == es[i].name
    ensures forall i :: 0 <= i < |es| && es[i].name != name ==> r[i] == es[i]
    ensures forall i :: 0 <= i < |es| && es[i].name == name ==> r[i].metadata == m
    decreases |es|
  {
    if es == [] then []
    else [if es[0].name == name then Entry(name, m) else es[0]] + SetMetadata(es[1..], name, m)
  }

  /** Changing metadata keeps every name, so the order and the presence of
      each name stay as they were. */
  lemma SetMetadataNames(es: seq<Entry>, name: string, m: Metadata, other: string)
    ensures Sorted(es) ==> Sorted(SetMetadata(es, name, m))
    ensures HasEntry(SetMetadata(es, name, m), other) <==> HasEntry(es, other)
  {
    var r := SetMetadata(es, name, m);
    if HasEntry(es, other) {
      var k :| 0 <= k < |es| && es[k].name == other;
      assert r[k].name == other;
    }
    if HasEntry(r, other) {
      var k :| 0 <= k < |r| && r[k].name == other;
      assert es[k].name == other;
    }
  }

  /** Changing one directory's metadata leaves every other entry as it was. */
  lemma {:induction false} SetMetadataFrame(es: seq<Entry>, name: string, m: Metadata)
    ensures RemoveEntry(SetMetadata(es, name, m), name) == RemoveEntry(es, name)
    decreases |es|
  {
    if es != [] {
      var r := SetMetadata(es, name, m);
      assert r[1..] == SetMetadata(es[1..], name, m);
      SetMetadataFrame(es[1..], name, m);
    }
  }

  // ---------------------------------------------------------------------------
  // Name uniqueness

  /** Adding an entry keeps names unique when it holds no readable snapshot, or
      one whose name no readable snapshot already has. */
  lemma InsertNamesUnique(es: seq<Entry>, e: Entry)
    requires NamesUnique(es)
    requires e.metadata.Parsed? ==>
      forall k :: 0 <= k < |es| && es[k].metadata.Parsed? ==>
        es[k].metadata.snapshot.name != e.metadata.snapshot.name
    ensures NamesUnique(Insert(es, e))
  {
    var k := InsertionPoint(es, e.name);
    var r := Insert(es, e);
    assert forall i :: 0 <= i < |r| ==> r[i] == if i < k then es[i] else if i == k then e else es[i - 1];
  }

  lemma {:induction false} RemoveEntryNamesUnique(es: seq<Entry>, name: string)
    requires NamesUnique(es)
    ensures NamesUnique(RemoveEntry(es, name))
    decreases |es|
  {
    if es != [] {
      assert NamesUnique(es[1..]) by {
        forall i, j | 0 <= i < j < |es[1..]| && es[1..][i].metadata.Parsed? && es[1..][j].metadata.Parsed?
          ensures es[1..][i].metadata.snapshot.name != es[1..][j].metadata.snapshot.name
        {
          assert es[1..][i] == es[i + 1] && es[1..][j] == es[j + 1];
        }
      }
      RemoveEntryNamesUnique(es[1..], name);
      var rest := RemoveEntry(es[1..], name);
      if es[0].name != name {
        var r := RemoveEntry(es, name);
        assert r == [es[0]] + rest;
        forall i, j | 0 <= i < j < |r| && r[i].metadata.Parsed? && r[j].metadata.Parsed?
          ensures r[i].metadata.snapshot.name != r[j].metadata.snapshot.name
        {
          if i == 0 {
            RemoveEntryContents(es[1..], name, rest[j - 1]);
            assert r[j] == rest[j - 1] && rest[j - 1] in es[1..];
            var m :| 0 <= m < |es[1..]| && es[1..][m] == r[j];
            assert es[1..][m] == es[m + 1];
          } else {
            assert r[i] == rest[i - 1] && r[j] == rest[j - 1];
          }
        }
      } else {
        assert RemoveEntry(es, name) == rest;
      }
    }
  }

  /** Metadata that holds no snapshot cannot make two names collide. */
  lemma SetMetadataNamesUnique(es: seq<Entry>, name: string, m: Metadata)
    requires NamesUnique(es) && !m.Parsed?
    ensures NamesUnique(SetMetadata(es, name, m))
  {
  }

  // ---------------------------------------------------------------------------
  // Finding a snapshot that has just been added

  /** Once a snapshot whose name no listed snapshot has is added under a new
      directory, listing succeeds and the first snapshot with that name is the
      new one: looking its name up gives its ID. */
  lemma LookupAfterInsert(es: seq<Entry>, s: Snapshot)
    requires ListEntries(es).Ok?
    requires FirstWithName(ListEntries(es).value, s.name).None?
    requires !HasEntry(es, s.id)
    ensures ListEntries(Insert(es, Entry(s.id, Parsed(s)))).Ok?
    ensures var snaps := ListEntries(Insert(es, Entry(s.id, Parsed(s)))).value;
            FirstWithName(snaps, s.name).Some? &&
            snaps[FirstWithName(snaps, s.name).value] == s
  {
    var e := Entry(s.id, Parsed(s));
    var k := InsertionPoint(es, e.name);
    var r := Insert(es, e);
    assert forall i :: 0 <= i < |r| ==> r[i] == if i < k then es[i] else if i == k then e else es[i - 1];
    ListEntriesOk(es);
    ListEntriesOk(r);
    var snaps := ListEntries(r).value;
    var old_snaps := ListEntries(es).value;
    assert IsFirstNamed(snaps, s.name, k) by {
      forall j | 0 <= j < k ensures snaps[j].name != s.name {
        assert snaps[j] == es[j].metadata.snapshot == old_snaps[j];
      }
    }
    var found := FirstWithName(snaps, s.name);
    assert found.Some?;
    FirstNamedUnique(snaps, s.name, found.value, k);
  }
}
