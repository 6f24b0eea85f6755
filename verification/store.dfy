/** The database as the views see it: the `Component` table keyed by id, the
    `ComponentFile` table keyed by its auto-increment id, and the operations
    the views perform on them. */
module ComponentStore {
  import opened Models

  datatype Store = Store(
    components: map<Uuid, Component>,
    files: map<nat, ComponentFile>,
    nextFileId: nat)

  /** Every attachment is stored under its own id, below the next id the
      auto-increment counter hands out. */
  ghost predicate FileIdsIssued(st: Store)
  {
    forall n :: n in st.files ==> n < st.nextFileId && st.files[n].id == n
  }

  /** The database's integrity: every component is stored under its own id,
      attachment ids were issued by the counter, and every attachment
      belongs to a stored component (the foreign key). */
  ghost predicate Valid(st: Store)
  {
    (forall k :: k in st.components ==> st.components[k].id == k)
    && FileIdsIssued(st)
    && (forall n :: n in st.files ==> st.files[n].component in st.components)
  }

  // ---------------------------------------------------------------------------
  // attachments of one component

  /** The attachments of `owner` with ids below `hi`, in id order. */
  function FilesIn(files: map<nat, ComponentFile>, owner: Uuid, hi: nat): (r: seq<ComponentFile>)
    ensures forall i :: 0 <= i < |r| ==> r[i].id < hi && r[i].id in files && files[r[i].id] == r[i]
    ensures forall i :: 0 <= i < |r| ==> r[i].component == owner
    ensures forall n :: 0 <= n < hi && n in files && files[n].component == owner && files[n].id == n ==> files[n] in r
    ensures forall i, j :: 0 <= i < j < |r| ==> r[i].id < r[j].id
  {
    if hi == 0 then []
    else
      var n := hi - 1;
      var below := FilesIn(files, owner, n);
      if n in files && files[n].component == owner && files[n].id == n then below + [files[n]]
      else below
  }

  /** `comp.files.all()`: the attachments of `owner`, in increasing id
      order. */
  function FilesOf(st: Store, owner: Uuid): (r: seq<ComponentFile>)
    ensures Valid(st) ==> forall n :: n in st.files && st.files[n].component == owner ==> st.files[n] in r
    ensures forall i :: 0 <= i < |r| ==> r[i] in st.files.Values && r[i].component == owner
    ensures forall i, j :: 0 <= i < j < |r| ==> r[i].id < r[j].id
  {
    FilesIn(st.files, owner, st.nextFileId)
  }

  /** `FilesIn` looks only at ids below `hi`. */
  lemma {:induction false} FilesInFrame(f: map<nat, ComponentFile>, g: map<nat, ComponentFile>, owner: Uuid, hi: nat)
    requires forall n :: 0 <= n < hi ==> (n in f <==> n in g)
    requires forall n :: 0 <= n < hi && n in f ==> f[n] == g[n]
    ensures FilesIn(f, owner, hi) == FilesIn(g, owner, hi)
    decreases hi
  {
    if hi > 0 {
      FilesInFrame(f, g, owner, hi - 1);
    }
  }

  /** `FilesIn` on the attachments that survive a filter that keeps every
      file of `owner`. */
  lemma {:induction false} FilesInKept(f: map<nat, ComponentFile>, g: map<nat, ComponentFile>, owner: Uuid, hi: nat)
    requires forall n :: n in g ==> n in f && g[n] == f[n]
    requires forall n :: n in f && f[n].component == owner ==> n in g
    ensures FilesIn(g, owner, hi) == FilesIn(f, owner, hi)
    decreases hi
  {
    if hi > 0 {
      FilesInKept(f, g, owner, hi - 1);
    }
  }

  /** A component nobody has attached anything to has no attachments. */
  lemma {:induction false} FilesInNone(f: map<nat, ComponentFile>, owner: Uuid, hi: nat)
    requires forall n :: n in f ==> f[n].component != owner
    ensures FilesIn(f, owner, hi) == []
    decreases hi
  {
    if hi > 0 {
      FilesInNone(f, owner, hi - 1);
    }
  }

  /** In a valid store a component that is not stored owns no attachment. */
  lemma FilesOfAbsent(st: Store, owner: Uuid)
    requires Valid(st) && owner !in st.components
    ensures FilesOf(st, owner) == []
  {
    FilesInNone(st.files, owner, st.nextFileId);
  }

  // ---------------------------------------------------------------------------
  // component rows

  /** `Component.objects.create(...)` with a fresh id: the new row is added
      and nothing else changes. */
  function Insert(st: Store, c: Component): (r: Store)
    requires c.id !in st.components
    ensures r.components.Keys == st.components.Keys + {c.id}
    ensures r.components[c.id] == c
    ensures forall k :: k in st.components ==> r.components[k] == st.components[k]
    ensures r.files == st.files && r.nextFileId == st.nextFileId
    ensures Valid(st) ==> Valid(r)
  {
    st.(components := st.components[c.id := c])
  }

  /** `comp.save()` on the row stored under `id`: that row is replaced and
      nothing else changes. */
  function Save(st: Store, id: Uuid, c: Component): (r: Store)
    requires id in st.components
    ensures r.components.Keys == st.components.Keys
    ensures r.components[id] == c
    ensures forall k :: k in st.components && k != id ==> r.components[k] == st.components[k]
    ensures r.files == st.files && r.nextFileId == st.nextFileId
    ensures Valid(st) && c.id == id ==> Valid(r)
  {
    st.(components := st.components[id := c])
  }

  /** `comp.delete()`: the row goes, and with it, through the cascading
      foreign key, every attachment it owns and no other. */
  function DeleteCascade(st: Store, id: Uuid): (r: Store)
    ensures id !in r.components
    ensures r.components.Keys == st.components.Keys - {id}
    ensures forall k :: k in r.components ==> r.components[k] == st.components[k]
    ensures forall n :: n in r.files <==> n in st.files && st.files[n].component != id
    ensures forall n :: n in r.files ==> r.files[n] == st.files[n]
    ensures r.nextFileId == st.nextFileId
    ensures Valid(st) ==> Valid(r)
  {
    Store(st.components - {id},
          map n | n in st.files && st.files[n].component != id :: st.files[n],
          st.nextFileId)
  }

  /** Deleting a component leaves it no attachments and leaves every other
      component's attachments as they were. */
  lemma DeleteCascadeFiles(st: Store, id: Uuid, other: Uuid)
    ensures FilesOf(DeleteCascade(st, id), id) == []
    ensures other != id ==> FilesOf(DeleteCascade(st, id), other) == FilesOf(st, other)
  {
    var r := DeleteCascade(st, id);
    FilesInNone(r.files, id, r.nextFileId);
    if other != id {
      FilesInKept(st.files, r.files, other, st.nextFileId);
    }
  }

  // ---------------------------------------------------------------------------
  // uploads

  /** The store after attaching uploads, and the attachment rows created. */
  datatype Attached = Attached(store: Store, created: seq<ComponentFile>)

  /** `ComponentFile.objects.create(component=comp, file=f)` for each upload
      in turn: each gets the next id and is owned by `owner`. */
  function AddFiles(st: Store, owner: Uuid, uploads: seq<StoredFile>): (r: Attached)
    ensures |r.created| == |uploads|
    ensures forall i :: 0 <= i < |uploads| ==>
      r.created[i] == ComponentFile(st.nextFileId + i, owner, uploads[i])
    ensures r.store.components == st.components
    ensures r.store.nextFileId == st.nextFileId + |uploads|
    ensures FileIdsIssued(st) ==>
              FileIdsIssued(r.store)
              && (forall n :: n in st.files ==> n in r.store.files && r.store.files[n] == st.files[n])
    ensures Valid(st) && owner in st.components ==> Valid(r.store)
    decreases |uploads|
  {
    if |uploads| == 0 then Attached(st, [])
    else
      var st1 := AddFile(st, owner, uploads[0]);
      var rest := AddFiles(st1, owner, uploads[1..]);
      Attached(rest.store, [st1.files[st.nextFileId]] + rest.created)
  }

  /** One `ComponentFile.objects.create`: the row gets the counter's next id. */
  function AddFile(st: Store, owner: Uuid, upload: StoredFile): (r: Store)
    ensures r.files.Keys == st.files.Keys + {st.nextFileId}
    ensures r.files[st.nextFileId] == ComponentFile(st.nextFileId, owner, upload)
    ensures r.components == st.components && r.nextFileId == st.nextFileId + 1
    ensures FileIdsIssued(st) ==>
              FileIdsIssued(r) && (forall n :: n in st.files ==> r.files[n] == st.files[n])
    ensures Valid(st) && owner in st.components ==> Valid(r)
  {
    var f := ComponentFile(st.nextFileId, owner, upload);
    Store(st.components, st.files[st.nextFileId := f], st.nextFileId + 1)
  }

  /** One upload is appended to its owner's attachments and to no one
      else's. */
  lemma AddFileAppends(st: Store, owner: Uuid, upload: StoredFile, other: Uuid)
    ensures FilesOf(AddFile(st, owner, upload), owner) == FilesOf(st, owner) + [AddFile(st, owner, upload).files[st.nextFileId]]
    ensures other != owner ==> FilesOf(AddFile(st, owner, upload), other) == FilesOf(st, other)
  {
    var st1 := AddFile(st, owner, upload);
    FilesInFrame(st.files, st1.files, owner, st.nextFileId);
    FilesInFrame(st.files, st1.files, other, st.nextFileId);
  }

  /** Uploaded files are appended to the owner's attachments, in upload
      order, and every other component's attachments stay as they were. */
  lemma {:induction false} AddFilesAppends(st: Store, owner: Uuid, uploads: seq<StoredFile>, other: Uuid)
    ensures FilesOf(AddFiles(st, owner, uploads).store, owner) == FilesOf(st, owner) + AddFiles(st, owner, uploads).created
    ensures other != owner ==> FilesOf(AddFiles(st, owner, uploads).store, other) == FilesOf(st, other)
    decreases |uploads|
  {
    if |uploads| > 0 {
      var st1 := AddFile(st, owner, uploads[0]);
      var f := st1.files[st.nextFileId];
      AddFileAppends(st, owner, uploads[0], other);
      AddFilesAppends(st1, owner, uploads[1..], other);
      var rest := AddFiles(st1, owner, uploads[1..]);
      assert AddFiles(st, owner, uploads) == Attached(rest.store, [f] + rest.created);
      assert FilesOf(st, owner) + [f] + rest.created == FilesOf(st, owner) + ([f] + rest.created);
    }
  }

  /** Attaching uploads adds exactly the ids the counter hands out to the
      attachment table. `files` and `first` name the table and the counter
      before the uploads. */
  lemma {:induction false} AddFilesKeys(st: Store, owner: Uuid, uploads: seq<StoredFile>,
                                        files: map<nat, ComponentFile>, first: nat)
    requires st.files == files && st.nextFileId == first
    ensures forall n :: n in AddFiles(st, owner, uploads).store.files <==>
              n in files || first <= n < first + |uploads|
    decreases |uploads|
  {
    if |uploads| > 0 {
      var st1 := AddFile(st, owner, uploads[0]);
      AddFilesKeys(st1, owner, uploads[1..], st1.files, first + 1);
      assert AddFiles(st, owner, uploads).store == AddFiles(st1, owner, uploads[1..]).store;
    }
  }

  /** Attaching uploads leaves every row below the counter as it was. */
  lemma {:induction false} AddFilesKeepsBelow(st: Store, owner: Uuid, uploads: seq<StoredFile>,
                                              files: map<nat, ComponentFile>, first: nat)
    requires st.files == files && st.nextFileId == first
    ensures forall n :: n in files && n < first ==>
              n in AddFiles(st, owner, uploads).store.files && AddFiles(st, owner, uploads).store.files[n] == files[n]
    decreases |uploads|
  {
    if |uploads| > 0 {
      var st1 := AddFile(st, owner, uploads[0]);
      AddFilesKeepsBelow(st1, owner, uploads[1..], st1.files, first + 1);
      assert AddFiles(st, owner, uploads).store == AddFiles(st1, owner, uploads[1..]).store;
    }
  }

  /** Creating a component with attachments in a valid store: the new
      component owns exactly the rows created, in order, and no other
      component's attachments change. */
  lemma InsertWithFiles(st: Store, c: Component, uploads: seq<StoredFile>, other: Uuid)
    requires c.id !in st.components
    ensures Valid(st) ==>
              FilesOf(AddFiles(Insert(st, c), c.id, uploads).store, c.id) == AddFiles(Insert(st, c), c.id, uploads).created
    ensures Valid(st) && other != c.id ==>
              FilesOf(AddFiles(Insert(st, c), c.id, uploads).store, other) == FilesOf(st, other)
  {
    if Valid(st) {
      var st1 := Insert(st, c);
      FilesOfAbsent(st, c.id);
      assert FilesOf(st1, c.id) == [] && FilesOf(st1, other) == FilesOf(st, other);
      AddFilesAppends(st1, c.id, uploads, other);
    }
  }

  /** A new component and its uploads, created together. The row is the
      only component added. The attachment table gains exactly the ids the
      counter hands out, one per upload, and keeps every row below the
      counter; the rows created are the uploads in order, owned by the new
      component, and in a valid store they are all it owns. */
  function InsertWithUploads(st: Store, c: Component, uploads: seq<StoredFile>): (r: Attached)
    requires c.id !in st.components
    ensures r.store.components == st.components[c.id := c]
    ensures r.store.nextFileId == st.nextFileId + |uploads|
    ensures forall n :: n in r.store.files <==> n in st.files || st.nextFileId <= n < r.store.nextFileId
    ensures forall n :: n in st.files && n < st.nextFileId ==> r.store.files[n] == st.files[n]
    ensures |r.created| == |uploads|
    ensures forall i :: 0 <= i < |uploads| ==>
              r.created[i] == ComponentFile(st.nextFileId + i, c.id, uploads[i])
    ensures Valid(st) ==> FilesOf(r.store, c.id) == r.created
    ensures uploads == [] ==> r.store.files == st.files
    ensures Valid(st) ==> Valid(r.store)
  {
    var st1 := Insert(st, c);
    AddFilesKeys(st1, c.id, uploads, st.files, st.nextFileId);
    AddFilesKeepsBelow(st1, c.id, uploads, st.files, st.nextFileId);
    InsertWithFiles(st, c, uploads, c.id);
    AddFiles(st1, c.id, uploads)
  }

  // ---------------------------------------------------------------------------
  // listing

  /** `Component.objects.all()`: every stored component exactly once, in
      listing order. */
  method List(st: Store) returns (r: seq<Component>)
    ensures InListOrder(r)
    ensures |r| == |st.components|
    ensures forall x :: x in r ==> x in st.components.Values
    ensures forall k :: k in st.components ==> st.components[k] in r
  {
    var keys := st.components.Keys;
    r := [];
    while keys != {}
      invariant keys <= st.components.Keys
      invariant InListOrder(r)
      invariant |r| + |keys| == |st.components|
      invariant forall x :: x in r ==> x in st.components.Values
      invariant forall k :: k in st.components && k !in keys ==> st.components[k] in r
      decreases keys
    {
      var k :| k in keys;
      var c := st.components[k];
      InsertSortedMembers(c, r);
      r := InsertSorted(c, r);
      keys := keys - {k};
    }
    assert st.components.Keys == st.components.Keys - keys;
  }
}
