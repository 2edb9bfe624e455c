/**
 * The workspace meta map of a doc collection (`DocCollectionMeta`): the list of doc metas under
 * `pages`, the three version fields, and the snapshot of doc ids the meta-change handler diffs
 * against. The Yjs map and its proxy are modelled as plain optional fields ("unset" is `None`);
 * the doc metas carry their id and an open-ended property map.
 */
module CollectionMeta {
  import opened Wrappers
  import opened JsArrays

  /** A doc meta: its `id` and its other properties (title, dates, tags, ...) by key. */
  datatype DocMeta<V> = DocMeta(id: string, props: map<string, V>)

  /** A `Partial<DocMeta>`: the keys it gives, possibly including `id`. */
  datatype MetaPatch<V> = MetaPatch(id: Option<string>, props: map<string, V>)

  datatype MetaState<V> = MetaState(
    pages: Option<seq<DocMeta<V>>>,
    workspaceVersion: Option<int>,
    pageVersion: Option<int>,
    blockVersions: Option<map<string, int>>,
    prevDocs: seq<string>)

  /** JavaScript truthiness of an optional number: unset and `0` are both falsy. */
  predicate Truthy(v: Option<int>) {
    v.Some? && v.value != 0
  }

  /** The `docMetas` getter: the list under `pages`, or `[]` when it is unset. */
  function DocMetas<V>(pages: Option<seq<DocMeta<V>>>): seq<DocMeta<V>> {
    if pages.Some? then pages.value else []
  }

  /** The ids of `docs`, in list order. */
  function Ids<V>(docs: seq<DocMeta<V>>): seq<string> {
    seq(|docs|, i requires 0 <= i < |docs| => docs[i].id)
  }

  /** `docs.findIndex(doc => id === doc.id)`: the first position holding `id`, or -1. */
  function FindIndex<V>(docs: seq<DocMeta<V>>, id: string): (r: int)
    ensures -1 <= r < |docs|
    ensures r >= 0 ==> docs[r].id == id && forall j :: 0 <= j < r ==> docs[j].id != id
    ensures r == -1 <==> forall j :: 0 <= j < |docs| ==> docs[j].id != id
    decreases |docs|
  {
    if docs == [] then -1
    else if docs[0].id == id then 0
    else
      var k := FindIndex(docs[1..], id);
      if k == -1 then -1 else k + 1
  }

  /** `getDocMeta(id)`: the first doc meta with that id, if any. */
  function GetDocMeta<V>(pages: Option<seq<DocMeta<V>>>, id: string): (r: Option<DocMeta<V>>)
    ensures r.Some? <==> id in Ids(DocMetas(pages))
    ensures r.Some? ==> r.value.id == id && r.value == DocMetas(pages)[FindIndex(DocMetas(pages), id)]
  {
    var docs := DocMetas(pages);
    var k := FindIndex(docs, id);
    if k == -1 then
      assert forall j :: 0 <= j < |docs| ==> Ids(docs)[j] != id;
      None
    else
      assert Ids(docs)[k] == id;
      Some(docs[k])
  }

  // ---------------------------------------------------------------------------------------------
  // The operations on the state, as functions

  /** `initialize()`: `pages` becomes `[]` if it was unset. */
  function Initialized<V>(s: MetaState<V>): MetaState<V> {
    if s.pages.None? then s.(pages := Some([])) else s
  }

  /** `addDocMeta(doc, index)`: append, or `splice(index, 0, doc)`; nothing when `pages` is unset. */
  function WithDoc<V>(s: MetaState<V>, doc: DocMeta<V>, index: Option<int>): MetaState<V> {
    if s.pages.None? then s
    else if index.None? then s.(pages := Some(s.pages.value + [doc]))
    else s.(pages := Some(SpliceInsert(s.pages.value, index.value, doc)))
  }

  /** `removeDocMeta(id)`: `splice(findIndex, 1)`; nothing when `pages` is unset or the id absent. */
  function WithoutDoc<V>(s: MetaState<V>, id: string): MetaState<V> {
    if s.pages.None? then s
    else
      var k := FindIndex(s.pages.value, id);
      if k == -1 then s else s.(pages := Some(RemoveAt(s.pages.value, k)))
  }

  /** Assigning every entry of a patch onto a doc meta. */
  function Patch<V>(doc: DocMeta<V>, patch: MetaPatch<V>): DocMeta<V> {
    DocMeta(if patch.id.Some? then patch.id.value else doc.id, doc.props + patch.props)
  }

  /** `setDocMeta(id, props)`: patch the first doc meta with that id; nothing otherwise. */
  function WithPatch<V>(s: MetaState<V>, id: string, patch: MetaPatch<V>): MetaState<V> {
    if s.pages.None? then s
    else
      var k := FindIndex(s.pages.value, id);
      if k == -1 then s else s.(pages := Some(s.pages.value[k := Patch(s.pages.value[k], patch)]))
  }

  /**
   * `writeVersion(collection)`: each version field is written only when it is falsy (for the
   * block versions: unset), with the collection version, the page version and the flavour
   * versions of the schema.
   */
  function Versioned<V>(s: MetaState<V>, collectionVersion: int, pageVersion: int, flavours: map<string, int>): MetaState<V> {
    s.(workspaceVersion := if Truthy(s.workspaceVersion) then s.workspaceVersion else Some(collectionVersion),
       pageVersion := if Truthy(s.pageVersion) then s.pageVersion else Some(pageVersion),
       blockVersions := if s.blockVersions.Some? then s.blockVersions else Some(flavours))
  }

  /** The `hasVersion` getter. */
  predicate HasVersion<V>(s: MetaState<V>) {
    s.blockVersions.Some? && Truthy(s.pageVersion) && Truthy(s.workspaceVersion)
    && |s.blockVersions.value.Keys| > 0
  }

  // ---------------------------------------------------------------------------------------------
  // The doc-meta change handler

  /** Adding `x` to a JavaScript `Set`, kept as its insertion order. */
  function SetAdd(s: seq<string>, x: string): seq<string> {
    if x in s then s else s + [x]
  }

  /** The `newDocs` set the handler builds: the distinct ids of `docs` in first-occurrence order. */
  function IdSet<V>(docs: seq<DocMeta<V>>): seq<string>
    decreases |docs|
  {
    if docs == [] then [] else SetAdd(IdSet(docs[..|docs| - 1]), docs[|docs| - 1].id)
  }

  /** The "added" events: the id of each doc meta, in list order, that the snapshot lacks. */
  function AddedEvents<V>(prev: seq<string>, docs: seq<DocMeta<V>>): seq<string>
    decreases |docs|
  {
    if docs == [] then []
    else
      var before := AddedEvents(prev, docs[..|docs| - 1]);
      var id := docs[|docs| - 1].id;
      if id in prev then before else before + [id]
  }

  /** The "removed" events: each snapshot id, in snapshot order, that is no longer present. */
  function RemovedEvents(prev: seq<string>, current: seq<string>): seq<string>
    decreases |prev|
  {
    if prev == [] then []
    else
      var before := RemovedEvents(prev[..|prev| - 1], current);
      var id := prev[|prev| - 1];
      if id in current then before else before + [id]
  }

  /** The new snapshot holds each id of `docs` once, and nothing else. */
  lemma {:induction false} IdSetMembers<V>(docs: seq<DocMeta<V>>)
    ensures forall x :: x in IdSet(docs) <==> x in Ids(docs)
    ensures forall i, j :: 0 <= i < j < |IdSet(docs)| ==> IdSet(docs)[i] != IdSet(docs)[j]
    decreases |docs|
  {
    if docs != [] {
      var init := docs[..|docs| - 1];
      IdSetMembers(init);
      assert Ids(docs) == Ids(init) + [docs[|docs| - 1].id];
    }
  }

  lemma {:induction false} AddedMembers<V>(prev: seq<string>, docs: seq<DocMeta<V>>)
    ensures forall x :: x in AddedEvents(prev, docs) <==> x in Ids(docs) && x !in prev
    decreases |docs|
  {
    if docs != [] {
      var init := docs[..|docs| - 1];
      AddedMembers(prev, init);
      assert Ids(docs) == Ids(init) + [docs[|docs| - 1].id];
    }
  }

  lemma {:induction false} RemovedMembers(prev: seq<string>, current: seq<string>)
    ensures forall x :: x in RemovedEvents(prev, current) <==> x in prev && x !in current
    decreases |prev|
  {
    if prev != [] {
      var init := prev[..|prev| - 1];
      RemovedMembers(init, current);
      assert prev == init + [prev[|prev| - 1]];
    }
  }

  /**
   * The handler announces as added exactly the ids present now and absent from the snapshot, as
   * removed exactly the snapshot ids no longer present, and the new snapshot is the set of
   * present ids.
   */
  lemma DiffLaws<V>(prev: seq<string>, docs: seq<DocMeta<V>>)
    ensures forall x :: x in AddedEvents(prev, docs) <==> x in Ids(docs) && x !in prev
    ensures forall x :: x in RemovedEvents(prev, IdSet(docs)) <==> x in prev && x !in Ids(docs)
    ensures forall x :: x in IdSet(docs) <==> x in Ids(docs)
  {
    AddedMembers(prev, docs);
    RemovedMembers(prev, IdSet(docs));
    IdSetMembers(docs);
  }

  /** A second event with no change in between announces nothing. */
  lemma DiffQuiet<V>(docs: seq<DocMeta<V>>)
    ensures AddedEvents(IdSet(docs), docs) == []
    ensures RemovedEvents(IdSet(docs), IdSet(docs)) == []
  {
    DiffLaws(IdSet(docs), docs);
    if AddedEvents(IdSet(docs), docs) != [] {
      assert AddedEvents(IdSet(docs), docs)[0] in AddedEvents(IdSet(docs), docs);
    }
    if RemovedEvents(IdSet(docs), IdSet(docs)) != [] {
      assert RemovedEvents(IdSet(docs), IdSet(docs))[0] in RemovedEvents(IdSet(docs), IdSet(docs));
    }
  }

  // ---------------------------------------------------------------------------------------------
  // Laws of the list operations

  /** `initialize` is idempotent and never changes the doc metas read back. */
  lemma InitializeLaws<V>(s: MetaState<V>)
    ensures Initialized(Initialized(s)) == Initialized(s)
    ensures DocMetas(Initialized(s).pages) == DocMetas(s.pages)
    ensures Initialized(s).pages.Some?
  {
  }

  /**
   * `addDocMeta` adds exactly the one doc meta (when `pages` is set): at the end without an
   * index, at the index `splice` resolves otherwise, with the others in their order around it.
   */
  lemma AddDocMetaLaws<V>(s: MetaState<V>, doc: DocMeta<V>, index: Option<int>)
    ensures s.pages.None? ==> WithDoc(s, doc, index) == s
    ensures s.pages.Some? ==>
      var docs, r := s.pages.value, WithDoc(s, doc, index).pages.value;
      var k := if index.None? then |docs| else RelativeIndex(index.value, |docs|);
      && |r| == |docs| + 1
      && r[k] == doc
      && r[..k] + r[k + 1..] == docs
      && multiset(r) == multiset(docs) + multiset{doc}
  {
    if s.pages.Some? {
      var docs, r := s.pages.value, WithDoc(s, doc, index).pages.value;
      var k := if index.None? then |docs| else RelativeIndex(index.value, |docs|);
      assert r == docs[..k] + [doc] + docs[k..];
      assert r[..k] == docs[..k];
      assert r[k + 1..] == docs[k..];
      assert docs == docs[..k] + docs[k..];
    }
  }

  /** `findIndex` finds an id exactly when the list holds it. */
  lemma FindIndexFound<V>(docs: seq<DocMeta<V>>, id: string)
    ensures FindIndex(docs, id) >= 0 <==> id in Ids(docs)
  {
    if id in Ids(docs) {
      var i :| 0 <= i < |docs| && Ids(docs)[i] == id;
      assert docs[i].id == id;
    } else {
      forall j | 0 <= j < |docs|
        ensures docs[j].id != id
      {
        assert Ids(docs)[j] == docs[j].id;
      }
    }
  }

  /** `removeDocMeta` of an absent id, or with `pages` unset, changes nothing. */
  lemma RemoveAbsentDocMeta<V>(s: MetaState<V>, id: string)
    requires id !in Ids(DocMetas(s.pages))
    ensures WithoutDoc(s, id) == s
  {
    FindIndexFound(DocMetas(s.pages), id);
  }

  /**
   * `removeDocMeta` of a present id removes only the first doc meta with that id; the others
   * keep their order.
   */
  lemma RemoveDocMetaLaws<V>(s: MetaState<V>, id: string)
    requires s.pages.Some? && id in Ids(s.pages.value)
    ensures var docs, k := s.pages.value, FindIndex(s.pages.value, id);
      && 0 <= k && docs[k].id == id
      && (forall j :: 0 <= j < k ==> docs[j].id != id)
      && WithoutDoc(s, id).pages == Some(docs[..k] + docs[k + 1..])
      && multiset(WithoutDoc(s, id).pages.value) == multiset(docs) - multiset{docs[k]}
  {
    var docs := s.pages.value;
    FindIndexFound(docs, id);
    var k := FindIndex(docs, id);
    assert docs == docs[..k] + [docs[k]] + docs[k + 1..];
    assert RemoveAt(docs, k) == docs[..k] + docs[k + 1..];
  }

  /** Removing the id of a doc meta just added with a fresh id restores the list. */
  lemma AddThenRemove<V>(s: MetaState<V>, doc: DocMeta<V>, index: Option<int>)
    requires doc.id !in Ids(DocMetas(s.pages))
    ensures WithoutDoc(WithDoc(s, doc, index), doc.id) == s
  {
    if s.pages.Some? {
      var docs, r := s.pages.value, WithDoc(s, doc, index).pages.value;
      var k := if index.None? then |docs| else RelativeIndex(index.value, |docs|);
      AddDocMetaLaws(s, doc, index);
      assert r == docs[..k] + [doc] + docs[k..];
      forall j | 0 <= j < k
        ensures r[j].id != doc.id
      {
        assert r[j] == docs[j] && Ids(docs)[j] == docs[j].id;
      }
      assert FindIndex(r, doc.id) == k;
    }
  }

  /**
   * `setDocMeta` changes only the first doc meta with the id: the keys the patch gives take
   * its values, the other keys and every other entry stay, and nothing changes when the id is
   * absent.
   */
  lemma SetDocMetaLaws<V>(s: MetaState<V>, id: string, patch: MetaPatch<V>)
    requires s.pages.Some? && id in Ids(s.pages.value)
    ensures var docs, k, r := s.pages.value, FindIndex(s.pages.value, id), WithPatch(s, id, patch).pages.value;
      && 0 <= k && docs[k].id == id
      && |r| == |docs|
      && (forall j :: 0 <= j < |docs| && j != k ==> r[j] == docs[j])
      && (forall key :: key in patch.props ==> key in r[k].props && r[k].props[key] == patch.props[key])
      && (forall key :: key in docs[k].props && key !in patch.props ==> key in r[k].props && r[k].props[key] == docs[k].props[key])
      && r[k].id == (if patch.id.Some? then patch.id.value else id)
  {
    FindIndexFound(s.pages.value, id);
  }

  /** `setDocMeta` of an absent id, or with `pages` unset, changes nothing. */
  lemma SetAbsentDocMeta<V>(s: MetaState<V>, id: string, patch: MetaPatch<V>)
    requires id !in Ids(DocMetas(s.pages))
    ensures WithPatch(s, id, patch) == s
  {
    FindIndexFound(DocMetas(s.pages), id);
  }

  /**
   * `writeVersion` never overwrites a version that is set, fills the ones that are not, and
   * writing twice is writing once.
   */
  lemma WriteVersionLaws<V>(s: MetaState<V>, collectionVersion: int, pageVersion: int, flavours: map<string, int>)
    ensures var t := Versioned(s, collectionVersion, pageVersion, flavours);
      && (Truthy(s.workspaceVersion) ==> t.workspaceVersion == s.workspaceVersion)
      && (!Truthy(s.workspaceVersion) ==> t.workspaceVersion == Some(collectionVersion))
      && (Truthy(s.pageVersion) ==> t.pageVersion == s.pageVersion)
      && (!Truthy(s.pageVersion) ==> t.pageVersion == Some(pageVersion))
      && (s.blockVersions.Some? ==> t.blockVersions == s.blockVersions)
      && (s.blockVersions.None? ==> t.blockVersions == Some(flavours))
      && t.pages == s.pages && t.prevDocs == s.prevDocs
    ensures var t := Versioned(s, collectionVersion, pageVersion, flavours);
      Versioned(t, collectionVersion, pageVersion, flavours) == t
  {
  }

  /**
   * After `writeVersion` with non-zero versions and at least one flavour on a collection that
   * had no version, `hasVersion` holds; `hasVersion` is false whenever any version is falsy or
   * there are no block versions.
   */
  lemma HasVersionLaws<V>(s: MetaState<V>, collectionVersion: int, pageVersion: int, flavours: map<string, int>)
    ensures (s.workspaceVersion.None? && s.pageVersion.None? && s.blockVersions.None?
      && collectionVersion != 0 && pageVersion != 0 && |flavours| > 0) ==>
      HasVersion(Versioned(s, collectionVersion, pageVersion, flavours))
    ensures HasVersion(s) <==>
      && s.blockVersions.Some? && s.blockVersions.value != map[]
      && s.pageVersion.Some? && s.pageVersion.value != 0
      && s.workspaceVersion.Some? && s.workspaceVersion.value != 0
  {
    if s.blockVersions.Some? && s.blockVersions.value != map[] {
      var k :| k in s.blockVersions.value;
      assert k in s.blockVersions.value.Keys;
    }
    if s.blockVersions.Some? && |s.blockVersions.value.Keys| > 0 {
      var k :| k in s.blockVersions.value.Keys;
    }
    if |flavours| > 0 {
      var k :| k in flavours;
      assert k in flavours.Keys;
    }
  }

  // ---------------------------------------------------------------------------------------------
  // The meta object

  class DocCollectionMeta<V> {
    var pages: Option<seq<DocMeta<V>>>
    var workspaceVersion: Option<int>
    var pageVersion: Option<int>
    var blockVersions: Option<map<string, int>>
    /** `_prevDocs`: the snapshot of doc ids, as the insertion order of the JavaScript set. */
    var prevDocs: seq<string>

    function State(): MetaState<V>
      reads this
    {
      MetaState(pages, workspaceVersion, pageVersion, blockVersions, prevDocs)
    }

    /** A meta over an empty Yjs map: nothing is set and the snapshot is empty. */
    constructor()
      ensures State() == MetaState(None, None, None, None, [])
    {
      pages := None;
      workspaceVersion := None;
      pageVersion := None;
      blockVersions := None;
      prevDocs := [];
    }

    method Initialize()
      modifies this
      ensures State() == Initialized(old(State()))
    {
      if pages.None? {
        pages := Some([]);
      }
    }

    method AddDocMeta(doc: DocMeta<V>, index: Option<int>)
      modifies this
      ensures State() == WithDoc(old(State()), doc, index)
    {
      if pages.None? {
        return;
      }
      if index.None? {
        pages := Some(pages.value + [doc]);
      } else {
        pages := Some(SpliceInsert(pages.value, index.value, doc));
      }
    }

    method RemoveDocMeta(id: string)
      modifies this
      ensures State() == WithoutDoc(old(State()), id)
    {
      if pages.None? {
        return;
      }
      var index := FindIndex(pages.value, id);
      if index == -1 {
        return;
      }
      pages := Some(RemoveAt(pages.value, index));
    }

    method SetDocMeta(id: string, patch: MetaPatch<V>)
      modifies this
      ensures State() == WithPatch(old(State()), id, patch)
    {
      var index := FindIndex(DocMetas(pages), id);
      if pages.None? || index == -1 {
        return;
      }
      var doc := pages.value[index];
      pages := Some(pages.value[index := Patch(doc, patch)]);
    }

    method WriteVersion(collectionVersion: int, pageVersionConst: int, flavours: map<string, int>)
      modifies this
      ensures State() == Versioned(old(State()), collectionVersion, pageVersionConst, flavours)
    {
      if !Truthy(workspaceVersion) {
        workspaceVersion := Some(collectionVersion);
      }
      if !Truthy(pageVersion) {
        pageVersion := Some(pageVersionConst);
      }
      if blockVersions.None? {
        blockVersions := Some(flavours);
      }
    }

    /**
     * `_handleDocMetaEvent()`: returns the ids announced as added and as removed, in emission
     * order, and replaces the snapshot with the ids now present.
     */
    method HandleDocMetaEvent() returns (added: seq<string>, removed: seq<string>)
      modifies this
      ensures added == AddedEvents(old(prevDocs), DocMetas(old(pages)))
      ensures removed == RemovedEvents(old(prevDocs), IdSet(DocMetas(old(pages))))
      ensures prevDocs == IdSet(DocMetas(old(pages)))
      ensures pages == old(pages) && workspaceVersion == old(workspaceVersion)
      ensures pageVersion == old(pageVersion) && blockVersions == old(blockVersions)
    {
      var docs := DocMetas(pages);
      var newDocs;
      added, newDocs := ScanDocs(prevDocs, docs);
      removed := ScanSnapshot(prevDocs, newDocs);
      prevDocs := newDocs;
    }
  }

  /** The handler's first loop: announce unseen ids and collect the new id set. */
  method ScanDocs<V>(prev: seq<string>, docs: seq<DocMeta<V>>) returns (added: seq<string>, newDocs: seq<string>)
    ensures added == AddedEvents(prev, docs)
    ensures newDocs == IdSet(docs)
  {
    added, newDocs := [], [];
    var i := 0;
    while i < |docs|
      invariant 0 <= i <= |docs|
      invariant added == AddedEvents(prev, docs[..i])
      invariant newDocs == IdSet(docs[..i])
    {
      assert docs[..i + 1][..i] == docs[..i];
      if docs[i].id !in prev {
        added := added + [docs[i].id];
      }
      newDocs := SetAdd(newDocs, docs[i].id);
      i := i + 1;
    }
    assert docs[..i] == docs;
  }

  /** The handler's second loop: announce every snapshot id the new set lacks. */
  method ScanSnapshot(prev: seq<string>, newDocs: seq<string>) returns (removed: seq<string>)
    ensures removed == RemovedEvents(prev, newDocs)
  {
    removed := [];
    var j := 0;
    while j < |prev|
      invariant 0 <= j <= |prev|
      invariant removed == RemovedEvents(prev[..j], newDocs)
    {
      assert prev[..j + 1][..j] == prev[..j];
      if prev[j] !in newDocs {
        removed := removed + [prev[j]];
      }
      j := j + 1;
    }
    assert prev[..j] == prev;
  }
}
