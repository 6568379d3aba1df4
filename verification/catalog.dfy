/** The file records of `CloudStorageApp.files` and the pure operations on
    the list that the application's methods use: building the record of an
    upload, `find` by id, flipping the shared flag of the first match,
    removing every record with an id, and the search/filter view. */
module Catalog {
  import opened Strings
  import opened Classifier
  import opened Sizes

  /** One entry of the file list. The upload date and the preview payload
      are not part of the model. */
  datatype FileRecord = FileRecord(
    id: string,
    name: string,
    size: SizeLabel,
    fileType: FileType,
    isShared: bool)

  /** The record `addFile` builds for an uploaded file of `bytes` bytes. */
  function NewRecord(id: string, name: string, bytes: nat): FileRecord
  {
    FileRecord(id, name, FormatFileSize(bytes), GetFileType(name), false)
  }

  // ---------------------------------------------------------------------
  // `Array.prototype.filter`, used both by the search view and by deletion.

  /** The elements of `s` that satisfy `p`, in their order. */
  function Keep<T>(s: seq<T>, p: T -> bool): (r: seq<T>)
    ensures |r| <= |s|
  {
    if s == [] then []
    else (if p(s[0]) then [s[0]] else []) + Keep(s[1..], p)
  }

  /** `xs` is `ys` with some elements left out and the rest in order. */
  predicate IsSubsequence<T(==)>(xs: seq<T>, ys: seq<T>)
    decreases |ys|
  {
    xs == []
    || (ys != [] && ((xs[0] == ys[0] && IsSubsequence(xs[1..], ys[1..])) || IsSubsequence(xs, ys[1..])))
  }

  /** `Keep` keeps the elements in their original order. */
  lemma {:induction false} KeepIsSubsequence<T>(s: seq<T>, p: T -> bool)
    ensures IsSubsequence(Keep(s, p), s)
  {
    if s != [] {
      KeepIsSubsequence(s[1..], p);
      var rest := Keep(s[1..], p);
      if p(s[0]) {
        assert Keep(s, p) == [s[0]] + rest;
        assert ([s[0]] + rest)[1..] == rest;
      } else {
        assert Keep(s, p) == rest;
      }
    }
  }

  /** `Keep` keeps exactly the elements that satisfy the predicate. */
  lemma {:induction false} KeepMembers<T>(s: seq<T>, p: T -> bool)
    ensures forall x :: x in Keep(s, p) <==> x in s && p(x)
  {
    if s != [] {
      KeepMembers(s[1..], p);
      assert s == [s[0]] + s[1..];
    }
  }

  /** `Keep` keeps every occurrence of an element that satisfies the
      predicate and none of one that does not. */
  lemma {:induction false} KeepCounts<T>(s: seq<T>, p: T -> bool)
    ensures forall x :: multiset(Keep(s, p))[x] == if p(x) then multiset(s)[x] else 0
  {
    if s != [] {
      var rest := s[1..];
      KeepCounts(rest, p);
      var head := if p(s[0]) then [s[0]] else [];
      assert s == [s[0]] + rest;
      assert multiset(s) == multiset([s[0]]) + multiset(rest);
      assert Keep(s, p) == head + Keep(rest, p);
      assert multiset(Keep(s, p)) == multiset(head) + multiset(Keep(rest, p));
    }
  }

  /** `Keep` keeps everything when every element satisfies the predicate. */
  lemma {:induction false} KeepAll<T>(s: seq<T>, p: T -> bool)
    requires forall x :: x in s ==> p(x)
    ensures Keep(s, p) == s
  {
    if s != [] {
      assert s[0] in s;
      assert forall x :: x in s[1..] ==> x in s;
      KeepAll(s[1..], p);
      assert s == [s[0]] + s[1..];
    }
  }

  /** `Keep` keeps exactly the elements that satisfy the predicate, every
      occurrence of them, in their original order, and keeps everything when
      every element satisfies it. */
  lemma KeepSelects<T>(s: seq<T>, p: T -> bool)
    ensures IsSubsequence(Keep(s, p), s)
    ensures forall x :: x in Keep(s, p) <==> x in s && p(x)
    ensures forall x :: multiset(Keep(s, p))[x] == if p(x) then multiset(s)[x] else 0
    ensures (forall x :: x in s ==> p(x)) ==> Keep(s, p) == s
  {
    KeepIsSubsequence(s, p);
    KeepMembers(s, p);
    KeepCounts(s, p);
    if forall x :: x in s ==> p(x) {
      KeepAll(s, p);
    }
  }

  /** Filtering a list with one more element at the end filters the element
      on its own. */
  lemma {:induction false} KeepSnoc<T>(s: seq<T>, x: T, p: T -> bool)
    ensures Keep(s + [x], p) == Keep(s, p) + (if p(x) then [x] else [])
  {
    if s == [] {
      assert [] + [x] == [x];
      assert [x][1..] == [];
    } else {
      var t := s + [x];
      assert t[0] == s[0] && t[1..] == s[1..] + [x];
      KeepSnoc(s[1..], x, p);
      var head := if p(s[0]) then [s[0]] else [];
      assert Keep(t, p) == head + Keep(s[1..] + [x], p);
      assert Keep(s, p) == head + Keep(s[1..], p);
    }
  }

  // ---------------------------------------------------------------------
  // Lookup by id.

  /** The position `files.find(f => f.id === id)` stops at: the first record
      with that id, if any. */
  function FindIndex(files: seq<FileRecord>, id: string): (r: Option<nat>)
    ensures r.Some? ==> r.value < |files| && files[r.value].id == id
    ensures r.Some? ==> forall j :: 0 <= j < r.value ==> files[j].id != id
    ensures r.None? ==> forall j :: 0 <= j < |files| ==> files[j].id != id
  {
    if files == [] then None
    else if files[0].id == id then Some(0)
    else match FindIndex(files[1..], id)
      case None => None
      case Some(i) => Some(i + 1)
  }

  /** `files.find(f => f.id === id)`: the first record with that id. */
  function Find(files: seq<FileRecord>, id: string): (r: Option<FileRecord>)
    ensures r.Some? ==> r.value in files && r.value.id == id
    ensures r.Some? ==> exists i :: 0 <= i < |files| && files[i] == r.value && forall j :: 0 <= j < i ==> files[j].id != id
    ensures r.None? <==> forall f :: f in files ==> f.id != id
  {
    match FindIndex(files, id)
    case None => None
    case Some(i) => Some(files[i])
  }

  /** Records that agree on their ids are searched alike. */
  lemma {:induction false} FindIndexSeesOnlyIds(a: seq<FileRecord>, b: seq<FileRecord>, id: string)
    requires |a| == |b| && forall j :: 0 <= j < |a| ==> a[j].id == b[j].id
    ensures FindIndex(a, id) == FindIndex(b, id)
  {
    if a != [] && a[0].id != id {
      FindIndexSeesOnlyIds(a[1..], b[1..], id);
    }
  }

  // ---------------------------------------------------------------------
  // Sharing.

  /** The list after `toggleShare(id)`: the first record with that id has its
      shared flag flipped; no other record and no other field changes. */
  function ToggleShared(files: seq<FileRecord>, id: string): (r: seq<FileRecord>)
    ensures |r| == |files|
    ensures forall j :: 0 <= j < |files| ==> r[j] == files[j].(isShared := r[j].isShared)
    ensures forall j :: 0 <= j < |files| ==>
      (r[j].isShared != files[j].isShared <==> FindIndex(files, id) == Some(j))
  {
    match FindIndex(files, id)
    case None => files
    case Some(i) => files[i := files[i].(isShared := !files[i].isShared)]
  }

  /** Toggling the same id twice restores the list. */
  lemma ToggleSharedTwice(files: seq<FileRecord>, id: string)
    ensures ToggleShared(ToggleShared(files, id), id) == files
  {
    var once := ToggleShared(files, id);
    FindIndexSeesOnlyIds(files, once, id);
    var twice := ToggleShared(once, id);
    assert forall j :: 0 <= j < |files| ==> twice[j] == files[j];
  }

  /** Toggling an id no record has leaves the list as it was. */
  lemma ToggleAbsentId(files: seq<FileRecord>, id: string)
    requires forall f :: f in files ==> f.id != id
    ensures ToggleShared(files, id) == files
  {
    var r := ToggleShared(files, id);
    assert forall j :: 0 <= j < |files| ==> r[j] == files[j];
  }

  // ---------------------------------------------------------------------
  // Deletion.

  /** `files.filter(f => f.id !== id)`: every record with that id removed. */
  function RemoveId(files: seq<FileRecord>, id: string): seq<FileRecord>
  {
    Keep(files, (f: FileRecord) => f.id != id)
  }

  /** Deletion keeps the other records, every occurrence of them, in their
      order, and removes every record with the id, so that looking the id up
      afterwards finds nothing. */
  lemma RemoveIdSpec(files: seq<FileRecord>, id: string)
    ensures IsSubsequence(RemoveId(files, id), files)
    ensures forall f :: f in RemoveId(files, id) <==> f in files && f.id != id
    ensures forall f :: multiset(RemoveId(files, id))[f] == if f.id != id then multiset(files)[f] else 0
    ensures Find(RemoveId(files, id), id) == None
  {
    KeepSelects(files, (f: FileRecord) => f.id != id);
  }

  /** Deleting the id of a record just added, when no older record has that
      id, gives back the list as it was before the upload. */
  lemma RemoveUndoesAdd(r: FileRecord, files: seq<FileRecord>)
    requires forall f :: f in files ==> f.id != r.id
    ensures Find([r] + files, r.id) == Some(r)
    ensures RemoveId([r] + files, r.id) == files
  {
    var p := (f: FileRecord) => f.id != r.id;
    KeepSelects(files, p);
    assert ([r] + files)[1..] == files;
  }

  // ---------------------------------------------------------------------
  // The search/filter view.

  /** The test `filterFiles` applies to each record: the lower-cased name
      contains the query, and the filter is "all" or names the record's type. */
  predicate Matches(f: FileRecord, query: string, filter: string)
  {
    Contains(Lower(f.name), query) && (filter == "all" || TypeName(f.fileType) == filter)
  }

  /** The list `filterFiles` hands to the renderer. */
  function FilterFiles(files: seq<FileRecord>, query: string, filter: string): seq<FileRecord>
  {
    Keep(files, (f: FileRecord) => Matches(f, query, filter))
  }

  /** The view is an order-preserving selection of the list holding exactly
      the records whose lower-cased name contains the query (see
      `ContainsIff`) and whose type passes the filter, each as often as the
      list holds it. */
  lemma FilterFilesSpec(files: seq<FileRecord>, query: string, filter: string)
    ensures IsSubsequence(FilterFiles(files, query, filter), files)
    ensures forall f :: f in FilterFiles(files, query, filter) <==>
      && f in files
      && Contains(Lower(f.name), query)
      && (filter == "all" || TypeName(f.fileType) == filter)
    ensures forall f ::
      multiset(FilterFiles(files, query, filter))[f] == if Matches(f, query, filter) then multiset(files)[f] else 0
  {
    KeepSelects(files, (f: FileRecord) => Matches(f, query, filter));
  }

  /** A record appended to the list appears at the end of the view exactly
      when it matches. */
  lemma FilterFilesSnoc(files: seq<FileRecord>, x: FileRecord, query: string, filter: string)
    ensures FilterFiles(files + [x], query, filter)
      == FilterFiles(files, query, filter) + (if Matches(x, query, filter) then [x] else [])
  {
    KeepSnoc(files, x, (f: FileRecord) => Matches(f, query, filter));
  }

  /** With the empty query and the filter "all" the view is the whole list, in
      order. */
  lemma FilterShowsEverything(files: seq<FileRecord>)
    ensures FilterFiles(files, "", "all") == files
  {
    var p := (f: FileRecord) => Matches(f, "", "all");
    forall f | f in files ensures p(f) {
      assert [] <= Lower(f.name);
    }
    KeepSelects(files, p);
  }
}
