/** Every answer of `verify_backup`. */
module VerificationOutcomes {
  import opened Wrappers
  import opened Text
  import opened ContentPaths
  import opened Snapshots
  import opened LfsPointers
  import opened Deliveries
  import opened Manifests
  import opened Verification
  import Order

  // ---------- which commit is verified ----------

  /**
   An asked commit is the one read and reported, whatever the ref holds; without one the ref's
   commit is verified as if it had been asked for; only with neither is there nothing to verify.
   */
  lemma AskedCommitIsVerified(H: Hash, commit: string, observed: Option<string>, observed': Option<string>,
                              readers: string -> Reader, readers': string -> Reader, lfs: Endpoint)
    ensures readers(commit) == readers'(commit) ==>
      VerifyOf(H, Some(commit), observed, readers, lfs) == VerifyOf(H, Some(commit), observed', readers', lfs)
    ensures VerifyOf(H, None, Some(commit), readers, lfs) == VerifyOf(H, Some(commit), observed, readers, lfs)
    ensures VerifyOf(H, None, None, readers, lfs) == Failure(NothingToVerify)
    ensures var r := VerifyOf(H, Some(commit), observed, readers, lfs);
      r != Failure(NothingToVerify) && (r.Success? ==> r.value.commit == commit)
  {
    hide CheckEntries, ManifestOf, CanonicalList;
    var r := readers(commit).Read(MANIFEST_PATH);
    if r.Some? && ManifestOf(r.value).Success? {
      EntriesAreBlamed(H, readers(commit), ManifestOf(r.value).value.entries);
    }
  }

  // ---------- the paths ----------

  /** A path the tree must hold: a shifted manifest path or one of the two metadata files. */
  ghost predicate Expected(m: Manifest, path: string) {
    path == ".mineral-backup/manifest" || path == ".gitattributes" || exists e :: e in m.entries && path == "vault/" + e.path
  }

  ghost predicate SamePaths(m: Manifest, reader: Reader) {
    forall path :: path in reader.paths <==> Expected(m, path)
  }

  lemma ExpectedExact(m: Manifest)
    ensures forall path :: path in ExpectedPaths(m.entries) <==> Expected(m, path)
  {
    forall path ensures path in ExpectedPaths(m.entries) <==> Expected(m, path) {
      if path in ExpectedPaths(m.entries) && path != MANIFEST_PATH && path != ATTRIBUTES_PATH {
        var i :| 0 <= i < |m.entries| && path == TreePath(m.entries[i].path);
        assert m.entries[i] in m.entries;
      }
      if e :| e in m.entries && path == "vault/" + e.path {
        var i :| 0 <= i < |m.entries| && m.entries[i] == e;
        assert path == TreePath(m.entries[i].path);
      }
    }
  }

  // ---------- the entries ----------

  /** The tree holds what the entry names: its bytes, or a pointer to them. */
  ghost predicate Evident(H: Hash, reader: Reader, e: ManifestEntry) {
    match reader.Read("vault/" + e.path)
    case None => false
    case Some(bytes) =>
      if e.storage.Git? then H(bytes) == e.sha256 && Size(bytes) == e.size
      else PointerOf(bytes) == Success(LfsPointer(e.sha256, e.size))
  }

  /** The error is true of this entry. */
  ghost predicate Blames(H: Hash, reader: Reader, e: ManifestEntry, error: VerifyError) {
    var read := reader.Read("vault/" + e.path);
    match error
    case PathMissing(path) => path == e.path && read.None?
    case ContentMismatch(path) => path == e.path && e.storage.Git? && read.Some? && (H(read.value) != e.sha256 || Size(read.value) != e.size)
    case ManifestRejected(PointerMismatch(path)) =>
      path == e.path && e.storage.Lfs? && read.Some? && PointerOf(read.value).Success? && PointerOf(read.value).value != LfsPointer(e.sha256, e.size)
    case ManifestRejected(BadPointer(cause)) => e.storage.Lfs? && read.Some? && PointerOf(read.value) == Failure(cause)
    case _ => false
  }

  lemma EntryExact(H: Hash, reader: Reader, e: ManifestEntry)
    ensures var r := CheckEntry(H, reader, e);
      && (r.Success? <==> Evident(H, reader, e))
      && (r.Failure? ==> Blames(H, reader, e, r.error))
      && (r.Success? ==> r.value == if e.storage.Lfs? then [RequiredLfsObject(e.sha256, e.size)] else [])
  {
    hide PointerOf;
  }

  lemma CheckCons(H: Hash, reader: Reader, entries: seq<ManifestEntry>)
    requires entries != []
    ensures CheckEntries(H, reader, entries) == match CheckEntry(H, reader, entries[0])
      case Failure(error) => Failure(error)
      case Success(first) =>
        match CheckEntries(H, reader, entries[1..])
        case Failure(error) => Failure(error)
        case Success(rest) => Success(first + rest)
  {
    hide CheckEntry;
  }

  /** The checks stop at the first entry that is not evident. */
  lemma {:induction false} FirstProblem(H: Hash, reader: Reader, entries: seq<ManifestEntry>, i: nat)
    requires i < |entries| && !Evident(H, reader, entries[i])
    requires forall j :: 0 <= j < i ==> Evident(H, reader, entries[j])
    ensures CheckEntries(H, reader, entries).Failure? && Blames(H, reader, entries[i], CheckEntries(H, reader, entries).error)
  {
    hide CheckEntry, Evident, Blames;
    CheckCons(H, reader, entries);
    EntryExact(H, reader, entries[0]);
    if i > 0 {
      FirstProblem(H, reader, entries[1..], i - 1);
    }
  }

  /** An object some LFS entry stands for. */
  ghost predicate Needed(entries: seq<ManifestEntry>, o: RequiredLfsObject) {
    exists e :: e in entries && e.storage.Lfs? && o == RequiredLfsObject(e.sha256, e.size)
  }

  lemma NeededCons(entries: seq<ManifestEntry>, o: RequiredLfsObject)
    requires entries != []
    ensures Needed(entries, o) <==>
      (entries[0].storage.Lfs? && o == RequiredLfsObject(entries[0].sha256, entries[0].size)) || Needed(entries[1..], o)
  {
    assert entries == [entries[0]] + entries[1..];
  }

  lemma {:induction false} AllEvident(H: Hash, reader: Reader, entries: seq<ManifestEntry>)
    requires forall e :: e in entries ==> Evident(H, reader, e)
    ensures CheckEntries(H, reader, entries).Success?
    ensures forall o :: o in CheckEntries(H, reader, entries).value <==> Needed(entries, o)
  {
    hide CheckEntry, Evident, Needed;
    if entries == [] {
      NothingNeeded();
    } else {
      assert entries[0] in entries;
      assert forall e :: e in entries[1..] ==> e in entries;
      CheckCons(H, reader, entries);
      EntryExact(H, reader, entries[0]);
      AllEvident(H, reader, entries[1..]);
      forall o ensures o in CheckEntries(H, reader, entries).value <==> Needed(entries, o) {
        NeededCons(entries, o);
      }
    }
  }

  lemma NothingNeeded()
    ensures forall o :: !Needed([], o)
  {
  }

  lemma {:induction false} EntriesAreBlamed(H: Hash, reader: Reader, entries: seq<ManifestEntry>)
    ensures CheckEntries(H, reader, entries).Failure? ==> CheckEntries(H, reader, entries).error != NothingToVerify
  {
    hide CheckEntry;
    if entries != [] {
      EntryExact(H, reader, entries[0]);
      EntriesAreBlamed(H, reader, entries[1..]);
    }
  }

  // ---------- every answer ----------

  /** The commit's manifest reads and parses. */
  ghost predicate HasManifest(reader: Reader, m: Manifest) {
    reader.Read(".mineral-backup/manifest").Some? && ManifestOf(reader.Read(".mineral-backup/manifest").value) == Success(m)
  }

  lemma OfManifest(H: Hash, commit: string, observed: Option<string>, readers: string -> Reader, lfs: Endpoint, m: Manifest)
    requires HasManifest(readers(commit), m)
    ensures VerifyOf(H, Some(commit), observed, readers, lfs) == VerifyManifest(H, commit, readers(commit), lfs, m)
  {
    hide ManifestOf, VerifyManifest;
  }

  /** Without a manifest, or with one the strict parser refuses, that is what is reported. */
  lemma ManifestProblem(H: Hash, commit: string, observed: Option<string>, readers: string -> Reader, lfs: Endpoint)
    ensures var r, read := VerifyOf(H, Some(commit), observed, readers, lfs), readers(commit).Read(".mineral-backup/manifest");
      && (read.None? <==> r == Failure(ManifestMissing))
      && (read.Some? && ManifestOf(read.value).Failure? ==> r == Failure(ManifestRejected(ManifestOf(read.value).error)))
  {
    hide ManifestOf, CheckEntries, CanonicalList;
    var read := readers(commit).Read(MANIFEST_PATH);
    if read.Some? && ManifestOf(read.value).Success? {
      ManifestIsThere(H, readers(commit), ManifestOf(read.value).value.entries);
    }
  }

  lemma {:induction false} ManifestIsThere(H: Hash, reader: Reader, entries: seq<ManifestEntry>)
    ensures CheckEntries(H, reader, entries) != Failure(ManifestMissing)
  {
    hide CheckEntry;
    if entries != [] {
      EntryExact(H, reader, entries[0]);
      ManifestIsThere(H, reader, entries[1..]);
    }
  }

  /**
   A tree with other paths is refused, and told apart exactly: missing are the expected paths the
   commit does not hold, unexpected the paths it holds that nothing expects.
   */
  lemma PathMismatchExact(H: Hash, commit: string, observed: Option<string>, readers: string -> Reader, lfs: Endpoint, m: Manifest)
    requires HasManifest(readers(commit), m) && !SamePaths(m, readers(commit))
    ensures var r, paths := VerifyOf(H, Some(commit), observed, readers, lfs), readers(commit).paths;
      && r.Failure? && r.error.TreePathMismatch?
      && (forall path :: path in r.error.missing <==> Expected(m, path) && path !in paths)
      && (forall path :: path in r.error.unexpected <==> path in paths && !Expected(m, path))
  {
    hide Expected, HasManifest, CheckEntries, VerifyOf;
    OfManifest(H, commit, observed, readers, lfs, m);
    ExpectedExact(m);
  }

  /** The first entry the commit does not bear out is the one the error is about, and the error is true of it. */
  lemma EntryProblemExact(H: Hash, commit: string, observed: Option<string>, readers: string -> Reader, lfs: Endpoint, m: Manifest, i: nat)
    requires HasManifest(readers(commit), m) && SamePaths(m, readers(commit))
    requires i < |m.entries| && !Evident(H, readers(commit), m.entries[i])
    requires forall j :: 0 <= j < i ==> Evident(H, readers(commit), m.entries[j])
    ensures var r := VerifyOf(H, Some(commit), observed, readers, lfs);
      r.Failure? && Blames(H, readers(commit), m.entries[i], r.error)
  {
    hide Expected, HasManifest, CheckEntries, VerifyOf, Evident, Blames;
    OfManifest(H, commit, observed, readers, lfs, m);
    ExpectedExact(m);
    FirstProblem(H, readers(commit), m.entries, i);
  }

  /**
   When paths and entries hold, the endpoint decides: it is asked once, for the distinct objects of
   the LFS entries in order, and the commit verifies exactly if it reports nothing missing. The
   counts are those of the entries and of the distinct objects; otherwise what it reports is returned.
   */
  lemma EndpointDecides(H: Hash, commit: string, observed: Option<string>, readers: string -> Reader, lfs: Endpoint, m: Manifest)
    returns (objects: seq<RequiredLfsObject>)
    requires HasManifest(readers(commit), m) && SamePaths(m, readers(commit))
    requires forall e :: e in m.entries ==> Evident(H, readers(commit), e)
    ensures Order.Strict(objects, ObjectKey) && forall o :: o in objects <==> Needed(m.entries, o)
    ensures VerifyOf(H, Some(commit), observed, readers, lfs)
         == if lfs(objects).missing == [] then Success(Report(commit, |m.entries|, |objects|)) else Failure(LfsObjectsMissing(lfs(objects).missing))
  {
    hide Expected, HasManifest, CheckEntries, VerifyOf, Evident, Needed, CanonicalList, Order.Strict;
    OfManifest(H, commit, observed, readers, lfs, m);
    ExpectedExact(m);
    AllEvident(H, readers(commit), m.entries);
    var required := CheckEntries(H, readers(commit), m.entries).value;
    objects := CanonicalList(required);
    CanonicalObjects(required);
  }

  /** So a commit verifies exactly when its manifest, its paths, its entries and the endpoint all agree. */
  lemma VerifiesExactly(H: Hash, commit: string, observed: Option<string>, readers: string -> Reader, lfs: Endpoint, m: Manifest)
    requires HasManifest(readers(commit), m)
    ensures VerifyOf(H, Some(commit), observed, readers, lfs).Success? <==>
      && SamePaths(m, readers(commit))
      && (forall e :: e in m.entries ==> Evident(H, readers(commit), e))
      && forall objects :: Order.Strict(objects, ObjectKey) && (forall o :: o in objects <==> Needed(m.entries, o)) ==> lfs(objects).missing == []
  {
    hide HasManifest, VerifyOf, Evident, Needed, SamePaths, Expected, Order.Strict;
    var reader := readers(commit);
    if !SamePaths(m, reader) {
      PathMismatchExact(H, commit, observed, readers, lfs, m);
    } else if !(forall e :: e in m.entries ==> Evident(H, reader, e)) {
      var i := FirstUnevident(H, reader, m.entries);
      EntryProblemExact(H, commit, observed, readers, lfs, m, i);
    } else {
      var objects := EndpointDecides(H, commit, observed, readers, lfs, m);
      forall others | Order.Strict(others, ObjectKey) && (forall o :: o in others <==> Needed(m.entries, o)) ensures others == objects {
        SameObjects(others, objects);
      }
    }
  }

  lemma {:induction false} FirstUnevident(H: Hash, reader: Reader, entries: seq<ManifestEntry>) returns (i: nat)
    requires exists e :: e in entries && !Evident(H, reader, e)
    ensures i < |entries| && !Evident(H, reader, entries[i]) && forall j :: 0 <= j < i ==> Evident(H, reader, entries[j])
  {
    hide Evident;
    if !Evident(H, reader, entries[0]) {
      i := 0;
    } else {
      assert entries == [entries[0]] + entries[1..];
      i := FirstUnevident(H, reader, entries[1..]);
      i := i + 1;
    }
  }

  lemma SameObjects(a: seq<RequiredLfsObject>, b: seq<RequiredLfsObject>)
    requires Order.Strict(a, ObjectKey) && Order.Strict(b, ObjectKey) && forall o :: o in a <==> o in b
    ensures a == b
  {
    hide Order.Strict, Order.Less, ObjectKey;
    Order.StrictIsSorted(a, ObjectKey);
    Order.StrictIsSorted(b, ObjectKey);
    forall o ensures multiset(a)[o] == multiset(b)[o] {
      if o in a {
        Order.OnceInMultiset(a, ObjectKey, o);
        Order.OnceInMultiset(b, ObjectKey, o);
      }
    }
    Order.StrictUnique(a, b, ObjectKey);
  }
}
