/** The elevated part of an update, with everything it can meet as an input.

    The plugins directory is a map from bare filename to bytes that only the
    helper writes; a failing write leaves its one file with anything in it. A
    dangling link in it has no bytes, and what is written to its name lands
    outside. What each read of the staged bundle finds is given, since any
    process of the user can rewrite it in between, and the backup directory
    changes arbitrarily. */
module UpdateApply {
  import opened Order

  type Bytes = seq<bv8>
  type Name = string
  type Files = map<Name, Bytes>

  datatype FileEntry = FileEntry(path: Name, digest: Bytes)

  datatype Manifest = Manifest(schema: nat, version: string, files: seq<FileEntry>)

  const SCHEMA_VERSION := 1
  const MANIFEST_ASSET := "manifest.json"
  const SIGNATURE_ASSET := "manifest.json.minisig"

  datatype Outcome =
    | Applied(version: string, files: seq<Name>)
    | Rejected
    | Verify
    | StillRunning
    | Failed
    | RolledBack
    | RollbackFailed(unrestored: seq<Name>)

  datatype Result<+T> = Ok(value: T) | Err(error: Outcome)

  /** Bytes read once, with the name they were read for. */
  type Held = seq<(Name, Bytes)>

  function Paths(entries: seq<FileEntry>): (r: seq<Name>)
    ensures |r| == |entries| && forall i :: 0 <= i < |r| ==> r[i] == entries[i].path
  {
    seq(|entries|, i requires 0 <= i < |entries| => entries[i].path)
  }

  function Names(held: Held): (r: seq<Name>)
    ensures |r| == |held| && forall i :: 0 <= i < |r| ==> r[i] == held[i].0
  {
    seq(|held|, i requires 0 <= i < |held| => held[i].0)
  }

  ghost predicate Distinct<T>(s: seq<T>) {
    forall i, j :: 0 <= i < j < |s| ==> s[i] != s[j]
  }

  /** `a` and `b` hold the same bytes under every name outside `names`. */
  ghost predicate SameOutside(a: Files, b: Files, names: set<Name>) {
    forall n :: n !in names ==> (n in a <==> n in b) && (n in a ==> a[n] == b[n])
  }

  ghost predicate SameAt(a: Files, b: Files, n: Name) {
    n in a && n in b && a[n] == b[n]
  }

  ghost predicate Holds(files: Files, held: Held) {
    forall i :: 0 <= i < |held| ==> held[i].0 in files && files[held[i].0] == held[i].1
  }

  // ------------------------------------------------------ what can be met

  /** What each read of the staged bundle finds, whoever rewrites it in between:
      nothing for what cannot be read. `links` are the entries that are links. */
  datatype Staging = Staging(manifest: Option<Bytes>, signature: Option<Bytes>, links: set<Name>, files: map<Name, Bytes>)

  /** The backup: whether it has a place, which can be emptied and made, and the
      installed files whose metadata, bytes or copy fail. A file in `hidden`
      looks as if it were not installed. */
  datatype BackingUp = BackingUp(placed: bool, emptied: bool, made: bool,
                                 hidden: set<Name>, links: set<Name>, unreadable: set<Name>, uncopied: set<Name>)

  /** The swap: the links that point at nothing, with where they point, the other
      links, and the files whose write fails. */
  datatype Swapping = Swapping(dangling: map<Name, Name>, links: set<Name>, unwritable: set<Name>)

  /** The rollback: links by then, failing writes, and files that cannot be read back. */
  datatype Restoring = Restoring(links: set<Name>, unwritable: set<Name>, unreadable: set<Name>)

  datatype Met = Met(staging: Staging, exits: bool, backingUp: BackingUp, swapping: Swapping, restoring: Restoring)

  ghost predicate Stops(target: Files, b: BackingUp, n: Name) {
    n in target && n !in b.hidden && (n in b.links || n in b.unreadable || !b.made || n in b.uncopied)
  }

  /** Every installed file of `names` the check sees can be kept. */
  ghost predicate CanBackUp(target: Files, b: BackingUp, names: seq<Name>) {
    b.placed && b.emptied && forall n :: n in names ==> !Stops(target, b, n)
  }

  ghost predicate Fails(target: Files, w: Swapping, n: Name) {
    (n in target && n in w.links) || n in w.unwritable
  }

  ghost predicate CanSwap(target: Files, w: Swapping, names: seq<Name>) {
    forall n :: n in names ==> !Fails(target, w, n)
  }

  /** The file is back: written, or found to hold its bytes although its write failed. */
  ghost predicate BackAgain(after: Files, original: Files, q: Restoring, n: Name) {
    n !in q.links && (n !in q.unwritable || (n !in q.unreadable && SameAt(after, original, n)))
  }

  class Helper {
    /** The signature and digest primitives, and the manifest parser, taken as given. */
    const signed: (Bytes, Bytes) -> bool
    const parse: Bytes -> Option<Manifest>
    const digest: Bytes -> Bytes
    const isBareFilename: Name -> bool

    var target: Files
    var backup: Files
    var outside: Files

    constructor (signed: (Bytes, Bytes) -> bool, parse: Bytes -> Option<Manifest>, digest: Bytes -> Bytes,
                 isBareFilename: Name -> bool, target: Files, outside: Files)
      ensures this.target == target && this.outside == outside
    {
      this.signed, this.parse, this.digest, this.isBareFilename := signed, parse, digest, isBareFilename;
      this.target, this.backup, this.outside := target, map[], outside;
    }

    /** What the manifest parser checks once the signature has verified. */
    predicate ValidManifest(m: Manifest) {
      && m.schema == SCHEMA_VERSION && m.version != "" && m.files != []
      && (forall i :: 0 <= i < |m.files| ==> isBareFilename(m.files[i].path))
      && (forall i, j :: 0 <= i < j < |m.files| ==> m.files[i].path != m.files[j].path)
    }

    /** A manifest the release keys signed. */
    ghost predicate Trusted(m: Manifest) {
      ValidManifest(m) && exists bytes, signature :: signed(bytes, signature) && parse(bytes) == Some(m)
    }

    /** Every file of the manifest, with bytes that have the digest it names. */
    ghost predicate Verified(m: Manifest, files: Held) {
      && |files| == |m.files|
      && forall i :: 0 <= i < |files| ==> files[i].0 == m.files[i].path && digest(files[i].1) == m.files[i].digest
    }

    /** The manifest as read is signed and valid. */
    ghost predicate Signed(s: Staging) {
      && s.manifest.Some? && s.signature.Some? && signed(s.manifest.value, s.signature.value)
      && parse(s.manifest.value).Some? && ValidManifest(parse(s.manifest.value).value)
    }

    ghost predicate EntryVerifies(s: Staging, e: FileEntry) {
      isBareFilename(e.path) && e.path !in s.links && e.path in s.files && digest(s.files[e.path]) == e.digest
    }

    /** The bundle as read is signed, and each file is there and is the one named. */
    ghost predicate Verifies(s: Staging) {
      Signed(s) && forall i :: 0 <= i < |Named(s).files| ==> EntryVerifies(s, Named(s).files[i])
    }

    ghost function Named(s: Staging): Manifest
      requires Signed(s)
    {
      parse(s.manifest.value).value
    }

    /** Why a bundle that does not verify is refused: the first thing wrong with it. */
    ghost predicate RefusedAs(s: Staging, r: Outcome) {
      if s.manifest.None? || s.signature.None? then r == Failed
      else if !Signed(s) then r == Verify
      else exists i :: 0 <= i < |Named(s).files| && FirstWrong(s, i) && r == WrongAs(s, Named(s).files[i])
    }

    ghost predicate FirstWrong(s: Staging, i: nat)
      requires Signed(s) && i < |Named(s).files|
    {
      !EntryVerifies(s, Named(s).files[i]) && forall j :: 0 <= j < i ==> EntryVerifies(s, Named(s).files[j])
    }

    ghost function WrongAs(s: Staging, e: FileEntry): Outcome {
      if !isBareFilename(e.path) || e.path in s.links then Rejected else if e.path !in s.files then Failed else Verify
    }

    /** Other processes run: the backup directory they can write changes arbitrarily. */
    method OthersRun()
      modifies this`backup
    {
      backup := *;
    }

    /** Succeeds exactly on a bundle that verifies, with the bytes that did. */
    method VerifyStaged(s: Staging) returns (r: Result<(Manifest, Held)>)
      ensures r.Ok? <==> Verifies(s)
      ensures r.Ok? ==> r.value.0 == Named(s) && Trusted(r.value.0) && Verified(r.value.0, r.value.1)
      ensures r.Ok? ==> forall i :: 0 <= i < |r.value.1| ==> r.value.1[i].0 in s.files && r.value.1[i].1 == s.files[r.value.1[i].0]
      ensures r.Err? ==> RefusedAs(s, r.error) && (r.error.Rejected? || r.error.Verify? || r.error.Failed?)
    {
      if s.manifest.None? || s.signature.None? {
        return Err(Failed);
      }
      if !signed(s.manifest.value, s.signature.value) {
        return Err(Verify);
      }
      var parsed := parse(s.manifest.value);
      if parsed.None? || !ValidManifest(parsed.value) {
        return Err(Verify);
      }
      var manifest := parsed.value;
      var files: Held := [];
      for i := 0 to |manifest.files|
        invariant |files| == i
        invariant forall j :: 0 <= j < i ==> EntryVerifies(s, manifest.files[j])
        invariant forall j :: 0 <= j < i ==> files[j].0 == manifest.files[j].path && files[j].1 == s.files[files[j].0]
      {
        var entry := manifest.files[i];
        if !isBareFilename(entry.path) || entry.path in s.links {
          assert FirstWrong(s, i);
          return Err(Rejected);
        }
        if entry.path !in s.files {
          assert FirstWrong(s, i);
          return Err(Failed);
        }
        var bytes := s.files[entry.path];
        if digest(bytes) != entry.digest {
          assert FirstWrong(s, i);
          return Err(Verify);
        }
        files := files + [(entry.path, bytes)];
      }
      return Ok((manifest, files));
    }

    /** Holds on to the bytes of every installed file that is to be replaced, with
        a copy of each under the backup directory. */
    method BackUp(files: Held, b: BackingUp) returns (r: Result<Held>)
      modifies this`backup
      ensures r.Ok? <==> CanBackUp(target, b, Names(files))
      ensures r.Ok? ==> Holds(target, r.value) && IsBackup(r.value, target - b.hidden, Names(files))
      ensures r.Err? ==> r.error == NotBackedUpAs(target, Names(files), b)
    {
      hide Holds, IsBackup, BackedUp;
      if !b.placed {
        return Err(Rejected);
      }
      if !b.emptied {
        return Err(Failed);
      }
      backup := map[];
      var kept: Held := [];
      ghost var installed := target - b.hidden;
      NothingBackedUp(installed, files);
      for i := 0 to |files|
        invariant BackedUp(installed, kept, files, i)
        invariant forall j :: 0 <= j < i ==> !Stops(target, b, Names(files)[j])
      {
        var name := files[i].0;
        BackUpStep(installed, kept, files, i);
        NameOf(files, i);
        if name in target && name !in b.hidden {
          if name in b.links {
            FirstStopDecides(target, Names(files), b, i);
            return Err(Rejected);
          }
          if name in b.unreadable {
            FirstStopDecides(target, Names(files), b, i);
            return Err(Failed);
          }
          var bytes := target[name];
          OthersRun();
          if !b.made || name in b.uncopied {
            FirstStopDecides(target, Names(files), b, i);
            return Err(Failed);
          }
          backup := backup[name := bytes];
          kept := kept + [(name, bytes)];
        }
      }
      AllBackedUp(installed, kept, files);
      SeenIsHeld(target, b.hidden, kept);
      return Ok(kept);
    }

    /** One write into the plugins directory; a failing one can leave anything. */
    method WriteTarget(name: Name, bytes: Bytes, fails: bool)
      modifies this`target, this`backup
      ensures !fails ==> target == old(target)[name := bytes]
      ensures SameOutside(target, old(target), {name})
    {
      OthersRun();
      if !fails {
        target := target[name := bytes];
      } else {
        var left: Option<Bytes> := *;
        target := if left.Some? then target[name := left.value] else target - {name};
      }
    }

    /** One write that goes through a dangling link. */
    method WriteThrough(name: Name, bytes: Bytes, fails: bool)
      modifies this`outside
      ensures !fails ==> outside == old(outside)[name := bytes]
      ensures SameOutside(outside, old(outside), {name})
    {
      if !fails {
        outside := outside[name := bytes];
      } else {
        var left: Option<Bytes> := *;
        outside := if left.Some? then outside[name := left.value] else outside - {name};
      }
    }

    /** Writes `files` in order and stops at the first that fails. A dangling link
        looks absent, so its name is written without the check for links. */
    method WriteAll(files: Held, w: Swapping) returns (ok: bool)
      requires Distinct(Names(files))
      modifies this`target, this`backup, this`outside
      ensures ok <==> CanSwap(old(target), w, Names(files))
      ensures ok ==> Holds(target, files) && target == Written(old(target), files, |files|)
      ensures !ok ==> StopsAtFirst(old(target), files, w, target)
      ensures SameOutside(target, old(target), Elements(Names(files)))
      ensures Landed(old(outside), files, w.dangling, outside)
    {
      hide Written, Landed, LandedSoFar, Holds, SameOutside, Names, StopsAtFirst, Fails;
      NothingWritten(target, outside, files, w.dangling);
      for i := 0 to |files|
        invariant Holds(target, files[..i]) && target == Written(old(target), files, i)
        invariant SameOutside(target, old(target), Elements(Names(files)))
        invariant LandedSoFar(old(outside), files, w.dangling, i) == outside
        invariant forall j :: 0 <= j < i ==> !Fails(old(target), w, files[j].0)
      {
        var name := files[i].0;
        NameOf(files, i);
        NotYetThere(old(target), files, i);
        LandsAt(old(outside), files, w.dangling, i, outside);
        FailsWhen(old(target), w, name);
        if name in target && name in w.links {
          FirstFailureStops(old(target), files, w, i, target);
          return false;
        }
        ghost var before := target;
        var fails := name in w.unwritable;
        WriteTarget(name, files[i].1, fails);
        SameOutsideComposes(target, before, old(target), name, Elements(Names(files)));
        if name in w.dangling {
          WriteThrough(w.dangling[name], files[i].1, fails);
        }
        if fails {
          FirstFailureStops(old(target), files, w, i, target);
          LandsAt(old(outside), files, w.dangling, i, outside);
          return false;
        }
        WrittenHolds(before, files, i);
        WritesOn(old(target), old(outside), files, w.dangling, i);
        assert files[..i + 1] == files[..i] + [files[i]];
      }
      assert files[..|files|] == files;
      AllLanded(old(outside), files, w.dangling, outside);
      NoneFails(old(target), files, w);
      return true;
    }

    /** Writes `kept` over the target and collects the names it could not put back. */
    method Restore(kept: Held, ghost original: Files, q: Restoring) returns (r: Outcome)
      requires Distinct(Names(kept)) && Holds(original, kept)
      modifies this`target, this`backup
      ensures r.RolledBack? || r.RollbackFailed?
      ensures r.RolledBack? <==> forall n :: n in Names(kept) ==> BackAgain(target, original, q, n)
      ensures r.RollbackFailed? ==>
        forall n :: n in r.unrestored <==> n in Names(kept) && !BackAgain(target, original, q, n)
      ensures SameOutside(target, old(target), Elements(Names(kept)))
      ensures r.RolledBack? ==> target == Written(old(target), kept, |kept|)
      ensures r.RollbackFailed? ==> SameOutside(target, Written(old(target), kept, |kept|), Elements(r.unrestored))
      ensures forall n :: n in Names(kept) && BackAgain(target, original, q, n) ==> SameAt(target, original, n)
    {
      hide Written, SameOutside, BackAgain, Holds, Names;
      var failures: seq<Name> := [];
      NothingWritten(target, map[], kept, map[]);
      SameAsItself(target, failures);
      for i := 0 to |kept|
        invariant SameOutside(target, Written(old(target), kept, i), Elements(failures))
        invariant Tried(target, original, kept, q, failures, i)
      {
        var name, bytes := kept[i].0, kept[i].1;
        WritesOn(old(target), map[], kept, map[], i);
        ghost var before := target;
        if name in q.links {
          OneMoreFailure(target, Written(old(target), kept, i), failures, name, bytes);
          BackWhen(target, original, kept, q, i);
          SameAsItself(target, [name]);
          TriedOne(before, target, original, kept, q, failures, i, false);
          failures := failures + [name];
        } else {
          var fails := name in q.unwritable;
          WriteTarget(name, bytes, fails);
          PutBack(before, target, Written(old(target), kept, i), failures, name, bytes);
          OneElement(name);
          var already := AlreadyRestored(name, bytes, name in q.unreadable);
          BackWhen(target, original, kept, q, i);
          TriedOne(before, target, original, kept, q, failures, i, !fails || already);
          if fails && !already {
            failures := failures + [name];
          }
        }
      }
      r := if failures == [] then RolledBack else RollbackFailed(failures);
      AllTried(target, original, kept, q, failures);
      WrittenIsHeld(old(target), kept, |kept|);
      RestoredWhereWritten(target, old(target), original, kept, failures);
    }

    /** The target can be read and has these bytes under that name. */
    method AlreadyRestored(name: Name, bytes: Bytes, unreadable: bool) returns (r: bool)
      ensures r <==> !unreadable && name in target && target[name] == bytes
    {
      r := !unreadable && name in target && target[name] == bytes;
    }

    /** The whole apply: which outcome what is met leads to, and what each says
        of the target. */
    method Apply(met: Met) returns (r: Outcome, manifest: Option<Manifest>)
      modifies this`target, this`backup, this`outside
      ensures manifest == if Verifies(met.staging) then Some(Named(met.staging)) else None
      ensures manifest.Some? ==> Trusted(manifest.value)
      ensures manifest.None? ==> RefusedAs(met.staging, r)
      ensures r.StillRunning? <==> manifest.Some? && !met.exits
      ensures r.Applied? || r.RolledBack? || r.RollbackFailed? <==>
        manifest.Some? && met.exits && CanBackUp(old(target), met.backingUp, Paths(manifest.value.files))
      ensures manifest.Some? && met.exits && !CanBackUp(old(target), met.backingUp, Paths(manifest.value.files)) ==>
        r == NotBackedUpAs(old(target), Paths(manifest.value.files), met.backingUp)
      ensures r.Applied? <==>
        && manifest.Some? && met.exits && CanBackUp(old(target), met.backingUp, Paths(manifest.value.files))
        && CanSwap(old(target), met.swapping, Paths(manifest.value.files))
      ensures r.RolledBack? || r.RollbackFailed? ==>
        (r.RolledBack? <==> forall n :: Kept(old(target), met, manifest.value, n) ==> BackAgain(target, old(target), met.restoring, n))
      ensures r.RollbackFailed? ==> forall n ::
        n in r.unrestored <==> Kept(old(target), met, manifest.value, n) && !BackAgain(target, old(target), met.restoring, n)
      ensures r.Rejected? || r.Verify? || r.StillRunning? || r.Failed? ==> target == old(target) && outside == old(outside)
      ensures r.Applied? ==> r.version == manifest.value.version && r.files == Paths(manifest.value.files)
      ensures r.Applied? ==> Installed(target, manifest.value)
      ensures r.RolledBack? || r.RollbackFailed? ==>
        forall n :: Kept(old(target), met, manifest.value, n) && BackAgain(target, old(target), met.restoring, n) ==>
          SameAt(target, old(target), n)
      ensures r.RolledBack? ==> RolledBackFrom(old(target), manifest.value, met.backingUp.hidden, target)
      ensures manifest.Some? ==> SameOutside(target, old(target), Elements(Paths(manifest.value.files)))
      ensures manifest.Some? ==> SameOutside(outside, old(outside), Landings(Paths(manifest.value.files), met.swapping.dangling))
    {
      hide Written, Torn, Landed, RolledBackTo, BackAgain, Fails, Stops, RefusedAs, StopsAtFirst;
      var verified := VerifyStaged(met.staging);
      if verified.Err? {
        return verified.error, None;
      }
      var (m, files) := verified.value;
      assert Names(files) == Paths(m.files);
      if !met.exits {
        return StillRunning, Some(m);
      }
      var kept := BackUp(files, met.backingUp);
      if kept.Err? {
        return kept.error, Some(m);
      }
      DistinctNames(m, files);
      BackupNames(kept.value, target - met.backingUp.hidden, Names(files));
      var swapped := WriteAll(files, met.swapping);
      LandedStaysInside(old(outside), files, met.swapping.dangling, outside);
      if swapped {
        AllInstalled(m, files);
        return Applied(m.version, Names(files)), Some(m);
      }
      FirstStopTears(old(target), files, met.swapping, target);
      RollsBack(old(target), files, kept.value, target);
      if kept.value == [] {
        NothingWritten(target, map[], kept.value, map[]);
        assert RolledBackFrom(old(target), m, met.backingUp.hidden, target);
        return RolledBack, Some(m);
      }
      ghost var swappedFiles := target;
      var outcome := Restore(kept.value, old(target), met.restoring);
      SameOutsideWidens(target, swappedFiles, old(target), Elements(Names(kept.value)), Elements(Names(files)));
      return outcome, Some(m);
    }

    /** The file is one of the manifest that was installed and could be seen. */
    ghost predicate Kept(original: Files, met: Met, m: Manifest, n: Name) {
      n in Paths(m.files) && n in original && n !in met.backingUp.hidden
    }

    /** The target is what a failed swap of the manifest's files can be rolled back to. */
    ghost predicate RolledBackFrom(original: Files, m: Manifest, hidden: set<Name>, after: Files) {
      exists files, kept ::
        Verified(m, files) && IsBackup(kept, original - hidden, Names(files)) && Holds(original, kept)
        && RolledBackTo(original, files, kept, after)
    }

    /** Every file of the manifest is installed with the digest it names. */
    ghost predicate Installed(files: Files, m: Manifest) {
      forall i :: 0 <= i < |m.files| ==> m.files[i].path in files && digest(files[m.files[i].path]) == m.files[i].digest
    }

    lemma AllInstalled(m: Manifest, files: Held)
      requires Verified(m, files) && Holds(target, files)
      ensures Installed(target, m)
    {
    }

    lemma DistinctNames(m: Manifest, files: Held)
      requires ValidManifest(m) && Names(files) == Paths(m.files)
      ensures Distinct(Names(files))
    {
    }
  }

  /** The first `n` files written over `before`. */
  function Written(before: Files, files: Held, n: nat): Files
    requires n <= |files|
  {
    if n == 0 then before else Written(before, files, n - 1)[files[n - 1].0 := files[n - 1].1]
  }

  /** What a swap that failed can leave: some files written, anything in the next. */
  ghost predicate Torn(before: Files, files: Held, after: Files) {
    exists n :: 0 <= n < |files| && SameOutside(after, Written(before, files, n), {files[n].0})
  }

  /** What a failed swap and its rollback can leave. */
  ghost predicate RolledBackTo(original: Files, files: Held, kept: Held, after: Files) {
    exists torn :: Torn(original, files, torn) && after == Written(torn, kept, |kept|)
  }

  /** What the first `n` files have landed outside through dangling links. */
  function LandedSoFar(before: Files, files: Held, dangling: map<Name, Name>, n: nat): Files
    requires n <= |files|
  {
    if n == 0 then before
    else
      var so := LandedSoFar(before, files, dangling, n - 1);
      if files[n - 1].0 in dangling then so[dangling[files[n - 1].0] := files[n - 1].1] else so
  }

  function Landings(names: seq<Name>, dangling: map<Name, Name>): set<Name> {
    set n | n in names && n in dangling :: dangling[n]
  }

  /** What a swap can leave outside, done or stopped at some file. */
  ghost predicate Landed(before: Files, files: Held, dangling: map<Name, Name>, after: Files) {
    after == LandedSoFar(before, files, dangling, |files|)
    || exists n :: 0 <= n < |files| && LandedUpTo(before, files, dangling, n, after)
  }

  ghost predicate LandedUpTo(before: Files, files: Held, dangling: map<Name, Name>, n: nat, after: Files)
    requires n < |files|
  {
    SameOutside(after, LandedSoFar(before, files, dangling, n), Landings([files[n].0], dangling))
  }

  lemma NothingWritten(target: Files, outside: Files, files: Held, dangling: map<Name, Name>)
    ensures Written(target, files, 0) == target && LandedSoFar(outside, files, dangling, 0) == outside
    ensures Holds(target, []) && SameOutside(target, target, Elements(Names(files)))
    ensures files[..0] == []
  {
  }

  /** A swap that failed stopped at its first failing file: those before it are
      written, a link is left as it is, and a failed write left anything. */
  ghost predicate StopsAtFirst(before: Files, files: Held, w: Swapping, after: Files) {
    exists n :: 0 <= n < |files| && StoppedAt(before, files, w, after, n)
  }

  ghost predicate StoppedAt(before: Files, files: Held, w: Swapping, after: Files, n: nat)
    requires n < |files|
  {
    && Fails(before, w, files[n].0)
    && (forall j :: 0 <= j < n ==> !Fails(before, w, files[j].0))
    && SameOutside(after, Written(before, files, n), {files[n].0})
    && (files[n].0 !in w.unwritable ==> after == Written(before, files, n))
  }

  /** Why a backup that fails does: its place, or the first file that stops it. */
  ghost function NotBackedUpAs(target: Files, names: seq<Name>, b: BackingUp): (r: Outcome)
    ensures r == Rejected || r == Failed
  {
    if !b.placed then Rejected
    else if !b.emptied then Failed
    else FirstStop(target, names, b)
  }

  ghost function FirstStop(target: Files, names: seq<Name>, b: BackingUp): (r: Outcome)
    ensures r == Rejected || r == Failed
  {
    if names == [] then Failed
    else if !Stops(target, b, names[0]) then FirstStop(target, names[1..], b)
    else if names[0] in b.links then Rejected
    else Failed
  }

  lemma NameOf(files: Held, i: nat)
    requires i < |files|
    ensures Names(files)[i] == files[i].0 && files[i].0 in Names(files) && files[i].0 in Elements(Names(files))
  {
  }

  lemma {:induction false} FirstStopDecides(target: Files, names: seq<Name>, b: BackingUp, i: nat)
    requires i < |names| && Stops(target, b, names[i]) && forall j :: 0 <= j < i ==> !Stops(target, b, names[j])
    ensures FirstStop(target, names, b) == if names[i] in b.links then Rejected else Failed
    ensures !CanBackUp(target, b, names)
  {
    hide Stops;
    if i > 0 {
      FirstStopDecides(target, names[1..], b, i - 1);
    }
  }

  lemma FailsWhen(target: Files, w: Swapping, n: Name)
    ensures Fails(target, w, n) <==> (n in target && n in w.links) || n in w.unwritable
  {
  }

  lemma NoneFails(target: Files, files: Held, w: Swapping)
    requires forall j :: 0 <= j < |files| ==> !Fails(target, w, files[j].0)
    ensures CanSwap(target, w, Names(files))
  {
    hide Fails;
  }

  lemma FirstFailureStops(before: Files, files: Held, w: Swapping, n: nat, after: Files)
    requires n < |files| && Fails(before, w, files[n].0) && forall j :: 0 <= j < n ==> !Fails(before, w, files[j].0)
    requires SameOutside(after, Written(before, files, n), {files[n].0})
    requires files[n].0 !in w.unwritable ==> after == Written(before, files, n)
    ensures StopsAtFirst(before, files, w, after) && !CanSwap(before, w, Names(files))
  {
    hide Fails, Written, SameOutside;
    NameOf(files, n);
    assert StoppedAt(before, files, w, after, n);
  }

  lemma FirstStopTears(before: Files, files: Held, w: Swapping, after: Files)
    requires StopsAtFirst(before, files, w, after)
    ensures Torn(before, files, after)
  {
    hide Fails, Written, SameOutside;
  }

  /** A file still to be written is installed exactly if it was before the swap. */
  lemma NotYetThere(before: Files, files: Held, n: nat)
    requires n < |files| && Distinct(Names(files))
    ensures files[n].0 in Written(before, files, n) <==> files[n].0 in before
    ensures SameOutside(Written(before, files, n), Written(before, files, n), {files[n].0})
  {
    WrittenIsHeld(before, files, n);
    hide Written;
    NotYetWritten(Names(files), n);
  }

  /** Of the first `n` kept files, the failures are exactly those not back again. */
  ghost predicate Tried(target: Files, original: Files, kept: Held, q: Restoring, failures: seq<Name>, n: nat)
    requires n <= |kept|
  {
    && (forall j :: 0 <= j < n ==> (kept[j].0 in failures <==> !BackAgain(target, original, q, kept[j].0)))
    && (forall f :: f in failures ==> exists j :: 0 <= j < n && kept[j].0 == f)
  }

  lemma BackWhen(target: Files, original: Files, kept: Held, q: Restoring, i: nat)
    requires Holds(original, kept) && i < |kept|
    ensures var (n, bytes) := kept[i];
      BackAgain(target, original, q, n) <==>
        n !in q.links && (n !in q.unwritable || (n !in q.unreadable && n in target && target[n] == bytes))
  {
  }

  lemma TriedOne(before: Files, target: Files, original: Files, kept: Held, q: Restoring, failures: seq<Name>, n: nat, back: bool)
    requires n < |kept| && Distinct(Names(kept)) && Tried(before, original, kept, q, failures, n)
    requires SameOutside(target, before, Elements([kept[n].0]))
    requires back <==> BackAgain(target, original, q, kept[n].0)
    ensures Tried(target, original, kept, q, if back then failures else failures + [kept[n].0], n + 1)
  {
    hide Distinct;
    var now := if back then failures else failures + [kept[n].0];
    forall j | 0 <= j < n ensures kept[j].0 != kept[n].0 {
      DifferentNames(kept, j, n);
    }
    forall j | 0 <= j < n ensures BackAgain(target, original, q, kept[j].0) <==> BackAgain(before, original, q, kept[j].0) {
    }
    assert kept[n].0 !in failures;
    hide BackAgain;
    assert forall f :: f in now <==> f in failures || (!back && f == kept[n].0);
  }

  lemma AllTried(target: Files, original: Files, kept: Held, q: Restoring, failures: seq<Name>)
    requires Tried(target, original, kept, q, failures, |kept|)
    ensures forall n :: n in failures <==> n in Names(kept) && !BackAgain(target, original, q, n)
    ensures failures == [] <==> forall n :: n in Names(kept) ==> BackAgain(target, original, q, n)
  {
    hide BackAgain;
    forall n ensures n in failures <==> n in Names(kept) && !BackAgain(target, original, q, n) {
      if n in Names(kept) {
        var j :| 0 <= j < |kept| && Names(kept)[j] == n;
      }
    }
    if failures != [] {
      assert failures[0] in failures;
    }
  }

  lemma StopsAt(before: Files, files: Held, n: nat, after: Files)
    requires n < |files| && SameOutside(after, Written(before, files, n), {files[n].0})
    ensures Torn(before, files, after)
  {
  }

  lemma LandsAt(before: Files, files: Held, dangling: map<Name, Name>, n: nat, after: Files)
    requires n < |files| && SameOutside(after, LandedSoFar(before, files, dangling, n), Landings([files[n].0], dangling))
    ensures Landed(before, files, dangling, after)
  {
    assert LandedUpTo(before, files, dangling, n, after);
  }

  lemma AllLanded(before: Files, files: Held, dangling: map<Name, Name>, after: Files)
    requires after == LandedSoFar(before, files, dangling, |files|)
    ensures Landed(before, files, dangling, after)
  {
  }

  lemma WritesOn(target: Files, outside: Files, files: Held, dangling: map<Name, Name>, n: nat)
    requires n < |files|
    ensures Written(target, files, n + 1) == Written(target, files, n)[files[n].0 := files[n].1]
    ensures LandedSoFar(outside, files, dangling, n + 1) ==
      if files[n].0 in dangling then LandedSoFar(outside, files, dangling, n)[dangling[files[n].0] := files[n].1]
      else LandedSoFar(outside, files, dangling, n)
  {
  }

  lemma OneMoreFailure(target: Files, written: Files, failures: seq<Name>, name: Name, bytes: Bytes)
    requires SameOutside(target, written, Elements(failures))
    ensures SameOutside(target, written[name := bytes], Elements(failures + [name]))
    ensures Elements(failures + [name]) == Elements(failures) + {name}
  {
    assert Elements(failures + [name]) == Elements(failures) + {name};
  }

  lemma OneElement(name: Name)
    ensures Elements([name]) == {name}
  {
  }

  lemma SameAsItself(target: Files, failures: seq<Name>)
    ensures SameOutside(target, target, Elements(failures))
  {
  }

  /** One attempt to put a file back, which either has its bytes now or is named. */
  lemma PutBack(before: Files, target: Files, written: Files, failures: seq<Name>, name: Name, bytes: Bytes)
    requires SameOutside(before, written, Elements(failures)) && SameOutside(target, before, {name})
    ensures name in target && target[name] == bytes ==> SameOutside(target, written[name := bytes], Elements(failures))
    ensures SameOutside(target, written[name := bytes], Elements(failures + [name]))
  {
    assert Elements(failures + [name]) == Elements(failures) + {name};
  }

  lemma {:induction false} WrittenIsHeld(before: Files, files: Held, n: nat)
    requires n <= |files| && Distinct(Names(files))
    ensures forall i :: 0 <= i < n ==> files[i].0 in Written(before, files, n) && Written(before, files, n)[files[i].0] == files[i].1
    ensures SameOutside(Written(before, files, n), before, Elements(Names(files)[..n]))
  {
    if n > 0 {
      WrittenIsHeld(before, files, n - 1);
      assert Names(files)[..n] == Names(files)[..n - 1] + [files[n - 1].0];
      forall i | 0 <= i < n - 1 ensures files[i].0 != files[n - 1].0 {
        DifferentNames(files, i, n - 1);
      }
    }
  }

  lemma RestoredWhereWritten(target: Files, torn: Files, original: Files, kept: Held, failures: seq<Name>)
    requires Holds(original, kept)
    requires forall i :: 0 <= i < |kept| ==> kept[i].0 in Written(torn, kept, |kept|) && Written(torn, kept, |kept|)[kept[i].0] == kept[i].1
    requires SameOutside(Written(torn, kept, |kept|), torn, Elements(Names(kept)[..|kept|]))
    requires SameOutside(target, Written(torn, kept, |kept|), Elements(failures))
    requires forall n :: n in failures ==> n in Names(kept)
    ensures SameOutside(target, torn, Elements(Names(kept)))
    ensures failures == [] ==> target == Written(torn, kept, |kept|)
    ensures forall n :: n in Names(kept) && n !in failures ==> SameAt(target, original, n)
  {
    hide Written;
    assert Names(kept)[..|kept|] == Names(kept);
  }

  lemma RollsBack(original: Files, files: Held, kept: Held, torn: Files)
    requires Torn(original, files, torn)
    ensures RolledBackTo(original, files, kept, Written(torn, kept, |kept|))
  {
  }

  lemma {:induction false} LandedInLandings(before: Files, files: Held, dangling: map<Name, Name>, n: nat)
    requires n <= |files|
    ensures SameOutside(LandedSoFar(before, files, dangling, n), before, Landings(Names(files), dangling))
  {
    if n > 0 {
      LandedInLandings(before, files, dangling, n - 1);
      assert Names(files)[n - 1] == files[n - 1].0;
    }
  }

  lemma LandedStaysInside(before: Files, files: Held, dangling: map<Name, Name>, after: Files)
    requires Landed(before, files, dangling, after)
    ensures SameOutside(after, before, Landings(Names(files), dangling))
  {
    LandedInLandings(before, files, dangling, |files|);
    if after != LandedSoFar(before, files, dangling, |files|) {
      var n :| 0 <= n < |files| && LandedUpTo(before, files, dangling, n, after);
      LandedInLandings(before, files, dangling, n);
      assert Names(files)[n] == files[n].0;
      assert Landings([files[n].0], dangling) <= Landings(Names(files), dangling);
    }
  }

  // ---------------------------------------------------- what a rollback cannot do

  /** Every file that was installed has its bytes again. */
  ghost predicate Restored(original: Files, files: Held, after: Files) {
    forall n :: n in Names(files) && n in original ==> SameAt(after, original, n)
  }

  /** Every rollback that can be restores every installed manifest file exactly
      when the backup could see all of them. */
  lemma RollbackRestoresIff(original: Files, files: Held, kept: Held, hidden: set<Name>)
    requires Distinct(Names(files)) && Holds(original, kept) && IsBackup(kept, original - hidden, Names(files))
    ensures (forall after :: RolledBackTo(original, files, kept, after) ==> Restored(original, files, after)) <==>
      forall n :: n in Names(files) && n in original ==> n !in hidden
  {
    hide Written, Torn;
    if forall n :: n in Names(files) && n in original ==> n !in hidden {
      forall after | RolledBackTo(original, files, kept, after) ensures Restored(original, files, after) {
        var torn :| Torn(original, files, torn) && after == Written(torn, kept, |kept|);
        KeptComesBack(original, files, kept, hidden, torn);
      }
    }
    forall n | n in Names(files) && n in original && n in hidden
      ensures exists after :: RolledBackTo(original, files, kept, after) && !SameAt(after, original, n)
    {
      var after := LostFile(original, files, kept, hidden, n);
    }
  }

  lemma KeptComesBack(original: Files, files: Held, kept: Held, hidden: set<Name>, torn: Files)
    requires Distinct(Names(files)) && Holds(original, kept) && IsBackup(kept, original - hidden, Names(files))
    requires forall n :: n in Names(files) && n in original ==> n !in hidden
    ensures Restored(original, files, Written(torn, kept, |kept|))
  {
    WrittenIsHeld(torn, kept, |kept|);
    hide Written;
    forall n | n in Names(files) && n in original ensures SameAt(Written(torn, kept, |kept|), original, n) {
      assert n in Names(kept);
      var i :| 0 <= i < |kept| && Names(kept)[i] == n;
    }
  }

  /** A file the backup did not see, torn by the failing write, stays so. */
  lemma LostFile(original: Files, files: Held, kept: Held, hidden: set<Name>, n: Name) returns (after: Files)
    requires Distinct(Names(files)) && IsBackup(kept, original - hidden, Names(files))
    requires n in Names(files) && n in original && n in hidden
    ensures RolledBackTo(original, files, kept, after) && !SameAt(after, original, n)
  {
    var i :| 0 <= i < |files| && Names(files)[i] == n;
    var torn := Written(original, files, i)[n := original[n] + [0]];
    StopsAt(original, files, i, torn);
    RollsBack(original, files, kept, torn);
    WrittenIsHeld(torn, kept, |kept|);
    hide Written;
    after := Written(torn, kept, |kept|);
    assert Names(kept)[..|kept|] == Names(kept);
    assert n !in Elements(Names(kept));
    assert |after[n]| == |original[n]| + 1;
  }

  /** One file to install over one the backup cannot see: the rollback keeps the torn one. */
  lemma UnseenFileIsLost(was: Bytes, wanted: Bytes) returns (after: Files)
    ensures RolledBackTo(map["a.dll" := was], [("a.dll", wanted)], [], after) && !SameAt(after, map["a.dll" := was], "a.dll")
  {
    var files: Held := [("a.dll", wanted)];
    assert Names(files) == ["a.dll"];
    assert map["a.dll" := was] - {"a.dll"} == map[];
    after := LostFile(map["a.dll" := was], files, [], {"a.dll"}, "a.dll");
  }

  /** Whatever happens, a swap changes nothing outside the directory exactly when
      no file of the manifest has the name of a dangling link. */
  lemma NothingLandsOutsideIff(files: Held, dangling: map<Name, Name>)
    ensures (forall before, after :: Landed(before, files, dangling, after) ==> after == before) <==>
      forall n :: n in Names(files) ==> n !in dangling
  {
    hide LandedSoFar, LandedUpTo;
    if forall n :: n in Names(files) ==> n !in dangling {
      forall before, after | Landed(before, files, dangling, after) ensures after == before {
        LandedStaysInside(before, files, dangling, after);
        assert Landings(Names(files), dangling) == {};
      }
    }
    forall n | n in Names(files) && n in dangling
      ensures exists after :: Landed(map[], files, dangling, after) && after != map[]
    {
      var after := LandsSomewhere(files, dangling, n);
    }
  }

  lemma LandsSomewhere(files: Held, dangling: map<Name, Name>, n: Name) returns (after: Files)
    requires n in Names(files) && n in dangling
    ensures Landed(map[], files, dangling, after) && after != map[]
  {
    hide LandedSoFar;
    var i :| 0 <= i < |files| && Names(files)[i] == n;
    var so := LandedSoFar(map[], files, dangling, i);
    after := so[dangling[n] := files[i].1];
    assert n in [files[i].0];
    LandsAt(map[], files, dangling, i, after);
    assert dangling[n] in after;
  }

  /** One file to install where a link points at nothing: a finished swap has put it there. */
  lemma LinkedFileLandsOutside(wanted: Bytes)
    ensures var files: Held := [("a.dll", wanted)];
      LandedSoFar(map[], files, map["a.dll" := "elsewhere"], 1) == map["elsewhere" := wanted]
      && Landed(map[], files, map["a.dll" := "elsewhere"], map["elsewhere" := wanted])
  {
    var files: Held := [("a.dll", wanted)];
    NothingWritten(map[], map[], files, map["a.dll" := "elsewhere"]);
    AllLanded(map[], files, map["a.dll" := "elsewhere"], map["elsewhere" := wanted]);
  }

  /** `kept` has exactly those of `names` that `files` holds, once each if the names are distinct. */
  ghost predicate IsBackup(kept: Held, files: Files, names: seq<Name>) {
    && (forall n :: n in Names(kept) <==> n in names && n in files)
    && (Distinct(names) ==> Distinct(Names(kept)))
  }

  /** Of the first `n` files, those that exist are kept. */
  ghost predicate BackedUp(target: Files, kept: Held, files: Held, n: nat)
    requires n <= |files|
  {
    Holds(target, kept) && IsBackup(kept, target, Names(files)[..n])
  }

  lemma NothingBackedUp(target: Files, files: Held)
    ensures BackedUp(target, [], files, 0)
  {
  }

  lemma AllBackedUp(target: Files, kept: Held, files: Held)
    requires BackedUp(target, kept, files, |files|)
    ensures Holds(target, kept) && IsBackup(kept, target, Names(files))
  {
    assert Names(files)[..|files|] == Names(files);
  }

  lemma SeenIsHeld(target: Files, hidden: set<Name>, kept: Held)
    requires Holds(target - hidden, kept)
    ensures Holds(target, kept)
  {
  }

  lemma BackUpStep(target: Files, kept: Held, files: Held, n: nat)
    requires n < |files| && BackedUp(target, kept, files, n)
    ensures BackedUp(target, if files[n].0 in target then kept + [(files[n].0, target[files[n].0])] else kept, files, n + 1)
  {
    var name := files[n].0;
    assert Names(files)[..n + 1] == Names(files)[..n] + [name];
    if name in target {
      BackupGrows(kept, target, Names(files)[..n], name, target[name]);
      HoldsMore(target, kept, name);
    }
    hide Names, Holds;
  }

  lemma HoldsMore(target: Files, kept: Held, name: Name)
    requires Holds(target, kept) && name in target
    ensures Holds(target, kept + [(name, target[name])])
  {
  }

  lemma BackupGrows(kept: Held, files: Files, names: seq<Name>, name: Name, bytes: Bytes)
    requires IsBackup(kept, files, names) && name in files
    ensures IsBackup(kept + [(name, bytes)], files, names + [name])
  {
    var grown := kept + [(name, bytes)];
    assert Names(grown) == Names(kept) + [name];
    if Distinct(names + [name]) {
      assert name !in names by {
        assert (names + [name])[|names|] == name;
        forall i | 0 <= i < |names| ensures names[i] != name {
          assert (names + [name])[i] == names[i];
        }
      }
      assert Distinct(names) by {
        forall i, j | 0 <= i < j < |names| ensures names[i] != names[j] {
          assert (names + [name])[i] == names[i] && (names + [name])[j] == names[j];
        }
      }
    }
  }

  lemma BackupNames(kept: Held, files: Files, names: seq<Name>)
    requires IsBackup(kept, files, names)
    ensures Elements(Names(kept)) <= Elements(names)
    ensures kept == [] ==> forall n :: n in names ==> n !in files
  {
    if kept == [] {
      assert forall n :: n !in Names(kept);
    }
  }

  lemma SameOutsideComposes(a: Files, b: Files, c: Files, name: Name, names: set<Name>)
    requires SameOutside(a, b, {name}) && SameOutside(b, c, names) && name in names
    ensures SameOutside(a, c, names)
  {
  }

  lemma SameOutsideWidens(a: Files, b: Files, c: Files, few: set<Name>, many: set<Name>)
    requires SameOutside(a, b, few) && SameOutside(b, c, many) && few <= many
    ensures SameOutside(a, c, many)
  {
  }

  lemma WrittenHolds(before: Files, files: Held, i: nat)
    requires i < |files| && Distinct(Names(files)) && Holds(before, files[..i])
    ensures Holds(before[files[i].0 := files[i].1], files[..i + 1])
  {
    hide Distinct;
    var after := before[files[i].0 := files[i].1];
    forall j | 0 <= j < i + 1 ensures files[j].0 in after && after[files[j].0] == files[j].1 {
      if j < i {
        assert files[..i][j] == files[j];
        DifferentNames(files, j, i);
      }
    }
  }

  lemma DifferentNames(files: Held, i: nat, j: nat)
    requires Distinct(Names(files)) && i < j < |files|
    ensures files[i].0 != files[j].0
  {
    assert Names(files)[i] != Names(files)[j];
  }

  lemma NotYetWritten(names: seq<Name>, i: nat)
    requires Distinct(names) && i < |names|
    ensures names[i] !in names[..i]
  {
  }
}
