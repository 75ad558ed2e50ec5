/** The directory that holds a Cemu `cec` cache, and the file primitives of the installer. Every
    primitive may fail; a write may also stop half way and leave an incomplete file. */
module CecFiles {
  import opened Base

  datatype Name = Target | Lock | Manifest | Backup(hash: Digest) | Temporary(id: nat)

  datatype CecInstallManifest = CecInstallManifest(
    version: nat,
    sourceRecordSha256: seq<Digest>,
    installedSha256: Digest,
    previousSha256: Option<Digest>,
    target: Name,
    backup: Option<Name>)

  datatype File = Data(bytes: Bytes) | ManifestFile(manifest: CecInstallManifest) | Incomplete

  type Disk = map<Name, File>

  datatype Refusal =
    | AlreadyLocked | EmulatorRunning | ManifestExists | ManifestMissing | ManifestMalformed
    | UnsupportedVersion | TargetNotBound | BackupNotBound | BackupInconsistent | BackupMissing
    | BackupHashMismatch | BackupDiffers | TargetMismatch | TargetNotRecognized | ExpectationMismatch
    | NotPlanned

  /** `LeftBehind` is a write that failed and whose file, incomplete or whole, could not be removed. */
  datatype Failure = IoFailure | LeftBehind(name: Name, content: File) | Refused(why: Refusal)

  predicate Holds(d: Disk, name: Name, file: File) {
    name in d && d[name] == file
  }

  ghost predicate SameFile(before: Disk, d: Disk, n: Name) {
    (n in d <==> n in before) && (n in d ==> d[n] == before[n])
  }

  /** `d` and `before` differ in staging files only. */
  ghost predicate SameUpToStaging(before: Disk, d: Disk) {
    forall n: Name :: !n.Temporary? ==> SameFile(before, d, n)
  }

  ghost predicate SameOrReplaced(before: Disk, d: Disk, name: Name, bytes: Bytes) {
    SameUpToStaging(before, d) || SameUpToStaging(before[name := Data(bytes)], d)
  }

  lemma StagingIsInvisible(before: Disk, temporary: Name, content: File)
    requires temporary.Temporary?
    ensures SameUpToStaging(before, before[temporary := content])
    ensures SameUpToStaging(before, before[temporary := content] - {temporary})
  {
  }

  lemma RenameCompletes(before: Disk, temporary: Name, name: Name, content: File)
    requires temporary !in before && name != temporary
    ensures (before[temporary := content] - {temporary})[name := content] == before[name := content]
  {
  }

  lemma FreshTemporaryExists(names: set<Name>)
    ensures exists id: nat :: Temporary(id) !in names
  {
    var bound: nat := 0;
    var rest := names;
    while rest != {}
      invariant rest <= names
      invariant forall n :: n in names - rest && n.Temporary? ==> n.id < bound
      decreases rest
    {
      var n :| n in rest;
      rest := rest - {n};
      if n.Temporary? && n.id >= bound {
        bound := n.id + 1;
      }
    }
    assert Temporary(bound) !in names;
  }

  class CecDirectory {
    var files: Disk
    /** Every state the disk has been in since the current operation began. */
    ghost var visited: set<Disk>
    /** No primitive fails on its own; used to state what an undisturbed run achieves. */
    const reliable: bool

    constructor (files: Disk, reliable: bool)
      ensures this.files == files && this.reliable == reliable && visited == {files}
    {
      this.files := files;
      this.reliable := reliable;
      this.visited := {files};
    }

    ghost predicate Live()
      reads this
    {
      files in visited
    }

    method Fails() returns (failing: bool)
      ensures reliable ==> !failing
    {
      if reliable {
        failing := false;
      } else {
        failing := *;
      }
    }

    /** Creates a file that must not exist yet, writes it and syncs it. If the write or the sync fails
        the file is removed again; that may fail as well. */
    method WriteNewFile(name: Name, content: File) returns (f: Option<Failure>)
      requires Live()
      modifies this
      ensures Live()
      ensures f.None? ==> name !in old(files) && files == old(files)[name := content]
      ensures f.Some? ==>
        (files == old(files) && f == Some(IoFailure))
        || (exists left :: (left == Incomplete || left == content) && f == Some(LeftBehind(name, left))
              && name !in old(files) && files == old(files)[name := left])
      ensures reliable && name !in old(files) ==> f.None?
      ensures old(visited) <= visited
      ensures forall d | d in visited ::
        d in old(visited)
          || (name !in old(files) && (d == old(files)[name := Incomplete] || d == old(files)[name := content]))
    {
      var failing := Fails();
      if failing || name in files {
        return Some(IoFailure);
      }
      ghost var before := files;
      files := files[name := Incomplete];
      visited := visited + {files};
      failing := Fails();
      if !failing {
        files := files[name := content];
        assert files == before[name := content];
        visited := visited + {files};
        failing := Fails();
      }
      if failing {
        failing := Fails();
        if failing {
          return Some(LeftBehind(name, files[name]));
        }
        files := files - {name};
        assert files == before;
        return Some(IoFailure);
      }
      return None;
    }

    method Rename(from: Name, to: Name) returns (f: Option<Failure>)
      requires Live() && from in files && from != to
      modifies this
      ensures Live()
      ensures f.None? ==> files == (old(files) - {from})[to := old(files)[from]]
      ensures f.Some? ==> f == Some(IoFailure) && files == old(files)
      ensures reliable ==> f.None?
      ensures old(visited) <= visited <= old(visited) + {files}
    {
      var failing := Fails();
      if failing {
        return Some(IoFailure);
      }
      files := (files - {from})[to := files[from]];
      visited := visited + {files};
      return None;
    }

    method SyncDirectory() returns (f: Option<Failure>)
      ensures f.Some? ==> f == Some(IoFailure)
      ensures reliable ==> f.None?
    {
      var failing := Fails();
      if failing {
        return Some(IoFailure);
      }
      return None;
    }

    /** Removes a file; it is not an error if there is none. */
    method RemoveIfRegularFile(name: Name) returns (f: Option<Failure>)
      requires Live()
      modifies this
      ensures Live()
      ensures f.None? ==> files == old(files) - {name}
      ensures f.Some? ==> f == Some(IoFailure) && files == old(files)
      ensures reliable ==> f.None?
      ensures old(visited) <= visited <= old(visited) + {files}
    {
      if name !in files {
        assert files == files - {name};
        return None;
      }
      var failing := Fails();
      if failing {
        return Some(IoFailure);
      }
      files := files - {name};
      visited := visited + {files};
      return None;
    }

    method Read(name: Name) returns (r: Result<Option<File>, Failure>)
      ensures r.Ok? ==> r.value == if name in files then Some(files[name]) else None
      ensures r.Err? ==> r.error == IoFailure
      ensures reliable ==> r.Ok?
    {
      var failing := Fails();
      if failing {
        return Err(IoFailure);
      }
      return Ok(if name in files then Some(files[name]) else None);
    }

    /** A name for a staging file. Nothing depends on it being unused: staging files are created
        with `WriteNewFile`. An undisturbed run gets an unused one. */
    method UniquePath() returns (name: Name)
      ensures name.Temporary?
      ensures reliable ==> name !in files
    {
      if reliable {
        FreshTemporaryExists(files.Keys);
        var id: nat :| Temporary(id) !in files;
        return Temporary(id);
      }
      var id: nat := *;
      return Temporary(id);
    }

    /** Replaces a file by staging its new bytes beside it and renaming. The directory is synced
        last, so an error may come after the replacement has already taken place. */
    method AtomicReplace(name: Name, bytes: Bytes) returns (f: Option<Failure>)
      requires Live() && !name.Temporary?
      modifies this
      ensures Live()
      ensures f.None? ==> files == old(files)[name := Data(bytes)]
      ensures SameOrReplaced(old(files), files, name, bytes)
      ensures reliable ==> f.None?
      ensures old(visited) <= visited
      ensures forall d | d in visited :: d in old(visited) || SameOrReplaced(old(files), d, name, bytes)
    {
      var temporary := UniquePath();
      ghost var before := files;
      StagingIsInvisible(before, temporary, Incomplete);
      StagingIsInvisible(before, temporary, Data(bytes));
      f := WriteNewFile(temporary, Data(bytes));
      if f.Some? {
        return;
      }
      f := Rename(temporary, name);
      if f.Some? {
        var ignored := RemoveIfRegularFile(temporary);
        return;
      }
      RenameCompletes(before, temporary, name, Data(bytes));
      f := SyncDirectory();
    }
  }
}
