/**
 The device's artifact files: downloading into the staged slot (sif_wasmPull.cpp) and promoting
 the staged file to active (promote_staged_file in sif_release.cpp). Every file operation may
 fail on its own; the fault records say which ones do.
 */
module ArtifactFiles {
  import opened Common

  datatype Path = Active | Staged | Previous | Temporary | Backup

  type Files = map<Path, seq<Byte>>

  /** rename(2): the source must exist, and replaces the destination. */
  function Rename(files: Files, source: Path, target: Path, works: bool): (Files, bool)
  {
    if works && source in files then ((files - {source})[target := files[source]], true) else (files, false)
  }

  function Remove(files: Files, path: Path, works: bool): Files
  {
    if works then files - {path} else files
  }

  datatype ReplaceFaults = ReplaceFaults(stat: bool, oldRemoved: bool, backedUp: bool, renamed: bool, rolledBack: bool, backupRemoved: bool)

  /** The staged file after a complete download in the temporary file was put in its place. */
  function Replaced(files: Files, f: ReplaceFaults): (Files, bool)
  {
    if !f.stat then (files, false)
    else if Staged !in files then Rename(files, Temporary, Staged, f.renamed)
    else
      var backedUp := Rename(Remove(files, Backup, f.oldRemoved), Staged, Backup, f.backedUp);
      if !backedUp.1 then backedUp
      else
        var renamed := Rename(backedUp.0, Temporary, Staged, f.renamed);
        if !renamed.1 then (Rename(renamed.0, Backup, Staged, f.rolledBack).0, false)
        else (Remove(renamed.0, Backup, f.backupRemoved), true)
  }

  /** What the artifact server and the file system did with one download. */
  datatype Pull = NoResponse | Interrupted(partial: seq<Byte>, removed: bool) | Body(bytes: seq<Byte>)

  function Pulled(files: Files, pull: Pull, f: ReplaceFaults, temporaryRemoved: bool): (Files, bool)
  {
    match pull
    case NoResponse => (files, false)
    case Interrupted(partial, removed) => (Remove(files[Temporary := partial], Temporary, removed), false)
    case Body(bytes) =>
      var replaced := Replaced(files[Temporary := bytes], f);
      if replaced.1 then replaced else (Remove(replaced.0, Temporary, temporaryRemoved), false)
  }

  /**
   A download either installs exactly the received bytes, or leaves in the staged place nothing but
   what was there; a staged file that leaves its place because of a failure is kept as the backup. Nothing is
   left behind unless it cannot be removed.
   */
  lemma PullIsAllOrNothing(files: Files, pull: Pull, f: ReplaceFaults, temporaryRemoved: bool)
    ensures var (after, ok) := Pulled(files, pull, f, temporaryRemoved);
            && (ok ==> pull.Body? && Staged in after && after[Staged] == pull.bytes && Temporary !in after)
            && (!ok && pull.Body? && temporaryRemoved ==> Temporary !in after)
            && (pull.Interrupted? && pull.removed ==> Temporary !in after)
            && (ok && Staged in files && f.backupRemoved ==> Backup !in after)
            && (!ok && Staged in after ==> Staged in files && after[Staged] == files[Staged])
            && (!ok && Staged in files && Staged !in after ==> Backup in after && after[Backup] == files[Staged] && !f.rolledBack)
            && (forall p :: p in {Active, Previous} ==> (p in after <==> p in files) && (p in files ==> after[p] == files[p]))
  {
  }

  /** A download succeeds exactly when the whole body arrived and the renames that put it in its place worked. */
  lemma PullSucceedsExactlyWhen(files: Files, pull: Pull, f: ReplaceFaults, temporaryRemoved: bool)
    ensures Pulled(files, pull, f, temporaryRemoved).1 <==>
            pull.Body? && f.stat && (Staged in files ==> f.backedUp) && f.renamed
  {
  }

  datatype PromoteFaults = PromoteFaults(oldRemoved: bool, backedUp: bool, renamed: bool, rolledBack: bool, backupRemoved: bool)

  /** The files after the staged one was made active; an empty staged file counts as missing. */
  function Promoted(files: Files, f: PromoteFaults): (Files, bool)
  {
    if Staged !in files || files[Staged] == [] then (files, false)
    else
      var cleared := Remove(files, Previous, f.oldRemoved);
      var backedUp := Rename(cleared, Active, Previous, f.backedUp);
      if !backedUp.1 && Active in cleared then (cleared, false)
      else
        var renamed := Rename(backedUp.0, Staged, Active, f.renamed);
        if !renamed.1 then (Rename(renamed.0, Previous, Active, f.rolledBack).0, false)
        else (Remove(renamed.0, Previous, f.backupRemoved), true)
  }

  /**
   Promotion moves the staged bytes to the active place or keeps the staged file; a failed promotion
   never loses the active bytes, which are still active or kept as the previous file. An active place
   that was empty may only be filled from an older previous file.
   */
  lemma PromotionIsAllOrNothing(files: Files, f: PromoteFaults)
    ensures var (after, ok) := Promoted(files, f);
            && (ok <==> Staged in files && files[Staged] != [] && (Active in files ==> f.backedUp) && f.renamed)
            && (ok ==> Active in after && after[Active] == files[Staged] && Staged !in after)
            && (ok && f.backupRemoved ==> Previous !in after)
            && (!ok ==> (Staged in after <==> Staged in files) && (Staged in files ==> after[Staged] == files[Staged]))
            && (!ok && Active in files ==>
                  || (Active in after && after[Active] == files[Active])
                  || (Active !in after && Previous in after && after[Previous] == files[Active] && !f.rolledBack))
            && (!ok && Active !in files && Active in after ==>
                  Previous in files && after[Active] == files[Previous] && !f.oldRemoved && f.rolledBack)
  {
  }

  /** The file system object on which both sequences run step by step. */
  class FileStore {
    var files: Files

    constructor (files: Files)
      ensures this.files == files
    {
      this.files := files;
    }

    method RenameFile(source: Path, target: Path, works: bool) returns (ok: bool)
      modifies this
      ensures (files, ok) == Rename(old(files), source, target, works)
    {
      ok := works && source in files;
      if ok {
        var bytes := files[source];
        files := files - {source};
        files := files[target := bytes];
      }
    }

    method ReplaceFromDownload(f: ReplaceFaults) returns (ok: bool)
      modifies this
      ensures (files, ok) == Replaced(old(files), f)
    {
      if !f.stat {
        return false;
      }
      if Staged !in files {
        ok := RenameFile(Temporary, Staged, f.renamed);
        return;
      }
      files := Remove(files, Backup, f.oldRemoved);
      ok := RenameFile(Staged, Backup, f.backedUp);
      if !ok {
        return;
      }
      ok := RenameFile(Temporary, Staged, f.renamed);
      if !ok {
        var _ := RenameFile(Backup, Staged, f.rolledBack);
        return;
      }
      files := Remove(files, Backup, f.backupRemoved);
    }

    method PullBlob(pull: Pull, f: ReplaceFaults, temporaryRemoved: bool) returns (ok: bool)
      modifies this
      ensures (files, ok) == Pulled(old(files), pull, f, temporaryRemoved)
    {
      match pull
      case NoResponse =>
        return false;
      case Interrupted(partial, removed) =>
        files := files[Temporary := partial];
        files := Remove(files, Temporary, removed);
        return false;
      case Body(bytes) =>
        files := files[Temporary := bytes];
        ok := ReplaceFromDownload(f);
        if !ok {
          files := Remove(files, Temporary, temporaryRemoved);
        }
    }

    method PromoteStagedFile(f: PromoteFaults) returns (ok: bool)
      modifies this
      ensures (files, ok) == Promoted(old(files), f)
    {
      if Staged !in files || |files[Staged]| == 0 {
        return false;
      }
      files := Remove(files, Previous, f.oldRemoved);
      var present := Active in files;
      ok := RenameFile(Active, Previous, f.backedUp);
      if !ok && present {
        return;
      }
      ok := RenameFile(Staged, Active, f.renamed);
      if !ok {
        var _ := RenameFile(Previous, Active, f.rolledBack);
        return;
      }
      files := Remove(files, Previous, f.backupRemoved);
    }
  }
}
