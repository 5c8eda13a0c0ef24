/** The release slots of the edge host (edge/host/main.go): upload, activation and execution. */
module EdgeHost {
  import opened Common
  import opened ReleaseSlots

  datatype HostTuple = HostTuple(digest: string, identity: string)

  /**
   A PUT of module bytes. The headers are given after trimming and lower-casing; generation is
   None when its header is missing or not a number. compiles says whether the runtime accepts the bytes.
   */
  datatype Upload = Upload(generation: Option<int>, identity: string, declaredDigest: string,
                           body: seq<Byte>, compiles: bool)

  /** Which file operations of one request succeed; copied also covers the reading of the body. */
  datatype UploadFaults = UploadFaults(created: bool, copied: bool, closed: bool, removed: bool, renamed: bool)
  datatype ActivationFaults = ActivationFaults(backedUp: bool, promoted: bool, rolledBack: bool)

  datatype UploadReply = BadRequest | StorageError | Stale | Conflict | AlreadyActive | AlreadyStaged | StagedNow
  datatype ActivationReply = Activated | NotStaged | FileError

  /** What the generation check under the lock says about an acceptable upload. */
  function GenerationVerdict(s: Slots<HostTuple>, r: Held<HostTuple>): UploadReply
  {
    if r.generation < s.active.generation
       || (s.staged.Some? && r.generation < s.staged.value.generation) then Stale
    else if r.generation == s.active.generation then
      if r == s.active then AlreadyActive else Conflict
    else if s.staged.Some? && r.generation == s.staged.value.generation then
      if r == s.staged.value then AlreadyStaged else Conflict
    else StagedNow
  }

  /**
   An upload is staged exactly when its generation is newer than everything held, accepted without effect exactly
   when the newest held release is the same tuple, a conflict when that is another tuple, and otherwise stale.
   */
  lemma VerdictIsFreshness(s: Slots<HostTuple>, r: Held<HostTuple>)
    requires WellOrdered(s)
    ensures GenerationVerdict(s, r) == StagedNow <==> Fresh(s, r)
    ensures GenerationVerdict(s, r) in {AlreadyActive, AlreadyStaged} <==>
            Holds(s, r) && r.generation == Top(s)
    ensures GenerationVerdict(s, r) == AlreadyActive <==> r == s.active && s.staged == None
    ensures GenerationVerdict(s, r) == Stale <==> r.generation < Top(s)
    ensures GenerationVerdict(s, r) == Conflict <==> r.generation == Top(s) && !Holds(s, r)
  {
  }

  /** The release a processing request is run under and reported with, if it is run at all. */
  function Executed(s: Slots<HostTuple>, identity: string, generation: int): Option<Held<HostTuple>>
  {
    if s.active.generation == generation && s.active.tuple.identity == identity then Some(s.active) else None
  }

  /** An upload with all its headers, and bytes that the runtime accepts as a module. */
  predicate Admissible(u: Upload) {
    u.generation.Some? && u.generation.value > 0 && u.identity != "" && |u.declaredDigest| == 64 && u.body != [] && u.compiles
  }

  class Host {
    const sha256: seq<Byte> -> string
    var activeGeneration: int
    var activeIdentity: string
    var wasmDigest: string
    var stagedRelease: Option<Held<HostTuple>>
    var activeFile: Option<seq<Byte>>
    var stagedFile: Option<seq<Byte>>

    function State(): Slots<HostTuple>
      reads this
    {
      Slots(Held(activeGeneration, HostTuple(wasmDigest, activeIdentity)), stagedRelease)
    }

    /** The slots are ordered, and a file that exists hashes to the digest recorded for its slot. */
    ghost predicate Valid()
      reads this
    {
      && WellOrdered(State())
      && (activeFile.Some? ==> sha256(activeFile.value) == wasmDigest)
      && (stagedRelease.Some? && stagedFile.Some? ==> sha256(stagedFile.value) == stagedRelease.value.tuple.digest)
    }

    constructor (sha256: seq<Byte> -> string, bytes: seq<Byte>, identity: string, generation: int)
      ensures Valid() && this.sha256 == sha256
      ensures State() == Slots(Held(generation, HostTuple(sha256(bytes), identity)), None)
    {
      this.sha256 := sha256;
      activeGeneration, activeIdentity, wasmDigest := generation, identity, sha256(bytes);
      stagedRelease, activeFile, stagedFile := None, Some(bytes), None;
    }

    /** The reply an upload deserves, in the order in which the handler decides it. */
    function ReplyTo(u: Upload, f: UploadFaults): UploadReply
      reads this
    {
      if u.generation == None || u.generation.value <= 0 || u.identity == "" || |u.declaredDigest| != 64 then BadRequest
      else if !f.created then StorageError
      else if !f.copied then BadRequest
      else if !f.closed then StorageError
      else if u.body == [] || sha256(u.body) != u.declaredDigest || !u.compiles then BadRequest
      else
        var verdict := GenerationVerdict(State(), Held(u.generation.value, HostTuple(sha256(u.body), u.identity)));
        if verdict == StagedNow && !f.renamed then StorageError else verdict
    }

    /** The first critical section of an acceptable upload, and everything before it: a reply, or the release to install. */
    method CheckUpload(u: Upload, f: UploadFaults) returns (reply: UploadReply)
      ensures f.renamed ==> reply == ReplyTo(u, f)
      ensures !f.renamed ==> ReplyTo(u, f) == if reply == StagedNow then StorageError else reply
      ensures reply in {AlreadyActive, AlreadyStaged, StagedNow} ==>
                u.generation.Some? && sha256(u.body) == u.declaredDigest
                && reply == GenerationVerdict(State(), Held(u.generation.value, HostTuple(u.declaredDigest, u.identity)))
    {
      if u.generation == None || u.generation.value <= 0 {
        return BadRequest;
      }
      var generation := u.generation.value;
      if u.identity == "" {
        return BadRequest;
      }
      if |u.declaredDigest| != 64 {
        return BadRequest;
      }
      if !f.created {
        return StorageError;
      }
      if !f.copied {
        return BadRequest;
      }
      if !f.closed {
        return StorageError;
      }
      if |u.body| == 0 {
        return BadRequest;
      }
      var uploadDigest := sha256(u.body);
      if uploadDigest != u.declaredDigest {
        return BadRequest;
      }
      if !u.compiles {
        return BadRequest;
      }
      if generation < activeGeneration || (stagedRelease.Some? && generation < stagedRelease.value.generation) {
        return Stale;
      }
      if generation == activeGeneration {
        if !(uploadDigest == wasmDigest && u.identity == activeIdentity) {
          return Conflict;
        }
        return AlreadyActive;
      }
      if stagedRelease.Some? && generation == stagedRelease.value.generation {
        if !(uploadDigest == stagedRelease.value.tuple.digest && u.identity == stagedRelease.value.tuple.identity) {
          return Conflict;
        }
        return AlreadyStaged;
      }
      return StagedNow;
    }

    /** The second critical section, on whatever the host has become since the check: the release is staged without another look. */
    method InstallUpload(r: Held<HostTuple>, body: seq<Byte>, f: UploadFaults) returns (reply: UploadReply)
      modifies this
      ensures reply == if f.renamed then StagedNow else StorageError
      ensures State() == if f.renamed then Stage(old(State()), r) else old(State())
      ensures stagedFile == if f.renamed then Some(body) else if f.removed then None else old(stagedFile)
      ensures activeFile == old(activeFile)
    {
      if f.removed {
        stagedFile := None;
      }
      if !f.renamed {
        return StorageError;
      }
      stagedFile := Some(body);
      stagedRelease := Some(r);
      return StagedNow;
    }

    /** Both sections with nothing between them. */
    method HandleUpload(u: Upload, f: UploadFaults) returns (reply: UploadReply)
      requires Valid()
      modifies this
      ensures Valid()
      ensures reply == old(ReplyTo(u, f))
      ensures State() == if reply == StagedNow
                         then Stage(old(State()), Held(u.generation.value, HostTuple(u.declaredDigest, u.identity)))
                         else old(State())
      ensures Step(old(State()), State())
      ensures activeFile == old(activeFile)
      ensures reply == StagedNow <==>
                && Admissible(u) && sha256(u.body) == u.declaredDigest && f.created && f.copied && f.closed && f.renamed
                && u.generation.value > old(activeGeneration)
                && (old(stagedRelease).Some? ==> u.generation.value > old(stagedRelease).value.generation)
      ensures reply == StorageError ==> !f.created || !f.closed || !f.renamed
      ensures reply in {Stale, Conflict, AlreadyActive, AlreadyStaged} ==> Admissible(u) && sha256(u.body) == u.declaredDigest
      ensures reply == StagedNow ==> stagedFile == Some(u.body)
      ensures reply in {AlreadyActive, AlreadyStaged, StagedNow} ==>
                Holds(State(), Held(u.generation.value, HostTuple(u.declaredDigest, u.identity)))
    {
      reply := CheckUpload(u, f);
      if reply == StagedNow {
        reply := InstallUpload(Held(u.generation.value, HostTuple(u.declaredDigest, u.identity)), u.body, f);
      }
    }

    method ActivateStagedRelease(generation: int, f: ActivationFaults) returns (reply: ActivationReply)
      requires Valid()
      modifies this
      ensures Valid()
      ensures Step(old(State()), State())
      ensures reply == Activated ==> activeGeneration == generation
      ensures reply == Activated <==>
                generation == old(activeGeneration)
                || (old(stagedRelease).Some? && old(stagedRelease).value.generation == generation
                    && (old(activeFile).Some? ==> f.backedUp) && old(stagedFile).Some? && f.promoted)
      ensures reply == NotStaged <==> !exists h :: Holds(old(State()), h) && h.generation == generation
      ensures State() == if reply == Activated && generation != old(activeGeneration)
                         then Promote(old(State())) else old(State())
      ensures reply == Activated && generation != old(activeGeneration) ==> activeFile == old(stagedFile)
      ensures reply != Activated ==> activeFile == old(activeFile) || activeFile == None
    {
      if generation == activeGeneration {
        assert Holds(State(), State().active);
        return Activated;
      }
      if stagedRelease == None || stagedRelease.value.generation != generation {
        return NotStaged;
      }
      assert Holds(State(), stagedRelease.value);
      if activeFile.Some? && !f.backedUp {
        return FileError;
      }
      var backup := activeFile;
      activeFile := None;
      if stagedFile == None || !f.promoted {
        if f.rolledBack {
          activeFile := backup;
        }
        return FileError;
      }
      activeFile, stagedFile := stagedFile, None;
      wasmDigest := stagedRelease.value.tuple.digest;
      activeGeneration := stagedRelease.value.generation;
      activeIdentity := stagedRelease.value.tuple.identity;
      stagedRelease := None;
      return Activated;
    }

    /** A request runs exactly when it names the active generation and function, and the reply reports the active tuple. */
    method RunWasm(identity: string, generation: int) returns (executed: Option<Held<HostTuple>>)
      ensures executed == Executed(State(), identity, generation)
      ensures executed.Some? <==> generation == activeGeneration && identity == activeIdentity
      ensures executed.Some? ==> executed.value == Held(activeGeneration, HostTuple(wasmDigest, activeIdentity))
    {
      if identity != activeIdentity || generation != activeGeneration {
        return None;
      }
      return Some(Held(activeGeneration, HostTuple(wasmDigest, activeIdentity)));
    }
  }
}
