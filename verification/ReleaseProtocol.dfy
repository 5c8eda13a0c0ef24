/**
 The release protocol of operator, edge host and device over channels that lose, duplicate and
 reorder. A message or request once sent stays in its channel and may arrive any number of times, at
 any time or never. The operator works from an arbitrarily old version of the object it watches,
 and its view of the host is only what one probe or acknowledgement told it.
 */
module ReleaseProtocol {
  import opened Common
  import opened ReleaseSlots
  import opened DeviceRelease
  import opened DeviceInvariants
  import opened EdgeHost
  import ContractPolicy

  // ------------------------------------------------- identities

  /** White space as strings.TrimSpace understands it. */
  predicate IsSpace(c: char) {
    var n := c as int;
    || 0x09 <= n <= 0x0D || n == 0x20 || n == 0x85 || n == 0xA0 || n == 0x1680 || 0x2000 <= n <= 0x200A
    || n == 0x2028 || n == 0x2029 || n == 0x202F || n == 0x205F || n == 0x3000
  }

  function Trim(s: string): string
  {
    if s == "" then s
    else if IsSpace(s[0]) then Trim(s[1..])
    else if IsSpace(s[|s| - 1]) then Trim(s[..|s| - 1])
    else s
  }

  /** The code points with the property White_Space. */
  lemma WhiteSpace(c: char)
    ensures IsSpace(c) <==>
            c as int in {0x09, 0x0A, 0x0B, 0x0C, 0x0D, 0x20, 0x85, 0xA0, 0x1680, 0x2000, 0x2001, 0x2002, 0x2003, 0x2004, 0x2005, 0x2006,
                         0x2007, 0x2008, 0x2009, 0x200A, 0x2028, 0x2029, 0x202F, 0x205F, 0x3000}
  {
  }

  predicate AllSpace(s: string) {
    forall c :: c in s ==> IsSpace(c)
  }

  lemma NoSpace()
    ensures AllSpace("")
  {
  }

  lemma MoreSpace(a: string, b: string, c: char)
    requires IsSpace(c) && (a == [c] || AllSpace(a)) && (b == [c] || AllSpace(b))
    ensures AllSpace(a + b)
  {
    hide IsSpace;
  }

  /** Trimming takes white space from both ends, and all of it. */
  lemma {:induction false} TrimMeaning(s: string) returns (before: string, after: string)
    ensures s == before + Trim(s) + after && AllSpace(before) && AllSpace(after)
    ensures Trim(s) != "" ==> !IsSpace(Trim(s)[0]) && !IsSpace(Trim(s)[|Trim(s)| - 1])
  {
    hide IsSpace, AllSpace;
    NoSpace();
    before, after := "", "";
    if s != "" {
      if IsSpace(s[0]) {
        var rest;
        rest, after := TrimMeaning(s[1..]);
        before := [s[0]] + rest;
        MoreSpace([s[0]], rest, s[0]);
        assert s == [s[0]] + s[1..];
      } else if IsSpace(s[|s| - 1]) {
        var rest;
        before, rest := TrimMeaning(s[..|s| - 1]);
        after := rest + [s[|s| - 1]];
        MoreSpace(rest, [s[|s| - 1]], s[|s| - 1]);
        assert s == s[..|s| - 1] + [s[|s| - 1]];
      }
    }
  }

  lemma {:induction false} TrimTwice(s: string)
    ensures Trim(Trim(s)) == Trim(s)
  {
    hide IsSpace;
    if s != "" {
      if IsSpace(s[0]) {
        TrimTwice(s[1..]);
      } else if IsSpace(s[|s| - 1]) {
        TrimTwice(s[..|s| - 1]);
      }
    }
  }

  // ------------------------------------------------- what the operator knows

  /** The device fields of the watched object's status. */
  datatype Status = Status(activeGeneration: int, activeDigest: string, activeIdentity: string,
                           stagedGeneration: int, stagedDigest: string)

  datatype Version = Version(spec: Release, status: Status)

  /** A state report; its digest is that of the file a start would run, and is left out when that cannot be read. */
  datatype Report = Report(slots: Slots<DeviceTuple>, digest: Option<string>)

  /** The report of an active release carries the digest that the store records for it. */
  predicate ExactReport(t: Report) {
    t.slots.active.generation >= 1 ==> t.digest == Some(t.slots.active.tuple.digest)
  }

  /** The status after a report: its identity is trimmed first, and a field that is then empty keeps its old value. */
  function Observed(st: Status, t: Report): Status
  {
    var active, staged, identity := t.slots.active, t.slots.staged, Trim(t.slots.active.tuple.identity);
    Status(active.generation,
           if t.digest.Some? && t.digest.value != "" then t.digest.value else st.activeDigest,
           if identity != "" then identity else st.activeIdentity,
           if staged.Some? then staged.value.generation else 0,
           if staged.Some? then staged.value.tuple.digest else "")
  }

  predicate DeviceReady(v: Version)
  {
    || (v.status.stagedGeneration == v.spec.generation && v.status.stagedDigest == v.spec.tuple.digest)
    || (v.status.activeGeneration == v.spec.generation && v.status.activeDigest == v.spec.tuple.digest
        && Trim(v.status.activeIdentity) == Trim(v.spec.tuple.identity))
  }

  predicate HostMatches(known: Option<Held<HostTuple>>, spec: Release)
  {
    && known.Some? && known.value.tuple.digest == spec.tuple.digest && known.value.generation == spec.generation
    && Trim(known.value.tuple.identity) == Trim(spec.tuple.identity)
  }

  /** One reconcile: the version it read and what it learnt about the host so far. */
  datatype Session = Session(version: Version, probed: bool, active: Option<Held<HostTuple>>, staged: Option<Held<HostTuple>>)

  // ------------------------------------------------- the system

  /** The release as the host stores it: its identity arrives in a header, trimmed. */
  function HostOf(r: Release): Held<HostTuple> {
    Held(r.generation, HostTuple(r.tuple.digest, Trim(r.tuple.identity)))
  }

  function StageOf(r: Release): Command { StageRelease("stage", "artifact", r) }

  function SetMode(g: int, mode: Mode): Command {
    Activate(if mode == Edge then "runtime-edge" else "activate-local", g, mode)
  }

  /** The three components and their channels, followed by what only the proofs look at. */
  datatype Sys = Sys(
    current: Version, versions: set<Version>, session: Option<Session>,
    host: Slots<HostTuple>, device: View,
    uploads: set<Release>, uploadAcks: set<Release>,
    activations: set<int>, activationAcks: set<int>,
    commands: set<Command>, reports: set<Report>,
    published: set<Release>,              // every release a version of the object named
    hostBound: map<int, HostTuple>,       // the tuple bound to each generation on the host
    deviceBound: map<int, Release>,       // the release that bound each generation on the device
    hostWasActive: set<int>,              // the generations that have been active on the host
    allExact: bool,                       // every report was exact
    noModeLost: bool)                     // the device never stayed on the edge through a change to a local release

  datatype Event =
    | Edit(spec: Release) | Observe(report: Report)
    | Begin(version: Version) | Probe | SendUpload | UploadAcked | SendHostActivation | HostActivationAcked
    | SendStage | SendMode(mode: Mode)
    | HostUpload(release: Release, stored: bool) | HostActivate(hostGeneration: int, moved: bool)
    | DeviceApply(command: Command, modeWritten: bool, commandWritten: bool) | ReportState(digest: Option<string>)
    | DeviceStart(powerOn: bool, flashed: Option<string>)

  function NewVersion(s: Sys, v: Version): Sys {
    s.(current := v, versions := s.versions + {v}, published := s.published + {v.spec})
  }

  /** The operator's steps; one whose guard fails does nothing. */
  function OperatorStep(s: Sys, e: Event): Sys
    requires s.session.Some?
  {
    var now := s.session.value;
    var spec := now.version.spec;
    if spec.generation <= 0 || |spec.tuple.digest| != 64 then s
    else match e
      case Probe => s.(session := Some(now.(probed := true, active := Some(s.host.active), staged := s.host.staged)))
      case SendUpload =>
        if now.probed && !HostMatches(now.active, spec) && !HostMatches(now.staged, spec)
        then s.(uploads := s.uploads + {spec}) else s
      case UploadAcked =>
        if spec in s.uploadAcks
        then s.(session := Some(now.(staged := Some(Held(spec.generation, HostTuple(spec.tuple.digest, spec.tuple.identity))))))
        else s
      case SendHostActivation =>
        if DeviceReady(now.version) && !HostMatches(now.active, spec) && HostMatches(now.staged, spec)
        then s.(activations := s.activations + {spec.generation}) else s
      case HostActivationAcked =>
        if HostMatches(now.staged, spec) && spec.generation in s.activationAcks
        then s.(session := Some(now.(active := Some(Held(spec.generation, HostTuple(spec.tuple.digest, spec.tuple.identity))),
                                     staged := None)))
        else s
      case SendStage =>
        if !DeviceReady(now.version) then s.(commands := s.commands + {StageOf(spec)}) else s
      case SendMode(mode) =>
        if DeviceReady(now.version) && (mode == Edge ==> HostMatches(now.active, spec))
        then s.(commands := s.commands + {SetMode(spec.generation, mode)}) else s
      case _ => s
  }

  predicate AcceptableUpload(r: Release) {
    r.generation > 0 && |r.tuple.digest| == 64 && Trim(r.tuple.identity) != ""
  }

  function HostStep(s: Sys, e: Event): Sys
  {
    match e
    case HostUpload(r, stored) =>
      if r !in s.uploads || !AcceptableUpload(r) then s
      else (match GenerationVerdict(s.host, HostOf(r))
        case StagedNow =>
          if stored
          then s.(host := Stage(s.host, HostOf(r)), hostBound := s.hostBound[r.generation := HostOf(r).tuple], uploadAcks := s.uploadAcks + {r})
          else s
        case AlreadyActive => s.(uploadAcks := s.uploadAcks + {r})
        case AlreadyStaged => s.(uploadAcks := s.uploadAcks + {r})
        case _ => s)
    case HostActivate(g, moved) =>
      if g !in s.activations then s
      else if g == s.host.active.generation then s.(activationAcks := s.activationAcks + {g})
      else if s.host.staged.Some? && s.host.staged.value.generation == g && moved
      then s.(host := Promote(s.host), activationAcks := s.activationAcks + {g}, hostWasActive := s.hostWasActive + {g})
      else s
    case _ => s
  }

  /** A release was activated for local mode, and the device that runs it now is still on the edge. */
  predicate LosesMode(before: View, c: Command, after: View) {
    c.Activate? && c.mode == Local && OnEdge(after) && after.slots != before.slots
  }

  /** What the firmware makes of a store without a release, when it can read the module it would run. */
  function Bootstrap(flashed: string): Release {
    Held(0, DeviceTuple(flashed, "basic-edge-demo", ContractPolicy.Contract(ContractPolicy.Array([]), ContractPolicy.Array([]))))
  }

  /** The firmware starts: a power-on resets the mode, and the runtime is chosen by the stored mode. */
  function Started(v: View, powerOn: bool, flashed: Option<string>): View
  {
    var mode := if powerOn then Local else v.mode;
    View(if flashed.Some? && v.slots.active.tuple.identity == "" then v.slots.(active := Bootstrap(flashed.value)) else v.slots,
         mode, mode == Local)
  }

  function DeviceStep(s: Sys, e: Event): Sys
  {
    match e
    case DeviceApply(c, modeWritten, commandWritten) =>
      if c !in s.commands then s
      else if c.StageRelease? then
        if ValidRelease(c.release) && Fresh(s.device.slots, c.release)
        then s.(device := Effect(s.device, c, modeWritten, commandWritten), deviceBound := s.deviceBound[c.release.generation := c.release])
        else s
      else
        var after := Effect(s.device, c, modeWritten, commandWritten);
        s.(device := after, noModeLost := s.noModeLost && !LosesMode(s.device, c, after))
    case ReportState(digest) =>
      var t := Report(s.device.slots, digest);
      s.(reports := s.reports + {t}, allExact := s.allExact && ExactReport(t))
    case DeviceStart(powerOn, flashed) => s.(device := Started(s.device, powerOn, flashed))
    case _ => s
  }

  function Next(s: Sys, e: Event): Sys
  {
    match e
    case Edit(spec) => NewVersion(s, s.current.(spec := spec))
    case Observe(t) => if t in s.reports then NewVersion(s, s.current.(status := Observed(s.current.status, t))) else s
    case Begin(v) => if v in s.versions then s.(session := Some(Session(v, false, None, None))) else s
    case HostUpload(_, _) => HostStep(s, e)
    case HostActivate(_, _) => HostStep(s, e)
    case DeviceApply(_, _, _) => DeviceStep(s, e)
    case ReportState(_) => DeviceStep(s, e)
    case DeviceStart(_, _) => DeviceStep(s, e)
    case _ => if s.session.Some? then OperatorStep(s, e) else s
  }

  function Run(s: Sys, events: seq<Event>): Sys
    decreases |events|
  {
    if events == [] then s else Run(Next(s, events[0]), events[1..])
  }

  const BLANK := Status(0, "", "", 0, "")

  /** The release a host boots with: its generation and identity are configured, the identity trimmed and defaulted. */
  function BuiltIn(host: Held<HostTuple>): Held<HostTuple> {
    var identity := Trim(host.tuple.identity);
    Held(host.generation, HostTuple(host.tuple.digest, if identity == "" then "dht-reader" else identity))
  }

  /** A store that nothing was written to. */
  const ERASED := View(Slots(Held(0, DeviceTuple("", "", ContractPolicy.NotAnObject)), None), Local, true)

  /** A host that holds what it was built with, a device at its first power-on, and an object just created. */
  function Start(spec: Release, host: Held<HostTuple>, flashed: Option<string>): Sys
  {
    var built := BuiltIn(host);
    Sys(Version(spec, BLANK), {Version(spec, BLANK)}, None, Slots(built, None), Started(ERASED, true, flashed),
        {}, {}, {}, {}, {}, {}, {spec}, map[built.generation := built.tuple], map[], {built.generation}, true, true)
  }

  // ------------------------------------------------- what every step keeps

  /** An operator may still show this function when the device reports r, whose identity is blank: the bootstrap's or an older release's. */
  ghost predicate Shown(published: set<Release>, r: Release, identity: string) {
    || identity == "basic-edge-demo"
    || exists p :: p in published && ValidRelease(p) && p.generation < r.generation && Trim(p.tuple.identity) == identity
  }

  /**
   The device would take one and the host the other for the same generation and function; a blank identity
   passes for one that may still be shown, as a report does not carry it.
   */
  ghost predicate SameFunction(published: set<Release>, r: Release, q: Release) {
    && r.generation == q.generation && ValidRelease(r) && AcceptableUpload(q)
    && (Trim(r.tuple.identity) == Trim(q.tuple.identity)
        || (Trim(r.tuple.identity) == "" && Shown(published, r, Trim(q.tuple.identity))))
  }

  /** The releases published for one generation and function carry the same bytes. */
  ghost predicate OneDigestPerFunction(published: set<Release>) {
    forall r, q :: r in published && q in published && SameFunction(published, r, q) ==> r.tuple.digest == q.tuple.digest
  }

  /** Observed digests can be trusted, or do not matter. */
  ghost predicate Exact(s: Sys) {
    s.allExact || OneDigestPerFunction(s.published)
  }

  ghost predicate HostLedger(s: Sys) {
    && WellOrdered(s.host)
    && (forall g :: g in s.hostBound ==> g <= Top(s.host) && Named(s.hostBound[g].identity))
    && BoundOnHost(s, s.host.active)
    && (s.host.staged.Some? ==> BoundOnHost(s, s.host.staged.value))
    && s.host.active.generation in s.hostWasActive
    && (forall g :: g in s.hostWasActive ==> g <= s.host.active.generation)
  }

  /** The host holds identities trimmed and not empty. */
  predicate Named(identity: string) {
    Trim(identity) == identity != ""
  }

  ghost predicate BoundOnHost(s: Sys, h: Held<HostTuple>) {
    h.generation in s.hostBound && s.hostBound[h.generation] == h.tuple
  }

  ghost predicate DeviceLedger(s: Sys) {
    && WellOrdered(s.device.slots) && (s.device.slots.active.generation >= 1 || Unreleased(s.device.slots.active))
    && (forall g :: g in s.deviceBound ==>
          1 <= g <= Top(s.device.slots) && s.deviceBound[g] in s.published && s.deviceBound[g].generation == g && ValidRelease(s.deviceBound[g]))
    && (s.device.slots.active.generation >= 1 ==> BoundOnDevice(s, s.device.slots.active))
    && (s.device.slots.staged.Some? ==> BoundOnDevice(s, s.device.slots.staged.value))
  }

  /** No release yet: nothing at all, or what the firmware makes of that. */
  predicate Unreleased(r: Release) {
    r.generation == 0 && (r.tuple.identity == "" || r.tuple.identity == "basic-edge-demo")
  }

  ghost predicate BoundOnDevice(s: Sys, r: Release) {
    r.generation in s.deviceBound && s.deviceBound[r.generation] == r
  }

  /** Host and device have bound the generation to the same digest, unless the device is past it, and the host has run it. */
  ghost predicate SafeAtEdge(s: Sys, g: int) {
    && g in s.hostBound && g in s.deviceBound && g in s.hostWasActive && PublishedAs(s, g, s.hostBound[g])
    && (Exact(s) ==> s.hostBound[g].digest == s.deviceBound[g].tuple.digest || s.device.slots.active.generation > g)
  }

  /** A release was published that the host would store as this tuple. */
  ghost predicate PublishedAs(s: Sys, g: int, t: HostTuple) {
    exists q :: q in s.published && AcceptableUpload(q) && HostOf(q) == Held(g, t)
  }

  ghost predicate CommandOk(s: Sys, c: Command) {
    match c
    case StageRelease(_, _, r) => r in s.published
    case Activate(_, g, mode) => c == SetMode(g, mode) && g >= 1 && g in s.deviceBound && (mode == Edge ==> SafeAtEdge(s, g))
  }

  /** The host is asked to activate only what the device has been staged with, and with the same digest, unless the device is past it. */
  ghost predicate ActivationOk(s: Sys, g: int) {
    && g in s.hostBound && g in s.deviceBound
    && (Exact(s) ==> s.hostBound[g].digest == s.deviceBound[g].tuple.digest || s.device.slots.active.generation > g)
  }

  /** The status shows the identity, unless the identity is blank. */
  predicate Reported(identity: string, shown: string) {
    Trim(identity) != "" ==> shown == Trim(identity)
  }

  /** The function a status shows is none, the bootstrap's, or that of a release which has been active. */
  ghost predicate Seen(s: Sys, shown: string) {
    || shown == "" || shown == "basic-edge-demo"
    || exists g :: g in s.deviceBound && g <= s.device.slots.active.generation && Trim(s.deviceBound[g].tuple.identity) == shown
  }

  ghost predicate StatusOk(s: Sys, st: Status) {
    && (st.stagedGeneration >= 1 ==>
          st.stagedGeneration in s.deviceBound && s.deviceBound[st.stagedGeneration].tuple.digest == st.stagedDigest)
    && (st.activeGeneration >= 1 ==>
          st.activeGeneration in s.deviceBound && Reported(s.deviceBound[st.activeGeneration].tuple.identity, st.activeIdentity)
          && (s.allExact ==> s.deviceBound[st.activeGeneration].tuple.digest == st.activeDigest))
    && Seen(s, st.activeIdentity)
  }

  ghost predicate VersionOk(s: Sys, v: Version) {
    v.spec in s.published && StatusOk(s, v.status)
  }

  ghost predicate ReportOk(s: Sys, t: Report) {
    && (if t.slots.active.generation >= 1
        then BoundOnDevice(s, t.slots.active) && ValidRelease(t.slots.active)
             && t.slots.active.generation <= s.device.slots.active.generation
        else Unreleased(t.slots.active))
    && (t.slots.staged.Some? ==> BoundOnDevice(s, t.slots.staged.value))
    && (s.allExact ==> ExactReport(t))
  }

  /** A release the operator believes to be on the host was bound there, under an equivalent identity. */
  ghost predicate KnownOk(s: Sys, known: Option<Held<HostTuple>>) {
    known.Some? ==>
      && known.value.generation in s.hostBound
      && s.hostBound[known.value.generation].digest == known.value.tuple.digest
      && s.hostBound[known.value.generation].identity == Trim(known.value.tuple.identity)
  }

  ghost predicate SessionOk(s: Sys, now: Session) {
    && VersionOk(s, now.version) && KnownOk(s, now.active) && KnownOk(s, now.staged)
    && (now.active.Some? ==> now.active.value.generation in s.hostWasActive)
  }

  ghost predicate AckOk(s: Sys, r: Release) {
    BoundOnHost(s, HostOf(r))
  }

  ghost predicate Inv(s: Sys) {
    && HostLedger(s) && DeviceLedger(s)
    && (forall c :: c in s.commands ==> CommandOk(s, c))
    && (forall v :: v in s.versions ==> VersionOk(s, v))
    && VersionOk(s, s.current)
    && (forall t :: t in s.reports ==> ReportOk(s, t))
    && (s.session.Some? ==> SessionOk(s, s.session.value))
    && (forall r :: r in s.uploads ==> r in s.published)
    && (forall r :: r in s.uploadAcks ==> AckOk(s, r))
    && (forall g :: g in s.activations ==> ActivationOk(s, g))
    && (forall g :: g in s.activationAcks ==> g in s.hostWasActive)
    && ModeWasCommanded(s)
  }

  /** What never shrinks: bindings, publications and activations; what never recovers: trust in reports. */
  ghost predicate Grows(s: Sys, s': Sys) {
    && (forall g :: g in s.hostBound ==> g in s'.hostBound && s'.hostBound[g] == s.hostBound[g])
    && (forall g :: g in s.deviceBound ==> g in s'.deviceBound && s'.deviceBound[g] == s.deviceBound[g])
    && s.published <= s'.published && s.hostWasActive <= s'.hostWasActive
    && s.device.slots.active.generation <= s'.device.slots.active.generation
    && (s'.allExact ==> s.allExact)
  }

  lemma FactsLast(s: Sys, s': Sys)
    requires Grows(s, s')
    ensures Exact(s') ==> Exact(s)
    ensures forall c :: CommandOk(s, c) ==> CommandOk(s', c)
    ensures forall v :: VersionOk(s, v) ==> VersionOk(s', v)
    ensures forall t :: ReportOk(s, t) ==> ReportOk(s', t)
    ensures forall now :: SessionOk(s, now) ==> SessionOk(s', now)
    ensures forall r :: AckOk(s, r) ==> AckOk(s', r)
    ensures forall g :: ActivationOk(s, g) ==> ActivationOk(s', g)
  {
  }

  /** A step keeps the invariant when nothing bound is lost and whatever it adds to a channel is right. */
  lemma AdditionsKeepInv(s: Sys, s': Sys)
    requires Inv(s) && Grows(s, s') && HostLedger(s') && DeviceLedger(s')
    requires forall c :: c in s'.commands ==> c in s.commands || CommandOk(s', c)
    requires forall v :: v in s'.versions ==> v in s.versions || VersionOk(s', v)
    requires s'.current == s.current || VersionOk(s', s'.current)
    requires forall t :: t in s'.reports ==> t in s.reports || ReportOk(s', t)
    requires s'.session == s.session || (s'.session.Some? && SessionOk(s', s'.session.value))
    requires forall r :: r in s'.uploads ==> r in s.uploads || r in s'.published
    requires forall r :: r in s'.uploadAcks ==> r in s.uploadAcks || AckOk(s', r)
    requires forall g :: g in s'.activations ==> g in s.activations || ActivationOk(s', g)
    requires forall g :: g in s'.activationAcks ==> g in s.activationAcks || g in s'.hostWasActive
    requires s.commands <= s'.commands
    requires ModeWasCommanded(s')
    ensures Inv(s')
  {
    FactsLast(s, s');
    hide HostLedger, DeviceLedger, CommandOk, VersionOk, ReportOk, SessionOk, AckOk, ActivationOk, Grows;
  }

  /** What a probe reports is bound on the host. */
  lemma HostIsKnown(s: Sys)
    requires HostLedger(s)
    ensures KnownOk(s, Some(s.host.active)) && KnownOk(s, s.host.staged)
    ensures s.host.active.generation in s.hostWasActive
  {
    hide Trim;
  }

  /** A release that looks ready on the device and active on the host can be commanded to the edge. */
  lemma ReadyAndActiveIsSafe(s: Sys, now: Session)
    requires HostLedger(s) && DeviceLedger(s) && SessionOk(s, now) && now.version.spec.generation >= 1
    requires DeviceReady(now.version) && HostMatches(now.active, now.version.spec) && |now.version.spec.tuple.digest| == 64
    ensures SafeAtEdge(s, now.version.spec.generation)
  {
    hide Trim, ValidRelease;
    var g, spec := now.version.spec.generation, now.version.spec;
    TrimTwice(s.deviceBound[g].tuple.identity);
    assert AcceptableUpload(spec) && HostOf(spec) == Held(g, s.hostBound[g]);
    assert PublishedAs(s, g, s.hostBound[g]);
    if Exact(s) {
      ReadyDigestAgrees(s, now, now.active);
    }
  }

  lemma ReadyDigestAgrees(s: Sys, now: Session, known: Option<Held<HostTuple>>)
    requires DeviceLedger(s) && SessionOk(s, now) && Exact(s) && now.version.spec.generation >= 1
    requires DeviceReady(now.version) && HostMatches(known, now.version.spec) && KnownOk(s, known) && AcceptableUpload(now.version.spec)
    ensures var g := now.version.spec.generation;
            && g in s.hostBound && g in s.deviceBound
            && (s.hostBound[g].digest == s.deviceBound[g].tuple.digest || s.device.slots.active.generation > g)
  {
    var g := now.version.spec.generation;
    hide Trim, ValidRelease, AcceptableUpload, OneDigestPerFunction, Seen, SameFunction;
    var r, q, shown := s.deviceBound[g], now.version.spec, now.version.status.activeIdentity;
    TrimTwice(r.tuple.identity);
    if !s.allExact && now.version.status.activeGeneration == g && r.tuple.digest != q.tuple.digest
       && Trim(shown) == Trim(q.tuple.identity)
    {
      SeenIsShown(s, r, q, shown);
      if s.device.slots.active.generation <= g {
        OneDigest(s.published, r, q);
      }
    }
  }

  lemma OneDigest(published: set<Release>, r: Release, q: Release)
    requires OneDigestPerFunction(published) && r in published && q in published && SameFunction(published, r, q)
    ensures r.tuple.digest == q.tuple.digest
  {
    hide SameFunction;
  }

  /** What the operator takes for the function of the release that the device reports active. */
  lemma SeenIsShown(s: Sys, r: Release, q: Release, shown: string)
    requires DeviceLedger(s) && BoundOnDevice(s, r) && Seen(s, shown) && Reported(r.tuple.identity, shown)
    requires AcceptableUpload(q) && r.generation == q.generation && Trim(shown) == Trim(q.tuple.identity)
    ensures SameFunction(s.published, r, q) || s.device.slots.active.generation > r.generation
  {
    TrimTwice(r.tuple.identity);
    BootstrapIdentity();
    hide Trim, ValidRelease;
    if Trim(r.tuple.identity) == "" && shown != "" && shown != "basic-edge-demo" {
      var g :| g in s.deviceBound && g <= s.device.slots.active.generation && Trim(s.deviceBound[g].tuple.identity) == shown;
      TrimTwice(s.deviceBound[g].tuple.identity);
    }
  }

  lemma BootstrapIdentity()
    ensures Trim("basic-edge-demo") == "basic-edge-demo" && Trim("") == ""
  {
    var identity := "basic-edge-demo";
    assert !IsSpace(identity[0]) && !IsSpace(identity[|identity| - 1]);
    hide IsSpace;
  }

  /** An operator's step uploads what was published, and touches neither host nor device. */
  lemma OperatorTouchesNoComponent(s: Sys, e: Event)
    requires s.session.Some? && s.session.value.version.spec in s.published
    ensures var s' := OperatorStep(s, e);
            && s' == s.(session := s'.session, uploads := s'.uploads, activations := s'.activations, commands := s'.commands)
            && s.commands <= s'.commands
            && (forall r :: r in s'.uploads ==> r in s.uploads || r in s.published)
  {
    hide DeviceReady, HostMatches;
  }

  /** A release that looks ready on the device and staged on the host can be activated there. */
  lemma ReadyAndStagedIsOk(s: Sys, now: Session)
    requires HostLedger(s) && DeviceLedger(s) && SessionOk(s, now) && now.version.spec.generation >= 1
    requires DeviceReady(now.version) && HostMatches(now.staged, now.version.spec) && |now.version.spec.tuple.digest| == 64
    ensures ActivationOk(s, now.version.spec.generation)
  {
    hide Trim, ValidRelease;
    var g, spec := now.version.spec.generation, now.version.spec;
    TrimTwice(s.deviceBound[g].tuple.identity);
    assert AcceptableUpload(spec);
    if Exact(s) {
      ReadyDigestAgrees(s, now, now.staged);
    }
  }

  /** Every activation an operator's step asks the host for is right. */
  lemma OperatorActivatesWhatIsOk(s: Sys, e: Event)
    requires Inv(s) && s.session.Some?
    ensures forall g :: g in OperatorStep(s, e).activations ==> g in s.activations || ActivationOk(s, g)
  {
    var now := s.session.value;
    if e == SendHostActivation && now.version.spec.generation >= 1 && |now.version.spec.tuple.digest| == 64
       && DeviceReady(now.version) && HostMatches(now.staged, now.version.spec)
    {
      ReadyAndStagedIsOk(s, now);
    }
    hide Inv, SessionOk, ActivationOk, DeviceReady, HostMatches;
  }

  /** Every command an operator's step sends is right. */
  lemma OperatorSendsWhatIsOk(s: Sys, e: Event)
    requires Inv(s) && s.session.Some?
    ensures forall c :: c in OperatorStep(s, e).commands ==> c in s.commands || CommandOk(s, c)
  {
    var now := s.session.value;
    assert now.version.spec in s.published;
    if e == SendMode(Edge) && now.version.spec.generation >= 1 && |now.version.spec.tuple.digest| == 64 && DeviceReady(now.version) && HostMatches(now.active, now.version.spec) {
      ReadyAndActiveIsSafe(s, now);
    }
    hide Inv, SessionOk, SafeAtEdge, DeviceReady, HostMatches;
  }

  /** What a session learns about the host is right. */
  lemma OperatorLearnsWhatIsOk(s: Sys, e: Event)
    requires Inv(s) && s.session.Some?
    ensures var s' := OperatorStep(s, e); s'.session.Some? && SessionOk(s, s'.session.value)
  {
    HostIsKnown(s);
    hide HostLedger, DeviceLedger, CommandOk, VersionOk, Trim, DeviceReady, ReportOk;
  }

  lemma OperatorKeepsInv(s: Sys, e: Event)
    requires Inv(s) && s.session.Some?
    ensures Inv(OperatorStep(s, e)) && Grows(s, OperatorStep(s, e))
  {
    var s' := OperatorStep(s, e);
    OperatorTouchesNoComponent(s, e);
    OperatorSendsWhatIsOk(s, e);
    OperatorActivatesWhatIsOk(s, e);
    OperatorLearnsWhatIsOk(s, e);
    hide OperatorStep, Trim, ValidRelease, AcceptableUpload;
    LedgersIgnoreTheOperator(s, s');
    FactsLast(s, s');
    AdditionsKeepInv(s, s') by {
      hide HostLedger, DeviceLedger, CommandOk, SessionOk;
    }
  }

  lemma LedgersIgnoreTheOperator(s: Sys, s': Sys)
    requires HostLedger(s) && DeviceLedger(s)
    requires s' == s.(session := s'.session, uploads := s'.uploads, activations := s'.activations, commands := s'.commands)
    ensures HostLedger(s') && DeviceLedger(s') && Grows(s, s')
  {
    hide ValidRelease, HostOf, AcceptableUpload;
  }

  lemma HostUploadKeepsLedger(s: Sys, r: Release, stored: bool)
    requires HostLedger(s) && (r in s.uploads ==> r in s.published)
    ensures var s' := HostStep(s, HostUpload(r, stored));
            && HostLedger(s') && Grows(s, s')
            && s' == s.(host := s'.host, hostBound := s'.hostBound, uploadAcks := s'.uploadAcks)
            && (forall q :: q in s'.uploadAcks ==> q in s.uploadAcks || AckOk(s', q))
  {
    TrimTwice(r.tuple.identity);
    hide Trim;
  }

  lemma HostActivateKeepsLedger(s: Sys, g: int, moved: bool)
    requires HostLedger(s)
    ensures var s' := HostStep(s, HostActivate(g, moved));
            && HostLedger(s') && Grows(s, s')
            && s' == s.(host := s'.host, activationAcks := s'.activationAcks, hostWasActive := s'.hostWasActive)
            && (forall q :: q in s'.activationAcks ==> q in s.activationAcks || q in s'.hostWasActive)
  {
    hide Named, AcceptableUpload;
    if s.host.staged.Some? && s.host.staged.value.generation == g {
      PromotionKeepsLedger(s, g);
    }
    hide HostLedger;
    AcksIgnoreTheLedger(s, g);
  }

  lemma PromotionKeepsLedger(s: Sys, g: int)
    requires HostLedger(s) && s.host.staged.Some? && s.host.staged.value.generation == g
    ensures HostLedger(s.(host := Promote(s.host), activationAcks := s.activationAcks + {g}, hostWasActive := s.hostWasActive + {g}))
  {
    hide Named;
  }

  lemma AcksIgnoreTheLedger(s: Sys, g: int)
    requires HostLedger(s)
    ensures HostLedger(s.(activationAcks := s.activationAcks + {g}))
    ensures s.host.active.generation in s.hostWasActive
  {
    hide Named;
  }

  lemma HostKeepsInv(s: Sys, e: Event)
    requires Inv(s) && (e.HostUpload? || e.HostActivate?)
    ensures Inv(HostStep(s, e)) && Grows(s, HostStep(s, e))
  {
    hide HostStep;
    if e.HostUpload? {
      HostUploadKeepsLedger(s, e.release, e.stored);
    } else {
      HostActivateKeepsLedger(s, e.hostGeneration, e.moved);
    }
    AdditionsKeepInv(s, HostStep(s, e)) by {
      hide HostLedger, Grows, AckOk;
    }
  }

  /** A device on the edge runs a generation it was commanded to the edge with. */
  ghost predicate ModeWasCommanded(s: Sys) {
    s.noModeLost && OnEdge(s.device) && s.device.slots.active.generation >= 1 ==>
      SetMode(s.device.slots.active.generation, Edge) in s.commands
  }

  lemma DeviceStageKeepsLedger(s: Sys, c: Command, modeWritten: bool, commandWritten: bool)
    requires DeviceLedger(s) && ModeWasCommanded(s) && c.StageRelease? && (c in s.commands ==> c.release in s.published)
    ensures var s' := DeviceStep(s, DeviceApply(c, modeWritten, commandWritten));
            && DeviceLedger(s') && Grows(s, s') && ModeWasCommanded(s')
            && s' == s.(device := s'.device, deviceBound := s'.deviceBound)
  {
    hide ValidRelease;
  }

  lemma DeviceActivateKeepsLedger(s: Sys, c: Command, modeWritten: bool, commandWritten: bool)
    requires DeviceLedger(s) && ModeWasCommanded(s) && c.Activate? && (c in s.commands ==> c == SetMode(c.generation, c.mode))
    ensures var s' := DeviceStep(s, DeviceApply(c, modeWritten, commandWritten));
            && DeviceLedger(s') && Grows(s, s') && ModeWasCommanded(s')
            && s' == s.(device := s'.device, noModeLost := s'.noModeLost)
  {
    hide ValidRelease;
  }

  lemma DeviceStartKeepsLedger(s: Sys, powerOn: bool, flashed: Option<string>)
    requires DeviceLedger(s) && ModeWasCommanded(s)
    ensures var s' := DeviceStep(s, DeviceStart(powerOn, flashed));
            && DeviceLedger(s') && Grows(s, s') && ModeWasCommanded(s')
            && s' == s.(device := s'.device)
  {
  }

  lemma DeviceReportKeepsLedger(s: Sys, digest: Option<string>)
    requires HostLedger(s) && DeviceLedger(s) && ModeWasCommanded(s)
    ensures var s' := DeviceStep(s, ReportState(digest));
            && HostLedger(s') && DeviceLedger(s') && Grows(s, s') && ModeWasCommanded(s')
            && (forall t :: t in s'.reports ==> t in s.reports || ReportOk(s', t))
            && s' == s.(reports := s'.reports, allExact := s'.allExact)
  {
    hide ValidRelease, Trim, AcceptableUpload;
  }

  lemma HostLedgerIgnoresTheDevice(s: Sys, s': Sys)
    requires HostLedger(s)
    requires s' == s.(device := s'.device, deviceBound := s'.deviceBound, noModeLost := s'.noModeLost)
    ensures HostLedger(s')
  {
    hide AcceptableUpload, HostOf;
  }

  lemma DeviceKeepsInv(s: Sys, e: Event)
    requires Inv(s) && (e.DeviceApply? || e.ReportState? || e.DeviceStart?)
    ensures Inv(DeviceStep(s, e)) && Grows(s, DeviceStep(s, e))
  {
    hide DeviceStep, HostLedger, DeviceLedger, Grows, ReportOk, SafeAtEdge;
    var s' := DeviceStep(s, e);
    if e.ReportState? {
      DeviceReportKeepsLedger(s, e.digest);
    } else {
      if e.DeviceStart? {
        DeviceStartKeepsLedger(s, e.powerOn, e.flashed);
      } else if e.command.StageRelease? {
        DeviceStageKeepsLedger(s, e.command, e.modeWritten, e.commandWritten);
      } else {
        DeviceActivateKeepsLedger(s, e.command, e.modeWritten, e.commandWritten);
      }
      HostLedgerIgnoresTheDevice(s, s');
    }
    AdditionsKeepInv(s, s');
  }

  lemma NewVersionKeepsInv(s: Sys, v: Version)
    requires Inv(s) && StatusOk(s, v.status)
    ensures Inv(NewVersion(s, v)) && Grows(s, NewVersion(s, v))
  {
    hide ValidRelease, Trim;
    AdditionsKeepInv(s, NewVersion(s, v));
  }

  lemma NextKeepsInv(s: Sys, e: Event)
    requires Inv(s)
    ensures Inv(Next(s, e)) && Grows(s, Next(s, e))
  {
    hide OperatorStep, HostStep, DeviceStep, NewVersion, HostLedger, DeviceLedger, CommandOk, ReportOk, SessionOk, AckOk;
    match e
    case Edit(spec) => NewVersionKeepsInv(s, s.current.(spec := spec));
    case Observe(t) =>
      if t in s.reports {
        ObservationIsOk(s, s.current.status, t);
        NewVersionKeepsInv(s, s.current.(status := Observed(s.current.status, t)));
      }
    case Begin(v) => BeginKeepsInv(s, v);
    case HostUpload(_, _) => HostKeepsInv(s, e);
    case HostActivate(_, _) => HostKeepsInv(s, e);
    case DeviceApply(_, _, _) => DeviceKeepsInv(s, e);
    case ReportState(_) => DeviceKeepsInv(s, e);
    case DeviceStart(_, _) => DeviceKeepsInv(s, e);
    case _ => if s.session.Some? { OperatorKeepsInv(s, e); }
  }

  lemma ObservationIsOk(s: Sys, st: Status, t: Report)
    requires StatusOk(s, st) && ReportOk(s, t)
    ensures StatusOk(s, Observed(st, t))
  {
    BootstrapIdentity();
    hide Trim;
  }

  lemma BeginKeepsInv(s: Sys, v: Version)
    requires Inv(s)
    ensures Inv(Next(s, Begin(v))) && Grows(s, Next(s, Begin(v)))
  {
    hide HostLedger, DeviceLedger, CommandOk, ReportOk, AckOk;
    AdditionsKeepInv(s, Next(s, Begin(v))) by {
      LedgersIgnoreTheOperator(s, Next(s, Begin(v)));
    }
  }

  /** Every state that any interleaving reaches satisfies the invariant, and keeps every binding made before. */
  lemma {:induction false} RunKeepsInv(s: Sys, events: seq<Event>)
    requires Inv(s)
    ensures Inv(Run(s, events)) && Grows(s, Run(s, events))
    decreases |events|
  {
    hide Inv, Grows, Next;
    if events == [] {
      GrowsToItself(s);
    } else {
      NextKeepsInv(s, events[0]);
      RunKeepsInv(Next(s, events[0]), events[1..]);
      GrowsOn(s, Next(s, events[0]), Run(s, events));
    }
  }

  lemma GrowsToItself(s: Sys)
    ensures Grows(s, s)
  {
  }

  lemma GrowsOn(s: Sys, s': Sys, s'': Sys)
    requires Grows(s, s') && Grows(s', s'')
    ensures Grows(s, s'')
  {
  }

  lemma StartKeepsInv(spec: Release, host: Held<HostTuple>, flashed: Option<string>)
    ensures Inv(Start(spec, host, flashed))
  {
    BuiltInIsNamed(host);
    hide Trim, ValidRelease, BuiltIn;
  }

  /** A host keeps its configured identity, trimmed, and has a default for a blank one. */
  lemma BuiltInIdentity(host: Held<HostTuple>)
    ensures var identity := BuiltIn(host).tuple.identity;
            identity == "dht-reader" || (identity == Trim(host.tuple.identity) != "")
    ensures Trim(host.tuple.identity) != "" ==> BuiltIn(host).tuple.identity == Trim(host.tuple.identity)
  {
    hide Trim;
  }

  lemma BuiltInIsNamed(host: Held<HostTuple>)
    ensures Named(BuiltIn(host).tuple.identity)
  {
    TrimTwice(host.tuple.identity);
    var fallback := "dht-reader";
    assert !IsSpace(fallback[0]) && !IsSpace(fallback[|fallback| - 1]);
    hide IsSpace;
  }

  // ------------------------------------------------- safety of edge mode

  /**
   In every reachable state, unless the device stayed on the edge through a change to a local release, the host
   is at least as new as a device on the edge; and when both are at the same generation their digests agree.
   */
  lemma HostSupportsEdgeDevice(spec: Release, host: Held<HostTuple>, flashed: Option<string>, events: seq<Event>)
    ensures var s := Run(Start(spec, host, flashed), events);
            s.noModeLost && OnEdge(s.device) && s.device.slots.active.generation >= 1 ==>
              && s.host.active.generation >= s.device.slots.active.generation
              && (s.host.active.generation == s.device.slots.active.generation && Exact(s) ==>
                    s.host.active.tuple.digest == s.device.slots.active.tuple.digest)
  {
    StartKeepsInv(spec, host, flashed);
    RunKeepsInv(Start(spec, host, flashed), events);
    hide Run, Start, Inv, Exact;
    var s := Run(Start(spec, host, flashed), events);
    if s.noModeLost && OnEdge(s.device) && s.device.slots.active.generation >= 1 {
      EdgeDeviceIsSupported(s);
    }
  }

  lemma EdgeDeviceIsSupported(s: Sys)
    requires Inv(s) && s.noModeLost && OnEdge(s.device) && s.device.slots.active.generation >= 1
    ensures s.host.active.generation >= s.device.slots.active.generation
    ensures SafeAtEdge(s, s.device.slots.active.generation)
    ensures BoundOnDevice(s, s.device.slots.active) && ValidRelease(s.device.slots.active)
    ensures BoundOnHost(s, s.host.active)
    ensures s.host.active.generation == s.device.slots.active.generation && Exact(s) ==>
              s.host.active.tuple.digest == s.device.slots.active.tuple.digest
  {
    var g := s.device.slots.active.generation;
    assert CommandOk(s, SetMode(g, Edge));
    hide Trim, ValidRelease, Exact, PublishedAs;
  }

  /** The host was active at a generation before the operator commanded edge mode for it, and never went back. */
  lemma EdgeCommandFollowsHostActivation(spec: Release, host: Held<HostTuple>, flashed: Option<string>,
                                         events: seq<Event>, g: int)
    requires SetMode(g, Edge) in Run(Start(spec, host, flashed), events).commands
    ensures g <= Run(Start(spec, host, flashed), events).host.active.generation
    ensures exists k :: 0 <= k <= |events| && Run(Start(spec, host, flashed), events[..k]).host.active.generation == g
  {
    hide Inv, Next, Run, Start, Grows;
    var start := Start(spec, host, flashed);
    OnlyTheBuiltInWasActive(spec, host, flashed);
    StartKeepsInv(spec, host, flashed);
    RunKeepsInv(start, events);
    CommandedWasActive(Run(start, events), g);
    ActivatedDuringRun(start, events, g);
  }

  lemma OnlyTheBuiltInWasActive(spec: Release, host: Held<HostTuple>, flashed: Option<string>)
    ensures var s := Start(spec, host, flashed); forall g :: g in s.hostWasActive ==> s.host.active.generation == g
  {
    hide Trim;
  }

  lemma CommandedWasActive(s: Sys, g: int)
    requires Inv(s) && SetMode(g, Edge) in s.commands
    ensures g in s.hostWasActive && g <= s.host.active.generation
  {
    assert CommandOk(s, SetMode(g, Edge));
  }

  lemma {:induction false} ActivatedDuringRun(s: Sys, events: seq<Event>, g: int)
    requires g in Run(s, events).hostWasActive && (g in s.hostWasActive ==> s.host.active.generation == g)
    ensures exists k :: 0 <= k <= |events| && Run(s, events[..k]).host.active.generation == g
    decreases |events|
  {
    hide Next;
    if g in s.hostWasActive {
      assert Run(s, events[..0]) == s;
    } else {
      var next, rest := Next(s, events[0]), events[1..];
      NextActivates(s, events[0], g);
      ActivatedDuringRun(next, rest, g);
      var k :| 0 <= k <= |rest| && Run(next, rest[..k]).host.active.generation == g;
      assert events[..k + 1][1..] == rest[..k];
      assert Run(s, events[..k + 1]) == Run(next, rest[..k]);
    }
  }

  lemma NextActivates(s: Sys, e: Event, g: int)
    ensures g in Next(s, e).hostWasActive && g !in s.hostWasActive ==> Next(s, e).host.active.generation == g
  {
    hide HostMatches, DeviceReady, Observed, AcceptableUpload;
  }

  // ------------------------------------------------- what is sent, repeated and lost

  /** What a report leaves out stays as it was shown, and a slot it reports empty is shown empty. */
  lemma MissingFieldsKeepTheOld(st: Status, t: Report)
    ensures t.digest in {None, Some("")} ==> Observed(st, t).activeDigest == st.activeDigest
    ensures Trim(t.slots.active.tuple.identity) == "" ==> Observed(st, t).activeIdentity == st.activeIdentity
    ensures t.slots.staged == None ==> Observed(st, t).stagedGeneration == 0 && Observed(st, t).stagedDigest == ""
  {
    hide Trim;
  }

  /** An operator that finds a release where it belongs sends nothing more to get it there. */
  lemma NothingIsSentInVain(s: Sys, e: Event)
    requires s.session.Some?
    ensures var now, s' := s.session.value, OperatorStep(s, e);
            var spec := now.version.spec;
            && (!now.probed || HostMatches(now.active, spec) || HostMatches(now.staged, spec) ==> s'.uploads == s.uploads)
            && (HostMatches(now.active, spec) || !HostMatches(now.staged, spec) || !DeviceReady(now.version) ==> s'.activations == s.activations)
            && (DeviceReady(now.version) ==> forall c :: c in s'.commands && c !in s.commands ==> c.Activate?)
            && (!DeviceReady(now.version) ==> forall c :: c in s'.commands && c !in s.commands ==> c == StageOf(spec))
  {
    hide DeviceReady, HostMatches;
  }

  /** The flag falls only when a release change leaves the device on the edge. */
  lemma ModeIsLostByAReleaseChange(s: Sys, e: Event)
    requires s.noModeLost && !Next(s, e).noModeLost
    ensures e.DeviceApply? && e.command.Activate? && e.command.mode == Local && OnEdge(Next(s, e).device)
    ensures Next(s, e).device.slots != s.device.slots
  {
    hide HostMatches, DeviceReady, Observed, AcceptableUpload, HostOf, Effect, Started;
  }

  /** A request whose file operations fail leaves the host as it was. */
  lemma FailedRequestsChangeNothing(s: Sys, r: Release, g: int)
    ensures HostStep(s, HostUpload(r, false)).host == s.host && HostStep(s, HostActivate(g, false)).host == s.host
    ensures GenerationVerdict(s.host, HostOf(r)) == StagedNow ==> HostStep(s, HostUpload(r, false)) == s
    ensures g != s.host.active.generation ==> HostStep(s, HostActivate(g, false)) == s
  {
    hide AcceptableUpload, HostOf;
  }

  /** A repeated request is acknowledged again, as long as what it asks for is still so. */
  lemma RepeatedRequestsAreAcknowledged(s: Sys, r: Release, g: int, ok: bool)
    requires WellOrdered(s.host)
    ensures r in s.uploads && AcceptableUpload(r) && Holds(s.host, HostOf(r)) && r.generation == Top(s.host) ==>
              r in HostStep(s, HostUpload(r, ok)).uploadAcks && HostStep(s, HostUpload(r, ok)).host == s.host
    ensures g in s.activations && g == s.host.active.generation ==>
              g in HostStep(s, HostActivate(g, ok)).activationAcks && HostStep(s, HostActivate(g, ok)).host == s.host
  {
    VerdictIsFreshness(s.host, HostOf(r));
    hide AcceptableUpload, GenerationVerdict, Trim;
  }

  // ------------------------------------------------- the host follows the device

  /** A generation becomes active on the host only when the operator asked for it. */
  lemma NextActivatesWhatIsOk(s: Sys, e: Event, g: int)
    requires Inv(s) && g in Next(s, e).hostWasActive && g !in s.hostWasActive
    ensures ActivationOk(s, g)
  {
    if !e.HostActivate? {
      OthersActivateNothing(s, e);
    }
    hide OperatorStep, DeviceStep, Observed, ActivationOk, AcceptableUpload, HostLedger, DeviceLedger, CommandOk, VersionOk, ReportOk, SessionOk, AckOk;
  }

  lemma OthersActivateNothing(s: Sys, e: Event)
    requires Inv(s) && !e.HostActivate?
    ensures Next(s, e).hostWasActive == s.hostWasActive
  {
    if s.session.Some? {
      OperatorTouchesNoComponent(s, e);
    }
    hide Inv, OperatorStep, Observed, AcceptableUpload, HostOf, Effect, Started, LosesMode, ValidRelease;
  }

  lemma ActivationStaysOk(s: Sys, s': Sys, g: int)
    requires ActivationOk(s, g) && Grows(s, s')
    ensures ActivationOk(s', g)
  {
    FactsLast(s, s');
    hide Exact;
  }

  lemma {:induction false} ActivatedWasOk(s: Sys, events: seq<Event>, g: int)
    requires Inv(s) && g in Run(s, events).hostWasActive && g !in s.hostWasActive
    ensures ActivationOk(Run(s, events), g)
    decreases |events|
  {
    hide Inv, Next, Grows, ActivationOk;
    var next, rest := Next(s, events[0]), events[1..];
    NextKeepsInv(s, events[0]);
    if g in next.hostWasActive {
      NextActivatesWhatIsOk(s, events[0], g);
      RunKeepsInv(s, events);
      ActivationStaysOk(s, Run(s, events), g);
    } else {
      ActivatedWasOk(next, rest, g);
    }
  }

  /** A generation is bound on the device by being staged there. */
  lemma NextBindsWhatIsStaged(s: Sys, e: Event, g: int)
    requires g in Next(s, e).deviceBound && g !in s.deviceBound
    ensures Next(s, e).device.slots.staged == Some(Next(s, e).deviceBound[g])
  {
    hide HostMatches, DeviceReady, Observed, AcceptableUpload, ValidRelease, LosesMode;
  }

  lemma {:induction false} BoundWasStaged(s: Sys, events: seq<Event>, g: int)
    requires Inv(s) && g in Run(s, events).deviceBound && g !in s.deviceBound
    ensures exists k :: 0 <= k <= |events| && Run(s, events[..k]).device.slots.staged == Some(Run(s, events).deviceBound[g])
    decreases |events|
  {
    hide Inv, Next, Grows;
    var next, rest := Next(s, events[0]), events[1..];
    NextKeepsInv(s, events[0]);
    if g in next.deviceBound {
      NextBindsWhatIsStaged(s, events[0], g);
      RunKeepsInv(next, rest);
      StaysBound(next, Run(next, rest), g);
      assert events[..1][0] == events[0] && events[..1][1..] == [];
      assert Run(s, events[..1]) == next;
    } else {
      BoundWasStaged(next, rest, g);
      var k :| 0 <= k <= |rest| && Run(next, rest[..k]).device.slots.staged == Some(Run(next, rest).deviceBound[g]);
      assert events[..k + 1][1..] == rest[..k];
      assert Run(s, events[..k + 1]) == Run(next, rest[..k]);
    }
  }

  lemma StaysBound(s: Sys, s': Sys, g: int)
    requires Grows(s, s') && g in s.deviceBound
    ensures g in s'.deviceBound && s'.deviceBound[g] == s.deviceBound[g]
  {
  }

  /**
   In every reachable state the host runs what it was built with, or a generation that the device has been staged with
   before; and with the same digest, unless the device has left that generation behind.
   */
  lemma HostFollowsTheDevice(spec: Release, host: Held<HostTuple>, flashed: Option<string>, events: seq<Event>)
    ensures var start := Start(spec, host, flashed); var s := Run(start, events); var h := s.host.active;
            h.generation == start.host.active.generation
            || exists k, r :: 0 <= k <= |events| && Run(start, events[..k]).device.slots.staged == Some(r) && r.generation == h.generation
                              && (Exact(s) ==> r.tuple.digest == h.tuple.digest || s.device.slots.active.generation > h.generation)
  {
    hide Run, Start, Inv, Exact, Grows;
    var start := Start(spec, host, flashed);
    var s := Run(start, events);
    var g := s.host.active.generation;
    StartKeepsInv(spec, host, flashed);
    RunKeepsInv(start, events);
    OnlyTheBuiltInWasActive(spec, host, flashed);
    if g != start.host.active.generation {
      ActiveWasActivated(s);
      ActivatedWasOk(start, events, g);
      NothingIsBound(spec, host, flashed);
      BoundWasStaged(start, events, g);
    }
  }

  lemma ActiveWasActivated(s: Sys)
    requires Inv(s)
    ensures s.host.active.generation in s.hostWasActive && BoundOnHost(s, s.host.active)
    ensures forall g :: g in s.deviceBound ==> s.deviceBound[g].generation == g
  {
    hide ValidRelease, CommandOk, VersionOk, ReportOk, SessionOk, AckOk, ActivationOk, Named;
  }

  lemma NothingIsBound(spec: Release, host: Held<HostTuple>, flashed: Option<string>)
    ensures Start(spec, host, flashed).deviceBound == map[]
  {
    hide Trim;
  }
}
