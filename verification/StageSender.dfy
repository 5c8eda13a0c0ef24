/**
 At-least-once sending of the stage command (claimReleaseStageAttempt, releaseStageRetryDelay and
 requeuePendingRelease in wasmfunction_controller.go). A reconcile decides from a possibly stale
 status snapshot and from what this process remembers sending. Times are in nanoseconds.
 */
module StageSender {
  import opened Common

  const SECOND := 1_000_000_000
  const RETRY_BASE := 30 * SECOND
  const RETRY_MAX := 60 * SECOND

  function RetryDelay(attempts: int): int {
    if attempts <= 1 then RETRY_BASE else RETRY_MAX
  }

  /** The doubling loop saturates at the second attempt. */
  method ComputeRetryDelay(attempts: int) returns (delay: int)
    ensures delay == RetryDelay(attempts)
  {
    var count := if attempts < 1 then 1 else attempts;
    delay := RETRY_BASE;
    var n := 1;
    while n < count && delay < RETRY_MAX
      invariant 1 <= n <= count
      invariant delay == if n == 1 then RETRY_BASE else RETRY_MAX
    {
      delay := delay * 2;
      if delay > RETRY_MAX {
        delay := RETRY_MAX;
      }
      n := n + 1;
    }
  }

  /** A send this process remembers. */
  datatype Send = Send(commandId: string, sentAt: int, attempts: int)

  /** The stage fields of a status snapshot. */
  datatype Snapshot = Snapshot(commandId: string, sentAt: Option<int>, attempts: int)

  /** The send a claim believes to be the last one of this command. */
  function LastSend(memory: Option<Send>, s: Snapshot, id: string): Option<Send>
  {
    var stored := if s.commandId == id && s.sentAt.Some? then Some(Send(id, s.sentAt.value, s.attempts)) else None;
    if memory.Some? && memory.value.commandId == id
       && (stored == None || memory.value.sentAt > stored.value.sentAt)
    then memory else stored
  }

  /** The attempt number a claim obtains, or None when it comes too early. */
  function Claim(memory: Option<Send>, s: Snapshot, id: string, now: int): Option<int>
  {
    var last := LastSend(memory, s, id);
    if last == None then Some(1)
    else
      var attempts := if last.value.attempts < 1 then 1 else last.value.attempts;
      if now < last.value.sentAt + RetryDelay(attempts) then None else Some(attempts + 1)
  }

  /** Of what memory and status say about the command, the later send decides: thirty seconds after a first one, sixty after any other, the next may go. */
  lemma LaterSendDecides(memory: Option<Send>, s: Snapshot, id: string, now: int)
    ensures var remembered := memory.Some? && memory.value.commandId == id;
            var stored := s.commandId == id && s.sentAt.Some?;
            var later := if remembered && (stored ==> memory.value.sentAt > s.sentAt.value) then memory.value
                         else if stored then Send(id, s.sentAt.value, s.attempts) else Send(id, 0, 0);
            var pause := if later.attempts <= 1 then 30 * SECOND else 60 * SECOND;
            Claim(memory, s, id, now) ==
              if !remembered && !stored then Some(1)
              else if now < later.sentAt + pause then None
              else Some(if later.attempts < 1 then 2 else later.attempts + 1)
  {
  }

  /** When a reconcile that awaits the acknowledgement asks to be woken. */
  function RequeueAt(s: Snapshot, now: int): int
  {
    if s.sentAt == None then now + SECOND
    else
      var retryAt := s.sentAt.value + RetryDelay(s.attempts);
      if retryAt - now <= 0 then now + SECOND else retryAt
  }

  // ------------------------------------------------- runs between two acknowledgements

  /**
   A stretch of time without an acknowledgement of the command: when it began, and what this process
   then remembered, which is never a send of the command.
   */
  datatype Epoch = Epoch(id: string, since: int, memory: Option<Send>)

  datatype Poll = Poll(snapshot: Snapshot, now: int)

  /** What this process remembers, the instants of all sends claimed in the epoch, and the attempt number of the first. */
  datatype Sender = Sender(memory: Option<Send>, claims: seq<int>, first: int)

  /** One reconcile that wants to send. */
  function Advance(e: Epoch, s: Sender, poll: Poll): Sender
  {
    match Claim(s.memory, poll.snapshot, e.id, poll.now)
    case None => s
    case Some(attempt) =>
      Sender(Some(Send(e.id, poll.now, attempt)), s.claims + [poll.now], if s.claims == [] then attempt else s.first)
  }

  function Run(e: Epoch, polls: seq<Poll>): Sender
  {
    if polls == [] then Sender(e.memory, [], 1)
    else Advance(e, Run(e, polls[..|polls| - 1]), polls[|polls| - 1])
  }

  /** The snapshot carries a send of this epoch, with an instant that serialization may have rounded down. */
  ghost predicate Current(s: Snapshot, sender: Sender) {
    s.sentAt.Some? &&
    exists i :: 0 <= i < |sender.claims| && s.attempts == sender.first + i && s.sentAt.value <= sender.claims[i]
  }

  /** The snapshot still carries a send from before the epoch, whatever attempts it shows since. */
  predicate Former(s: Snapshot, e: Epoch) {
    s.sentAt.Some? && s.sentAt.value < e.since
  }

  /** A snapshot some earlier reconcile could have stored: if it names the command it carries a send of this epoch or a former one. */
  ghost predicate Stored(s: Snapshot, e: Epoch, sender: Sender) {
    s.commandId == e.id && s.sentAt.Some? ==> Current(s, sender) || Former(s, e)
  }

  ghost predicate Plausible(e: Epoch, polls: seq<Poll>) {
    && (e.memory.Some? ==> e.memory.value.commandId != e.id)
    && (forall i :: 0 <= i < |polls| ==> Stored(polls[i].snapshot, e, Run(e, polls[..i])))
    && (forall i :: 0 <= i < |polls| ==> e.since <= polls[i].now)
    && (forall i, j :: 0 <= i < j < |polls| ==> polls[i].now <= polls[j].now)
  }

  /** Memory is always the latest send, and the sends keep their distance. */
  ghost predicate Spaced(e: Epoch, s: Sender) {
    && (if s.claims == [] then s.memory == e.memory
        else s.first >= 1 && s.memory == Some(Send(e.id, s.claims[|s.claims| - 1], s.first + |s.claims| - 1)))
    && (forall i :: 0 <= i < |s.claims| ==> e.since <= s.claims[i])
    && forall i :: 0 < i < |s.claims| ==> s.claims[i] >= s.claims[i - 1] + RetryDelay(s.first + i - 1)
  }

  /** The instant from which the next send is due. */
  function Due(s: Sender): int
    requires s.claims != []
  {
    s.claims[|s.claims| - 1] + RetryDelay(s.first + |s.claims| - 1)
  }

  lemma {:induction false} ClaimsAscend(e: Epoch, s: Sender, i: nat, j: nat)
    requires Spaced(e, s) && i <= j < |s.claims|
    ensures s.claims[i] <= s.claims[j]
    decreases j - i
  {
    if i < j {
      ClaimsAscend(e, s, i, j - 1);
      assert s.claims[j] >= s.claims[j - 1] + RetryDelay(s.first + j - 1);
    }
  }

  /** A snapshot of this epoch shows the latest send or an earlier instant. */
  lemma CurrentIsNoLater(e: Epoch, s: Sender, snapshot: Snapshot)
    requires Spaced(e, s) && Current(snapshot, s)
    ensures s.claims != []
    ensures var last := s.claims[|s.claims| - 1];
            snapshot.sentAt.value < last || (snapshot.sentAt.value == last && snapshot.attempts == s.first + |s.claims| - 1)
    ensures snapshot.sentAt.value + RetryDelay(snapshot.attempts) <= Due(s)
  {
    var i :| 0 <= i < |s.claims| && snapshot.attempts == s.first + i && snapshot.sentAt.value <= s.claims[i];
    if i < |s.claims| - 1 {
      ClaimsAscend(e, s, i + 1, |s.claims| - 1);
      assert s.claims[i + 1] >= s.claims[i] + RetryDelay(s.first + i);
    }
  }

  /** However stale the snapshot, once the epoch has a send a claim succeeds exactly when the delay since the latest one has passed. */
  lemma ClaimDependsOnlyOnTheLatestSend(e: Epoch, s: Sender, snapshot: Snapshot, now: int)
    requires Spaced(e, s) && s.claims != [] && Stored(snapshot, e, s)
    ensures Claim(s.memory, snapshot, e.id, now) == if now < Due(s) then None else Some(s.first + |s.claims|)
  {
    if Current(snapshot, s) {
      CurrentIsNoLater(e, s, snapshot);
    }
    hide Current;
  }

  /** The first claim of an epoch waits at most for a former send that its snapshot still shows. */
  lemma FirstClaim(e: Epoch, s: Sender, snapshot: Snapshot, now: int)
    requires e.memory.Some? ==> e.memory.value.commandId != e.id
    requires Spaced(e, s) && s.claims == [] && Stored(snapshot, e, s)
    ensures var shown := snapshot.commandId == e.id && snapshot.sentAt.Some?;
            && (!shown ==> Claim(s.memory, snapshot, e.id, now) == Some(1))
            && (shown ==> Former(snapshot, e)
                          && (Claim(s.memory, snapshot, e.id, now).Some? <==> now >= snapshot.sentAt.value + RetryDelay(snapshot.attempts)))
            && (Claim(s.memory, snapshot, e.id, now).Some? ==> Claim(s.memory, snapshot, e.id, now).value >= 1)
  {
  }

  lemma AdvanceKeepsSpaced(e: Epoch, s: Sender, poll: Poll)
    requires e.memory.Some? ==> e.memory.value.commandId != e.id
    requires Spaced(e, s) && Stored(poll.snapshot, e, s) && e.since <= poll.now
    ensures Spaced(e, Advance(e, s, poll))
  {
    hide Stored, Claim;
    if s.claims == [] {
      FirstClaim(e, s, poll.snapshot, poll.now);
    } else {
      ClaimDependsOnlyOnTheLatestSend(e, s, poll.snapshot, poll.now);
    }
  }

  lemma {:induction false} RunIsSpaced(e: Epoch, polls: seq<Poll>)
    requires Plausible(e, polls)
    ensures Spaced(e, Run(e, polls))
  {
    hide Plausible, Stored, Advance, Spaced;
    if polls == [] {
      NothingSentIsSpaced(e);
    } else {
      PlausiblePrefix(e, polls);
      RunIsSpaced(e, polls[..|polls| - 1]);
      LastIsPlausible(e, polls);
      AdvanceKeepsSpaced(e, Run(e, polls[..|polls| - 1]), polls[|polls| - 1]);
    }
  }

  lemma NothingSentIsSpaced(e: Epoch)
    ensures Spaced(e, Sender(e.memory, [], 1))
  {
  }

  lemma LastIsPlausible(e: Epoch, polls: seq<Poll>)
    requires Plausible(e, polls) && polls != []
    ensures var poll := polls[|polls| - 1];
            && Stored(poll.snapshot, e, Run(e, polls[..|polls| - 1])) && e.since <= poll.now
            && (e.memory.Some? ==> e.memory.value.commandId != e.id)
  {
    hide Stored, Run;
  }

  lemma PlausiblePrefix(e: Epoch, polls: seq<Poll>)
    requires Plausible(e, polls) && polls != []
    ensures Plausible(e, polls[..|polls| - 1])
  {
    hide Stored, Run;
    var init := polls[..|polls| - 1];
    forall i | 0 <= i < |init| ensures Stored(init[i].snapshot, e, Run(e, init[..i])) {
      assert init[..i] == polls[..i];
    }
  }

  lemma {:induction false} SpacingAddsUp(e: Epoch, s: Sender, k: nat)
    requires Spaced(e, s) && 1 <= k < |s.claims|
    ensures s.claims[k] >= s.claims[0] + RETRY_BASE + RETRY_MAX * (k - 1)
  {
    if k > 1 {
      SpacingAddsUp(e, s, k - 1);
    }
    assert s.claims[k] >= s.claims[k - 1] + RetryDelay(s.first + k - 1);
  }

  /** Backoff under stale status: the k-th send comes at least 30 + 60 (k - 2) seconds after the first. */
  lemma Backoff(e: Epoch, polls: seq<Poll>, k: nat)
    requires Plausible(e, polls)
    requires 2 <= k <= |Run(e, polls).claims|
    ensures var claims := Run(e, polls).claims;
            claims[k - 1] >= claims[0] + RETRY_BASE + RETRY_MAX * (k - 2)
  {
    hide Run, Plausible, Spaced;
    RunIsSpaced(e, polls);
    SpacingAddsUp(e, Run(e, polls), k - 1);
  }

  /**
   The wake-up scheduled by a reconcile that just sent, however much later it reads the clock again, is
   the instant from which the next claim succeeds, or one second away when that instant has passed; and the
   next claim succeeds exactly from then on, whatever snapshot it reads. So an unacknowledged stage is
   always retried, and never before its time.
   */
  lemma ScheduledRequeueSucceeds(e: Epoch, polls: seq<Poll>, later: int, next: Poll)
    requires polls != [] && Plausible(e, polls)
    requires Run(e, polls).claims != Run(e, polls[..|polls| - 1]).claims
    requires polls[|polls| - 1].now <= later && Stored(next.snapshot, e, Run(e, polls))
    ensures var s, sent := Run(e, polls), polls[|polls| - 1].now;
            var written := Snapshot(e.id, Some(sent), s.first + |s.claims| - 1);
            && s.claims != [] && Due(s) == sent + RetryDelay(written.attempts)
            && RequeueAt(written, later) == (if later < Due(s) then Due(s) else later + SECOND)
            && (Claim(s.memory, next.snapshot, e.id, next.now).Some? <==> next.now >= Due(s))
            && (next.now >= RequeueAt(written, later) ==> Claim(s.memory, next.snapshot, e.id, next.now).Some?)
  {
    hide Run, Plausible, Stored, Spaced, Advance;
    var s, last := Run(e, polls[..|polls| - 1]), polls[|polls| - 1];
    RunIsSpaced(e, polls);
    AdvancedSender(e, polls);
    SendIsLatest(e, s, last);
    ClaimDependsOnlyOnTheLatestSend(e, Run(e, polls), next.snapshot, next.now);
    hide Claim;
  }

  lemma AdvancedSender(e: Epoch, polls: seq<Poll>)
    requires polls != []
    ensures Run(e, polls) == Advance(e, Run(e, polls[..|polls| - 1]), polls[|polls| - 1])
  {
    hide Advance;
  }

  lemma SendIsLatest(e: Epoch, s: Sender, poll: Poll)
    requires Advance(e, s, poll).claims != s.claims
    ensures var claims := Advance(e, s, poll).claims; claims != [] && claims[|claims| - 1] == poll.now
  {
    hide Claim;
  }

  /**
   A reconcile that read a stale snapshot of this epoch wakes early rather than late: never past the due
   instant, beyond one second from now. A former send may postpone it, by less than the shorter delay.
   */
  lemma StaleRequeueNeverPostpones(e: Epoch, polls: seq<Poll>, stale: Poll)
    requires Plausible(e, polls) && Run(e, polls).claims != []
    requires stale.snapshot.commandId == e.id && Stored(stale.snapshot, e, Run(e, polls))
    ensures var s, at := Run(e, polls), RequeueAt(stale.snapshot, stale.now);
            && stale.now < at
            && (at <= Due(s) || at == stale.now + SECOND || (Former(stale.snapshot, e) && at < Due(s) + RETRY_BASE))
            && (Current(stale.snapshot, s) ==> at <= Due(s) || at == stale.now + SECOND)
  {
    hide Run, Plausible, Spaced, Current;
    var s := Run(e, polls);
    RunIsSpaced(e, polls);
    if Current(stale.snapshot, s) {
      CurrentIsNoLater(e, s, stale.snapshot);
    }
    EpochPrecedesSends(e, s);
  }

  lemma EpochPrecedesSends(e: Epoch, s: Sender)
    requires Spaced(e, s) && s.claims != []
    ensures e.since <= s.claims[|s.claims| - 1]
  {
  }

  // ------------------------------------------------- the controller's own state

  /** The stage fields of one resource's status, updated in place before they are written back. */
  class FunctionStatus {
    var lastStageCommandId: string
    var lastStageCommandTime: Option<int>
    var stageCommandAttempts: int

    ghost function View(): Snapshot
      reads this
    {
      Snapshot(lastStageCommandId, lastStageCommandTime, stageCommandAttempts)
    }

    constructor (s: Snapshot)
      ensures View() == s
    {
      lastStageCommandId, lastStageCommandTime, stageCommandAttempts := s.commandId, s.sentAt, s.attempts;
    }
  }

  class Reconciler {
    var releaseStageSends: map<string, Send>

    constructor ()
      ensures releaseStageSends == map[]
    {
      releaseStageSends := map[];
    }

    ghost function Remembered(key: string): Option<Send>
      reads this
    {
      if key in releaseStageSends then Some(releaseStageSends[key]) else None
    }

    /** The device acknowledged the release: the remembered send is forgotten. */
    method Acknowledged(key: string, status: FunctionStatus)
      modifies this, status
      ensures releaseStageSends == old(releaseStageSends) - {key}
      ensures status.View() == old(status.View()).(attempts := 0)
    {
      status.stageCommandAttempts := 0;
      releaseStageSends := releaseStageSends - {key};
    }

    method ClaimStageAttempt(key: string, status: FunctionStatus, id: string, now: int)
      returns (attempt: int, claimed: bool)
      modifies this, status
      ensures match Claim(old(Remembered(key)), old(status.View()), id, now)
        case None =>
          !claimed && attempt == 0 && releaseStageSends == old(releaseStageSends) && status.View() == old(status.View())
        case Some(n) =>
          && claimed && attempt == n
          && releaseStageSends == old(releaseStageSends)[key := Send(id, now, n)]
          && status.View() == Snapshot(id, Some(now), n)
    {
      var lastSent: Option<int> := None;
      var attempts := 0;
      if status.lastStageCommandId == id && status.lastStageCommandTime.Some? {
        lastSent := status.lastStageCommandTime;
        attempts := status.stageCommandAttempts;
      }
      if key in releaseStageSends {
        var remembered := releaseStageSends[key];
        if remembered.commandId == id && (lastSent == None || remembered.sentAt > lastSent.value) {
          lastSent := Some(remembered.sentAt);
          attempts := remembered.attempts;
        }
      }
      if lastSent.Some? {
        if attempts < 1 {
          attempts := 1;
        }
        var delay := ComputeRetryDelay(attempts);
        if now < lastSent.value + delay {
          return 0, false;
        }
      }
      attempt := 1;
      if lastSent.Some? {
        attempt := attempts + 1;
        if attempt < 2 {
          attempt := 2;
        }
      }
      status.lastStageCommandId := id;
      status.lastStageCommandTime := Some(now);
      status.stageCommandAttempts := attempt;
      releaseStageSends := releaseStageSends[key := Send(id, now, attempt)];
      return attempt, true;
    }
  }
}
