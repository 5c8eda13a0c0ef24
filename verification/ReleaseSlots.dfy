/**
 The discipline that the edge host and the device both follow: one active and at most one
 staged release, each bound to a generation. What every step keeps, over whole runs.
 */
module ReleaseSlots {
  import opened Common

  /** A release tuple bound to its generation. */
  datatype Held<+T> = Held(generation: int, tuple: T)

  datatype Slots<+T> = Slots(active: Held<T>, staged: Option<Held<T>>)

  function Top<T>(s: Slots<T>): int {
    if s.staged.Some? && s.staged.value.generation > s.active.generation
    then s.staged.value.generation else s.active.generation
  }

  /** Newer than everything held: the only kind of release that may be staged. */
  predicate Fresh<T>(s: Slots<T>, r: Held<T>) {
    r.generation > s.active.generation && (s.staged.Some? ==> r.generation > s.staged.value.generation)
  }

  function Stage<T>(s: Slots<T>, r: Held<T>): Slots<T> {
    s.(staged := Some(r))
  }

  function Promote<T>(s: Slots<T>): Slots<T>
    requires s.staged.Some?
  {
    Slots(s.staged.value, None)
  }

  ghost predicate Holds<T>(s: Slots<T>, h: Held<T>) {
    s.active == h || s.staged == Some(h)
  }

  ghost predicate WellOrdered<T>(s: Slots<T>) {
    s.staged.Some? ==> s.staged.value.generation > s.active.generation
  }

  ghost predicate Stages<T>(s: Slots<T>, s': Slots<T>) {
    s'.staged.Some? && Fresh(s, s'.staged.value) && s' == Stage(s, s'.staged.value)
  }

  /** Nothing, a fresh release staged over whatever was staged, or the staged release made active. */
  ghost predicate Step<T>(s: Slots<T>, s': Slots<T>) {
    s' == s || Stages(s, s') || (s.staged.Some? && s' == Promote(s))
  }

  ghost predicate IsRun<T>(run: seq<Slots<T>>) {
    && run != [] && WellOrdered(run[0])
    && forall i :: 0 <= i < |run| - 1 ==> Step(run[i], run[i + 1])
  }

  /** In every state of every run a staged generation exceeds the active one. */
  lemma {:induction false} RunIsWellOrdered<T>(run: seq<Slots<T>>, i: nat)
    requires IsRun(run) && i < |run|
    ensures WellOrdered(run[i])
  {
    if i > 0 {
      RunIsWellOrdered(run, i - 1);
      assert Step(run[i - 1], run[i - 1 + 1]);
    }
  }

  /** The active generation never decreases, nor does the newest one. */
  lemma {:induction false} GenerationsNeverDecrease<T>(run: seq<Slots<T>>, i: nat, j: nat)
    requires IsRun(run) && i <= j < |run|
    ensures run[i].active.generation <= run[j].active.generation
    ensures Top(run[i]) <= Top(run[j])
    decreases j - i
  {
    if i < j {
      GenerationsNeverDecrease(run, i, j - 1);
      RunIsWellOrdered(run, j - 1);
      assert Step(run[j - 1], run[j - 1 + 1]);
    }
  }

  /** Generations accepted into the staged slot strictly increase over the run. */
  lemma AcceptedGenerationsIncrease<T>(run: seq<Slots<T>>, i: nat, j: nat)
    requires IsRun(run) && i < j < |run| - 1
    requires Stages(run[i], run[i + 1]) && Stages(run[j], run[j + 1])
    ensures run[i + 1].staged.value.generation < run[j + 1].staged.value.generation
  {
    RunIsWellOrdered(run, i + 1);
    GenerationsNeverDecrease(run, i + 1, j);
  }

  /** A release held now whose generation was already reached was held then. */
  lemma {:induction false} OldReleasesWereAlwaysHeld<T>(run: seq<Slots<T>>, i: nat, j: nat, h: Held<T>)
    requires IsRun(run) && i <= j < |run|
    requires Holds(run[j], h) && h.generation <= Top(run[i])
    ensures Holds(run[i], h)
    decreases j - i
  {
    if i < j {
      GenerationsNeverDecrease(run, i, j - 1);
      assert Step(run[j - 1], run[j - 1 + 1]);
      OldReleasesWereAlwaysHeld(run, i, j - 1, h);
    }
  }

  /** Generation is a key over the whole run: it is never bound to two different tuples. */
  lemma GenerationIsAKey<T>(run: seq<Slots<T>>, i: nat, j: nat, h: Held<T>, k: Held<T>)
    requires IsRun(run) && i <= j < |run|
    requires Holds(run[i], h) && Holds(run[j], k) && h.generation == k.generation
    ensures h == k
  {
    RunIsWellOrdered(run, i);
    OldReleasesWereAlwaysHeld(run, i, j, k);
  }

  // ------------------------------------------------- checking and installing as two steps

  /** Step k stages a release other than r, of a generation no older than r's. */
  ghost predicate Overtaken<T>(run: seq<Slots<T>>, k: nat, r: Held<T>) {
    k < |run| - 1 && Stages(run[k], run[k + 1])
    && run[k + 1].staged.value.generation >= r.generation && run[k + 1].staged.value != r
  }

  ghost predicate Activated<T>(run: seq<Slots<T>>, k: nat, r: Held<T>) {
    k < |run| - 1 && run[k].staged == Some(r) && run[k + 1] == Promote(run[k])
  }

  /** Since the check no other release as new as r was staged. */
  ghost predicate NeverOvertaken<T>(run: seq<Slots<T>>, checked: nat, r: Held<T>) {
    forall k: nat :: checked <= k ==> !Overtaken(run, k, r)
  }

  /** Since the check r itself was not activated. */
  ghost predicate NeverActivated<T>(run: seq<Slots<T>>, checked: nat, r: Held<T>) {
    forall k: nat :: checked <= k ==> !Activated(run, k, r)
  }

  /** Until a release as new as r is staged, r stays fresh; staged, it stays staged; activated, nothing newer is held. */
  lemma {:induction false} FateOfChecked<T>(run: seq<Slots<T>>, checked: nat, i: nat, r: Held<T>)
    requires IsRun(run) && checked <= i < |run| && Fresh(run[checked], r) && NeverOvertaken(run, checked, r)
    ensures Fresh(run[i], r) || (run[i].staged == Some(r) && run[i].active.generation < r.generation) || run[i] == Slots(r, None)
    ensures run[i] == Slots(r, None) ==> !NeverActivated(run, checked, r)
    decreases i - checked
  {
    if checked < i {
      FateOfChecked(run, checked, i - 1, r);
      assert Step(run[i - 1], run[i - 1 + 1]) && !Overtaken(run, i - 1, r);
      if run[i] == Slots(r, None) && run[i - 1] != run[i] {
        assert Activated(run, i - 1, r);
      }
    }
  }

  /** Once r was overtaken or activated, it can be neither fresh nor staged again. */
  lemma DisturbedIsGone<T>(run: seq<Slots<T>>, k: nat, j: nat, r: Held<T>)
    requires IsRun(run) && k + 1 <= j < |run|
    requires Overtaken(run, k, r) || Activated(run, k, r)
    ensures !Fresh(run[j], r) && run[j].staged != Some(r)
  {
    RunIsWellOrdered(run, k);
    RunIsWellOrdered(run, k + 1);
    RunIsWellOrdered(run, j);
    GenerationsNeverDecrease(run, k + 1, j);
    if run[j].staged == Some(r) {
      OldReleasesWereAlwaysHeld(run, k + 1, j, r);
    }
  }

  /**
   A release that was fresh when it was checked, installed after further steps, continues the run exactly
   when meanwhile no other release as new was staged and it was not itself staged and activated.
   */
  lemma LateInstallContinuesTheRun<T>(run: seq<Slots<T>>, checked: nat, r: Held<T>)
    requires IsRun(run) && checked < |run| && Fresh(run[checked], r)
    ensures IsRun(run + [Stage(run[|run| - 1], r)]) <==> NeverOvertaken(run, checked, r) && NeverActivated(run, checked, r)
  {
    hide IsRun, Fresh, Overtaken, Activated;
    if NeverOvertaken(run, checked, r) && NeverActivated(run, checked, r) {
      UndisturbedInstall(run, checked, r);
    } else {
      var k: nat :| checked <= k && (Overtaken(run, k, r) || Activated(run, k, r));
      DisturbedInstall(run, k, r);
    }
  }

  lemma UndisturbedInstall<T>(run: seq<Slots<T>>, checked: nat, r: Held<T>)
    requires IsRun(run) && checked < |run| && Fresh(run[checked], r)
    requires NeverOvertaken(run, checked, r) && NeverActivated(run, checked, r)
    ensures IsRun(run + [Stage(run[|run| - 1], r)])
  {
    FateOfChecked(run, checked, |run| - 1, r);
    hide NeverOvertaken, NeverActivated, IsRun;
    ContinuedRunIsRun(run, [Stage(run[|run| - 1], r)]);
  }

  lemma DisturbedInstall<T>(run: seq<Slots<T>>, k: nat, r: Held<T>)
    requires IsRun(run) && (Overtaken(run, k, r) || Activated(run, k, r))
    ensures !IsRun(run + [Stage(run[|run| - 1], r)])
  {
    var now := run[|run| - 1];
    var longer := run + [Stage(now, r)];
    DisturbedIsGone(run, k, |run| - 1, r);
    RunIsWellOrdered(run, |run| - 1);
    hide Overtaken, Activated;
    assert longer[|run| - 1] == now && longer[|run| - 1 + 1] == Stage(now, r);
    assert !Step(longer[|run| - 1], longer[|run| - 1 + 1]);
  }

  /** Slots that follow one another by the discipline's steps, from any start. */
  ghost predicate IsContinuation<T>(c: seq<Slots<T>>, start: Slots<T>) {
    && c != [] && c[0] == start
    && forall i :: 0 <= i < |c| - 1 ==> Step(c[i], c[i + 1])
  }

  /** Some generation is bound to two tuples across the run and its continuation. */
  ghost predicate BoundTwice<T(!new)>(run: seq<Slots<T>>, c: seq<Slots<T>>) {
    exists i, j, h, k :: 0 <= i < |run| && 0 <= j < |c| && Holds(run[i], h) && Holds(c[j], k) && h.generation == k.generation && h != k
  }

  /** Over an installed r, any newer release can be staged, after r's activation if need be. */
  lemma NewerFollows<T>(x: Slots<T>, r: Held<T>, q: Held<T>) returns (c: seq<Slots<T>>)
    requires x.staged == Some(r) && r.generation < q.generation
    ensures IsContinuation(c, x) && |c| == 3 && Holds(c[2], q)
  {
    var y := if x.active.generation < q.generation then x else Promote(x);
    c := [x, y, Stage(y, q)];
    assert Step(c[0], c[1]) && Stages(c[1], c[2]);
  }

  /** An install over an overtaking release can be followed by another tuple of that release's generation. */
  lemma OvertakenInstallRebinds<T(!new)>(run: seq<Slots<T>>, k: nat, r: Held<T>, u: T, v: T)
    requires Overtaken(run, k, r) && u != v
    ensures exists c :: IsContinuation(c, Stage(run[|run| - 1], r)) && BoundTwice(run, c)
  {
    var x, q := Stage(run[|run| - 1], r), run[k + 1].staged.value;
    var c, q' := [x], r;
    if q.generation > r.generation {
      q' := Held(q.generation, if q.tuple == u then v else u);
      c := NewerFollows(x, r, q');
    }
    hide Stages, Step, Overtaken;
    var j := |c| - 1;
    assert IsContinuation(c, x) && Holds(c[j], q') && Holds(run[k + 1], q);
    assert BoundTwice(run, c);
  }

  /** After r was activated, installing it once more only leads where the run itself could go. */
  lemma {:induction false} RepeatedInstallAddsNothing<T>(c: seq<Slots<T>>, r: Held<T>, j: nat)
    requires IsContinuation(c, Slots(r, Some(r))) && j < |c|
    ensures WithoutRepeat(c[j], r).active.generation >= r.generation && WellOrdered(WithoutRepeat(c[j], r))
    ensures j > 0 ==> Step(WithoutRepeat(c[j - 1], r), WithoutRepeat(c[j], r))
    ensures c[j] != Slots(r, Some(r)) ==> WellOrdered(c[j])
  {
    if j > 0 {
      RepeatedInstallAddsNothing(c, r, j - 1);
      assert Step(c[j - 1], c[j - 1 + 1]);
    }
  }

  function WithoutRepeat<T(==)>(s: Slots<T>, r: Held<T>): Slots<T> {
    if s == Slots(r, Some(r)) then Slots(r, None) else s
  }

  /** The run, then the continuation read as if r had not been installed once more. */
  lemma JoinedIsRun<T>(run: seq<Slots<T>>, c: seq<Slots<T>>, r: Held<T>)
    requires IsRun(run) && run[|run| - 1] == Slots(r, None) && IsContinuation(c, Slots(r, Some(r)))
    ensures IsRun(run + seq(|c|, j requires 0 <= j < |c| => WithoutRepeat(c[j], r)))
  {
    var joined := run + seq(|c|, j requires 0 <= j < |c| => WithoutRepeat(c[j], r));
    forall i | 0 <= i < |joined| - 1 ensures Step(joined[i], joined[i + 1]) {
      if i < |run| - 1 {
        assert Step(run[i], run[i + 1]);
      } else if i >= |run| {
        RepeatedInstallAddsNothing(c, r, i + 1 - |run|);
      }
    }
  }

  lemma ContinuedRunIsRun<T>(run: seq<Slots<T>>, c: seq<Slots<T>>)
    requires IsRun(run) && c != [] && IsContinuation(c, c[0]) && Step(run[|run| - 1], c[0])
    ensures IsRun(run + c)
  {
    var joined := run + c;
    forall i | 0 <= i < |joined| - 1 ensures Step(joined[i], joined[i + 1]) {
      if i < |run| - 1 {
        assert Step(run[i], run[i + 1]);
      } else if i >= |run| {
        assert Step(c[i - |run|], c[i - |run| + 1]);
      }
    }
  }

  lemma UnovertakenInstallRebindsNothing<T(!new)>(run: seq<Slots<T>>, checked: nat, r: Held<T>, c: seq<Slots<T>>)
    requires IsRun(run) && checked < |run| && Fresh(run[checked], r) && NeverOvertaken(run, checked, r)
    requires IsContinuation(c, Stage(run[|run| - 1], r))
    ensures !BoundTwice(run, c)
  {
    var now := run[|run| - 1];
    FateOfChecked(run, checked, |run| - 1, r);
    forall i, j, h, k | 0 <= i < |run| && 0 <= j < |c| && Holds(run[i], h) && Holds(c[j], k) && h.generation == k.generation
      ensures h == k
    {
      if now == Slots(r, None) {
        JoinedIsRun(run, c, r);
        var joined := run + seq(|c|, j requires 0 <= j < |c| => WithoutRepeat(c[j], r));
        assert joined[|run| + j] == WithoutRepeat(c[j], r) && joined[i] == run[i];
        GenerationIsAKey(joined, i, |run| + j, h, k);
      } else {
        ContinuedRunIsRun(run, c);
        assert (run + c)[|run| + j] == c[j] && (run + c)[i] == run[i];
        GenerationIsAKey(run + c, i, |run| + j, h, k);
      }
    }
  }

  /**
   A late install can lead to a generation bound to two tuples exactly when another release as new as
   the installed one was staged between its check and its install.
   */
  lemma LateInstallRebindsExactlyWhenOvertaken<T(!new)>(run: seq<Slots<T>>, checked: nat, r: Held<T>, u: T, v: T)
    requires IsRun(run) && checked < |run| && Fresh(run[checked], r) && u != v
    ensures (exists c :: IsContinuation(c, Stage(run[|run| - 1], r)) && BoundTwice(run, c)) <==> !NeverOvertaken(run, checked, r)
  {
    hide IsRun, Fresh, Stage, IsContinuation, BoundTwice, Overtaken;
    if NeverOvertaken(run, checked, r) {
      forall c | IsContinuation(c, Stage(run[|run| - 1], r)) ensures !BoundTwice(run, c) {
        UnovertakenInstallRebindsNothing(run, checked, r, c);
      }
    } else {
      var k: nat :| checked <= k && Overtaken(run, k, r);
      OvertakenInstallRebinds(run, k, r, u, v);
    }
  }

  /** Two overlapping uploads: both pass the check, the newer is installed and activated, then the older is staged beneath it. */
  lemma OverlappingInstallsRegress<T>(first: Held<T>, older: Held<T>, newer: Held<T>)
    requires first.generation < older.generation < newer.generation
    ensures var start := Slots(first, None);
            && Fresh(start, older) && Fresh(start, newer)
            && !WellOrdered(Stage(Promote(Stage(start, newer)), older))
  {
  }
}
