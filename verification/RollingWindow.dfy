/** Time-stamped observations pruned in place to a trailing window, as both telemetry trackers do. */
module RollingWindow {

  datatype Timed<+T> = Timed(at: int, value: T)

  /** The observations no older than the cutoff, in order. */
  function Kept<T>(items: seq<Timed<T>>, cutoff: int): seq<Timed<T>>
  {
    if items == [] then []
    else
      var last := items[|items| - 1];
      Kept(items[..|items| - 1], cutoff) + (if last.at >= cutoff then [last] else [])
  }

  lemma KeptNothing<T>(cutoff: int)
    ensures Kept<T>([], cutoff) == []
  {
  }

  lemma {:induction false} KeptAppend<T>(a: seq<Timed<T>>, b: seq<Timed<T>>, cutoff: int)
    ensures Kept(a + b, cutoff) == Kept(a, cutoff) + Kept(b, cutoff)
  {
    if b == [] {
      assert a + b == a;
    } else {
      KeptAppend(a, b[..|b| - 1], cutoff);
      assert (a + b)[..|a + b| - 1] == a + b[..|b| - 1];
    }
  }

  lemma KeptLast<T>(items: seq<Timed<T>>, last: Timed<T>, cutoff: int)
    requires cutoff <= last.at
    ensures Kept(items + [last], cutoff) == Kept(items, cutoff) + [last]
  {
    assert (items + [last])[..|items|] == items;
  }

  /** Exactly the observations no older than the cutoff stay, each as often as it was there. */
  lemma {:induction false} KeptMembers<T>(items: seq<Timed<T>>, cutoff: int, x: Timed<T>)
    ensures multiset(Kept(items, cutoff))[x] == if x.at >= cutoff then multiset(items)[x] else 0
  {
    if items != [] {
      var init, last := items[..|items| - 1], items[|items| - 1];
      KeptMembers(init, cutoff, x);
      assert items == init + [last];
      var kept := Kept(init, cutoff);
      assert multiset(kept + [last]) == multiset(kept) + multiset{last};
    }
  }

  /** Pruning twice with advancing cutoffs is pruning once with the later one. */
  lemma {:induction false} KeptTwice<T>(items: seq<Timed<T>>, early: int, late: int)
    requires early <= late
    ensures Kept(Kept(items, early), late) == Kept(items, late)
  {
    if items != [] {
      var init, last := items[..|items| - 1], items[|items| - 1];
      KeptTwice(init, early, late);
      KeptAppend(Kept(init, early), if last.at >= early then [last] else [], late);
    }
  }

  function Values<T>(items: seq<Timed<T>>): seq<T> {
    seq(|items|, i requires 0 <= i < |items| => items[i].value)
  }

  /** The pruning loop. */
  method KeepRecent<T>(items: seq<Timed<T>>, cutoff: int) returns (kept: seq<Timed<T>>)
    ensures kept == Kept(items, cutoff)
  {
    kept := [];
    for i := 0 to |items|
      invariant kept == Kept(items[..i], cutoff)
    {
      assert items[..i + 1][..i] == items[..i];
      if !(items[i].at < cutoff) {
        kept := kept + [items[i]];
      }
    }
    assert items[..|items|] == items;
  }
}
