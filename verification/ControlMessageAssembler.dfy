/**
 The device's bounded assembler of fragmented control messages
 (sif_controlMessageAssembler.hpp). Only the first fragment of an MQTT message carries the
 topic, so later fragments are trusted by position alone.
 */
module ControlMessageAssembler {
  import opened Common

  datatype Status = Ignored | Incomplete | Complete | Rejected

  /** One MQTT data event; a None fragment is a null pointer. */
  datatype Call = Call(topicPresent: bool, controlTopic: bool, fragment: Option<seq<Byte>>, total: nat, offset: nat)

  /** What the assembler remembers: received is the prefix of the buffer that holds message bytes. */
  datatype State = State(receiving: bool, expected: nat, received: seq<Byte>)

  const RESET := State(false, 0, [])

  /** The effect of one data event. */
  function Step(capacity: nat, s: State, c: Call): (State, Status)
  {
    if c.topicPresent && !c.controlTopic then (RESET, Ignored)
    else if c.topicPresent && c.offset != 0 then (RESET, Rejected)
    else if !c.topicPresent && !s.receiving then (s, Ignored)
    else
      var open := if c.topicPresent then State(true, c.total, []) else s;
      if || c.fragment == None || c.fragment.value == []
         || c.total == 0 || c.total > capacity || c.total != open.expected
         || c.offset != |open.received| || c.offset + |c.fragment.value| > c.total
      then (RESET, Rejected)
      else
        var received := open.received + c.fragment.value;
        if |received| == open.expected
        then (State(false, open.expected, received), Complete)
        else (State(true, open.expected, received), Incomplete)
  }

  /** The state after a run of events that starts from a reset assembler. */
  function Run(capacity: nat, cs: seq<Call>): State
  {
    if cs == [] then RESET else Step(capacity, Run(capacity, cs[..|cs| - 1]), cs[|cs| - 1]).0
  }

  /** The answer given to the last event of a run. */
  function LastStatus(capacity: nat, cs: seq<Call>): Status
    requires cs != []
  {
    Step(capacity, Run(capacity, cs[..|cs| - 1]), cs[|cs| - 1]).1
  }

  // ------------------------------------------------- what a run ought to deliver, without any state

  /** The events from the last one that carried a topic. */
  function Tail(cs: seq<Call>): seq<Call>
  {
    if cs == [] then []
    else
      var last, before := cs[|cs| - 1], Tail(cs[..|cs| - 1]);
      if last.topicPresent then [last] else if before == [] then [] else before + [last]
  }

  function Joined(cs: seq<Call>): seq<Byte>
  {
    if cs == [] then []
    else Joined(cs[..|cs| - 1]) + (if cs[|cs| - 1].fragment == None then [] else cs[|cs| - 1].fragment.value)
  }

  /** Nonempty fragments of one message of the given length, each starting where the previous one ended. */
  ghost predicate Consecutive(cs: seq<Call>, total: nat)
  {
    cs == [] ||
    var last, before := cs[|cs| - 1], cs[..|cs| - 1];
    && Consecutive(before, total)
    && last.fragment != None && last.fragment.value != []
    && last.total == total && last.offset == |Joined(before)|
    && |Joined(cs)| <= total
  }

  /** The last topic event opened a control message that fits, and every event since continued it. */
  ghost predicate Carries(capacity: nat, cs: seq<Call>)
  {
    var t := Tail(cs);
    t != [] && t[0].controlTopic && t[0].total <= capacity && Consecutive(t, t[0].total)
  }

  /**
   The assembler is complete exactly when the events since the last topic are the whole of one
   control message, and then it holds exactly that message.
   */
  lemma {:induction false} RunMeaning(capacity: nat, cs: seq<Call>)
    ensures Run(capacity, cs).receiving <==> Carries(capacity, cs) && |Joined(Tail(cs))| < Tail(cs)[0].total
    ensures Run(capacity, cs).receiving ==>
              Run(capacity, cs) == State(true, Tail(cs)[0].total, Joined(Tail(cs)))
    ensures cs != [] ==>
              (LastStatus(capacity, cs) == Complete <==>
               Carries(capacity, cs) && |Joined(Tail(cs))| == Tail(cs)[0].total)
    ensures cs != [] && LastStatus(capacity, cs) == Complete ==>
              Run(capacity, cs).received == Joined(Tail(cs))
  {
    if cs != [] {
      var before, last := cs[..|cs| - 1], cs[|cs| - 1];
      RunMeaning(capacity, before);
      var t, t0 := Tail(cs), Tail(before);
      if last.topicPresent {
        assert t[..0] == [];
        assert Joined(t[..0]) == [];
        assert Consecutive(t[..0], last.total);
      } else if t0 != [] {
        assert t[..|t| - 1] == t0 && t[0] == t0[0];
      }
    }
  }

  /** A control message is pending. */
  ghost predicate Pending(capacity: nat, cs: seq<Call>) {
    Carries(capacity, cs) && |Joined(Tail(cs))| < Tail(cs)[0].total
  }

  /** An event is ignored that belongs to no control message, an incomplete one leaves its message pending, and a rejected one drops it. */
  lemma StatusMeaning(capacity: nat, cs: seq<Call>)
    requires cs != []
    ensures LastStatus(capacity, cs) == Incomplete <==> Pending(capacity, cs)
    ensures var last := cs[|cs| - 1];
            LastStatus(capacity, cs) == Ignored <==>
              if last.topicPresent then !last.controlTopic else !Pending(capacity, cs[..|cs| - 1])
  {
    RunMeaning(capacity, cs);
    RunMeaning(capacity, cs[..|cs| - 1]);
    hide Carries, Joined;
  }

  // ------------------------------------------------- any split of a message is delivered whole

  function Concatenated(fragments: seq<seq<Byte>>): seq<Byte>
  {
    if fragments == [] then []
    else Concatenated(fragments[..|fragments| - 1]) + fragments[|fragments| - 1]
  }

  /** The data events that deliver the fragments of a control message of the given length. */
  function Deliveries(fragments: seq<seq<Byte>>, total: nat): (cs: seq<Call>)
    ensures |cs| == |fragments|
  {
    if fragments == [] then []
    else
      var init := fragments[..|fragments| - 1];
      Deliveries(init, total)
      + [Call(init == [], init == [], Some(fragments[|fragments| - 1]), total, |Concatenated(init)|)]
  }

  lemma {:induction false} DeliveriesAreConsecutive(fragments: seq<seq<Byte>>, total: nat)
    requires forall f :: f in fragments ==> f != []
    requires |Concatenated(fragments)| <= total
    ensures var cs := Deliveries(fragments, total);
            Joined(cs) == Concatenated(fragments) && Consecutive(cs, total)
  {
    if fragments != [] {
      var init, cs := fragments[..|fragments| - 1], Deliveries(fragments, total);
      assert forall f :: f in init ==> f in fragments;
      DeliveriesAreConsecutive(init, total);
      assert cs[..|cs| - 1] == Deliveries(init, total);
      assert fragments[|fragments| - 1] in fragments;
    }
  }

  lemma {:induction false} TailOfDeliveries(history: seq<Call>, fragments: seq<seq<Byte>>, total: nat)
    requires fragments != []
    ensures Tail(history + Deliveries(fragments, total)) == Deliveries(fragments, total)
  {
    var init, cs := fragments[..|fragments| - 1], Deliveries(fragments, total);
    var all := history + cs;
    assert all[..|all| - 1] == history + Deliveries(init, total);
    assert all[|all| - 1] == cs[|cs| - 1];
    if init != [] {
      TailOfDeliveries(history, init, total);
    } else {
      assert cs == [cs[0]];
    }
  }

  /** After any history, any split of a message of 1 to capacity bytes into nonempty fragments completes with that message. */
  lemma AnySplitCompletes(capacity: nat, history: seq<Call>, fragments: seq<seq<Byte>>)
    requires forall f :: f in fragments ==> f != []
    requires 1 <= |Concatenated(fragments)| <= capacity
    ensures var message := Concatenated(fragments);
            var cs := history + Deliveries(fragments, |message|);
            && cs != [] && LastStatus(capacity, cs) == Complete
            && Run(capacity, cs).received == message
  {
    var message := Concatenated(fragments);
    var cs := history + Deliveries(fragments, |message|);
    TailOfDeliveries(history, fragments, |message|);
    DeliveriesAreConsecutive(fragments, |message|);
    RunMeaning(capacity, cs);
    assert Deliveries(fragments, |message|)[0].total == |message| && Deliveries(fragments, |message|)[0].controlTopic by {
      FirstDelivery(fragments, |message|);
    }
  }

  lemma {:induction false} FirstDelivery(fragments: seq<seq<Byte>>, total: nat)
    requires fragments != []
    ensures var first := Deliveries(fragments, total)[0]; first.total == total && first.controlTopic
  {
    if |fragments| > 1 {
      FirstDelivery(fragments[..|fragments| - 1], total);
    }
  }

  // ------------------------------------------------- the fixed buffer

  class Assembler {
    const capacity: nat
    const payload: array<Byte>
    var expectedLength: nat
    var receivedLength: nat
    var receiving: bool

    ghost predicate Valid()
      reads this
    {
      && capacity > 0 && payload.Length == capacity + 1 && receivedLength <= capacity
      && (receiving ==> receivedLength < expectedLength <= capacity)
    }

    ghost function Abstract(): State
      requires Valid()
      reads this, payload
    {
      State(receiving, expectedLength, payload[..receivedLength])
    }

    constructor (capacity: nat)
      requires capacity > 0
      ensures Valid() && fresh(payload) && this.capacity == capacity && Abstract() == RESET
    {
      this.capacity := capacity;
      payload := new Byte[capacity + 1](_ => 0);
      expectedLength, receivedLength, receiving := 0, 0, false;
    }

    method Reset()
      requires Valid()
      modifies this, payload
      ensures Valid() && Abstract() == RESET && payload[0] == 0
    {
      receiving := false;
      expectedLength := 0;
      receivedLength := 0;
      payload[0] := 0;
    }

    /** Every write, the terminator included, stays inside the capacity + 1 cells. */
    method Consume(c: Call) returns (status: Status)
      requires Valid()
      modifies this, payload
      ensures Valid()
      ensures (Abstract(), status) == Step(capacity, old(Abstract()), c)
      ensures status == Complete ==> payload[receivedLength] == 0
    {
      ghost var was := Abstract();
      if c.topicPresent {
        Reset();
        if !c.controlTopic {
          return Ignored;
        }
        if c.offset != 0 {
          return Rejected;
        }
        receiving := true;
        expectedLength := c.total;
      } else if !receiving {
        return Ignored;
      }

      if || c.fragment == None || |c.fragment.value| == 0
         || c.total == 0 || c.total > capacity
         || c.total != expectedLength || c.offset != receivedLength
         || c.offset > c.total || |c.fragment.value| > c.total - c.offset
      {
        receiving, expectedLength, receivedLength := false, 0, 0;
        payload[0] := 0;
        return Rejected;
      }

      ghost var held := payload[..receivedLength];
      var fragment := c.fragment.value;
      forall i | 0 <= i < |fragment| {
        payload[c.offset + i] := fragment[i];
      }
      receivedLength := receivedLength + |fragment|;
      assert payload[..receivedLength] == held + fragment;
      if receivedLength != expectedLength {
        return Incomplete;
      }
      payload[receivedLength] := 0;
      receiving := false;
      assert payload[..receivedLength] == held + fragment;
      return Complete;
    }
  }
}
