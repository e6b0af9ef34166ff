/**
 The ITM receive buffer: one word shared by a debugger, which stores a character when it finds the
 word empty, and by the program, which takes the character and marks the word empty again. No side
 locks the word, so every single load and store of either side is a step of its own.
*/
module ItmMailbox {

  type I32 = x: int | -0x8000_0000 <= x < 0x8000_0000

  const RXBUFFER_EMPTY: I32 := 0x5AA5_5AA5

  /** Where a consumer is inside `ITM_ReceiveChar`: outside it, between the test and the load, or
      between the load and the store. */
  datatype Consumer = Idle | Tested | Loaded(ch: I32)

  /** `sent` and `received` record what the debugger stored and what the consumers took. `ready` says
      that the debugger has seen the word empty and not yet stored. */
  datatype State = State(slot: I32, ready: bool, consumers: seq<Consumer>, sent: seq<I32>, received: seq<I32>)

  datatype Event =
    | ProducerTest
    | ProducerStore(c: I32)
    | Test(i: nat)
    | Load(i: nat)
    | Clear(i: nat)

  predicate Character(c: I32) {
    0 <= c < 256
  }

  predicate Enabled(s: State, e: Event) {
    match e
    case ProducerTest => s.slot == RXBUFFER_EMPTY
    case ProducerStore(c) => s.ready && Character(c)
    case Test(i) => i < |s.consumers| && s.consumers[i] == Idle
    case Load(i) => i < |s.consumers| && s.consumers[i] == Tested
    case Clear(i) => i < |s.consumers| && s.consumers[i].Loaded?
  }

  function After(s: State, e: Event): State {
    if !Enabled(s, e) then s
    else
      match e
      case ProducerTest => s.(ready := true)
      case ProducerStore(c) => s.(slot := c, ready := false, sent := s.sent + [c])
      case Test(i) => if s.slot == RXBUFFER_EMPTY then s else s.(consumers := s.consumers[i := Tested])
      case Load(i) => s.(consumers := s.consumers[i := Loaded(s.slot)])
      case Clear(i) =>
        s.(slot := RXBUFFER_EMPTY,
           consumers := s.consumers[i := Idle],
           received := s.received + [s.consumers[i].ch])
  }

  function Start(consumers: nat): State {
    State(RXBUFFER_EMPTY, false, seq(consumers, _ => Idle), [], [])
  }

  function Final(s: State, events: seq<Event>): State {
    if events == [] then s else After(Final(s, events[..|events| - 1]), events[|events| - 1])
  }

  /** An interleaving: each event is enabled in the state the earlier ones lead to. */
  ghost predicate IsRun(s: State, events: seq<Event>) {
    forall k | 0 <= k < |events| :: Enabled(Final(s, events[..k]), events[k])
  }

  lemma Extend(s: State, events: seq<Event>, e: Event)
    requires IsRun(s, events) && Enabled(Final(s, events), e)
    ensures IsRun(s, events + [e]) && Final(s, events + [e]) == After(Final(s, events), e)
  {
    var longer := events + [e];
    assert longer[..|events|] == events;
    forall k | 0 <= k < |longer|
      ensures Enabled(Final(s, longer[..k]), longer[k])
    {
      assert longer[..k] == events[..k];
    }
  }

  // ---------- At most one consumer ----------

  function InSlot(s: State): seq<I32> {
    if s.slot == RXBUFFER_EMPTY then [] else [s.slot]
  }

  ghost predicate Inv(s: State) {
    && |s.consumers| <= 1
    && s.sent == s.received + InSlot(s)
    && (s.ready ==> s.slot == RXBUFFER_EMPTY)
    && (s.slot != RXBUFFER_EMPTY ==> Character(s.slot))
    && forall i | 0 <= i < |s.consumers| && s.consumers[i] != Idle ::
         s.slot != RXBUFFER_EMPTY && (s.consumers[i].Loaded? ==> s.consumers[i].ch == s.slot)
  }

  lemma InvStep(s: State, e: Event)
    requires Inv(s)
    ensures Inv(After(s, e))
  {
  }

  lemma {:induction false} InvRun(s: State, events: seq<Event>)
    requires Inv(s)
    ensures Inv(Final(s, events))
    decreases |events|
  {
    if events != [] {
      InvRun(s, events[..|events| - 1]);
      InvStep(Final(s, events[..|events| - 1]), events[|events| - 1]);
    }
  }

  /** What was taken is what was stored, in order, nothing lost and nothing repeated, and at most one
      character is still waiting. */
  ghost predicate Delivered(s: State) {
    s.sent == s.received + InSlot(s)
  }

  /** A waiting character stays where it is until a consumer takes it. */
  lemma {:induction false} WaitingStays(s: State, events: seq<Event>)
    requires Inv(s) && s.slot != RXBUFFER_EMPTY
    requires forall k | 0 <= k < |events| :: !events[k].Clear?
    ensures Final(s, events).slot == s.slot
    decreases |events|
  {
    if events != [] {
      var front := events[..|events| - 1];
      WaitingStays(s, front);
      InvRun(s, front);
      assert !events[|events| - 1].Clear?;
    }
  }

  // ---------- How many consumers ----------

  /** With a second consumer one stored character can be taken twice: both test, both load, both clear. */
  lemma SecondConsumerDuplicates(n: nat, c: I32) returns (events: seq<Event>)
    requires n >= 2 && Character(c)
    ensures IsRun(Start(n), events)
    ensures Final(Start(n), events).sent == [c] && Final(Start(n), events).received == [c, c]
  {
    var s := Start(n);
    events := [];
    var script := [ProducerTest, ProducerStore(c), Test(0), Test(1), Load(0), Load(1), Clear(0), Clear(1)];
    var t := s;
    for k := 0 to |script|
      invariant |events| == k && IsRun(s, events) && Final(s, events) == t && |t.consumers| == n
      invariant t.ready == (k == 1)
      invariant t.slot == if 2 <= k < 7 then c else RXBUFFER_EMPTY
      invariant t.consumers[0] == if k < 3 || k >= 7 then Idle else if k < 5 then Tested else Loaded(c)
      invariant t.consumers[1] == if k < 4 || k >= 8 then Idle else if k < 6 then Tested else Loaded(c)
      invariant t.sent == if k < 2 then [] else [c]
      invariant t.received == if k < 7 then [] else if k < 8 then [c] else [c, c]
    {
      Extend(s, events, script[k]);
      events := events + [script[k]];
      t := After(t, script[k]);
    }
  }

  /** In-order, exactly-once delivery holds in every state of every interleaving if and only if at most
      one consumer calls `ITM_ReceiveChar`. */
  lemma DeliveryIffOneConsumer(n: nat)
    ensures n <= 1 <==> forall events | IsRun(Start(n), events) :: Delivered(Final(Start(n), events))
  {
    if n <= 1 {
      forall events | IsRun(Start(n), events)
        ensures Delivered(Final(Start(n), events))
      {
        InvRun(Start(n), events);
      }
    } else {
      var events := SecondConsumerDuplicates(n, 65);
      assert !Delivered(Final(Start(n), events));
    }
  }

  // ---------- The functions ----------

  /** The program's side with the debugger acting between any two accesses to the word. */
  class Port {
    /** The shared word `ITM_RxBuffer`. */
    var rx: I32
    /** The debugger's own memory of having seen the word empty. */
    var debuggerReady: bool
    /** Every access so far. */
    ghost var events: seq<Event>

    ghost function Now(): State
      reads this
    {
      Final(Start(1), events)
    }

    ghost predicate Valid()
      reads this
    {
      && IsRun(Start(1), events)
      && Inv(Now()) && |Now().consumers| == 1
      && rx == Now().slot && debuggerReady == Now().ready
    }

    constructor ()
      ensures Valid() && Now() == Start(1) && rx == 0x5AA5_5AA5
    {
      rx := RXBUFFER_EMPTY;
      debuggerReady := false;
      events := [];
    }

    ghost method Record(e: Event)
      requires IsRun(Start(1), events) && Enabled(Now(), e) && Inv(Now())
      modifies this`events
      ensures IsRun(Start(1), events) && Inv(Now()) && Now() == After(old(Now()), e)
    {
      Extend(Start(1), events, e);
      InvStep(Now(), e);
      events := events + [e];
    }

    /** Whatever the debugger does between two accesses of the program: any of its test and its store, or
        nothing. It can do no more than one of each, since its store leaves the word full. */
    method Interfere()
      requires Valid()
      modifies this
      ensures Valid() && Now().consumers == old(Now().consumers) && Now().received == old(Now().received)
      ensures old(rx) != RXBUFFER_EMPTY ==> rx == old(rx)
    {
      if * {
        if rx == RXBUFFER_EMPTY {
          Record(ProducerTest);
          debuggerReady := true;
        }
      }
      if * {
        if debuggerReady {
          var c: I32 :| Character(c);
          Record(ProducerStore(c));
          rx, debuggerReady := c, false;
        }
      }
    }

    /** Returns -1 and takes nothing, or takes the next character and returns it; never -1 when a
        character was waiting at the call. */
    method ReceiveChar() returns (ch: I32)
      requires Valid() && Now().consumers == [Idle]
      modifies this
      ensures Valid() && Now().consumers == [Idle]
      ensures ch == -1 || 0 <= ch < 256
      ensures Now().received == old(Now().received) + (if ch == -1 then [] else [ch])
      ensures old(rx) != 0x5AA5_5AA5 ==> ch == old(rx) && ch != -1
    {
      ch := -1;
      Interfere();
      var full := rx != RXBUFFER_EMPTY;
      Record(Test(0));
      if full {
        Interfere();
        ch := rx;
        Record(Load(0));
        Interfere();
        rx := RXBUFFER_EMPTY;
        Record(Clear(0));
      }
      Interfere();
    }

    /** A result of 1 means that a character is waiting, and still is when the call returns. */
    method CheckChar() returns (r: int)
      requires Valid() && Now().consumers == [Idle]
      modifies this
      ensures Valid() && Now().consumers == [Idle] && Now().received == old(Now().received)
      ensures r == 0 || r == 1
      ensures r == 1 ==> rx != 0x5AA5_5AA5
      ensures old(rx) != 0x5AA5_5AA5 ==> r == 1 && rx == old(rx)
    {
      Interfere();
      if rx == RXBUFFER_EMPTY {
        r := 0;
      } else {
        r := 1;
      }
      Interfere();
    }

    /** One round: `ITM_ReceiveChar` is called if `ITM_CheckChar` returns 1, and then never returns -1. A
        character that waits at the call is taken. */
    method Round() returns (piece: seq<I32>)
      requires Valid() && Now().consumers == [Idle]
      modifies this
      ensures Valid() && Now().consumers == [Idle]
      ensures Now().received == old(Now().received) + piece
      ensures piece == [] || (|piece| == 1 && 0 <= piece[0] < 256)
      ensures old(rx) != 0x5AA5_5AA5 ==> piece == [old(rx)]
    {
      hide Inv, Final, IsRun;
      piece := [];
      var r := CheckChar();
      if r == 1 {
        var ch := ReceiveChar();
        piece := [ch];
      }
    }

    /** Over any number of rounds the text is exactly what was taken, in the order it was sent. A character
        that waits at the call is the first of it. */
    method Poll(rounds: nat) returns (text: seq<I32>)
      requires Valid() && Now().consumers == [Idle]
      modifies this
      ensures Valid() && Now().received == old(Now().received) + text
      ensures forall i | 0 <= i < |text| :: 0 <= text[i] < 256
      ensures rounds >= 1 && old(rx) != 0x5AA5_5AA5 ==> |text| >= 1 && text[0] == old(rx)
      ensures Delivered(Now())
    {
      hide Inv, Final, IsRun;
      text := [];
      for k := 0 to rounds
        invariant Valid() && Now().consumers == [Idle]
        invariant Now().received == old(Now().received) + text
        invariant forall i | 0 <= i < |text| :: 0 <= text[i] < 256
        invariant k == 0 ==> rx == old(rx) && text == []
        invariant k >= 1 && old(rx) != 0x5AA5_5AA5 ==> |text| >= 1 && text[0] == old(rx)
      {
        var piece := Round();
        text := text + piece;
      }
      InvDelivers(Now());
    }
  }

  lemma InvDelivers(s: State)
    requires Inv(s)
    ensures Delivered(s)
  {
  }
}
