/**
 Turns that are suspended between reading a session's history and writing it back, while
 other calls go on.
 */
module ConversationInterleaving {
  import opened Text
  import opened ConversationMemories

  /** A turn that has read the history, as it was before action number `start`, and has not written yet. */
  datatype Turning = Turning(
    session: string, userMsg: string, assistantMsg: string, readFails: bool, start: nat, history: seq<Message>)

  datatype System = System(keys: Keyspace, turns: map<nat, Turning>, steps: nat)

  datatype Action =
    | ReadHistory(turn: nat, session: string, userMsg: string, assistantMsg: string, fails: bool)
    | WriteHistory(turn: nat, fails: bool)
    | Whole(e: Event)  // a call that nothing interrupts, or an expiry

  function Apply(s: System, window: int, a: Action): System {
    match a
    case ReadHistory(turn, session, userMsg, assistantMsg, fails) =>
      var history := Read(s.keys, window, session, fails) + Turn(userMsg, assistantMsg);
      System(s.keys, s.turns[turn := Turning(session, userMsg, assistantMsg, fails, s.steps, history)], s.steps + 1)
    case WriteHistory(turn, fails) =>
      if turn !in s.turns then s.(steps := s.steps + 1)
      else
        var t := s.turns[turn];
        var keys := if fails then s.keys else s.keys[Key(t.session) := TakeLast(t.history, window)];
        System(keys, s.turns - {turn}, s.steps + 1)
    case Whole(e) => s.(keys := Step(s.keys, window, e), steps := s.steps + 1)
  }

  function RunSteps(actions: seq<Action>, window: int): System {
    if actions == [] then System(map[], map[], 0)
    else Apply(RunSteps(actions[..|actions| - 1], window), window, actions[|actions| - 1])
  }

  /** The action may change what is stored for the session. */
  predicate Touches(s: System, a: Action, session: string) {
    match a
    case ReadHistory(_, _, _, _, _) => false
    case WriteHistory(turn, fails) => !fails && turn in s.turns && s.turns[turn].session == session
    case Whole(e) =>
      e.session == session &&
      match e
      case AddTurn(_, _, _, _, writeFails) => !writeFails
      case Clear(_, fails) => !fails
      case Expire(_) => true
  }

  /** Nothing touches the session between the two positions. */
  ghost predicate Untouched(actions: seq<Action>, window: int, session: string, from: nat, to: nat)
    requires to <= |actions|
  {
    forall i :: from <= i < to ==> !Touches(RunSteps(actions[..i], window), actions[i], session)
  }

  /** If the write at position `k` takes effect, nothing touched its turn's session since the turn read it. */
  ghost predicate Exclusive(actions: seq<Action>, window: int, k: nat)
    requires k < |actions|
  {
    var s, a := RunSteps(actions[..k], window), actions[k];
    a.WriteHistory? && !a.fails && a.turn in s.turns && !s.turns[a.turn].readFails ==>
      Untouched(actions, window, s.turns[a.turn].session, s.turns[a.turn].start, k)
  }

  /** No two turns of a session overlap, nor does anything else that changes it overlap with a turn. */
  ghost predicate AllExclusive(actions: seq<Action>, window: int) {
    forall k :: 0 <= k < |actions| ==> Exclusive(actions, window, k)
  }

  /** The whole calls that one action amounts to: a turn takes place when it is written. */
  function AsEvents(s: System, a: Action): seq<Event> {
    match a
    case ReadHistory(_, _, _, _, _) => []
    case WriteHistory(turn, fails) =>
      if turn !in s.turns then []
      else
        var t := s.turns[turn];
        [AddTurn(t.session, t.userMsg, t.assistantMsg, t.readFails, fails)]
    case Whole(e) => [e]
  }

  function WholeCalls(actions: seq<Action>, window: int): seq<Event> {
    if actions == [] then []
    else
      var front := actions[..|actions| - 1];
      WholeCalls(front, window) + AsEvents(RunSteps(front, window), actions[|actions| - 1])
  }

  lemma UntouchedStep(s: System, window: int, a: Action, session: string)
    requires !Touches(s, a, session)
    ensures Key(session) in Apply(s, window, a).keys <==> Key(session) in s.keys
    ensures Key(session) in s.keys ==> Apply(s, window, a).keys[Key(session)] == s.keys[Key(session)]
  {
    match a
    case ReadHistory(_, _, _, _, _) =>
    case WriteHistory(turn, _) =>
      if turn in s.turns {
        KeysApart(s.turns[turn].session, session);
      }
    case Whole(e) => KeysApart(e.session, session);
  }

  lemma {:induction false} UntouchedKeeps(actions: seq<Action>, window: int, session: string, from: nat, to: nat)
    requires from <= to <= |actions| && Untouched(actions, window, session, from, to)
    ensures Read(RunSteps(actions[..to], window).keys, window, session, false) ==
      Read(RunSteps(actions[..from], window).keys, window, session, false)
  {
    if from < to {
      UntouchedKeeps(actions, window, session, from, to - 1);
      assert actions[..to][..to - 1] == actions[..to - 1];
      UntouchedStep(RunSteps(actions[..to - 1], window), window, actions[to - 1], session);
    }
  }

  /** A suspended turn holds the history as it was when it read. */
  predicate HoldsRead(actions: seq<Action>, window: int, t: Turning) {
    && t.start <= |actions|
    && t.history ==
       Read(RunSteps(actions[..t.start], window).keys, window, t.session, t.readFails)
       + Turn(t.userMsg, t.assistantMsg)
  }

  lemma StillHoldsRead(actions: seq<Action>, window: int, t: Turning)
    requires actions != [] && HoldsRead(actions[..|actions| - 1], window, t)
    ensures HoldsRead(actions, window, t)
  {
    assert actions[..t.start] == actions[..|actions| - 1][..t.start];
  }

  lemma NowHoldsRead(actions: seq<Action>, window: int)
    requires actions != [] && actions[|actions| - 1].ReadHistory?
    requires RunSteps(actions[..|actions| - 1], window).steps == |actions| - 1
    ensures HoldsRead(actions, window, RunSteps(actions, window).turns[actions[|actions| - 1].turn])
  {
  }

  lemma {:induction false} TurnsHoldRead(actions: seq<Action>, window: int)
    ensures RunSteps(actions, window).steps == |actions|
    ensures forall n :: n in RunSteps(actions, window).turns ==>
      HoldsRead(actions, window, RunSteps(actions, window).turns[n])
  {
    if actions != [] {
      var front, a := actions[..|actions| - 1], actions[|actions| - 1];
      TurnsHoldRead(front, window);
      hide HoldsRead, Step;
      forall n | n in RunSteps(actions, window).turns
        ensures HoldsRead(actions, window, RunSteps(actions, window).turns[n])
      {
        if a.ReadHistory? && n == a.turn {
          NowHoldsRead(actions, window);
        } else {
          StillHoldsRead(actions, window, RunSteps(actions, window).turns[n]);
        }
      }
    }
  }

  lemma RunSnoc(events: seq<Event>, e: Event, window: int)
    ensures Run(events + [e], window) == Step(Run(events, window), window, e)
  {
    assert (events + [e])[..|events|] == events;
  }

  /** Without such overlaps a run leaves what the same calls leave one after the other, in the order of the writes. */
  lemma {:induction false} ExclusiveIsWhole(actions: seq<Action>, window: int)
    requires AllExclusive(actions, window)
    ensures RunSteps(actions, window).keys == Run(WholeCalls(actions, window), window)
  {
    if actions != [] {
      var k := |actions| - 1;
      var front, a := actions[..k], actions[k];
      forall j | 0 <= j < k
        ensures Exclusive(front, window, j)
      {
        ExclusiveInFront(actions, window, j);
      }
      ExclusiveIsWhole(front, window);
      var s, events := RunSteps(front, window), WholeCalls(front, window);
      if a.WriteHistory? && a.turn in s.turns {
        var t := s.turns[a.turn];
        TurnsHoldRead(front, window);
        if !t.readFails && !a.fails {
          assert Exclusive(actions, window, k);
          UntouchedKeeps(actions, window, t.session, t.start, k);
          assert actions[..t.start] == front[..t.start];
        }
        RunSnoc(events, AddTurn(t.session, t.userMsg, t.assistantMsg, t.readFails, a.fails), window);
      } else if a.Whole? {
        RunSnoc(events, a.e, window);
      } else {
        assert events + [] == events;
      }
    }
  }

  lemma ExclusiveInFront(actions: seq<Action>, window: int, j: nat)
    requires j < |actions| - 1 && Exclusive(actions, window, j)
    ensures Exclusive(actions[..|actions| - 1], window, j)
  {
    var front := actions[..|actions| - 1];
    assert front[..j] == actions[..j];
    assert forall i :: 0 <= i < j ==> front[..i] == actions[..i];
  }

  /** Then the stored history is, in every session, the tail of the transcript of these calls. */
  lemma ExclusiveMemoryIsTail(actions: seq<Action>, window: int, session: string)
    requires 0 <= window && AllExclusive(actions, window)
    ensures Kept(RunSteps(actions, window).keys, session) ==
      TakeLast(Transcript(WholeCalls(actions, window), session), window)
  {
    ExclusiveIsWhole(actions, window);
    MemoryIsTail(WholeCalls(actions, window), window, session);
  }

  /** When two turns of a session overlap, the store looks as if the one that is written first had never been. */
  lemma OverlapLosesTurn(s: System, window: int, first: Action, second: Action, fails: bool)
    requires first.ReadHistory? && second.ReadHistory? && first.session == second.session && first.turn != second.turn
    ensures var overlapped :=
        Apply(Apply(Apply(Apply(s, window, first), window, second), window, WriteHistory(first.turn, fails)), window,
              WriteHistory(second.turn, false));
      overlapped.keys == Apply(Apply(s, window, second), window, WriteHistory(second.turn, false)).keys
  {
  }
}
