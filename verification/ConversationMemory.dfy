/**
 Conversation memory over a keyed store with expiry: what is kept is always the tail of
 the conversation since it last started afresh.
 */
module ConversationMemories {
  import opened Text

  datatype Message = Message(role: string, content: string)

  /** The Redis keyspace; an expired or deleted key is absent. */
  type Keyspace = map<string, seq<Message>>

  function Key(session: string): string {
    "conv:" + session
  }

  function Turn(userMsg: string, assistantMsg: string): seq<Message> {
    [Message("user", userMsg), Message("assistant", assistantMsg)]
  }

  function Read(keys: Keyspace, window: int, session: string, fails: bool): seq<Message> {
    if !fails && Key(session) in keys then TakeLast(keys[Key(session)], window) else []
  }

  /** What a sequence of calls sees: each call may find the store failing; keys may expire in between. */
  datatype Event =
    | AddTurn(session: string, userMsg: string, assistantMsg: string, readFails: bool, writeFails: bool)
    | Clear(session: string, fails: bool)
    | Expire(session: string)

  function Step(keys: Keyspace, window: int, e: Event): Keyspace {
    match e
    case AddTurn(s, u, a, readFails, writeFails) =>
      if writeFails then keys
      else keys[Key(s) := TakeLast(Read(keys, window, s, readFails) + Turn(u, a), window)]
    case Clear(s, fails) => if fails then keys else keys - {Key(s)}
    case Expire(s) => keys - {Key(s)}
  }

  class ConversationMemory {
    const window: int
    var redis: Keyspace

    constructor (window: int)
      ensures this.window == window && redis == map[]
    {
      this.window := window;
      redis := map[];
    }

    method GetHistory(session: string, fails: bool) returns (history: seq<Message>)
      ensures history == Read(redis, window, session, fails)
    {
      if !fails && Key(session) in redis {
        return TakeLast(redis[Key(session)], window);
      }
      return [];
    }

    method AddTurn(session: string, userMsg: string, assistantMsg: string, readFails: bool, writeFails: bool)
      modifies this
      ensures redis == Step(old(redis), window, Event.AddTurn(session, userMsg, assistantMsg, readFails, writeFails))
    {
      var history := GetHistory(session, readFails);
      history := history + [Message("user", userMsg)];
      history := history + [Message("assistant", assistantMsg)];
      assert history == Read(redis, window, session, readFails) + Turn(userMsg, assistantMsg);
      history := TakeLast(history, window);
      if !writeFails {
        redis := redis[Key(session) := history];
      }
    }

    method Clear(session: string, fails: bool)
      modifies this
      ensures redis == Step(old(redis), window, Event.Clear(session, fails))
    {
      if !fails {
        redis := redis - {Key(session)};
      }
    }
  }

  // ---------------------------------------------------------------- the conversation since it last started afresh

  function Run(events: seq<Event>, window: int): Keyspace {
    if events == [] then map[] else Step(Run(events[..|events| - 1], window), window, events[|events| - 1])
  }

  /** How one event changes the conversation of `session`; a failed read before a successful write starts it afresh. */
  function Continued(before: seq<Message>, e: Event, session: string): seq<Message> {
    if e.session != session then before
    else
      match e
      case AddTurn(_, u, a, readFails, writeFails) =>
        if writeFails then before else if readFails then Turn(u, a) else before + Turn(u, a)
      case Clear(_, fails) => if fails then before else []
      case Expire(_) => []
  }

  /** Every message written since the conversation last started afresh. */
  function Transcript(events: seq<Event>, session: string): seq<Message> {
    if events == [] then [] else Continued(Transcript(events[..|events| - 1], session), events[|events| - 1], session)
  }

  function Kept(keys: Keyspace, session: string): seq<Message> {
    if Key(session) in keys then keys[Key(session)] else []
  }

  lemma KeysApart(s1: string, s2: string)
    ensures Key(s1) == Key(s2) <==> s1 == s2
  {
    assert Key(s1)[5..] == s1 && Key(s2)[5..] == s2;
  }

  lemma TailOfTail<T>(s: seq<T>, t: seq<T>, n: int)
    requires 0 <= n
    ensures TakeLast(TakeLast(s, n) + t, n) == TakeLast(s + t, n)
  {
    var kept := TakeLast(s, n);
    if n < |s| && 0 < n {
      assert kept == s[|s| - n..];
      assert s + t == s[..|s| - n] + (kept + t);
      assert (s + t)[|s| + |t| - n..] == (kept + t)[|t|..];
    }
  }

  lemma TailAgain<T>(s: seq<T>, n: int)
    requires 0 <= n
    ensures TakeLast(TakeLast(s, n), n) == TakeLast(s, n)
  {
  }

  lemma StepKeepsTail(keys: Keyspace, window: int, e: Event, session: string, before: seq<Message>)
    requires 0 <= window
    requires Kept(keys, session) == TakeLast(before, window)
    ensures Kept(Step(keys, window, e), session) == TakeLast(Continued(before, e, session), window)
  {
    KeysApart(e.session, session);
    if e.session == session && e.AddTurn? && !e.writeFails {
      var turn := Turn(e.userMsg, e.assistantMsg);
      if e.readFails {
        assert [] + turn == turn;
      } else {
        TailAgain(before, window);
        TailOfTail(before, turn, window);
        assert Read(keys, window, session, false) == TakeLast(before, window);
      }
      hide TakeLast;
    }
  }

  /**
   In every session, after any events, the stored history is the last `window` messages of the
   transcript; a window of zero, whose slice is the whole list, keeps all of it.
   */
  lemma {:induction false} MemoryIsTail(events: seq<Event>, window: int, session: string)
    requires 0 <= window
    ensures Kept(Run(events, window), session) == TakeLast(Transcript(events, session), window)
    ensures Read(Run(events, window), window, session, false) == TakeLast(Transcript(events, session), window)
  {
    if events != [] {
      var front := events[..|events| - 1];
      MemoryIsTail(front, window, session);
      StepKeepsTail(Run(front, window), window, events[|events| - 1], session, Transcript(front, session));
    }
    TailAgain(Transcript(events, session), window);
  }

  /** In every transcript user and assistant alternate, beginning with the user. */
  lemma {:induction false} TranscriptAlternates(events: seq<Event>, session: string)
    ensures |Transcript(events, session)| % 2 == 0
    ensures forall i :: 0 <= i < |Transcript(events, session)| ==>
      Transcript(events, session)[i].role == if i % 2 == 0 then "user" else "assistant"
  {
    if events != [] {
      TranscriptAlternates(events[..|events| - 1], session);
    }
  }

  /** Once a turn is written, its two messages are the last ones stored, if the window has room for them. */
  lemma LatestTurn(events: seq<Event>, window: int, session: string, userMsg: string, assistantMsg: string,
                   readFails: bool)
    requires 2 <= window || window == 0
    ensures var turn := AddTurn(session, userMsg, assistantMsg, readFails, false);
      var history := Kept(Run(events + [turn], window), session);
      && 2 <= |history|
      && history[|history| - 2] == Message("user", userMsg)
      && history[|history| - 1] == Message("assistant", assistantMsg)
  {
    var all := events + [AddTurn(session, userMsg, assistantMsg, readFails, false)];
    assert all[..|all| - 1] == events;
    MemoryIsTail(all, window, session);
    hide Run;
  }

  function Turns(n: nat): seq<Event> {
    if n == 0 then [] else Turns(n - 1) + [AddTurn("s", "u", "a", false, false)]
  }

  lemma TurnForgotten(keys: Keyspace, window: int)
    requires window < 0 && Read(keys, window, "s", false) == []
    ensures Read(Step(keys, window, AddTurn("s", "u", "a", false, false)), window, "s", false) == []
  {
  }

  lemma {:induction false} NegativeWindowForgets(n: nat, window: int)
    requires window < 0
    ensures Read(Run(Turns(n), window), window, "s", false) == []
    ensures |Transcript(Turns(n), "s")| == 2 * n
  {
    if n > 0 {
      hide Read, Step;
      NegativeWindowForgets(n - 1, window);
      assert Turns(n)[..|Turns(n)| - 1] == Turns(n - 1);
      TurnForgotten(Run(Turns(n - 1), window), window);
    } else {
      hide Step, Key;
    }
  }

  /**
   What a reader gets is the window's slice of the transcript, for every run, exactly when the window is not
   negative.
   */
  lemma WindowMustNotBeNegative(window: int)
    ensures (forall events, session ::
        Read(Run(events, window), window, session, false) == TakeLast(Transcript(events, session), window))
      <==> 0 <= window
  {
    if 0 <= window {
      forall events, session
        ensures Read(Run(events, window), window, session, false) == TakeLast(Transcript(events, session), window)
      {
        MemoryIsTail(events, window, session);
      }
    } else {
      NegativeWindowForgets(-window, window);
      assert Read(Run(Turns(-window), window), window, "s", false) != TakeLast(Transcript(Turns(-window), "s"), window);
    }
  }
}
