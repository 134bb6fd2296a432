/**
 Broadcasts that are suspended at every send while other tasks connect and disconnect.
 A suspended broadcast holds on to the list objects it found when it began.
 */
module Interleaving {
  import opened Connections

  datatype Target = Target(ch: string, list: nat)

  /**
   A broadcast in progress: `start` keeps what the target lists held when it began, `pos` and `idx`
   say which list and which element come next. Only a broadcast to all channels skips sockets it has `seen`.
   */
  datatype Task = Task(
    toAll: bool, targets: seq<Target>, start: seq<seq<Conn>>, pos: nat, idx: nat,
    seen: set<Socket>, sent: seq<Socket>, dead: seq<Dead>)

  datatype Action =
    | Connect(ch: string, c: Conn)
    | Disconnect(ws: Socket, ch: string)
    | Begin(ch: string)
    | BeginAll
    | Send(task: nat, ok: bool)  // the next element of the broadcast's current list is sent to
    | NextList(task: nat)        // the broadcast's current list has no next element
    | Finish(task: nat)          // the broadcast has no next list: it disconnects what failed, without a pause

  datatype System = System(reg: Registry, tasks: seq<Task>, completed: seq<Task>)

  const START := System(EMPTY, [], [])

  function Targets(reg: Registry, channels: seq<string>): seq<Target>
    requires forall c :: c in channels ==> c in reg.listId
  {
    seq(|channels|, i requires 0 <= i < |channels| =>
      assert channels[i] in channels; Target(channels[i], reg.listId[channels[i]]))
  }

  function Contents(reg: Registry, targets: seq<Target>): seq<seq<Conn>> {
    seq(|targets|, i requires 0 <= i < |targets| =>
      if targets[i].list < |reg.lists| then reg.lists[targets[i].list] else [])
  }

  function NewTask(reg: Registry, toAll: bool, channels: seq<string>): Task
    requires forall c :: c in channels ==> c in reg.listId
  {
    var targets := Targets(reg, channels);
    Task(toAll, targets, Contents(reg, targets), 0, 0, {}, [], [])
  }

  /** The list object the broadcast is reading, as it is now. */
  function Current(reg: Registry, t: Task): seq<Conn>
    requires t.pos < |t.targets|
  {
    if t.targets[t.pos].list < |reg.lists| then reg.lists[t.targets[t.pos].list] else []
  }

  function AfterSend(t: Task, c: Conn, ok: bool): Task
    requires t.pos < |t.targets|
  {
    if t.toAll && c.ws in t.seen then t.(idx := t.idx + 1)
    else t.(idx := t.idx + 1, seen := t.seen + {c.ws}, sent := t.sent + [c.ws],
            dead := if ok then t.dead else t.dead + [Dead(c.ws, t.targets[t.pos].ch)])
  }

  /** One step; an action that does not apply changes nothing. */
  function Apply(s: System, a: Action): (s': System)
    requires s.reg.Valid()
    ensures s'.reg.Valid()
  {
    match a
    case Connect(ch, c) =>
      ConnectLists(s.reg, ch, c);
      s.(reg := Connected(s.reg, ch, c))
    case Disconnect(ws, ch) =>
      DisconnectLists(s.reg, ws, ch);
      s.(reg := Disconnected(s.reg, ws, ch))
    case Begin(ch) =>
      s.(tasks := s.tasks + [NewTask(s.reg, false, if ch in s.reg.listId then [ch] else [])])
    case BeginAll =>
      s.(tasks := s.tasks + [NewTask(s.reg, true, s.reg.order)])
    case Send(i, ok) =>
      if i < |s.tasks| && s.tasks[i].pos < |s.tasks[i].targets| && s.tasks[i].idx < |Current(s.reg, s.tasks[i])|
      then s.(tasks := s.tasks[i := AfterSend(s.tasks[i], Current(s.reg, s.tasks[i])[s.tasks[i].idx], ok)])
      else s
    case NextList(i) =>
      if i < |s.tasks| && s.tasks[i].pos < |s.tasks[i].targets| && s.tasks[i].idx >= |Current(s.reg, s.tasks[i])|
      then s.(tasks := s.tasks[i := s.tasks[i].(pos := s.tasks[i].pos + 1, idx := 0)])
      else s
    case Finish(i) =>
      if i < |s.tasks| && s.tasks[i].pos >= |s.tasks[i].targets|
      then System(DropAll(s.reg, s.tasks[i].dead), s.tasks[..i] + s.tasks[i + 1..], s.completed + [s.tasks[i]])
      else s
  }

  function Run(actions: seq<Action>): (s: System)
    ensures s.reg.Valid()
  {
    if actions == [] then START else Apply(Run(actions[..|actions| - 1]), actions[|actions| - 1])
  }

  // ---------------------------------------------------------------- the indexes agree throughout

  /** Whenever a socket connects, it is not connected to any channel. */
  ghost predicate OneChannelAtATime(actions: seq<Action>) {
    forall k :: 0 <= k < |actions| && actions[k].Connect? ==> !Present(Run(actions[..k]).reg, actions[k].c.ws)
  }

  lemma ApplyKeepsInv(s: System, a: Action)
    requires Inv(s.reg)
    requires a.Connect? ==> !Present(s.reg, a.c.ws)
    ensures Inv(Apply(s, a).reg)
  {
    hide Registry.Valid, Single, Agree, Connected, Disconnected, DropAll, NewTask, Current, AfterSend;
    match a
    case Connect(ch, c) => ConnectKeepsInv(s.reg, ch, c);
    case Disconnect(ws, ch) => DisconnectKeepsInv(s.reg, ws, ch);
    case Finish(i) =>
      if i < |s.tasks| {
        DropAllKeepsInv(s.reg, s.tasks[i].dead);
      }
    case _ =>
  }

  lemma StartInv()
    ensures Inv(EMPTY)
  {
  }

  /** Under any interleaving in which no socket is in two channels at once, the two indexes agree in every state. */
  lemma {:induction false} IndexesAlwaysAgree(actions: seq<Action>)
    requires OneChannelAtATime(actions)
    ensures Inv(Run(actions).reg)
  {
    if actions == [] {
      StartInv();
    } else {
      var front := actions[..|actions| - 1];
      forall k | 0 <= k < |front| && front[k].Connect?
        ensures !Present(Run(front[..k]).reg, front[k].c.ws)
      {
        assert front[..k] == actions[..k];
      }
      IndexesAlwaysAgree(front);
      ApplyKeepsInv(Run(front), actions[|actions| - 1]);
    }
  }

  // ---------------------------------------------------------------- a suspended broadcast misses nobody

  /** List objects only ever grow. */
  ghost predicate Grown(a: Registry, b: Registry) {
    |a.lists| <= |b.lists| && forall k :: 0 <= k < |a.lists| ==> a.lists[k] <= b.lists[k]
  }

  lemma ConnectGrows(reg: Registry, ch: string, c: Conn)
    requires reg.Valid()
    ensures Grown(reg, Connected(reg, ch, c))
  {
  }

  lemma DisconnectGrows(reg: Registry, ws: Socket, ch: string)
    requires reg.Valid()
    ensures Grown(reg, Disconnected(reg, ws, ch))
  {
  }

  lemma {:induction false} DropAllGrows(reg: Registry, dead: seq<Dead>)
    requires reg.Valid()
    ensures Grown(reg, DropAll(reg, dead))
  {
    hide Registry.Valid, Disconnected;
    if dead != [] {
      DropAllGrows(reg, dead[..|dead| - 1]);
      DisconnectGrows(DropAll(reg, dead[..|dead| - 1]), dead[|dead| - 1].ws, dead[|dead| - 1].ch);
    }
  }

  /** The sockets of the first `n` entries were all sent to. */
  predicate Reached(t: Task, conns: seq<Conn>, n: nat) {
    forall j :: 0 <= j < n && j < |conns| ==> conns[j].ws in t.sent
  }

  /** Everyone who was in the lists already passed was sent to. */
  predicate Delivered(t: Task) {
    && |t.start| == |t.targets|
    && forall k :: 0 <= k < t.pos && k < |t.start| ==> Reached(t, t.start[k], |t.start[k]|)
  }

  /** A broadcast to one channel sends to the list's entries in order, to each once. */
  predicate InOrder(t: Task) {
    && |t.targets| == |t.start| <= 1
    && (|t.start| == 1 && t.pos == 1 ==> Sockets(t.start[0]) <= t.sent)
    && (|t.start| == 0 ==> t.sent == [])
  }

  /** A broadcast to all channels sends to no socket twice. */
  predicate NoRepeats(t: Task) {
    && (forall i, j :: 0 <= i < j < |t.sent| ==> t.sent[i] != t.sent[j])
    && (forall ws :: ws in t.sent ==> ws in t.seen)
    && (forall ws :: ws in t.seen ==> ws in t.sent)
  }

  ghost predicate TaskInv(reg: Registry, t: Task) {
    && Delivered(t) && t.pos <= |t.targets|
    && (forall k :: 0 <= k < |t.targets| ==>
          t.targets[k].list < |reg.lists| && t.start[k] <= reg.lists[t.targets[k].list])
    && (t.pos < |t.targets| ==> t.idx <= |Current(reg, t)| && Reached(t, Current(reg, t), t.idx))
    && (t.toAll ==> NoRepeats(t))
    && (!t.toAll ==> InOrder(t) && (t.pos < |t.targets| ==> t.sent == Sockets(Current(reg, t)[..t.idx])))
  }

  lemma GrownKeepsTask(a: Registry, b: Registry, t: Task)
    requires Grown(a, b) && TaskInv(a, t)
    ensures TaskInv(b, t)
  {
  }

  lemma NewTaskInv(reg: Registry, toAll: bool, channels: seq<string>)
    requires reg.Valid() && forall c :: c in channels ==> c in reg.listId
    requires toAll || |channels| <= 1
    ensures TaskInv(reg, NewTask(reg, toAll, channels))
  {
  }

  lemma SendDelivers(t: Task, c: Conn, conns: seq<Conn>, ok: bool)
    requires Delivered(t) && t.pos < |t.targets| && t.idx < |conns| && Reached(t, conns, t.idx) && c == conns[t.idx]
    requires t.toAll ==> NoRepeats(t)
    ensures Delivered(AfterSend(t, c, ok)) && Reached(AfterSend(t, c, ok), conns, t.idx + 1)
  {
    var t' := AfterSend(t, c, ok);
    assert c.ws in t'.sent && forall ws :: ws in t.sent ==> ws in t'.sent;
    hide AfterSend, NoRepeats;
  }

  lemma SendNoRepeats(t: Task, c: Conn, ok: bool)
    requires t.toAll && t.pos < |t.targets| && NoRepeats(t)
    ensures NoRepeats(AfterSend(t, c, ok))
  {
  }

  lemma SendInOrder(t: Task, conns: seq<Conn>, ok: bool)
    requires !t.toAll && t.pos < |t.targets| && InOrder(t) && t.idx < |conns| && t.sent == Sockets(conns[..t.idx])
    ensures var t' := AfterSend(t, conns[t.idx], ok);
      InOrder(t') && t'.sent == Sockets(conns[..t'.idx])
  {
    assert Sockets(conns[..t.idx + 1]) == Sockets(conns[..t.idx]) + [conns[t.idx].ws];
  }

  lemma SendKeepsTask(reg: Registry, t: Task, ok: bool)
    requires TaskInv(reg, t) && t.pos < |t.targets| && t.idx < |Current(reg, t)|
    ensures TaskInv(reg, AfterSend(t, Current(reg, t)[t.idx], ok))
  {
    var conns := Current(reg, t);
    SendDelivers(t, conns[t.idx], conns, ok);
    if t.toAll {
      SendNoRepeats(t, conns[t.idx], ok);
    } else {
      SendInOrder(t, conns, ok);
    }
    assert Current(reg, AfterSend(t, conns[t.idx], ok)) == conns;
    hide Delivered, Reached, NoRepeats, InOrder, Sockets, Current;
  }

  lemma NextListKeepsTask(reg: Registry, t: Task)
    requires TaskInv(reg, t) && t.pos < |t.targets| && t.idx >= |Current(reg, t)|
    ensures TaskInv(reg, t.(pos := t.pos + 1, idx := 0))
  {
    var conns, t' := Current(reg, t), t.(pos := t.pos + 1, idx := 0);
    assert t.idx == |conns| && t.start[t.pos] <= conns;
    assert Reached(t', t.start[t.pos], |t.start[t.pos]|);
    assert !t.toAll ==> t.sent == Sockets(conns) && Sockets(t.start[t.pos]) <= t.sent by {
      assert conns[..|conns|] == conns;
      assert Sockets(t.start[t.pos]) == Sockets(conns)[..|t.start[t.pos]|];
    }
    hide Sockets, NoRepeats, Current;
    assert Delivered(t');
    assert t'.pos < |t'.targets| ==> t'.idx <= |Current(reg, t')| && Reached(t', Current(reg, t'), t'.idx);
    assert !t'.toAll ==> InOrder(t') && t'.pos == |t'.targets|;
  }

  /**
   What holds of a broadcast that is over, however it was interrupted: everyone who was in its lists when
   it began was sent to; to one channel in the list's order, each entry once; to all channels, no socket twice.
   */
  ghost predicate Complete(t: Task) {
    && (forall k :: 0 <= k < |t.start| ==> Reached(t, t.start[k], |t.start[k]|))
    && (t.toAll ==> NoRepeats(t))
    && (!t.toAll ==>
          |t.start| <= 1 && (|t.start| == 1 ==> Sockets(t.start[0]) <= t.sent) && (t.start == [] ==> t.sent == []))
  }

  ghost predicate SystemInv(s: System) {
    && s.reg.Valid()
    && (forall i :: 0 <= i < |s.tasks| ==> TaskInv(s.reg, s.tasks[i]))
    && (forall i :: 0 <= i < |s.completed| ==> Complete(s.completed[i]))
  }

  lemma RegistryChanged(s: System, reg: Registry)
    requires SystemInv(s) && reg.Valid() && Grown(s.reg, reg)
    ensures SystemInv(s.(reg := reg))
  {
    hide Registry.Valid, TaskInv, Complete, Grown;
    forall i | 0 <= i < |s.tasks|
      ensures TaskInv(reg, s.tasks[i])
    {
      GrownKeepsTask(s.reg, reg, s.tasks[i]);
    }
  }

  lemma TaskAdded(s: System, t: Task)
    requires SystemInv(s) && TaskInv(s.reg, t)
    ensures SystemInv(s.(tasks := s.tasks + [t]))
  {
  }

  lemma TaskChanged(s: System, i: nat, t: Task)
    requires SystemInv(s) && i < |s.tasks| && TaskInv(s.reg, t)
    ensures SystemInv(s.(tasks := s.tasks[i := t]))
  {
  }

  lemma TaskOver(s: System, i: nat)
    requires SystemInv(s) && i < |s.tasks| && s.tasks[i].pos >= |s.tasks[i].targets|
    ensures SystemInv(s.(tasks := s.tasks[..i] + s.tasks[i + 1..], completed := s.completed + [s.tasks[i]]))
  {
  }

  lemma SendKeepsSystem(s: System, i: nat, ok: bool)
    requires SystemInv(s)
    ensures SystemInv(Apply(s, Send(i, ok)))
  {
    hide Registry.Valid, AfterSend, TaskInv, Complete, Current;
    if i < |s.tasks| && s.tasks[i].pos < |s.tasks[i].targets| && s.tasks[i].idx < |Current(s.reg, s.tasks[i])| {
      SendKeepsTask(s.reg, s.tasks[i], ok);
      TaskChanged(s, i, AfterSend(s.tasks[i], Current(s.reg, s.tasks[i])[s.tasks[i].idx], ok));
    }
  }

  lemma NextListKeepsSystem(s: System, i: nat)
    requires SystemInv(s)
    ensures SystemInv(Apply(s, NextList(i)))
  {
    hide Registry.Valid, TaskInv, Complete, Current;
    if i < |s.tasks| && s.tasks[i].pos < |s.tasks[i].targets| && s.tasks[i].idx >= |Current(s.reg, s.tasks[i])| {
      NextListKeepsTask(s.reg, s.tasks[i]);
      TaskChanged(s, i, s.tasks[i].(pos := s.tasks[i].pos + 1, idx := 0));
    }
  }

  lemma FinishKeepsSystem(s: System, i: nat)
    requires SystemInv(s)
    ensures SystemInv(Apply(s, Finish(i)))
  {
    hide Registry.Valid, TaskInv, Complete, DropAll, Grown;
    if i < |s.tasks| && s.tasks[i].pos >= |s.tasks[i].targets| {
      TaskOver(s, i);
      DropAllGrows(s.reg, s.tasks[i].dead);
      var rest := s.(tasks := s.tasks[..i] + s.tasks[i + 1..], completed := s.completed + [s.tasks[i]]);
      RegistryChanged(rest, DropAll(s.reg, s.tasks[i].dead));
    }
  }

  lemma BeginKeepsSystem(s: System, toAll: bool, channels: seq<string>)
    requires SystemInv(s) && (forall c :: c in channels ==> c in s.reg.listId) && (toAll || |channels| <= 1)
    ensures SystemInv(s.(tasks := s.tasks + [NewTask(s.reg, toAll, channels)]))
  {
    NewTaskInv(s.reg, toAll, channels);
    hide Registry.Valid, TaskInv, Complete, NewTask;
    TaskAdded(s, NewTask(s.reg, toAll, channels));
  }

  lemma ApplyKeepsTasks(s: System, a: Action)
    requires SystemInv(s)
    ensures SystemInv(Apply(s, a))
  {
    assert s.reg.Valid() && forall c :: c in s.reg.order ==> c in s.reg.listId;
    hide Registry.Valid, Connected, Disconnected, Grown, SystemInv, NewTask;
    match a
    case Connect(ch, c) =>
      ConnectGrows(s.reg, ch, c);
      RegistryChanged(s, Apply(s, a).reg);
    case Disconnect(ws, ch) =>
      DisconnectGrows(s.reg, ws, ch);
      RegistryChanged(s, Apply(s, a).reg);
    case Begin(ch) => BeginKeepsSystem(s, false, if ch in s.reg.listId then [ch] else []);
    case BeginAll => BeginKeepsSystem(s, true, s.reg.order);
    case Send(i, ok) => SendKeepsSystem(s, i, ok);
    case NextList(i) => NextListKeepsSystem(s, i);
    case Finish(i) => FinishKeepsSystem(s, i);
  }

  // ---------------------------------------------------------------- who joins and leaves in the meantime

  /** A broadcast that is reading a channel's current list also comes to those who connect to the channel meanwhile. */
  lemma ConnectIsSeen(s: System, ch: string, c: Conn, t: Task)
    requires s.reg.Valid() && t.pos < |t.targets| && t.targets[t.pos].list < |s.reg.lists|
    ensures Current(Apply(s, Connect(ch, c)).reg, t) ==
      if ch in s.reg.listId && t.targets[t.pos].list == s.reg.listId[ch]
      then Current(s.reg, t) + [c] else Current(s.reg, t)
  {
  }

  /** It still comes to those who disconnect meanwhile. */
  lemma DisconnectIsNotSeen(s: System, ws: Socket, ch: string, t: Task)
    requires s.reg.Valid() && t.pos < |t.targets| && t.targets[t.pos].list < |s.reg.lists|
    ensures Current(Apply(s, Disconnect(ws, ch)).reg, t) == Current(s.reg, t)
  {
  }

  // ---------------------------------------------------------------- what a broadcast found when it began

  /** The channels a new broadcast is meant for: the named one, if it has a list, or all of them. */
  function Channels(reg: Registry, a: Action): seq<string>
    requires a.Begin? || a.BeginAll?
  {
    if a.BeginAll? then reg.order else if a.ch in reg.listId then [a.ch] else []
  }

  /** `t` began with the action `a`: it took down the list of each channel it is meant for. */
  ghost predicate BegunBy(reg: Registry, a: Action, t: Task)
    requires reg.Valid()
  {
    && (a.Begin? || a.BeginAll?) && t.toAll == a.BeginAll?
    && |t.start| == |Channels(reg, a)|
    && forall i :: 0 <= i < |t.start| ==> t.start[i] == ListOf(reg, Channels(reg, a)[i])
  }

  /** `t` began in this run. */
  ghost predicate Begun(actions: seq<Action>, t: Task) {
    exists k :: 0 <= k < |actions| && BegunBy(Run(actions[..k]).reg, actions[k], t)
  }

  predicate Known(s: System, t: Task) {
    t in s.tasks || t in s.completed
  }

  lemma NewTaskBegun(s: System, a: Action)
    requires s.reg.Valid() && (a.Begin? || a.BeginAll?)
    ensures var t := NewTask(s.reg, a.BeginAll?, Channels(s.reg, a));
      BegunBy(s.reg, a, t) && Apply(s, a) == s.(tasks := s.tasks + [t])
  {
  }

  /** After a step, every broadcast has either begun with it or is an earlier one that took down the same lists. */
  lemma EarlierTask(s: System, a: Action, t: Task)
    requires s.reg.Valid() && Known(Apply(s, a), t) && !BegunBy(s.reg, a, t)
    ensures exists u :: Known(s, u) && u.toAll == t.toAll && u.start == t.start
  {
    hide Registry.Valid, BegunBy, Connected, Disconnected, DropAll, NewTask, Current;
    if a.Begin? || a.BeginAll? {
      NewTaskBegun(s, a);
      assert Known(s, t);
    } else if !Known(s, t) {
      assert (a.Send? || a.NextList?) && a.task < |s.tasks| && t == Apply(s, a).tasks[a.task];
      assert Known(s, s.tasks[a.task]);
    }
  }

  lemma SameBeginning(reg: Registry, a: Action, u: Task, t: Task)
    requires reg.Valid() && BegunBy(reg, a, u) && u.toAll == t.toAll && u.start == t.start
    ensures BegunBy(reg, a, t)
  {
  }

  lemma BegunEarlier(actions: seq<Action>, u: Task, t: Task)
    requires actions != [] && Begun(actions[..|actions| - 1], u) && u.toAll == t.toAll && u.start == t.start
    ensures Begun(actions, t)
  {
    hide Run, BegunBy;
    var front := actions[..|actions| - 1];
    var k :| 0 <= k < |front| && BegunBy(Run(front[..k]).reg, front[k], u);
    SameBeginning(Run(front[..k]).reg, front[k], u, t);
    assert front[..k] == actions[..k];
  }

  lemma BegunNow(actions: seq<Action>, t: Task)
    requires actions != [] && BegunBy(Run(actions[..|actions| - 1]).reg, actions[|actions| - 1], t)
    ensures Begun(actions, t)
  {
  }

  lemma {:induction false} TasksBegun(actions: seq<Action>, t: Task)
    requires Known(Run(actions), t)
    ensures Begun(actions, t)
  {
    if actions != [] {
      var front, a := actions[..|actions| - 1], actions[|actions| - 1];
      assert Run(actions) == Apply(Run(front), a);
      hide *;
      if BegunBy(Run(front).reg, a, t) {
        BegunNow(actions, t);
      } else {
        EarlierTask(Run(front), a, t);
        var u :| Known(Run(front), u) && u.toAll == t.toAll && u.start == t.start;
        TasksBegun(front, u);
        BegunEarlier(actions, u, t);
      }
    }
  }

  lemma {:induction false} SystemInvHolds(actions: seq<Action>)
    ensures SystemInv(Run(actions))
  {
    if actions != [] {
      SystemInvHolds(actions[..|actions| - 1]);
      ApplyKeepsTasks(Run(actions[..|actions| - 1]), actions[|actions| - 1]);
      hide SystemInv;
    }
  }

  /**
   In every state of every run, every broadcast that is over began with a step of the run, and has since
   sent to everyone who was then listed in the channels it was meant for.
   */
  lemma NobodyMissed(actions: seq<Action>)
    ensures SystemInv(Run(actions))
    ensures forall t :: t in Run(actions).completed ==> Begun(actions, t) && Complete(t)
  {
    SystemInvHolds(actions);
    forall t | t in Run(actions).completed
      ensures Begun(actions, t) && Complete(t)
    {
      TasksBegun(actions, t);
    }
  }

  // ---------------------------------------------------------------- a broadcast drops what failed, and nothing else

  /** A send that reaches an entry succeeds exactly if its socket does not fail. */
  predicate Honest(s: System, a: Action, fails: Socket -> bool) {
    a.Send? && a.task < |s.tasks| && s.tasks[a.task].pos < |s.tasks[a.task].targets|
    && s.tasks[a.task].idx < |Current(s.reg, s.tasks[a.task])| ==>
      a.ok == !fails(Current(s.reg, s.tasks[a.task])[s.tasks[a.task].idx].ws)
  }

  ghost predicate AllHonest(actions: seq<Action>, fails: Socket -> bool) {
    forall k :: 0 <= k < |actions| ==> Honest(Run(actions[..k]), actions[k], fails)
  }

  /** The socket is in the list that the broadcast took for the channel. */
  ghost predicate TargetLists(reg: Registry, t: Task, d: Dead) {
    exists k :: 0 <= k < |t.targets| && t.targets[k].ch == d.ch && InList(reg, t.targets[k].list, d.ws)
  }

  predicate InList(reg: Registry, list: nat, ws: Socket) {
    list < |reg.lists| && ws in Sockets(reg.lists[list])
  }

  /**
   The broadcast has noted exactly the failing ones among the sockets it sent to, each in a channel where it was
   listed.
   */
  ghost predicate NotesFailures(reg: Registry, t: Task, fails: Socket -> bool) {
    && (forall d :: d in t.dead ==> fails(d.ws) && d.ws in t.sent && TargetLists(reg, t, d))
    && (forall ws :: ws in t.sent && fails(ws) ==> exists d :: d in t.dead && d.ws == ws)
  }

  ghost predicate AllNoteFailures(s: System, fails: Socket -> bool) {
    forall t :: Known(s, t) ==> NotesFailures(s.reg, t, fails)
  }

  lemma GrownKeepsNotes(a: Registry, b: Registry, t: Task, fails: Socket -> bool)
    requires Grown(a, b) && NotesFailures(a, t, fails)
    ensures NotesFailures(b, t, fails)
  {
    forall d | d in t.dead
      ensures TargetLists(b, t, d)
    {
      var k :| 0 <= k < |t.targets| && t.targets[k].ch == d.ch && InList(a, t.targets[k].list, d.ws);
      GrownKeepsSocket(a, b, t.targets[k].list, d.ws);
    }
  }

  lemma GrownKeepsSocket(a: Registry, b: Registry, list: nat, ws: Socket)
    requires Grown(a, b) && InList(a, list, ws)
    ensures InList(b, list, ws)
  {
    var i :| 0 <= i < |Sockets(a.lists[list])| && Sockets(a.lists[list])[i] == ws;
    assert Sockets(b.lists[list])[i] == ws;
  }

  lemma SendKeepsNotes(reg: Registry, t: Task, ok: bool, fails: Socket -> bool)
    requires NotesFailures(reg, t, fails) && t.pos < |t.targets| && t.idx < |Current(reg, t)|
    requires ok == !fails(Current(reg, t)[t.idx].ws)
    ensures NotesFailures(reg, AfterSend(t, Current(reg, t)[t.idx], ok), fails)
  {
    var c := Current(reg, t)[t.idx];
    var t' := AfterSend(t, c, ok);
    assert Sockets(Current(reg, t))[t.idx] == c.ws;
    assert InList(reg, t.targets[t.pos].list, c.ws);
    forall d | d in t'.dead
      ensures fails(d.ws) && d.ws in t'.sent && TargetLists(reg, t', d)
    {
      if d in t.dead {
        assert TargetLists(reg, t, d);
      } else {
        assert d == Dead(c.ws, t.targets[t.pos].ch);
      }
    }
    forall ws | ws in t'.sent && fails(ws)
      ensures exists d :: d in t'.dead && d.ws == ws
    {
      if ws in t.sent {
        var d :| d in t.dead && d.ws == ws;
        assert d in t'.dead;
      } else {
        assert Dead(c.ws, t.targets[t.pos].ch) in t'.dead;
      }
    }
  }

  lemma ApplyKeepsNotes(s: System, a: Action, t: Task, fails: Socket -> bool)
    requires s.reg.Valid() && AllNoteFailures(s, fails) && Honest(s, a, fails) && Known(Apply(s, a), t)
    ensures NotesFailures(Apply(s, a).reg, t, fails)
  {
    ApplyGrows(s, a);
    hide Registry.Valid, Connected, Disconnected, DropAll, Grown;
    if a.Begin? || a.BeginAll? {
      NewTaskBegun(s, a);
      if t !in s.tasks && t !in s.completed {
        assert t.dead == [] && t.sent == [];
      } else {
        assert Known(s, t);
      }
    } else if Known(s, t) {
      GrownKeepsNotes(s.reg, Apply(s, a).reg, t, fails);
    } else {
      assert (a.Send? || a.NextList?) && a.task < |s.tasks| && t == Apply(s, a).tasks[a.task];
      assert Known(s, s.tasks[a.task]);
      if a.Send? {
        SendKeepsNotes(s.reg, s.tasks[a.task], a.ok, fails);
      } else {
        NextListKeepsNotes(s.reg, s.tasks[a.task], fails);
      }
    }
  }

  lemma NextListKeepsNotes(reg: Registry, t: Task, fails: Socket -> bool)
    requires NotesFailures(reg, t, fails)
    ensures NotesFailures(reg, t.(pos := t.pos + 1, idx := 0), fails)
  {
    assert forall d :: TargetLists(reg, t, d) ==> TargetLists(reg, t.(pos := t.pos + 1, idx := 0), d);
    hide TargetLists;
  }

  lemma ApplyGrows(s: System, a: Action)
    requires s.reg.Valid()
    ensures Grown(s.reg, Apply(s, a).reg)
  {
    hide Registry.Valid, Connected, Disconnected, DropAll, NewTask, AfterSend, Current;
    match a
    case Connect(ch, c) => ConnectGrows(s.reg, ch, c);
    case Disconnect(ws, ch) => DisconnectGrows(s.reg, ws, ch);
    case Finish(i) =>
      if i < |s.tasks| {
        DropAllGrows(s.reg, s.tasks[i].dead);
      }
    case _ =>
  }

  lemma HonestFront(actions: seq<Action>, fails: Socket -> bool)
    requires AllHonest(actions, fails) && actions != []
    ensures AllHonest(actions[..|actions| - 1], fails)
    ensures Honest(Run(actions[..|actions| - 1]), actions[|actions| - 1], fails)
  {
    var front := actions[..|actions| - 1];
    hide Run, Honest;
    forall k | 0 <= k < |front|
      ensures Honest(Run(front[..k]), front[k], fails)
    {
      FrontPrefix(actions, k);
    }
  }

  lemma FrontPrefix(actions: seq<Action>, k: nat)
    requires k < |actions| - 1
    ensures actions[..|actions| - 1][..k] == actions[..k] && actions[..|actions| - 1][k] == actions[k]
  {
  }

  /**
   In every run with honest sends, every broadcast, suspended or over, has noted exactly the failures among its
   sends.
   */
  lemma {:induction false} FailuresNoted(actions: seq<Action>, fails: Socket -> bool)
    requires AllHonest(actions, fails)
    ensures AllNoteFailures(Run(actions), fails)
  {
    if actions != [] {
      var front, a := actions[..|actions| - 1], actions[|actions| - 1];
      assert Run(actions) == Apply(Run(front), a);
      HonestFront(actions, fails);
      FailuresNoted(front, fails);
      hide NotesFailures, Apply, Known, Run, Honest, AllHonest;
      forall t | Known(Run(actions), t)
        ensures NotesFailures(Run(actions).reg, t, fails)
      {
        ApplyKeepsNotes(Run(front), a, t, fails);
      }
    }
  }

  lemma NotedIffFailing(reg: Registry, t: Task, fails: Socket -> bool, ch: string, ws: Socket)
    requires NotesFailures(reg, t, fails)
    ensures !fails(ws) ==> Dead(ws, ch) !in t.dead
    ensures fails(ws) && ws in t.sent ==> exists d :: d in t.dead && d.ws == ws && TargetLists(reg, t, d)
    ensures fails(ws) && ws in t.sent && |t.targets| == 1 && t.targets[0].ch == ch ==> Dead(ws, ch) in t.dead
  {
    hide InList;
    if fails(ws) && ws in t.sent {
      var d :| d in t.dead && d.ws == ws;
      assert TargetLists(reg, t, d) && d == Dead(ws, d.ch);
    }
  }

  lemma DropsWhatItNoted(reg: Registry, t: Task, fails: Socket -> bool, ch: string, c: Conn)
    requires reg.Valid() && NotesFailures(reg, t, fails)
    ensures var next := DropAll(reg, t.dead);
      && (c in ListOf(next, ch) <==> c in ListOf(reg, ch) && Dead(c.ws, ch) !in t.dead)
      && (c in ListOf(reg, ch) && !fails(c.ws) ==> c in ListOf(next, ch))
      && (fails(c.ws) && c.ws in t.sent ==> exists d :: d in t.dead && d.ws == c.ws && TargetLists(reg, t, d))
      && (fails(c.ws) && c.ws in t.sent && |t.targets| == 1 && t.targets[0].ch == ch ==> c !in ListOf(next, ch))
  {
    NotedIffFailing(reg, t, fails, ch, c.ws);
    hide *;
    DropAllExact(reg, t.dead, ch, c);
  }

  lemma FinishIsDropAll(s: System, i: nat)
    requires s.reg.Valid() && i < |s.tasks| && s.tasks[i].pos >= |s.tasks[i].targets|
    ensures Apply(s, Finish(i)).reg == DropAll(s.reg, s.tasks[i].dead)
  {
    hide Registry.Valid, DropAll;
  }

  lemma TaskNotesFailures(actions: seq<Action>, fails: Socket -> bool, i: nat)
    requires AllHonest(actions, fails) && i < |Run(actions).tasks|
    ensures NotesFailures(Run(actions).reg, Run(actions).tasks[i], fails)
  {
    FailuresNoted(actions, fails);
    assert Known(Run(actions), Run(actions).tasks[i]);
  }

  /**
   The step that ends a broadcast removes from each channel exactly the entries it noted. So nothing that does not
   fail is removed, and every failing socket it sent to leaves a channel where it was listed: the only one the
   broadcast was meant for, if it was not meant for all.
   */
  lemma FinishDropsFailures(actions: seq<Action>, fails: Socket -> bool, i: nat, ch: string, c: Conn)
    requires AllHonest(actions, fails)
    requires i < |Run(actions).tasks| && Run(actions).tasks[i].pos >= |Run(actions).tasks[i].targets|
    ensures var s, t := Run(actions), Run(actions).tasks[i];
      var next := Apply(s, Finish(i));
      && (c in ListOf(next.reg, ch) <==> c in ListOf(s.reg, ch) && Dead(c.ws, ch) !in t.dead)
      && (c in ListOf(s.reg, ch) && !fails(c.ws) ==> c in ListOf(next.reg, ch))
      && (fails(c.ws) && c.ws in t.sent ==> exists d :: d in t.dead && d.ws == c.ws && TargetLists(s.reg, t, d))
      && (fails(c.ws) && c.ws in t.sent && |t.targets| == 1 && t.targets[0].ch == ch ==> c !in ListOf(next.reg, ch))
  {
    var s, t := Run(actions), Run(actions).tasks[i];
    hide *;
    TaskNotesFailures(actions, fails, i);
    FinishIsDropAll(s, i);
    DropsWhatItNoted(s.reg, t, fails, ch, c);
  }
}
