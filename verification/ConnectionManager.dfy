/**
 The WebSocket registry: connections by channel and sockets by user. A channel's list is
 an object of its own: `connect` appends to it in place, `disconnect` puts a new list in
 its place, and a broadcast goes on reading the list object it started with.
 */
module Connections {
  import opened Wrappers

  type Socket = nat

  datatype Conn = Conn(ws: Socket, uid: string, name: string)

  /**
   `lists` is the heap of list objects, `listId` says which one is a channel's current list,
   `order` holds the channels in insertion order, and `users` is the index by user.
   */
  datatype Registry = Registry(lists: seq<seq<Conn>>, order: seq<string>, listId: map<string, nat>,
                               users: map<string, seq<Socket>>) {
    ghost predicate Valid() {
      && (forall c :: c in order <==> c in listId)
      && (forall i, j :: 0 <= i < j < |order| ==> order[i] != order[j])
      && (forall c :: c in listId ==> listId[c] < |lists|)
      && (forall c, d :: c in listId && d in listId && c != d ==> listId[c] != listId[d])
    }
  }

  const EMPTY := Registry([], [], map[], map[])

  function ListOf(reg: Registry, ch: string): seq<Conn>
    requires reg.Valid()
  {
    if ch in reg.listId then reg.lists[reg.listId[ch]] else []
  }

  function Held(reg: Registry, uid: string): seq<Socket> {
    if uid in reg.users then reg.users[uid] else []
  }

  /** Reading a missing channel of a defaultdict adds it with a new empty list. */
  function Touched(reg: Registry, ch: string): Registry {
    if ch in reg.listId then reg
    else reg.(lists := reg.lists + [[]], order := reg.order + [ch], listId := reg.listId[ch := |reg.lists|])
  }

  function WithoutSocket(conns: seq<Conn>, ws: Socket): seq<Conn> {
    if conns == [] then []
    else WithoutSocket(conns[..|conns| - 1], ws) + if conns[|conns| - 1].ws == ws then [] else [conns[|conns| - 1]]
  }

  function Drop(sockets: seq<Socket>, ws: Socket): seq<Socket> {
    if sockets == [] then []
    else Drop(sockets[..|sockets| - 1], ws) + if sockets[|sockets| - 1] == ws then [] else [sockets[|sockets| - 1]]
  }

  /** The user of the first entry of a socket. */
  function FirstUid(conns: seq<Conn>, ws: Socket): Option<string> {
    if conns == [] then None
    else if conns[0].ws == ws then Some(conns[0].uid)
    else FirstUid(conns[1..], ws)
  }

  /** Appends to the channel's current list object. */
  function AppendedTo(t: Registry, ch: string, c: Conn): Registry
    requires t.Valid() && ch in t.listId
  {
    t.(lists := t.lists[t.listId[ch] := t.lists[t.listId[ch]] + [c]])
  }

  /** Puts a new list object in the place of the channel's current one. */
  function Rebound(t: Registry, ch: string, conns: seq<Conn>): Registry {
    t.(lists := t.lists + [conns], listId := t.listId[ch := |t.lists|])
  }

  function Connected(reg: Registry, ch: string, c: Conn): Registry
    requires reg.Valid()
  {
    TouchedLists(reg, ch);
    var t := AppendedTo(Touched(reg, ch), ch, c);
    t.(users := t.users[c.uid := Held(t, c.uid) + [c.ws]])
  }

  function Disconnected(reg: Registry, ws: Socket, ch: string): Registry
    requires reg.Valid()
  {
    TouchedLists(reg, ch);
    var conns := ListOf(Touched(reg, ch), ch);
    var t := Rebound(Touched(reg, ch), ch, WithoutSocket(conns, ws));
    match FirstUid(conns, ws)
    case None => t
    case Some(uid) => t.(users := t.users[uid := Drop(Held(t, uid), ws)])
  }

  // ---------------------------------------------------------------- the two indexes

  datatype Pair = Pair(ws: Socket, uid: string)

  function PairsOf(conns: seq<Conn>): multiset<Pair> {
    if conns == [] then multiset{}
    else PairsOf(conns[..|conns| - 1]) + multiset{Pair(conns[|conns| - 1].ws, conns[|conns| - 1].uid)}
  }

  function Gather(reg: Registry, channels: seq<string>): multiset<Pair>
    requires reg.Valid()
  {
    if channels == [] then multiset{}
    else Gather(reg, channels[..|channels| - 1]) + PairsOf(ListOf(reg, channels[|channels| - 1]))
  }

  /** Who is connected with which socket, over all channels, counted as often as it is listed. */
  function AllPairs(reg: Registry): multiset<Pair>
    requires reg.Valid()
  {
    Gather(reg, reg.order)
  }

  function Times(sockets: seq<Socket>, ws: Socket): nat {
    multiset(sockets)[ws]
  }

  predicate AgreeOn(reg: Registry, p: Pair)
    requires reg.Valid()
  {
    Times(Held(reg, p.uid), p.ws) == AllPairs(reg)[p]
  }

  /** A user's socket list is the multiset of that user's sockets over all channels. */
  ghost predicate Agree(reg: Registry)
    requires reg.Valid()
  {
    forall p :: AgreeOn(reg, p)
  }

  // ---------------------------------------------------------------- how the operations change the lists

  lemma TouchedLists(reg: Registry, ch: string)
    requires reg.Valid()
    ensures Touched(reg, ch).Valid() && ch in Touched(reg, ch).listId
    ensures forall c :: ListOf(Touched(reg, ch), c) == ListOf(reg, c)
  {
    if ch !in reg.listId {
      var t := Touched(reg, ch);
      assert forall c :: c in t.order <==> c in reg.order || c == ch;
    }
  }

  lemma TouchedSame(reg: Registry, ch: string)
    requires reg.Valid()
    ensures Touched(reg, ch).Valid() && AllPairs(Touched(reg, ch)) == AllPairs(reg)
  {
    TouchedLists(reg, ch);
    var t := Touched(reg, ch);
    if ch !in reg.listId {
      assert t.order[..|t.order| - 1] == reg.order && t.order[|t.order| - 1] == ch;
      assert ListOf(t, ch) == ListOf(reg, ch) == [];
      hide ListOf, Registry.Valid;
      GatherSame(reg, t, reg.order);
    }
  }

  lemma {:induction false} GatherSame(a: Registry, b: Registry, channels: seq<string>)
    requires a.Valid() && b.Valid()
    requires forall c :: c in channels ==> ListOf(a, c) == ListOf(b, c)
    ensures Gather(a, channels) == Gather(b, channels)
  {
    if channels != [] {
      GatherSame(a, b, channels[..|channels| - 1]);
    }
  }

  /** When one channel's list changes, the gathered pairs change by the difference. */
  lemma {:induction false} GatherChange(a: Registry, b: Registry, ch: string, channels: seq<string>)
    requires a.Valid() && b.Valid() && ch in channels
    requires forall i, j :: 0 <= i < j < |channels| ==> channels[i] != channels[j]
    requires forall c :: c in channels && c != ch ==> ListOf(a, c) == ListOf(b, c)
    ensures Gather(b, channels) + PairsOf(ListOf(a, ch)) == Gather(a, channels) + PairsOf(ListOf(b, ch))
  {
    var front, last := channels[..|channels| - 1], channels[|channels| - 1];
    assert channels == front + [last];
    if last == ch {
      GatherSame(a, b, front);
    } else {
      GatherChange(a, b, ch, front);
    }
  }

  lemma {:induction false} PairsWithoutSocket(conns: seq<Conn>, ws: Socket, p: Pair)
    ensures PairsOf(WithoutSocket(conns, ws))[p] == if p.ws == ws then 0 else PairsOf(conns)[p]
  {
    if conns != [] {
      var front, last := conns[..|conns| - 1], conns[|conns| - 1];
      PairsWithoutSocket(front, ws, p);
      if last.ws != ws {
        assert (WithoutSocket(front, ws) + [last])[..|WithoutSocket(front, ws)|] == WithoutSocket(front, ws);
      } else {
        assert WithoutSocket(front, ws) + [] == WithoutSocket(front, ws);
      }
    }
  }

  lemma {:induction false} TimesDrop(sockets: seq<Socket>, ws: Socket, x: Socket)
    ensures Times(Drop(sockets, ws), x) == if x == ws then 0 else Times(sockets, x)
  {
    if sockets != [] {
      TimesDrop(sockets[..|sockets| - 1], ws, x);
      assert sockets == sockets[..|sockets| - 1] + [sockets[|sockets| - 1]];
    }
  }

  lemma {:induction false} FirstUidSnoc(conns: seq<Conn>, last: Conn, ws: Socket)
    ensures FirstUid(conns + [last], ws) ==
      if FirstUid(conns, ws).Some? then FirstUid(conns, ws) else if last.ws == ws then Some(last.uid) else None
  {
    if conns != [] {
      FirstUidSnoc(conns[1..], last, ws);
      assert (conns + [last])[1..] == conns[1..] + [last];
    }
  }

  lemma {:induction false} FirstUidListed(conns: seq<Conn>, ws: Socket)
    ensures FirstUid(conns, ws).Some? ==> Pair(ws, FirstUid(conns, ws).value) in PairsOf(conns)
    ensures FirstUid(conns, ws).None? ==> forall uid :: PairsOf(conns)[Pair(ws, uid)] == 0
  {
    if conns != [] {
      var front, last := conns[..|conns| - 1], conns[|conns| - 1];
      FirstUidListed(front, ws);
      FirstUidSnoc(front, last, ws);
      assert conns == front + [last];
    }
  }

  /** `next` is `t` with another list for `ch`. */
  ghost predicate Replaced(t: Registry, next: Registry, ch: string, conns: seq<Conn>)
    requires t.Valid()
  {
    && next.Valid() && ch in t.listId && next.order == t.order
    && ListOf(next, ch) == conns
    && forall d :: d != ch ==> ListOf(next, d) == ListOf(t, d)
  }

  lemma ReplacedPairs(t: Registry, next: Registry, ch: string, conns: seq<Conn>)
    requires t.Valid() && Replaced(t, next, ch, conns)
    ensures AllPairs(next) + PairsOf(ListOf(t, ch)) == AllPairs(t) + PairsOf(conns)
  {
    assert ch in t.order;
    GatherChange(t, next, ch, t.order);
  }

  lemma AppendInPlace(t: Registry, ch: string, c: Conn)
    requires t.Valid() && ch in t.listId
    ensures Replaced(t, AppendedTo(t, ch, c), ch, ListOf(t, ch) + [c])
  {
  }

  lemma Rebind(t: Registry, ch: string, conns: seq<Conn>)
    requires t.Valid() && ch in t.listId
    ensures Replaced(t, Rebound(t, ch, conns), ch, conns)
  {
  }

  /** The index by user has no part in the lists. */
  lemma UsersApart(reg: Registry, users: map<string, seq<Socket>>)
    requires reg.Valid()
    ensures reg.(users := users).Valid()
    ensures forall c :: ListOf(reg.(users := users), c) == ListOf(reg, c)
    ensures AllPairs(reg.(users := users)) == AllPairs(reg)
  {
    GatherSame(reg, reg.(users := users), reg.order);
  }

  lemma ConnectLists(reg: Registry, ch: string, c: Conn)
    requires reg.Valid()
    ensures var next := Connected(reg, ch, c);
      && next.Valid()
      && (forall d :: ListOf(next, d) == if d == ch then ListOf(reg, ch) + [c] else ListOf(reg, d))
      && AllPairs(next) == AllPairs(reg) + multiset{Pair(c.ws, c.uid)}
  {
    hide Registry.Valid, ListOf, AllPairs, PairsOf, Touched, AppendedTo, Held;
    var t, conns := Touched(reg, ch), ListOf(reg, ch);
    TouchedLists(reg, ch);
    TouchedSame(reg, ch);
    AppendInPlace(t, ch, c);
    var next := AppendedTo(t, ch, c);
    ReplacedPairs(t, next, ch, conns + [c]);
    UsersApart(next, Connected(reg, ch, c).users);
    PairsSnoc(conns, c);
    Cancel(AllPairs(next), PairsOf(conns), AllPairs(reg), multiset{Pair(c.ws, c.uid)});
  }

  lemma Cancel(a: multiset<Pair>, b: multiset<Pair>, c: multiset<Pair>, d: multiset<Pair>)
    ensures a + b == c + (b + d) ==> a == c + d
  {
    if a + b == c + (b + d) {
      forall p ensures a[p] == (c + d)[p] {
        assert (a + b)[p] == (c + (b + d))[p];
      }
    }
  }

  lemma PairsSnoc(conns: seq<Conn>, c: Conn)
    ensures PairsOf(conns + [c]) == PairsOf(conns) + multiset{Pair(c.ws, c.uid)}
  {
  }

  lemma DisconnectLists(reg: Registry, ws: Socket, ch: string)
    requires reg.Valid()
    ensures var next := Disconnected(reg, ws, ch);
      && next.Valid()
      && (forall d :: ListOf(next, d) == if d == ch then WithoutSocket(ListOf(reg, ch), ws) else ListOf(reg, d))
      && AllPairs(next) + PairsOf(ListOf(reg, ch)) == AllPairs(reg) + PairsOf(WithoutSocket(ListOf(reg, ch), ws))
  {
    hide Registry.Valid, ListOf, AllPairs, PairsOf, Touched, Rebound, Held, WithoutSocket, Drop, FirstUid;
    var t, conns := Touched(reg, ch), WithoutSocket(ListOf(reg, ch), ws);
    TouchedLists(reg, ch);
    TouchedSame(reg, ch);
    Rebind(t, ch, conns);
    ReplacedPairs(t, Rebound(t, ch, conns), ch, conns);
    UsersApart(Rebound(t, ch, conns), Disconnected(reg, ws, ch).users);
  }

  // ---------------------------------------------------------------- agreement

  lemma HeldAfterConnect(reg: Registry, ch: string, c: Conn, uid: string)
    requires reg.Valid()
    ensures Held(Connected(reg, ch, c), uid) == if uid == c.uid then Held(reg, uid) + [c.ws] else Held(reg, uid)
  {
  }

  lemma TimesSnoc(sockets: seq<Socket>, ws: Socket, x: Socket)
    ensures Times(sockets + [ws], x) == Times(sockets, x) + if x == ws then 1 else 0
  {
  }

  lemma ConnectAgreesOn(reg: Registry, ch: string, c: Conn, p: Pair)
    requires reg.Valid() && AgreeOn(reg, p)
    ensures Connected(reg, ch, c).Valid() && AgreeOn(Connected(reg, ch, c), p)
  {
    hide Registry.Valid, ListOf, AllPairs, Held, Connected, Times;
    ConnectLists(reg, ch, c);
    assert AllPairs(Connected(reg, ch, c))[p] == AllPairs(reg)[p] + if p == Pair(c.ws, c.uid) then 1 else 0;
    HeldAfterConnect(reg, ch, c, p.uid);
    TimesSnoc(Held(reg, p.uid), c.ws, p.ws);
  }

  lemma ConnectAgrees(reg: Registry, ch: string, c: Conn)
    requires reg.Valid() && Agree(reg)
    ensures Connected(reg, ch, c).Valid() && Agree(Connected(reg, ch, c))
  {
    ConnectLists(reg, ch, c);
    hide Registry.Valid, Connected, AgreeOn;
    forall p ensures AgreeOn(Connected(reg, ch, c), p) {
      ConnectAgreesOn(reg, ch, c, p);
    }
  }

  /** The socket is not listed for its user in another channel, nor for another user in this one. */
  ghost predicate OnlyHere(reg: Registry, ws: Socket, ch: string)
    requires reg.Valid()
  {
    var here := PairsOf(ListOf(reg, ch));
    match FirstUid(ListOf(reg, ch), ws)
    case None => true
    case Some(first) =>
      && AllPairs(reg)[Pair(ws, first)] == here[Pair(ws, first)]
      && forall uid :: uid != first ==> here[Pair(ws, uid)] == 0
  }

  lemma HeldAfterDisconnect(reg: Registry, ws: Socket, ch: string, uid: string)
    requires reg.Valid()
    ensures Held(Disconnected(reg, ws, ch), uid) ==
      if FirstUid(ListOf(reg, ch), ws) == Some(uid) then Drop(Held(reg, uid), ws) else Held(reg, uid)
  {
  }

  lemma PairsAfterDisconnect(reg: Registry, ws: Socket, ch: string, p: Pair)
    requires reg.Valid()
    ensures Disconnected(reg, ws, ch).Valid()
    ensures AllPairs(reg)[p] ==
      AllPairs(Disconnected(reg, ws, ch))[p] + if p.ws == ws then PairsOf(ListOf(reg, ch))[p] else 0
  {
    DisconnectLists(reg, ws, ch);
    PairsWithoutSocket(ListOf(reg, ch), ws, p);
    var conns := ListOf(reg, ch);
    var before, after := AllPairs(reg), AllPairs(Disconnected(reg, ws, ch));
    var here, left := PairsOf(conns), PairsOf(WithoutSocket(conns, ws));
    assert (after + here)[p] == (before + left)[p];
    hide Registry.Valid, ListOf, AllPairs, PairsOf, WithoutSocket, Disconnected;
  }

  /** For one pair: the two indexes agree on it after the disconnect exactly if nothing of it is left elsewhere. */
  predicate OnlyHereOn(reg: Registry, ws: Socket, ch: string, p: Pair)
    requires reg.Valid()
  {
    p.ws != ws ||
    if FirstUid(ListOf(reg, ch), ws) == Some(p.uid) then AllPairs(reg)[p] == PairsOf(ListOf(reg, ch))[p]
    else PairsOf(ListOf(reg, ch))[p] == 0
  }

  lemma DisconnectAgreesOn(reg: Registry, ws: Socket, ch: string, p: Pair)
    requires reg.Valid() && AgreeOn(reg, p)
    ensures Disconnected(reg, ws, ch).Valid()
    ensures AgreeOn(Disconnected(reg, ws, ch), p) <==> OnlyHereOn(reg, ws, ch, p)
  {
    hide Registry.Valid, ListOf, AllPairs, PairsOf, Disconnected, Held, Drop, FirstUid, Times;
    PairsAfterDisconnect(reg, ws, ch, p);
    HeldAfterDisconnect(reg, ws, ch, p.uid);
    TimesDrop(Held(reg, p.uid), ws, p.ws);
  }

  lemma OnlyHereMeaning(reg: Registry, ws: Socket, ch: string)
    requires reg.Valid()
    ensures OnlyHere(reg, ws, ch) <==> forall p :: OnlyHereOn(reg, ws, ch, p)
  {
    FirstUidListed(ListOf(reg, ch), ws);
    hide Registry.Valid, ListOf, AllPairs, PairsOf, FirstUid;
    if forall p :: OnlyHereOn(reg, ws, ch, p) {
      forall uid ensures OnlyHereOn(reg, ws, ch, Pair(ws, uid)) { }
    }
  }

  /** A disconnect keeps the indexes in agreement exactly when the socket is listed only here and only for one user. */
  lemma DisconnectAgrees(reg: Registry, ws: Socket, ch: string)
    requires reg.Valid() && Agree(reg)
    ensures Disconnected(reg, ws, ch).Valid()
    ensures Agree(Disconnected(reg, ws, ch)) <==> OnlyHere(reg, ws, ch)
  {
    DisconnectLists(reg, ws, ch);
    OnlyHereMeaning(reg, ws, ch);
    hide Registry.Valid, Disconnected, OnlyHere, OnlyHereOn, AgreeOn;
    forall p ensures AgreeOn(Disconnected(reg, ws, ch), p) <==> OnlyHereOn(reg, ws, ch, p) {
      DisconnectAgreesOn(reg, ws, ch, p);
    }
  }

  lemma ListedElsewhere(reg: Registry, ch: string, p: Pair)
    requires reg.Valid()
    requires 0 < PairsOf(ListOf(reg, ch))[p] < AllPairs(reg)[p]
    ensures !OnlyHere(reg, p.ws, ch)
  {
    FirstUidListed(ListOf(reg, ch), p.ws);
    hide Registry.Valid, AllPairs, PairsOf, ListOf, FirstUid;
    assert p == Pair(p.ws, p.uid);
  }

  lemma LeavingOne(reg: Registry, ch: string, p: Pair)
    requires reg.Valid() && Agree(reg)
    requires 0 < PairsOf(ListOf(reg, ch))[p] < AllPairs(reg)[p]
    ensures Disconnected(reg, p.ws, ch).Valid() && !Agree(Disconnected(reg, p.ws, ch))
  {
    hide *;
    ListedElsewhere(reg, ch, p);
    DisconnectAgrees(reg, p.ws, ch);
  }

  lemma ListedTwice(reg: Registry, here: string, there: string, c: Conn)
    requires reg.Valid() && Connected(reg, here, c).Valid() && here != there
    ensures var both, p := Connected(Connected(reg, here, c), there, c), Pair(c.ws, c.uid);
      both.Valid() && 0 < PairsOf(ListOf(both, here))[p] < AllPairs(both)[p]
  {
    hide Registry.Valid, AllPairs, PairsOf, ListOf, Connected;
    var one, p := Connected(reg, here, c), Pair(c.ws, c.uid);
    ConnectLists(reg, here, c);
    ConnectLists(one, there, c);
    PairsSnoc(ListOf(reg, here), c);
    ListedIsPresent(one, here);
    assert PairsOf(ListOf(one, here))[p] <= AllPairs(one)[p];
  }

  /** A socket that connects to two channels and leaves one of them is still in the other, but lost to its user. */
  lemma TwoChannelsDisagree(reg: Registry, here: string, there: string, c: Conn)
    requires reg.Valid() && Agree(reg) && here != there
    ensures Connected(reg, here, c).Valid()
    ensures var both := Connected(Connected(reg, here, c), there, c);
      && both.Valid() && Agree(both)
      && Disconnected(both, c.ws, here).Valid() && !Agree(Disconnected(both, c.ws, here))
  {
    hide *;
    ConnectAgrees(reg, here, c);
    ConnectAgrees(Connected(reg, here, c), there, c);
    var both := Connected(Connected(reg, here, c), there, c);
    ListedTwice(reg, here, there, c);
    LeavingOne(both, here, Pair(c.ws, c.uid));
  }

  // ---------------------------------------------------------------- one channel at a time

  /** Every socket is listed at most once. */
  ghost predicate Single(reg: Registry)
    requires reg.Valid()
  {
    forall p, q :: p in AllPairs(reg) && q in AllPairs(reg) && p.ws == q.ws ==> p == q && AllPairs(reg)[p] == 1
  }

  ghost predicate Present(reg: Registry, ws: Socket)
    requires reg.Valid()
  {
    exists uid :: Pair(ws, uid) in AllPairs(reg)
  }

  ghost predicate Inv(reg: Registry) {
    reg.Valid() && Single(reg) && Agree(reg)
  }

  lemma {:induction false} GatherContains(reg: Registry, ch: string, channels: seq<string>)
    requires reg.Valid() && ch in channels
    ensures PairsOf(ListOf(reg, ch)) <= Gather(reg, channels)
  {
    hide Registry.Valid, ListOf, PairsOf;
    if channels[|channels| - 1] != ch {
      GatherContains(reg, ch, channels[..|channels| - 1]);
    }
  }

  lemma ListedIsPresent(reg: Registry, ch: string)
    requires reg.Valid()
    ensures PairsOf(ListOf(reg, ch)) <= AllPairs(reg)
  {
    if ch in reg.listId {
      GatherContains(reg, ch, reg.order);
    }
  }

  lemma SingleIsOnlyHere(reg: Registry, ws: Socket, ch: string)
    requires reg.Valid() && Single(reg)
    ensures OnlyHere(reg, ws, ch)
  {
    hide Registry.Valid, ListOf, PairsOf, AllPairs, FirstUid;
    FirstUidListed(ListOf(reg, ch), ws);
    ListedIsPresent(reg, ch);
    var first := FirstUid(ListOf(reg, ch), ws);
    if first.Some? {
      assert Pair(ws, first.value) in AllPairs(reg);
      assert forall uid :: Pair(ws, uid) in PairsOf(ListOf(reg, ch)) ==> Pair(ws, uid) in AllPairs(reg);
    }
  }

  lemma ConnectKeepsInv(reg: Registry, ch: string, c: Conn)
    requires Inv(reg) && !Present(reg, c.ws)
    ensures Inv(Connected(reg, ch, c))
  {
    hide Registry.Valid, AllPairs, Agree, Connected, ListOf;
    ConnectLists(reg, ch, c);
    ConnectAgrees(reg, ch, c);
    assert AllPairs(reg)[Pair(c.ws, c.uid)] == 0;
  }

  lemma DisconnectKeepsInv(reg: Registry, ws: Socket, ch: string)
    requires Inv(reg)
    ensures Inv(Disconnected(reg, ws, ch))
  {
    hide Registry.Valid, AllPairs, Agree, Disconnected, ListOf, OnlyHere, PairsOf;
    SingleIsOnlyHere(reg, ws, ch);
    DisconnectAgrees(reg, ws, ch);
    forall p ensures AllPairs(Disconnected(reg, ws, ch))[p] <= AllPairs(reg)[p] {
      PairsAfterDisconnect(reg, ws, ch, p);
    }
  }

  // ---------------------------------------------------------------- disconnecting what failed

  /** A socket whose send failed, and the channel in whose list it was found. */
  datatype Dead = Dead(ws: Socket, ch: string)

  function DropAll(reg: Registry, dead: seq<Dead>): (r: Registry)
    requires reg.Valid()
    ensures r.Valid()
  {
    if dead == [] then reg
    else
      var t, last := DropAll(reg, dead[..|dead| - 1]), dead[|dead| - 1];
      DisconnectLists(t, last.ws, last.ch);
      Disconnected(t, last.ws, last.ch)
  }

  lemma {:induction false} DropAllKeepsInv(reg: Registry, dead: seq<Dead>)
    requires Inv(reg)
    ensures Inv(DropAll(reg, dead))
  {
    hide Registry.Valid, Single, Agree, Disconnected;
    if dead != [] {
      DropAllKeepsInv(reg, dead[..|dead| - 1]);
      DisconnectKeepsInv(DropAll(reg, dead[..|dead| - 1]), dead[|dead| - 1].ws, dead[|dead| - 1].ch);
    }
  }

  /** The entries whose socket did not fail. */
  function Surviving(conns: seq<Conn>, gone: set<Socket>): seq<Conn> {
    if conns == [] then []
    else Surviving(conns[..|conns| - 1], gone) + if conns[|conns| - 1].ws in gone then [] else [conns[|conns| - 1]]
  }

  function GoneFrom(dead: seq<Dead>, ch: string): set<Socket> {
    if dead == [] then {}
    else GoneFrom(dead[..|dead| - 1], ch) + if dead[|dead| - 1].ch == ch then {dead[|dead| - 1].ws} else {}
  }

  lemma {:induction false} GoneFromExact(dead: seq<Dead>, ch: string, ws: Socket)
    ensures ws in GoneFrom(dead, ch) <==> Dead(ws, ch) in dead
  {
    if dead != [] {
      GoneFromExact(dead[..|dead| - 1], ch, ws);
      assert dead == dead[..|dead| - 1] + [dead[|dead| - 1]];
    }
  }

  lemma {:induction false} SurvivingMore(conns: seq<Conn>, gone: set<Socket>, ws: Socket)
    ensures WithoutSocket(Surviving(conns, gone), ws) == Surviving(conns, gone + {ws})
  {
    if conns != [] {
      var front, last := conns[..|conns| - 1], conns[|conns| - 1];
      SurvivingMore(front, gone, ws);
      if last.ws in gone {
        assert Surviving(front, gone) + [] == Surviving(front, gone);
      } else {
        assert (Surviving(front, gone) + [last])[..|Surviving(front, gone)|] == Surviving(front, gone);
      }
    }
  }

  lemma {:induction false} SurvivingNone(conns: seq<Conn>)
    ensures Surviving(conns, {}) == conns
  {
    if conns != [] {
      SurvivingNone(conns[..|conns| - 1]);
    }
  }

  lemma {:induction false} DropAllLists(reg: Registry, dead: seq<Dead>, ch: string)
    requires reg.Valid()
    ensures ListOf(DropAll(reg, dead), ch) == Surviving(ListOf(reg, ch), GoneFrom(dead, ch))
  {
    hide Registry.Valid, ListOf, Surviving, Disconnected;
    if dead == [] {
      SurvivingNone(ListOf(reg, ch));
    } else {
      var front, last := dead[..|dead| - 1], dead[|dead| - 1];
      DropAllLists(reg, front, ch);
      DisconnectLists(DropAll(reg, front), last.ws, last.ch);
      SurvivingMore(ListOf(reg, ch), GoneFrom(front, ch), last.ws);
      assert GoneFrom(front, ch) + {} == GoneFrom(front, ch);
    }
  }

  lemma {:induction false} SurvivingExact(conns: seq<Conn>, gone: set<Socket>, c: Conn)
    ensures c in Surviving(conns, gone) <==> c in conns && c.ws !in gone
  {
    if conns != [] {
      SurvivingExact(conns[..|conns| - 1], gone, c);
      assert conns == conns[..|conns| - 1] + [conns[|conns| - 1]];
    }
  }

  /** After a list of sockets was disconnected, each channel lists exactly the entries that were not on it. */
  lemma DropAllExact(reg: Registry, dead: seq<Dead>, ch: string, c: Conn)
    requires reg.Valid()
    ensures c in ListOf(DropAll(reg, dead), ch) <==> c in ListOf(reg, ch) && Dead(c.ws, ch) !in dead
  {
    hide Registry.Valid, ListOf, DropAll, Surviving;
    DropAllLists(reg, dead, ch);
    SurvivingExact(ListOf(reg, ch), GoneFrom(dead, ch), c);
    GoneFromExact(dead, ch, c.ws);
  }

  // ---------------------------------------------------------------- the manager

  function Sockets(conns: seq<Conn>): seq<Socket> {
    seq(|conns|, i requires 0 <= i < |conns| => conns[i].ws)
  }

  /** The failed sends of one list, in order. */
  function FailedIn(conns: seq<Conn>, ch: string, fails: Socket -> bool): seq<Dead> {
    if conns == [] then []
    else
      FailedIn(conns[..|conns| - 1], ch, fails)
      + if fails(conns[|conns| - 1].ws) then [Dead(conns[|conns| - 1].ws, ch)] else []
  }

  /** What a broadcast over several channels has done so far. */
  datatype Sweep = Sweep(seen: set<Socket>, sent: seq<Socket>, dead: seq<Dead>)

  function SweepOne(sw: Sweep, c: Conn, ch: string, fails: Socket -> bool): Sweep {
    if c.ws in sw.seen then sw
    else Sweep(sw.seen + {c.ws}, sw.sent + [c.ws], sw.dead + if fails(c.ws) then [Dead(c.ws, ch)] else [])
  }

  function SweepList(sw: Sweep, conns: seq<Conn>, ch: string, fails: Socket -> bool): Sweep {
    if conns == [] then sw
    else SweepOne(SweepList(sw, conns[..|conns| - 1], ch, fails), conns[|conns| - 1], ch, fails)
  }

  function SweepChannels(reg: Registry, channels: seq<string>, fails: Socket -> bool): Sweep
    requires reg.Valid()
  {
    if channels == [] then Sweep({}, [], [])
    else
      var last := channels[|channels| - 1];
      SweepList(SweepChannels(reg, channels[..|channels| - 1], fails), ListOf(reg, last), last, fails)
  }

  function OnlineUserIds(reg: Registry, ch: string): set<string>
    requires reg.Valid()
  {
    set c | c in ListOf(reg, ch) :: c.uid
  }

  predicate IsUserConnected(reg: Registry, uid: string) {
    Held(reg, uid) != []
  }

  function AllConnectedUserIds(reg: Registry): set<string> {
    set uid | uid in reg.users && reg.users[uid] != []
  }

  class ConnectionManager {
    var reg: Registry

    constructor ()
      ensures reg == EMPTY
    {
      reg := EMPTY;
    }

    method Connect(ws: Socket, ch: string, uid: string, name: string)
      requires reg.Valid()
      modifies this
      ensures reg == Connected(old(reg), ch, Conn(ws, uid, name))
    {
      reg := Touched(reg, ch);
      TouchedLists(old(reg), ch);
      reg := AppendedTo(reg, ch, Conn(ws, uid, name));
      reg := reg.(users := reg.users[uid := Held(reg, uid) + [ws]]);
    }

    method Disconnect(ws: Socket, ch: string)
      requires reg.Valid()
      modifies this
      ensures reg == Disconnected(old(reg), ws, ch)
    {
      reg := Touched(reg, ch);
      TouchedLists(old(reg), ch);
      var conns := ListOf(reg, ch);
      var entry := FirstUid(conns, ws);
      reg := Rebound(reg, ch, WithoutSocket(conns, ws));
      if entry.Some? {
        reg := reg.(users := reg.users[entry.value := Drop(Held(reg, entry.value), ws)]);
      }
    }

    method DisconnectAll(dead: seq<Dead>)
      requires reg.Valid()
      modifies this
      ensures reg.Valid() && reg == DropAll(old(reg), dead)
    {
      for i := 0 to |dead|
        invariant reg.Valid() && reg == DropAll(old(reg), dead[..i])
      {
        assert dead[..i + 1][..i] == dead[..i];
        DisconnectLists(reg, dead[i].ws, dead[i].ch);
        hide *;
        Disconnect(dead[i].ws, dead[i].ch);
      }
      assert dead[..|dead|] == dead;
    }

    /** A broadcast that nothing interrupts; `fails` says which sends raise. */
    method Broadcast(ch: string, fails: Socket -> bool) returns (sent: seq<Socket>)
      requires reg.Valid()
      modifies this
      ensures reg.Valid() && sent == Sockets(ListOf(old(reg), ch))
      ensures reg == DropAll(old(reg), FailedIn(ListOf(old(reg), ch), ch, fails))
    {
      sent := [];
      var dead: seq<Dead> := [];
      var conns := ListOf(reg, ch);
      for i := 0 to |conns|
        invariant sent == Sockets(conns)[..i]
        invariant dead == FailedIn(conns[..i], ch, fails)
      {
        assert conns[..i + 1][..i] == conns[..i];
        sent := sent + [conns[i].ws];
        if fails(conns[i].ws) {
          dead := dead + [Dead(conns[i].ws, ch)];
        }
      }
      assert conns[..|conns|] == conns;
      DisconnectAll(dead);
    }

    /** A broadcast to every channel that nothing interrupts. */
    method BroadcastAll(fails: Socket -> bool) returns (sent: seq<Socket>)
      requires reg.Valid()
      modifies this
      ensures reg.Valid() && sent == SweepChannels(old(reg), old(reg).order, fails).sent
      ensures reg == DropAll(old(reg), SweepChannels(old(reg), old(reg).order, fails).dead)
    {
      hide Registry.Valid, ListOf, DropAll;
      var sw := Sweep({}, [], []);
      var channels := reg.order;
      for k := 0 to |channels|
        invariant sw == SweepChannels(reg, channels[..k], fails)
      {
        var ch, conns := channels[k], ListOf(reg, channels[k]);
        for i := 0 to |conns|
          invariant sw == SweepList(SweepChannels(reg, channels[..k], fails), conns[..i], ch, fails)
        {
          assert conns[..i + 1][..i] == conns[..i];
          if conns[i].ws in sw.seen {
            continue;
          }
          sw := Sweep(sw.seen + {conns[i].ws}, sw.sent + [conns[i].ws],
                      if fails(conns[i].ws) then sw.dead + [Dead(conns[i].ws, ch)] else sw.dead);
        }
        assert conns[..|conns|] == conns;
        assert channels[..k + 1][..k] == channels[..k];
      }
      assert channels[..|channels|] == channels;
      sent := sw.sent;
      DisconnectAll(sw.dead);
    }
  }

  // ---------------------------------------------------------------- what an uninterrupted broadcast does

  predicate Listed(reg: Registry, e: Dead)
    requires reg.Valid()
  {
    e.ws in Sockets(ListOf(reg, e.ch))
  }

  /** The entries whose send does not fail. */
  function Kept(conns: seq<Conn>, fails: Socket -> bool): seq<Conn> {
    if conns == [] then []
    else Kept(conns[..|conns| - 1], fails) + if fails(conns[|conns| - 1].ws) then [] else [conns[|conns| - 1]]
  }

  lemma {:induction false} SurvivingIsKept(conns: seq<Conn>, gone: set<Socket>, fails: Socket -> bool)
    requires forall i :: 0 <= i < |conns| ==> (conns[i].ws in gone <==> fails(conns[i].ws))
    ensures Surviving(conns, gone) == Kept(conns, fails)
  {
    if conns != [] {
      SurvivingIsKept(conns[..|conns| - 1], gone, fails);
    }
  }

  lemma {:induction false} FailedInExact(conns: seq<Conn>, ch: string, fails: Socket -> bool, d: Dead)
    ensures d in FailedIn(conns, ch, fails) <==> d.ch == ch && fails(d.ws) && d.ws in Sockets(conns)
  {
    if conns != [] {
      var front, last := conns[..|conns| - 1], conns[|conns| - 1];
      FailedInExact(front, ch, fails, d);
      assert Sockets(conns) == Sockets(front) + [last.ws];
    }
  }

  lemma DropFailed(reg: Registry, dead: seq<Dead>, ch: string, fails: Socket -> bool)
    requires reg.Valid()
    requires forall ws :: ws in Sockets(ListOf(reg, ch)) ==> (Dead(ws, ch) in dead <==> fails(ws))
    ensures ListOf(DropAll(reg, dead), ch) == Kept(ListOf(reg, ch), fails)
  {
    hide Registry.Valid, DropAll, ListOf;
    DropAllLists(reg, dead, ch);
    var conns := ListOf(reg, ch);
    forall i | 0 <= i < |conns|
      ensures conns[i].ws in GoneFrom(dead, ch) <==> fails(conns[i].ws)
    {
      GoneFromExact(dead, ch, conns[i].ws);
      assert Sockets(conns)[i] == conns[i].ws;
    }
    SurvivingIsKept(conns, GoneFrom(dead, ch), fails);
  }

  /** A broadcast removes exactly the failing sockets from its channel, and the indexes still agree. */
  lemma BroadcastOutcome(reg: Registry, ch: string, fails: Socket -> bool)
    requires reg.Valid()
    ensures var next := DropAll(reg, FailedIn(ListOf(reg, ch), ch, fails));
      && (forall d :: ListOf(next, d) == if d == ch then Kept(ListOf(reg, ch), fails) else ListOf(reg, d))
      && (Inv(reg) ==> Inv(next))
  {
    hide Registry.Valid, DropAll, ListOf, Single, Agree;
    var dead := FailedIn(ListOf(reg, ch), ch, fails);
    forall d
      ensures ListOf(DropAll(reg, dead), d) == if d == ch then Kept(ListOf(reg, ch), fails) else ListOf(reg, d)
    {
      forall ws ensures Dead(ws, d) in dead <==> d == ch && fails(ws) && ws in Sockets(ListOf(reg, ch)) {
        FailedInExact(ListOf(reg, ch), ch, fails, Dead(ws, d));
      }
      DropFailed(reg, dead, d, if d == ch then fails else (ws => false));
      KeptAll(ListOf(reg, d));
    }
    if Inv(reg) {
      DropAllKeepsInv(reg, dead);
    }
  }

  lemma {:induction false} KeptAll(conns: seq<Conn>)
    ensures Kept(conns, ws => false) == conns
  {
    if conns != [] {
      KeptAll(conns[..|conns| - 1]);
    }
  }

  // ---------------------------------------------------------------- what an uninterrupted broadcast to all does

  function EntriesOf(conns: seq<Conn>, ch: string): set<Dead> {
    if conns == [] then {} else EntriesOf(conns[..|conns| - 1], ch) + {Dead(conns[|conns| - 1].ws, ch)}
  }

  function Entries(reg: Registry, channels: seq<string>): set<Dead>
    requires reg.Valid()
  {
    if channels == [] then {}
    else
      var last := channels[|channels| - 1];
      Entries(reg, channels[..|channels| - 1]) + EntriesOf(ListOf(reg, last), last)
  }

  lemma {:induction false} EntriesOfExact(conns: seq<Conn>, ch: string, e: Dead)
    ensures e in EntriesOf(conns, ch) <==> e.ch == ch && e.ws in Sockets(conns)
  {
    if conns != [] {
      EntriesOfExact(conns[..|conns| - 1], ch, e);
      assert Sockets(conns) == Sockets(conns[..|conns| - 1]) + [conns[|conns| - 1].ws];
    }
  }

  lemma {:induction false} EntriesExact(reg: Registry, channels: seq<string>, e: Dead)
    requires reg.Valid()
    ensures e in Entries(reg, channels) <==> e.ch in channels && Listed(reg, e)
  {
    hide Registry.Valid, ListOf, Sockets;
    if channels != [] {
      var front, last := channels[..|channels| - 1], channels[|channels| - 1];
      EntriesExact(reg, front, e);
      EntriesOfExact(ListOf(reg, last), last, e);
      assert channels == front + [last];
    }
  }

  /**
   After the entries of `done`: each of their sockets was sent to once, and each failure noted where it was
   first met.
   */
  ghost predicate Swept(done: set<Dead>, sw: Sweep, fails: Socket -> bool) {
    && (forall i, j :: 0 <= i < j < |sw.sent| ==> sw.sent[i] != sw.sent[j])
    && (forall ws :: ws in sw.sent <==> ws in sw.seen)
    && (forall e :: e in done ==> e.ws in sw.seen)
    && (forall ws :: ws in sw.seen ==> MetAt(done, sw, fails, ws))
    && (forall d :: d in sw.dead ==> d in done && fails(d.ws))
  }

  ghost predicate MetAt(done: set<Dead>, sw: Sweep, fails: Socket -> bool, ws: Socket) {
    exists e :: e in done && e.ws == ws && (fails(ws) ==> e in sw.dead)
  }

  lemma SweepOneSwept(done: set<Dead>, sw: Sweep, c: Conn, ch: string, fails: Socket -> bool)
    requires Swept(done, sw, fails)
    ensures Swept(done + {Dead(c.ws, ch)}, SweepOne(sw, c, ch, fails), fails)
  {
  }

  lemma {:induction false} SweepListSwept(done: set<Dead>, sw: Sweep, conns: seq<Conn>, ch: string,
                                          fails: Socket -> bool)
    requires Swept(done, sw, fails)
    ensures Swept(done + EntriesOf(conns, ch), SweepList(sw, conns, ch, fails), fails)
  {
    hide Swept, SweepOne;
    if conns == [] {
      assert done + {} == done;
    } else {
      var front, last := conns[..|conns| - 1], conns[|conns| - 1];
      SweepListSwept(done, sw, front, ch, fails);
      SweepOneSwept(done + EntriesOf(front, ch), SweepList(sw, front, ch, fails), last, ch, fails);
      assert done + EntriesOf(conns, ch) == done + EntriesOf(front, ch) + {Dead(last.ws, ch)};
    }
  }

  lemma {:induction false} SweepChannelsSwept(reg: Registry, channels: seq<string>, fails: Socket -> bool)
    requires reg.Valid()
    ensures Swept(Entries(reg, channels), SweepChannels(reg, channels, fails), fails)
  {
    hide Registry.Valid, ListOf;
    if channels != [] {
      var front, last := channels[..|channels| - 1], channels[|channels| - 1];
      SweepChannelsSwept(reg, front, fails);
      SweepListSwept(Entries(reg, front), SweepChannels(reg, front, fails), ListOf(reg, last), last, fails);
    }
  }

  lemma {:induction false} ListedPair(conns: seq<Conn>, ws: Socket)
    ensures ws in Sockets(conns) <==> exists uid :: Pair(ws, uid) in PairsOf(conns)
  {
    if conns != [] {
      var front, last := conns[..|conns| - 1], conns[|conns| - 1];
      ListedPair(front, ws);
      assert Sockets(conns) == Sockets(front) + [last.ws];
      if ws == last.ws {
        assert Pair(ws, last.uid) in PairsOf(conns);
      }
      if uid :| Pair(ws, uid) in PairsOf(front) {
        assert Pair(ws, uid) in PairsOf(conns);
      }
    }
  }

  lemma {:induction false} TwoChannels(reg: Registry, c: string, d: string, channels: seq<string>)
    requires reg.Valid() && c in channels && d in channels && c != d
    ensures PairsOf(ListOf(reg, c)) + PairsOf(ListOf(reg, d)) <= Gather(reg, channels)
  {
    hide Registry.Valid, ListOf, PairsOf;
    var front, last := channels[..|channels| - 1], channels[|channels| - 1];
    assert channels == front + [last];
    if last == c {
      GatherContains(reg, d, front);
    } else if last == d {
      GatherContains(reg, c, front);
    } else {
      TwoChannels(reg, c, d, front);
    }
  }

  lemma TwoListings(reg: Registry, ws: Socket, c: string, d: string)
    requires reg.Valid() && c != d
    requires Listed(reg, Dead(ws, c)) && Listed(reg, Dead(ws, d))
    ensures exists p, q :: p in AllPairs(reg) && q in AllPairs(reg) && p.ws == q.ws && (p != q || AllPairs(reg)[p] >= 2)
  {
    InOrder(reg, Dead(ws, c));
    InOrder(reg, Dead(ws, d));
    hide Registry.Valid, ListOf, PairsOf, Sockets;
    TwoChannels(reg, c, d, reg.order);
    ListedPair(ListOf(reg, c), ws);
    ListedPair(ListOf(reg, d), ws);
    var u :| Pair(ws, u) in PairsOf(ListOf(reg, c));
    var v :| Pair(ws, v) in PairsOf(ListOf(reg, d));
    assert Pair(ws, u) in AllPairs(reg) && Pair(ws, v) in AllPairs(reg);
    assert u == v ==> (PairsOf(ListOf(reg, c)) + PairsOf(ListOf(reg, d)))[Pair(ws, u)] >= 2;
  }

  lemma SingleChannel(reg: Registry, ws: Socket, c: string, d: string)
    requires reg.Valid() && Single(reg)
    requires Listed(reg, Dead(ws, c)) && Listed(reg, Dead(ws, d))
    ensures c == d
  {
    if c != d {
      TwoListings(reg, ws, c, d);
    }
  }

  lemma InOrder(reg: Registry, e: Dead)
    requires reg.Valid() && Listed(reg, e)
    ensures e.ch in reg.order
  {
  }

  /**
   A broadcast to all sends to every connected socket once. If every socket is listed once, it removes
   exactly the failing ones from every channel, and the indexes still agree.
   */
  lemma BroadcastAllOutcome(reg: Registry, fails: Socket -> bool)
    requires reg.Valid()
    ensures var sw := SweepChannels(reg, reg.order, fails);
      && (forall ws :: ws in sw.sent <==> exists ch :: Listed(reg, Dead(ws, ch)))
      && (forall i, j :: 0 <= i < j < |sw.sent| ==> sw.sent[i] != sw.sent[j])
      && (Inv(reg) ==>
            && Inv(DropAll(reg, sw.dead))
            && forall ch :: ListOf(DropAll(reg, sw.dead), ch) == Kept(ListOf(reg, ch), fails))
  {
    hide Registry.Valid, ListOf, Agree, Single, DropAll, Sockets;
    var sw, all := SweepChannels(reg, reg.order, fails), Entries(reg, reg.order);
    SweepChannelsSwept(reg, reg.order, fails);
    forall e ensures e in all <==> Listed(reg, e) {
      EntriesExact(reg, reg.order, e);
      if Listed(reg, e) {
        InOrder(reg, e);
      }
    }
    forall ws ensures ws in sw.sent <==> exists ch :: Listed(reg, Dead(ws, ch)) {
      if ch :| Listed(reg, Dead(ws, ch)) {
        assert Dead(ws, ch) in all;
      }
      if ws in sw.seen {
        assert MetAt(all, sw, fails, ws);
        var e :| e in all && e.ws == ws;
        assert Listed(reg, Dead(ws, e.ch));
      }
    }
    if Inv(reg) {
      DropAllKeepsInv(reg, sw.dead);
      forall ch ensures ListOf(DropAll(reg, sw.dead), ch) == Kept(ListOf(reg, ch), fails) {
        forall ws | Listed(reg, Dead(ws, ch))
          ensures Dead(ws, ch) in sw.dead <==> fails(ws)
        {
          assert Dead(ws, ch) in all && MetAt(all, sw, fails, ws);
          var e :| e in all && e.ws == ws && (fails(ws) ==> e in sw.dead);
          SingleChannel(reg, ws, ch, e.ch);
        }
        DropFailed(reg, sw.dead, ch, fails);
      }
    }
  }

  // ---------------------------------------------------------------- presence

  lemma {:induction false} OnlinePair(conns: seq<Conn>, uid: string)
    ensures uid in (set c | c in conns :: c.uid) <==> exists ws :: Pair(ws, uid) in PairsOf(conns)
  {
    if conns != [] {
      var front, last := conns[..|conns| - 1], conns[|conns| - 1];
      OnlinePair(front, uid);
      assert conns == front + [last];
      if uid == last.uid {
        assert Pair(last.ws, uid) in PairsOf(conns);
      }
      if ws :| Pair(ws, uid) in PairsOf(front) {
        assert Pair(ws, uid) in PairsOf(conns);
      }
    }
  }

  lemma {:induction false} GatheredSomewhere(reg: Registry, channels: seq<string>, p: Pair)
    requires reg.Valid() && p in Gather(reg, channels)
    ensures exists ch :: ch in channels && p in PairsOf(ListOf(reg, ch))
  {
    hide Registry.Valid, ListOf, PairsOf;
    var front, last := channels[..|channels| - 1], channels[|channels| - 1];
    if p in PairsOf(ListOf(reg, last)) {
      assert last in channels;
    } else {
      GatheredSomewhere(reg, front, p);
      var ch :| ch in front && p in PairsOf(ListOf(reg, ch));
      assert ch in channels;
    }
  }

  /** When the indexes agree, a user counts as connected exactly when the user is online in some channel. */
  lemma PresenceAgrees(reg: Registry, uid: string)
    requires reg.Valid() && Agree(reg)
    ensures IsUserConnected(reg, uid) <==> exists ch :: uid in OnlineUserIds(reg, ch)
    ensures uid in AllConnectedUserIds(reg) <==> IsUserConnected(reg, uid)
  {
    hide Registry.Valid, ListOf, PairsOf;
    if IsUserConnected(reg, uid) {
      var p := Pair(Held(reg, uid)[0], uid);
      assert AgreeOn(reg, p);
      GatheredSomewhere(reg, reg.order, p);
      var ch :| ch in reg.order && p in PairsOf(ListOf(reg, ch));
      OnlinePair(ListOf(reg, ch), uid);
      assert uid in OnlineUserIds(reg, ch);
    }
    if ch :| uid in OnlineUserIds(reg, ch) {
      OnlinePair(ListOf(reg, ch), uid);
      var ws :| Pair(ws, uid) in PairsOf(ListOf(reg, ch));
      ListedIsPresent(reg, ch);
      assert AgreeOn(reg, Pair(ws, uid));
    }
  }
}
