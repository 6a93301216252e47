// src/program/cp_library/cp_fds.c: which containers a socket is in. Each socket
// carries a flag for every container; the invariant says that the flags, the
// counters and the containers always tell the same story.
module Fds {
  import opened OptionSlots
  import opened Queues
  import opened SlotArrays

  datatype Mode = Connect | Listen | Accept

  class Sock {
    const mode: Mode
    const server: Sock?
    var epolled: bool
    var registered: bool
    var inqueue: bool
    var tasked: bool
    var index: int
    var acceptCnt: int
    var acceptList: seq<Sock>

    constructor (m: Mode, s: Sock?)
      ensures mode == m && server == s && Idle()
    {
      mode := m;
      server := s;
      epolled := false;
      registered := false;
      inqueue := false;
      tasked := false;
      index := -1;
      acceptCnt := 0;
      acceptList := [];
    }

    ghost predicate Idle()
      reads this
    {
      !epolled && !registered && !inqueue && !tasked && index == -1 && acceptCnt == 0 && acceptList == []
    }
  }

  /** What a program can ask of a context. Detected is one round of cp_fds_detect_event. */
  datatype Step =
    | Entered(s: Sock)
    | EpollIn(s: Sock, refused: bool) | EpollOut(s: Sock)
    | RegistryIn(s: Sock) | RegistryOut(s: Sock)
    | TaskIn(s: Sock) | TaskOut(s: Sock)
    | QueueIn(s: Sock) | Detected(reported: seq<Sock>) | QueueNext | QueueOut(s: Sock)
    | Destroyed(s: Sock) | ServerDown(s: Sock) | AllTasksDone

  /** The sockets a step names. */
  function Named(step: Step): set<Sock> {
    match step
    case QueueNext => {}
    case AllTasksDone => {}
    case Detected(reported) => set q | q in reported
    case Entered(s) => {s}
    case EpollIn(s, _) => {s}
    case EpollOut(s) => {s}
    case RegistryIn(s) => {s}
    case RegistryOut(s) => {s}
    case TaskIn(s) => {s}
    case TaskOut(s) => {s}
    case QueueIn(s) => {s}
    case QueueOut(s) => {s}
    case Destroyed(s) => {s}
    case ServerDown(s) => {s}
  }

  /** What epoll_ctl answers when a socket is added. */
  datatype Answer = Added | AlreadyThere | Refused

  /** The list a socket is registered in. */
  datatype Home = Clients | Servers | Accepted(server: Sock)

  function HomeOf(s: Sock): Option<Home> {
    match s.mode
    case Connect => Some(Clients)
    case Listen => Some(Servers)
    case Accept => if s.server == null then None else Some(Accepted(s.server))
  }

  lemma ListChanged(l: seq<Sock>, s: Sock, entered: bool)
    requires Distinct(l) && (s in l <==> !entered)
    ensures var m := if entered then l + [s] else RemoveFirst(l, s);
      Distinct(m) && forall a :: a in m <==> if a == s then entered else a in l
  {
    RemoveFirstDistinct(l, s);
  }

  /** The others, in their order. */
  ghost function Without(l: seq<Sock>, gone: set<Sock>): (r: seq<Sock>)
    ensures forall i :: 0 <= i < |r| ==> r[i] in l && r[i] !in gone
    ensures forall i :: 0 <= i < |l| && l[i] !in gone ==> l[i] in r
    decreases |l|
  {
    if l == [] then [] else if l[0] in gone then Without(l[1..], gone) else [l[0]] + Without(l[1..], gone)
  }

  lemma {:induction false} WithoutOne(l: seq<Sock>, s: Sock)
    requires Distinct(l)
    ensures Without(l, {s}) == RemoveFirst(l, s)
    decreases |l|
  {
    if l != [] {
      WithoutOne(l[1..], s);
      if l[0] == s {
        assert s !in l[1..];
      }
    }
  }

  lemma {:induction false} WithoutBoth(l: seq<Sock>, gone: set<Sock>, more: set<Sock>)
    ensures Without(Without(l, gone), more) == Without(l, gone + more)
    decreases |l|
  {
    if l != [] {
      WithoutBoth(l[1..], gone, more);
    }
  }

  lemma {:induction false} WithoutNone(l: seq<Sock>, gone: set<Sock>)
    requires forall s :: s in l ==> s !in gone
    ensures Without(l, gone) == l
    decreases |l|
  {
    if l != [] {
      assert l[0] in l;
      WithoutNone(l[1..], gone);
    }
  }

  /** The slots with those of some sockets emptied. */
  ghost function Vacated(slots: seq<Option<Sock>>, gone: set<Sock>): (r: seq<Option<Sock>>)
    ensures |r| == |slots|
    ensures forall i :: 0 <= i < |r| ==> r[i] == if slots[i].Some? && slots[i].value in gone then None else slots[i]
  {
    seq(|slots|, i requires 0 <= i < |slots| =>
      if slots[i].Some? && slots[i].value in gone then None else slots[i])
  }

  lemma VacatedBoth(slots: seq<Option<Sock>>, gone: set<Sock>, more: set<Sock>)
    ensures Vacated(Vacated(slots, gone), more) == Vacated(slots, gone + more)
    ensures Vacated(slots, {}) == slots
  {
  }

  ghost predicate Among(l: seq<Sock>, group: set<Sock>) {
    forall q :: q in l ==> q in group
  }

  ghost function Parent(s: Sock): set<Sock> {
    if s.mode == Accept && s.server != null then {s.server} else {}
  }

  /** The server whose list a registered socket is in. */
  ghost function Listing(s: Sock): set<Sock>
    reads s
  {
    if s.registered then Parent(s) else {}
  }

  /** The queue as a round of events would make it with room for all: who is neither in it nor tasked joins the end. */
  ghost function Lined(held: seq<Sock>, reported: seq<Sock>, busy: set<Sock>): seq<Sock>
    decreases |reported|
  {
    if reported == [] then held
    else
      var n := |reported| - 1;
      var l, s := Lined(held, reported[..n], busy), reported[n];
      if s in busy || s in l then l else l + [s]
  }

  /**
   * Behind those queued already stand the reported ones that are not busy, each
   * once, in the order in which they are first reported.
   */
  lemma {:induction false} LinedUp(held: seq<Sock>, reported: seq<Sock>, busy: set<Sock>)
    requires Distinct(held)
    ensures var l := Lined(held, reported, busy);
      && held <= l && Distinct(l)
      && (forall s :: s in l <==> s in held || (s in reported && s !in busy))
      && (forall i, j :: |held| <= i < j < |l| ==>
            exists k :: 0 <= k < |reported| && reported[k] == l[i] && l[j] !in reported[..k + 1])
    decreases |reported|
  {
    if reported != [] {
      var n := |reported| - 1;
      var l, s := Lined(held, reported[..n], busy), reported[n];
      LinedUp(held, reported[..n], busy);
      assert reported == reported[..n] + [s];
      forall i, j | |held| <= i < j < |Lined(held, reported, busy)|
        ensures exists k :: 0 <= k < |reported| && reported[k] == Lined(held, reported, busy)[i]
                            && Lined(held, reported, busy)[j] !in reported[..k + 1]
      {
        if j == |l| {
          assert l[i] !in held by {
            assert forall m :: 0 <= m < |held| ==> held[m] == l[m];
          }
          assert l[i] in reported[..n] by {
            JustLined(held, reported[..n], busy, l[i]);
          }
          var k :| 0 <= k < n && reported[k] == l[i];
          assert s !in reported[..k + 1];
        } else {
          var k :| 0 <= k < n && reported[..n][k] == l[i] && l[j] !in reported[..n][..k + 1];
          assert reported[..n][..k + 1] == reported[..k + 1];
        }
      }
    }
  }

  lemma {:induction false} LinedAlike(held: seq<Sock>, reported: seq<Sock>, busy: set<Sock>, other: set<Sock>)
    requires forall r :: r in reported ==> (r in busy <==> r in other)
    ensures Lined(held, reported, busy) == Lined(held, reported, other)
    decreases |reported|
  {
    if reported != [] {
      LinedAlike(held, reported[..|reported| - 1], busy, other);
    }
  }

  lemma {:induction false} JustLined(held: seq<Sock>, reported: seq<Sock>, busy: set<Sock>, s: Sock)
    ensures s in Lined(held, reported, busy) <==> s in held || (s in reported && s !in busy)
    decreases |reported|
  {
    if reported != [] {
      var n := |reported| - 1;
      JustLined(held, reported[..n], busy, s);
      assert reported == reported[..n] + [reported[n]];
    }
  }

  lemma {:induction false} LinedUpFresh(guests: seq<Sock>, busy: set<Sock>)
    requires Distinct(guests) && forall g :: g in guests ==> g !in busy
    ensures Lined([], guests, busy) == guests
    decreases |guests|
  {
    if guests != [] {
      LinedUpFresh(guests[..|guests| - 1], busy);
    }
  }

  // --- What the containers hold, as values ---

  /** The queue, the slots, the watched sockets, and the lists of clients, servers and each socket's accepted ones. */
  datatype Holding = Holding(queued: seq<Sock>, slots: seq<Option<Sock>>, watched: set<Sock>,
                             clients: seq<Sock>, servers: seq<Sock>, accepted: map<Sock, seq<Sock>>)

  /** The slots with s in the first empty one, if there is one. */
  ghost function Seated(slots: seq<Option<Sock>>, s: Sock): (r: seq<Option<Sock>>)
    ensures |r| == |slots|
    decreases |slots|
  {
    if slots == [] then [] else if slots[0].None? then [Some(s)] + slots[1..] else [slots[0]] + Seated(slots[1..], s)
  }

  lemma {:induction false} SeatedAt(slots: seq<Option<Sock>>, s: Sock, i: nat)
    requires i < |slots| && slots[i].None? && forall j :: 0 <= j < i ==> slots[j].Some?
    ensures Seated(slots, s) == slots[i := Some(s)]
    decreases |slots|
  {
    if i > 0 {
      SeatedAt(slots[1..], s, i - 1);
      assert slots == [slots[0]] + slots[1..];
    }
  }

  lemma {:induction false} NoSeat(slots: seq<Option<Sock>>, s: Sock)
    requires forall j :: 0 <= j < |slots| ==> slots[j].Some?
    ensures Seated(slots, s) == slots
    decreases |slots|
  {
    if slots != [] {
      NoSeat(slots[1..], s);
    }
  }

  /** Entered in the list of its mode, unless it is there. */
  ghost function Enlisted(h: Holding, s: Sock): Holding {
    match HomeOf(s)
    case None => h
    case Some(Clients) => if s in h.clients then h else h.(clients := h.clients + [s])
    case Some(Servers) => if s in h.servers then h else h.(servers := h.servers + [s])
    case Some(Accepted(t)) =>
      if t !in h.accepted || s in h.accepted[t] then h else h.(accepted := h.accepted[t := h.accepted[t] + [s]])
  }

  ghost function Unlisted(h: Holding, s: Sock): Holding {
    h.(clients := RemoveFirst(h.clients, s), servers := RemoveFirst(h.servers, s),
       accepted := map t | t in h.accepted :: RemoveFirst(h.accepted[t], s))
  }

  /** Without some sockets: none of them is in a container, and the others keep their places. */
  ghost function Gone(h: Holding, gone: set<Sock>): Holding {
    Holding(Without(h.queued, gone), Vacated(h.slots, gone), h.watched - gone,
            Without(h.clients, gone), Without(h.servers, gone),
            map t | t in h.accepted && t !in gone :: Without(h.accepted[t], gone))
  }

  /** What a step leaves in the containers, limit being max_event. */
  ghost function After(h: Holding, limit: nat, step: Step): Holding {
    match step
    case Entered(s) => h.(accepted := h.accepted[s := []])
    case EpollIn(s, refused) =>
      if s in h.watched || |h.watched| > limit || refused then h else h.(watched := h.watched + {s})
    case EpollOut(s) => h.(watched := h.watched - {s})
    case RegistryIn(s) => Enlisted(h, s)
    case RegistryOut(s) => Unlisted(h, s)
    case TaskIn(s) => if Some(s) in h.slots then h else h.(slots := Seated(h.slots, s))
    case TaskOut(s) => h.(slots := Vacated(h.slots, {s}))
    case QueueIn(s) =>
      if s in h.queued || Some(s) in h.slots || |h.queued| == limit then h else h.(queued := h.queued + [s])
    case Detected(reported) =>
      var l := Lined(h.queued, reported, set s | s in reported && Some(s) in h.slots);
      h.(queued := if |l| <= limit then l else l[..limit])
    case QueueNext => if h.queued == [] then h else h.(queued := h.queued[1..])
    case QueueOut(s) => h.(queued := RemoveFirst(h.queued, s))
    case Destroyed(s) => Gone(h, {s})
    case ServerDown(s) => if s in h.accepted then Gone(h, {s} + set a | a in h.accepted[s]) else h
    case AllTasksDone => h.(queued := [], slots := seq(|h.slots|, i => None))
  }

  /** Which steps are within the discipline, and possible: see Possible and Disciplined. */
  ghost predicate Allowed(h: Holding, limit: nat, step: Step) {
    match step
    case Entered(s) => s !in h.accepted
    case EpollIn(s, _) => s in h.accepted && (s in h.watched || |h.watched| < limit)
    case EpollOut(s) => s in h.accepted && s !in h.queued
    case RegistryIn(s) =>
      s in h.accepted && (s.mode != Accept || s.server == null || (s.server in h.accepted && s.server.mode == Listen))
    case QueueIn(s) => s in h.accepted && s in h.watched
    case Detected(reported) => forall r :: r in reported ==> r in h.accepted && r in h.watched
    case QueueNext => h.queued != []
    case Destroyed(s) => s in h.accepted && h.accepted[s] == []
    case ServerDown(s) => s in h.accepted && s.mode == Listen
    case AllTasksDone => h.queued == []
    case RegistryOut(s) => s in h.accepted
    case TaskIn(s) => s in h.accepted
    case TaskOut(s) => s in h.accepted
    case QueueOut(s) => s in h.accepted
  }

  /** What steps leave in the containers; those that are not allowed are passed over. */
  ghost function Course(h: Holding, limit: nat, steps: seq<Step>): Holding
    decreases |steps|
  {
    if steps == [] then h
    else
      var n := |steps| - 1;
      var k := Course(h, limit, steps[..n]);
      if Allowed(k, limit, steps[n]) then After(k, limit, steps[n]) else k
  }

  class Context {
    const maxEvent: nat
    const queue: Queue<Sock>
    const tasks: SlotArray<Sock>
    var eventCnt: int
    var serverList: seq<Sock>
    var clientList: seq<Sock>
    // The sockets of this context, and those the kernel watches for it.
    ghost var socks: set<Sock>
    ghost var watched: set<Sock>

    ghost predicate QueueOk()
      reads this, queue, queue.nodes, socks
    {
      queue.Valid() && queue.size == maxEvent && Distinct(queue.contents)
      && (forall s :: s in queue.contents ==> s in socks)
      && (forall s :: s in socks ==> (s.inqueue <==> s in queue.contents))
    }

    ghost predicate TasksOk()
      reads this, tasks, tasks.data, socks
    {
      tasks.Valid() && tasks.data.Length == maxEvent
      && (forall i :: 0 <= i < maxEvent && tasks.data[i].Some? ==>
            tasks.data[i].value in socks && tasks.data[i].value.tasked && tasks.data[i].value.index == i)
      && (forall s :: s in socks ==>
            if s.tasked then 0 <= s.index < maxEvent && tasks.data[s.index] == Some(s) else s.index == -1)
    }

    ghost predicate EpollOk()
      reads this, socks
    {
      watched <= socks && eventCnt == |watched| && eventCnt <= maxEvent + 1
      && (forall s :: s in socks ==> (s.epolled <==> s in watched))
    }

    // --- The registry lists ---

    ghost predicate Alive(h: Home)
      reads this
    {
      h.Accepted? ==> h.server in socks
    }

    ghost function Members(h: Home): (l: seq<Sock>)
      reads this, socks
    {
      match h
      case Clients => clientList
      case Servers => serverList
      case Accepted(t) => if t in socks then t.acceptList else []
    }

    ghost predicate ListOk(h: Home)
      reads this, socks
    {
      Distinct(Members(h)) && (forall a :: a in Members(h) ==> a in socks && HomeOf(a) == Some(h))
      && (h.Accepted? && Members(h) != [] ==> h.server.mode == Listen)
    }

    ghost predicate InHome(s: Sock)
      reads this, socks
    {
      HomeOf(s).Some? && s in Members(HomeOf(s).value)
    }

    ghost predicate RegistryOk()
      reads this, socks
    {
      ListOk(Clients) && ListOk(Servers) && (forall t :: t in socks ==> ListOk(Accepted(t)))
      && (forall s :: s in socks ==> (s.registered <==> InHome(s)))
      && (forall s :: s in socks ==> s.acceptCnt == |s.acceptList|)
    }

    ghost predicate Valid()
      reads this, queue, queue.nodes, tasks, tasks.data, socks
    {
      QueueOk() && TasksOk() && EpollOk() && RegistryOk()
    }

    ghost function Held(): Holding
      reads this, queue, tasks, tasks.data, socks
    {
      Holding(queue.contents, tasks.data[..], watched, clientList, serverList, map t | t in socks :: t.acceptList)
    }

    constructor (maxEvents: int)
      ensures Valid() && socks == {} && watched == {} && fresh(queue) && fresh(tasks) && fresh(tasks.data)
      ensures queue.nodes == []
      ensures maxEvent == if maxEvents < 0 then 0 else if maxEvents < 1024 then maxEvents else 1024
    {
      var m := if maxEvents < 0 then 0 else if maxEvents < 1024 then maxEvents else 1024;
      maxEvent := m;
      queue := new Queue(m);
      tasks := new SlotArray(m);
      eventCnt := 0;
      serverList := [];
      clientList := [];
      socks := {};
      watched := {};
    }

    // --- What each part of the invariant depends on ---

    twostate lemma QueueKept()
      requires old(QueueOk()) && socks == old(socks)
      requires forall s :: s in socks ==> s.inqueue == old(s.inqueue)
      requires unchanged(queue) && unchanged(old(queue.nodes))
      ensures QueueOk()
    {
    }

    twostate lemma TasksKept()
      requires old(TasksOk()) && socks == old(socks)
      requires forall s :: s in socks ==> s.tasked == old(s.tasked) && s.index == old(s.index)
      requires unchanged(tasks) && unchanged(tasks.data)
      ensures TasksOk()
    {
      assert tasks.data[..] == old(tasks.data[..]);
    }

    twostate lemma EpollKept()
      requires old(EpollOk()) && socks == old(socks)
      requires eventCnt == old(eventCnt) && watched == old(watched)
      requires forall s :: s in socks ==> s.epolled == old(s.epolled)
      ensures EpollOk()
    {
    }

    twostate lemma RegistryKept()
      requires old(RegistryOk()) && socks == old(socks)
      requires serverList == old(serverList) && clientList == old(clientList)
      requires forall s :: s in socks ==>
        s.registered == old(s.registered) && s.acceptCnt == old(s.acceptCnt) && s.acceptList == old(s.acceptList)
      ensures RegistryOk()
    {
      assert Members(Clients) == old(Members(Clients)) && Members(Servers) == old(Members(Servers));
      assert old(ListOk(Clients)) && old(ListOk(Servers));
      forall t | t in socks ensures ListOk(Accepted(t)) {
        assert old(ListOk(Accepted(t))) && Members(Accepted(t)) == old(Members(Accepted(t)));
      }
      assert forall s :: s in socks ==> InHome(s) == old(InHome(s));
    }

    /** One list changed, by the one socket that now is, or is no longer, registered. */
    twostate lemma RegistryChanged(s: Sock)
      requires old(RegistryOk()) && socks == old(socks) && s in socks && HomeOf(s).Some? && Alive(HomeOf(s).value)
      requires s.mode == Accept ==> s.server.mode == Listen
      requires s.registered != old(s.registered)
      requires forall t :: t in socks && t != s ==> t.registered == old(t.registered)
      requires forall t :: t in socks ==> t.acceptCnt == |t.acceptList|
      requires s.mode != Connect ==> clientList == old(clientList)
      requires s.mode != Listen ==> serverList == old(serverList)
      requires forall t :: t in socks && !(s.mode == Accept && t == s.server) ==> t.acceptList == old(t.acceptList)
      requires var l := old(Members(HomeOf(s).value));
        Members(HomeOf(s).value) == if s.registered then l + [s] else RemoveFirst(l, s)
      ensures RegistryOk()
    {
      hide Distinct, RemoveFirst;
      var h := HomeOf(s).value;
      assert old(ListOk(h)) && (old(s.registered) <==> old(InHome(s)));
      ListChanged(old(Members(h)), s, s.registered);
      assert Members(Clients) == clientList && Members(Servers) == serverList;
      assert old(ListOk(Clients)) && old(ListOk(Servers));
      assert ListOk(h);
      forall t | t in socks && h != Accepted(t) ensures ListOk(Accepted(t)) {
        assert old(ListOk(Accepted(t))) && Members(Accepted(t)) == old(Members(Accepted(t)));
      }
      forall t | t in socks ensures t.registered <==> InHome(t) {
        assert old(t.registered) <==> old(InHome(t));
      }
    }

    // --- epoll ---

    /** A socket in no container comes into the context. */
    ghost method Adopt(s: Sock)
      requires Valid() && s !in socks && s.Idle()
      modifies this`socks
      ensures Valid() && socks == old(socks) + {s}
    {
      hide RegistryOk, Distinct;
      socks := socks + {s};
      RegistryAdopted(s);
      assert TasksOk() by {
        hide QueueOk, EpollOk;
      }
      assert QueueOk() by {
        hide TasksOk, EpollOk;
      }
    }

    twostate lemma RegistryAdopted(s: Sock)
      requires old(RegistryOk()) && s !in old(socks) && socks == old(socks) + {s} && s.Idle()
      requires unchanged(old(socks)) && serverList == old(serverList) && clientList == old(clientList)
      ensures RegistryOk()
    {
      hide Distinct;
      assert old(ListOk(Clients)) && old(ListOk(Servers));
      forall t | t in old(socks) ensures ListOk(Accepted(t)) && (InHome(t) <==> t.registered) {
        assert old(ListOk(Accepted(t))) && (t.registered <==> old(InHome(t)));
      }
      NothingListed(s);
      assert !InHome(s) by {
        assert forall h :: s in Members(h) ==> h.Accepted? && h.server != s;
      }
    }

    lemma NothingListed(s: Sock)
      requires s.acceptList == []
      ensures ListOk(Accepted(s))
    {
    }

    /** cp_sock_init: every field is reset, whatever it held, and the socket may be used in this context. */
    method Init(s: Sock)
      requires Valid() && s !in socks
      modifies s, this`socks
      ensures Valid() && socks == old(socks) + {s} && s.Idle()
    {
      hide QueueOk, TasksOk, EpollOk, RegistryOk;
      s.epolled := false;
      s.registered := false;
      s.inqueue := false;
      s.tasked := false;
      s.index := -1;
      s.acceptCnt := 0;
      s.acceptList := [];
      Adopt(s);
    }

    /** A socket that is in no container leaves the context. */
    ghost method Retire(s: Sock)
      requires Valid() && s in socks && s.acceptList == []
      requires !s.epolled && !s.registered && !s.inqueue && !s.tasked
      modifies this`socks
      ensures Valid() && socks == old(socks) - {s}
    {
      hide Distinct;
      Elsewhere(s);
      socks := socks - {s};
      RegistryRetired(s);
      hide RegistryOk;
      assert QueueOk() by {
        hide TasksOk, EpollOk;
      }
      assert TasksOk() by {
        hide QueueOk, EpollOk;
      }
      assert EpollOk();
    }

    twostate lemma RegistryRetired(s: Sock)
      requires old(RegistryOk()) && s in old(socks) && socks == old(socks) - {s}
      requires s !in clientList && s !in serverList && forall t :: t in old(socks) ==> s !in t.acceptList
      requires s.acceptList == []
      requires unchanged(old(socks)) && serverList == old(serverList) && clientList == old(clientList)
      ensures RegistryOk()
    {
      hide Distinct;
      assert old(ListOk(Clients)) && old(ListOk(Servers));
      forall t | t in socks ensures ListOk(Accepted(t)) && (InHome(t) <==> t.registered) {
        assert old(ListOk(Accepted(t))) && (t.registered <==> old(InHome(t)));
      }
    }

    twostate lemma EpollEntered(s: Sock)
      requires old(EpollOk()) && socks == old(socks) && s in socks && s !in old(watched)
      requires old(eventCnt) <= maxEvent && eventCnt == old(eventCnt) + 1 && watched == old(watched) + {s}
      requires s.epolled && forall t :: t in socks && t != s ==> t.epolled == old(t.epolled)
      ensures EpollOk()
    {
    }

    method AddEpoll(s: Sock, answer: Answer) returns (rv: int)
      requires Valid() && s in socks
      requires answer.AlreadyThere? ==> s in watched
      requires answer.Added? ==> s !in watched
      modifies s`epolled, this`eventCnt, this`watched
      ensures Valid()
      ensures rv == if old(s.epolled) then 0 else if old(eventCnt) > maxEvent then -2
                    else if answer.Added? then 0 else -3
      ensures watched == if rv == 0 then old(watched) + {s} else old(watched)
      ensures s.epolled <==> rv == 0
    {
      hide QueueOk, TasksOk, EpollOk, RegistryOk;
      EpollFlag(s);
      if s.epolled {
        return 0;
      }
      if eventCnt > maxEvent {
        return -2;
      }
      rv := 0;
      match answer {
        case AlreadyThere =>
          return;
        case Refused =>
          rv := -3;
          return;
        case Added =>
      }
      eventCnt := eventCnt + 1;
      s.epolled := true;
      watched := watched + {s};
      EpollEntered(s);
      QueueKept();
      TasksKept();
      RegistryKept();
    }

    method DelEpoll(s: Sock)
      requires Valid() && s in socks
      modifies s`epolled, this`eventCnt, this`watched
      ensures Valid()
      ensures !s.epolled && watched == old(watched) - {s}
    {
      hide QueueOk, TasksOk, RegistryOk;
      if !s.epolled {
        return;
      }
      s.epolled := false;
      watched := watched - {s};
      eventCnt := eventCnt - 1;
      QueueKept();
      TasksKept();
      RegistryKept();
    }

    // --- The registry ---

    /** Returns -2 for an accepted socket without a server. */
    method AddRegistry(s: Sock) returns (rv: int)
      requires Valid() && s in socks
      requires s.mode == Accept && s.server != null ==> s.server in socks && s.server.mode == Listen
      modifies s, this`serverList, this`clientList, Parent(s)
      ensures Valid()
      ensures rv == if old(s.registered) || HomeOf(s).Some? then 0 else -2
      ensures s.registered <==> rv == 0
      ensures var entered := if !old(s.registered) then HomeOf(s) else None;
        clientList == old(clientList) + (if entered == Some(Clients) then [s] else [])
        && serverList == old(serverList) + (if entered == Some(Servers) then [s] else [])
        && (forall t :: t in socks ==>
              t.acceptList == old(t.acceptList) + (if entered == Some(Accepted(t)) then [s] else []))
      ensures OthersKept(s)
    {
      hide QueueOk, TasksOk, EpollOk, RegistryOk, Distinct;
      if s.registered {
        return 0;
      }
      Counts();
      if s.mode == Connect {
        clientList := clientList + [s];
      } else if s.mode == Listen {
        serverList := serverList + [s];
      } else if s.mode == Accept && s.server != null {
        s.server.acceptList := s.server.acceptList + [s];
        s.server.acceptCnt := s.server.acceptCnt + 1;
      } else {
        return -2;
      }
      s.registered := true;
      rv := 0;
      QueueKept();
      TasksKept();
      EpollKept();
      RegistryChanged(s);
    }

    /** Only registration changed, and only that of s. */
    twostate predicate OthersKept(s: Sock)
      reads this, socks
    {
      socks == old(socks)
      && (forall t :: t in socks ==> t.epolled == old(t.epolled) && t.inqueue == old(t.inqueue)
                                     && t.tasked == old(t.tasked) && t.index == old(t.index))
      && (forall t :: t in socks && t != s ==> t.registered == old(t.registered))
    }

    /** A socket is in no list but the one its mode gives it, and there only when registered. */
    lemma Elsewhere(s: Sock)
      requires RegistryOk() && s in socks
      ensures s in clientList <==> s.mode == Connect && s.registered
      ensures s in serverList <==> s.mode == Listen && s.registered
      ensures forall t :: t in socks ==> (s in t.acceptList <==> s.mode == Accept && s.server == t && s.registered)
      ensures s.registered && s.mode == Accept ==> s.server in socks && s.server.mode == Listen
      ensures s.mode != Listen ==> s.acceptList == []
    {
      hide Distinct;
      assert ListOk(Clients) && ListOk(Servers);
      forall t | t in socks ensures ListOk(Accepted(t)) && Members(Accepted(t)) == t.acceptList {
      }
      assert s.registered <==> InHome(s);
    }

    lemma Counts()
      requires RegistryOk()
      ensures forall t :: t in socks ==> t.acceptCnt == |t.acceptList|
      ensures forall s :: s in socks ==> (s.registered <==> InHome(s))
    {
    }

    method DelRegistry(s: Sock)
      requires Valid() && s in socks
      modifies s, this`serverList, this`clientList, Listing(s)
      ensures Valid() && !s.registered && !InHome(s)
      ensures clientList == RemoveFirst(old(clientList), s) && serverList == RemoveFirst(old(serverList), s)
      ensures forall t :: t in socks ==> t.acceptList == RemoveFirst(old(t.acceptList), s)
      ensures OthersKept(s)
    {
      hide QueueOk, TasksOk, EpollOk, RegistryOk, Distinct, RemoveFirst;
      Elsewhere(s);
      if !s.registered {
        return;
      }
      Counts();
      if s.mode == Accept && s.server != null {
        s.server.acceptCnt := s.server.acceptCnt - 1;
      }
      // list_del: out of whichever list the links are in.
      match s.mode {
        case Connect =>
          clientList := RemoveFirst(clientList, s);
        case Listen =>
          serverList := RemoveFirst(serverList, s);
        case Accept =>
          s.server.acceptList := RemoveFirst(s.server.acceptList, s);
      }
      s.registered := false;
      QueueKept();
      TasksKept();
      EpollKept();
      RegistryChanged(s);
      Counts();
    }

    // --- task_array ---

    lemma TasksHeld()
      requires TasksOk()
      ensures tasks.Valid() && tasks.data.Length == maxEvent
    {
    }

    twostate lemma NoTaskEntered()
      requires old(TasksOk()) && socks == old(socks) && tasks.Valid()
      requires tasks.data[..] == old(tasks.data[..])
      requires forall t :: t in socks ==> t.tasked == old(t.tasked) && t.index == old(t.index)
      ensures TasksOk()
    {
      assert forall j :: 0 <= j < maxEvent ==> tasks.data[j] == tasks.data[..][j];
    }

    /** A socket without a slot was put into an empty one. */
    twostate lemma TaskEntered(s: Sock)
      requires old(TasksOk()) && socks == old(socks) && s in socks && tasks.Valid()
      requires s.tasked && !old(s.tasked)
      requires 0 <= s.index < maxEvent == tasks.data.Length && old(tasks.data[..])[s.index].None?
      requires forall t :: t in socks && t != s ==> t.tasked == old(t.tasked) && t.index == old(t.index)
      requires forall j :: 0 <= j < maxEvent ==> tasks.data[j] == if j == s.index then Some(s) else old(tasks.data[j])
      ensures TasksOk()
    {
    }

    /** Returns -2, and does nothing, when task_array is full. */
    method AddTask(s: Sock) returns (rv: int)
      requires Valid() && s in socks
      modifies s`tasked, s`index, tasks, tasks.data
      ensures Valid()
      ensures rv == if old(s.tasked) || old(tasks.items) < maxEvent then 0 else -2
      ensures s.tasked <==> rv == 0
      ensures !s.tasked || old(s.tasked) ==> tasks.data[..] == old(tasks.data[..])
      ensures s.tasked && !old(s.tasked) ==>
        0 <= s.index < maxEvent && tasks.data[..] == old(tasks.data[..])[s.index := Some(s)]
        && old(tasks.data[..])[s.index].None? && forall j :: 0 <= j < s.index ==> old(tasks.data[..])[j].Some?
    {
      hide QueueOk, TasksOk, EpollOk, RegistryOk, Occupied;
      if s.tasked {
        return 0;
      }
      TasksHeld();
      ghost var before := tasks.data[..];
      var i := tasks.Add(Some(s));
      rv := -2;
      if i >= 0 {
        s.index := i;
        s.tasked := true;
        rv := 0;
        assert forall j :: 0 <= j < maxEvent ==> tasks.data[j] == if j == i then Some(s) else before[j];
        TaskEntered(s);
      } else {
        NoTaskEntered();
      }
      QueueKept();
      EpollKept();
      RegistryKept();
    }

    lemma SlotOf(s: Sock)
      requires TasksOk() && s in socks && s.tasked
      ensures 0 <= s.index < maxEvent
    {
    }

    twostate lemma TaskLeft(s: Sock)
      requires old(TasksOk()) && socks == old(socks) && s in socks && tasks.Valid()
      requires !s.tasked && s.index == -1 && old(s.tasked)
      requires forall t :: t in socks && t != s ==> t.tasked == old(t.tasked) && t.index == old(t.index)
      requires tasks.data.Length == maxEvent
      requires forall j :: 0 <= j < maxEvent ==> tasks.data[j] == if j == old(s.index) then None else old(tasks.data[j])
      ensures TasksOk()
    {
    }

    method DelTask(s: Sock)
      requires Valid() && s in socks
      modifies s`tasked, s`index, tasks, tasks.data
      ensures Valid() && !s.tasked
      ensures !old(s.tasked) ==> tasks.data[..] == old(tasks.data[..])
      ensures old(s.tasked) ==> tasks.data[..] == old(tasks.data[..])[old(s.index) := None]
    {
      hide QueueOk, TasksOk, EpollOk, RegistryOk, Occupied;
      TasksHeld();
      if !s.tasked {
        return;
      }
      SlotOf(s);
      ghost var before, k := tasks.data[..], s.index;
      if s.index >= 0 {
        tasks.RemoveByIndex(s.index);
      } else {
        assert false;
      }
      s.tasked := false;
      s.index := -1;
      assert forall j :: 0 <= j < maxEvent ==> tasks.data[j] == if j == k then None else before[j];
      TaskLeft(s);
      QueueKept();
      EpollKept();
      RegistryKept();
    }

    // --- The event queue ---

    /**
     * Sets the flag before it tries to enqueue. When the queue is full the flag
     * stays set though the socket is not in the queue, and only then is the
     * invariant lost.
     */
    method Enqueue(s: Sock) returns (r: Option<Sock>)
      requires queue.Valid() && s in socks
      modifies s`inqueue, queue, queue.nodes
      ensures queue.Valid() && queue.size == old(queue.size)
      ensures var skipped := old(s.inqueue) || s.tasked;
        var full := old(queue.items == queue.size);
        r == (if skipped || full then None else Some(s))
        && queue.contents == (if skipped || full then old(queue.contents) else old(queue.contents) + [s])
        && (s.inqueue <==> old(s.inqueue) || !skipped)
        && (old(Valid()) ==> (Valid() <==> skipped || !full))
      ensures forall n :: n in queue.nodes ==> n in old(queue.nodes) || fresh(n)
    {
      hide TasksOk, EpollOk, RegistryOk;
      if s.inqueue || s.tasked {
        return None;
      }
      s.inqueue := true;
      var done := queue.Enqueue(s);
      r := if done then Some(s) else None;
      if old(Valid()) {
        TasksKept();
        EpollKept();
        RegistryKept();
      }
    }

    /** The sockets with a slot of task_array. */
    ghost function Busy(): set<Sock>
      reads this, socks
    {
      set s | s in socks && s.tasked
    }

    /** Those of l that fit. */
    ghost function Fitting(l: seq<Sock>): seq<Sock> {
      if |l| <= maxEvent then l else l[..maxEvent]
    }

    /** The queue while sockets join the line l: it holds those that fit, and all have the flag. */
    ghost predicate Filling(l: seq<Sock>)
      reads this, queue, queue.nodes, socks
    {
      queue.Valid() && queue.size == maxEvent && Distinct(l) && Among(l, socks)
      && queue.contents == Fitting(l) && (forall s :: s in socks ==> (s.inqueue <==> s in l))
    }

    lemma FillingStarts()
      requires QueueOk()
      ensures Filling(queue.contents)
    {
    }

    /** All of the line is queued, or only a part of it. */
    lemma FillingEnds(l: seq<Sock>)
      requires Filling(l)
      ensures queue.contents == Fitting(l) && (QueueOk() <==> |l| <= maxEvent)
      ensures forall s :: s in socks ==> (s.inqueue <==> s in l)
    {
      if |l| > maxEvent {
        var s := l[maxEvent];
        assert s in socks && s.inqueue;
        assert s !in l[..maxEvent];
      }
    }

    /** One socket of a round. */
    method PutWanted(s: Sock, ghost l: seq<Sock>)
      requires Filling(l) && s in socks
      modifies s`inqueue, queue, queue.nodes
      ensures Filling(if s.tasked || s in l then l else l + [s])
      ensures forall n :: n in queue.nodes ==> n in old(queue.nodes) || fresh(n)
    {
      hide Distinct, QueueOk, TasksOk, EpollOk, RegistryOk;
      if s !in l {
        DistinctExtends(l, s);
      }
      var r := Enqueue(s);
    }

    method PutAll(reported: seq<Sock>)
      requires Filling(queue.contents) && forall r :: r in reported ==> r in socks
      modifies socks`inqueue, queue, queue.nodes
      ensures Filling(old(Lined(queue.contents, reported, Busy())))
      ensures forall n :: n in queue.nodes ==> n in old(queue.nodes) || fresh(n)
    {
      hide Filling;
      ghost var held, busy := queue.contents, Busy();
      ghost var l := held;
      var i := 0;
      while i < |reported|
        invariant 0 <= i <= |reported| && l == Lined(held, reported[..i], busy) && Filling(l)
        invariant forall n :: n in queue.nodes ==> n in old(queue.nodes) || fresh(n)
      {
        assert reported[..i + 1][..i] == reported[..i];
        forall k | 0 <= k < |queue.nodes| && queue.nodes[k] in old(queue.nodes)
          ensures Occurs(old(queue.nodes), queue.nodes[k])
        {
        }
        PutWanted(reported[i], l);
        l := if reported[i] in busy || reported[i] in l then l else l + [reported[i]];
        i := i + 1;
      }
      assert reported[..i] == reported;
    }

    /**
     * cp_fds_detect_event, for the sockets reported that are connected: each is
     * enqueued in turn. The invariant survives if and only if the queue can hold
     * those already in it and those of the others that are not tasked.
     */
    method DetectEvent(reported: seq<Sock>)
      requires Valid() && forall r :: r in reported ==> r in socks
      modifies socks`inqueue, queue, queue.nodes
      ensures var l := old(Lined(queue.contents, reported, set s | s in socks && s.tasked));
        && queue.contents == (if |l| <= maxEvent then l else l[..maxEvent])
        && (forall s :: s in socks ==> (s.inqueue <==> s in l))
        && (Valid() <==> |l| <= maxEvent)
      ensures forall n :: n in queue.nodes ==> n in old(queue.nodes) || fresh(n)
    {
      hide QueueOk, TasksOk, EpollOk, RegistryOk, Filling;
      FillingStarts();
      ghost var l := Lined(queue.contents, reported, Busy());
      PutAll(reported);
      FillingEnds(l);
      TasksKept();
      EpollKept();
      RegistryKept();
    }

    lemma QueueDistinct()
      requires QueueOk()
      ensures Distinct(queue.contents)
    {
    }

    lemma QueueHeld()
      requires QueueOk()
      ensures queue.Valid() && forall s :: s in queue.contents ==> s in socks
    {
    }

    twostate lemma QueueShortened(s: Sock)
      requires old(QueueOk()) && socks == old(socks) && old(queue.contents) != [] && s == old(queue.contents)[0]
      requires queue.Valid() && queue.size == old(queue.size) && queue.contents == old(queue.contents)[1..]
      requires !s.inqueue && forall t :: t in socks && t != s ==> t.inqueue == old(t.inqueue)
      ensures QueueOk()
    {
      assert old(queue.contents) == [s] + queue.contents;
    }

    /** Takes the oldest socket; the caller sees to it that there is one. */
    method Dequeue() returns (s: Sock)
      requires Valid() && queue.contents != []
      modifies queue, socks`inqueue
      ensures Valid() && s == old(queue.contents)[0] && !s.inqueue
      ensures queue.contents == old(queue.contents)[1..]
      ensures forall t :: t in socks && t != s ==> t.inqueue == old(t.inqueue)
      ensures forall n :: n in queue.nodes ==> n in old(queue.nodes)
    {
      hide QueueOk, TasksOk, EpollOk, RegistryOk, Distinct;
      QueueHeld();
      var d := queue.Dequeue();
      s := d.value;
      s.inqueue := false;
      QueueShortened(s);
      TasksKept();
      EpollKept();
      RegistryKept();
    }

    twostate lemma QueueWithout(s: Sock)
      requires old(QueueOk()) && socks == old(socks) && s in socks
      requires queue.Valid() && queue.size == old(queue.size)
      requires queue.contents == RemoveFirst(old(queue.contents), s)
      requires !s.inqueue && forall t :: t in socks && t != s ==> t.inqueue == old(t.inqueue)
      ensures QueueOk()
    {
      RemoveFirstDistinct(old(queue.contents), s);
    }

    method RmQueue(s: Sock)
      requires Valid() && s in socks
      modifies s`inqueue, queue, queue.nodes
      ensures Valid() && !s.inqueue
      ensures queue.contents == RemoveFirst(old(queue.contents), s)
      ensures forall n :: n in queue.nodes ==> n in old(queue.nodes)
    {
      hide QueueOk, TasksOk, EpollOk, RegistryOk, Distinct, RemoveFirst;
      QueueHeld();
      QueueFlag(s);
      if !s.inqueue {
        return;
      }
      s.inqueue := false;
      var r := queue.Remove(s);
      QueueWithout(s);
      TasksKept();
      EpollKept();
      RegistryKept();
    }

    // --- Leaving ---

    /** cp_fds_destroy_sock, for a socket no accepted client depends on. */
    method Destroy(s: Sock)
      requires Valid() && s in socks && s.acceptList == []
      modifies this, s, Listing(s), tasks, tasks.data, queue, queue.nodes
      ensures Valid() && socks == old(socks) - {s}
      ensures queue.contents == RemoveFirst(old(queue.contents), s)
      ensures tasks.data[..] == Vacated(old(tasks.data[..]), {s})
      ensures watched == old(watched) - {s}
      ensures clientList == RemoveFirst(old(clientList), s) && serverList == RemoveFirst(old(serverList), s)
      ensures forall t :: t in socks ==>
        t.epolled == old(t.epolled) && t.registered == old(t.registered) && t.inqueue == old(t.inqueue)
        && t.tasked == old(t.tasked) && t.index == old(t.index)
        && t.acceptList == RemoveFirst(old(t.acceptList), s)
      ensures forall n :: n in queue.nodes ==> n in old(queue.nodes)
    {
      hide QueueOk, TasksOk, EpollOk, RegistryOk, RemoveFirst, Vacated;
      OwnSlot(s);
      DelTask(s);
      RmQueue(s);
      DelEpoll(s);
      DelRegistry(s);
      Retire(s);
    }

    /** A socket has at most the one slot its index names. */
    lemma OwnSlot(s: Sock)
      requires TasksOk() && s in socks
      ensures tasks.data.Length == maxEvent && (s.tasked ==> 0 <= s.index < maxEvent)
      ensures Vacated(tasks.data[..], {s}) ==
        if s.tasked then tasks.data[..][s.index := None] else tasks.data[..]
    {
      var v, d := Vacated(tasks.data[..], {s}), tasks.data[..];
      assert forall i :: 0 <= i < maxEvent ==> d[i] == tasks.data[i];
      if s.tasked {
        assert tasks.data[s.index] == Some(s);
      }
    }

    /** The first client of a server, which nothing else depends on. */
    method DestroyClient(s: Sock) returns (a: Sock)
      requires Valid() && s in socks && s.acceptList != []
      modifies this, socks, tasks, tasks.data, queue, queue.nodes
      ensures Valid() && a == old(s.acceptList)[0] && socks == old(socks) - {a} && a != s
      ensures watched == old(watched) - {a}
      ensures queue.contents == Without(old(queue.contents), {a})
      ensures tasks.data[..] == Vacated(old(tasks.data[..]), {a})
      ensures clientList == old(clientList) && serverList == old(serverList)
      ensures s.acceptList == old(s.acceptList)[1..]
      ensures forall t :: t in socks ==>
        t.epolled == old(t.epolled) && t.registered == old(t.registered) && t.inqueue == old(t.inqueue)
        && t.tasked == old(t.tasked) && t.index == old(t.index) && (t != s ==> t.acceptList == old(t.acceptList))
      ensures forall n :: n in queue.nodes ==> n in old(queue.nodes)
    {
      hide QueueOk, TasksOk, EpollOk, RegistryOk, RemoveFirst, Distinct, Without, Vacated;
      a := s.acceptList[0];
      AcceptedClient(s, a);
      Elsewhere(a);
      assert Parent(a) == {s};
      FirstOut(s.acceptList);
      QueueDistinct();
      WithoutOne(queue.contents, a);
      assert forall t :: t in socks && t != s ==> a !in t.acceptList;
      Destroy(a);
    }

    /** cp_sock_term_server: the accepted clients go first, then the server. All others keep their places. */
    method TermServer(s: Sock)
      requires Valid() && s in socks && s.mode == Listen
      modifies this, socks, tasks, tasks.data, queue, queue.nodes
      ensures var gone := {s} + set a | a in old(s.acceptList);
        Valid() && socks == old(socks) - gone && watched == old(watched) - gone
        && queue.contents == Without(old(queue.contents), gone)
        && tasks.data[..] == Vacated(old(tasks.data[..]), gone)
        && clientList == old(clientList) && serverList == RemoveFirst(old(serverList), s)
      ensures forall t :: t in socks ==>
        t.epolled == old(t.epolled) && t.registered == old(t.registered) && t.inqueue == old(t.inqueue)
        && t.tasked == old(t.tasked) && t.index == old(t.index) && t.acceptList == old(t.acceptList)
      ensures forall n :: n in queue.nodes ==> n in old(queue.nodes)
    {
      hide QueueOk, TasksOk, EpollOk, RegistryOk, RemoveFirst, Distinct, Without, Vacated;
      ghost var i := 0;
      ghost var gone: set<Sock> := {};
      VacatedBoth(tasks.data[..], gone, gone);
      WithoutNone(queue.contents, gone);
      while s.acceptList != []
        invariant Valid() && s in socks
        invariant 0 <= i <= |old(s.acceptList)| && s.acceptList == old(s.acceptList)[i..]
        invariant gone == set a | a in old(s.acceptList)[..i]
        invariant socks == old(socks) - gone && watched == old(watched) - gone
        invariant queue.contents == Without(old(queue.contents), gone)
        invariant tasks.data[..] == Vacated(old(tasks.data[..]), gone)
        invariant clientList == old(clientList) && serverList == old(serverList)
        invariant forall t :: t in socks ==>
          t.epolled == old(t.epolled) && t.registered == old(t.registered) && t.inqueue == old(t.inqueue)
          && t.tasked == old(t.tasked) && t.index == old(t.index) && (t != s ==> t.acceptList == old(t.acceptList))
        invariant forall n :: n in queue.nodes ==> n in old(queue.nodes)
        decreases |s.acceptList|
      {
        AmongByIndex(queue.nodes, old(queue.nodes));
        var a := DestroyClient(s);
        assert old(s.acceptList)[..i + 1] == old(s.acceptList)[..i] + [a];
        WithoutBoth(old(queue.contents), gone, {a});
        VacatedBoth(old(tasks.data[..]), gone, {a});
        gone := gone + {a};
        i := i + 1;
      }
      AmongByIndex(queue.nodes, old(queue.nodes));
      Elsewhere(s);
      QueueDistinct();
      WithoutOne(queue.contents, s);
      WithoutBoth(old(queue.contents), gone, {s});
      VacatedBoth(old(tasks.data[..]), gone, {s});
      assert old(s.acceptList)[..i] == old(s.acceptList);
      assert gone + {s} == {s} + set a | a in old(s.acceptList);
      Destroy(s);
    }

    lemma AcceptedClient(s: Sock, a: Sock)
      requires RegistryOk() && s in socks && a in s.acceptList
      ensures a in socks && a.mode == Accept && a.server == s && a != s && a.acceptList == []
      ensures s.mode == Listen
    {
      assert ListOk(Accepted(s)) && Members(Accepted(s)) == s.acceptList;
      Elsewhere(a);
    }

    method ClearTasks()
      requires Valid()
      modifies tasks, tasks.data, socks`tasked, socks`index
      ensures Valid() && forall i :: 0 <= i < maxEvent ==> tasks.data[i].None?
    {
      hide QueueOk, EpollOk, RegistryOk;
      var i := 0;
      while i < tasks.data.Length
        invariant 0 <= i <= tasks.data.Length && Valid()
        invariant forall j :: 0 <= j < i ==> tasks.data[j].None?
      {
        if tasks.data[i].Some? {
          ghost var before := tasks.data[..];
          DelTask(tasks.data[i].value);
          assert forall j :: 0 <= j < maxEvent ==> tasks.data[..][j] == tasks.data[j];
        }
        i := i + 1;
      }
    }

    /** Empties the queue, but leaves the flags of its sockets as they were. */
    method DrainQueue()
      requires Valid()
      modifies queue
      ensures queue.contents == [] && (Valid() <==> old(queue.contents) == [])
      ensures forall n :: n in queue.nodes ==> n in old(queue.nodes)
    {
      hide TasksOk, EpollOk, RegistryOk, Distinct;
      while queue.items != 0
        invariant queue.Valid() && queue.size == maxEvent
        invariant old(queue.contents) == [] ==> queue.contents == []
        invariant forall n :: n in queue.nodes ==> n in old(queue.nodes)
        decreases queue.items
      {
        var d := queue.Dequeue();
      }
      if old(queue.contents) != [] {
        var s := old(queue.contents)[0];
        assert s in socks && s.inqueue && s !in queue.contents;
      }
      TasksKept();
      EpollKept();
      RegistryKept();
    }

    /**
     * cp_sock_term_all_task empties task_array and the queue. It takes the
     * sockets off the queue without clearing their flags, so the invariant
     * survives exactly when the queue was empty to begin with.
     */
    method TermAllTask()
      requires Valid()
      modifies queue, tasks, tasks.data, socks`tasked, socks`index
      ensures queue.contents == [] && forall i :: 0 <= i < maxEvent ==> tasks.data[i].None?
      ensures forall s :: s in socks ==> !s.tasked && s.index == -1
      ensures Valid() <==> old(queue.contents) == []
      ensures forall n :: n in queue.nodes ==> n in old(queue.nodes)
    {
      hide QueueOk, TasksOk, EpollOk, RegistryOk;
      ClearTasks();
      NoneTasked();
      DrainQueue();
    }

    lemma NoneTasked()
      requires TasksOk() && forall i :: 0 <= i < maxEvent ==> tasks.data[i].None?
      ensures forall s :: s in socks ==> !s.tasked && s.index == -1
    {
    }

    // --- Runs ---

    /** What a step needs: that the objects it follows are there. */
    predicate Possible(step: Step, alive: set<Sock>)
      reads queue, alive
    {
      match step
      case Entered(s) => s !in alive
      case RegistryIn(s) =>
        s in alive && (s.mode != Accept || s.server == null || (s.server in alive && s.server.mode == Listen))
      case QueueNext => queue.items > 0
      case Destroyed(s) => s in alive && s.acceptList == []
      case ServerDown(s) => s in alive && s.mode == Listen
      case _ => Named(step) <= alive
    }

    /** The steps after which the flags and the queue disagree. */
    ghost predicate Loses(step: Step)
      reads this, queue, socks, Named(step)
    {
      match step
      case QueueIn(s) => !s.inqueue && !s.tasked && queue.items == queue.size
      case Detected(reported) => |Lined(queue.contents, reported, Busy())| > maxEvent
      case AllTasksDone => queue.contents != []
      case _ => false
    }

    /**
     * How the library is meant to be used: no more than maxEvent sockets in
     * epoll, only those are enqueued, and none leaves epoll while it is queued.
     */
    predicate Disciplined(step: Step)
      reads this, queue, Named(step)
    {
      match step
      case EpollIn(s, _) => s.epolled || eventCnt < maxEvent
      case EpollOut(s) => !s.inqueue
      case QueueIn(s) => s.epolled
      case Detected(reported) => forall r :: r in reported ==> r.epolled
      case AllTasksDone => queue.items == 0
      case _ => true
    }

    ghost predicate Within()
      reads this, queue
    {
      eventCnt <= maxEvent && Among(queue.contents, watched)
    }

    lemma LineWatched(reported: seq<Sock>)
      requires EpollOk() && Within() && forall r :: r in reported ==> r in socks && r.epolled
      ensures Among(Lined(queue.contents, reported, Busy()), watched)
    {
      forall s | s in Lined(queue.contents, reported, Busy()) ensures s in watched {
        JustLined(queue.contents, reported, Busy(), s);
        if s !in queue.contents {
          assert s in reported;
          assert s in socks && s.epolled;
        }
      }
    }

    lemma LineFits(reported: seq<Sock>)
      requires QueueOk() && EpollOk() && Within() && forall r :: r in reported ==> r in socks && r.epolled
      ensures |Lined(queue.contents, reported, Busy())| <= maxEvent
    {
      hide Distinct;
      QueueDistinct();
      LinedUp(queue.contents, reported, Busy());
      LineWatched(reported);
      var l := Lined(queue.contents, reported, Busy());
      var held := set q | q in l;
      DistinctSize(l, held);
      SubsetSize(held, watched);
    }

    /** What is enqueued with discipline has room. */
    lemma DisciplineSuffices(step: Step)
      requires Valid() && Within() && Disciplined(step) && (!step.Entered? ==> Named(step) <= socks)
      ensures !Loses(step)
    {
      match step {
        case QueueIn(s) =>
          if !s.inqueue {
            QueueHasRoom(s, watched);
          }
        case Detected(reported) =>
          LineFits(reported);
        case _ =>
      }
    }

    /** Possible steps within the discipline, by what the containers hold. */
    lemma AllowedIs(step: Step)
      requires Valid()
      ensures Allowed(Held(), maxEvent, step) <==> Possible(step, socks) && Disciplined(step)
    {
      hide QueueOk, TasksOk, EpollOk, RegistryOk;
      QueueCount();
      WatchedCount();
      forall s | s in socks ensures (s.epolled <==> s in watched) && (s.inqueue <==> s in queue.contents) {
        EpollFlag(s);
        QueueFlag(s);
      }
    }

    /**
     * Any possible steps, as long as one likes: with the discipline the invariant
     * holds after each. Sockets may come and go, more than maxEvent in all. Steps
     * that are not possible, or break the discipline, are passed over.
     */
    method Run(steps: seq<Step>, inside: set<Sock>, all: set<Sock>)
      requires Valid() && socks == inside <= all && Within()
      requires forall i :: 0 <= i < |steps| ==> Named(steps[i]) <= all
      modifies this, all, tasks, tasks.data, queue, queue.nodes
      ensures Valid() && socks <= all && Within()
      ensures Held() == Course(old(Held()), maxEvent, steps)
    {
      hide QueueOk, TasksOk, EpollOk, RegistryOk, RemoveFirst, Among, Possible, Disciplined, Loses, Within;
      hide Held, Allowed, After;
      var alive := inside;
      var i := 0;
      while i < |steps|
        invariant 0 <= i <= |steps| && Valid() && socks == alive <= all && Within()
        invariant Held() == Course(old(Held()), maxEvent, steps[..i])
        invariant forall n :: n in queue.nodes ==> n in old(queue.nodes) || fresh(n)
      {
        forall k | 0 <= k < |queue.nodes| && queue.nodes[k] in old(queue.nodes)
          ensures Occurs(old(queue.nodes), queue.nodes[k])
        {
        }
        AllowedIs(steps[i]);
        assert steps[..i + 1][..i] == steps[..i];
        if Possible(steps[i], alive) && Disciplined(steps[i]) {
          alive := Perform(steps[i], alive, all);
        }
        i := i + 1;
      }
      assert steps[..i] == steps;
    }

    /** The queue and the watched sockets after sockets have gone. */
    lemma StillWithin(contents: seq<Sock>, was: set<Sock>)
      requires Valid() && Among(contents, was) && |was| <= maxEvent && watched <= was
      requires (forall q :: q in queue.contents ==> q in contents)
      requires forall q :: q in was && q in socks ==> q in watched
      ensures Within()
    {
      SubsetSize(watched, was);
    }

    /** A server and its clients: nothing of them stands in the lists of the others, but for the server's own place. */
    lemma ServerGone(s: Sock)
      requires RegistryOk() && s in socks && s.mode == Listen
      ensures var gone := {s} + set a | a in s.acceptList;
        && Without(clientList, gone) == clientList && Without(serverList, gone) == RemoveFirst(serverList, s)
        && forall t :: t in socks && t != s ==> Without(t.acceptList, gone) == t.acceptList
    {
      hide Distinct, Without, RemoveFirst;
      assert ListOk(Servers);
      var clients := set a | a in s.acceptList;
      forall a | a in clients
        ensures a !in clientList && a !in serverList && forall t :: t in socks && t != s ==> a !in t.acceptList
      {
        AcceptedClient(s, a);
        Elsewhere(a);
      }
      Elsewhere(s);
      WithoutNone(clientList, {s} + clients);
      WithoutNone(serverList, clients);
      WithoutBoth(serverList, clients, {s});
      assert clients + {s} == {s} + clients;
      WithoutOne(serverList, s);
      forall t | t in socks && t != s ensures Without(t.acceptList, {s} + clients) == t.acceptList {
        WithoutNone(t.acceptList, {s} + clients);
      }
    }

    /** The containers without one socket. */
    twostate lemma HeldWithout(s: Sock)
      requires old(QueueOk() && RegistryOk()) && s in old(socks) && socks == old(socks) - {s}
      requires queue.contents == RemoveFirst(old(queue.contents), s) && watched == old(watched) - {s}
      requires tasks.data[..] == Vacated(old(tasks.data[..]), {s})
      requires clientList == RemoveFirst(old(clientList), s) && serverList == RemoveFirst(old(serverList), s)
      requires forall t :: t in socks ==> t.acceptList == RemoveFirst(old(t.acceptList), s)
      ensures Held() == After(old(Held()), maxEvent, Destroyed(s))
    {
      hide QueueOk, RegistryOk, RemoveFirst, Without, Vacated;
      LoneGone(s);
    }

    /** Taking one socket out of the lists, in either form. */
    twostate lemma LoneGone(s: Sock)
      requires old(QueueOk() && RegistryOk()) && s in old(socks)
      ensures Without(old(queue.contents), {s}) == RemoveFirst(old(queue.contents), s)
      ensures Without(old(clientList), {s}) == RemoveFirst(old(clientList), s)
      ensures Without(old(serverList), {s}) == RemoveFirst(old(serverList), s)
      ensures forall t :: t in old(socks) ==> Without(old(t.acceptList), {s}) == RemoveFirst(old(t.acceptList), s)
    {
      hide Distinct, Without, RemoveFirst;
      assert old(ListOk(Clients)) && old(ListOk(Servers));
      WithoutOne(old(queue.contents), s);
      WithoutOne(old(clientList), s);
      WithoutOne(old(serverList), s);
      forall t | t in old(socks) ensures Without(old(t.acceptList), {s}) == RemoveFirst(old(t.acceptList), s) {
        assert old(ListOk(Accepted(t))) && old(Members(Accepted(t))) == old(t.acceptList);
        WithoutOne(old(t.acceptList), s);
      }
    }

    /** The containers without a server and its clients. */
    twostate lemma HeldWithoutServer(s: Sock)
      requires s in old(socks)
      requires var gone := {s} + set a | a in old(s.acceptList);
        && socks == old(socks) - gone && watched == old(watched) - gone
        && queue.contents == Without(old(queue.contents), gone)
        && tasks.data[..] == Vacated(old(tasks.data[..]), gone)
        && clientList == Without(old(clientList), gone) && serverList == Without(old(serverList), gone)
        && forall t :: t in socks ==> t.acceptList == Without(old(t.acceptList), gone)
      ensures Held() == After(old(Held()), maxEvent, ServerDown(s))
    {
      hide RemoveFirst, Without, Vacated;
    }

    method Leave(s: Sock)
      requires Valid() && s in socks && s.acceptList == []
      modifies this, socks, tasks, tasks.data, queue, queue.nodes
      ensures Valid() && socks == old(socks) - {s}
      ensures Held() == After(old(Held()), maxEvent, Destroyed(s))
      ensures old(Within()) ==> Within()
      ensures forall n :: n in queue.nodes ==> n in old(queue.nodes)
    {
      hide QueueOk, TasksOk, EpollOk, RegistryOk, RemoveFirst, Vacated, After, Held;
      ghost var c, was, within := queue.contents, watched, Within();
      Elsewhere(s);
      WatchedCount();
      Destroy(s);
      HeldWithout(s);
      if within {
        StillWithin(c, was);
      }
    }

    method LeaveWithClients(s: Sock)
      requires Valid() && s in socks && s.mode == Listen
      modifies this, socks, tasks, tasks.data, queue, queue.nodes
      ensures Valid() && socks == old(socks) - {s} - (set a | a in old(s.acceptList))
      ensures Held() == After(old(Held()), maxEvent, ServerDown(s))
      ensures old(Within()) ==> Within()
      ensures forall n :: n in queue.nodes ==> n in old(queue.nodes)
    {
      hide QueueOk, TasksOk, EpollOk, RegistryOk, RemoveFirst, Vacated, After, Held, Without;
      ghost var c, was, within := queue.contents, watched, Within();
      WatchedCount();
      ServerGone(s);
      ghost var gone := {s} + set a | a in s.acceptList;
      TermServer(s);
      HeldWithoutServer(s);
      if within {
        StillWithin(c, was);
      }
    }

    method Enter(s: Sock)
      requires Valid() && s !in socks
      modifies s, this`socks
      ensures Valid() && socks == old(socks) + {s}
      ensures Held() == After(old(Held()), maxEvent, Entered(s))
      ensures old(Within()) ==> Within()
    {
      hide QueueOk, TasksOk, EpollOk, RegistryOk;
      Init(s);
    }

    method Enlist(s: Sock)
      requires Valid() && s in socks
      requires s.mode == Accept && s.server != null ==> s.server in socks && s.server.mode == Listen
      modifies s, this`serverList, this`clientList, socks
      ensures Valid() && OthersKept(s)
      ensures Held() == After(old(Held()), maxEvent, RegistryIn(s))
    {
      hide QueueOk, TasksOk, EpollOk, RegistryOk, After, Held;
      Elsewhere(s);
      var rv := AddRegistry(s);
      HeldEnlisted(s);
    }

    twostate lemma HeldEnlisted(s: Sock)
      requires socks == old(socks) && s in socks && watched == old(watched)
      requires queue.contents == old(queue.contents) && tasks.data[..] == old(tasks.data[..])
      requires s.mode == Accept && s.server != null ==> s.server in socks
      requires old(s.registered) <==> if HomeOf(s).None? then old(s.registered) else s in old(Members(HomeOf(s).value))
      requires var entered := if !old(s.registered) then HomeOf(s) else None;
        clientList == old(clientList) + (if entered == Some(Clients) then [s] else [])
        && serverList == old(serverList) + (if entered == Some(Servers) then [s] else [])
        && (forall t :: t in socks ==>
              t.acceptList == old(t.acceptList) + (if entered == Some(Accepted(t)) then [s] else []))
      ensures Held() == After(old(Held()), maxEvent, RegistryIn(s))
    {
      var h, k := old(Held()), Held();
      forall t | t in socks
        ensures t.acceptList == if !old(s.registered) && HomeOf(s) == Some(Accepted(t)) then old(t.acceptList) + [s]
                                else old(t.acceptList)
      {
      }
      if s.mode == Accept && s.server != null && !old(s.registered) {
        assert k.accepted == h.accepted[s.server := h.accepted[s.server] + [s]];
      } else {
        assert k.accepted == h.accepted;
      }
    }

    method Seat(s: Sock)
      requires Valid() && s in socks
      modifies s`tasked, s`index, tasks, tasks.data
      ensures Valid()
      ensures Held() == After(old(Held()), maxEvent, TaskIn(s))
    {
      hide QueueOk, TasksOk, EpollOk, RegistryOk;
      SlotFlag(s);
      TasksHeld();
      ghost var slots, was := tasks.data[..], s.tasked;
      if tasks.items >= maxEvent {
        AllOccupied(slots);
        NoSeat(slots, s);
      }
      var rv := AddTask(s);
      if s.tasked && !was {
        SeatedAt(slots, s, s.index);
      }
      ListsKept();
    }

    twostate lemma ListsKept()
      requires socks == old(socks) && forall t :: t in socks ==> t.acceptList == old(t.acceptList)
      ensures Held().accepted == old(Held()).accepted
    {
    }

    method Unseat(s: Sock)
      requires Valid() && s in socks
      modifies s`tasked, s`index, tasks, tasks.data
      ensures Valid()
      ensures Held() == After(old(Held()), maxEvent, TaskOut(s))
    {
      hide QueueOk, TasksOk, EpollOk, RegistryOk;
      OwnSlot(s);
      DelTask(s);
    }

    lemma SlotFlag(s: Sock)
      requires TasksOk() && s in socks
      ensures tasks.data.Length == maxEvent && (s.tasked <==> Some(s) in tasks.data[..])
    {
      if s.tasked {
        assert tasks.data[..][s.index] == Some(s);
      }
      if Some(s) in tasks.data[..] {
        var i :| 0 <= i < maxEvent && tasks.data[..][i] == Some(s);
        assert tasks.data[i].Some?;
      }
    }

    method Watch(s: Sock, refused: bool)
      requires Valid() && s in socks
      modifies s`epolled, this`eventCnt, this`watched
      ensures Valid()
      ensures Held() == After(old(Held()), maxEvent, EpollIn(s, refused))
      ensures old(Within() && (s.epolled || eventCnt < maxEvent)) ==> Within()
    {
      hide QueueOk, TasksOk, EpollOk, RegistryOk;
      WatchedCount();
      EpollFlag(s);
      var rv := AddEpoll(s, if refused || s.epolled then Refused else Added);
      WatchedCount();
    }

    method Unwatch(s: Sock)
      requires Valid() && s in socks
      modifies s`epolled, this`eventCnt, this`watched
      ensures Valid()
      ensures Held() == After(old(Held()), maxEvent, EpollOut(s))
      ensures old(Within() && !s.inqueue) ==> Within()
    {
      hide QueueOk, TasksOk, EpollOk, RegistryOk;
      WatchedCount();
      QueueFlag(s);
      DelEpoll(s);
      WatchedCount();
    }

    method Unlist(s: Sock)
      requires Valid() && s in socks
      modifies this`serverList, this`clientList, socks
      ensures Valid() && OthersKept(s)
      ensures Held() == After(old(Held()), maxEvent, RegistryOut(s))
    {
      hide QueueOk, TasksOk, EpollOk, RegistryOk, After, Held, RemoveFirst;
      Elsewhere(s);
      DelRegistry(s);
      HeldUnlisted(s);
    }

    twostate lemma HeldUnlisted(s: Sock)
      requires socks == old(socks) && s in socks && watched == old(watched)
      requires queue.contents == old(queue.contents) && tasks.data[..] == old(tasks.data[..])
      requires clientList == RemoveFirst(old(clientList), s) && serverList == RemoveFirst(old(serverList), s)
      requires forall t :: t in socks ==> t.acceptList == RemoveFirst(old(t.acceptList), s)
      ensures Held() == After(old(Held()), maxEvent, RegistryOut(s))
    {
      hide RemoveFirst;
    }

    method TakeIn(s: Sock)
      requires Valid() && s in socks
      modifies s`inqueue, queue, queue.nodes
      ensures Valid() <==> old(s.inqueue || s.tasked || queue.items != queue.size)
      ensures Held() == After(old(Held()), maxEvent, QueueIn(s))
      ensures old(Within() && s.epolled) ==> Within()
      ensures forall n :: n in queue.nodes ==> n in old(queue.nodes) || fresh(n)
    {
      hide QueueOk, TasksOk, EpollOk, RegistryOk;
      EpollFlag(s);
      QueueFlag(s);
      SlotFlag(s);
      QueueCount();
      QueueHeld();
      var r := Enqueue(s);
      ListsKept();
    }

    method TakeReported(reported: seq<Sock>)
      requires Valid() && forall r :: r in reported ==> r in socks
      modifies socks`inqueue, queue, queue.nodes
      ensures var l := old(Lined(queue.contents, reported, set s | s in socks && s.tasked));
        && queue.contents == (if |l| <= maxEvent then l else l[..maxEvent])
        && (forall s :: s in socks ==> (s.inqueue <==> s in l))
        && (Valid() <==> |l| <= maxEvent)
      ensures Held() == After(old(Held()), maxEvent, Detected(reported))
      ensures old(Within() && forall r :: r in reported ==> r.epolled) ==> Within()
      ensures forall n :: n in queue.nodes ==> n in old(queue.nodes) || fresh(n)
    {
      hide QueueOk, TasksOk, EpollOk, RegistryOk, Lined;
      WatchedFlags();
      if Within() && forall r :: r in reported ==> r.epolled {
        LineWatched(reported);
      }
      BusyAlike(reported);
      DetectEvent(reported);
      ListsKept();
    }

    /** Who has a slot, by the flags and by the slots. */
    lemma BusyAlike(reported: seq<Sock>)
      requires TasksOk() && forall r :: r in reported ==> r in socks
      ensures Lined(queue.contents, reported, set s | s in socks && s.tasked)
           == Lined(queue.contents, reported, set s | s in reported && Some(s) in tasks.data[..])
    {
      hide TasksOk;
      forall r | r in reported ensures r.tasked <==> Some(r) in tasks.data[..] {
        SlotFlag(r);
      }
      LinedAlike(queue.contents, reported, set s | s in socks && s.tasked,
                 set s | s in reported && Some(s) in tasks.data[..]);
    }

    method TakeOut(s: Sock)
      requires Valid() && s in socks
      modifies s`inqueue, queue, queue.nodes
      ensures Valid() && (old(Within()) ==> Within())
      ensures Held() == After(old(Held()), maxEvent, QueueOut(s))
      ensures forall n :: n in queue.nodes ==> n in old(queue.nodes)
    {
      hide QueueOk, TasksOk, EpollOk, RegistryOk, RemoveFirst;
      RmQueue(s);
    }

    method TakeNext()
      requires Valid() && queue.items > 0
      modifies queue, socks`inqueue
      ensures Valid() && (old(Within()) ==> Within())
      ensures Held() == After(old(Held()), maxEvent, QueueNext)
      ensures forall n :: n in queue.nodes ==> n in old(queue.nodes)
    {
      hide QueueOk, TasksOk, EpollOk, RegistryOk;
      QueueCount();
      var s := Dequeue();
    }

    method TakeAll()
      requires Valid()
      modifies queue, tasks, tasks.data, socks`tasked, socks`index
      ensures (Valid() <==> old(queue.contents) == []) && (old(Within()) ==> Within())
      ensures Held() == After(old(Held()), maxEvent, AllTasksDone)
      ensures forall n :: n in queue.nodes ==> n in old(queue.nodes)
    {
      hide QueueOk, TasksOk, EpollOk, RegistryOk;
      TasksHeld();
      TermAllTask();
      assert tasks.data[..] == seq(maxEvent, i => None);
      ListsKept();
    }

    lemma NothingHeld()
      requires QueueOk() && EpollOk() && socks == {}
      ensures queue.contents == [] && eventCnt == 0 && watched == {}
    {
      DistinctSize(queue.contents, set q | q in queue.contents);
      assert (set q | q in queue.contents) == {};
    }

    lemma WatchedFlags()
      requires EpollOk()
      ensures forall s :: s in socks && s.epolled ==> s in watched
    {
    }

    lemma WatchedCount()
      requires EpollOk()
      ensures eventCnt == |watched| && watched <= socks
    {
    }

    /** One possible step: what it loses, and that with discipline it loses nothing. */
    method Perform(step: Step, alive: set<Sock>, ghost all: set<Sock>) returns (left: set<Sock>)
      requires Valid() && socks == alive <= all && Named(step) <= all && Possible(step, alive)
      modifies this, all, tasks, tasks.data, queue, queue.nodes
      ensures Valid() <==> !old(Loses(step))
      ensures old(Within() && Disciplined(step)) ==> Valid() && Within()
      ensures socks == left <= all
      ensures Held() == After(old(Held()), maxEvent, step)
      ensures forall n :: n in queue.nodes ==> n in old(queue.nodes) || fresh(n)
    {
      hide QueueOk, TasksOk, EpollOk, RegistryOk, RemoveFirst, Among, After, Held;
      left := alive;
      if Within() && Disciplined(step) {
        DisciplineSuffices(step);
      }
      match step {
        case Entered(s) =>
          Enter(s);
          left := alive + {s};
        case Destroyed(s) =>
          left := alive - {s};
          Leave(s);
        case ServerDown(s) =>
          left := alive - {s} - (set a | a in s.acceptList);
          LeaveWithClients(s);
        case EpollIn(s, refused) => Watch(s, refused);
        case EpollOut(s) => Unwatch(s);
        case RegistryIn(s) => Enlist(s);
        case RegistryOut(s) => Unlist(s);
        case TaskIn(s) => Seat(s);
        case TaskOut(s) => Unseat(s);
        case QueueIn(s) => TakeIn(s);
        case Detected(reported) => TakeReported(reported);
        case QueueNext => TakeNext();
        case QueueOut(s) => TakeOut(s);
        case AllTasksDone => TakeAll();
      }
    }

    lemma QueueFlag(s: Sock)
      requires QueueOk() && s in socks
      ensures s.inqueue <==> s in queue.contents
    {
    }

    lemma QueueCount()
      requires QueueOk()
      ensures queue.items == |queue.contents| && queue.size == maxEvent
    {
    }

    lemma EpollFlag(s: Sock)
      requires EpollOk() && s in socks
      ensures s.epolled <==> s in watched
    {
    }

    /** A socket outside the context is in none of its containers. */
    lemma OutsideNowhere(s: Sock)
      requires Valid() && s !in socks
      ensures s !in queue.contents && s !in watched && s !in clientList && s !in serverList
      ensures forall i :: 0 <= i < maxEvent ==> tasks.data[i] != Some(s)
      ensures forall t :: t in socks ==> s !in t.acceptList
    {
      hide Distinct;
      forall t | t in socks ensures s !in t.acceptList {
        assert ListOk(Accepted(t)) && Members(Accepted(t)) == t.acceptList;
      }
      assert ListOk(Clients) && ListOk(Servers);
    }

    /** Each container holds a socket exactly when its flag is set, and then once. */
    lemma FlagsTellAll(s: Sock)
      requires Valid() && s in socks
      ensures s.inqueue <==> multiset(queue.contents)[s] == 1
      ensures s.tasked <==> exists i :: 0 <= i < maxEvent && tasks.data[i] == Some(s)
      ensures s.tasked ==> forall i :: 0 <= i < maxEvent && tasks.data[i] == Some(s) ==> i == s.index
      ensures s.registered <==> HomeOf(s).Some? && multiset(Members(HomeOf(s).value))[s] == 1
      ensures queue.items == |queue.contents| && eventCnt == |watched| && s.acceptCnt == |s.acceptList|
    {
      hide Distinct;
      OnceIn(queue.contents, s);
      if HomeOf(s).Some? {
        OnceIn(Members(HomeOf(s).value), s);
        assert ListOk(HomeOf(s).value);
      }
    }

    /** With no more sockets of interest than events, the queue always has room for one more of them. */
    lemma QueueHasRoom(s: Sock, interest: set<Sock>)
      requires Valid() && s in interest && s !in queue.contents
      requires |interest| <= maxEvent && Among(queue.contents, interest)
      ensures queue.items < queue.size
    {
      var c := queue.contents;
      var held := set q | q in c;
      DistinctSize(c, held);
      SubsetSize(held, interest - {s});
    }
  }

  /** A context of sockets that are all in epoll and in no other container. */
  ghost predicate Crowd(c: Context, guests: seq<Sock>)
    reads c, c.queue, c.queue.nodes, c.tasks, c.tasks.data, c.socks, guests
  {
    c.Valid() && c.queue.contents == [] && Distinct(guests)
    && c.socks == c.watched == (set g | g in guests) && c.eventCnt == |guests|
    && forall g :: g in guests ==> g.epolled && !g.tasked
  }

  method NewGuest(c: Context) returns (s: Sock)
    requires c.Valid() && c.eventCnt <= c.maxEvent && c.watched <= c.socks
    modifies c
    ensures c.Valid() && fresh(s) && c.socks == old(c.socks) + {s} && c.watched == old(c.watched) + {s}
    ensures s.epolled && !s.tasked
  {
    hide Context.QueueOk, Context.TasksOk, Context.EpollOk, Context.RegistryOk;
    s := new Sock(Connect, null);
    c.Init(s);
    var rv := c.AddEpoll(s, Added);
  }

  method Admit(c: Context, guests: seq<Sock>) returns (more: seq<Sock>)
    requires Crowd(c, guests) && |guests| <= c.maxEvent
    modifies c
    ensures Crowd(c, more) && |more| == |guests| + 1
    ensures forall g :: g in more ==> g in guests || fresh(g)
  {
    hide Context.QueueOk, Context.TasksOk, Context.EpollOk, Context.RegistryOk, Distinct;
    var s := NewGuest(c);
    more := guests + [s];
    assert (set g | g in more) == (set g | g in guests) + {s};
    DistinctExtends(guests, s);
    DistinctSize(more, set g | g in more);
    c.WatchedCount();
  }

  /** All of them have events at once. */
  method Report(c: Context, guests: seq<Sock>)
    requires Crowd(c, guests)
    modifies c.socks, c.queue, c.queue.nodes
    ensures c.Valid() <==> |guests| <= c.maxEvent
    ensures forall g :: g in guests ==> g in c.socks && g.epolled
  {
    hide Context.QueueOk, Context.TasksOk, Context.EpollOk, Context.RegistryOk, Distinct;
    LinedUpFresh(guests, c.Busy());
    c.DetectEvent(guests);
  }

  /**
   * cp_add_epoll_event compares with >, so it lets maxEvent + 1 sockets in. When
   * all of them have events the queue is one short, whatever maxEvent is.
   */
  method OneTooMany(maxEvents: int) returns (c: Context, guests: seq<Sock>)
    ensures fresh(c) && c.eventCnt == |guests| == c.maxEvent + 1 && !c.Valid()
    ensures forall g :: g in guests ==> g in c.socks && g.epolled
  {
    assert Distinct<Sock>([]);
    hide Context.QueueOk, Context.TasksOk, Context.EpollOk, Context.RegistryOk, Distinct;
    c := new Context(maxEvents);
    guests := [];
    c.NothingHeld();
    while |guests| <= c.maxEvent
      invariant Crowd(c, guests) && |guests| <= c.maxEvent + 1
      invariant fresh(c) && fresh(c.queue) && c.queue.nodes == [] && fresh(c.socks)
      decreases c.maxEvent + 1 - |guests|
    {
      guests := Admit(c, guests);
    }
    Report(c, guests);
  }

  lemma FirstOut(l: seq<Sock>)
    requires l != []
    ensures RemoveFirst(l, l[0]) == l[1..]
  {
  }

  lemma {:induction false} OnceIn(l: seq<Sock>, s: Sock)
    ensures s in l <==> multiset(l)[s] > 0
    ensures Distinct(l) ==> multiset(l)[s] <= 1
    decreases |l|
  {
    if l != [] {
      OnceIn(l[1..], s);
      assert l == [l[0]] + l[1..];
    }
  }

  lemma {:induction false} DistinctSize(l: seq<Sock>, held: set<Sock>)
    requires Distinct(l) && held == set q | q in l
    ensures |held| == |l|
    decreases |l|
  {
    if l != [] {
      var rest := set q | q in l[1..];
      DistinctSize(l[1..], rest);
      assert l == [l[0]] + l[1..];
      assert held == rest + {l[0]} && l[0] !in rest;
    }
  }

  lemma DistinctExtends(l: seq<Sock>, s: Sock)
    requires Distinct(l) && s !in l
    ensures Distinct(l + [s])
  {
  }

  lemma SameSize(a: set<Sock>, b: set<Sock>)
    requires a <= b && |a| == |b|
    ensures a == b
  {
    if x :| x in b && x !in a {
      SubsetSize(a, b - {x});
    }
  }

  lemma {:induction false} SubsetSize(a: set<Sock>, b: set<Sock>)
    requires a <= b
    ensures |a| <= |b|
    decreases |a|
  {
    if a != {} {
      var x :| x in a;
      SubsetSize(a - {x}, b - {x});
    }
  }
}
