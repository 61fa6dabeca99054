/** One pass of the broadcast thread over the client list, src/server/server.c:943-984, while the other
    threads go on, and the way of a line from one keyboard to the other screens. */
module BroadcastPass {
  import opened Wrappers
  import opened Sequences
  import opened Message
  import opened Framing
  import opened Session
  import opened Server
  import opened ServerProofs

  // ----- what a drop does to the clients that are still to be visited

  lemma {:induction false} PlaceIs(clients: seq<Id>, k: nat)
    requires Distinct(clients) && k < |clients|
    ensures Place(clients, clients[k]) == k
  {
  }

  function Less(clients: seq<Id>, id: Id): (less: seq<Id>)
    ensures id in clients ==> |less| == |clients| - 1
    ensures id !in clients ==> less == clients
  {
    if id in clients then clients[..Place(clients, id)] + clients[Place(clients, id) + 1..] else clients
  }

  lemma {:induction false} LessIs(clients: seq<Id>, id: Id)
    requires Distinct(clients) && id in clients
    ensures Less(clients, id) == clients[..Place(clients, id)] + clients[Place(clients, id) + 1..]
    ensures Distinct(Less(clients, id)) && forall x :: x in Less(clients, id) <==> x in clients && x != id
  {
    hide Place, Distinct;
    CutPlaces(clients, id);
  }

  lemma {:induction false} CutBehind(ids: seq<Id>, i: nat, k: nat)
    requires i < k <= |ids|
    ensures (ids[..i] + ids[i + 1..])[k - 1..] == ids[k..]
  {
  }

  lemma {:induction false} CutBeyond(ids: seq<Id>, i: nat, k: nat)
    requires k <= i < |ids|
    ensures (ids[..i] + ids[i + 1..])[k..] == ids[k..][..i - k] + ids[k..][i - k + 1..]
  {
    assert ids[..i][k..] == ids[k..][..i - k];
  }

  lemma {:induction false} NotFrom(clients: seq<Id>, id: Id, k: nat)
    requires Distinct(clients) && id in clients && Place(clients, id) < k <= |clients|
    ensures id !in clients[k..]
  {
    hide Place;
  }

  /** The clients from the `k`th on, when another one is taken off in front of them or among them. */
  lemma {:induction false} LessFrom(clients: seq<Id>, id: Id, k: nat)
    requires Distinct(clients) && id in clients && k <= |clients|
    ensures var i := Place(clients, id);
      && (i < k ==> Less(clients[k..], id) == clients[k..] == Less(clients, id)[k - 1..])
      && (i >= k ==> Less(clients[k..], id) == Less(clients, id)[k..])
  {
    hide Place;
    var i := Place(clients, id);
    if i < k {
      CutBehind(clients, i, k);
      NotFrom(clients, id, k);
    } else {
      assert clients[k..][i - k] == id;
      PlaceIs(clients[k..], i - k);
      CutBeyond(clients, i, k);
    }
  }

  lemma {:induction false} CutAt(ids: seq<Id>, i: nat, k: nat)
    requires i < |ids| && k < |ids| && k != i
    ensures var cut := ids[..i] + ids[i + 1..]; var k' := if i < k then k - 1 else k;
      |cut| == |ids| - 1 && k' < |cut| && cut[k'] == ids[k]
  {
  }

  lemma {:induction false} LessAt(clients: seq<Id>, id: Id, k: nat)
    requires Distinct(clients) && id in clients && k < |clients| && clients[k] != id
    ensures var k' := if Place(clients, id) < k then k - 1 else k;
      k' < |Less(clients, id)| && Less(clients, id)[k'] == clients[k] && Place(Less(clients, id), clients[k]) == k'
  {
    hide Place, Distinct, Less;
    LessIs(clients, id);
    CutAt(clients, Place(clients, id), k);
    PlaceIs(Less(clients, id), if Place(clients, id) < k then k - 1 else k);
  }

  lemma {:induction false} DroppedIs(s: State, id: Id, max: nat)
    requires Enabled(s, Drop(id))
    ensures id in s.clients && id in s.conns
    ensures var s' := Apply(s, Drop(id), max);
      && s'.clients == Less(s.clients, id)
      && s'.current == (if Place(s.clients, id) == 0 then After(s'.clients, 0) else s.current)
      && s'.conns == s.conns[id := s.conns[id].(phase := Gone)]
      && s'.pass == s.pass && s'.popped == s.popped && s'.queue == s.queue
  {
    hide Place;
  }

  /** Somebody is taken off the list: the clients still to be visited are the same, without the one that is
      gone, exactly if the drop is safe. */
  lemma {:induction false} DropKeepsPending(s: State, id: Id, max: nat)
    requires Distinct(s.clients) && Enabled(s, Drop(id)) && Pending(s).Some?
    ensures Pending(Apply(s, Drop(id), max)) == Some(Less(Pending(s).value, id)) <==> SafeDrop(s, id)
  {
    hide Apply, Enabled, Less, Place;
    DroppedIs(s, id, max);
    LessIs(s.clients, id);
    if Place(s.clients, id) == 0 {
      FirstDropped(s, Apply(s, Drop(id), max), id);
    } else {
      OtherDropped(s, Apply(s, Drop(id), max), id);
    }
  }

  lemma {:induction false} FirstDropped(s: State, s': State, id: Id)
    requires Distinct(s.clients) && id in s.clients && Place(s.clients, id) == 0 && Pending(s).Some?
    requires s'.clients == Less(s.clients, id) && s'.current == After(s'.clients, 0)
    ensures Pending(s') == Some(Less(Pending(s).value, id)) <==> Passed(s) <= 1
  {
    var k := Passed(s);
    var ids := s.clients;
    assert s'.clients == ids[1..];
    assert Pending(s).value == ids[k..];
    LessFrom(ids, id, k);
    if |ids| > 1 {
      LessAt(ids, id, 1);
      assert Pending(s') == Some(s'.clients[0..]) && s'.clients[0..] == ids[1..];
    } else {
      assert Pending(s') == Some([]) && ids[1..] == [];
    }
  }

  lemma {:induction false} OtherDropped(s: State, s': State, id: Id)
    requires Distinct(s.clients) && id in s.clients && Place(s.clients, id) > 0 && Pending(s).Some?
    requires s'.clients == Less(s.clients, id) && s'.current == s.current
    requires forall x :: x in s'.clients <==> x in s.clients && x != id
    ensures Pending(s') == Some(Less(Pending(s).value, id)) <==> Place(s.clients, id) != Passed(s)
  {
    hide Place, Less;
    if s.current.Some? && s.current.value != id {
      var k := Place(s.clients, s.current.value);
      PlaceDiffers(s.clients, id, s.current.value);
      LessFrom(s.clients, id, k);
      LessAt(s.clients, id, k);
    } else if s.current.None? {
      LessOfNone(id);
    }
  }

  lemma {:induction false} LessOfNone(id: Id)
    ensures Less([], id) == []
  {
  }

  lemma {:induction false} PlaceDiffers(clients: seq<Id>, a: Id, b: Id)
    requires a in clients && b in clients && a != b
    ensures Place(clients, a) != Place(clients, b)
  {
    hide Place;
    assert clients[Place(clients, a)] == a;
  }

  /** A first client that is taken off behind the cursor's back: the next client is visited once more. */
  lemma {:induction false} UnsafeDropRepeats(s: State, max: nat)
    requires ListMatchesConns(s) && s.pass.Passing? && Pending(s).Some? && Passed(s) > 1
    requires Enabled(s, Drop(s.clients[0])) && HasNickname(s, s.clients[1]) && s.clients[1] in s.pass.got
    ensures var again, s' := s.clients[1], Apply(s, Drop(s.clients[0]), max);
      && Enabled(s', Next)
      && Apply(s', Next, max).pass.got == s.pass.got + [again]
      && Apply(s', Next, max).conns[again].inbox == s.conns[again].inbox + [s.pass.message]
      && !Distinct(Apply(s', Next, max).pass.got)
  {
    hide Place, Apply, Enabled, Distinct, Pending, Passed, Less, ListMatchesConns;
    FirstTwo(s);
    var id, again := s.clients[0], s.clients[1];
    var s' := Apply(s, Drop(id), max);
    DroppedIs(s, id, max);
    LessAt(s.clients, id, 1);
    NextIsEnabled(s');
    NextIs(s', max);
    TwiceIsNotDistinct(s.pass.got, again);
  }

  lemma {:induction false} FirstTwo(s: State)
    requires ListMatchesConns(s) && Pending(s).Some? && Passed(s) > 1
    ensures |s.clients| > 1 && Distinct(s.clients) && Place(s.clients, s.clients[0]) == 0
    ensures s.clients[0] != s.clients[1] && s.clients[1] in s.conns
  {
    hide Place;
    PlaceIs(s.clients, 0);
  }

  lemma {:induction false} TwiceIsNotDistinct(ids: seq<Id>, id: Id)
    requires id in ids
    ensures !Distinct(ids + [id])
  {
    var i :| 0 <= i < |ids| && ids[i] == id;
    assert (ids + [id])[i] == (ids + [id])[|ids|];
  }

  lemma {:induction false} NextIsEnabled(s: State)
    requires s.pass.Passing? && (s.current.Some? ==> s.current.value in s.clients && s.current.value in s.conns)
    ensures Enabled(s, Next)
  {
  }

  // ----- one pass

  predicate HasNickname(s: State, id: Id) {
    id in s.conns && s.conns[id].nickname != ""
  }

  function InboxAt(s: State, id: Id): seq<C2HMessage> {
    if id in s.conns then s.conns[id].inbox else []
  }

  /** A step while a message is on its way: anybody may join, authenticate, chat or leave the chat, and be
      taken off the list when that is safe for the cursor. */
  predicate Fair(s: State, step: Step) {
    !step.Pop? && (step.Drop? && s.pass.Passing? && step.id in s.clients ==> SafeDrop(s, step.id))
  }

  predicate FairRun(s: State, steps: seq<Step>, max: nat)
    decreases |steps|
  {
    steps == []
    || (Enabled(s, steps[0]) && Fair(s, steps[0]) && FairRun(Apply(s, steps[0], max), steps[1..], max))
  }

  /** The clients `seen` have been visited; the cursor stands in front of those that have not, and among
      them or seen are all that were there at the start and still are. */
  ghost predicate ToVisit(start: State, s: State, seen: set<Id>) {
    && seen <= s.conns.Keys && start.conns.Keys <= s.conns.Keys
    && (s.pass.Passing? ==> Pending(s).Some? && forall id :: id in Pending(s).value ==> id !in seen)
    && (forall id :: id in s.clients && id in start.clients ==>
          id in seen || (s.pass.Passing? && id in Pending(s).value))
  }

  /** Who has got the message: clients visited, each of them once, all with a nickname, and among them
      everybody visited who had one when the pass began. */
  ghost predicate Receipts(start: State, s: State, seen: set<Id>, m: C2HMessage) {
    && (s.pass.Passing? ==> s.pass.message == m)
    && Distinct(s.pass.got)
    && (forall id :: id in s.pass.got ==> id in seen && HasNickname(s, id))
    && (forall id :: id in seen && HasNickname(start, id) ==> id in s.pass.got)
    && (forall id :: HasNickname(start, id) ==> HasNickname(s, id))
    && (forall id :: id in s.conns ==>
          s.conns[id].inbox == InboxAt(start, id) + if id in s.pass.got then [m] else [])
  }

  /** The step leaves the list, the cursor and the pass alone, takes no nickname away and delivers nothing. */
  ghost predicate Aside(s: State, s': State) {
    && s'.clients == s.clients && s'.current == s.current && s'.pass == s.pass
    && s'.conns.Keys == s.conns.Keys
    && forall id :: id in s.conns ==>
         s'.conns[id].inbox == s.conns[id].inbox && (HasNickname(s, id) ==> HasNickname(s', id))
  }

  lemma {:induction false} AsideKeepsPass(start: State, s: State, s': State, seen: set<Id>, m: C2HMessage)
    requires ToVisit(start, s, seen) && Receipts(start, s, seen, m) && Aside(s, s')
    ensures ToVisit(start, s', seen) && Receipts(start, s', seen, m)
  {
    hide Place;
    forall id | HasNickname(s, id)
      ensures HasNickname(s', id)
    {
      assert id in s.conns;
    }
  }

  lemma {:induction false} SessionKeepsNickname(s: State, step: Step)
    requires OfSession(step) && Enabled(s, step) && Named(s.conns[step.id]) && s.conns[step.id].nickname != ""
    ensures Entry(s, s.conns[step.id], step).nickname == s.conns[step.id].nickname
  {
    hide BroadcastOf, Handle, Get, Reads, Pushes, ValidNickname, Taken, AllDefined, Messages;
  }

  lemma {:induction false} SessionKeepsInbox(s: State, step: Step)
    requires OfSession(step) && Enabled(s, step)
    ensures Entry(s, s.conns[step.id], step).inbox == s.conns[step.id].inbox
  {
    hide BroadcastOf, Handle, Get, Reads, Pushes, ValidNickname, Taken, AllDefined, Messages;
  }

  lemma {:induction false} SessionIsAside(s: State, step: Step, max: nat)
    requires SessionsGood(s) && Enabled(s, step) && (OfSession(step) || step.CheckLimit?)
    ensures Aside(s, Apply(s, step, max))
  {
    hide Entry, Enabled, Named, TraceShape;
    if OfSession(step) {
      SessionIs(s, step, max);
      SessionKeepsPass(s, step, max);
      SessionKeepsInbox(s, step);
      if HasNickname(s, step.id) {
        SessionKeepsNickname(s, step);
      }
    }
  }

  lemma {:induction false} SessionKeepsPass(s: State, step: Step, max: nat)
    requires OfSession(step) && Enabled(s, step)
    ensures Apply(s, step, max).pass == s.pass
  {
    hide Entry, Messages;
  }

  // ----- the visit

  lemma {:induction false} PendingNext(s: State, s': State)
    requires Distinct(s.clients) && s.current.Some? && s.current.value in s.clients
    requires s'.clients == s.clients && s'.current == After(s.clients, Place(s.clients, s.current.value) + 1)
    ensures Pending(s').Some? && Pending(s).Some?
    ensures Pending(s).value == [s.current.value] + Pending(s').value && s.current.value !in Pending(s').value
  {
    hide Place;
    var k := Place(s.clients, s.current.value);
    if k + 1 < |s.clients| {
      PlaceIs(s.clients, k + 1);
    }
    assert s.clients[k..] == [s.clients[k]] + s.clients[k + 1..];
  }

  lemma {:induction false} NextVisits(start: State, s: State, seen: set<Id>, m: C2HMessage, max: nat)
    returns (seen': set<Id>)
    requires ListMatchesConns(s) && ToVisit(start, s, seen) && Receipts(start, s, seen, m) && Enabled(s, Next)
    ensures ToVisit(start, Apply(s, Next, max), seen') && Receipts(start, Apply(s, Next, max), seen', m)
  {
    hide Apply, Enabled, Place, ToVisit, Receipts, Pending, ListMatchesConns;
    NextIs(s, max);
    seen' := seen;
    if s.current.Some? {
      var id := s.current.value;
      ListIsDistinct(s);
      PendingNext(s, Apply(s, Next, max));
      seen' := seen + {id};
      VisitOne(start, s, Apply(s, Next, max), seen, id);
      ReceiveOne(start, s, Apply(s, Next, max), seen, m, id);
    } else {
      NobodyLeft(start, s, seen, m);
    }
  }

  lemma {:induction false} NobodyLeft(start: State, s: State, seen: set<Id>, m: C2HMessage)
    requires ToVisit(start, s, seen) && Receipts(start, s, seen, m) && s.current.None? && s.pass.Passing?
    ensures var s' := s.(pass := Done(s.pass.got)); ToVisit(start, s', seen) && Receipts(start, s', seen, m)
  {
  }

  lemma {:induction false} VisitOne(start: State, s: State, s': State, seen: set<Id>, id: Id)
    requires ToVisit(start, s, seen) && s.pass.Passing? && s'.pass.Passing? && id in s.conns
    requires s'.clients == s.clients && s'.conns.Keys == s.conns.Keys
    requires Pending(s').Some? && Pending(s).value == [id] + Pending(s').value && id !in Pending(s').value
    ensures ToVisit(start, s', seen + {id}) && id !in seen
  {
    hide Pending;
    assert id in Pending(s).value;
    forall x | x in s.clients && x in start.clients
      ensures x in seen + {id} || x in Pending(s').value
    {
      assert x in seen || x in Pending(s).value;
    }
    forall x | x in Pending(s').value
      ensures x !in seen + {id}
    {
      assert x in Pending(s).value;
    }
  }

  lemma {:induction false} ReceiveOne(start: State, s: State, s': State, seen: set<Id>, m: C2HMessage, id: Id)
    requires Receipts(start, s, seen, m) && s.pass.Passing? && s'.pass.Passing? && id in s.conns && id !in seen
    requires s.conns[id].nickname == "" ==> s'.conns == s.conns && s'.pass == s.pass
    requires s.conns[id].nickname != "" ==>
      && s'.conns == s.conns[id := s.conns[id].(inbox := s.conns[id].inbox + [s.pass.message])]
      && s'.pass == s.pass.(got := s.pass.got + [id])
    ensures Receipts(start, s', seen + {id}, m)
  {
    if s.conns[id].nickname != "" {
      assert id !in s.pass.got;
      DistinctMore(s.pass.got, id);
    }
  }

  lemma {:induction false} DistinctMore(ids: seq<Id>, id: Id)
    requires Distinct(ids) && id !in ids
    ensures Distinct(ids + [id])
  {
  }

  lemma {:induction false} AdmitPending(s: State, s': State, id: Id)
    requires Distinct(s.clients) && id !in s.clients && Pending(s).Some? && (s.clients == [] ==> s.current == None)
    requires s'.clients == s.clients + [id] && s'.current == if s.clients == [] then Some(id) else s.current
    ensures Pending(s').Some?
    ensures Pending(s').value == Pending(s).value || Pending(s').value == Pending(s).value + [id]
  {
    hide Place;
    if s.clients == [] {
      PlaceIs(s'.clients, 0);
    } else if s.current.Some? {
      var k := Place(s.clients, s.current.value);
      DistinctMore(s.clients, id);
      PlaceIs(s'.clients, k);
      assert s'.clients[k..] == s.clients[k..] + [id];
    }
  }

  lemma {:induction false} AdmitKeepsPass(start: State, s: State, id: Id, seen: set<Id>, m: C2HMessage, max: nat)
    requires ListMatchesConns(s) && ListMatchesConns(start)
    requires ToVisit(start, s, seen) && Receipts(start, s, seen, m) && Enabled(s, Admit(id))
    ensures ToVisit(start, Apply(s, Admit(id), max), seen) && Receipts(start, Apply(s, Admit(id), max), seen, m)
  {
    hide Apply, Enabled, Pending;
    var s' := Apply(s, Admit(id), max);
    AdmittedIs(s, id, max);
    assert id !in s.clients && id !in start.conns && id !in start.clients;
    if s.pass.Passing? {
      AdmitPending(s, s', id);
    }
    NewHasReceivedNothing(start, s, s', id, seen, m);
  }

  lemma {:induction false} NewHasReceivedNothing(start: State, s: State, s': State, id: Id, seen: set<Id>, m: C2HMessage)
    requires Receipts(start, s, seen, m) && id !in s.conns && id !in start.conns && seen <= s.conns.Keys
    requires s'.conns == s.conns[id := NEW_CONN] && s'.pass == s.pass
    ensures Receipts(start, s', seen, m)
  {
  }

  lemma {:induction false} DropKeepsPass(start: State, s: State, id: Id, seen: set<Id>, m: C2HMessage, max: nat)
    requires ListMatchesConns(s) && ToVisit(start, s, seen) && Receipts(start, s, seen, m)
    requires Enabled(s, Drop(id)) && Fair(s, Drop(id))
    ensures ToVisit(start, Apply(s, Drop(id), max), seen) && Receipts(start, Apply(s, Drop(id), max), seen, m)
  {
    hide Apply, Enabled, Pending, Place, Less;
    var s' := Apply(s, Drop(id), max);
    DroppedIs(s, id, max);
    ListIsDistinct(s);
    LessIs(s.clients, id);
    if s.pass.Passing? {
      DropKeepsPending(s, id, max);
      PendingIsDistinct(s);
      LessHas(Pending(s).value, id);
    }
    GoneHasReceived(start, s, s', id, seen, m);
  }

  lemma {:induction false} LessHas(ids: seq<Id>, id: Id)
    requires Distinct(ids)
    ensures forall x :: x in Less(ids, id) ==> x in ids
    ensures forall x :: x in ids && x != id ==> x in Less(ids, id)
  {
    hide Less;
    if id in ids {
      LessIs(ids, id);
    } else {
      assert Less(ids, id) == ids;
    }
  }

  lemma {:induction false} PendingIsDistinct(s: State)
    requires Distinct(s.clients) && Pending(s).Some?
    ensures Distinct(Pending(s).value)
  {
    hide Place;
  }

  lemma {:induction false} GoneHasReceived(start: State, s: State, s': State, id: Id, seen: set<Id>, m: C2HMessage)
    requires Receipts(start, s, seen, m) && id in s.conns
    requires s'.conns == s.conns[id := s.conns[id].(phase := Gone)] && s'.pass == s.pass
    ensures Receipts(start, s', seen, m)
  {
  }

  // ----- the whole pass

  lemma {:induction false} FairStepKeepsPass(start: State, s: State, step: Step, seen: set<Id>, m: C2HMessage, max: nat)
    returns (seen': set<Id>)
    requires ListMatchesConns(start) && Invariant(s, max) && Enabled(s, step) && Fair(s, step)
    requires ToVisit(start, s, seen) && Receipts(start, s, seen, m)
    ensures ToVisit(start, Apply(s, step, max), seen') && Receipts(start, Apply(s, step, max), seen', m)
  {
    hide Apply, Enabled, Fair, Invariant, ToVisit, Receipts, Aside, ListMatchesConns, SessionsGood;
    InvariantParts(s, max);
    seen' := seen;
    NoPop(s, step);
    if step.Next? {
      seen' := NextVisits(start, s, seen, m, max);
    } else if step.Admit? {
      AdmitKeepsPass(start, s, step.id, seen, m, max);
    } else if step.Drop? {
      DropKeepsPass(start, s, step.id, seen, m, max);
    } else {
      SessionIsAside(s, step, max);
      AsideKeepsPass(start, s, Apply(s, step, max), seen, m);
    }
  }

  lemma {:induction false} NoPop(s: State, step: Step)
    requires Fair(s, step)
    ensures !step.Pop?
  {
  }

  lemma {:induction false} InvariantParts(s: State, max: nat)
    requires Invariant(s, max)
    ensures ListMatchesConns(s) && SessionsGood(s)
  {
  }

  /** The pass, step by step. */
  lemma {:induction false} PassRun(start: State, s: State, steps: seq<Step>, r: State, seen: set<Id>, m: C2HMessage,
                                   max: nat)
    returns (seen': set<Id>)
    requires ListMatchesConns(start) && Invariant(s, max)
    requires ToVisit(start, s, seen) && Receipts(start, s, seen, m)
    requires FairRun(s, steps, max) && Run(s, steps, max) == Some(r)
    ensures ToVisit(start, r, seen') && Receipts(start, r, seen', m)
    decreases |steps|
  {
    hide Apply, Enabled, Fair, Invariant, ToVisit, Receipts, ListMatchesConns;
    seen' := seen;
    if steps != [] {
      var next := FairStepKeepsPass(start, s, steps[0], seen, m, max);
      StepKeepsInvariant(s, steps[0], max);
      seen' := PassRun(start, Apply(s, steps[0], max), steps[1..], r, next, m, max);
    }
  }

  lemma {:induction false} PassBegins(start: State, max: nat)
    requires ListMatchesConns(start) && start.pass.Done? && start.queue != []
    ensures var s := Apply(start, Pop, max); ToVisit(start, s, {}) && Receipts(start, s, {}, start.queue[0])
  {
    var s := Apply(start, Pop, max);
    if start.clients != [] {
      PlaceIs(start.clients, 0);
      assert start.clients[0..] == start.clients;
    }
  }

  /** A message is popped at `start`, and the steps take its pass to the end at `r`. */
  predicate Passes(start: State, steps: seq<Step>, r: State, max: nat) {
    && start.pass.Done? && start.queue != []
    && FairRun(Apply(start, Pop, max), steps, max) && Run(Apply(start, Pop, max), steps, max) == Some(r)
    && r.pass.Done?
  }

  /** From the moment a message is popped until the pass is over, with clients joining, authenticating and
      leaving in between: whoever had a nickname at the start and has not left receives the message exactly
      once, nobody receives it twice, nobody without a nickname receives it, and nobody receives anything
      else. */
  lemma {:induction false} FanOut(start: State, steps: seq<Step>, r: State, max: nat)
    requires Invariant(start, max) && Passes(start, steps, r, max)
    ensures Distinct(r.pass.got) && forall id :: id in r.pass.got ==> HasNickname(r, id)
    ensures forall id :: id in start.clients && HasNickname(start, id) && id in r.clients ==> id in r.pass.got
    ensures forall id :: id in r.conns ==>
      r.conns[id].inbox == InboxAt(start, id) + if id in r.pass.got then [start.queue[0]] else []
  {
    hide Apply, Invariant, Run, FairRun, ListMatchesConns;
    InvariantParts(start, max);
    PassBegins(start, max);
    PopIsEnabled(start);
    StepKeepsInvariant(start, Pop, max);
    var seen := PassRun(start, Apply(start, Pop, max), steps, r, {}, start.queue[0], max);
  }

  lemma {:induction false} PopIsEnabled(s: State)
    requires s.pass.Done?
    ensures Enabled(s, Pop)
  {
  }

  /** A step delivers to nobody but the client that the cursor stands on, and to that one only if it has a
      nickname at that moment. */
  lemma {:induction false} OnlyNamedReceive(s: State, step: Step, max: nat, id: Id)
    requires Enabled(s, step) && id in s.conns
    ensures id in Apply(s, step, max).conns
    ensures Apply(s, step, max).conns[id].inbox != s.conns[id].inbox ==>
      && step.Next? && s.current == Some(id) && HasNickname(s, id)
      && Apply(s, step, max).conns[id].inbox == s.conns[id].inbox + [s.pass.message]
  {
    hide Entry, Messages, Place;
    if OfSession(step) {
      SessionIs(s, step, max);
      SessionKeepsInbox(s, step);
    }
  }

  // ----- from keyboard to screen

  /** Messages leave the queue in the order they came in. */
  lemma {:induction false} HistoryGrows(s: State, steps: seq<Step>, r: State, max: nat)
    requires Run(s, steps, max) == Some(r)
    ensures s.popped + s.queue <= r.popped + r.queue && |s.popped| <= |r.popped|
    decreases |steps|
  {
    hide Apply, Enabled;
    if steps != [] {
      StepGrows(s, steps[0], max);
      HistoryGrows(Apply(s, steps[0], max), steps[1..], r, max);
    }
  }

  lemma {:induction false} StepGrows(s: State, step: Step, max: nat)
    requires Enabled(s, step)
    ensures var s' := Apply(s, step, max);
      s.popped + s.queue <= s'.popped + s'.queue && |s.popped| <= |s'.popped|
  {
    hide Entry, Messages, Place, Interleaves, Apply, Enabled;
    if OfSession(step) {
      SessionAdds(s, step, max);
      var ms := Messages(s.conns[step.id], step);
      assert s.popped + (s.queue + ms) == (s.popped + s.queue) + ms;
    } else if step.Pop? {
      PopGrows(s, max);
    } else {
      var id := OtherStepAdds(s, step, max);
    }
  }

  lemma {:induction false} PopGrows(s: State, max: nat)
    requires Enabled(s, Pop)
    ensures var s' := Apply(s, Pop, max);
      s.popped + s.queue == s'.popped + s'.queue && |s.popped| <= |s'.popped|
  {
    assert s.queue != [] ==> (s.popped + [s.queue[0]]) + s.queue[1..] == s.popped + s.queue;
  }

  /** The next message to be popped, by its place among all that were enqueued. */
  lemma {:induction false} TurnComes(all: seq<C2HMessage>, m: C2HMessage, popped: seq<C2HMessage>, queue: seq<C2HMessage>)
    requires all + [m] <= popped + queue && |popped| == |all|
    ensures queue != [] && queue[0] == m
  {
    assert (all + [m])[|all|] == m;
    assert (popped + queue)[|all|] == m;
  }

  /** The user of the session types the line, and the message that its client makes of it is `typed`. */
  predicate Types(s: State, id: Id, c: string, typed: C2HMessage) {
    && InPhase(s, id, Chatting) && '%' !in s.conns[id].nickname
    && PlainText(c) && |s.conns[id].nickname| + |c| + 9 <= BUFFER_SIZE
    && CreateFromString(c) == Got(typed)
  }

  function Spoken(s: State, id: Id, c: string): C2HMessage {
    C2HMessage(Msg, if id in s.conns then s.conns[id].nickname else "", c)
  }

  /** The server can handle the record a typed line is sent in, and enqueues it as its user's. */
  lemma {:induction false} LineIsEnqueued(s: State, id: Id, c: string, typed: C2HMessage, acks: nat -> bool, max: nat)
    requires Types(s, id, c, typed) && ValidNickname(s.conns[id].nickname) && acks(0)
    ensures Enabled(s, Receive(id, Wire(typed), acks))
    ensures var s' := Apply(s, Receive(id, Wire(typed), acks), max);
      s'.queue == s.queue + [Spoken(s, id, c)] && s'.popped == s.popped
  {
    hide Handle, Reads, Arrived, CreateFromString, PlainText, ValidNickname, Moved, Wire;
    var m := Spoken(s, id, c);
    TypedLineIsHandled(m.user, c, acks);
    WireIsFrame(typed);
    AckAndPush([], Got(m));
    assert [] + [Ack(true), Push(Got(m))] == [Ack(true), Push(Got(m))];
  }

  /** ... and it comes to be the first in the queue when as many messages have been popped as were
      enqueued before it. */
  lemma {:induction false} LineIsFirst(start: State, id: Id, c: string, typed: C2HMessage, acks: nat -> bool,
                                       between: seq<Step>, turn: State, max: nat)
    requires Invariant(start, max) && Types(start, id, c, typed) && acks(0)
    requires Run(start, [Receive(id, Wire(typed), acks)] + between, max) == Some(turn)
    requires |turn.popped| == |start.popped + start.queue|
    ensures Invariant(turn, max) && turn.queue != [] && turn.queue[0] == Spoken(start, id, c)
  {
    hide Apply, Invariant, Enabled, Wire, Types;
    var step := Receive(id, Wire(typed), acks);
    var m := Spoken(start, id, c);
    NamedAtStart(start, id, c, typed, max);
    LineIsEnqueued(start, id, c, typed, acks, max);
    var s := Apply(start, step, max);
    assert ([step] + between)[0] == step && ([step] + between)[1..] == between;
    StepKeepsInvariant(start, step, max);
    RunKeepsInvariant(s, between, max);
    HistoryGrows(s, between, turn, max);
    assert start.popped + (start.queue + [m]) == (start.popped + start.queue) + [m];
    TurnComes(start.popped + start.queue, m, turn.popped, turn.queue);
  }

  /** End to end. A chatting user types a plain line, and its record reaches the server. When it is its turn to
      be broadcast, and the pass is over, every client that had a nickname and has not left has been sent,
      once, a record that reads as that user's message, unchanged. */
  lemma {:induction false} Delivery(start: State, id: Id, c: string, typed: C2HMessage, acks: nat -> bool,
                                    between: seq<Step>, turn: State, during: seq<Step>, r: State, max: nat)
    requires Invariant(start, max) && Types(start, id, c, typed) && acks(0)
    requires Run(start, [Receive(id, Wire(typed), acks)] + between, max) == Some(turn)
    requires |turn.popped| == |start.popped + start.queue|
    requires Passes(turn, during, r, max)
    ensures ReadsAs(Spoken(start, id, c))
    ensures Distinct(r.pass.got)
    ensures forall x :: x in turn.clients && HasNickname(turn, x) && x in r.clients ==> x in r.pass.got
    ensures forall x :: x in r.conns ==>
      r.conns[x].inbox == InboxAt(turn, x) + if x in r.pass.got then [Spoken(start, id, c)] else []
  {
    hide Apply, Invariant, Wire, Types, Passes, Run, ReadsAs;
    LineIsFirst(start, id, c, typed, acks, between, turn, max);
    SpokenReadsAs(start, id, c, typed, max);
    FanOut(turn, during, r, max);
  }

  /** The client that gets the message's record in its buffer reads the message. */
  predicate ReadsAs(m: C2HMessage) {
    Get(Arrived(Wire(m))).0 == Got(m)
  }

  lemma {:induction false} SpokenReadsAs(s: State, id: Id, c: string, typed: C2HMessage, max: nat)
    requires Invariant(s, max) && Types(s, id, c, typed)
    ensures ReadsAs(Spoken(s, id, c))
  {
    hide Invariant, Get, Reads, Arrived, Wire, PlainText, ValidNickname, CreateFromString;
    NamedAtStart(s, id, c, typed, max);
    TaggedIsSendable(s.conns[id].nickname, c);
    WireIsRead(Spoken(s, id, c));
  }

  lemma {:induction false} NamedAtStart(s: State, id: Id, c: string, typed: C2HMessage, max: nat)
    requires Invariant(s, max) && Types(s, id, c, typed)
    ensures ValidNickname(s.conns[id].nickname)
  {
    hide ValidNickname, TraceShape, PlainText, CreateFromString;
  }
}
