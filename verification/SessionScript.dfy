/** The order of what the thread of a connection does, src/server/server.c:784-936, told by the steps of a run
    alone: which step can come behind which, and what follows for what a session says. */
module SessionScript {
  import opened Wrappers
  import opened Message
  import opened Framing
  import opened Session
  import opened Server
  import opened ServerProofs

  /** What a step is for the session whose step it is. */
  datatype Deed =
    | Admitted
    | Welcomed(sent: bool)
    | PassedOver
    | Accepted(nickname: string)
    | Refused
    | TimedOut
    | Greeted(sent: bool)
    | Joined
    | Talked
    | Quitted
    | Stopped
    | SaidBye
    | Dropped

  /** Some client on the list has the nickname. */
  predicate InUse(s: State, nickname: string) {
    exists i :: 0 <= i < |s.clients| && s.clients[i] in s.conns && s.conns[s.clients[i]].nickname == nickname
  }

  /** What the record of a client that has yet to give its nickname comes to. */
  function Verdict(s: State, record: string): Deed
    requires Whole(record)
  {
    match Get(Arrived(record)).0
    case Got(m) =>
      if m.kind != Nick then PassedOver
      else if ValidNickname(m.content) && !InUse(s, m.content) then Accepted(m.content)
      else Refused
    case _ => Refused
  }

  /** What the step is for the session `id`, if it is one of its own. */
  function DeedOf(s: State, step: Step, id: Id): Option<Deed> {
    match step
    case Admit(x) => if x == id then Some(Admitted) else None
    case Welcome(x, sent) => if x == id then Some(Welcomed(sent)) else None
    case Authenticate(x, record) => if x == id && Whole(record) then Some(Verdict(s, record)) else None
    case GiveUp(x) => if x == id then Some(TimedOut) else None
    case Hello(x, sent) => if x == id then Some(Greeted(sent)) else None
    case Join(x) => if x == id then Some(Joined) else None
    case Receive(x, record, acks) =>
      if x == id && Whole(record) then
        Some(if Handle(Reads(Arrived(record)), NicknameIn(s, id), acks, 0).1 then Quitted else Talked)
      else None
    case Leave(x) => if x == id then Some(Stopped) else None
    case Bye(x) => if x == id then Some(SaidBye) else None
    case Drop(x) => if x == id then Some(Dropped) else None
    case _ => None
  }

  function NicknameIn(s: State, id: Id): string {
    if id in s.conns then s.conns[id].nickname else ""
  }

  /** The thread waits for a nickname, and this is what may come of it. */
  predicate Answers(d: Deed) {
    d.PassedOver? || d.Accepted? || d.Refused? || d.TimedOut?
  }

  /** The thread listens, and this is what may come of it. */
  predicate Listens(d: Deed) {
    d.Talked? || d.Quitted? || d.Stopped?
  }

  /** Which deed may come behind which. A welcome or a hello that is not sent, a refusal and a timeout lead to the
      drop and nothing else. */
  predicate Follows(a: Deed, b: Deed) {
    match a
    case Admitted => b.Welcomed?
    case Welcomed(sent) => if sent then Answers(b) else b.Dropped?
    case PassedOver => Answers(b)
    case Accepted(_) => b.Greeted?
    case Refused => b.Dropped?
    case TimedOut => b.Dropped?
    case Greeted(sent) => if sent then b.Joined? else b.Dropped?
    case Joined => Listens(b)
    case Talked => Listens(b)
    case Quitted => b.SaidBye?
    case Stopped => b.SaidBye?
    case SaidBye => b.Dropped?
    case Dropped => false
  }

  /** The deeds of the session in a run. */
  function Deeds(s: State, steps: seq<Step>, id: Id, max: nat): seq<Deed>
    decreases |steps|
  {
    if steps == [] || !Enabled(s, steps[0]) then [] else
    var d := DeedOf(s, steps[0], id);
    (if d.Some? then [d.value] else []) + Deeds(Apply(s, steps[0], max), steps[1..], id, max)
  }

  ghost predicate Script(ds: seq<Deed>) {
    && (ds != [] ==> ds[0].Admitted?)
    && forall i :: 0 <= i < |ds| - 1 ==> Follows(ds[i], ds[i + 1])
  }

  // ----- the deeds and the phases

  /** Where the thread stands after a deed. */
  function Stage(d: Deed): Phase {
    match d
    case Admitted => Starting
    case Welcomed(sent) => if sent then Authenticating else Dropping
    case PassedOver => Authenticating
    case Accepted(_) => Greeting
    case Refused => Dropping
    case TimedOut => Dropping
    case Greeted(sent) => if sent then Joining else Dropping
    case Joined => Chatting
    case Talked => Chatting
    case Quitted => Leaving
    case Stopped => Leaving
    case SaidBye => Dropping
    case Dropped => Gone
  }

  predicate Fails(d: Deed) {
    d == Welcomed(false) || d == Greeted(false) || d.Refused? || d.TimedOut?
  }

  /** The deeds so far fit the state: they are a script up to where the thread stands, a session that failed has
      said nothing, and one that has said something has joined. */
  ghost predicate Fits(s: State, ds: seq<Deed>, id: Id) {
    && Script(ds) && (id in s.conns <==> ds != [])
    && (ds != [] ==>
          && s.conns[id].phase == Stage(ds[|ds| - 1])
          && ((exists d <- ds :: Fails(d)) ==> s.conns[id].trace == [] && s.conns[id].phase in {Dropping, Gone})
          && (s.conns[id].trace != [] ==> Joined in ds)
          && s.conns[id].nickname == NameOf(ds))
  }

  /** The nickname that was accepted, if one was. */
  function NameOf(ds: seq<Deed>): string {
    if ds == [] then ""
    else if ds[|ds| - 1].Accepted? then ds[|ds| - 1].nickname
    else NameOf(ds[..|ds| - 1])
  }

  /** Where the thread stands before a deed. */
  function Before(d: Deed): Phase {
    match d
    case Welcomed(_) => Starting
    case PassedOver => Authenticating
    case Accepted(_) => Authenticating
    case Refused => Authenticating
    case TimedOut => Authenticating
    case Greeted(_) => Greeting
    case Joined => Joining
    case Talked => Chatting
    case Quitted => Chatting
    case Stopped => Chatting
    case SaidBye => Leaving
    case _ => Dropping
  }

  lemma {:induction false} FollowsIff(a: Deed, b: Deed)
    requires !b.Admitted?
    ensures Follows(a, b) <==> Stage(a) == Before(b)
  {
  }

  lemma {:induction false} InUseIsTaken(s: State, nickname: string)
    ensures InUse(s, nickname) <==> Taken(s, nickname)
  {
  }

  predicate Speaks(d: Deed) {
    d.Joined? || d.Talked? || d.Quitted? || d.SaidBye?
  }

  /** What the session's own step does: it comes from one phase and goes to another, it adds to the trace only
      when it speaks, and only an accepted nickname changes the name. */
  lemma {:induction false} DeedMoves(s: State, step: Step, id: Id, max: nat)
    requires Enabled(s, step) && DeedOf(s, step, id).Some? && !step.Admit? && !step.Drop?
    ensures var d, s' := DeedOf(s, step, id).value, Apply(s, step, max);
      && id in s.conns && s.conns[id].phase == Before(d) && s'.conns.Keys == s.conns.Keys
      && s'.conns[id].phase == Stage(d)
      && (!Speaks(d) ==> s'.conns[id].trace == s.conns[id].trace)
      && s'.conns[id].nickname == if d.Accepted? then d.nickname else s.conns[id].nickname
  {
    hide Entry, Messages, Apply;
    SessionIs(s, step, max);
    EntryOfDeed(s, step, id);
  }

  lemma {:induction false} EntryOfDeed(s: State, step: Step, id: Id)
    requires OfSession(step) && Enabled(s, step) && DeedOf(s, step, id).Some?
    ensures var d, c, c' := DeedOf(s, step, id).value, s.conns[id], Entry(s, s.conns[id], step);
      && step.id == id && c.phase == Before(d) && c'.phase == Stage(d)
      && (!Speaks(d) ==> c'.trace == c.trace)
      && c'.nickname == if d.Accepted? then d.nickname else c.nickname
  {
    hide BroadcastOf, Handle, Get, Reads, Arrived, Pushes, ValidNickname, Taken, InUse, AllDefined, Defined, Messages;
    if step.Join? || step.Receive? || step.Bye? {
    } else {
      SilentStep(s.conns[id], step);
      if step.Authenticate? {
        VerdictIs(s, s.conns[id], step.record);
      }
    }
  }

  lemma {:induction false} VerdictIs(s: State, c: Conn, record: string)
    requires Whole(record) && c.phase == Authenticating && !Get(Arrived(record)).0.Undefined?
    ensures var d, c' := Verdict(s, record), Answered(s, c, Get(Arrived(record)).0);
      && c'.phase == Stage(d) && c'.trace == c.trace
      && c'.nickname == if d.Accepted? then d.nickname else c.nickname
  {
    hide Get, Arrived, ValidNickname, Taken, InUse;
    var o := Get(Arrived(record)).0;
    if o.Got? {
      InUseIsTaken(s, o.message.content);
    }
  }

  lemma {:induction false} ArrivesOrLeaves(s: State, step: Step, id: Id, max: nat)
    requires Enabled(s, step) && (step == Admit(id) || step == Drop(id))
    ensures id in Apply(s, step, max).conns
    ensures var c' := Apply(s, step, max).conns[id];
      if step.Admit? then id !in s.conns && c'.phase == Starting && c'.trace == [] && c'.nickname == ""
      else
        && id in s.conns && s.conns[id].phase == Dropping
        && c'.phase == Gone && c'.trace == s.conns[id].trace && c'.nickname == s.conns[id].nickname
  {
    hide Place;
  }

  /** The steps of others leave the session as it is. */
  lemma {:induction false} NoDeed(s: State, step: Step, id: Id, max: nat)
    requires Enabled(s, step) && DeedOf(s, step, id).None?
    ensures var s' := Apply(s, step, max);
      && (id in s'.conns <==> id in s.conns)
      && (id in s.conns ==>
            && s'.conns[id].phase == s.conns[id].phase && s'.conns[id].trace == s.conns[id].trace
            && s'.conns[id].nickname == s.conns[id].nickname)
  {
    hide Place, Entry, Messages;
    if OfSession(step) {
      SessionIs(s, step, max);
    }
  }

  // ----- every run

  lemma {:induction false} ScriptMore(ds: seq<Deed>, d: Deed)
    requires Script(ds) && (if ds == [] then d.Admitted? else !d.Admitted? && Stage(ds[|ds| - 1]) == Before(d))
    ensures Script(ds + [d])
  {
    hide Follows, Stage, Before;
    if ds != [] {
      FollowsIff(ds[|ds| - 1], d);
    }
  }

  lemma {:induction false} NameMore(ds: seq<Deed>, d: Deed)
    ensures NameOf(ds + [d]) == if d.Accepted? then d.nickname else NameOf(ds)
    ensures NameOf([]) == ""
  {
    assert (ds + [d])[..|ds|] == ds;
  }

  lemma {:induction false} EarlyIsSilent(c: Conn)
    requires TraceShape(c)
    ensures c.phase in {Starting, Authenticating, Greeting, Joining} ==> c.trace == []
    ensures c.phase in {Chatting, Leaving} ==> c.trace != []
  {
  }

  /** The session's state after a deed fits the longer script. */
  lemma {:induction false} FitsMore(s: State, s': State, ds: seq<Deed>, id: Id, d: Deed)
    requires Fits(s, ds, id) && id in s'.conns && s'.conns[id].phase == Stage(d)
    requires s'.conns[id].nickname ==
      if d.Admitted? then "" else if d.Accepted? then d.nickname else NicknameIn(s, id)
    requires if d.Admitted? then id !in s.conns && s'.conns[id].trace == []
      else id in s.conns && s.conns[id].phase == Before(d) && TraceShape(s.conns[id])
    requires !Speaks(d) && !d.Admitted? ==> s'.conns[id].trace == s.conns[id].trace
    ensures Fits(s', ds + [d], id)
  {
    hide Script, Opened, Closed, NameOf;
    NameMore(ds, d);
    ScriptMore(ds, d);
    var ds' := ds + [d];
    assert ds'[|ds'| - 1] == d && ds'[..|ds'| - 1] == ds;
    assert forall x :: x in ds' <==> x in ds || x == d;
    if !d.Admitted? {
      EarlyIsSilent(s.conns[id]);
      assert Fails(d) ==> s.conns[id].phase in {Starting, Authenticating, Greeting, Joining};
      assert ds != [];
    } else {
      assert ds == [];
    }
  }

  lemma {:induction false} StepFits(s: State, step: Step, ds: seq<Deed>, id: Id, max: nat)
    requires Fits(s, ds, id) && SessionsGood(s) && Enabled(s, step)
    ensures var d := DeedOf(s, step, id); Fits(Apply(s, step, max), ds + if d.Some? then [d.value] else [], id)
  {
    hide Apply, Enabled, Script, Named, TraceShape, Stage, Before, Speaks;
    var d := DeedOf(s, step, id);
    if d.None? {
      NoDeed(s, step, id, max);
      assert ds + [] == ds;
    } else {
      if step.Admit? || step.Drop? {
        ArrivesOrLeaves(s, step, id, max);
        ArrivalIs(d.value);
      } else {
        DeedMoves(s, step, id, max);
        OwnDeed(s, step, id);
      }
      FitsMore(s, Apply(s, step, max), ds, id, d.value);
    }
  }

  lemma {:induction false} ArrivalIs(d: Deed)
    ensures d.Admitted? ==> Stage(d) == Starting && !Speaks(d)
    ensures d.Dropped? ==> Stage(d) == Gone && Before(d) == Dropping && !Speaks(d)
    ensures d.Admitted? || d.Dropped? ==> !d.Accepted?
  {
  }

  lemma {:induction false} OwnDeed(s: State, step: Step, id: Id)
    requires DeedOf(s, step, id).Some? && !step.Admit?
    ensures !DeedOf(s, step, id).value.Admitted?
  {
    hide Get, ValidNickname, InUse, Handle, Reads;
  }

  lemma {:induction false} DeedsFit(s: State, steps: seq<Step>, ds: seq<Deed>, id: Id, max: nat)
    requires Fits(s, ds, id) && Invariant(s, max) && Run(s, steps, max).Some?
    ensures Fits(Run(s, steps, max).value, ds + Deeds(s, steps, id, max), id)
    decreases |steps|
  {
    hide Apply, Enabled, Fits, Invariant, DeedOf;
    if steps == [] {
      assert ds + [] == ds;
    } else {
      var d := DeedOf(s, steps[0], id);
      var more := if d.Some? then [d.value] else [];
      GoodSessions(s, max);
      StepFits(s, steps[0], ds, id, max);
      StepKeepsInvariant(s, steps[0], max);
      DeedsFit(Apply(s, steps[0], max), steps[1..], ds + more, id, max);
      var rest := Deeds(Apply(s, steps[0], max), steps[1..], id, max);
      assert (ds + more) + rest == ds + (more + rest);
    }
  }

  lemma {:induction false} GoodSessions(s: State, max: nat)
    requires Invariant(s, max)
    ensures SessionsGood(s)
  {
  }

  /** In every run the deeds of a session follow the script of its thread, and it is there, and stands where its
      last deed has taken it, exactly from its admission on. */
  lemma {:induction false} EveryScript(steps: seq<Step>, id: Id, max: nat)
    requires Run(INITIAL, steps, max).Some?
    ensures Fits(Run(INITIAL, steps, max).value, Deeds(INITIAL, steps, id, max), id)
  {
    hide Run, Deeds, Invariant;
    InitiallyInvariant(max);
    assert Fits(INITIAL, [], id);
    DeedsFit(INITIAL, steps, [], id, max);
    assert [] + Deeds(INITIAL, steps, id, max) == Deeds(INITIAL, steps, id, max);
  }

  // ----- what the script says

  /** A session of which one deed is a welcome or hello that was not sent, a refusal or a timeout has enqueued
      nothing, and is on its way out or gone. */
  lemma {:induction false} RefusedIsSilent(steps: seq<Step>, id: Id, d: Deed, max: nat)
    requires Run(INITIAL, steps, max).Some? && d in Deeds(INITIAL, steps, id, max) && Fails(d)
    ensures var s := Run(INITIAL, steps, max).value;
      id in s.conns && s.conns[id].trace == [] && s.conns[id].phase in {Dropping, Gone}
  {
    hide Run, Deeds, Script, Stage;
    EveryScript(steps, id, max);
  }

  /** A step of a run is a deed of its session, as it is at that moment. */
  lemma {:induction false} StepIsDeed(s: State, steps: seq<Step>, i: nat, at: State, id: Id, max: nat)
    requires Run(s, steps, max).Some? && i < |steps| && Run(s, steps[..i], max) == Some(at)
    ensures DeedOf(at, steps[i], id).Some? ==> DeedOf(at, steps[i], id).value in Deeds(s, steps, id, max)
    decreases i
  {
    hide Apply, Enabled, DeedOf;
    if i == 0 {
      assert at == s;
    } else {
      assert steps[..i][0] == steps[0] && steps[..i][1..] == steps[1..][..i - 1];
      StepIsDeed(Apply(s, steps[0], max), steps[1..], i - 1, at, id, max);
    }
  }

  /** The record that refuses: at this moment it holds no message, or a nickname that is invalid or in use. */
  predicate Refuses(s: State, record: string) {
    && Whole(record)
    && match Get(Arrived(record)).0
       case Got(m) => m.kind == Nick && (!ValidNickname(m.content) || InUse(s, m.content))
       case _ => true
  }

  /** In terms of the steps: after a welcome or a hello that was not sent, a timeout, or a refusing record, the
      session enqueues nothing in the whole run. */
  lemma {:induction false} NothingAfterFailure(steps: seq<Step>, i: nat, at: State, id: Id, max: nat)
    requires Run(INITIAL, steps, max).Some? && i < |steps| && Run(INITIAL, steps[..i], max) == Some(at)
    requires steps[i] == Step.Welcome(id, false) || steps[i] == Step.Hello(id, false) || steps[i] == Step.GiveUp(id)
      || (steps[i].Authenticate? && steps[i].id == id && Refuses(at, steps[i].record))
    ensures var s := Run(INITIAL, steps, max).value;
      id in s.conns && s.conns[id].trace == [] && s.conns[id].phase in {Dropping, Gone}
  {
    hide Run, Deeds, Get, Arrived, ValidNickname, InUse;
    StepIsDeed(INITIAL, steps, i, at, id, max);
    RefusedIsSilent(steps, id, DeedOf(at, steps[i], id).value, max);
  }

  /** A session that has enqueued anything was admitted and welcomed, passed over some records, had a nickname
      accepted, was greeted, and joined, in that order, and it speaks under that nickname. */
  lemma {:induction false} OnlyGreetedSpeak(steps: seq<Step>, id: Id, max: nat) returns (k: nat)
    requires Run(INITIAL, steps, max).Some?
    requires var s := Run(INITIAL, steps, max).value; id in s.conns && s.conns[id].trace != []
    ensures var ds, s := Deeds(INITIAL, steps, id, max), Run(INITIAL, steps, max).value;
      && 2 <= k < |ds| - 2 && ds[0] == Admitted && ds[1] == Welcomed(true)
      && (forall i :: 2 <= i < k ==> ds[i] == PassedOver)
      && ds[k] == Accepted(s.conns[id].nickname) && ds[k + 1] == Greeted(true) && ds[k + 2] == Joined
  {
    hide Run, Deeds, Script, NameOf;
    EveryScript(steps, id, max);
    var ds := Deeds(INITIAL, steps, id, max);
    var j :| 0 <= j < |ds| && ds[j] == Joined;
    JoinedBefore(ds, j);
    k := j - 2;
    AcceptedBefore(ds, k);
    OneName(ds, k);
  }

  lemma {:induction false} JoinedBefore(ds: seq<Deed>, j: nat)
    requires Script(ds) && j < |ds| && ds[j] == Joined
    ensures j >= 2 && ds[j - 1] == Greeted(true) && ds[j - 2].Accepted?
  {
    assert j > 0 && Follows(ds[j - 1], ds[j]);
    assert j > 1 && Follows(ds[j - 2], ds[j - 1]);
  }

  lemma {:induction false} AcceptedBefore(ds: seq<Deed>, k: nat)
    requires Script(ds) && k < |ds| && Answers(ds[k])
    ensures 2 <= k && ds[0] == Admitted && ds[1] == Welcomed(true) && forall i :: 2 <= i < k ==> ds[i] == PassedOver
    decreases k
  {
    assert k > 0 && Follows(ds[k - 1], ds[k]);
    if ds[k - 1] == PassedOver {
      AcceptedBefore(ds, k - 1);
    } else {
      assert k > 1 && Follows(ds[k - 2], ds[k - 1]);
      AdmittedOnce(ds, k - 2);
    }
  }

  lemma {:induction false} AdmittedOnce(ds: seq<Deed>, i: nat)
    requires Script(ds) && i < |ds|
    ensures ds[i] == Admitted <==> i == 0
  {
    assert i > 0 ==> Follows(ds[i - 1], ds[i]);
  }

  /** Only one nickname is ever accepted. */
  lemma {:induction false} OneName(ds: seq<Deed>, k: nat)
    requires Script(ds) && k < |ds| && ds[k].Accepted?
    ensures NameOf(ds) == ds[k].nickname
    decreases |ds|
  {
    var n := |ds| - 1;
    if k < n {
      if ds[n].Accepted? {
        AcceptedBefore(ds, n);
      }
      assert Script(ds[..n]);
      OneName(ds[..n], k);
    }
  }

  // ----- and what can come next

  /** The step has an outcome: no `%` in what is printed, no read outside of its block; and who is dropped is
      on the list. */
  predicate HasOutcome(s: State, step: Step, id: Id) {
    var n := NicknameIn(s, id);
    match step
    case Authenticate(_, record) => Whole(record) && !Get(Arrived(record)).0.Undefined?
    case Receive(_, record, acks) => Whole(record) && AllDefined(Handle(Reads(Arrived(record)), n, acks, 0).0)
    case Hello(_, _) => '%' !in n
    case Join(_) => BroadcastOf(Log, n, JOINED).Got?
    case Bye(_) => BroadcastOf(Log, n, LEFT).Got?
    case Drop(_) => id in s.clients
    case _ => true
  }

  lemma {:induction false} CanMove(s: State, step: Step, id: Id)
    requires id in s.conns && DeedOf(s, step, id).Some? && !step.Admit?
    ensures Enabled(s, step) <==> s.conns[id].phase == Before(DeedOf(s, step, id).value) && HasOutcome(s, step, id)
  {
    hide BroadcastOf, Handle, Reads, Get, Arrived, ValidNickname, InUse, AllDefined;
  }

  /** After any run, a step of the session that has an outcome can be taken exactly if the script has it next. */
  lemma {:induction false} NextDeed(steps: seq<Step>, id: Id, step: Step, max: nat)
    requires Run(INITIAL, steps, max).Some? && id in Run(INITIAL, steps, max).value.conns && !step.Admit?
    requires DeedOf(Run(INITIAL, steps, max).value, step, id).Some?
    ensures var s, ds := Run(INITIAL, steps, max).value, Deeds(INITIAL, steps, id, max);
      && ds != []
      && (Enabled(s, step) <==>
            Follows(ds[|ds| - 1], DeedOf(s, step, id).value) && HasOutcome(s, step, id))
  {
    hide Run, Deeds, Script, Enabled, DeedOf, HasOutcome, Stage, Before, Follows;
    var s, ds := Run(INITIAL, steps, max).value, Deeds(INITIAL, steps, id, max);
    EveryScript(steps, id, max);
    OwnDeed(s, step, id);
    CanMove(s, step, id);
    FollowsIff(ds[|ds| - 1], DeedOf(s, step, id).value);
  }
}
