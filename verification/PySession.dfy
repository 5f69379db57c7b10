/** Calls over a Python message pipe as a machine: which are pending, which are settled, and by what. */
module PySession {
  const TWO64 := 0x1_0000_0000_0000_0000

  type Id = nat

  datatype Status = Pending | Resolved | Rejected

  /** Listening: a waiter for messages is registered. Reading: it has fired, and messages are being taken. Deaf: reading
      was left by an exception, so that nothing waits for messages any more. */
  datatype Phase = Listening | Reading | Deaf | Closed

  /** Every call ever made, with the pending ones by the id of their request. Once the session is closed nothing is
      pending. */
  datatype Session = Session(phase: Phase, calls: seq<Status>, pending: map<Id, nat>) {
    predicate Open() { !phase.Closed? }
  }

  datatype Action =
    | Call(id: Id, sent: bool)         // a call that expects a response
    | Notify(sent: bool)               // a call that expects none, or one whose message cannot be made
    | Wake                             // there are messages to read
    | Response(id: Id, good: bool)     // good: of the right type, and it deserializes
    | Garbled                          // a message whose header cannot be read
    | Rest                             // no more messages for now
    | End                              // an error on the pipe, or closing it

  const START := Session(Listening, [], map[])

  /** A request gets an id that is neither zero nor in use; messages are taken only while reading. */
  predicate Enabled(s: Session, a: Action) {
    && (a.Call? ==> 0 < a.id < TWO64 && a.id !in s.pending)
    && (a.Wake? ==> s.phase.Listening?)
    && (a.Response? || a.Garbled? || a.Rest? ==> s.phase.Reading?)
  }

  function EndAll(s: Session): Session {
    Session(Closed,
            seq(|s.calls|, i requires 0 <= i < |s.calls| => if s.calls[i].Pending? then Rejected else s.calls[i]),
            map[])
  }

  function Settle(s: Session, id: Id, status: Status): Session
    requires id in s.pending && s.pending[id] < |s.calls|
  {
    s.(calls := s.calls[s.pending[id] := status], pending := s.pending - {id})
  }

  /** A response that no request waits for, or that is no good, ends the session. */
  function Step(s: Session, a: Action): Session
    requires Enabled(s, a)
  {
    match a
    case Call(id, sent) =>
      if s.Open() && sent then s.(calls := s.calls + [Pending], pending := s.pending[id := |s.calls|])
      else s.(calls := s.calls + [Rejected])
    case Notify(sent) => s.(calls := s.calls + [if s.Open() && sent then Resolved else Rejected])
    case Wake => s.(phase := Reading)
    case Garbled => s.(phase := Deaf)
    case Rest => s.(phase := Listening)
    case Response(id, good) =>
      if id !in s.pending || |s.calls| <= s.pending[id] then EndAll(s)
      else if good then Settle(s, id, Resolved)
      else EndAll(Settle(s, id, Rejected))
    case End => EndAll(s)
  }

  /** Each pending call waits under exactly one id, and nothing waits that is not pending. */
  ghost predicate Sound(s: Session) {
    && (forall id :: id in s.pending ==> 0 < id < TWO64 && s.pending[id] < |s.calls| && s.calls[s.pending[id]].Pending?)
    && (forall a, b :: a in s.pending && b in s.pending && s.pending[a] == s.pending[b] ==> a == b)
    && (forall i :: 0 <= i < |s.calls| && s.calls[i].Pending? ==> Waits(s, i))
    && (!s.Open() ==> s.pending == map[])
  }

  ghost predicate Waits(s: Session, i: nat) {
    exists id :: id in s.pending && s.pending[id] == i
  }

  lemma EndAllSound(s: Session)
    ensures Sound(EndAll(s)) && forall i :: 0 <= i < |s.calls| ==> !EndAll(s).calls[i].Pending?
  {
  }

  lemma SettleSound(s: Session, id: Id, status: Status)
    requires Sound(s) && id in s.pending && !status.Pending?
    ensures Sound(Settle(s, id, status))
  {
    var t := Settle(s, id, status);
    forall i | 0 <= i < |t.calls| && t.calls[i].Pending? ensures Waits(t, i) {
      assert Waits(s, i);
      var k :| k in s.pending && s.pending[k] == i;
      assert k in t.pending;
    }
  }

  lemma CallSound(s: Session, id: Id)
    requires Sound(s) && s.Open() && 0 < id < TWO64 && id !in s.pending
    ensures Sound(Step(s, Call(id, true)))
  {
    var t := Step(s, Call(id, true));
    forall i | 0 <= i < |t.calls| && t.calls[i].Pending? ensures Waits(t, i) {
      if i < |s.calls| {
        assert Waits(s, i);
        var k :| k in s.pending && s.pending[k] == i;
        assert k in t.pending && t.pending[k] == i;
      } else {
        assert id in t.pending && t.pending[id] == i;
      }
    }
  }

  lemma GrowSound(s: Session, status: Status)
    requires Sound(s) && !status.Pending?
    ensures Sound(s.(calls := s.calls + [status]))
  {
    var t := s.(calls := s.calls + [status]);
    forall i | 0 <= i < |t.calls| && t.calls[i].Pending? ensures Waits(t, i) {
      assert Waits(s, i);
      var k :| k in s.pending && s.pending[k] == i;
      assert k in t.pending && t.pending[k] == i;
    }
  }

  /** A step keeps the tables sound, forgets no call, and never changes a call that is settled. */
  lemma StepKeeps(s: Session, a: Action)
    requires Sound(s) && Enabled(s, a)
    ensures Sound(Step(s, a)) && |s.calls| <= |Step(s, a).calls|
    ensures forall i :: 0 <= i < |s.calls| && !s.calls[i].Pending? ==> Step(s, a).calls[i] == s.calls[i]
    ensures !s.Open() ==> !Step(s, a).Open()
  {
    match a
    case Call(id, sent) => if s.Open() && sent { CallSound(s, id); } else { GrowSound(s, Rejected); }
    case Notify(sent) => GrowSound(s, if s.Open() && sent then Resolved else Rejected);
    case Response(id, good) =>
      if id in s.pending {
        SettleSound(s, id, if good then Resolved else Rejected);
        if !good { EndAllSound(Settle(s, id, Rejected)); }
      } else {
        EndAllSound(s);
      }
    case End => EndAllSound(s);
    case _ => PhaseSound(s, Step(s, a).phase);
  }

  lemma PhaseSound(s: Session, phase: Phase)
    requires Sound(s) && s.Open() && !phase.Closed?
    ensures Sound(s.(phase := phase))
  {
    var t := s.(phase := phase);
    assert forall i :: 0 <= i < |s.calls| && s.calls[i].Pending? ==> Waits(s, i);
    forall i | 0 <= i < |t.calls| && t.calls[i].Pending? ensures Waits(t, i) {
      var k :| k in s.pending && s.pending[k] == i;
      assert k in t.pending && t.pending[k] == i;
    }
  }

  /** A call that expects a response is resolved by nothing but a good response that carries its own id. */
  lemma OnlyOwnResponseResolves(s: Session, a: Action, i: nat)
    requires Sound(s) && Enabled(s, a) && i < |s.calls| && s.calls[i].Pending?
    ensures |s.calls| <= |Step(s, a).calls|
    ensures Step(s, a).calls[i].Resolved? <==> a.Response? && a.good && a.id in s.pending && s.pending[a.id] == i
  {
    if a.Response? && a.id in s.pending { assert s.pending[a.id] < |s.calls|; }
  }

  /** The actions lead from s to t. */
  ghost predicate Runs(s: Session, actions: seq<Action>, t: Session) {
    if actions == [] then t == s
    else
      var before, last := actions[..|actions| - 1], actions[|actions| - 1];
      exists r: Session :: Runs(s, before, r) && Enabled(r, last) && Step(r, last) == t
  }

  function Calls(actions: seq<Action>): nat {
    if actions == [] then 0
    else
      var last := actions[|actions| - 1];
      Calls(actions[..|actions| - 1]) + (if last.Call? || last.Notify? then 1 else 0)
  }

  /** Over every run: each call made has one status, the pending ones are exactly those that wait under an id, each
      under one, and once the session has ended none is pending. */
  lemma {:induction false} RunSound(actions: seq<Action>, s: Session)
    requires Runs(START, actions, s)
    ensures Sound(s) && |s.calls| == Calls(actions)
    ensures End in actions ==> !s.Open()
    ensures !s.Open() ==> forall i :: 0 <= i < |s.calls| ==> !s.calls[i].Pending?
  {
    hide Sound;
    if actions == [] {
      StartSound();
    } else {
      var before, a := actions[..|actions| - 1], actions[|actions| - 1];
      var r: Session :| Runs(START, before, r) && Enabled(r, a) && Step(r, a) == s;
      RunSound(before, r);
      StepKeeps(r, a);
      assert actions == before + [a];
    }
    if !s.Open() { ClosedSettled(s); }
  }

  lemma StartSound()
    ensures Sound(START)
  {
  }

  lemma ClosedSettled(s: Session)
    requires Sound(s) && !s.Open()
    ensures forall i :: 0 <= i < |s.calls| ==> !s.calls[i].Pending?
  {
    assert forall i :: 0 <= i < |s.calls| && s.calls[i].Pending? ==> Waits(s, i);
  }

  // ---- which calls are settled, and how ----

  /** What the actions make of the session as a whole: over, or going on with these requests waiting. */
  datatype Standing = Over | Going(waiting: set<Id>)

  function StandingAfter(actions: seq<Action>): Standing {
    if actions == [] then Going({})
    else
      var before, last := StandingAfter(actions[..|actions| - 1]), actions[|actions| - 1];
      if before.Over? then Over
      else if last.Call? && last.sent then Going(before.waiting + {last.id})
      else if last.Response? then
        if last.good && last.id in before.waiting then Going(before.waiting - {last.id}) else Over
      else if last.End? then Over
      else before
  }

  /** A session is over after an end, or a response that no request waits for or that is no good, and not otherwise. */
  lemma {:induction false} StandingIs(actions: seq<Action>, s: Session)
    requires Runs(START, actions, s)
    ensures StandingAfter(actions) == if s.Open() then Going(s.pending.Keys) else Over
  {
    hide Sound;
    if actions != [] {
      var before, a := actions[..|actions| - 1], actions[|actions| - 1];
      var r: Session :| Runs(START, before, r) && Enabled(r, a) && Step(r, a) == s;
      StandingIs(before, r);
      RunSound(before, r);
      if a.Response? && a.id in r.pending { PendingCall(r, a.id); }
      StepKeeps(r, a);
    }
  }

  /** The k-th action makes a call, or sends a message. */
  predicate Makes(actions: seq<Action>, k: nat)
    requires k < |actions|
  {
    actions[k].Call? || actions[k].Notify?
  }

  /** The message of the k-th action went out. */
  predicate WentOut(actions: seq<Action>, k: nat)
    requires k < |actions| && Makes(actions, k)
  {
    actions[k].sent && StandingAfter(actions[..k]).Going?
  }

  /** The j-th action is the first response that carries the id of the call made by the k-th. */
  predicate FirstAnswer(actions: seq<Action>, k: nat, j: nat)
    requires k < |actions| && actions[k].Call?
  {
    k < j < |actions| && AnswersCall(actions, k, j) && forall i :: k < i < j ==> !AnswersCall(actions, k, i)
  }

  predicate AnswersCall(actions: seq<Action>, k: nat, i: nat)
    requires k < |actions| && actions[k].Call? && i < |actions|
  {
    actions[i].Response? && actions[i].id == actions[k].id
  }

  /** The call was answered, by a response that suits it, while the session was going on. */
  ghost predicate Answered(actions: seq<Action>, k: nat)
    requires k < |actions| && actions[k].Call?
  {
    exists j: nat :: FirstAnswer(actions, k, j) && actions[j].good && StandingAfter(actions[..j]).Going?
  }

  predicate Unanswered(actions: seq<Action>, k: nat)
    requires k < |actions| && actions[k].Call?
  {
    forall i :: k < i < |actions| ==> !AnswersCall(actions, k, i)
  }

  /** How the actions alone settle what the k-th of them makes. */
  ghost predicate SettledBy(actions: seq<Action>, k: nat, status: Status)
    requires k < |actions| && Makes(actions, k)
  {
    if !WentOut(actions, k) then status.Rejected?
    else if actions[k].Notify? then status.Resolved?
    else
      && (status.Resolved? <==> Answered(actions, k))
      && (status.Pending? <==> StandingAfter(actions).Going? && Unanswered(actions, k))
  }

  /** Over every run: a message that expects no response is resolved if it went out while the session was going on, and
      otherwise rejected; so is a call whose request did not go out. A call whose request did is resolved if and only if a
      response that suits it came under its own id before the session was over, pending if and only if the session is going
      on without any, and otherwise rejected. */
  lemma {:induction false} RunSettles(actions: seq<Action>, s: Session, k: nat)
    requires Runs(START, actions, s) && k < |actions| && Makes(actions, k)
    ensures var call := Calls(actions[..k]);
            && call < |s.calls| && SettledBy(actions, k, s.calls[call])
            && (s.calls[call].Pending? ==> actions[k].Call? && actions[k].id in s.pending && s.pending[actions[k].id] == call)
    decreases |actions|
  {
    hide Sound, SettledBy, Calls;
    var n := |actions| - 1;
    var before, a := actions[..n], actions[n];
    var r: Session :| Runs(START, before, r) && Enabled(r, a) && Step(r, a) == s;
    RunSound(before, r);
    RunSound(actions, s);
    StandingIs(before, r);
    StandingIs(actions, s);
    assert actions == before + [a];
    if k == n {
      MadeNow(before, a, r);
    } else {
      assert before[..k] == actions[..k];
      RunSettles(before, r, k);
      var call := Calls(actions[..k]);
      StepKeeps(r, a);
      if r.calls[call].Pending? { PendingStep(r, a, actions[k].id, call); }
      SettledLater(before, a, k, r.calls[call], s.calls[call]);
    }
  }

  lemma MadeNow(before: seq<Action>, a: Action, r: Session)
    requires Sound(r) && Enabled(r, a) && (a.Call? || a.Notify?) && |r.calls| == Calls(before)
    requires StandingAfter(before) == if r.Open() then Going(r.pending.Keys) else Over
    requires StandingAfter(before + [a]) == if Step(r, a).Open() then Going(Step(r, a).pending.Keys) else Over
    ensures var actions, call := before + [a], |r.calls|;
            && actions[..|before|] == before && call < |Step(r, a).calls|
            && SettledBy(actions, |before|, Step(r, a).calls[call])
            && (Step(r, a).calls[call].Pending? ==>
                  a.Call? && a.id in Step(r, a).pending && Step(r, a).pending[a.id] == call)
  {
    hide Sound, StandingAfter, Calls;
    var actions := before + [a];
    assert actions[..|before|] == before;
    if a.Call? { assert Unanswered(actions, |before|) && !Answered(actions, |before|); }
  }

  /** A step leaves a pending call pending, unless a response under its id settles it or the session ends. */
  lemma PendingStep(r: Session, a: Action, id: Id, call: nat)
    requires Sound(r) && Enabled(r, a) && id in r.pending && r.pending[id] == call
    requires call < |r.calls| && r.calls[call].Pending?
    ensures var s := Step(r, a);
            && call < |s.calls|
            && s.calls[call] == (if a.Response? && a.id == id && a.good then Resolved
                                 else if s.Open() then Pending else Rejected)
            && (s.calls[call].Pending? ==> id in s.pending && s.pending[id] == call && !(a.Response? && a.id == id))
  {
  }

  /** One more action changes how a call is settled only if it answers the call or ends the session. */
  lemma SettledLater(before: seq<Action>, a: Action, k: nat, was: Status, now: Status)
    requires k < |before| && Makes(before, k) && SettledBy(before, k, was)
    requires !was.Pending? ==> now == was
    requires was.Pending? ==> before[k].Call?
    requires was.Pending? ==> now == (if a.Response? && a.id == before[k].id && a.good then Resolved
                                      else if StandingAfter(before + [a]).Going? then Pending else Rejected)
    requires now.Pending? ==> !(a.Response? && a.id == before[k].id)
    requires StandingAfter(before).Over? ==> StandingAfter(before + [a]).Over?
    ensures SettledBy(before + [a], k, now)
  {
    hide StandingAfter;
    var actions, n := before + [a], |before|;
    assert forall i :: 0 <= i < n ==> actions[i] == before[i];
    assert forall i :: 0 <= i <= n ==> actions[..i] == before[..i];
    assert before[..n] == before;
    if WentOut(before, k) && before[k].Call? {
      assert forall i :: k < i < n ==> (AnswersCall(actions, k, i) <==> AnswersCall(before, k, i));
      forall j: nat | k < j < n ensures FirstAnswer(actions, k, j) <==> FirstAnswer(before, k, j) {}
      assert FirstAnswer(actions, k, n) <==> Unanswered(before, k) && a.Response? && a.id == before[k].id;
      if Answered(before, k) {
        var j: nat :| FirstAnswer(before, k, j) && before[j].good && StandingAfter(before[..j]).Going?;
        assert FirstAnswer(actions, k, j) && actions[j].good && StandingAfter(actions[..j]).Going?;
      }
    }
  }

  /** A session that has gone deaf stays so until it is ended, and nothing that was pending is settled before that. */
  lemma {:induction false} DeafStays(s: Session, actions: seq<Action>, t: Session)
    requires Sound(s) && s.phase.Deaf? && Runs(s, actions, t) && End !in actions
    ensures Sound(t) && t.phase.Deaf? && |s.calls| <= |t.calls|
    ensures forall i :: 0 <= i < |s.calls| ==> t.calls[i] == s.calls[i]
    decreases |actions|
  {
    hide Sound;
    if actions != [] {
      var before, a := actions[..|actions| - 1], actions[|actions| - 1];
      var r: Session :| Runs(s, before, r) && Enabled(r, a) && Step(r, a) == t;
      DeafStays(s, before, r);
      assert a in actions;
      StepKeeps(r, a);
    }
  }

  // ---- several messages at once ----

  /** A message that arrives at a proxy: a response; one with another header, which a proxy does not serve; or one whose
      header cannot be read. */
  datatype Incoming = Reply(id: Id, good: bool) | Other | Malformed

  /** Messages are taken in order while each is dispatched. The first that is not ends the session, as does a failed read
      behind the last; but a header that cannot be read raises an exception that leaves everything as it is. */
  function Deliver(s: Session, incoming: seq<Incoming>, shouldWait: bool): Session
    requires s.phase.Reading? || s.phase.Closed?
    decreases |incoming|
  {
    if s.phase.Closed? then s
    else if incoming == [] then Step(s, if shouldWait then Rest else End)
    else
      match incoming[0]
      case Malformed => Step(s, Garbled)
      case Other => Step(s, End)
      case Reply(id, good) => Deliver(Step(s, Response(id, good)), incoming[1..], shouldWait)
  }

  /** Delivering messages is a run of the machine. */
  lemma {:induction false} DeliverRuns(start: Session, actions: seq<Action>, s: Session, incoming: seq<Incoming>,
                                       shouldWait: bool)
    returns (more: seq<Action>)
    requires Runs(start, actions, s) && (s.phase.Reading? || s.phase.Closed?)
    ensures Runs(start, more, Deliver(s, incoming, shouldWait))
    decreases |incoming|
  {
    if s.phase.Closed? {
      more := actions;
    } else {
      var a := FirstAction(incoming, shouldWait);
      RunOn(start, actions, s, a);
      more := actions + [a];
      if a.Response? { more := DeliverRuns(start, more, Step(s, a), incoming[1..], shouldWait); }
    }
  }

  function FirstAction(incoming: seq<Incoming>, shouldWait: bool): Action {
    if incoming == [] then if shouldWait then Rest else End
    else
      match incoming[0]
      case Malformed => Garbled
      case Other => End
      case Reply(id, good) => Response(id, good)
  }

  lemma RunOn(start: Session, actions: seq<Action>, s: Session, a: Action)
    requires Runs(start, actions, s) && Enabled(s, a)
    ensures Runs(start, actions + [a], Step(s, a))
  {
    assert (actions + [a])[..|actions|] == actions;
  }

  /** The k-th message is a good response to a request that waits, and that no message before it has answered. */
  predicate Dispatched(waiting: set<Id>, incoming: seq<Incoming>, k: nat)
    requires k < |incoming|
  {
    && incoming[k].Reply? && incoming[k].good && incoming[k].id in waiting
    && forall j :: 0 <= j < k && incoming[j].Reply? ==> incoming[j].id != incoming[k].id
  }

  /** Every message before the k-th is dispatched. */
  predicate AllDispatched(waiting: set<Id>, incoming: seq<Incoming>, k: nat)
    requires k <= |incoming|
  {
    forall j :: 0 <= j < k ==> Dispatched(waiting, incoming, j)
  }

  /** The first message that is not dispatched has a header that cannot be read. */
  predicate GarbledFirst(waiting: set<Id>, incoming: seq<Incoming>) {
    exists k :: 0 <= k < |incoming| && incoming[k].Malformed? && AllDispatched(waiting, incoming, k)
  }

  /** How reading ends: deaf exactly if the first message that is not dispatched cannot be read, waiting again exactly if
      all are dispatched and the pipe says to wait, and otherwise closed. */
  lemma {:induction false} ReadingEnds(s: Session, incoming: seq<Incoming>, shouldWait: bool)
    requires Sound(s) && s.phase.Reading?
    ensures var t := Deliver(s, incoming, shouldWait);
            && (t.phase.Deaf? <==> GarbledFirst(s.pending.Keys, incoming))
            && (t.phase.Listening? <==> AllDispatched(s.pending.Keys, incoming, |incoming|) && shouldWait)
            && !t.phase.Reading?
    decreases |incoming|
  {
    hide Sound, AllDispatched, GarbledFirst;
    var waiting := s.pending.Keys;
    if incoming == [] {
      NothingIncoming(waiting);
    } else {
      FirstMessage(waiting, incoming);
      if incoming[0].Reply? {
        var a := Response(incoming[0].id, incoming[0].good);
        StepKeeps(s, a);
        if incoming[0].good && incoming[0].id in waiting {
          PendingCall(s, incoming[0].id);
          assert Step(s, a).pending.Keys == waiting - {incoming[0].id};
          ReadingEnds(Step(s, a), incoming[1..], shouldWait);
        }
      }
    }
  }

  lemma PendingCall(s: Session, id: Id)
    requires Sound(s) && id in s.pending
    ensures s.pending[id] < |s.calls| && s.calls[s.pending[id]].Pending?
  {
  }

  lemma NothingIncoming(waiting: set<Id>)
    ensures AllDispatched(waiting, [], 0) && !GarbledFirst(waiting, [])
  {
  }

  /** What follows the first message is dispatched among the requests that the first has left waiting. */
  lemma FirstMessage(waiting: set<Id>, incoming: seq<Incoming>)
    requires incoming != []
    ensures var first, rest := incoming[0], incoming[1..];
            if first.Reply? && first.good && first.id in waiting then
              && (AllDispatched(waiting, incoming, |incoming|) <==> AllDispatched(waiting - {first.id}, rest, |rest|))
              && (GarbledFirst(waiting, incoming) <==> GarbledFirst(waiting - {first.id}, rest))
            else
              && !AllDispatched(waiting, incoming, |incoming|)
              && (GarbledFirst(waiting, incoming) <==> first.Malformed?)
  {
    var first, rest := incoming[0], incoming[1..];
    if first.Reply? && first.good && first.id in waiting {
      forall k | 0 <= k <= |rest|
        ensures AllDispatched(waiting, incoming, k + 1) <==> AllDispatched(waiting - {first.id}, rest, k)
      {
        RestDispatched(waiting, incoming, k);
      }
      if GarbledFirst(waiting, incoming) {
        var k :| 0 <= k < |incoming| && incoming[k].Malformed? && AllDispatched(waiting, incoming, k);
        assert rest[k - 1].Malformed? && AllDispatched(waiting - {first.id}, rest, k - 1);
      }
      if GarbledFirst(waiting - {first.id}, rest) {
        var k :| 0 <= k < |rest| && rest[k].Malformed? && AllDispatched(waiting - {first.id}, rest, k);
        assert incoming[k + 1].Malformed? && AllDispatched(waiting, incoming, k + 1);
      }
    } else {
      assert !Dispatched(waiting, incoming, 0);
      if first.Malformed? { assert AllDispatched(waiting, incoming, 0); }
    }
  }

  lemma RestDispatched(waiting: set<Id>, incoming: seq<Incoming>, n: nat)
    requires incoming != [] && n < |incoming| && Dispatched(waiting, incoming, 0)
    ensures AllDispatched(waiting, incoming, n + 1)
       <==> AllDispatched(waiting - {incoming[0].id}, incoming[1..], n)
  {
    var first, rest := incoming[0], incoming[1..];
    forall k | 0 <= k < n
      ensures Dispatched(waiting, incoming, k + 1) <==> Dispatched(waiting - {first.id}, rest, k)
    {
      assert forall j :: 0 <= j < |rest| ==> rest[j] == incoming[j + 1];
      if Dispatched(waiting - {first.id}, rest, k) {
        forall j | 0 <= j < k + 1 && incoming[j].Reply? ensures incoming[j].id != incoming[k + 1].id {
          if j > 0 { assert rest[j - 1].id != rest[k].id; }
        }
      }
      if Dispatched(waiting, incoming, k + 1) {
        forall j | 0 <= j < k && rest[j].Reply? ensures rest[j].id != rest[k].id {
          assert incoming[j + 1].id != incoming[k + 1].id;
        }
      }
    }
    if AllDispatched(waiting, incoming, n + 1) {
      forall k | 0 <= k < n ensures Dispatched(waiting - {first.id}, rest, k) {
        assert Dispatched(waiting, incoming, k + 1);
      }
    }
    if AllDispatched(waiting - {first.id}, rest, n) {
      forall k | 0 <= k < n + 1 ensures Dispatched(waiting, incoming, k) {
        if k > 0 { assert Dispatched(waiting - {first.id}, rest, k - 1); }
      }
    }
  }
}
