/** The Python proxy end of a message pipe as it is written: Router, Connector and error handler with their tables. */
module PyRouting {
  import opened PySession
  import Bytes
  import Wire
  import JsMessaging
  import PyMessaging

  /** What the error handler keeps: the reject function of a pending call, or a callback someone registered. */
  datatype Callback = Reject(call: nat) | Observer(id: nat)

  /** The callbacks with whether they are also called on closing; None once the handler is done. */
  datatype Callbacks = None | Table(entries: map<Callback, bool>)

  /** A message read from the pipe: its bytes, and whether they suit the call that waits for the message, if one does. */
  datatype Arrival = Arrival(data: seq<Bytes.byte>, good: bool)

  /** What a proxy makes of a message by its header. */
  function Classify(a: Arrival): Incoming {
    var header := PyMessaging.Deserialize(a.data);
    if header.Malformed? then Malformed
    else if JsMessaging.ExpectsResponse(header.flags) || !JsMessaging.IsResponse(header.flags) then Other
    else Reply(header.requestId, a.good)
  }

  function Classified(arrivals: seq<Arrival>): seq<Incoming> {
    seq(|arrivals|, k requires 0 <= k < |arrivals| => Classify(arrivals[k]))
  }

  /** What becomes of a message: taken, not taken, or an exception from the header. */
  datatype Dispatch = Dispatched | NotDispatched | Raised

  // ---- request ids ----

  /** The ids from one on, around the end of the range. */
  function Ahead(start: Id, k: nat): Id { (start + k) % TWO64 }

  function Visited(start: Id, k: nat): set<Id> {
    set i | 0 <= i < k :: Ahead(start, i)
  }

  lemma AheadDistinct(start: Id, i: nat, j: nat)
    requires i < j < TWO64
    ensures Ahead(start, i) != Ahead(start, j)
  {
    var q, r := (start + i) / TWO64, (start + j) / TWO64;
    assert (r - q) * TWO64 + Ahead(start, j) - Ahead(start, i) == j - i;
  }

  lemma AheadNext(start: Id, k: nat)
    ensures (Ahead(start, k) + 1) % TWO64 == Ahead(start, k + 1)
  {
  }

  lemma {:induction false} VisitedSize(start: Id, k: nat)
    requires k <= TWO64
    ensures |Visited(start, k)| == k
  {
    if k > 0 {
      VisitedSize(start, k - 1);
      forall i | 0 <= i < k - 1 ensures Ahead(start, i) != Ahead(start, k - 1) { AheadDistinct(start, i, k - 1); }
      assert Visited(start, k) == Visited(start, k - 1) + {Ahead(start, k - 1)};
    }
  }

  lemma SubsetSize<T>(a: set<T>, b: set<T>)
    requires a <= b
    ensures |a| <= |b|
  {
    assert b == a + (b - a);
  }

  /** The ids that can be given out. */
  predicate IsId(id: Id) { 0 < id < TWO64 }

  /** There is a free id exactly while fewer than 2^64 - 1 requests wait: the condition under which the search ends. */
  lemma FreeIdIff(taken: set<Id>)
    requires forall id :: id in taken ==> IsId(id)
    ensures (exists id: Id :: IsId(id) && id !in taken) <==> |taken| < TWO64 - 1
  {
    VisitedSize(1, TWO64 - 1);
    var all := Visited(1, TWO64 - 1);
    forall id: Id ensures id in all <==> IsId(id) {
      if IsId(id) { assert Ahead(1, id - 1) == id; }
    }
    if |taken| < TWO64 - 1 {
      assert !(all <= taken) by { if all <= taken { SubsetSize(all, taken); } }
      var id: Id :| id in all && id !in taken;
    } else {
      assert taken <= all;
      SameSize(taken, all);
    }
  }

  lemma SameSize<T>(a: set<T>, b: set<T>)
    requires a <= b && |a| >= |b|
    ensures a == b
  {
    assert b == a + (b - a);
  }

  /** The reject functions in the table are those of the pending calls, and only they are called on closing. */
  ghost predicate Matches(entries: map<Callback, bool>, calls: seq<Status>) {
    && (forall i: nat :: Reject(i) in entries <==> i < |calls| && calls[i].Pending?)
    && (forall c :: c in entries ==> entries[c] == c.Reject?)
  }

  lemma MatchesMore(entries: map<Callback, bool>, calls: seq<Status>, status: Status)
    requires Matches(entries, calls)
    ensures var c := Reject(|calls|);
            && (!status.Pending? ==> Matches(entries, calls + [status]))
            && Matches(entries[c := true], calls + [Pending])
            && entries[c := true] - {c} == entries
  {
    var c := Reject(|calls|);
    assert c !in entries;
    assert entries[c := true] - {c} == entries;
  }

  lemma InTable(entries: map<Callback, bool>, calls: seq<Status>, c: Callback)
    requires Matches(entries, calls) && c in entries
    ensures entries[c] == c.Reject? && (c.Reject? ==> c.call < |calls| && calls[c.call].Pending?)
  {
  }

  lemma AllRejected(entries: map<Callback, bool>, s: Session, calls: seq<Status>)
    requires Matches(entries, s.calls) && |calls| == |s.calls|
    requires forall i: nat :: i < |calls| ==> calls[i] == if Reject(i) in entries then Rejected else s.calls[i]
    ensures calls == EndAll(s).calls
  {
  }

  lemma NothingPending(s: Session)
    requires forall i :: 0 <= i < |s.calls| ==> !s.calls[i].Pending?
    ensures s.calls == EndAll(s).calls
  {
  }

  lemma NoObservers(cs: set<Callback>)
    ensures cs == {} ==> Observers(cs) == {}
  {
  }

  lemma MatchesLess(entries: map<Callback, bool>, calls: seq<Status>, call: nat, status: Status)
    requires Matches(entries, calls) && call < |calls| && calls[call].Pending? && !status.Pending?
    ensures Reject(call) in entries && Matches(entries - {Reject(call)}, calls[call := status])
  {
  }

  /** The session that a proxy's fields stand for. */
  function Shown(callbacks: Callbacks, cancellable: bool, reading: bool, calls: seq<Status>, responders: map<Id, nat>)
    : Session
  {
    if callbacks.None? then Session(Closed, calls, map[])
    else Session(if cancellable then Listening else if reading then Reading else Deaf, calls, responders)
  }

  lemma CallShown(callbacks: Callbacks, cancellable: bool, reading: bool, calls: seq<Status>, responders: map<Id, nat>,
                  id: Id, sent: bool)
    requires IsId(id) && id !in responders
    ensures var s := Shown(callbacks, cancellable, reading, calls, responders);
            && Enabled(s, Call(id, sent)) && (s.Open() <==> callbacks.Table?)
            && Step(s, Call(id, sent))
               == if callbacks.Table? && sent
                  then Shown(Table(callbacks.entries[Reject(|calls|) := true]), cancellable, reading, calls + [Pending],
                             responders[id := |calls|])
                  else Shown(callbacks, cancellable, reading, calls + [Rejected], responders)
  {
  }

  lemma EndAllPhase(s: Session, phase: Phase)
    ensures EndAll(s.(phase := phase)) == EndAll(s)
  {
  }

  /** A message with a readable header that is not taken ends the session, whatever comes after it. */
  lemma NotTaken(s: Session, incoming: seq<Incoming>, shouldWait: bool)
    requires s.phase.Reading? && incoming != [] && !incoming[0].Malformed?
    requires !(incoming[0].Reply? && incoming[0].id in s.pending && incoming[0].good)
    ensures Deliver(s, incoming, shouldWait) == Step(s, FirstAction(incoming, shouldWait))
  {
  }

  class Proxy {
    var nextRequestId: Id
    var responders: map<Id, nat>         // the waiting requests, each with the call it is for
    var callbacks: Callbacks
    var handleOpen: bool
    var cancellable: bool                // a waiter for messages is registered
    var calls: seq<Status>               // the promises of the calls
    ghost var reading: bool              // the waiter has fired, and messages are being taken
    ghost var told: multiset<nat>        // the observers that were told of an error

    ghost function Abstract(): Session
      reads this
    {
      Shown(callbacks, cancellable, reading, calls, responders)
    }

    ghost predicate IdsValid()
      reads this`nextRequestId, this`responders
    {
      nextRequestId < TWO64 && forall id :: id in responders ==> IsId(id)
    }

    /** While the connection is open, a call is pending exactly when its reject function is in the callback table, and
        then it is in the responder table as well, under one id; afterwards none is pending. */
    ghost predicate TablesValid()
      reads this
    {
      && IdsValid()
      && Sound(Abstract())
      && (callbacks.Table? ==> Matches(callbacks.entries, calls))
    }

    /** Nothing waits for messages while they are being read, or on a closed handle. */
    ghost predicate Valid()
      reads this
    {
      TablesValid() && handleOpen == callbacks.Table? && (cancellable ==> handleOpen && !reading)
    }

    ghost function Registered(): set<nat>
      reads this`callbacks
    {
      if callbacks.None? then {} else Observers(callbacks.entries.Keys)
    }

    /** A router that has been started. */
    constructor ()
      ensures Valid() && Abstract() == START && told == multiset{}
    {
      nextRequestId, responders, callbacks, handleOpen, cancellable := 1, map[], Table(map[]), true, true;
      calls, reading, told := [], false, multiset{};
    }

    /** The next id, around the end of the range if need be, that is neither zero nor waiting. */
    method NextRequestId() returns (id: Id, ghost k: nat)
      requires IdsValid() && |responders| < TWO64 - 1
      modifies this`nextRequestId
      ensures IdsValid() && IsId(id) && id !in responders && nextRequestId == (id + 1) % TWO64
      ensures id == Ahead(old(nextRequestId), k)
      ensures forall i :: 0 <= i < k ==> Ahead(old(nextRequestId), i) == 0 || Ahead(old(nextRequestId), i) in responders
    {
      k := 0;
      ghost var taken := responders.Keys + {0};
      assert |taken| == |responders| + 1;
      id := nextRequestId;
      while id == 0 || id in responders
        modifies {}
        invariant id == Ahead(nextRequestId, k) && k <= |taken|
        invariant forall i :: 0 <= i < k ==> Ahead(nextRequestId, i) in taken
        decreases |taken| - k
      {
        AheadNext(nextRequestId, k);
        VisitedSize(nextRequestId, k + 1);
        SubsetSize(Visited(nextRequestId, k + 1), taken);
        id := (id + 1) % TWO64;
        k := k + 1;
      }
      assert forall i :: 0 <= i < k ==> Ahead(nextRequestId, i) == 0 || Ahead(nextRequestId, i) in responders;
      nextRequestId := (id + 1) % TWO64;
    }

    // ---- the error handler ----

    method AddCallback(callback: Callback, callOnClose: bool)
      modifies this`callbacks
      ensures callbacks == if old(callbacks).Table? then Table(old(callbacks).entries[callback := callOnClose]) else None
    {
      if callbacks.Table? { callbacks := Table(callbacks.entries[callback := callOnClose]); }
    }

    /** `del` raises a KeyError on an absent key; an empty table, like no table, is left alone. */
    method RemoveCallback(callback: Callback)
      requires callbacks.Table? && callbacks.entries != map[] ==> callback in callbacks.entries
      modifies this`callbacks
      ensures callbacks == if old(callbacks).Table? then Table(old(callbacks).entries - {callback}) else None
    {
      if callbacks.Table? && callbacks.entries != map[] { callbacks := Table(callbacks.entries - {callback}); }
    }

    /** A promise is settled once; afterwards nothing changes it. */
    method SettleCall(call: nat, status: Status)
      requires call < |calls|
      modifies this`calls
      ensures calls == if old(calls)[call].Pending? then old(calls)[call := status] else old(calls)
    {
      if calls[call].Pending? { calls := calls[call := status]; }
    }

    /** Calls the registered callbacks, in whatever order the dictionary has; on closing only those that asked for it. */
    method RunCallbacks(closing: bool)
      requires TablesValid()
      modifies this`callbacks, this`calls, this`told
      ensures callbacks == None
      ensures calls == EndAll(old(Abstract())).calls
      ensures told == if closing then old(told) else old(told) + multiset(old(Registered()))
    {
      hide Sound, Matches, Observers, EndAll;
      if callbacks.None? {
        ClosedSettled(Abstract());
        NothingPending(Abstract());
        return;
      }
      var rest := callbacks.entries.Keys;
      ghost var all := rest;
      NoObservers(all - rest);
      while rest != {}
        invariant rest <= all && callbacks == old(callbacks) && |calls| == |old(calls)|
        invariant forall i: nat :: i < |calls| ==>
                    calls[i] == if Reject(i) in all - rest then Rejected else old(calls)[i]
        invariant told == if closing then old(told) else old(told) + multiset(Observers(all - rest))
        decreases |rest|
      {
        var callback :| callback in rest;
        InTable(callbacks.entries, old(calls), callback);
        if callback.Reject? {
          SettleCall(callback.call, Rejected);
          SameObservers(all - rest, callback);
        } else if !closing || callbacks.entries[callback] {
          MoreObservers(all - rest, callback);
          told := told + multiset{callback.id};
        }
        assert all - (rest - {callback}) == all - rest + {callback};
        rest := rest - {callback};
      }
      assert all - {} == all;
      AllRejected(callbacks.entries, old(Abstract()), calls);
      callbacks := None;
    }

    /** Connector._OnError: the handler first, then the pipe is closed. */
    method OnError()
      requires TablesValid() && !cancellable
      modifies this
      ensures Valid() && !handleOpen && Abstract() == EndAll(old(Abstract()))
      ensures told == old(told) + multiset(old(Registered()))
    {
      RunCallbacks(false);
      handleOpen := false;
      EndAllSound(old(Abstract()));
    }

    /** InstanceManager.Close; PassMessagePipe likewise leaves a handle on which no write succeeds. */
    method Close()
      requires Valid()
      modifies this
      ensures Valid() && Abstract() == Step(old(Abstract()), End) && told == old(told)
    {
      RunCallbacks(true);
      cancellable := false;
      handleOpen := false;
      EndAllSound(old(Abstract()));
    }

    method AddOnErrorCallback(id: nat)
      requires Valid()
      modifies this`callbacks
      ensures Valid() && Abstract() == old(Abstract())
      ensures old(callbacks).Table? ==> callbacks == Table(old(callbacks).entries[Observer(id) := false])
    {
      AddCallback(Observer(id), false);
    }

    // ---- calls ----

    method AcceptWithResponder(call: nat, writable: bool) returns (ok: bool, id: Id)
      requires IdsValid() && |responders| < TWO64 - 1
      modifies this`nextRequestId, this`responders
      ensures IdsValid() && IsId(id) && id !in old(responders) && ok == (handleOpen && writable)
      ensures responders == if ok then old(responders)[id := call] else old(responders)
    {
      var requestId, _ := NextRequestId();
      id := requestId;
      if !(handleOpen && writable) { return false, id; }
      responders := responders[requestId := call];
      return true, id;
    }

    /** A call whose message cannot be made: the exception rejects its promise. */
    method RejectedCall() returns (call: nat)
      requires Valid()
      modifies this`calls
      ensures Valid() && call == |old(calls)| && Abstract() == Step(old(Abstract()), Action.Notify(false))
    {
      hide Matches, Sound, Observers, EndAll, Settle;
      if callbacks.Table? { MatchesMore(callbacks.entries, calls, Rejected); }
      StepKeeps(Abstract(), Action.Notify(false));
      call := |calls|;
      calls := calls + [Rejected];
    }

    /** A proxy's method that expects a response; `built` says whether its message can be made, and `writable` whether
        the pipe takes it. */
    method Call(built: bool, writable: bool) returns (call: nat, id: Id)
      requires Valid() && |responders| < TWO64 - 1
      modifies this
      ensures Valid() && call == |old(calls)| && told == old(told)
      ensures built ==> Enabled(old(Abstract()), Action.Call(id, writable))
                        && Abstract() == Step(old(Abstract()), Action.Call(id, writable))
      ensures !built ==> Abstract() == Step(old(Abstract()), Action.Notify(false))
    {
      hide Matches, Sound, Observers, Enabled, Step;
      if built {
        call, id := Request(writable);
      } else {
        id := 0;
        call := RejectedCall();
      }
    }

    method Request(writable: bool) returns (call: nat, id: Id)
      requires Valid() && |responders| < TWO64 - 1
      modifies this
      ensures Valid() && call == |old(calls)| && told == old(told)
      ensures Enabled(old(Abstract()), Action.Call(id, writable))
      ensures Abstract() == Step(old(Abstract()), Action.Call(id, writable))
    {
      hide Matches, Sound, Observers, EndAll, Settle, Step, Enabled, Shown;
      ghost var s := Abstract();
      call := |calls|;
      if callbacks.Table? { MatchesMore(callbacks.entries, calls, Rejected); }
      calls := calls + [Pending];
      assert calls[..call] == old(calls);
      AddCallback(Reject(call), true);
      var ok;
      ok, id := AcceptWithResponder(call, writable);
      CallShown(old(callbacks), cancellable, reading, old(calls), old(responders), id, writable);
      StepKeeps(s, Action.Call(id, writable));
      if ok {
        assert callbacks.Table?;
        return;
      }
      Unsent(call);
      assert callbacks == old(callbacks);
    }

    /** The message of the newest call was not sent. */
    method Unsent(call: nat)
      requires calls != [] && call == |calls| - 1 && calls[call].Pending?
      requires callbacks.Table? ==> Reject(call) in callbacks.entries
      modifies this`calls, this`callbacks
      ensures calls == old(calls)[..call] + [Rejected]
      ensures callbacks == if old(callbacks).Table? then Table(old(callbacks).entries - {Reject(call)}) else None
    {
      RemoveCallback(Reject(call));
      SettleCall(call, Rejected);
      assert calls == old(calls)[..call] + [Rejected];
    }

    /** A proxy's method that expects none. */
    method Notify(built: bool, writable: bool) returns (call: nat)
      requires Valid()
      modifies this`calls
      ensures Valid() && call == |old(calls)| && Abstract() == Step(old(Abstract()), Action.Notify(built && writable))
    {
      hide Matches, Sound, Observers, EndAll, Settle;
      if !built {
        call := RejectedCall();
        return;
      }
      var status := if handleOpen && writable then Resolved else Rejected;
      if callbacks.Table? { MatchesMore(callbacks.entries, calls, status); }
      StepKeeps(Abstract(), Action.Notify(writable));
      call := |calls|;
      calls := calls + [Pending];
      SettleCall(call, status);
      assert calls == old(calls) + [status];
    }

    // ---- messages ----

    /** The responder that a call leaves behind: it settles the call's promise, and then takes the reject function out
        of the table. */
    method HandleResponse(id: Id, good: bool) returns (handled: bool)
      requires Valid() && handleOpen && !cancellable && reading
      modifies this`responders, this`calls, this`callbacks
      ensures handled <==> id in old(responders) && good
      ensures Valid() && Registered() == old(Registered())
      ensures if handled then Abstract() == Step(old(Abstract()), Response(id, good))
              else EndAll(Abstract()) == Step(old(Abstract()), Response(id, good))
    {
      hide Matches, Sound, Observers;
      if id !in responders {
        return false;
      }
      var call := responders[id];
      var status := if good then Resolved else Rejected;
      PendingCall(Abstract(), id);
      MatchesLess(callbacks.entries, calls, call, status);
      StepKeeps(Abstract(), Response(id, good));
      SettleSound(Abstract(), id, status);
      SameObservers(callbacks.entries.Keys - {Reject(call)}, Reject(call));
      assert callbacks.entries.Keys - {Reject(call)} + {Reject(call)} == callbacks.entries.Keys;
      responders := responders - {id};
      SettleCall(call, status);
      RemoveCallback(Reject(call));
      return good;
    }

    /** Router._HandleIncomingMessage: a proxy serves no requests, so that a message which expects a response closes the
        pipe, and it has no receiver for one that is no response. */
    method HandleIncomingMessage(message: Arrival) returns (dispatch: Dispatch)
      requires Valid() && handleOpen && !cancellable && reading
      modifies this`responders, this`calls, this`callbacks, this`handleOpen
      ensures TablesValid() && Registered() == old(Registered())
      ensures dispatch.Raised? <==> Classify(message).Malformed?
      ensures dispatch.Raised? ==> Valid() && Abstract() == old(Abstract())
      ensures dispatch.Dispatched? <==>
                Classify(message).Reply? && Classify(message).id in old(responders) && Classify(message).good
      ensures dispatch.Dispatched? ==> Valid() && handleOpen && Abstract() == Step(old(Abstract()), Act(message))
      ensures dispatch.NotDispatched? ==> EndAll(Abstract()) == Step(old(Abstract()), Act(message))
    {
      hide Matches, Sound, PyMessaging.Deserialize;
      var header := PyMessaging.Deserialize(message.data);
      if header.Malformed? { return Raised; }
      if JsMessaging.ExpectsResponse(header.flags) {
        handleOpen := false;
        return NotDispatched;
      }
      if JsMessaging.IsResponse(header.flags) {
        var handled := HandleResponse(header.requestId, message.good);
        return if handled then Dispatched else NotDispatched;
      }
      return NotDispatched;
    }

    /** Connector._ReadOutstandingMessages: reads on while messages are dispatched; `arrivals` is what there is to read,
        and `shouldWait` whether the read behind it says to wait for more. Nothing catches an exception. */
    method ReadOutstandingMessages(arrivals: seq<Arrival>, shouldWait: bool)
      requires Valid() && handleOpen && !cancellable && reading
      modifies this
      ensures Valid() && Abstract() == Deliver(old(Abstract()), Classified(arrivals), shouldWait)
      ensures told == if handleOpen then old(told) else old(told) + multiset(old(Registered()))
    {
      hide Matches, Sound, Classify, EndAll, Observers, Settle;
      ghost var incoming := Classified(arrivals);
      var k := 0;
      assert incoming[0..] == incoming;
      while k < |arrivals|
        invariant k <= |arrivals| && Valid() && handleOpen && !cancellable && reading && told == old(told)
        invariant Registered() == old(Registered())
        invariant Deliver(Abstract(), incoming[k..], shouldWait) == Deliver(old(Abstract()), incoming, shouldWait)
      {
        assert incoming[k..][0] == incoming[k] && incoming[k..][1..] == incoming[k + 1..];
        ghost var s := Abstract();
        var dispatch := HandleIncomingMessage(arrivals[k]);
        if dispatch.Raised? {
          PhaseSound(Abstract(), Deaf);
          reading := false;
          return;
        }
        if dispatch.NotDispatched? {
          NotTaken(s, incoming[k..], shouldWait);
          OnError();
          return;
        }
        k := k + 1;
      }
      if shouldWait {
        PhaseSound(Abstract(), Listening);
        cancellable, reading := true, false;
      } else {
        OnError();
      }
    }

    /** Connector._OnAsyncWaiterResult; `ok` says that the waiter has not failed. */
    method OnAsyncWaiterResult(ok: bool, arrivals: seq<Arrival>, shouldWait: bool)
      requires Valid() && cancellable
      modifies this
      ensures Valid()
      ensures Abstract() == if ok then Deliver(Step(old(Abstract()), Wake), Classified(arrivals), shouldWait)
                            else Step(old(Abstract()), End)
      ensures told == if handleOpen then old(told) else old(told) + multiset(old(Registered()))
    {
      hide Matches, Sound, Classified, EndAll, Observers;
      PhaseSound(Abstract(), Reading);
      EndAllPhase(Abstract(), Reading);
      cancellable, reading := false, true;
      if ok {
        ReadOutstandingMessages(arrivals, shouldWait);
      } else {
        OnError();
      }
    }
  }

  /** The step that a message whose header can be read makes. */
  function Act(message: Arrival): Action {
    var m := Classify(message);
    if m.Reply? then Response(m.id, m.good) else End
  }

  /** What a proxy makes of a message with a header of either kind: a response to the request whose id it carries, if its two
      lowest flags call it a response that expects none. */
  lemma ReplyClassified(messageType: nat, e: JsMessaging.Envelope, payload: seq<Bytes.byte>, good: bool)
    requires var m := Wire.Message(JsMessaging.HeaderBytes(messageType, e) + payload, []);
             JsMessaging.Sendable(messageType, e, m)
    ensures var c := Classify(Arrival(JsMessaging.HeaderBytes(messageType, e) + payload, good));
            if e.Plain? then c == if e.flags % 4 == 0 then Other else Malformed
            else c == if e.flags % 4 == 2 then Reply(e.requestID, good) else Other
  {
    hide JsMessaging.HeaderBytes, PyMessaging.Deserialize;
    PyMessaging.HeaderRead(messageType, e, payload, []);
    JsMessaging.LowFlags(e.flags);
  }

  /** A call and then the message that answers it, under the id that the request went out with: if it suits, exactly this call
      is resolved, and the others, and their requests, are as they were. */
  method CallAnswered(proxy: Proxy, messageType: nat, flags: nat, payload: seq<Bytes.byte>) returns (call: nat)
    requires proxy.Valid() && proxy.cancellable && |proxy.responders| < TWO64 - 1
    requires messageType < 0x1_0000_0000 && flags < 0x1_0000_0000 && flags % 4 == 2 && |payload| + 24 < 0x1_0000_0000
    modifies proxy
    ensures proxy.Valid() && proxy.handleOpen && proxy.cancellable && proxy.responders == old(proxy.responders)
    ensures call == |old(proxy.calls)| && proxy.calls == old(proxy.calls) + [Resolved]
  {
    hide Sound, Matches, PyMessaging.Deserialize, JsMessaging.HeaderBytes, Classify, Observers;
    var id;
    call, id := proxy.Call(true, true);
    var e := JsMessaging.WithRequestID(flags, id);
    ReplyClassified(messageType, e, payload, true);
    var reply := Arrival(JsMessaging.HeaderBytes(messageType, e) + payload, true);
    assert Classified([reply]) == [Reply(id, true)];
    proxy.OnAsyncWaiterResult(true, [reply], true);
  }

  /** After a call, a message whose header cannot be read: the call is still pending, and nothing will be read that could
      settle it. */
  method StuckCall(unreadable: seq<Bytes.byte>, shouldWait: bool) returns (proxy: Proxy, call: nat)
    requires PyMessaging.Deserialize(unreadable).Malformed?
    ensures proxy.Valid() && proxy.Abstract().phase.Deaf? && call < |proxy.calls| && proxy.calls[call].Pending?
  {
    hide Sound, Matches, PyMessaging.Deserialize;
    proxy := new Proxy();
    var id;
    call, id := proxy.Call(true, true);
    proxy.OnAsyncWaiterResult(true, [Arrival(unreadable, true)], shouldWait);
  }

  ghost function Observers(cs: set<Callback>): set<nat> {
    set c | c in cs && c.Observer? :: c.id
  }

  lemma SameObservers(cs: set<Callback>, c: Callback)
    requires c.Reject?
    ensures Observers(cs + {c}) == Observers(cs)
  {
  }

  lemma MoreObservers(cs: set<Callback>, c: Callback)
    requires c.Observer? && c !in cs
    ensures multiset(Observers(cs + {c})) == multiset(Observers(cs)) + multiset{c.id}
  {
    assert Observers(cs + {c}) == Observers(cs) + {c.id};
    assert c.id !in Observers(cs);
  }
}