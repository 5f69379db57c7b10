/** Python promises settled with plain values, and Promise.All. */
module PyPromise {
  import opened Options

  type Value = int

  datatype Outcome<T> = Pending | Fulfilled(result: T) | Rejected(reason: Value)

  /** A callback that has been run, with what it was given. */
  datatype Run<T> = OnFulfilled(callback: nat, result: T) | OnRejected(callback: nat, reason: Value)

  /** The callbacks of one call of Then. */
  datatype Registration = Registration(onFulfilled: nat, onRejected: nat)

  /** What settling runs: one callback of each registration, in the order of registration. */
  function Deliveries<T>(rs: seq<Registration>, o: Outcome<T>): (runs: seq<Run<T>>)
    ensures |runs| == if o.Pending? then 0 else |rs|
  {
    match o
    case Pending => []
    case Fulfilled(v) => seq(|rs|, i requires 0 <= i < |rs| => OnFulfilled(rs[i].onFulfilled, v))
    case Rejected(reason) => seq(|rs|, i requires 0 <= i < |rs| => OnRejected(rs[i].onRejected, reason))
  }

  class Promise<T> {
    var outcome: Outcome<T>              // the state and the result
    var onFulfilled: seq<nat>
    var onRejected: seq<nat>
    ghost var registered: seq<Registration>
    ghost var ran: seq<Run<T>>

    /** While the promise is pending its lists hold what was registered; every callback that was to run has run once. */
    ghost predicate Valid()
      reads this
    {
      && ran == Deliveries(registered, outcome)
      && (outcome.Pending? ==>
            && |onFulfilled| == |onRejected| == |registered|
            && forall i :: 0 <= i < |registered| ==> registered[i] == Registration(onFulfilled[i], onRejected[i]))
    }

    constructor ()
      ensures Valid() && outcome.Pending? && registered == []
    {
      outcome, onFulfilled, onRejected, registered, ran := Pending, [], [], [], [];
    }

    /** The effect of the first settlement is the only one. */
    method Resolve(value: T)
      requires Valid()
      modifies this
      ensures Valid() && registered == old(registered)
      ensures outcome == if old(outcome).Pending? then Fulfilled(value) else old(outcome)
      ensures ran == if old(outcome).Pending? then Deliveries(registered, Fulfilled(value)) else old(ran)
    {
      if !outcome.Pending? { return; }
      outcome := Fulfilled(value);
      for i := 0 to |onFulfilled|
        invariant outcome == Fulfilled(value) && onFulfilled == old(onFulfilled) && registered == old(registered)
        invariant ran == Deliveries(registered[..i], Fulfilled(value))
      {
        assert Deliveries(registered[..i + 1], outcome) == Deliveries(registered[..i], outcome) + [OnFulfilled(onFulfilled[i], value)];
        ran := ran + [OnFulfilled(onFulfilled[i], value)];
      }
      assert registered[..|registered|] == registered;
      onFulfilled, onRejected := [], [];
    }

    method Reject(reason: Value)
      requires Valid()
      modifies this
      ensures Valid() && registered == old(registered)
      ensures outcome == if old(outcome).Pending? then Rejected(reason) else old(outcome)
      ensures ran == if old(outcome).Pending? then Deliveries(registered, Outcome<T>.Rejected(reason)) else old(ran)
    {
      if !outcome.Pending? { return; }
      outcome := Rejected(reason);
      for i := 0 to |onRejected|
        invariant outcome == Rejected(reason) && onRejected == old(onRejected) && registered == old(registered)
        invariant ran == Deliveries(registered[..i], outcome)
      {
        assert Deliveries(registered[..i + 1], outcome) == Deliveries(registered[..i], outcome) + [OnRejected(onRejected[i], reason)];
        ran := ran + [OnRejected(onRejected[i], reason)];
      }
      assert registered[..|registered|] == registered;
      onFulfilled, onRejected := [], [];
    }

    /** Registers callbacks, or runs the right one at once. */
    method Then(fulfilled: nat, rejected: nat)
      requires Valid()
      modifies this
      ensures Valid() && outcome == old(outcome) && registered == old(registered) + [Registration(fulfilled, rejected)]
    {
      registered := registered + [Registration(fulfilled, rejected)];
      if outcome.Pending? {
        onFulfilled := onFulfilled + [fulfilled];
        onRejected := onRejected + [rejected];
      }
      if outcome.Fulfilled? {
        ran := ran + [OnFulfilled(fulfilled, outcome.result)];
      }
      if outcome.Rejected? {
        ran := ran + [OnRejected(rejected, outcome.reason)];
      }
      assert ran == Deliveries(registered, outcome);
    }
  }

  // ---- uses of a promise ----

  datatype Use<T> = UseThen(registration: Registration) | UseResolve(value: T) | UseReject(reason: Value)

  function Registrations<T>(uses: seq<Use<T>>): seq<Registration> {
    if uses == [] then []
    else
      var last := uses[|uses| - 1];
      Registrations(uses[..|uses| - 1]) + (if last.UseThen? then [last.registration] else [])
  }

  /** The k-th use is the first that settles the promise. */
  predicate FirstSettles<T>(uses: seq<Use<T>>, k: nat)
    requires k < |uses|
  {
    !uses[k].UseThen? && forall j :: 0 <= j < k ==> uses[j].UseThen?
  }

  function SettledBy<T>(use: Use<T>): Outcome<T> {
    match use
    case UseThen(_) => Pending
    case UseResolve(value) => Fulfilled(value)
    case UseReject(reason) => Rejected(reason)
  }

  /** However a promise is used, the first settlement is its outcome, and then it runs one callback for each registration,
      before or after the settlement, in the order of registration and with that outcome. */
  method RunPromise<T>(uses: seq<Use<T>>) returns (promise: Promise<T>)
    ensures fresh(promise) && promise.Valid()
    ensures promise.outcome.Pending? <==> forall k :: 0 <= k < |uses| ==> uses[k].UseThen?
    ensures forall k :: 0 <= k < |uses| && FirstSettles(uses, k) ==> promise.outcome == SettledBy(uses[k])
    ensures var rs := Registrations(uses);
            && |promise.ran| == (if promise.outcome.Pending? then 0 else |rs|)
            && forall i :: 0 <= i < |promise.ran| ==>
                 promise.ran[i] == if promise.outcome.Fulfilled?
                                   then OnFulfilled(rs[i].onFulfilled, promise.outcome.result)
                                   else OnRejected(rs[i].onRejected, promise.outcome.reason)
  {
    promise := new Promise<T>();
    for i := 0 to |uses|
      invariant fresh(promise) && promise.Valid() && promise.registered == Registrations(uses[..i])
      invariant promise.outcome.Pending? <==> forall k :: 0 <= k < i ==> uses[k].UseThen?
      invariant forall k :: 0 <= k < i && FirstSettles(uses, k) ==> promise.outcome == SettledBy(uses[k])
    {
      assert uses[..i + 1][..i] == uses[..i];
      match uses[i] {
        case UseThen(r) => promise.Then(r.onFulfilled, r.onRejected);
        case UseResolve(value) => promise.Resolve(value);
        case UseReject(reason) => promise.Reject(reason);
      }
    }
    assert uses[..|uses|] == uses;
  }

  // ---- Promise.All ----

  /** One of the promises settles. */
  datatype Event = Fulfils(index: nat, result: Value) | Rejects(index: nat, reason: Value)

  function FirstRejection(es: seq<Event>): Option<Value> {
    if es == [] then None
    else
      var before, last := FirstRejection(es[..|es| - 1]), es[|es| - 1];
      if before.Some? then before else if last.Rejects? then Some(last.reason) else None
  }

  function ResultAt(es: seq<Event>, i: nat): Option<Value> {
    if es == [] then None
    else
      var last := es[|es| - 1];
      if last.Fulfils? && last.index == i then Some(last.result) else ResultAt(es[..|es| - 1], i)
  }

  /** Each promise settles at most once. */
  predicate Once(n: nat, es: seq<Event>) {
    && (forall i :: 0 <= i < |es| ==> es[i].index < n)
    && (forall i, j :: 0 <= i < j < |es| ==> es[i].index != es[j].index)
  }

  /** The results so far, in the order of the arguments. */
  function Results(n: nat, es: seq<Event>): (os: seq<Option<Value>>)
    ensures |os| == n
  {
    seq(n, i requires 0 <= i < n => ResultAt(es, i))
  }

  predicate Complete(os: seq<Option<Value>>) {
    forall i :: 0 <= i < |os| ==> os[i].Some?
  }

  function Values(os: seq<Option<Value>>): (vs: seq<Value>)
    ensures |vs| == |os|
  {
    seq(|os|, i requires 0 <= i < |os| => if os[i].Some? then os[i].value else 0)
  }

  /** What the promise for all of n promises must be: rejected with the first rejection, or fulfilled, once all are, with
      their results in the order of the arguments. */
  function AllOutcome(n: nat, es: seq<Event>): Outcome<seq<Value>> {
    if FirstRejection(es).Some? then Rejected(FirstRejection(es).value)
    else if Complete(Results(n, es)) then Fulfilled(Values(Results(n, es)))
    else Pending
  }

  lemma RejectionAfter(es: seq<Event>, e: Event)
    ensures FirstRejection(es + [e])
         == if FirstRejection(es).Some? then FirstRejection(es) else if e.Rejects? then Some(e.reason) else None
  {
    assert (es + [e])[..|es|] == es;
  }

  lemma ResultsAfter(n: nat, es: seq<Event>, e: Event)
    requires e.index < n
    ensures Results(n, es + [e]) == if e.Fulfils? then Results(n, es)[e.index := Some(e.result)] else Results(n, es)
  {
    assert (es + [e])[..|es|] == es;
  }

  lemma {:induction false} NoResultYet(es: seq<Event>, i: nat)
    requires forall k :: 0 <= k < |es| ==> es[k].index != i
    ensures ResultAt(es, i) == None
  {
    if es != [] { NoResultYet(es[..|es| - 1], i); }
  }

  function Count(os: seq<Option<Value>>): nat {
    if os == [] then 0 else Count(os[..|os| - 1]) + (if os[|os| - 1].Some? then 1 else 0)
  }

  lemma {:induction false} CountMore(os: seq<Option<Value>>, i: nat, v: Value)
    requires i < |os| && os[i].None?
    ensures Count(os[i := Some(v)]) == Count(os) + 1
  {
    var k := |os| - 1;
    if i == k {
      assert os[i := Some(v)][..k] == os[..k];
    } else {
      CountMore(os[..k], i, v);
      assert os[i := Some(v)][..k] == os[..k][i := Some(v)];
    }
  }

  /** The counter reaches the number of promises exactly when no result is missing. */
  lemma {:induction false} CountComplete(os: seq<Option<Value>>)
    ensures Count(os) <= |os| && (Count(os) == |os| <==> Complete(os))
  {
    if os != [] {
      CountComplete(os[..|os| - 1]);
      assert Complete(os) ==> Complete(os[..|os| - 1]);
    }
  }

  lemma {:induction false} NothingYet(n: nat)
    requires n > 0
    ensures Results(n, []) == seq(n, i => None) && Count(seq(n, i => None)) == 0 && FirstRejection([]) == None
    ensures AllOutcome(n, []) == Pending
  {
    CountNone(n);
    assert !Complete(Results(n, [])) by { assert Results(n, [])[0] == None; }
  }

  lemma {:induction false} CountNone(n: nat)
    ensures Count(seq(n, i => None)) == 0
  {
    if n > 0 {
      CountNone(n - 1);
      assert seq<Option<Value>>(n, i => None)[..n - 1] == seq<Option<Value>>(n - 1, i => None);
    }
  }

  lemma {:induction false} OneFulfils(n: nat, es: seq<Event>, i: nat, res: Value)
    requires Once(n, es) && i < n && forall k :: 0 <= k < |es| ==> es[k].index != i
    ensures var es' := es + [Fulfils(i, res)];
            && Once(n, es') && FirstRejection(es') == FirstRejection(es)
            && (FirstRejection(es).Some? ==> AllOutcome(n, es') == AllOutcome(n, es))
            && (FirstRejection(es).None? ==>
                  var os := Results(n, es)[i := Some(res)];
                  && AllOutcome(n, es) == Pending && Results(n, es') == os && Count(os) == Count(Results(n, es)) + 1
                  && AllOutcome(n, es') == if Count(os) == n then Fulfilled(Values(os)) else Pending)
  {
    hide Results, Complete, Count, FirstRejection, Values;
    RejectionAfter(es, Fulfils(i, res));
    ResultsAfter(n, es, Fulfils(i, res));
    ResultMissing(n, es, i);
    CountMore(Results(n, es), i, res);
    CountComplete(Results(n, es)[i := Some(res)]);
  }

  lemma {:induction false} OneRejects(n: nat, es: seq<Event>, i: nat, reason: Value)
    requires Once(n, es) && i < n && forall k :: 0 <= k < |es| ==> es[k].index != i
    ensures var es' := es + [Rejects(i, reason)];
            && Once(n, es') && FirstRejection(es').Some?
            && (FirstRejection(es).Some? ==> AllOutcome(n, es') == AllOutcome(n, es))
            && (FirstRejection(es).None? ==> AllOutcome(n, es) == Pending && AllOutcome(n, es') == Rejected(reason))
  {
    hide Results, Complete, FirstRejection, Values;
    RejectionAfter(es, Rejects(i, reason));
    ResultMissing(n, es, i);
  }

  /** The state that the callbacks of Promise.All share. */
  class All {
    const n: nat
    var rejected: bool
    var nbResolved: nat
    var results: seq<Option<Value>>
    const promise: Promise<seq<Value>>
    ghost var events: seq<Event>

    ghost predicate Valid()
      reads this, promise
    {
      && n > 0 && |results| == n && Once(n, events) && promise.Valid()
      && rejected == FirstRejection(events).Some?
      && promise.outcome == AllOutcome(n, events)
      && (!rejected ==> results == Results(n, events) && nbResolved == Count(results))
    }

    constructor (n: nat)
      requires n > 0
      ensures Valid() && events == [] && this.n == n && fresh(promise)
    {
      this.n := n;
      rejected, nbResolved, results := false, 0, seq(n, i => None);
      promise := new Promise<seq<Value>>();
      events := [];
      NothingYet(n);
    }

    method OnFulfilled(i: nat, res: Value)
      requires Valid() && i < n && forall k :: 0 <= k < |events| ==> events[k].index != i
      modifies this, promise
      ensures Valid() && events == old(events) + [Fulfils(i, res)]
    {
      hide Results, Complete, Count, Promise.Valid, AllOutcome, FirstRejection, Once, Values, Deliveries;
      OneFulfils(n, events, i, res);
      events := events + [Fulfils(i, res)];
      if rejected { return; }
      results := results[i := Some(res)];
      nbResolved := nbResolved + 1;
      if nbResolved == |results| {
        promise.Resolve(Values(results));
      }
    }

    method OnRejected(i: nat, reason: Value)
      requires Valid() && i < n && forall k :: 0 <= k < |events| ==> events[k].index != i
      modifies this, promise
      ensures Valid() && events == old(events) + [Rejects(i, reason)]
    {
      hide Results, Complete, Count, Promise.Valid, AllOutcome, FirstRejection, Once, Deliveries;
      OneRejects(n, events, i, reason);
      events := events + [Rejects(i, reason)];
      if rejected { return; }
      rejected := true;
      promise.Reject(reason);
    }
  }

  /** While a promise has not settled, the promise for all of them is not fulfilled. */
  lemma {:induction false} ResultMissing(n: nat, es: seq<Event>, i: nat)
    requires i < n && forall k :: 0 <= k < |es| ==> es[k].index != i
    ensures Results(n, es)[i] == None && !AllOutcome(n, es).Fulfilled?
    ensures AllOutcome(n, es).Rejected? <==> FirstRejection(es).Some?
  {
    NoResultYet(es, i);
  }

  /** Settles n promises in the order of the events and gives the state of the promise for all of them. */
  method RunAll(n: nat, es: seq<Event>) returns (o: Outcome<seq<Value>>)
    requires n > 0 && Once(n, es)
    ensures o == AllOutcome(n, es)
  {
    hide FirstRejection, AllOutcome;
    var all := new All(n);
    for k := 0 to |es|
      invariant fresh(all) && fresh(all.promise) && all.Valid() && all.n == n && all.events == es[..k]
    {
      match es[k]
      case Fulfils(i, res) => all.OnFulfilled(i, res);
      case Rejects(i, reason) => all.OnRejected(i, reason);
    }
    assert es[..|es|] == es;
    o := all.promise.outcome;
  }

  predicate FulfilledWith(es: seq<Event>, i: nat, v: Value) { Fulfils(i, v) in es }

  predicate FulfilsAt(es: seq<Event>, i: nat) {
    exists k :: 0 <= k < |es| && es[k].Fulfils? && es[k].index == i
  }

  predicate SomeRejects(es: seq<Event>) {
    exists k :: 0 <= k < |es| && es[k].Rejects?
  }

  lemma {:induction false} RejectionIff(es: seq<Event>)
    ensures FirstRejection(es).Some? <==> SomeRejects(es)
  {
    if es != [] {
      var k := |es| - 1;
      RejectionIff(es[..k]);
      if SomeRejects(es[..k]) {
        var i :| 0 <= i < k && es[..k][i].Rejects?;
        assert es[i].Rejects?;
      }
    }
  }

  lemma {:induction false} ResultIff(es: seq<Event>, i: nat)
    ensures ResultAt(es, i).Some? <==> FulfilsAt(es, i)
    ensures ResultAt(es, i).Some? ==> FulfilledWith(es, i, ResultAt(es, i).value)
  {
    if es != [] {
      var k := |es| - 1;
      ResultIff(es[..k], i);
      assert es == es[..k] + [es[k]];
      if FulfilsAt(es[..k], i) {
        var j :| 0 <= j < k && es[..k][j].Fulfils? && es[..k][j].index == i;
        assert es[j].Fulfils? && es[j].index == i;
      }
    }
  }

  /** The promise for all of them fulfils exactly when each of them fulfils, and then with the result of each in its
      place; it rejects exactly when one of them rejects. */
  lemma AllDecided(n: nat, es: seq<Event>)
    requires n > 0 && Once(n, es)
    ensures AllOutcome(n, es).Rejected? <==> SomeRejects(es)
    ensures AllOutcome(n, es).Fulfilled? <==> forall i: nat :: i < n ==> FulfilsAt(es, i)
    ensures AllOutcome(n, es).Fulfilled? ==>
              var vs := AllOutcome(n, es).result;
              |vs| == n && forall i :: 0 <= i < n ==> FulfilledWith(es, i, vs[i])
  {
    hide FirstRejection, ResultAt;
    RejectionIff(es);
    forall i: nat | i < n
      ensures Results(n, es)[i].Some? <==> FulfilsAt(es, i)
      ensures Results(n, es)[i].Some? ==> FulfilledWith(es, i, Results(n, es)[i].value)
    {
      ResultIff(es, i);
    }
    if SomeRejects(es) {
      var k :| 0 <= k < |es| && es[k].Rejects?;
      assert !FulfilsAt(es, es[k].index);
    }
  }
}
