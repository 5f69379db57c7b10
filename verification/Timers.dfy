/** The timers of the handle watcher: a set ordered on deadlines alone. */
module Timers {
  type Port = int

  /** The port to which nothing is ever posted. */
  const ILLEGAL_PORT: Port := 0

  datatype Timer = Timer(deadline: int, port: Port)

  /** Two timers with one deadline count as the same element. */
  predicate Ordered(ts: seq<Timer>) {
    forall i, j :: 0 <= i < j < |ts| ==> ts[i].deadline < ts[j].deadline
  }

  predicate OnePerPort(ts: seq<Timer>) {
    forall i, j :: 0 <= i < j < |ts| ==> ts[i].port != ts[j].port
  }

  /** How many timers have an earlier deadline. */
  function Position(ts: seq<Timer>, deadline: int): (k: nat)
    requires Ordered(ts)
    ensures k <= |ts|
    ensures forall i :: 0 <= i < k ==> ts[i].deadline < deadline
    ensures forall i :: k <= i < |ts| ==> deadline <= ts[i].deadline
  {
    if ts == [] || deadline <= ts[0].deadline then 0 else 1 + Position(ts[1..], deadline)
  }

  predicate Taken(ts: seq<Timer>, deadline: int) {
    exists i :: 0 <= i < |ts| && ts[i].deadline == deadline
  }

  /** `set.insert`: nothing happens if an element with that deadline is there already. */
  function Insert(ts: seq<Timer>, t: Timer): (r: seq<Timer>)
    requires Ordered(ts)
    ensures Taken(ts, t.deadline) ==> r == ts
    ensures Ordered(r)
  {
    var k := Position(ts, t.deadline);
    if k < |ts| && ts[k].deadline == t.deadline then ts else ts[..k] + [t] + ts[k..]
  }

  /** Each port's deadline. */
  ghost function ByPort(ts: seq<Timer>): (m: map<Port, int>)
    requires OnePerPort(ts)
  {
    map t | t in ts :: t.port := t.deadline
  }

  /** Another port waits for exactly this deadline. */
  ghost predicate HeldByAnother(m: map<Port, int>, deadline: int, port: Port) {
    exists p :: p in m && p != port && m[p] == deadline
  }

  /** What setting a port's deadline does to the map: a negative deadline cancels, and a deadline that another port
      holds is lost. */
  ghost function SetTimer(m: map<Port, int>, deadline: int, port: Port): map<Port, int> {
    var rest := m - {port};
    if deadline < 0 || HeldByAnother(m, deadline, port) then rest else rest[port := deadline]
  }

  /** Setting one port's deadline does what was asked exactly when no other port holds the deadline. */
  lemma SetTimerIff(m: map<Port, int>, deadline: int, port: Port)
    ensures SetTimer(m, deadline, port) == (if deadline < 0 then m - {port} else m[port := deadline])
       <==> deadline < 0 || !HeldByAnother(m, deadline, port)
    ensures deadline >= 0 && HeldByAnother(m, deadline, port) ==> SetTimer(m, deadline, port) == m - {port}
  {
    var rest := m - {port};
    assert rest[port := deadline] == m[port := deadline];
    assert port in m[port := deadline] && port !in rest;
  }

  // ---- runs ----

  /** What happens to a queue: a port asks for a deadline, or the next timer, if there is one, completes. */
  datatype Op = Update(deadline: int, port: Port) | Complete

  /** Without the ports that wait for the soonest deadline. */
  ghost function Completed(m: map<Port, int>): map<Port, int> {
    map p | p in m && LaterThanSome(m, p) :: m[p]
  }

  ghost predicate LaterThanSome(m: map<Port, int>, port: Port)
    requires port in m
  {
    exists p :: p in m && m[p] < m[port]
  }

  /** What is asked for: each port's latest deadline, if it is not negative and not yet completed. */
  ghost function Latest(ops: seq<Op>): map<Port, int> {
    if ops == [] then map[] else AskedAfter(Latest(ops[..|ops| - 1]), ops[|ops| - 1])
  }

  ghost function AskedAfter(m: map<Port, int>, op: Op): map<Port, int> {
    match op
    case Update(deadline, port) => if deadline < 0 then m - {port} else m[port := deadline]
    case Complete => Completed(m)
  }

  /** What the queue holds. */
  ghost function Held(ops: seq<Op>): map<Port, int> {
    if ops == [] then map[] else HeldAfter(Held(ops[..|ops| - 1]), ops[|ops| - 1])
  }

  ghost function HeldAfter(m: map<Port, int>, op: Op): map<Port, int> {
    match op
    case Update(deadline, port) => SetTimer(m, deadline, port)
    case Complete => Completed(m)
  }

  /** After every operation the queue holds what was asked for. */
  ghost predicate KeepsLatest(ops: seq<Op>) {
    forall k :: 0 <= k <= |ops| ==> Held(ops[..k]) == Latest(ops[..k])
  }

  /** No update asks for a deadline that another port is then waiting for. */
  ghost predicate NoneShared(ops: seq<Op>) {
    forall k :: 0 <= k < |ops| ==> Unshared(Latest(ops[..k]), ops[k])
  }

  ghost predicate Unshared(m: map<Port, int>, op: Op) {
    op.Update? && 0 <= op.deadline ==> !HeldByAnother(m, op.deadline, op.port)
  }

  /** The queue holds what was asked for after every operation of a run, if and only if no update asks for a deadline
      that another port is then waiting for. */
  lemma {:induction false} LatestKeptIff(ops: seq<Op>)
    ensures KeepsLatest(ops) <==> NoneShared(ops)
  {
    hide HeldByAnother, SetTimer, Completed, KeepsLatest, NoneShared, Unshared, Latest, Held;
    if ops == [] {
      NothingAsked();
    } else {
      var before, last := ops[..|ops| - 1], ops[|ops| - 1];
      assert ops == before + [last];
      LatestKeptIff(before);
      OneMoreOp(before, last);
      OneMoreShared(before, last);
      OneMoreKept(before, last);
      if KeepsLatest(before) { StepKept(Latest(before), last); }
    }
  }

  lemma NothingAsked()
    ensures KeepsLatest([]) && NoneShared([])
  {
  }

  lemma OneMoreOp(before: seq<Op>, last: Op)
    ensures var ops := before + [last];
            Held(ops) == HeldAfter(Held(before), last) && Latest(ops) == AskedAfter(Latest(before), last)
  {
    hide HeldAfter, AskedAfter;
    assert (before + [last])[..|before|] == before;
  }

  lemma OneMoreShared(before: seq<Op>, last: Op)
    ensures NoneShared(before + [last]) <==> NoneShared(before) && Unshared(Latest(before), last)
  {
    hide Unshared, Latest;
    var ops := before + [last];
    assert ops[..|before|] == before && ops[|before|] == last;
    assert forall k :: 0 <= k < |before| ==> ops[..k] == before[..k] && ops[k] == before[k];
  }

  lemma OneMoreKept(before: seq<Op>, last: Op)
    ensures var ops := before + [last];
            && (KeepsLatest(ops) <==> KeepsLatest(before) && Held(ops) == Latest(ops))
            && (KeepsLatest(before) ==> Held(before) == Latest(before))
  {
    hide Held, Latest;
    var ops := before + [last];
    assert ops[..|ops|] == ops && before[..|before|] == before;
    assert forall k :: 0 <= k <= |before| ==> ops[..k] == before[..k];
  }

  lemma StepKept(m: map<Port, int>, op: Op)
    ensures HeldAfter(m, op) == AskedAfter(m, op) <==> Unshared(m, op)
  {
    hide HeldByAnother, SetTimer, Completed;
    if op.Update? { SetTimerIff(m, op.deadline, op.port); }
  }

  lemma FirstSoonest(ts: seq<Timer>)
    requires Ordered(ts) && OnePerPort(ts) && ts != []
    ensures ts[0].port in ByPort(ts) && ByPort(ts)[ts[0].port] == ts[0].deadline
    ensures forall p :: p in ByPort(ts) && p != ts[0].port ==> ByPort(ts)[p] > ts[0].deadline
  {
    assert ts[0] in ts;
    forall p | p in ByPort(ts) && p != ts[0].port ensures ByPort(ts)[p] > ts[0].deadline {
      var t :| t in ts && t.port == p;
    }
  }

  lemma WithoutSoonest(m: map<Port, int>, port: Port)
    requires port in m && forall p :: p in m && p != port ==> m[p] > m[port]
    ensures Completed(m) == m - {port}
  {
  }

  /** The first timer is the one to complete. */
  lemma FirstCompleted(ts: seq<Timer>)
    requires Ordered(ts) && OnePerPort(ts) && ts != []
    ensures Ordered(ts[1..]) && OnePerPort(ts[1..]) && ByPort(ts[1..]) == Completed(ByPort(ts))
  {
    hide Ordered, OnePerPort, ByPort, Completed;
    EraseTimer(ts, 0);
    assert ts[..0] + ts[1..] == ts[1..];
    FirstSoonest(ts);
    WithoutSoonest(ByPort(ts), ts[0].port);
  }

  lemma OneTimer(ts: seq<Timer>, t: Timer)
    requires OnePerPort(ts) && ByPort(ts) == map[t.port := t.deadline]
    ensures ts == [t]
  {
    var m := ByPort(ts);
    assert t.port in m && (1 < |ts| ==> ts[0].port != ts[1].port);
    forall i | 0 <= i < |ts| ensures ts[i] == t {
      assert ts[i] in ts;
      assert ts[i].port in m && m[ts[i].port] == ts[i].deadline;
    }
  }

  ghost function CompletedTimes(m: map<Port, int>, n: nat): map<Port, int> {
    if n == 0 then m else Completed(CompletedTimes(m, n - 1))
  }

  lemma EraseTimer(ts: seq<Timer>, i: nat)
    requires Ordered(ts) && OnePerPort(ts) && i < |ts|
    ensures var r := ts[..i] + ts[i + 1..];
            Ordered(r) && OnePerPort(r) && ByPort(r) == ByPort(ts) - {ts[i].port}
  {
    var r := ts[..i] + ts[i + 1..];
    ErasedOrdered(ts, i);
    hide Ordered;
    forall k | 0 <= k < |ts| && k != i ensures ts[k] in r {
      assert r[if k < i then k else k - 1] == ts[k];
    }
    SameEntries(ts, r, ts[i].port);
  }

  lemma ErasedOrdered(ts: seq<Timer>, i: nat)
    requires Ordered(ts) && OnePerPort(ts) && i < |ts|
    ensures var r := ts[..i] + ts[i + 1..];
            Ordered(r) && OnePerPort(r) && forall k :: 0 <= k < |r| ==> r[k] == if k < i then ts[k] else ts[k + 1]
  {
    var r := ts[..i] + ts[i + 1..];
    assert forall k :: 0 <= k < |r| ==> r[k] == if k < i then ts[k] else ts[k + 1];
  }

  lemma SameEntries(ts: seq<Timer>, r: seq<Timer>, port: Port)
    requires OnePerPort(ts) && OnePerPort(r)
    requires forall t :: t in r <==> t in ts && t.port != port
    ensures ByPort(r) == ByPort(ts) - {port}
  {
    var m, n := ByPort(ts), ByPort(r);
    forall p | p in n ensures p in m && p != port && n[p] == m[p] {
      var t :| t in r && t.port == p;
      assert t in ts;
    }
    forall p | p in m && p != port ensures p in n {
      var t :| t in ts && t.port == p;
      assert t in r;
    }
  }

  lemma InsertTimer(ts: seq<Timer>, t: Timer)
    requires Ordered(ts) && OnePerPort(ts) && t.deadline >= 0 && t.port !in ByPort(ts)
    ensures OnePerPort(Insert(ts, t)) && ByPort(Insert(ts, t)) == SetTimer(ByPort(ts), t.deadline, t.port)
  {
    hide Insert;
    var m := ByPort(ts);
    assert m - {t.port} == m;
    TakenIff(ts, t.deadline, t.port);
    if !Taken(ts, t.deadline) {
      var r := Insert(ts, t);
      InsertAdds(ts, t);
      SameEntries(r, ts, t.port);
      assert t in r && ByPort(r)[t.port] == t.deadline;
      assert ByPort(r) == (ByPort(r) - {t.port})[t.port := t.deadline];
    }
  }

  lemma InsertAdds(ts: seq<Timer>, t: Timer)
    requires Ordered(ts) && OnePerPort(ts) && !Taken(ts, t.deadline) && t.port !in ByPort(ts)
    ensures var r := Insert(ts, t);
            OnePerPort(r) && t in r && forall u :: u in ts <==> u in r && u.port != t.port
  {
    var k := Position(ts, t.deadline);
    var r := Insert(ts, t);
    hide Ordered, Position, Insert;
    assert r == ts[..k] + [t] + ts[k..];
    forall j | 0 <= j < |ts| ensures ts[j] in r && ts[j].port != t.port {
      assert r[if j < k then j else j + 1] == ts[j];
      assert ts[j] in ts;
    }
    assert r[k] == t;
    SplicedOnePerPort(ts, t, k);
  }

  lemma SplicedOnePerPort(ts: seq<Timer>, t: Timer, k: nat)
    requires OnePerPort(ts) && k <= |ts| && forall j :: 0 <= j < |ts| ==> ts[j].port != t.port
    ensures OnePerPort(ts[..k] + [t] + ts[k..])
  {
    var r := ts[..k] + [t] + ts[k..];
    forall i, j | 0 <= i < j < |r| ensures r[i].port != r[j].port {
      assert r[i] == if i < k then ts[i] else if i == k then t else ts[i - 1];
      assert r[j] == if j < k then ts[j] else if j == k then t else ts[j - 1];
    }
  }

  lemma TakenIff(ts: seq<Timer>, deadline: int, port: Port)
    requires OnePerPort(ts) && port !in ByPort(ts)
    ensures HeldByAnother(ByPort(ts), deadline, port) <==> Taken(ts, deadline)
  {
    var m := ByPort(ts);
    if HeldByAnother(m, deadline, port) {
      var p :| p in m && p != port && m[p] == deadline;
      var u :| u in ts && u.port == p;
      assert u.deadline == deadline;
    }
    if Taken(ts, deadline) {
      var i :| 0 <= i < |ts| && ts[i].deadline == deadline;
      assert ts[i] in ts;
      assert ts[i].port in m && m[ts[i].port] == deadline;
    }
  }

  lemma NoTimer(ts: seq<Timer>, port: Port)
    requires OnePerPort(ts) && forall j :: 0 <= j < |ts| ==> ts[j].port != port
    ensures ByPort(ts) - {port} == ByPort(ts)
  {
  }

  lemma SetAfterErase(m: map<Port, int>, deadline: int, port: Port)
    ensures SetTimer(m - {port}, deadline, port) == SetTimer(m, deadline, port)
    ensures deadline < 0 ==> SetTimer(m, deadline, port) == m - {port}
    ensures port !in m - {port}
  {
    var rest := m - {port};
    assert rest - {port} == rest;
    assert forall p :: p in rest <==> p in m && p != port;
    assert forall p :: p in rest ==> rest[p] == m[p];
    assert HeldByAnother(m, deadline, port) <==> HeldByAnother(rest, deadline, port);
  }

  // ---- time passes ----

  /** Each port's deadline, and the ports that have been told, in order. */
  datatype Clockwork = Clockwork(deadlines: map<Port, int>, told: seq<Port>)

  ghost predicate IsSoonest(m: map<Port, int>, p: Port) {
    p in m && forall q :: q in m ==> m[p] <= m[q]
  }

  lemma NoPorts(m: map<Port, int>)
    requires forall p :: p !in m
    ensures m == map[]
  {
    assert forall p :: p !in m.Keys;
    assert m.Keys == {};
  }

  lemma SomePort(m: map<Port, int>)
    requires m != map[]
    ensures exists p :: p in m
  {
    if forall p :: p !in m { NoPorts(m); }
  }

  lemma {:induction false} HasSoonest(m: map<Port, int>)
    requires m != map[]
    ensures exists p :: IsSoonest(m, p)
    decreases |m|
  {
    SomePort(m);
    var p :| p in m;
    var rest := m - {p};
    assert forall q :: q in m && q != p ==> q in rest;
    if rest == map[] {
      assert IsSoonest(m, p);
    } else {
      Smaller(m, p);
      HasSoonest(rest);
      var q :| IsSoonest(rest, q);
      assert IsSoonest(m, if m[q] < m[p] then q else p);
    }
  }

  ghost function Soonest(m: map<Port, int>): (p: Port)
    requires m != map[]
    ensures IsSoonest(m, p)
  {
    HasSoonest(m);
    var p :| IsSoonest(m, p);
    p
  }

  /** The deadlines that the clock has reached pass, the soonest first; it is read anew before each. A port that can be told
      is told. */
  ghost function Elapse(w: Clockwork, clock: nat -> int, k: nat): Clockwork
    decreases |w.deadlines|
  {
    if w.deadlines == map[] then w
    else
      var p := Soonest(w.deadlines);
      if clock(k) < w.deadlines[p] then w
      else
        Smaller(w.deadlines, p);
        Elapse(Clockwork(w.deadlines - {p}, w.told + (if p == ILLEGAL_PORT then [] else [p])), clock, k + 1)
  }

  lemma Smaller(m: map<Port, int>, p: Port)
    requires p in m
    ensures |m - {p}| < |m|
  {
    assert m.Keys == (m - {p}).Keys + {p};
  }

  /** When it is `now` throughout: exactly the deadlines that have come pass, and each legal port of theirs is told once more. */
  lemma {:induction false} ElapsedBy(w: Clockwork, now: int, k: nat)
    ensures var v := Elapse(w, _ => now, k);
            && (forall p :: p in v.deadlines <==> p in w.deadlines && now < w.deadlines[p])
            && (forall p :: p in v.deadlines ==> v.deadlines[p] == w.deadlines[p])
            && (forall p :: multiset(v.told)[p] == multiset(w.told)[p]
                              + if p != ILLEGAL_PORT && p in w.deadlines && w.deadlines[p] <= now then 1 else 0)
            && |w.told| <= |v.told| && v.told[..|w.told|] == w.told
    decreases |w.deadlines|
  {
    if w.deadlines != map[] {
      var p := Soonest(w.deadlines);
      if w.deadlines[p] <= now {
        Smaller(w.deadlines, p);
        var told := w.told + (if p == ILLEGAL_PORT then [] else [p]);
        ElapsedBy(Clockwork(w.deadlines - {p}, told), now, k + 1);
        var v := Elapse(w, _ => now, k);
        assert v == Elapse(Clockwork(w.deadlines - {p}, told), _ => now, k + 1);
        assert v.told[..|w.told|] == v.told[..|told|][..|w.told|];
      }
    }
  }

  /** The ports that are told of completed timers. */
  function Notified(ts: seq<Timer>): seq<Port> {
    if ts == [] then []
    else
      var port := ts[|ts| - 1].port;
      Notified(ts[..|ts| - 1]) + (if port == ILLEGAL_PORT then [] else [port])
  }

  class TimerQueue {
    var timers: seq<Timer>
    ghost var told: seq<Port>      // the ports that were told their timer is complete, in order

    ghost predicate Valid()
      reads this
    {
      Ordered(timers) && OnePerPort(timers)
    }

    ghost function View(): map<Port, int>
      requires Valid()
      reads this
    {
      ByPort(timers)
    }

    ghost function Clock(): Clockwork
      requires Valid()
      reads this
    {
      Clockwork(View(), told)
    }

    constructor ()
      ensures Valid() && View() == map[] && told == []
    {
      timers, told := [], [];
    }

    method UpdateTimer(deadline: int, port: Port)
      requires Valid()
      modifies this`timers
      ensures Valid() && View() == SetTimer(old(View()), deadline, port)
    {
      hide Ordered, OnePerPort, ByPort, SetTimer, Insert;
      var i := 0;
      while i < |timers|
        invariant i <= |timers|
        invariant forall j :: 0 <= j < i ==> timers[j].port != port
      {
        if timers[i].port == port { break; }
        i := i + 1;
      }
      if i < |timers| {
        EraseTimer(timers, i);
        timers := timers[..i] + timers[i + 1..];
      } else {
        NoTimer(timers, port);
      }
      SetAfterErase(old(View()), deadline, port);
      if deadline < 0 { return; }
      InsertTimer(timers, Timer(deadline, port));
      timers := Insert(timers, Timer(deadline, port));
    }

    /** Completes timers, reading the clock before each, until the next one is not due. `clock(k)` is the k-th
        reading. */
    method ProcessTimers(clock: nat -> int) returns (n: nat)
      requires Valid()
      modifies this
      ensures Valid() && n <= |old(timers)| && timers == old(timers)[n..]
      ensures View() == CompletedTimes(old(View()), n) && told == old(told) + Notified(old(timers)[..n])
      ensures Clock() == Elapse(old(Clock()), clock, 0)
      ensures forall i :: 0 <= i < n ==> old(timers)[i].deadline <= clock(i)
      ensures forall t :: t in timers ==> clock(n) < t.deadline
    {
      hide Ordered, OnePerPort, ByPort, Completed, Elapse, Notified;
      n := 0;
      NotifiedNone(old(timers));
      var now := clock(0);
      while timers != [] && now >= timers[0].deadline
        invariant n <= |old(timers)| && timers == old(timers)[n..] && Valid() && now == clock(n)
        invariant View() == CompletedTimes(old(View()), n) && told == old(told) + Notified(old(timers)[..n])
        invariant Elapse(Clock(), clock, n) == Elapse(old(Clock()), clock, 0)
        invariant forall i :: 0 <= i < n ==> old(timers)[i].deadline <= clock(i)
        decreases |timers|
      {
        NotifiedMore(old(timers), n);
        FirstElapses(timers, told, clock, n);
        CompleteNextTimer();
        n := n + 1;
        now := clock(n);
      }
      NoneElapses(timers, told, clock, n);
      AllLater(timers, clock(n));
    }

    /** Nothing is posted to the illegal port. */
    method CompleteNextTimer()
      requires Valid() && timers != []
      modifies this
      ensures Valid() && timers == old(timers)[1..] && View() == Completed(old(View()))
      ensures told == old(told) + (if old(timers)[0].port == ILLEGAL_PORT then [] else [old(timers)[0].port])
    {
      FirstCompleted(timers);
      var port := timers[0].port;
      if port != ILLEGAL_PORT { told := told + [port]; }
      timers := timers[1..];
    }
  }

  lemma AllLater(ts: seq<Timer>, now: int)
    requires Ordered(ts) && (ts != [] ==> now < ts[0].deadline)
    ensures forall t :: t in ts ==> now < t.deadline
  {
  }

  lemma NotifiedMore(ts: seq<Timer>, n: nat)
    requires n < |ts|
    ensures Notified(ts[..n + 1]) == Notified(ts[..n]) + (if ts[n].port == ILLEGAL_PORT then [] else [ts[n].port])
  {
    assert ts[..n + 1][..n] == ts[..n];
  }

  lemma NotifiedNone(ts: seq<Timer>)
    ensures Notified(ts[..0]) == []
  {
  }

  lemma FirstElapses(ts: seq<Timer>, told: seq<Port>, clock: nat -> int, k: nat)
    requires Ordered(ts) && OnePerPort(ts) && ts != [] && ts[0].deadline <= clock(k)
    ensures Ordered(ts[1..]) && OnePerPort(ts[1..])
    ensures Elapse(Clockwork(ByPort(ts), told), clock, k)
         == Elapse(Clockwork(ByPort(ts[1..]), told + (if ts[0].port == ILLEGAL_PORT then [] else [ts[0].port])), clock, k + 1)
  {
    hide Ordered, OnePerPort, ByPort, Completed;
    FirstSoonest(ts);
    FirstCompleted(ts);
    WithoutSoonest(ByPort(ts), ts[0].port);
    assert Soonest(ByPort(ts)) == ts[0].port;
  }

  lemma NoneElapses(ts: seq<Timer>, told: seq<Port>, clock: nat -> int, k: nat)
    requires Ordered(ts) && OnePerPort(ts) && (ts != [] ==> clock(k) < ts[0].deadline)
    ensures Elapse(Clockwork(ByPort(ts), told), clock, k) == Clockwork(ByPort(ts), told)
  {
    if ts == [] {
      assert ByPort(ts) == map[];
    } else {
      FirstSoonest(ts);
    }
  }

  /** The operations carried out on a new queue; `views` is what it held after each. */
  method RunTimers(ops: seq<Op>) returns (queue: TimerQueue, ghost views: seq<map<Port, int>>)
    ensures fresh(queue) && queue.Valid() && |views| == |ops| + 1 && queue.View() == views[|ops|]
    ensures forall k :: 0 <= k <= |ops| ==> views[k] == Held(ops[..k])
    ensures (forall k :: 0 <= k <= |ops| ==> views[k] == Latest(ops[..k])) <==> NoneShared(ops)
  {
    hide Ordered, OnePerPort, ByPort, Completed, SetTimer, HeldByAnother;
    queue := new TimerQueue();
    views := [map[]];
    for i := 0 to |ops|
      invariant fresh(queue) && queue.Valid() && |views| == i + 1 && queue.View() == views[i]
      invariant forall k :: 0 <= k <= i ==> views[k] == Held(ops[..k])
    {
      assert ops[..i + 1][..i] == ops[..i];
      match ops[i] {
        case Update(deadline, port) => queue.UpdateTimer(deadline, port);
        case Complete =>
          if queue.timers == [] { NoneCompleted(); } else { queue.CompleteNextTimer(); }
      }
      views := views + [queue.View()];
    }
    LatestKeptIff(ops);
  }

  lemma NoneCompleted()
    ensures ByPort([]) == map[] && Completed(map[]) == map[]
  {
  }

  /** Two ports ask for one deadline: when it has come, only the first is told, and nothing is left. */
  method SharedDeadline(first: Port, second: Port, deadline: nat) returns (queue: TimerQueue)
    requires first != second && first != ILLEGAL_PORT
    ensures queue.told == [first] && queue.timers == []
  {
    queue := new TimerQueue();
    queue.UpdateTimer(deadline, first);
    assert queue.View() == map[first := deadline];
    assert HeldByAnother(queue.View(), deadline, second) by { assert first in queue.View(); }
    queue.UpdateTimer(deadline, second);
    OneTimer(queue.timers, Timer(deadline, first));
    var _ := queue.ProcessTimers(k => deadline);
  }

  /** Due timers complete in increasing order of their deadlines, each port once. */
  lemma CompletedInOrder(ts: seq<Timer>, n: nat)
    requires Ordered(ts) && OnePerPort(ts) && n <= |ts|
    ensures forall i, j :: 0 <= i < j < n ==> ts[i].deadline < ts[j].deadline && ts[i].port != ts[j].port
    ensures Ordered(ts[n..]) && OnePerPort(ts[n..])
    ensures forall p :: p in ByPort(ts[n..]) <==> p in ByPort(ts) && forall i :: 0 <= i < n ==> ts[i].port != p
    ensures forall p :: p in ByPort(ts[n..]) ==> p in ByPort(ts) && ByPort(ts[n..])[p] == ByPort(ts)[p]
  {
    hide ByPort;
    RestOf(ts, n);
  }

  /** The timers that are left keep their ports and deadlines. */
  lemma RestOf(ts: seq<Timer>, n: nat)
    requires n <= |ts| && OnePerPort(ts) && OnePerPort(ts[n..])
    ensures forall p :: p in ByPort(ts[n..]) <==> p in ByPort(ts) && forall i :: 0 <= i < n ==> ts[i].port != p
    ensures forall p :: p in ByPort(ts[n..]) ==> p in ByPort(ts) && ByPort(ts[n..])[p] == ByPort(ts)[p]
  {
    forall p | p in ByPort(ts[n..])
      ensures p in ByPort(ts) && ByPort(ts[n..])[p] == ByPort(ts)[p] && forall i :: 0 <= i < n ==> ts[i].port != p
    {
      var j :| n <= j < |ts| && ts[j].port == p;
      assert ts[j] in ts && ts[j] in ts[n..];
    }
    forall p | p in ByPort(ts) && forall i :: 0 <= i < n ==> ts[i].port != p ensures p in ByPort(ts[n..]) {
      var t :| t in ts && t.port == p;
      assert t in ts[n..];
    }
  }
}
