/** The Dart handle watcher as it is written: four vectors indexed together and a map from handles to indices. */
module HandleWatcher {
  import opened WatcherSpec
  import opened Timers

  datatype Command =
    | CommandAddHandle(handle: Handle, signals: Signals, port: Port)
    | CommandRemoveHandle(handle: Handle)
    | CommandCloseHandle(handle: Handle, port: Port)
    | CommandAddTimer(deadline: int, port: Port)
    | CommandShutdown

  function Obey(s: State, c: Command): Next {
    match c
    case CommandAddHandle(h, signals, port) => Some(Add(s, h, signals, port))
    case CommandRemoveHandle(h) => Remove(s, h)
    case CommandCloseHandle(h, port) => Close(s, h, port)
    case _ => Some(s)
  }

  ghost function NewTimers(m: map<Port, int>, c: Command): map<Port, int> {
    if c.CommandAddTimer? then SetTimer(m, c.deadline, c.port) else m
  }

  predicate ControlReady(s: State) {
    s.control in s.subs && Met(s.subs[s.control]) != 0
  }

  ghost function AfterWait(s: State, result: WaitResult, dead: set<Handle>, command: Command): Next {
    match result
    case DEADLINE_EXCEEDED => None
    case OK =>
      if ControlReady(s) then Obey(Fire(s), command) else Some(Fire(s))
    case _ => Prune(s, Gone(s, !result.INVALID_ARGUMENT?, dead))
  }

  /** Firing does not touch the control handle. */
  lemma ControlStays(s: State)
    requires s.control in s.subs
    ensures var t := Fire(s);
            s.control in t.subs && t.subs[s.control] == s.subs[s.control] && t.control == s.control
  {
  }

  /** One turn of the watcher's loop: the readings of the clock, what the wait sees on each handle and its result, the
      handles that turn out to be gone if that must be asked, and the next command. */
  datatype Turn = Turn(clock: nat -> int, seen: Handle -> Signals, result: WaitResult, dead: set<Handle>, command: Command)

  function Seen(s: State, seen: Handle -> Signals): map<Handle, Signals> {
    map h | h in s.subs :: seen(h)
  }

  ghost function AfterTurn(s: State, turn: Turn): Next {
    var t := Observe(s, Seen(s, turn.seen));
    if turn.result.DEADLINE_EXCEEDED? then Some(t) else AfterWait(t, turn.result, turn.dead, turn.command)
  }

  predicate Stops(s: State, turn: Turn) {
    turn.result.OK? && ControlReady(Observe(s, Seen(s, turn.seen))) && turn.command.CommandShutdown?
  }

  /** What the watcher has come to after these turns, or when one of them shuts it down. */
  ghost function AfterTurns(s: State, turns: seq<Turn>): Next
    decreases |turns|
  {
    if turns == [] then Some(s)
    else
      match AfterTurn(s, turns[0])
      case None => None
      case Some(t) => if Stops(s, turns[0]) then Some(t) else AfterTurns(t, turns[1..])
  }

  /** What is left of the deadlines, and whom has been told: each turn begins with those that have passed. */
  ghost function TimersAfterTurn(s: State, w: Clockwork, turn: Turn): Clockwork {
    var v := Elapse(w, turn.clock, 0);
    if turn.result.OK? && ControlReady(Observe(s, Seen(s, turn.seen))) then
      v.(deadlines := NewTimers(v.deadlines, turn.command))
    else v
  }

  ghost function TimersAfterTurns(s: State, w: Clockwork, turns: seq<Turn>): Clockwork
    decreases |turns|
  {
    if turns == [] || AfterTurn(s, turns[0]).None? then w
    else
      var v := TimersAfterTurn(s, w, turns[0]);
      if Stops(s, turns[0]) then v else TimersAfterTurns(AfterTurn(s, turns[0]).state, v, turns[1..])
  }

  /** What a turn does to the machine: a wait, and, if it went well, firing and then the command, if the wait saw something
      that the control handle is watched for; if it failed, pruning. */
  ghost function TurnActions(s: State, turn: Turn): seq<Action>
    requires s.control in s.subs
  {
    [Wait(Seen(s, turn.seen))] +
    match turn.result
    case DEADLINE_EXCEEDED => []
    case OK =>
      [FireAll] + (if Overlap(turn.seen(s.control), s.subs[s.control].signals) then CommandActions(turn.command) else [])
    case _ => [PruneAll(set h | h in s.subs && FoundGone(turn, h))]
  }

  function CommandActions(c: Command): seq<Action> {
    match c
    case CommandAddHandle(h, signals, port) => [Action.AddHandle(h, signals, port)]
    case CommandRemoveHandle(h) => [Action.RemoveHandle(h)]
    case CommandCloseHandle(h, port) => [Action.CloseHandle(h, port)]
    case _ => []
  }

  /** After a failed wait a handle is gone if the wait saw the closed-peer signal on it, or, if the wait says nothing, if asking
      for it says so and it is not the invalid handle. */
  predicate FoundGone(turn: Turn, h: Handle) {
    if turn.result.INVALID_ARGUMENT? then h != 0 && h in turn.dead else turn.seen(h) & 4 != 0
  }

  lemma GoneMeaning(s: State, turn: Turn)
    ensures Gone(Observe(s, Seen(s, turn.seen)), !turn.result.INVALID_ARGUMENT?, turn.dead)
         == set h | h in s.subs && FoundGone(turn, h)
  {
  }

  lemma ReadyMeaning(s: State, turn: Turn)
    requires s.control in s.subs
    ensures ControlReady(Observe(s, Seen(s, turn.seen))) <==> Overlap(turn.seen(s.control), s.subs[s.control].signals)
  {
    hide Met, Overlap;
    MetMeaning(Observe(s, Seen(s, turn.seen)).subs[s.control]);
  }

  /** A shutdown is obeyed like any command, and nothing comes after it. */
  lemma ShutdownStops(s: State, turn: Turn, rest: seq<Turn>)
    requires s.control in s.subs && AfterTurn(s, turn).Some?
    ensures var obeys := turn.result.OK? && Overlap(turn.seen(s.control), s.subs[s.control].signals);
            AfterTurns(s, [turn] + rest)
              == if obeys && turn.command.CommandShutdown? then AfterTurn(s, turn)
                 else AfterTurns(AfterTurn(s, turn).state, rest)
  {
    hide AfterTurn, ControlReady, Observe, Seen;
    ReadyMeaning(s, turn);
    assert ([turn] + rest)[1..] == rest;
  }

  /** Whatever the turns of the watcher's loop bring, they are a run of the machine, so that its books are right. */
  lemma {:induction false} TurnsRun(control: Handle, actions: seq<Action>, s: State, turns: seq<Turn>)
    returns (more: seq<Action>)
    requires Reaches(control, actions, s)
    ensures AfterTurns(s, turns).Some? ==> Reaches(control, more, AfterTurns(s, turns).state)
                                           && Books(more, AfterTurns(s, turns).state)
    decreases |turns|
  {
    hide Reaches, AfterTurn, Books, Stops;
    more := actions;
    RunBooks(control, actions, s);
    if turns != [] && AfterTurn(s, turns[0]).Some? {
      more := TurnRuns(control, actions, s, turns[0]);
      var t := AfterTurn(s, turns[0]).state;
      RunBooks(control, more, t);
      if !Stops(s, turns[0]) { more := TurnsRun(control, more, t, turns[1..]); }
    }
  }

  lemma RunBooks(control: Handle, actions: seq<Action>, s: State)
    requires Reaches(control, actions, s)
    ensures s.control in s.subs && Books(actions, s)
  {
    RunBalanced(control, actions, s);
  }

  lemma TurnRuns(control: Handle, actions: seq<Action>, s: State, turn: Turn) returns (more: seq<Action>)
    requires Reaches(control, actions, s) && AfterTurn(s, turn).Some?
    ensures s.control in s.subs && more == actions + TurnActions(s, turn)
    ensures Reaches(control, more, AfterTurn(s, turn).state)
  {
    hide Fire, Observe, Gone, Prune, Add, Remove, Close, Reaches, Seen, ControlReady, FoundGone;
    RunBooks(control, actions, s);
    GoneMeaning(s, turn);
    ReadyMeaning(s, turn);
    var seen := Seen(s, turn.seen);
    SeenAll(s, turn.seen);
    more := OneMore(control, actions, s, Wait(seen));
    var t := Observe(s, seen);
    RunBooks(control, more, t);
    if turn.result.OK? {
      more := OneMore(control, more, t, FireAll);
      var f := Fire(t);
      if ControlReady(t) {
        match turn.command
        case CommandAddHandle(h, signals, port) => more := OneMore(control, more, f, Action.AddHandle(h, signals, port));
        case CommandRemoveHandle(h) => more := OneMore(control, more, f, Action.RemoveHandle(h));
        case CommandCloseHandle(h, port) => more := OneMore(control, more, f, Action.CloseHandle(h, port));
        case _ =>
      }
    } else if !turn.result.DEADLINE_EXCEEDED? {
      var gone := Gone(t, !turn.result.INVALID_ARGUMENT?, turn.dead);
      GoneWatched(t, !turn.result.INVALID_ARGUMENT?, turn.dead);
      more := OneMore(control, more, t, PruneAll(gone));
    }
  }

  lemma SeenAll(s: State, seen: Handle -> Signals)
    ensures s.subs.Keys <= Seen(s, seen).Keys
  {
  }

  lemma OneMore(control: Handle, actions: seq<Action>, s: State, a: Action) returns (more: seq<Action>)
    requires Reaches(control, actions, s) && Enabled(s, a) && Step(s, a).Some?
    ensures more == actions + [a] && Reaches(control, more, Step(s, a).state)
  {
    more := actions + [a];
    assert more[..|actions|] == actions;
  }

  function SeenAt(hs: seq<Handle>, seen: Handle -> Signals): (r: seq<Signals>)
    ensures |r| == |hs|
  {
    seq(|hs|, i requires 0 <= i < |hs| => seen(hs[i]))
  }

  lemma SeenRows(hs: seq<Handle>, index: map<Handle, nat>, seen: Handle -> Signals, s: State)
    requires Inverse(hs, index) && s.subs.Keys == index.Keys
    ensures (map h | h in index :: SeenAt(hs, seen)[index[h]]) == Seen(s, seen)
  {
  }

  lemma GoneWatched(s: State, signalsStateIsValid: bool, dead: set<Handle>)
    ensures Gone(s, signalsStateIsValid, dead) <= s.subs.Keys
  {
    hide Has;
  }

  lemma EndAllKeepsPosts(s: State, t: State, hs: set<Handle>)
    requires hs <= s.subs.Keys && t == s.(posts := t.posts)
    ensures EndAll(t, hs, Signalled).(posts := t.posts) == EndAll(s, hs, Signalled).(posts := t.posts)
  {
  }

  datatype WaitResult = OK | INVALID_ARGUMENT | OTHER_ERROR | DEADLINE_EXCEEDED

  predicate Inverse(hs: seq<Handle>, index: map<Handle, nat>) {
    && (forall i :: 0 <= i < |hs| ==> hs[i] in index && index[hs[i]] == i)
    && (forall h :: h in index ==> index[h] < |hs| && hs[index[h]] == h)
  }

  /** The map that the vectors and the index stand for. */
  function Rows(hs: seq<Handle>, signals: seq<Signals>, states: seq<Signals>, ports: seq<Port>,
                index: map<Handle, nat>): (m: map<Handle, Subscription>)
    requires |hs| == |signals| == |states| == |ports| && Inverse(hs, index)
    ensures m.Keys == index.Keys
  {
    map h | h in index :: Subscription(signals[index[h]], states[index[h]], ports[index[h]])
  }

  /** `v[i] = v[last]; v.pop_back()` */
  function Drop<T>(s: seq<T>, i: nat): (r: seq<T>)
    requires i < |s|
    ensures |r| == |s| - 1 && r[..i] == s[..i]
  {
    (if i == |s| - 1 then s else s[i := s[|s| - 1]])[..|s| - 1]
  }

  /** The index of the removed handle is erased, and that of the handle that moved is brought up to date. */
  function DropIndex(hs: seq<Handle>, index: map<Handle, nat>, i: nat): map<Handle, nat>
    requires i < |hs|
  {
    if i == |hs| - 1 then index - {hs[i]} else (index - {hs[i]})[hs[|hs| - 1] := i]
  }

  lemma DropInverse(hs: seq<Handle>, index: map<Handle, nat>, i: nat)
    requires Inverse(hs, index) && i < |hs|
    ensures var index' := DropIndex(hs, index, i);
            && Inverse(Drop(hs, i), index')
            && (forall h :: h in index' <==> h in index && h != hs[i])
            && (forall h :: h in index' ==> index'[h] == if index[h] == |hs| - 1 then i else index[h])
  {
    var n := |hs| - 1;
    var hs', index' := Drop(hs, i), DropIndex(hs, index, i);
    forall h | h in index ensures h == hs[n] <==> index[h] == n {}
    forall j | 0 <= j < n ensures hs'[j] == if j == i then hs[n] else hs[j] {}
  }

  lemma DropRow(hs: seq<Handle>, ss: seq<Signals>, ts: seq<Signals>, ps: seq<Port>, index: map<Handle, nat>, i: nat)
    requires |hs| == |ss| == |ts| == |ps| && Inverse(hs, index) && i < |hs|
    ensures Inverse(Drop(hs, i), DropIndex(hs, index, i))
    ensures Rows(Drop(hs, i), Drop(ss, i), Drop(ts, i), Drop(ps, i), DropIndex(hs, index, i))
         == Rows(hs, ss, ts, ps, index) - {hs[i]}
  {
    hide DropIndex, Drop, Inverse;
    DropInverse(hs, index, i);
    var index' := DropIndex(hs, index, i);
    var rows := Rows(Drop(hs, i), Drop(ss, i), Drop(ts, i), Drop(ps, i), index');
    forall h | h in index' ensures rows[h] == Rows(hs, ss, ts, ps, index)[h] {
      IndexAt(hs, index, h);
      IndexAt(hs, index, hs[i]);
      Dropped(ss, i, index[h]);
      Dropped(ts, i, index[h]);
      Dropped(ps, i, index[h]);
    }
  }

  lemma Dropped<T>(s: seq<T>, i: nat, k: nat)
    requires i < |s| && k < |s| && k != i
    ensures Drop(s, i)[if k == |s| - 1 then i else k] == s[k]
  {
  }

  lemma RowAt(hs: seq<Handle>, ss: seq<Signals>, ts: seq<Signals>, ps: seq<Port>, index: map<Handle, nat>, i: nat)
    requires |hs| == |ss| == |ts| == |ps| && Inverse(hs, index) && i < |hs|
    ensures hs[i] in index && Rows(hs, ss, ts, ps, index)[hs[i]] == Subscription(ss[i], ts[i], ps[i])
  {
  }

  lemma IndexAt(hs: seq<Handle>, index: map<Handle, nat>, h: Handle)
    requires Inverse(hs, index)
    ensures h in index ==> index[h] < |hs| && hs[index[h]] == h
    ensures hs != [] ==> hs[0] in index && index[hs[0]] == 0
  {
  }

  lemma NoPost()
    ensures NullPost(ILLEGAL_PORT) == multiset{}
  {
  }

  lemma DropFirst(hs: seq<Handle>, i: nat)
    requires 0 < i < |hs|
    ensures Drop(hs, i)[0] == hs[0]
  {
  }

  lemma AddRow(hs: seq<Handle>, ss: seq<Signals>, ts: seq<Signals>, ps: seq<Port>, index: map<Handle, nat>,
               h: Handle, s: Signals, t: Signals, p: Port)
    requires |hs| == |ss| == |ts| == |ps| && Inverse(hs, index) && h !in index
    ensures Inverse(hs + [h], index[h := |hs|])
    ensures Rows(hs + [h], ss + [s], ts + [t], ps + [p], index[h := |hs|])
         == Rows(hs, ss, ts, ps, index)[h := Subscription(s, t, p)]
  {
  }

  lemma ChangeRow(hs: seq<Handle>, ss: seq<Signals>, ts: seq<Signals>, ps: seq<Port>, index: map<Handle, nat>,
                  i: nat, s: Signals)
    requires |hs| == |ss| == |ts| == |ps| && Inverse(hs, index) && i < |hs|
    ensures var rows := Rows(hs, ss, ts, ps, index);
            Rows(hs, ss[i := s], ts, ps, index) == rows[hs[i] := rows[hs[i]].(signals := s)]
  {
  }

  predicate Has(seen: Signals, signal: Signals) { seen & signal != 0 }

  /** The watched handles found to be gone. */
  ghost function Gone(s: State, signalsStateIsValid: bool, dead: set<Handle>): set<Handle> {
    if signalsStateIsValid then set h | h in s.subs && Has(s.subs[h].state, PEER_CLOSED)
    else set h | h in s.subs && h != 0 && h in dead
  }

  // ---- handles picked from the vector, in order ----

  ghost function Select(hs: seq<Handle>, chosen: set<Handle>): seq<Handle> {
    if hs == [] then []
    else
      var k := |hs| - 1;
      Select(hs[..k], chosen) + (if hs[k] in chosen then [hs[k]] else [])
  }

  ghost function Elements(hs: seq<Handle>): set<Handle> { set h | h in hs }

  lemma SelectMore(hs: seq<Handle>, i: nat, chosen: set<Handle>)
    requires i < |hs|
    ensures Select(hs[..i + 1], chosen) == Select(hs[..i], chosen) + (if hs[i] in chosen then [hs[i]] else [])
  {
    assert hs[..i + 1][..i] == hs[..i];
  }

  /** Picking from a vector without repetitions gives each chosen handle once. */
  lemma {:induction false} SelectDistinct(hs: seq<Handle>, chosen: set<Handle>)
    requires forall i, j :: 0 <= i < j < |hs| ==> hs[i] != hs[j]
    ensures var p := Select(hs, chosen);
            && (forall h :: h in p <==> h in hs && h in chosen)
            && (forall i, j :: 0 <= i < j < |p| ==> p[i] != p[j])
  {
    if hs != [] {
      var k := |hs| - 1;
      SelectDistinct(hs[..k], chosen);
      assert hs == hs[..k] + [hs[k]];
    }
  }

  /** p holds each chosen handle once, and `first`, if chosen, before the others. */
  ghost predicate Lists(p: seq<Handle>, chosen: set<Handle>, first: Handle) {
    && Elements(p) == chosen
    && (forall i :: 0 <= i < |p| ==> p[i] !in Elements(p[..i]) && Elements(p[..i + 1]) == Elements(p[..i]) + {p[i]})
    && (first in chosen ==> p != [] && p[0] == first)
  }

  lemma SelectAll(hs: seq<Handle>, index: map<Handle, nat>, chosen: set<Handle>)
    requires Inverse(hs, index) && chosen <= index.Keys
    ensures hs[..|hs|] == hs
    ensures hs != [] ==> Lists(Select(hs, chosen), chosen, hs[0])
  {
    assert hs[..|hs|] == hs;
    SelectDistinct(hs, chosen);
    SelectFirst(hs, chosen);
    var p := Select(hs, chosen);
    forall i | 0 <= i < |p| ensures Elements(p[..i + 1]) == Elements(p[..i]) + {p[i]} {
      assert p[..i + 1] == p[..i] + [p[i]];
    }
  }

  lemma {:induction false} SelectFirst(hs: seq<Handle>, chosen: set<Handle>)
    ensures hs != [] && hs[0] in chosen ==> Select(hs, chosen) != [] && Select(hs, chosen)[0] == hs[0]
  {
    if |hs| > 1 { SelectFirst(hs[..|hs| - 1], chosen); }
  }

  lemma NothingSelected(chosen: set<Handle>)
    ensures forall hs: seq<Handle> :: Select(hs[..0], chosen) == []
  {
  }

  lemma PrunedEnd(s: State, h: Handle)
    requires h in s.subs
    ensures var posts := s.posts + SignalPost(h, s.subs[h].port, PEER_CLOSED);
            EndOne(s, h, Pruned) == End(s.(closes := s.closes + multiset{h}, posts := posts), h, Pruned)
  {
    hide SignalPost;
    assert multiset{h} == multiset({h});
  }

  // ---- indices listed from the last one down ----

  ghost predicate Descending(ks: seq<nat>, n: nat) {
    && (forall i :: 0 <= i < |ks| ==> 0 < ks[i] < n)
    && (forall i, j :: 0 <= i < j < |ks| ==> ks[j] < ks[i])
  }

  ghost function HandlesAt(hs: seq<Handle>, ks: seq<nat>): set<Handle>
    requires forall i :: 0 <= i < |ks| ==> ks[i] < |hs|
  {
    set i | 0 <= i < |ks| :: hs[ks[i]]
  }

  /** The handles at index i or above that have fired. */
  ghost function FiredFrom(s: State, hs: seq<Handle>, i: nat): set<Handle> {
    set j | i <= j < |hs| && hs[j] in s.subs && Met(s.subs[hs[j]]) != 0 :: hs[j]
  }

  lemma FiredMore(s: State, hs: seq<Handle>, index: map<Handle, nat>, i: nat)
    requires Inverse(hs, index) && s.subs.Keys == index.Keys && i < |hs|
    ensures hs[i] in s.subs && hs[i] !in FiredFrom(s, hs, i + 1)
    ensures FiredFrom(s, hs, i)
         == FiredFrom(s, hs, i + 1) + (if Met(s.subs[hs[i]]) != 0 then {hs[i]} else {})
  {
    hide Met;
  }

  lemma FiredFromOne(s: State, hs: seq<Handle>, index: map<Handle, nat>)
    requires Inverse(hs, index) && s.subs.Keys == index.Keys && hs != [] && hs[0] == s.control
    ensures FiredFrom(s, hs, 1) == Fired(s) && FiredFrom(s, hs, |hs|) == {}
  {
    hide Met;
    forall h | h in Fired(s) ensures h in FiredFrom(s, hs, 1) {
      assert hs[index[h]] == h && index[h] != 0;
    }
  }

  lemma ToldMet(sub: Subscription)
    ensures Told(sub, Signalled) == Met(sub)
  {
    hide Met;
  }

  lemma ListMore(hs: seq<Handle>, ks: seq<nat>, i: nat)
    requires Descending(ks, |hs|) && 0 < i < |hs| && (ks != [] ==> i < ks[|ks| - 1])
    ensures Descending(ks + [i], |hs|) && HandlesAt(hs, ks + [i]) == HandlesAt(hs, ks) + {hs[i]}
  {
    var ks' := ks + [i];
    assert forall j :: 0 <= j < |ks'| ==> ks'[j] == if j < |ks| then ks[j] else i;
    assert hs[ks'[|ks|]] == hs[i];
    forall h | h in HandlesAt(hs, ks) ensures h in HandlesAt(hs, ks') {
      var j :| 0 <= j < |ks| && hs[ks[j]] == h;
      assert hs[ks'[j]] == h;
    }
  }

  lemma StillThere(s: State, hs: seq<Handle>, index: map<Handle, nat>, ks: seq<nat>, k: nat)
    requires Inverse(hs, index) && s.subs.Keys == index.Keys && Descending(ks, |hs|) && k < |ks|
    ensures hs[ks[k]] in s.subs && hs[ks[k]] !in HandlesAt(hs, ks[..k])
    ensures HandlesAt(hs, ks[..k + 1]) == HandlesAt(hs, ks[..k]) + {hs[ks[k]]}
  {
    assert ks[..k + 1] == ks[..k] + [ks[k]];
    ListMore(hs, ks[..k], ks[k]);
    forall j | 0 <= j < k ensures hs[ks[..k][j]] != hs[ks[k]] {
      assert index[hs[ks[j]]] == ks[j] && index[hs[ks[k]]] == ks[k];
    }
  }

  lemma EndAllOthers(s: State, hs: set<Handle>, fate: Fate)
    requires hs <= s.subs.Keys
    ensures EndAll(s, hs, fate).control == s.control
    ensures !fate.Pruned? ==> EndAll(s, hs, fate).closes == s.closes
  {
  }

  class HandleWatcherThreadState {
    const control: Handle
    var handles: seq<Handle>
    var signals: seq<Signals>
    var states: seq<Signals>
    var ports: seq<Port>
    var index: map<Handle, nat>
    const timers: TimerQueue
    var shutdown: bool
    ghost var fates: multiset<Entry>
    ghost var posts: multiset<Post>
    ghost var closes: multiset<Handle>

    /** The vectors have one length, the map is the exact inverse of the handle vector, and the control handle comes
        first. */
    ghost predicate Valid()
      reads this
    {
      && |handles| == |signals| == |states| == |ports|
      && |handles| >= 1 && handles[0] == control
      && Inverse(handles, index)
    }

    ghost function Subs(): map<Handle, Subscription>
      requires Valid()
      reads this
    {
      Rows(handles, signals, states, ports, index)
    }

    ghost function Abstract(): State
      requires Valid()
      reads this
    {
      State(control, Subs(), fates, posts, closes)
    }

    constructor (control: Handle)
      ensures Valid() && Abstract() == Start(control) && !shutdown
      ensures fresh(timers) && timers.Valid() && timers.View() == map[]
    {
      this.control := control;
      timers := new TimerQueue();
      shutdown := false;
      handles, signals, states, ports := [control], [READABLE], [NO_SIGNALS], [ILLEGAL_PORT];
      index := map[control := 0];
      fates := multiset{Entry(control, ILLEGAL_PORT, Accepted)};
      posts, closes := multiset{}, multiset{};
    }

    method PostNull(port: Port)
      modifies this`posts
      ensures posts == old(posts) + NullPost(port)
    {
      if port == ILLEGAL_PORT { return; }
      posts := posts + multiset{Null(port)};
    }

    method PostSignal(port: Port, signalled: Signals, ghost about: Handle)
      modifies this`posts
      ensures posts == old(posts) + SignalPost(about, port, signalled)
    {
      if port == ILLEGAL_PORT { return; }
      posts := posts + multiset{Signal(about, port, signalled)};
    }

    method AddHandle(handle: Handle, newSignals: Signals, port: Port)
      requires Valid()
      modifies this
      ensures Valid() && Abstract() == Add(old(Abstract()), handle, newSignals, port)
      ensures shutdown == old(shutdown)
    {
      hide Inverse, Rows, SignalPost, Both;
      if handle in index {
        var i := index[handle];
        IndexAt(handles, index, handle);
        RowAt(handles, signals, states, ports, index, i);
        if ports[i] != port {
          PostSignal(port, PEER_CLOSED, handle);
          fates := fates + multiset{Entry(handle, port, Refused)};
          return;
        }
        ChangeRow(handles, signals, states, ports, index, i, Both(signals[i], newSignals));
        signals := signals[i := Both(signals[i], newSignals)];
      } else {
        AddRow(handles, signals, states, ports, index, handle, newSignals, NO_SIGNALS, port);
        index := index[handle := |handles|];
        handles := handles + [handle];
        signals := signals + [newSignals];
        states := states + [NO_SIGNALS];
        ports := ports + [port];
        fates := fates + multiset{Entry(handle, port, Accepted)};
      }
    }

    /** Moves the last entry into the freed place. Entries before the place do not move. */
    method RemoveHandleAtIndex(i: nat, ghost fate: Fate)
      requires Valid() && 0 < i < |handles|
      modifies this`handles, this`signals, this`states, this`ports, this`index, this`fates
      ensures Valid() && Abstract() == End(old(Abstract()), old(handles[i]), fate)
      ensures |handles| == |old(handles)| - 1
      ensures handles[..i] == old(handles[..i]) && signals[..i] == old(signals[..i])
      ensures states[..i] == old(states[..i]) && ports[..i] == old(ports[..i])
    {
      hide Inverse, Rows, Drop, DropIndex;
      DropRow(handles, signals, states, ports, index, i);
      RowAt(handles, signals, states, ports, index, i);
      DropFirst(handles, i);
      fates := fates + multiset{Entry(handles[i], ports[i], fate)};
      index := DropIndex(handles, index, i);
      handles, signals, states, ports := Drop(handles, i), Drop(signals, i), Drop(states, i), Drop(ports, i);
    }

    /** False when it is the control handle: the check that guards it fails. */
    method RemoveHandle(handle: Handle, ghost fate: Fate) returns (ok: bool)
      requires Valid()
      modifies this`handles, this`signals, this`states, this`ports, this`index, this`fates
      ensures Valid() && (ok <==> handle != control)
      ensures ok ==> Abstract() == if handle in old(index) then End(old(Abstract()), handle, fate) else old(Abstract())
    {
      hide Inverse, Rows, End;
      IndexAt(handles, index, control);
      if handle !in index { return true; }
      IndexAt(handles, index, handle);
      var i := index[handle];
      if i == 0 { return false; }
      RemoveHandleAtIndex(i, fate);
      return true;
    }

    method CloseHandle(handle: Handle, port: Port, pruning: bool) returns (ok: bool)
      requires Valid() && (pruning ==> port == ILLEGAL_PORT && handle in index)
      modifies this
      ensures Valid() && (ok <==> handle != control) && shutdown == old(shutdown)
      ensures !pruning ==> if ok then Some(Abstract()) == Close(old(Abstract()), handle, port)
                           else Close(old(Abstract()), handle, port) == None
      ensures ok && pruning ==> Abstract() == EndOne(old(Abstract()), handle, Pruned)
    {
      hide Inverse, Rows, NullPost, SignalPost, End, EndOne;
      IndexAt(handles, index, control);
      closes := closes + multiset{handle};
      if port != ILLEGAL_PORT { PostNull(port); }
      NoPost();
      ghost var s := old(Abstract());
      ghost var t := s.(closes := s.closes + multiset{handle}, posts := s.posts + NullPost(port));
      assert Abstract() == t;
      if handle !in index { return true; }
      IndexAt(handles, index, handle);
      var i := index[handle];
      if i == 0 { return false; }
      RowAt(handles, signals, states, ports, index, i);
      if pruning {
        PrunedEnd(s, handle);
        PostSignal(ports[i], PEER_CLOSED, handle);
      }
      ok := RemoveHandle(handle, if pruning then Pruned else Closed);
    }

    /** The wait system call writes the signals it saw, handle by handle. */
    method WaitMany(seen: seq<Signals>)
      requires Valid() && |seen| == |handles|
      modifies this`states
      ensures Valid() && states == seen
      ensures Abstract() == Observe(old(Abstract()), map h | h in index :: seen[index[h]])
    {
      states := seen;
    }

    /** Removes, closes and reports every handle whose peer is gone: by the signals last seen, or, if those are
        meaningless, by asking about each handle (`dead` holds the handles for which the answer is that it is gone). */
    method PruneClosedHandles(signalsStateIsValid: bool, dead: set<Handle>) returns (ok: bool)
      requires Valid()
      modifies this
      ensures Valid() && shutdown == old(shutdown)
      ensures var next := Prune(old(Abstract()), Gone(old(Abstract()), signalsStateIsValid, dead));
              if ok then next == Some(Abstract()) else next == None
    {
      hide Inverse, Rows, Select, Elements, Prune, Has;
      ghost var gone := Gone(Abstract(), signalsStateIsValid, dead);
      var closedHandles := ClosedHandles(signalsStateIsValid, dead);
      SelectAll(handles, index, gone);
      ok := CloseAll(closedHandles, gone);
    }

    method ClosedHandles(signalsStateIsValid: bool, dead: set<Handle>) returns (closedHandles: seq<Handle>)
      requires Valid()
      ensures closedHandles == Select(handles, Gone(Abstract(), signalsStateIsValid, dead))
    {
      hide Inverse, Rows, Select, Has;
      ghost var gone := Gone(Abstract(), signalsStateIsValid, dead);
      closedHandles := [];
      NothingSelected(gone);
      for i := 0 to |handles|
        invariant closedHandles == Select(handles[..i], gone)
      {
        RowAt(handles, signals, states, ports, index, i);
        SelectMore(handles, i, gone);
        if signalsStateIsValid {
          if Has(states[i], PEER_CLOSED) { closedHandles := closedHandles + [handles[i]]; }
        } else if handles[i] != 0 && handles[i] in dead {
          closedHandles := closedHandles + [handles[i]];
        }
      }
      assert handles[..|handles|] == handles;
    }

    /** Prunes the listed handles one after the other, up to one that trips the check. */
    method CloseAll(closedHandles: seq<Handle>, ghost gone: set<Handle>) returns (ok: bool)
      requires Valid() && gone <= index.Keys && Lists(closedHandles, gone, control)
      modifies this
      ensures Valid() && shutdown == old(shutdown)
      ensures var next := Prune(old(Abstract()), gone);
              if ok then next == Some(Abstract()) else next == None
    {
      hide Inverse, Rows, EndAll, EndOne;
      ghost var s := Abstract();
      ghost var done: set<Handle> := {};
      EndAllNone(s, Pruned);
      for i := 0 to |closedHandles|
        invariant Valid() && control !in done && done <= s.subs.Keys && shutdown == old(shutdown)
        invariant done == Elements(closedHandles[..i])
        invariant Abstract() == EndAll(s, done, Pruned)
      {
        var handle := closedHandles[i];
        EndAllMore(s, done, handle, Pruned);
        EndAllOthers(s, done, Pruned);
        assert Elements(closedHandles[..i + 1]) == done + {handle};
        ok := CloseHandle(handle, ILLEGAL_PORT, true);
        if !ok { return false; }
        done := done + {handle};
      }
      assert closedHandles[..|closedHandles|] == closedHandles;
      return true;
    }

    /** Posts to the port of each handle that has fired, from the last index down, and lists the indices. */
    method NotifyFired() returns (toRemove: seq<nat>)
      requires Valid()
      modifies this`posts
      ensures Valid() && Abstract() == old(Abstract()).(posts := Fire(old(Abstract())).posts)
      ensures Descending(toRemove, |handles|)
      ensures HandlesAt(handles, toRemove) == Fired(old(Abstract()))
    {
      hide Inverse, Rows, EndAll, Met, SignalPost, Told;
      ghost var s := Abstract();
      ghost var done: set<Handle> := {};
      toRemove := [];
      EndAllNone(s, Signalled);
      for i := |handles| downto 1
        invariant Descending(toRemove, |handles|) && (toRemove != [] ==> i <= toRemove[|toRemove| - 1])
        invariant done == HandlesAt(handles, toRemove) == FiredFrom(s, handles, i)
        invariant done <= s.subs.Keys
        invariant posts == EndAll(s, done, Signalled).posts
      {
        RowAt(handles, signals, states, ports, index, i);
        FiredMore(s, handles, index, i);
        ToldMet(s.subs[handles[i]]);
        var satisfied := Met(Subscription(signals[i], states[i], ports[i]));
        if satisfied != 0 {
          EndAllMore(s, done, handles[i], Signalled);
          PostSignal(ports[i], satisfied, handles[i]);
          ListMore(handles, toRemove, i);
          toRemove := toRemove + [i];
          done := done + {handles[i]};
        }
      }
      FiredFromOne(s, handles, index);
    }

    /** Removes the listed indices; because they descend, each still holds its handle when its turn comes. */
    method RemoveFired(toRemove: seq<nat>)
      requires Valid() && Descending(toRemove, |handles|)
      modifies this`handles, this`signals, this`states, this`ports, this`index, this`fates
      ensures Valid()
      ensures HandlesAt(old(handles), toRemove) <= old(Abstract()).subs.Keys
      ensures Abstract() == EndAll(old(Abstract()), HandlesAt(old(handles), toRemove), Signalled)
                            .(posts := old(posts))
    {
      hide Inverse, Rows, EndAll;
      ghost var s, hs := Abstract(), handles;
      ghost var done: set<Handle> := {};
      ghost var bound: nat := |handles|;
      EndAllNone(s, Signalled);
      for k := 0 to |toRemove|
        invariant Valid() && bound <= |handles| && bound <= |hs| && handles[..bound] == hs[..bound]
        invariant k < |toRemove| ==> toRemove[k] < bound
        invariant done == HandlesAt(hs, toRemove[..k]) && done <= s.subs.Keys
        invariant Abstract() == EndAll(s, done, Signalled).(posts := s.posts)
      {
        var i := toRemove[k];
        assert handles[i] == handles[..bound][i] == hs[i];
        StillThere(s, hs, old(index), toRemove, k);
        EndAllMore(s, done, hs[i], Signalled);
        EndAllOthers(s, done, Signalled);
        EndAllOthers(s, done + {hs[i]}, Signalled);
        RemoveHandleAtIndex(i, Signalled);
        assert handles[..i] == hs[..bound][..i] == hs[..i];
        bound := i;
        done := done + {hs[i]};
      }
      assert toRemove[..|toRemove|] == toRemove;
    }

    /** Carries out one command; ok is false when it trips a check. */
    method ProcessControlMessage(command: Command) returns (ok: bool)
      requires Valid() && timers.Valid()
      modifies this, timers
      ensures Valid() && timers.Valid()
      ensures var next := Obey(old(Abstract()), command);
              if ok then next == Some(Abstract()) else next == None
      ensures shutdown == (old(shutdown) || command.CommandShutdown?)
      ensures timers.View() == NewTimers(old(timers.View()), command) && timers.told == old(timers.told)
    {
      hide Inverse, Rows, Add, End, SetTimer, Ordered, OnePerPort, ByPort, NullPost;
      ok := true;
      match command
      case CommandAddHandle(handle, newSignals, port) => AddHandle(handle, newSignals, port);
      case CommandRemoveHandle(handle) =>
        ok := RemoveHandle(handle, Removed);
        IndexAt(handles, index, control);
        IndexAt(old(handles), old(index), control);
      case CommandCloseHandle(handle, port) => ok := CloseHandle(handle, port, false);
      case CommandAddTimer(deadline, port) => timers.UpdateTimer(deadline, port);
      case CommandShutdown => shutdown := true;
    }

    /** What follows a wait: pruning if it failed; otherwise the fired handles are told and removed, and then, if the
        control handle is ready, one command is carried out. */
    method ProcessWaitManyResults(result: WaitResult, dead: set<Handle>, command: Command) returns (ok: bool)
      requires Valid() && timers.Valid()
      modifies this, timers
      ensures Valid() && timers.Valid()
      ensures var next := AfterWait(old(Abstract()), result, dead, command);
              if ok then next == Some(Abstract()) else next == None
      ensures var obeys := result.OK? && ControlReady(old(Abstract()));
              && shutdown == (old(shutdown) || (obeys && command.CommandShutdown?))
              && timers.View() == (if obeys then NewTimers(old(timers.View()), command) else old(timers.View()))
              && timers.told == old(timers.told)
    {
      hide Inverse, Rows, Obey, Prune, Gone, EndAll, Met, NewTimers, Ordered, OnePerPort, ByPort;
      IndexAt(handles, index, control);
      ControlStays(Abstract());
      if result.DEADLINE_EXCEEDED? { return false; }
      if !result.OK? {
        ok := PruneClosedHandles(!result.INVALID_ARGUMENT?, dead);
        return;
      }
      ghost var s := Abstract();
      var toRemove := NotifyFired();
      EndAllKeepsPosts(s, s.(posts := Fire(s).posts), HandlesAt(handles, toRemove));
      RemoveFired(toRemove);
      IndexAt(handles, index, control);
      RowAt(handles, signals, states, ports, index, 0);
      if Met(Subscription(signals[0], states[0], ports[0])) != 0 {
        ok := ProcessControlMessage(command);
      } else {
        ok := true;
      }
    }

    /** Turns of the loop until a command shuts it down; ok is false when one of them trips a check. */
    method Run(turns: seq<Turn>) returns (ok: bool)
      requires Valid() && timers.Valid() && !shutdown
      modifies this, timers
      ensures Valid() && timers.Valid()
      ensures var next := AfterTurns(old(Abstract()), turns);
              if ok then next == Some(Abstract()) else next == None
      ensures ok ==> timers.Clock() == TimersAfterTurns(old(Abstract()), old(timers.Clock()), turns)
    {
      hide Inverse, Rows, AfterTurn, Stops, Ordered, OnePerPort, TimersAfterTurn, ByPort;
      var k := 0;
      assert turns[0..] == turns;
      while k < |turns| && !shutdown
        invariant k <= |turns| && Valid() && timers.Valid()
        invariant AfterTurns(old(Abstract()), turns)
               == if shutdown then Some(Abstract()) else AfterTurns(Abstract(), turns[k..])
        invariant TimersAfterTurns(old(Abstract()), old(timers.Clock()), turns)
               == if shutdown then timers.Clock() else TimersAfterTurns(Abstract(), timers.Clock(), turns[k..])
      {
        assert turns[k..][0] == turns[k] && turns[k..][1..] == turns[k + 1..];
        ok := OneTurn(turns[k]);
        if !ok { return false; }
        k := k + 1;
      }
      return true;
    }

    method OneTurn(turn: Turn) returns (ok: bool)
      requires Valid() && timers.Valid() && !shutdown
      modifies this, timers
      ensures Valid() && timers.Valid()
      ensures ok ==> shutdown == Stops(old(Abstract()), turn)
      ensures var next := AfterTurn(old(Abstract()), turn);
              if ok then next == Some(Abstract()) else next == None
      ensures ok ==> timers.Clock() == TimersAfterTurn(old(Abstract()), old(timers.Clock()), turn)
    {
      hide Inverse, Rows, Obey, Prune, Gone, Fire, Met, NewTimers, Ordered, OnePerPort, ByPort, Observe, Elapse;
      IndexAt(handles, index, control);
      var _ := timers.ProcessTimers(turn.clock);
      var seen := SeenAt(handles, turn.seen);
      SeenRows(handles, index, turn.seen, Abstract());
      WaitMany(seen);
      if turn.result.DEADLINE_EXCEEDED? { return true; }
      ok := ProcessWaitManyResults(turn.result, turn.dead, turn.command);
    }
  }
}
