/** The Dart handle watcher as a machine over a plain map from handles to subscriptions. */
module WatcherSpec {
  import opened Timers

  type Handle = nat
  type Signals = bv32

  const NO_SIGNALS: Signals := 0
  const READABLE: Signals := 1
  const PEER_CLOSED: Signals := 4

  /** What is watched for on a handle, what the last wait saw there, and whom to tell. */
  datatype Subscription = Subscription(signals: Signals, state: Signals, port: Port)

  /** How a subscription begins, the four ways it can end, and that it was refused in the first place. */
  datatype Fate = Accepted | Signalled | Pruned | Removed | Closed | Refused
  datatype Entry = Entry(handle: Handle, port: Port, fate: Fate)

  /** A message to a port; a signal post records the handle it is about. */
  datatype Post = Null(port: Port) | Signal(handle: Handle, port: Port, signals: Signals)

  datatype State = State(control: Handle, subs: map<Handle, Subscription>,
                         fates: multiset<Entry>, posts: multiset<Post>, closes: multiset<Handle>)

  /** None stands for a tripped MOJO_CHECK, which ends the process. */
  datatype Next = None | Some(state: State)

  function Both(a: Signals, b: Signals): Signals { a | b }

  function Shared(a: Signals, b: Signals): Signals { a & b }

  function NullPost(port: Port): multiset<Post> {
    if port == ILLEGAL_PORT then multiset{} else multiset{Null(port)}
  }

  function SignalPost(h: Handle, port: Port, signals: Signals): multiset<Post> {
    if port == ILLEGAL_PORT then multiset{} else multiset{Signal(h, port, signals)}
  }

  function Start(control: Handle): State {
    State(control, map[control := Subscription(READABLE, NO_SIGNALS, ILLEGAL_PORT)],
          multiset{Entry(control, ILLEGAL_PORT, Accepted)}, multiset{}, multiset{})
  }

  function Add(s: State, h: Handle, signals: Signals, port: Port): State {
    if h in s.subs then
      var sub := s.subs[h];
      if sub.port != port then
        s.(posts := s.posts + SignalPost(h, port, PEER_CLOSED), fates := s.fates + multiset{Entry(h, port, Refused)})
      else s.(subs := s.subs[h := sub.(signals := Both(sub.signals, signals))])
    else
      s.(subs := s.subs[h := Subscription(signals, NO_SIGNALS, port)],
         fates := s.fates + multiset{Entry(h, port, Accepted)})
  }

  function End(s: State, h: Handle, fate: Fate): State
    requires h in s.subs
  {
    s.(subs := s.subs - {h}, fates := s.fates + multiset{Entry(h, s.subs[h].port, fate)})
  }

  function Remove(s: State, h: Handle): Next {
    if h !in s.subs then Some(s)
    else if h == s.control then None
    else Some(End(s, h, Removed))
  }

  function Close(s: State, h: Handle, port: Port): Next {
    var told := s.(closes := s.closes + multiset{h}, posts := s.posts + NullPost(port));
    if h !in s.subs then Some(told)
    else if h == s.control then None
    else Some(End(told, h, Closed))
  }

  /** The wait writes what it saw on every watched handle. */
  function Observe(s: State, seen: map<Handle, Signals>): State
    requires s.subs.Keys <= seen.Keys
  {
    s.(subs := map h | h in s.subs :: s.subs[h].(state := seen[h]))
  }

  function Legal(s: State, hs: set<Handle>): set<Handle> {
    set h | h in hs && h in s.subs && s.subs[h].port != ILLEGAL_PORT
  }

  /** The signals asked for and met. */
  function Met(sub: Subscription): Signals { Shared(sub.state, sub.signals) }

  /** What the port is told when a subscription ends: the signals met, or that the peer is gone. */
  function Told(sub: Subscription, fate: Fate): Signals {
    if fate.Signalled? then Met(sub) else PEER_CLOSED
  }

  /** Pruned handles are closed. */
  function ToClose(hs: set<Handle>, fate: Fate): multiset<Handle> {
    if fate.Pruned? then multiset(hs) else multiset{}
  }

  function Endings(s: State, hs: set<Handle>, fate: Fate): multiset<Entry>
    requires hs <= s.subs.Keys
  {
    multiset(set h | h in hs :: Entry(h, s.subs[h].port, fate))
  }

  function EndPosts(s: State, hs: set<Handle>, fate: Fate): multiset<Post>
    requires hs <= s.subs.Keys
  {
    multiset(set h | h in Legal(s, hs) :: Signal(h, s.subs[h].port, Told(s.subs[h], fate)))
  }

  /** Ends the subscriptions hs together, each with one post to its port. */
  function EndAll(s: State, hs: set<Handle>, fate: Fate): State
    requires hs <= s.subs.Keys
  {
    s.(subs := s.subs - hs,
       fates := s.fates + Endings(s, hs, fate),
       posts := s.posts + EndPosts(s, hs, fate),
       closes := s.closes + ToClose(hs, fate))
  }

  /** Ends one subscription with one post to its port. */
  function EndOne(s: State, h: Handle, fate: Fate): State
    requires h in s.subs
  {
    var sub := s.subs[h];
    End(s.(posts := s.posts + SignalPost(h, sub.port, Told(sub, fate)), closes := s.closes + ToClose({h}, fate)), h, fate)
  }

  /** The handles, apart from the control handle, on which something happened that was asked for. */
  function Fired(s: State): set<Handle> {
    set h | h in s.subs && h != s.control && Met(s.subs[h]) != 0
  }

  function Fire(s: State): State {
    EndAll(s, Fired(s), Signalled)
  }

  function Prune(s: State, gone: set<Handle>): Next
    requires gone <= s.subs.Keys
  {
    if s.control in gone then None
    else Some(EndAll(s, gone, Pruned))
  }

  /** Ending one more subscription. */
  lemma EndAllMore(s: State, hs: set<Handle>, h: Handle, fate: Fate)
    requires hs <= s.subs.Keys && h in s.subs && h !in hs
    ensures var t := EndAll(s, hs, fate);
            h in t.subs && t.subs[h] == s.subs[h] && EndAll(s, hs + {h}, fate) == EndOne(t, h, fate)
  {
    hide Told, SignalPost, Endings, EndPosts, ToClose;
    OneMoreEntry(s, hs, h, fate);
    OneMorePost(s, hs, h, fate);
    OneMoreClose(hs, h, fate);
    assert s.subs - (hs + {h}) == s.subs - hs - {h};
  }

  lemma OneMoreClose(hs: set<Handle>, h: Handle, fate: Fate)
    requires h !in hs
    ensures ToClose(hs + {h}, fate) == ToClose(hs, fate) + ToClose({h}, fate)
  {
    assert multiset(hs + {h}) == multiset(hs) + multiset{h};
  }

  lemma OneMoreEntry(s: State, hs: set<Handle>, h: Handle, fate: Fate)
    requires hs <= s.subs.Keys && h in s.subs && h !in hs
    ensures Endings(s, hs + {h}, fate) == Endings(s, hs, fate) + multiset{Entry(h, s.subs[h].port, fate)}
  {
    var entries := set k | k in hs :: Entry(k, s.subs[k].port, fate);
    var entry := Entry(h, s.subs[h].port, fate);
    assert entry !in entries;
    assert (set k | k in hs + {h} :: Entry(k, s.subs[k].port, fate)) == entries + {entry};
    assert multiset(entries + {entry}) == multiset(entries) + multiset{entry};
  }

  lemma OneMorePost(s: State, hs: set<Handle>, h: Handle, fate: Fate)
    requires hs <= s.subs.Keys && h in s.subs && h !in hs
    ensures EndPosts(s, hs + {h}, fate)
         == EndPosts(s, hs, fate) + SignalPost(h, s.subs[h].port, Told(s.subs[h], fate))
  {
    hide Told;
    var posts := set k | k in Legal(s, hs) :: Signal(k, s.subs[k].port, Told(s.subs[k], fate));
    var post := Signal(h, s.subs[h].port, Told(s.subs[h], fate));
    if s.subs[h].port == ILLEGAL_PORT {
      assert Legal(s, hs + {h}) == Legal(s, hs);
    } else {
      assert Legal(s, hs + {h}) == Legal(s, hs) + {h};
      assert post !in posts;
      assert (set k | k in Legal(s, hs + {h}) :: Signal(k, s.subs[k].port, Told(s.subs[k], fate))) == posts + {post};
      assert multiset(posts + {post}) == multiset(posts) + multiset{post};
    }
  }

  lemma EndAllNone(s: State, fate: Fate)
    ensures EndAll(s, {}, fate) == s
  {
    assert s.subs - {} == s.subs;
  }

  // ---- runs ----

  datatype Action =
    | AddHandle(handle: Handle, signals: Signals, port: Port)
    | RemoveHandle(handle: Handle)
    | CloseHandle(handle: Handle, port: Port)
    | Wait(seen: map<Handle, Signals>)
    | FireAll
    | PruneAll(gone: set<Handle>)

  /** A prune can only concern handles that are watched, and a wait reports on all of them. */
  predicate Enabled(s: State, a: Action) {
    match a
    case Wait(seen) => s.subs.Keys <= seen.Keys
    case PruneAll(gone) => gone <= s.subs.Keys
    case _ => true
  }

  function Step(s: State, a: Action): Next
    requires Enabled(s, a)
  {
    match a
    case AddHandle(h, signals, port) => Some(Add(s, h, signals, port))
    case RemoveHandle(h) => Remove(s, h)
    case CloseHandle(h, port) => Close(s, h, port)
    case Wait(seen) => Some(Observe(s, seen))
    case FireAll => Some(Fire(s))
    case PruneAll(gone) => Prune(s, gone)
  }

  /** s is reached from the start by these actions, none of which trips a check. */
  ghost predicate Reaches(control: Handle, actions: seq<Action>, s: State) {
    if actions == [] then s == Start(control)
    else
      var before, last := actions[..|actions| - 1], actions[|actions| - 1];
      exists r: State :: Reaches(control, before, r) && Enabled(r, last) && Step(r, last) == Some(s)
  }

  function Count(s: State, h: Handle, port: Port, fate: Fate): nat { s.fates[Entry(h, port, fate)] }

  function Live(s: State, h: Handle, port: Port): nat {
    if h in s.subs && s.subs[h].port == port then 1 else 0
  }

  function Ended(s: State, h: Handle, port: Port): nat {
    Count(s, h, port, Signalled) + Count(s, h, port, Pruned) + Count(s, h, port, Removed) + Count(s, h, port, Closed)
  }

  // ---- counting ----

  ghost function Pick<T(!new)>(m: multiset<T>): (x: T)
    requires m != multiset{}
    ensures x in m
  {
    var x :| x in m;
    x
  }

  /** How many elements satisfy p. */
  ghost function Tally<T(!new)>(m: multiset<T>, p: T -> bool): nat
    decreases |m|
  {
    if m == multiset{} then 0
    else
      var x := Pick(m);
      Tally(m - multiset{x}, p) + (if p(x) then 1 else 0)
  }

  lemma {:induction false} TallyMore<T(!new)>(m: multiset<T>, x: T, p: T -> bool)
    ensures Tally(m + multiset{x}, p) == Tally(m, p) + (if p(x) then 1 else 0)
    decreases |m|
  {
    var more := m + multiset{x};
    var y := Pick(more);
    if y == x {
      assert more - multiset{y} == m;
    } else {
      var rest := m - multiset{y};
      assert more - multiset{y} == rest + multiset{x};
      assert rest + multiset{y} == m;
      TallyMore(rest, x, p);
      TallyMore(rest, y, p);
    }
  }

  ghost function SignalTo(h: Handle, port: Port): Post -> bool {
    (p: Post) => p.Signal? && p.handle == h && p.port == port
  }

  ghost function PruningOf(h: Handle): Entry -> bool {
    (e: Entry) => e.handle == h && e.fate == Pruned
  }

  /** How often a handle was asked to be closed, and how often a port was to be told of a closing. */
  function CloseCommands(actions: seq<Action>, h: Handle): nat {
    if actions == [] then 0
    else
      var last := actions[|actions| - 1];
      CloseCommands(actions[..|actions| - 1], h) + (if last.CloseHandle? && last.handle == h then 1 else 0)
  }

  function CloseNotices(actions: seq<Action>, port: Port): nat {
    if actions == [] then 0
    else
      var last := actions[|actions| - 1];
      CloseNotices(actions[..|actions| - 1], port) + (if last.CloseHandle? && last.port == port then 1 else 0)
  }

  // ---- the books ----

  /** Every accepted subscription is still live or has ended in exactly one way, and the control handle stays. */
  ghost predicate Balanced(s: State) {
    && s.control in s.subs
    && forall h, port :: Count(s, h, port, Accepted) == Live(s, h, port) + Ended(s, h, port)
  }

  /** A port was sent one signal about a handle for each subscription that was signalled, pruned or refused. */
  ghost predicate SignalsMatch(s: State) {
    forall h, port :: Tally(s.posts, SignalTo(h, port)) == Due(s, h, port)
  }

  function Due(s: State, h: Handle, port: Port): nat {
    if port == ILLEGAL_PORT then 0
    else Count(s, h, port, Signalled) + Count(s, h, port, Pruned) + Count(s, h, port, Refused)
  }

  /** A handle was closed once for each time it was pruned and for each command to close it, and a port was told of a
      closing once for each such command. */
  ghost predicate ClosesMatch(actions: seq<Action>, s: State) {
    && (forall h :: s.closes[h] == Tally(s.fates, PruningOf(h)) + CloseCommands(actions, h))
    && (forall port :: s.posts[Null(port)] == if port == ILLEGAL_PORT then 0 else CloseNotices(actions, port))
  }

  ghost predicate Books(actions: seq<Action>, s: State) {
    Balanced(s) && SignalsMatch(s) && ClosesMatch(actions, s)
  }

  lemma SignalTally(posts: multiset<Post>, h: Handle, port: Port, signals: Signals)
    ensures forall h', port' :: Tally(posts + SignalPost(h, port, signals), SignalTo(h', port'))
                             == Tally(posts, SignalTo(h', port'))
                              + (if port != ILLEGAL_PORT && h' == h && port' == port then 1 else 0)
  {
    forall h', port' ensures Tally(posts + SignalPost(h, port, signals), SignalTo(h', port'))
                          == Tally(posts, SignalTo(h', port'))
                           + (if port != ILLEGAL_PORT && h' == h && port' == port then 1 else 0)
    {
      hide Tally;
      if port == ILLEGAL_PORT {
        assert posts + multiset{} == posts;
      } else {
        TallyMore(posts, Signal(h, port, signals), SignalTo(h', port'));
      }
    }
  }

  lemma NullTally(posts: multiset<Post>, port: Port)
    ensures forall h', port' :: Tally(posts + NullPost(port), SignalTo(h', port')) == Tally(posts, SignalTo(h', port'))
  {
    forall h', port' ensures Tally(posts + NullPost(port), SignalTo(h', port')) == Tally(posts, SignalTo(h', port')) {
      hide Tally;
      if port == ILLEGAL_PORT {
        assert posts + multiset{} == posts;
      } else {
        TallyMore(posts, Null(port), SignalTo(h', port'));
      }
    }
  }

  lemma FateTally(fates: multiset<Entry>, e: Entry)
    ensures forall h :: Tally(fates + multiset{e}, PruningOf(h))
                     == Tally(fates, PruningOf(h)) + (if e.fate == Pruned && e.handle == h then 1 else 0)
  {
    forall h ensures Tally(fates + multiset{e}, PruningOf(h))
                  == Tally(fates, PruningOf(h)) + (if e.fate == Pruned && e.handle == h then 1 else 0)
    {
      hide Tally;
      TallyMore(fates, e, PruningOf(h));
    }
  }

  lemma EndKeepsBalance(s: State, h: Handle, fate: Fate)
    requires Balanced(s) && h in s.subs && h != s.control && !fate.Accepted? && !fate.Refused?
    ensures Balanced(End(s, h, fate))
  {
    var t := End(s, h, fate);
    forall h', port
      ensures Count(t, h', port, Accepted) == Live(t, h', port) + Ended(t, h', port)
    {
      assert Count(s, h', port, Accepted) == Live(s, h', port) + Ended(s, h', port);
    }
  }

  lemma EndOneKeeps(actions: seq<Action>, s: State, h: Handle, fate: Fate)
    requires Books(actions, s) && h in s.subs && h != s.control && (fate.Signalled? || fate.Pruned?)
    ensures Books(actions, EndOne(s, h, fate))
  {
    hide Tally, SignalTo, PruningOf, Told;
    var sub, t := s.subs[h], EndOne(s, h, fate);
    assert Balanced(t) by {
      var u := s.(posts := t.posts, closes := t.closes);
      SameBooks(s, u);
      EndKeepsBalance(u, h, fate);
    }
    SignalTally(s.posts, h, sub.port, Told(sub, fate));
    FateTally(s.fates, Entry(h, sub.port, fate));
    DueMore(s, t, Entry(h, sub.port, fate));
  }

  lemma DueMore(s: State, t: State, e: Entry)
    requires t.fates == s.fates + multiset{e}
    ensures forall h, port :: Due(t, h, port)
                           == Due(s, h, port) + (if port != ILLEGAL_PORT && h == e.handle && port == e.port
                                                    && (e.fate.Signalled? || e.fate.Pruned? || e.fate.Refused?)
                                                 then 1 else 0)
  {
  }

  lemma {:induction false} EndAllKeeps(actions: seq<Action>, s: State, hs: set<Handle>, fate: Fate)
    requires Books(actions, s) && hs <= s.subs.Keys && s.control !in hs && (fate.Signalled? || fate.Pruned?)
    ensures Books(actions, EndAll(s, hs, fate))
  {
    hide Books, EndOne;
    if hs == {} {
      EndAllNone(s, fate);
    } else {
      var h :| h in hs;
      EndAllKeeps(actions, s, hs - {h}, fate);
      EndAllMore(s, hs - {h}, h, fate);
      assert hs - {h} + {h} == hs;
      EndOneKeeps(actions, EndAll(s, hs - {h}, fate), h, fate);
    }
  }

  lemma AddKeepsBalance(s: State, h: Handle, signals: Signals, port: Port)
    requires Balanced(s)
    ensures Balanced(Add(s, h, signals, port))
  {
    hide SignalPost, Both;
    var t := Add(s, h, signals, port);
    assert h in s.subs ==> t.fates == s.fates || t.fates == s.fates + multiset{Entry(h, port, Refused)};
    forall h', port' ensures Count(t, h', port', Accepted) == Live(t, h', port') + Ended(t, h', port') {
      assert Count(s, h', port', Accepted) == Live(s, h', port') + Ended(s, h', port');
    }
  }

  lemma AddKeeps(actions: seq<Action>, s: State, h: Handle, signals: Signals, port: Port)
    requires Books(actions, s)
    ensures Books(actions, Add(s, h, signals, port))
  {
    hide Tally, SignalTo, PruningOf, Balanced, Due, Both;
    AddKeepsBalance(s, h, signals, port);
    var t := Add(s, h, signals, port);
    if h !in s.subs {
      FateTally(s.fates, Entry(h, port, Accepted));
      DueMore(s, t, Entry(h, port, Accepted));
    } else if s.subs[h].port != port {
      SignalTally(s.posts, h, port, PEER_CLOSED);
      FateTally(s.fates, Entry(h, port, Refused));
      DueMore(s, t, Entry(h, port, Refused));
    } else {
      SameDue(s, t);
    }
  }

  lemma SameDue(s: State, t: State)
    requires t.fates == s.fates
    ensures forall h, port :: Due(t, h, port) == Due(s, h, port)
  {
  }

  lemma ObserveKeeps(actions: seq<Action>, s: State, seen: map<Handle, Signals>)
    requires Books(actions, s) && s.subs.Keys <= seen.Keys
    ensures Books(actions, Observe(s, seen))
  {
    var t := Observe(s, seen);
    forall h, port ensures Count(t, h, port, Accepted) == Live(t, h, port) + Ended(t, h, port) {
      assert Count(s, h, port, Accepted) == Live(s, h, port) + Ended(s, h, port);
    }
    SameDue(s, t);
  }

  lemma EndKeeps(actions: seq<Action>, s: State, h: Handle, fate: Fate)
    requires Books(actions, s) && h in s.subs && h != s.control && (fate.Removed? || fate.Closed?)
    ensures Books(actions, End(s, h, fate))
  {
    hide Tally, SignalTo, PruningOf;
    EndKeepsBalance(s, h, fate);
    FateTally(s.fates, Entry(h, s.subs[h].port, fate));
    DueMore(s, End(s, h, fate), Entry(h, s.subs[h].port, fate));
  }

  /** A command to close a handle closes it and tells the port. */
  lemma CommandKeeps(before: seq<Action>, s: State, h: Handle, port: Port)
    requires Books(before, s)
    ensures Books(before + [CloseHandle(h, port)], s.(closes := s.closes + multiset{h}, posts := s.posts + NullPost(port)))
  {
    hide Tally, SignalTo, PruningOf;
    var t := s.(closes := s.closes + multiset{h}, posts := s.posts + NullPost(port));
    SameBooks(s, t);
    NullTally(s.posts, port);
    CommandsMore(before, CloseHandle(h, port));
    SameDue(s, t);
  }

  lemma CommandsMore(before: seq<Action>, a: Action)
    ensures forall h :: CloseCommands(before + [a], h)
                     == CloseCommands(before, h) + (if a.CloseHandle? && a.handle == h then 1 else 0)
    ensures forall port :: CloseNotices(before + [a], port)
                        == CloseNotices(before, port) + (if a.CloseHandle? && a.port == port then 1 else 0)
  {
    assert (before + [a])[..|before|] == before;
  }

  /** Actions other than commands to close leave the numbers of these commands alone. */
  lemma OtherAction(before: seq<Action>, a: Action, s: State)
    requires Books(before, s) && !a.CloseHandle?
    ensures Books(before + [a], s)
  {
    hide Balanced, SignalsMatch;
    CommandsMore(before, a);
  }

  lemma StepKeepsBooks(before: seq<Action>, s: State, a: Action)
    requires Books(before, s) && Enabled(s, a) && Step(s, a).Some?
    ensures Books(before + [a], Step(s, a).state) && Step(s, a).state.control == s.control
  {
    hide Books, End, Add, EndAll, Observe;
    StepControl(s, a);
    if !a.CloseHandle? { OtherAction(before, a, s); }
    var actions := before + [a];
    match a
    case AddHandle(h, signals, port) => AddKeeps(actions, s, h, signals, port);
    case RemoveHandle(h) => if h in s.subs { EndKeeps(actions, s, h, Removed); }
    case CloseHandle(h, port) =>
      CommandKeeps(before, s, h, port);
      var told := s.(closes := s.closes + multiset{h}, posts := s.posts + NullPost(port));
      if h in s.subs { EndKeeps(actions, told, h, Closed); }
    case Wait(seen) => ObserveKeeps(actions, s, seen);
    case FireAll => EndAllKeeps(actions, s, Fired(s), Signalled);
    case PruneAll(gone) => EndAllKeeps(actions, s, gone, Pruned);
  }

  lemma StepControl(s: State, a: Action)
    requires Enabled(s, a) && Step(s, a).Some?
    ensures Step(s, a).state.control == s.control
  {
  }

  lemma SameBooks(s: State, t: State)
    requires Balanced(s) && t.control == s.control && t.subs == s.subs && t.fates == s.fates
    ensures Balanced(t)
  {
    forall h, port ensures Count(t, h, port, Accepted) == Live(t, h, port) + Ended(t, h, port) {
      assert Count(s, h, port, Accepted) == Live(s, h, port) + Ended(s, h, port);
    }
  }

  lemma StartBooks(control: Handle)
    ensures Books([], Start(control))
  {
    var none: multiset<Entry> := multiset{};
    assert none + multiset{Entry(control, ILLEGAL_PORT, Accepted)} == Start(control).fates;
    FateTally(none, Entry(control, ILLEGAL_PORT, Accepted));
  }

  /** Over every run: no subscription is lost, ended twice, or ended without having been accepted; each that was
      signalled, pruned or refused has made one signal post to its port, and nothing else has made any; handles are
      closed once for each pruning and each command, and each command is confirmed once. */
  lemma {:induction false} RunBalanced(control: Handle, actions: seq<Action>, s: State)
    requires Reaches(control, actions, s)
    ensures Balanced(s) && SignalsMatch(s) && ClosesMatch(actions, s) && s.control == control
  {
    hide Balanced, SignalsMatch, ClosesMatch;
    if actions == [] {
      StartBooks(control);
    } else {
      var before, a := actions[..|actions| - 1], actions[|actions| - 1];
      var r: State :| Reaches(control, before, r) && Enabled(r, a) && Step(r, a) == Some(s);
      RunBalanced(control, before, r);
      StepKeepsBooks(before, r, a);
      assert actions == before + [a];
    }
  }

  // ---- which handles are watched ----

  /** The handles that are no longer watched after this. */
  function Dropped(s: State, a: Action): set<Handle> {
    match a
    case RemoveHandle(h) => {h}
    case CloseHandle(h, _) => {h}
    case FireAll => set h | h in s.subs && h != s.control && Overlap(s.subs[h].state, s.subs[h].signals)
    case PruneAll(gone) => gone
    case _ => {}
  }

  /** A step trips a check exactly when it would drop the control handle while that is watched. */
  lemma StepTrips(s: State, a: Action)
    requires Enabled(s, a)
    ensures Step(s, a).None? <==> s.control in s.subs && s.control in Dropped(s, a)
  {
    hide Overlap, Met;
  }

  /** Otherwise it drops those handles and no others, and adds at most the one it is asked to. */
  lemma StepWatches(s: State, a: Action)
    requires Enabled(s, a) && Step(s, a).Some?
    ensures var t := Step(s, a).state;
            && t.subs.Keys == s.subs.Keys - Dropped(s, a) + (if a.AddHandle? then {a.handle} else {})
            && forall h :: h in s.subs && h in t.subs && !(a.AddHandle? && a.handle == h) && !a.Wait? ==>
                 t.subs[h] == s.subs[h]
  {
    hide Overlap, Met, Endings, EndPosts, ToClose, Both, Told, NullPost, SignalPost;
    if a.FireAll? {
      forall h | h in s.subs ensures h in Fired(s) <==> h in Dropped(s, a) { MetMeaning(s.subs[h]); }
    }
  }

  /** A handle that is watched for another port is refused: the port is told that the peer is gone, and nothing changes. */
  lemma AddRefuses(s: State, h: Handle, signals: Signals, port: Port)
    requires h in s.subs && s.subs[h].port != port
    ensures var t := Add(s, h, signals, port);
            && t.subs == s.subs && t.closes == s.closes
            && t.posts == s.posts + (if port == 0 then multiset{} else multiset{Signal(h, port, 4)})
  {
  }

  // ---- which signals are watched ----

  /** What the actions lead to, if none of them trips a check. */
  ghost function Reached(control: Handle, actions: seq<Action>): Next {
    if actions == [] then Some(Start(control))
    else
      var last := actions[|actions| - 1];
      match Reached(control, actions[..|actions| - 1])
      case None => None
      case Some(s) => if Enabled(s, last) then Step(s, last) else None
  }

  lemma {:induction false} ReachedIs(control: Handle, actions: seq<Action>, s: State)
    ensures Reaches(control, actions, s) <==> Reached(control, actions) == Some(s)
  {
    hide Step, Enabled;
    if actions != [] {
      var before, last := actions[..|actions| - 1], actions[|actions| - 1];
      if Reaches(control, actions, s) {
        var r: State :| Reaches(control, before, r) && Enabled(r, last) && Step(r, last) == Some(s);
        ReachedIs(control, before, r);
      }
      if Reached(control, actions) == Some(s) {
        var r := Reached(control, before).state;
        ReachedIs(control, before, r);
      }
    }
  }

  /** The handle is watched after these actions. */
  ghost predicate WatchedAfter(control: Handle, actions: seq<Action>, h: Handle) {
    Reached(control, actions).Some? && h in Reached(control, actions).state.subs
  }

  /** The k-th action adds a handle that is not watched, for this port, and it has been watched ever since. */
  ghost predicate AcceptedAt(control: Handle, actions: seq<Action>, k: nat, h: Handle, port: Port) {
    && k < |actions| && actions[k].AddHandle? && actions[k].handle == h && actions[k].port == port
    && !WatchedAfter(control, actions[..k], h)
    && forall i :: k < i <= |actions| ==> WatchedAfter(control, actions[..i], h)
  }

  /** From the k-th action on, some signal of the mask was asked for. */
  ghost predicate AskedSince(actions: seq<Action>, k: nat, h: Handle, port: Port, mask: Signals) {
    exists j :: k <= j < |actions| && Asks(actions[j], h, port, mask)
  }

  predicate Asks(a: Action, h: Handle, port: Port, mask: Signals) {
    a.AddHandle? && a.handle == h && a.port == port && Overlap(a.signals, mask)
  }

  /** What the last wait since the k-th action saw on the handle, or nothing. */
  function SeenSince(actions: seq<Action>, k: nat, h: Handle): Signals
    decreases |actions|
  {
    if |actions| <= k then 0
    else
      var last := actions[|actions| - 1];
      if last.Wait? && h in last.seen then last.seen[h] else SeenSince(actions[..|actions| - 1], k, h)
  }

  /** Some signal of the mask is among these. */
  predicate Overlap(a: Signals, mask: Signals) { Shared(a, mask) != 0 }

  lemma MetMeaning(sub: Subscription)
    ensures Met(sub) != 0 <==> Overlap(sub.state, sub.signals)
  {
    hide Shared;
  }

  lemma OrOverlap(a: Signals, b: Signals, mask: Signals)
    ensures Overlap(a | b, mask) <==> Overlap(a, mask) || Overlap(b, mask)
  {
    Distributes(a, b, mask);
    NoneOfTwo(a & mask, b & mask);
  }

  lemma Distributes(a: Signals, b: Signals, mask: Signals)
    ensures (a | b) & mask == (a & mask) | (b & mask)
  {
  }

  lemma NoneOfTwo(a: Signals, b: Signals)
    ensures a | b == 0 <==> a == 0 && b == 0
  {
  }

  lemma BothOverlap(a: Signals, b: Signals, mask: Signals)
    ensures Overlap(Both(a, b), mask) <==> Overlap(a, mask) || Overlap(b, mask)
  {
    hide Overlap;
    OrOverlap(a, b, mask);
  }

  lemma AskedMore(before: seq<Action>, a: Action, k: nat, h: Handle, port: Port, mask: Signals)
    requires k <= |before|
    ensures AskedSince(before + [a], k, h, port, mask) <==> AskedSince(before, k, h, port, mask) || Asks(a, h, port, mask)
  {
    hide Asks;
    var actions := before + [a];
    assert actions[|before|] == a && forall j :: 0 <= j < |before| ==> actions[j] == before[j];
  }

  lemma AcceptedMore(control: Handle, before: seq<Action>, a: Action, k: nat, h: Handle, port: Port)
    requires AcceptedAt(control, before, k, h, port) && WatchedAfter(control, before + [a], h)
    ensures AcceptedAt(control, before + [a], k, h, port)
  {
    hide WatchedAfter;
    var actions := before + [a];
    assert actions[..|actions|] == actions;
    assert forall i :: 0 <= i <= |before| ==> actions[..i] == before[..i];
  }

  lemma AcceptedNow(control: Handle, before: seq<Action>, a: Action, h: Handle, port: Port)
    requires !WatchedAfter(control, before, h) && WatchedAfter(control, before + [a], h)
    requires a.AddHandle? && a.handle == h && a.port == port
    ensures AcceptedAt(control, before + [a], |before|, h, port)
  {
    hide WatchedAfter;
    var actions := before + [a];
    assert actions[..|actions|] == actions && actions[..|before|] == before;
  }

  lemma {:induction false} NothingSeen(before: seq<Action>, a: Action, h: Handle)
    requires !a.Wait?
    ensures SeenSince(before + [a], |before|, h) == 0
  {
    assert (before + [a])[..|before|] == before;
  }

  /** Over every run: a handle is watched since it was last added without being watched, for the port it was added for then;
      a signal is watched for if and only if some AddHandle for the two has asked for it from then on; and what is known of
      its state is what the last wait since then has seen. The control handle was there from the start, to be read. */
  lemma {:induction false} RunWatches(control: Handle, actions: seq<Action>, s: State, h: Handle) returns (k: nat)
    requires Reaches(control, actions, s) && h in s.subs
    ensures h != control ==> AcceptedAt(control, actions, k, h, s.subs[h].port)
    ensures h == control ==> k == 0 && s.subs[h].port == ILLEGAL_PORT
    ensures s.subs[h].state == SeenSince(actions, k, h)
    ensures forall mask :: Overlap(s.subs[h].signals, mask)
              <==> AskedSince(actions, k, h, s.subs[h].port, mask) || (h == control && Overlap(READABLE, mask))
    decreases |actions|
  {
    hide AcceptedAt, AskedSince, SeenSince, Asks, Overlap, Reached, Enabled, Step, ClosesMatch, SignalsMatch, Balanced;
    RunBalanced(control, actions, s);
    if actions == [] {
      k := 0;
      NothingAsked(h);
      assert s.subs[h].signals == READABLE;
    } else {
      var before, a := actions[..|actions| - 1], actions[|actions| - 1];
      assert actions == before + [a];
      var r: State :| Reaches(control, before, r) && Enabled(r, a) && Step(r, a) == Some(s);
      ReachedIs(control, before, r);
      ReachedIs(control, actions, s);
      RunBalanced(control, before, r);
      ControlIn(r);
      if h in r.subs {
        k := RunWatches(control, before, r, h);
        SubKept(r, a, s, h);
        if h != control {
          KBound(control, before, k, h, r.subs[h].port);
          AcceptedMore(control, before, a, k, h, r.subs[h].port);
        }
        SeenMore(before, a, k, h);
        forall mask ensures Overlap(s.subs[h].signals, mask)
                  <==> AskedSince(actions, k, h, s.subs[h].port, mask) || (h == control && Overlap(READABLE, mask))
        {
          AskedMore(before, a, k, h, r.subs[h].port, mask);
          SignalsKept(r, a, s, h, mask);
        }
      } else {
        k := |before|;
        SubNew(r, a, s, h);
        AcceptedNow(control, before, a, h, s.subs[h].port);
        NothingSeen(before, a, h);
        SignalsNew(r, a, s, h);
        forall mask ensures Overlap(s.subs[h].signals, mask) <==> AskedSince(actions, k, h, s.subs[h].port, mask) {
          AskedMore(before, a, k, h, s.subs[h].port, mask);
          AskedNone(before, h, s.subs[h].port, mask);
          AskMeaning(a, mask);
        }
      }
    }
  }

  lemma AskMeaning(a: Action, mask: Signals)
    requires a.AddHandle?
    ensures Asks(a, a.handle, a.port, mask) <==> Overlap(a.signals, mask)
  {
    hide Overlap;
  }

  lemma ControlIn(s: State)
    requires Balanced(s)
    ensures s.control in s.subs
  {
  }

  lemma NothingAsked(h: Handle)
    ensures SeenSince([], 0, h) == 0 && forall port, mask :: !AskedSince([], 0, h, port, mask)
  {
  }

  lemma AskedNone(before: seq<Action>, h: Handle, port: Port, mask: Signals)
    ensures !AskedSince(before, |before|, h, port, mask)
  {
  }

  lemma KBound(control: Handle, actions: seq<Action>, k: nat, h: Handle, port: Port)
    requires AcceptedAt(control, actions, k, h, port)
    ensures k < |actions|
  {
  }

  lemma SeenMore(before: seq<Action>, a: Action, k: nat, h: Handle)
    requires k <= |before|
    ensures SeenSince(before + [a], k, h) == if a.Wait? && h in a.seen then a.seen[h] else SeenSince(before, k, h)
  {
    assert (before + [a])[..|before|] == before;
  }

  /** A step that keeps a handle watched keeps its port, and changes its state only by a wait. */
  lemma SubKept(r: State, a: Action, s: State, h: Handle)
    requires Enabled(r, a) && Step(r, a) == Some(s) && h in r.subs && h in s.subs
    ensures s.subs[h].port == r.subs[h].port
    ensures s.subs[h].state == if a.Wait? && h in a.seen then a.seen[h] else r.subs[h].state
  {
    hide Both, Endings, EndPosts, ToClose, Fired;
  }

  lemma SignalsAfter(r: State, a: Action, s: State, h: Handle)
    requires Enabled(r, a) && Step(r, a) == Some(s) && h in r.subs && h in s.subs
    ensures s.subs[h].signals == if a.AddHandle? && a.handle == h && a.port == r.subs[h].port
                                 then Both(r.subs[h].signals, a.signals) else r.subs[h].signals
  {
    hide Both, Endings, EndPosts, ToClose, Fired;
  }

  lemma SignalsKept(r: State, a: Action, s: State, h: Handle, mask: Signals)
    requires Enabled(r, a) && Step(r, a) == Some(s) && h in r.subs && h in s.subs
    ensures Overlap(s.subs[h].signals, mask) <==> Overlap(r.subs[h].signals, mask) || Asks(a, h, r.subs[h].port, mask)
  {
    hide Both, Enabled, Step, Overlap;
    SignalsAfter(r, a, s, h);
    if a.AddHandle? { BothOverlap(r.subs[h].signals, a.signals, mask); }
  }

  /** Only adding makes a handle watched, and nothing is known of its state then. */
  lemma SubNew(r: State, a: Action, s: State, h: Handle)
    requires Enabled(r, a) && Step(r, a) == Some(s) && h !in r.subs && h in s.subs
    ensures a.AddHandle? && a.handle == h && s.subs[h].port == a.port && s.subs[h].state == 0
  {
    hide Both, Endings, EndPosts, ToClose, Fired;
  }

  lemma SignalsNew(r: State, a: Action, s: State, h: Handle)
    requires Enabled(r, a) && Step(r, a) == Some(s) && h !in r.subs && h in s.subs
    ensures a.AddHandle? && s.subs[h].signals == a.signals
  {
    hide Both, Endings, EndPosts, ToClose, Fired;
  }

  /** Firing tells each port of a fired handle once, with exactly the signals asked for and met, and leaves the others
      as they were. */
  lemma FireTellsOnce(s: State)
    ensures var t := Fire(s);
            && (forall h :: h in s.subs && (h == s.control || Met(s.subs[h]) == 0) ==>
                  h in t.subs && t.subs[h] == s.subs[h])
            && (forall h :: h in s.subs && h != s.control && Met(s.subs[h]) != 0 ==>
                  && h !in t.subs
                  && (s.subs[h].port != ILLEGAL_PORT ==>
                      var p := Signal(h, s.subs[h].port, s.subs[h].state & s.subs[h].signals);
                      t.posts[p] == s.posts[p] + 1))
            && |t.posts| == |s.posts| + |Legal(s, Fired(s))|
  {
    var hs := Legal(s, Fired(s));
    var told := set h | h in hs :: Signal(h, s.subs[h].port, Told(s.subs[h], Signalled));
    ImageSize(s, hs, Signalled);
  }

  /** Pruning closes each pruned handle once and tells its port once that the peer is gone; it closes nothing else, posts
      nothing else, and leaves the other subscriptions as they were. */
  lemma PruneTellsOnce(s: State, gone: set<Handle>)
    requires gone <= s.subs.Keys && s.control !in gone
    ensures Prune(s, gone).Some?
    ensures var t := Prune(s, gone).state;
            && (forall h :: h in t.subs <==> h in s.subs && h !in gone)
            && (forall h :: h in t.subs ==> t.subs[h] == s.subs[h])
            && (forall h :: t.closes[h] == s.closes[h] + if h in gone then 1 else 0)
            && (forall p :: t.posts[p] == s.posts[p] + if TellsGone(s, gone, p) then 1 else 0)
            && |t.posts| == |s.posts| + |Legal(s, gone)|
  {
    var hs := Legal(s, gone);
    var told := set h | h in hs :: Signal(h, s.subs[h].port, Told(s.subs[h], Pruned));
    ImageSize(s, hs, Pruned);
    forall p ensures p in told <==> TellsGone(s, gone, p) {
      if TellsGone(s, gone, p) { assert p.handle in hs; }
    }
  }

  /** The post tells the port of one of these handles that the peer is gone. */
  predicate TellsGone(s: State, gone: set<Handle>, p: Post)
    requires gone <= s.subs.Keys
  {
    p.Signal? && p.handle in gone && p.port == s.subs[p.handle].port && p.port != ILLEGAL_PORT && p.signals == PEER_CLOSED
  }

  lemma {:induction false} ImageSize(s: State, hs: set<Handle>, fate: Fate)
    requires hs <= s.subs.Keys
    ensures |set h | h in hs :: Signal(h, s.subs[h].port, Told(s.subs[h], fate))| == |hs|
  {
    hide Told;
    var image := set h | h in hs :: Signal(h, s.subs[h].port, Told(s.subs[h], fate));
    if hs == {} {
      assert image == {};
    } else {
      var h :| h in hs;
      var rest := hs - {h};
      ImageSize(s, rest, fate);
      var smaller := set h | h in rest :: Signal(h, s.subs[h].port, Told(s.subs[h], fate));
      assert image == smaller + {Signal(h, s.subs[h].port, Told(s.subs[h], fate))};
    }
  }
}
