/** Client threads and the polling thread of the multi-socket receiver. */
module PollSet {
  // Clients change the socket map under a mutex and write commands to a pipe; the polling thread
  // selects, serves the ready sockets and reads one command at a time. Whether a write to the
  // pipe succeeds is an input, and the pipe's own descriptor p is never registered.

  datatype Command = Exit | NewFd(fd: int) | RmFd(fd: int)

  /** What runs when a socket is readable; whether the socket stays valid is an input. */
  datatype Task = Task(id: nat)

  /** The shared map, the descriptors select watches, the bound given to select, the commands
      in the pipe (oldest first), whether the polling thread runs, and what select last returned. */
  datatype State = State(active: map<int, Task>, watched: set<int>, maxFd: int, pipe: seq<Command>,
                         running: bool, ready: set<int>)

  datatype Event =
    | Add(fd: int, task: Task, written: bool)
    | Remove(fd: int, written: bool)
    | Stop(written: bool)
    | Select(ready: set<int>)
    | Serve(closed: set<int>)

  // --- the steps on values ---

  ghost predicate IsLargest(m: int, fds: set<int>, p: int) {
    m >= p && (m == p || m in fds) && forall fd :: fd in fds ==> fd <= m
  }

  lemma {:induction false} LargestExists(fds: set<int>, p: int)
    ensures exists m :: IsLargest(m, fds, p)
    decreases fds
  {
    if x :| x in fds {
      var rest := fds - {x};
      LargestExists(rest, p);
      var m :| IsLargest(m, rest, p);
      var n := if x > m then x else m;
      assert fds == rest + {x};
      assert IsLargest(n, fds, p);
    } else {
      assert IsLargest(p, fds, p);
    }
  }

  /** The larger of p and the largest descriptor. */
  ghost function Largest(fds: set<int>, p: int): (m: int)
    ensures IsLargest(m, fds, p)
  {
    LargestExists(fds, p);
    var m :| IsLargest(m, fds, p);
    m
  }

  ghost function Initial(p: int): State {
    State(map[], {p}, if p > 0 then p else 0, [], true, {})
  }

  /** The socket enters the map before the command is written. */
  function AddStep(s: State, fd: int, task: Task, written: bool): State {
    if fd < 0 || fd in s.active then s
    else s.(active := s.active[fd := task], pipe := if written then s.pipe + [NewFd(fd)] else s.pipe)
  }

  function RemoveStep(s: State, fd: int, written: bool): State {
    if fd !in s.active || !written then s else s.(pipe := s.pipe + [RmFd(fd)])
  }

  function StopStep(s: State, written: bool): State {
    if s.running && written then s.(pipe := s.pipe + [Exit]) else s
  }

  /** Forgets a set of descriptors; the bound becomes the largest that is still registered. */
  ghost function Forget(s: State, fds: set<int>, p: int): State {
    if fds == {} then s
    else s.(active := s.active - fds, watched := s.watched - fds, maxFd := Largest((s.active - fds).Keys, p))
  }

  ghost function Handle(s: State, c: Command, p: int): State {
    match c
    case Exit => s.(running := false)
    case NewFd(fd) => if fd >= 0 then s.(watched := s.watched + {fd}, maxFd := if s.maxFd > fd then s.maxFd else fd) else s
    case RmFd(fd) => if fd >= 0 then Forget(s, {fd}, p) else s
  }

  /** Takes the oldest command from the pipe. */
  ghost function HandleNext(s: State, p: int): State
    requires s.pipe != []
  {
    Handle(s.(pipe := s.pipe[1..]), s.pipe[0], p)
  }

  /** One pass over the ready sockets, where those in closed report that the peer closed, and
      then at most one command. */
  ghost function ServeStep(s: State, closed: set<int>, p: int): State {
    var t := Forget(s, closed, p).(ready := {});
    if p in s.ready && t.pipe != [] then HandleNext(t, p) else t
  }

  ghost function Step(s: State, e: Event, p: int): State {
    match e
    case Add(fd, task, written) => AddStep(s, fd, task, written)
    case Remove(fd, written) => RemoveStep(s, fd, written)
    case Stop(written) => StopStep(s, written)
    case Select(ready) => s.(ready := ready)
    case Serve(closed) => ServeStep(s, closed, p)
  }

  /** Select returns watched descriptors up to the bound, and the pipe only when a command
      waits. Callbacks run for sockets that are both ready and registered. */
  ghost predicate Enabled(s: State, e: Event, p: int) {
    match e
    case Add(fd, _, _) => fd != p
    case Remove(_, _) => true
    case Stop(_) => true
    case Select(ready) => s.running && ready <= s.watched && (forall fd :: fd in ready ==> fd <= s.maxFd) && (p in ready ==> s.pipe != [])
    case Serve(closed) => s.running && closed <= s.active.Keys * s.ready
  }

  /** Whether every event of a run is enabled where it happens. */
  ghost predicate Runs(s: State, events: seq<Event>, p: int)
    decreases |events|
  {
    events == [] || (Enabled(s, events[0], p) && Runs(Step(s, events[0], p), events[1..], p))
  }

  ghost function Final(s: State, events: seq<Event>, p: int): State
    decreases |events|
  {
    if events == [] then s else Final(Step(s, events[0], p), events[1..], p)
  }

  // --- every registered socket is watched, or is about to be ---

  ghost predicate Watching(s: State, fd: int) {
    fd in s.watched && fd <= s.maxFd
  }

  /** Watched and not beyond the bound is what select can report. */
  lemma WatchingIsSelectable(s: State, fd: int, p: int)
    requires s.running && fd != p
    ensures Watching(s, fd) <==> Enabled(s, Select({fd}), p)
  {
    assert Enabled(s, Select({fd}), p) ==> fd in {fd};
  }

  /** A registered socket is polled, or the command to poll it is still in the pipe; the
      pipe itself is always polled, and no command removes it. */
  ghost predicate Covered(s: State, p: int) {
    && (forall fd :: fd in s.active ==> fd >= 0 && fd != p && (Watching(s, fd) || NewFd(fd) in s.pipe))
    && Watching(s, p)
    && (forall fd :: RmFd(fd) in s.pipe ==> fd != p)
  }

  lemma InitialCovered(p: int)
    requires p >= 0
    ensures Covered(Initial(p), p)
  {
  }

  lemma ForgetKeeps(s: State, fds: set<int>, p: int)
    requires Covered(s, p) && p !in fds
    ensures Covered(Forget(s, fds, p), p)
  {
    var t := Forget(s, fds, p);
    forall fd | fd in t.active
      ensures fd >= 0 && fd != p && (Watching(t, fd) || NewFd(fd) in t.pipe)
    {
      assert fd in s.active && fd !in fds;
      if fds != {} {
        assert fd in (s.active - fds).Keys;
      }
    }
  }

  lemma HandleNextKeeps(s: State, p: int)
    requires Covered(s, p) && s.pipe != []
    ensures Covered(HandleNext(s, p), p)
  {
    var c := s.pipe[0];
    var rest := s.pipe[1..];
    assert s.pipe == [c] + rest;
    match c
    case Exit =>
    case NewFd(n) =>
      var t := HandleNext(s, p);
      forall fd | fd in t.active
        ensures fd >= 0 && fd != p && (Watching(t, fd) || NewFd(fd) in t.pipe)
      {
        if !Watching(s, fd) && fd != n {
          assert NewFd(fd) in rest;
        }
      }
    case RmFd(n) =>
      assert n != p;
      if n >= 0 {
        RmKeeps(s, n, p);
      }
  }

  lemma RmKeeps(s: State, n: int, p: int)
    requires Covered(s, p) && s.pipe != [] && s.pipe[0] == RmFd(n) && n >= 0
    ensures Covered(HandleNext(s, p), p)
  {
    var u := s.(pipe := s.pipe[1..]);
    assert s.pipe == [RmFd(n)] + u.pipe;
    forall fd | fd in u.active
      ensures Watching(u, fd) || NewFd(fd) in u.pipe
    {
    }
    assert RmFd(n) in s.pipe;
    ForgetKeeps(u, {n}, p);
  }

  /** A registration whose command was not written, for a descriptor nobody polls yet. */
  ghost predicate Orphans(s: State, e: Event) {
    e.Add? && !e.written && e.fd >= 0 && e.fd !in s.active && !Watching(s, e.fd) && NewFd(e.fd) !in s.pipe
  }

  /** A step keeps every registered socket covered exactly when it orphans none. */
  lemma StepKeeps(s: State, e: Event, p: int)
    requires Covered(s, p) && Enabled(s, e, p)
    ensures Covered(Step(s, e, p), p) <==> !Orphans(s, e)
  {
    match e
    case Add(fd, task, written) =>
      if Orphans(s, e) {
        assert fd in Step(s, e, p).active;
      }
    case Remove(fd, written) =>
    case Stop(written) =>
    case Select(ready) =>
    case Serve(closed) =>
      assert p !in closed;
      ForgetKeeps(s, closed, p);
      var t := Forget(s, closed, p).(ready := {});
      assert Covered(t, p);
      if p in s.ready && t.pipe != [] {
        HandleNextKeeps(t, p);
      }
  }

  /** While every write for a registration succeeds, in every state that any run reaches every
      registered socket is polled or about to be. */
  lemma {:induction false} AlwaysCovered(s: State, events: seq<Event>, p: int)
    requires Covered(s, p) && Runs(s, events, p)
    requires forall i :: 0 <= i < |events| ==> events[i].Add? ==> events[i].written
    ensures Covered(Final(s, events, p), p)
    decreases |events|
  {
    hide Covered, Enabled, Step;
    if events != [] {
      StepKeeps(s, events[0], p);
      assert forall i :: 0 <= i < |events[1..]| ==> events[1..][i] == events[i + 1];
      AlwaysCovered(Step(s, events[0], p), events[1..], p);
    }
  }

  /** In particular in every state that the handler reaches from its start. */
  lemma ReachableCovered(events: seq<Event>, p: int)
    requires p >= 0 && Runs(Initial(p), events, p)
    requires forall i :: 0 <= i < |events| ==> events[i].Add? ==> events[i].written
    ensures Covered(Final(Initial(p), events, p), p)
  {
    hide *;
    InitialCovered(p);
    AlwaysCovered(Initial(p), events, p);
  }

  /** While the thread runs it is stopped by nothing but an exit command. */
  lemma OnlyExitStops(s: State, e: Event, p: int)
    requires s.running && Enabled(s, e, p) && !Step(s, e, p).running
    ensures e.Serve? && p in s.ready && s.pipe != [] && s.pipe[0] == Exit
  {
  }

  // --- what remains when the pipe has been read ---

  /** Reads every command. */
  ghost function Drained(s: State, p: int): State
    decreases |s.pipe|
  {
    if s.pipe == [] then s else Drained(HandleNext(s, p), p)
  }

  /** Whether commands leave a descriptor watched: an addition that no removal follows, or
      watched before and never removed. */
  ghost predicate Wanted(pipe: seq<Command>, fd: int, before: bool) {
    || (before && RmFd(fd) !in pipe)
    || exists i :: 0 <= i < |pipe| && pipe[i] == NewFd(fd) && RmFd(fd) !in pipe[i + 1..]
  }

  lemma WantedStep(pipe: seq<Command>, fd: int, before: bool)
    requires pipe != []
    ensures Wanted(pipe, fd, before) ==
            Wanted(pipe[1..], fd, if pipe[0] == NewFd(fd) then true else if pipe[0] == RmFd(fd) then false else before)
  {
    var rest := pipe[1..];
    assert pipe == [pipe[0]] + rest;
    var after := if pipe[0] == NewFd(fd) then true else if pipe[0] == RmFd(fd) then false else before;
    if i :| 0 <= i < |pipe| && pipe[i] == NewFd(fd) && RmFd(fd) !in pipe[i + 1..] {
      if i > 0 {
        assert rest[i - 1] == NewFd(fd) && rest[i..] == pipe[i + 1..];
      } else {
        assert pipe[1..] == rest;
      }
    }
    if i :| 0 <= i < |rest| && rest[i] == NewFd(fd) && RmFd(fd) !in rest[i + 1..] {
      assert pipe[i + 1] == NewFd(fd) && pipe[i + 2..] == rest[i + 1..];
    }
    if after && RmFd(fd) !in rest && pipe[0] == NewFd(fd) {
      assert pipe[0] == NewFd(fd) && RmFd(fd) !in pipe[0 + 1..];
    }
  }

  lemma HandleNextParts(s: State, p: int, fd: int)
    requires s.pipe != [] && fd >= 0
    ensures HandleNext(s, p).pipe == s.pipe[1..]
    ensures fd in HandleNext(s, p).active <==> fd in s.active && s.pipe[0] != RmFd(fd)
    ensures fd in HandleNext(s, p).active ==> HandleNext(s, p).active[fd] == s.active[fd]
    ensures fd in HandleNext(s, p).watched <==>
            if s.pipe[0] == NewFd(fd) then true else if s.pipe[0] == RmFd(fd) then false else fd in s.watched
  {
  }

  /** Once the pipe is empty a socket is registered unless its removal was queued, and it is
      watched when its last command says so. */
  lemma {:induction false} DrainedSockets(s: State, p: int, fd: int)
    requires fd >= 0
    ensures Drained(s, p).pipe == []
    ensures fd in Drained(s, p).active <==> fd in s.active && RmFd(fd) !in s.pipe
    ensures fd in Drained(s, p).active ==> Drained(s, p).active[fd] == s.active[fd]
    ensures fd in Drained(s, p).watched <==> Wanted(s.pipe, fd, fd in s.watched)
    decreases |s.pipe|
  {
    hide HandleNext, Wanted;
    if s.pipe == [] {
      WantedOfNothing(fd, fd in s.watched);
    } else {
      HandleNextParts(s, p, fd);
      WantedStep(s.pipe, fd, fd in s.watched);
      DrainedSockets(HandleNext(s, p), p, fd);
      assert s.pipe == [s.pipe[0]] + s.pipe[1..];
    }
  }

  lemma WantedOfNothing(fd: int, before: bool)
    ensures Wanted([], fd, before) == before
  {
  }

  lemma {:induction false} DrainedKeeps(s: State, p: int)
    requires Covered(s, p)
    ensures Covered(Drained(s, p), p)
    decreases |s.pipe|
  {
    hide Covered;
    if s.pipe != [] {
      HandleNextKeeps(s, p);
      HandleNextLength(s, p);
      DrainedKeeps(HandleNext(s, p), p);
    }
  }

  lemma HandleNextLength(s: State, p: int)
    requires s.pipe != []
    ensures |HandleNext(s, p).pipe| == |s.pipe| - 1
  {
  }

  /** Reading the pipe to its end leaves exactly the sockets whose removal was not queued, with
      their tasks, and all of them polled. */
  lemma DrainedAllPolled(s: State, p: int, fd: int)
    requires Covered(s, p) && fd in Drained(s, p).active
    ensures Watching(Drained(s, p), fd)
  {
    hide Drained;
    DrainedKeeps(s, p);
    assert fd >= 0;
    DrainedSockets(s, p, fd);
  }

  /** A socket that was just registered survives the reading of the pipe exactly when no older
      removal of the same descriptor is still queued. */
  lemma RegistrationSurvives(s: State, fd: int, task: Task, p: int)
    requires Covered(s, p) && fd >= 0 && fd != p && fd !in s.active
    ensures var t := AddStep(s, fd, task, true);
            (fd in Drained(t, p).active && Drained(t, p).active[fd] == task && Watching(Drained(t, p), fd)) <==> RmFd(fd) !in s.pipe
  {
    hide Drained;
    var t := AddStep(s, fd, task, true);
    DrainedSockets(t, p, fd);
    StepKeeps(s, Add(fd, task, true), p);
    if fd in Drained(t, p).active {
      DrainedAllPolled(t, p, fd);
    }
  }

  /** A command at the end of the pipe decides for its own descriptor and for no other. */
  lemma WantedSnoc(pipe: seq<Command>, c: Command, fd: int, before: bool)
    ensures Wanted(pipe + [c], fd, before) == (c == NewFd(fd) || (c != RmFd(fd) && Wanted(pipe, fd, before)))
  {
    var longer := pipe + [c];
    forall i | 0 <= i < |pipe|
      ensures longer[i] == pipe[i] && longer[i + 1..] == pipe[i + 1..] + [c]
    {
    }
    if c == NewFd(fd) {
      assert longer[|pipe|] == NewFd(fd) && RmFd(fd) !in longer[|pipe| + 1..];
    } else if i :| 0 <= i < |pipe| && pipe[i] == NewFd(fd) && RmFd(fd) !in pipe[i + 1..] {
      assert longer[i] == NewFd(fd) && RmFd(fd) !in longer[i + 1..] <==> c != RmFd(fd);
    }
  }

  /** Once the pipe is read a removal has taken its socket away, from the map and from the
      watched set, exactly when it was accepted and written; every other socket is as it would
      have been without the call. */
  lemma RemovalTakesEffect(s: State, fd: int, written: bool, g: int, p: int)
    requires g >= 0
    ensures var gone := g == fd && written && fd in s.active;
            var t := Step(s, Remove(fd, written), p);
            && (g in Drained(t, p).active <==> g in Drained(s, p).active && !gone)
            && (g in Drained(t, p).active ==> Drained(t, p).active[g] == Drained(s, p).active[g])
            && (g in Drained(t, p).watched <==> g in Drained(s, p).watched && !gone)
  {
    hide Drained, Wanted;
    DrainedSockets(s, p, g);
    DrainedSockets(Step(s, Remove(fd, written), p), p, g);
    WantedSnoc(s.pipe, RmFd(fd), g, g in s.watched);
  }

  /** A registration concerns no other socket either. */
  lemma AdditionSparesOthers(s: State, fd: int, task: Task, written: bool, g: int, p: int)
    requires g >= 0 && g != fd
    ensures var t := Step(s, Add(fd, task, written), p);
            && (g in Drained(t, p).active <==> g in Drained(s, p).active)
            && (g in Drained(t, p).active ==> Drained(t, p).active[g] == Drained(s, p).active[g])
            && (g in Drained(t, p).watched <==> g in Drained(s, p).watched)
  {
    hide Drained, Wanted;
    DrainedSockets(s, p, g);
    DrainedSockets(Step(s, Add(fd, task, written), p), p, g);
    WantedSnoc(s.pipe, NewFd(fd), g, g in s.watched);
  }

  /** Reading the pipe stops the thread exactly when an exit command is in it. */
  lemma {:induction false} DrainedRunning(s: State, p: int)
    ensures Drained(s, p).running <==> s.running && Exit !in s.pipe
    decreases |s.pipe|
  {
    if s.pipe == [] {
    } else {
      hide HandleNext;
      HandleNextRunning(s, p);
      DrainedRunning(HandleNext(s, p), p);
      assert s.pipe == [s.pipe[0]] + s.pipe[1..];
    }
  }

  lemma HandleNextRunning(s: State, p: int)
    requires s.pipe != []
    ensures HandleNext(s, p).pipe == s.pipe[1..] && |s.pipe[1..]| < |s.pipe|
    ensures HandleNext(s, p).running <==> s.running && s.pipe[0] != Exit
  {
  }

  /** Once the pipe is read a written stop has stopped the thread, and has done nothing else. */
  lemma StopTakesEffect(s: State, written: bool, g: int, p: int)
    requires g >= 0
    ensures var t := Step(s, Stop(written), p);
            && (Drained(t, p).running <==> Drained(s, p).running && !written)
            && (g in Drained(t, p).active <==> g in Drained(s, p).active)
            && (g in Drained(t, p).watched <==> g in Drained(s, p).watched)
  {
    hide Drained, Wanted;
    DrainedRunning(s, p);
    DrainedRunning(Step(s, Stop(written), p), p);
    DrainedSockets(s, p, g);
    DrainedSockets(Step(s, Stop(written), p), p, g);
    WantedSnoc(s.pipe, Exit, g, g in s.watched);
  }

  /** A pass forgets the sockets whose peer closed and no others, and reads the oldest command
      if the pipe was ready and none otherwise; reading the rest later comes to the same. */
  lemma ServingTakesEffect(s: State, closed: set<int>, g: int, p: int)
    requires g >= 0 && Enabled(s, Serve(closed), p)
    ensures var t := Step(s, Serve(closed), p);
            && t.pipe == (if p in s.ready && s.pipe != [] then s.pipe[1..] else s.pipe)
            && (g in Drained(t, p).active <==> g in Drained(s, p).active && g !in closed)
            && (g in Drained(t, p).active ==> Drained(t, p).active[g] == Drained(s, p).active[g])
            && (g in Drained(t, p).watched <==> Wanted(s.pipe, g, g in s.watched && g !in closed))
            && (Drained(t, p).running <==> Drained(s, p).running)
  {
    hide Drained, Wanted, HandleNext;
    var u := Forget(s, closed, p).(ready := {});
    DrainedSockets(s, p, g);
    DrainedSockets(u, p, g);
    DrainedRunning(s, p);
    DrainedRunning(u, p);
    if p in s.ready && u.pipe != [] {
      HandleNextParts(u, p, g);
      DrainedStep(u, p);
    }
  }

  lemma DrainedStep(s: State, p: int)
    requires s.pipe != []
    ensures Drained(s, p) == Drained(HandleNext(s, p), p)
  {
    hide HandleNext;
  }

  // --- a watched descriptor need not be registered ---

  /** Nothing but the pipe and registered sockets is watched. */
  ghost predicate Tidy(s: State, p: int) {
    forall fd :: fd in s.watched ==> fd == p || fd in s.active
  }

  /** A step leaves the set tidy unless it handles an addition whose socket is gone already. */
  lemma TidyStep(s: State, e: Event, p: int)
    requires Tidy(s, p) && Covered(s, p) && Enabled(s, e, p)
    ensures Tidy(Step(s, e, p), p) <==>
            !(e.Serve? && p in s.ready && s.pipe != [] && s.pipe[0].NewFd? && s.pipe[0].fd >= 0
              && s.pipe[0].fd != p && (s.pipe[0].fd !in s.active || s.pipe[0].fd in e.closed))
  {
    match e
    case Add(fd, task, written) =>
    case Remove(fd, written) =>
    case Stop(written) =>
    case Select(ready) =>
    case Serve(closed) =>
      var t := Forget(s, closed, p).(ready := {});
      assert Tidy(t, p);
      if p in s.ready && t.pipe != [] {
        TidyCommand(t, p);
      }
  }

  lemma TidyCommand(t: State, p: int)
    requires Tidy(t, p) && t.pipe != [] && RmFd(p) !in t.pipe
    ensures Tidy(HandleNext(t, p), p) <==>
            !(t.pipe[0].NewFd? && t.pipe[0].fd >= 0 && t.pipe[0].fd != p && t.pipe[0].fd !in t.active)
  {
    var c := t.pipe[0];
    var u := HandleNext(t, p);
    if c.NewFd? && c.fd >= 0 {
      assert c.fd in u.watched && u.active == t.active;
    }
  }

  /** A watched descriptor with no handler and no removal under way. */
  ghost predicate Stale(s: State, fd: int, p: int) {
    fd >= 0 && fd != p && fd in s.watched && fd !in s.active && RmFd(fd) !in s.pipe
  }

  /** A stale descriptor stays so through every step but its registration, which ends it. */
  lemma StaleStep(s: State, e: Event, fd: int, p: int)
    requires Stale(s, fd, p) && Enabled(s, e, p)
    ensures Stale(Step(s, e, p), fd, p) <==> !(e.Add? && e.fd == fd)
  {
    match e
    case Add(_, _, _) =>
    case Remove(_, _) =>
    case Stop(_) =>
    case Select(_) =>
    case Serve(closed) =>
      var t := Forget(s, closed, p).(ready := {});
      assert Stale(t, fd, p);
      if p in s.ready && t.pipe != [] {
        assert RmFd(fd) !in t.pipe[1..];
      }
  }

  /** In every run it is watched and unserved until the descriptor is registered again. */
  lemma {:induction false} StaleLasts(s: State, events: seq<Event>, fd: int, p: int)
    requires Stale(s, fd, p) && Runs(s, events, p)
    requires forall i :: 0 <= i < |events| ==> !(events[i].Add? && events[i].fd == fd)
    ensures Stale(Final(s, events, p), fd, p)
    decreases |events|
  {
    hide Stale, Enabled, Step;
    if events != [] {
      StaleStep(s, events[0], fd, p);
      assert forall i :: 0 <= i < |events[1..]| ==> events[1..][i] == events[i + 1];
      StaleLasts(Step(s, events[0], p), events[1..], fd, p);
    }
  }

  // --- a run that leaves a descriptor stale ---

  ghost predicate Reaches(s: State, events: seq<Event>, t: State, p: int) {
    Runs(s, events, p) && Final(s, events, p) == t
  }

  lemma OneStep(s: State, e: Event, p: int)
    requires Enabled(s, e, p)
    ensures Reaches(s, [e], Step(s, e, p), p)
  {
    hide Enabled, Step;
    var t := Step(s, e, p);
    assert Runs(t, [], p) && Final(t, [], p) == t;
    assert [e][1..] == [];
  }

  lemma {:induction false} ReachesOn(s: State, a: seq<Event>, t: State, b: seq<Event>, u: State, p: int)
    requires Reaches(s, a, t, p) && Reaches(t, b, u, p)
    ensures Reaches(s, a + b, u, p)
    decreases |a|
  {
    hide Enabled, Step;
    if a == [] {
      assert a + b == b;
    } else {
      assert (a + b)[1..] == a[1..] + b;
      ReachesOn(Step(s, a[0], p), a[1..], t, b, u, p);
    }
  }

  /** Registered and watched descriptors and the pipe's contents, while the thread runs. */
  ghost predicate Looks(s: State, keys: set<int>, watched: set<int>, pipe: seq<Command>) {
    s.active.Keys == keys && s.watched == watched && s.pipe == pipe && s.running
    && forall fd :: fd in watched ==> fd <= s.maxFd
  }

  /** The peer closes a socket while its removal is queued, and the descriptor is registered
      again: the queued removal takes the new registration away, and the addition comes after it. */
  function ReuseRun(fd: int, first: Task, second: Task, p: int): seq<Event> {
    [Add(fd, first, true)] + [Select({p}), Serve({})] + [Remove(fd, true)] + [Select({fd}), Serve({fd})]
    + [Add(fd, second, true)] + [Select({p}), Serve({})] + [Select({p}), Serve({})]
  }

  /** That run leaves the descriptor stale, and so it stays in every continuation of the run
      that does not register it once more. */
  lemma ReuseLosesSocket(fd: int, first: Task, second: Task, events: seq<Event>, p: int)
    requires p >= 0 && fd >= 0 && fd != p
    ensures Runs(Initial(p), ReuseRun(fd, first, second, p), p)
    ensures var s := Final(Initial(p), ReuseRun(fd, first, second, p), p);
            s.running && s.pipe == [] && Stale(s, fd, p)
            && (Runs(s, events, p) && (forall i :: 0 <= i < |events| ==> !(events[i].Add? && events[i].fd == fd)) ==>
                  Stale(Final(s, events, p), fd, p))
  {
    hide *;
    var t := ReuseReaches(fd, first, second, p);
    ReachesIs(Initial(p), ReuseRun(fd, first, second, p), t, p);
    LooksStale(t, fd, p);
    if Runs(t, events, p) && (forall i :: 0 <= i < |events| ==> !(events[i].Add? && events[i].fd == fd)) {
      StaleLasts(t, events, fd, p);
    }
  }

  lemma ReachesIs(s: State, events: seq<Event>, t: State, p: int)
    requires Reaches(s, events, t, p)
    ensures Runs(s, events, p) && Final(s, events, p) == t
  {
  }

  lemma LooksStale(s: State, fd: int, p: int)
    requires Looks(s, {}, {p, fd}, []) && fd >= 0 && fd != p
    ensures s.running && s.pipe == [] && Stale(s, fd, p)
  {
  }

  lemma ReuseReaches(fd: int, first: Task, second: Task, p: int) returns (t: State)
    requires p >= 0 && fd >= 0 && fd != p
    ensures Reaches(Initial(p), ReuseRun(fd, first, second, p), t, p) && Looks(t, {}, {p, fd}, [])
  {
    hide *;
    var s := Initial(p);
    var poll, close := [Select({p}), Serve({})], [Select({fd}), Serve({fd})];
    InitialLooks(p);
    assert [] + [NewFd(fd)] == [NewFd(fd)] + [];
    assert [NewFd(fd)] == [NewFd(fd)] + [];
    var s1 := Registered(s, fd, first, {p}, [], p);
    var s2 := AdditionRead(s1, fd, {fd}, [], p);
    var s3 := Unregistered(s2, fd, p);
    var s4 := Closed(s3, fd, p);
    var s5 := Registered(s4, fd, second, {p}, [RmFd(fd)], p);
    var s6 := RemovalRead(s5, fd, [NewFd(fd)], p);
    t := AdditionRead(s6, fd, {}, [], p);
    var r1, r2 := [Add(fd, first, true)], [Add(fd, first, true)] + poll;
    var r3 := r2 + [Remove(fd, true)];
    var r4 := r3 + close;
    var r5 := r4 + [Add(fd, second, true)];
    var r6 := r5 + poll;
    ReachesOn(s, r1, s1, poll, s2, p);
    ReachesOn(s, r2, s2, [Remove(fd, true)], s3, p);
    ReachesOn(s, r3, s3, close, s4, p);
    ReachesOn(s, r4, s4, [Add(fd, second, true)], s5, p);
    ReachesOn(s, r5, s5, poll, s6, p);
    ReachesOn(s, r6, s6, poll, t, p);
    ReuseRunIs(fd, first, second, p);
  }

  lemma ReuseRunIs(fd: int, first: Task, second: Task, p: int)
    ensures ReuseRun(fd, first, second, p) ==
            [Add(fd, first, true)] + [Select({p}), Serve({})] + [Remove(fd, true)] + [Select({fd}), Serve({fd})]
            + [Add(fd, second, true)] + [Select({p}), Serve({})] + [Select({p}), Serve({})]
  {
  }

  lemma InitialLooks(p: int)
    requires p >= 0
    ensures Looks(Initial(p), {}, {p}, [])
  {
  }

  lemma Registered(s: State, fd: int, task: Task, watched: set<int>, pipe: seq<Command>, p: int) returns (t: State)
    requires Looks(s, {}, watched, pipe) && fd >= 0 && fd != p
    ensures Looks(t, {fd}, watched, pipe + [NewFd(fd)]) && Reaches(s, [Add(fd, task, true)], t, p)
  {
    hide Runs, Final, Reaches;
    t := Step(s, Add(fd, task, true), p);
    OneStep(s, Add(fd, task, true), p);
  }

  lemma Unregistered(s: State, fd: int, p: int) returns (t: State)
    requires Looks(s, {fd}, {p, fd}, [])
    ensures Looks(t, {fd}, {p, fd}, [RmFd(fd)]) && Reaches(s, [Remove(fd, true)], t, p)
  {
    hide Runs, Final, Reaches;
    t := Step(s, Remove(fd, true), p);
    OneStep(s, Remove(fd, true), p);
  }

  lemma AdditionRead(s: State, fd: int, keys: set<int>, pipe: seq<Command>, p: int) returns (t: State)
    requires Looks(s, keys, {p}, [NewFd(fd)] + pipe) && fd >= 0
    ensures Looks(t, keys, {p, fd}, pipe) && Reaches(s, [Select({p}), Serve({})], t, p)
  {
    hide Runs, Final, Reaches;
    var u := Selected(s, {p}, p);
    t := Step(u, Serve({}), p);
    OneStep(u, Serve({}), p);
    ReachesOn(s, [Select({p})], u, [Serve({})], t, p);
    assert [Select({p})] + [Serve({})] == [Select({p}), Serve({})];
    assert ([NewFd(fd)] + pipe)[1..] == pipe;
  }

  lemma RemovalRead(s: State, fd: int, pipe: seq<Command>, p: int) returns (t: State)
    requires Looks(s, {fd}, {p}, [RmFd(fd)] + pipe) && fd >= 0 && fd != p
    ensures Looks(t, {}, {p}, pipe) && Reaches(s, [Select({p}), Serve({})], t, p)
  {
    hide Runs, Final, Reaches;
    var u := Selected(s, {p}, p);
    t := Step(u, Serve({}), p);
    OneStep(u, Serve({}), p);
    ReachesOn(s, [Select({p})], u, [Serve({})], t, p);
    assert [Select({p})] + [Serve({})] == [Select({p}), Serve({})];
    assert ([RmFd(fd)] + pipe)[1..] == pipe;
    assert u.active.Keys - {fd} == {} && u.watched - {fd} == {p};
  }

  lemma Closed(s: State, fd: int, p: int) returns (t: State)
    requires Looks(s, {fd}, {p, fd}, [RmFd(fd)]) && fd != p
    ensures Looks(t, {}, {p}, [RmFd(fd)]) && Reaches(s, [Select({fd}), Serve({fd})], t, p)
  {
    hide Runs, Final, Reaches;
    var u := Selected(s, {fd}, p);
    t := Step(u, Serve({fd}), p);
    OneStep(u, Serve({fd}), p);
    ReachesOn(s, [Select({fd})], u, [Serve({fd})], t, p);
    assert [Select({fd})] + [Serve({fd})] == [Select({fd}), Serve({fd})];
    assert u.active.Keys - {fd} == {} && u.watched - {fd} == {p};
  }

  lemma Selected(s: State, ready: set<int>, p: int) returns (t: State)
    requires Looks(s, s.active.Keys, s.watched, s.pipe) && ready <= s.watched && s.pipe != []
    ensures t == s.(ready := ready) && Reaches(s, [Select(ready)], t, p)
  {
    hide Runs, Final, Reaches;
    t := Step(s, Select(ready), p);
    OneStep(s, Select(ready), p);
  }

  // --- the handler ---

  lemma LargestUnique(m: int, fds: set<int>, p: int)
    requires IsLargest(m, fds, p)
    ensures m == Largest(fds, p)
  {
    var n := Largest(fds, p);
    assert IsLargest(n, fds, p);
  }

  lemma ForgetTwice(s: State, a: set<int>, b: set<int>, p: int)
    ensures Forget(Forget(s, a, p), b, p) == if b == {} then Forget(s, a, p) else Forget(s, a + b, p)
  {
    if b != {} {
      assert s.active - a - b == s.active - (a + b);
      assert s.watched - a - b == s.watched - (a + b);
      assert a + b != {};
      assert a == {} ==> a + b == b;
    }
  }

  class RxMultisocketHandler {
    const pipeFd: int
    var activeSockets: map<int, Task>
    var totalFdSet: set<int>
    var maxFd: int
    var readFdSet: set<int>
    var pipe: seq<Command>
    var running: bool

    ghost function Now(): State
      reads this
    {
      State(activeSockets, totalFdSet, maxFd, pipe, running, readFdSet)
    }

    /** The handler as the polling thread enters its loop. */
    constructor (p: int)
      requires p >= 0
      ensures pipeFd == p && Now() == Initial(p)
    {
      pipeFd := p;
      activeSockets := map[];
      totalFdSet := {p};
      maxFd := if p > 0 then p else 0;
      readFdSet := {};
      pipe := [];
      running := true;
    }

    method AddSocketHandler(fd: int, handler: Task, written: bool) returns (ok: bool)
      modifies this
      ensures Now() == AddStep(old(Now()), fd, handler, written)
      ensures ok <==> fd >= 0 && fd !in old(activeSockets) && written
    {
      if fd < 0 {
        return false;
      }
      if fd in activeSockets {
        return false;
      }
      activeSockets := activeSockets[fd := handler];
      if !written {
        return false;
      }
      pipe := pipe + [NewFd(fd)];
      return true;
    }

    method RemoveSocket(fd: int, written: bool) returns (ok: bool)
      modifies this
      ensures Now() == RemoveStep(old(Now()), fd, written)
      ensures ok <==> fd in old(activeSockets) && written
    {
      if fd !in activeSockets {
        return false;
      }
      if !written {
        return false;
      }
      pipe := pipe + [RmFd(fd)];
      return true;
    }

    /** The command that stop() writes. */
    method SendExit(written: bool)
      modifies this
      ensures Now() == StopStep(old(Now()), written)
    {
      if running {
        if written {
          pipe := pipe + [Exit];
        }
      }
    }

    /** The larger of the pipe's descriptor and the last key of the ordered map. */
    method LastKey() returns (m: int)
      ensures m == Largest(activeSockets.Keys, pipeFd)
    {
      var rest := activeSockets.Keys;
      ghost var seen: set<int> := {};
      m := pipeFd;
      while |rest| > 0
        invariant seen + rest == activeSockets.Keys && IsLargest(m, seen, pipeFd)
        decreases rest
      {
        MemberExists(rest);
        var fd :| fd in rest;
        rest := rest - {fd};
        seen := seen + {fd};
        m := if fd > m then fd else m;
      }
      assert seen == activeSockets.Keys;
      LargestUnique(m, activeSockets.Keys, pipeFd);
    }

    method RemoveSocketUnprotected(fd: int) returns (ok: bool)
      modifies this
      ensures Now() == if fd >= 0 then Forget(old(Now()), {fd}, pipeFd) else old(Now())
      ensures ok <==> fd >= 0
    {
      if fd < 0 {
        return false;
      }
      activeSockets := activeSockets - {fd};
      totalFdSet := totalFdSet - {fd};
      maxFd := LastKey();
      return true;
    }

    /** The pass over the sockets registered when it starts; closed are those whose callback
        reports that the peer closed. */
    method ServeSockets(closed: set<int>)
      requires forall fd :: fd in activeSockets ==> fd >= 0
      modifies this
      ensures Now() == Forget(old(Now()), closed * old(activeSockets).Keys * old(readFdSet), pipeFd)
    {
      hide Forget;
      ghost var before := Now();
      var rest := activeSockets.Keys;
      ghost var gone: set<int> := {};
      ForgetNothing(before, pipeFd);
      while |rest| > 0
        invariant rest <= before.active.Keys
        invariant gone == closed * (before.active.Keys - rest) * before.ready
        invariant Now() == Forget(before, gone, pipeFd) && readFdSet == before.ready
        decreases rest
      {
        var fd :| fd in rest && forall x :: x in rest ==> fd <= x by {
          SmallestExists(rest);
        }
        rest := rest - {fd};
        if fd in readFdSet {
          var socketValid := fd !in closed;
          if !socketValid {
            ForgetTwice(before, gone, {fd}, pipeFd);
            ForgetParts(Now(), {fd}, pipeFd);
            var ok := RemoveSocketUnprotected(fd);
            gone := gone + {fd};
          }
        }
      }
      assert gone == closed * before.active.Keys * before.ready;
    }

    /** Reads one command if select reported the pipe readable. */
    method HandleCommand()
      modifies this
      ensures Now() == if pipeFd in old(readFdSet) && old(pipe) != [] then HandleNext(old(Now()), pipeFd) else old(Now())
    {
      if pipeFd in readFdSet && pipe != [] {
        var msg := pipe[0];
        pipe := pipe[1..];
        match msg
        case Exit =>
          running := false;
        case NewFd(fd) =>
          if fd >= 0 {
            totalFdSet := totalFdSet + {fd};
            maxFd := if maxFd > fd then maxFd else fd;
          }
        case RmFd(fd) =>
          var ok := RemoveSocketUnprotected(fd);
      }
    }

    /** One turn of the polling loop after select, under the mutex. */
    method Poll(closed: set<int>)
      requires closed <= activeSockets.Keys * readFdSet && forall fd :: fd in activeSockets ==> fd >= 0
      modifies this
      ensures Now() == ServeStep(old(Now()), closed, pipeFd)
    {
      hide Forget, HandleNext;
      ghost var before := Now();
      assert closed * activeSockets.Keys * readFdSet == closed;
      ServeSockets(closed);
      ForgetParts(before, closed, pipeFd);
      ghost var served := Now();
      HandleCommand();
      if pipeFd in before.ready && served.pipe != [] {
        ReadyPasses(served, pipeFd);
      }
      readFdSet := {};
    }
  }

  lemma ForgetNothing(s: State, p: int)
    ensures Forget(s, {}, p) == s
  {
  }

  lemma ForgetParts(s: State, fds: set<int>, p: int)
    ensures Forget(s, fds, p).pipe == s.pipe && Forget(s, fds, p).ready == s.ready && Forget(s, fds, p).running == s.running
  {
  }

  lemma ReadyPasses(s: State, p: int)
    requires s.pipe != []
    ensures HandleNext(s, p).(ready := {}) == HandleNext(s.(ready := {}), p)
  {
  }

  lemma MemberExists(s: set<int>)
    requires |s| > 0
    ensures exists x :: x in s
  {
    if forall x :: x !in s {
      assert false;
    }
  }

  lemma {:induction false} SmallestExists(s: set<int>)
    requires |s| > 0
    ensures exists m :: m in s && forall x :: x in s ==> m <= x
    decreases s
  {
    MemberExists(s);
    var x :| x in s;
    var rest := s - {x};
    if |rest| == 0 {
      assert s == {x};
    } else {
      SmallestExists(rest);
      var m :| m in rest && forall y :: y in rest ==> m <= y;
      var n := if x < m then x else m;
      assert s == rest + {x};
      assert n in s && forall y :: y in s ==> n <= y;
    }
  }
}
