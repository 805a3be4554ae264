/** Every interleaving of the browser chrome with its renderer threads. Each
    locked call on the bus is one step; a renderer runs the plan of a command one
    call at a time, so chrome steps may fall between any two of them. */
module BrowserRuns {
  import opened Basics
  import opened BrowserIpc
  import opened BrowserSandbox
  import opened BrowserProtocol

  // ----- the state machine -----

  /** A renderer thread: what is left of its current command. */
  datatype Renderer = Renderer(url: string, todo: seq<Action>, alive: bool)

  /** What has happened on one tab so far; `nets` is what the network gave, or would have given,
      for each command obeyed. The three counts are of pushes of commands and events onto
      a full queue, and of bodies stored over one that was still waiting. */
  datatype History = History(
    issued: seq<Cmd>, obeyed: seq<Cmd>, nets: seq<Fetch>, log: seq<Action>, seen: seq<Event>, taken: seq<Response>,
    fullCmds: nat, fullEvts: nat, overwritten: nat)

  /** A queue holds 32 entries. */
  function Full<T>(q: seq<T>): (n: nat) { if |q| >= 32 then 1 else 0 }

  function Waiting<T>(slot: Option<T>): (n: nat) { if slot.Some? then 1 else 0 }

  function Issued(h: History, c: Cmd, q: seq<Cmd>): (r: History) {
    h.(issued := h.issued + [c], fullCmds := h.fullCmds + Full(q))
  }

  function Obeyed(h: History, c: Cmd, net: Fetch): (r: History) {
    h.(obeyed := h.obeyed + [c], nets := h.nets + [net])
  }

  function Done(h: History, a: Action, q: seq<Event>, slot: Option<Response>): (r: History) {
    match a
    case Emit(_) => h.(log := h.log + [a], fullEvts := h.fullEvts + Full(q))
    case Store(_) => h.(log := h.log + [a], overwritten := h.overwritten + Waiting(slot))
  }

  datatype System = System(bus: Bus, threads: seq<Renderer>, past: seq<History>)

  datatype Label =
    | Issue(tab: nat, cmd: Cmd) | See(tab: nat) | Drain(tab: nat) | Take(tab: nat)
    | Obey(tab: nat, net: Fetch) | Work(tab: nat)

  predicate Shaped(s: System) {
    WellFormed(s.bus) && |s.threads| == |s.past| == MAX_TABS
  }

  function Start(): (s: System)
    ensures Shaped(s)
  {
    System(Bus(seq(MAX_TABS, _ => []), seq(MAX_TABS, _ => []), seq(MAX_TABS, _ => None)),
           seq(MAX_TABS, _ => Renderer("about:home", [], true)),
           seq(MAX_TABS, _ => History([], [], [], [], [], [], 0, 0, 0)))
  }

  function Step(s: System, caps: Caps, l: Label): (r: System)
    requires Shaped(s)
    ensures Shaped(r)
  {
    var t := l.tab;
    if t >= MAX_TABS then s
    else
      var h, w := s.past[t], s.threads[t];
      match l
      case Issue(_, c) =>
        System(WithCmds(s.bus, t, Pushed(s.bus.cmds[t], c)), s.threads, s.past[t := Issued(h, c, s.bus.cmds[t])])
      case See(_) =>
        var q := s.bus.evts[t];
        if q == [] then s
        else System(WithEvts(s.bus, t, q[1..]), s.threads, s.past[t := h.(seen := h.seen + [q[0]])])
      case Drain(_) =>
        System(WithEvts(s.bus, t, []), s.threads, s.past[t := h.(seen := h.seen + s.bus.evts[t])])
      case Take(_) =>
        (match s.bus.bodies[t]
         case None => s
         case Some(r) => System(WithBody(s.bus, t, None), s.threads, s.past[t := h.(taken := h.taken + [r])]))
      case Obey(_, net) =>
        var q := s.bus.cmds[t];
        if !w.alive || w.todo != [] || q == [] then s
        else System(WithCmds(s.bus, t, q[1..]), s.threads[t := Begin(w, t, caps, q[0], net)],
                    s.past[t := Obeyed(h, q[0], net)])
      case Work(_) =>
        if w.todo == [] then s
        else System(Act(s.bus, t, w.todo[0]), s.threads[t := w.(todo := w.todo[1..])],
                    s.past[t := Done(h, w.todo[0], s.bus.evts[t], s.bus.bodies[t])])
  }

  function Begin(w: Renderer, t: nat, caps: Caps, c: Cmd, net: Fetch): (r: Renderer) {
    Renderer(NextUrl(w.url, c), Plan(t, caps, w.url, c, net), !c.Shutdown?)
  }

  function Run(s: System, caps: Caps, ls: seq<Label>): (r: System)
    requires Shaped(s)
    ensures Shaped(r)
    decreases |ls|
  {
    if ls == [] then s else Run(Step(s, caps, ls[0]), caps, ls[1..])
  }

  // ----- one tab at a time -----

  datatype Tab = Tab(cmds: seq<Cmd>, evts: seq<Event>, body: Option<Response>, thread: Renderer, past: History)

  function TabOf(s: System, t: nat): (x: Tab)
    requires Shaped(s) && t < MAX_TABS
    ensures |x.cmds| <= QUEUE_CAP && |x.evts| <= QUEUE_CAP
  {
    Tab(s.bus.cmds[t], s.bus.evts[t], s.bus.bodies[t], s.threads[t], s.past[t])
  }

  function Alone(x: Tab, t: nat, caps: Caps, l: Label): (r: Tab) {
    var h, w := x.past, x.thread;
    match l
    case Issue(_, c) => x.(cmds := Pushed(x.cmds, c), past := Issued(h, c, x.cmds))
    case See(_) => if x.evts == [] then x else x.(evts := x.evts[1..], past := h.(seen := h.seen + [x.evts[0]]))
    case Drain(_) => x.(evts := [], past := h.(seen := h.seen + x.evts))
    case Take(_) => if x.body == None then x else x.(body := None, past := h.(taken := h.taken + [x.body.value]))
    case Obey(_, net) =>
      if !w.alive || w.todo != [] || x.cmds == [] then x
      else x.(cmds := x.cmds[1..], thread := Begin(w, t, caps, x.cmds[0], net),
             past := Obeyed(h, x.cmds[0], net))
    case Work(_) => if w.todo == [] then x else Worked(x, w.todo[0])
  }

  function Worked(x: Tab, a: Action): (r: Tab)
    requires x.thread.todo != []
  {
    var y := x.(thread := x.thread.(todo := x.thread.todo[1..]), past := Done(x.past, a, x.evts, x.body));
    match a
    case Emit(e) => y.(evts := Pushed(x.evts, e))
    case Store(r) => y.(body := Some(r))
  }

  /** A step names a tab, acts on it as if it were alone, and leaves every other
      tab's queues, body and thread as they were. */
  lemma StepActsOnOneTab(s: System, caps: Caps, l: Label, t: nat)
    requires Shaped(s) && t < MAX_TABS
    ensures TabOf(Step(s, caps, l), t) == if l.tab == t then Alone(TabOf(s, t), t, caps, l) else TabOf(s, t)
  {
    if l.tab == t {
      match l
      case Work(_) =>
        if s.threads[t].todo != [] {
          match s.threads[t].todo[0] {
            case Emit(e) =>
            case Store(r) =>
          }
        }
      case Take(_) =>
      case Issue(_, _) =>
      case See(_) =>
      case Drain(_) =>
      case Obey(_, _) =>
    }
  }

  /** There are eight tabs: a step that names another does nothing. */
  lemma NoOtherTabs(s: System, caps: Caps, l: Label)
    requires Shaped(s) && l.tab >= 8
    ensures Step(s, caps, l) == s && |s.threads| == 8
  {}

  function Only(ls: seq<Label>, t: nat): (r: seq<Label>) {
    if ls == [] then [] else (if ls[0].tab == t then [ls[0]] else []) + Only(ls[1..], t)
  }

  /** Isolation over whole runs: what a tab goes through is decided by the steps
      that name it. Taking every other tab's steps out of a run changes nothing for it. */
  lemma {:induction false} TabsAreIsolated(s: System, u: System, caps: Caps, ls: seq<Label>, t: nat)
    requires Shaped(s) && Shaped(u) && t < MAX_TABS && TabOf(s, t) == TabOf(u, t)
    ensures TabOf(Run(s, caps, ls), t) == TabOf(Run(u, caps, Only(ls, t)), t)
    decreases |ls|
  {
    hide Step, Alone;
    if ls != [] {
      StepActsOnOneTab(s, caps, ls[0], t);
      if ls[0].tab == t {
        StepActsOnOneTab(u, caps, ls[0], t);
        TabsAreIsolated(Step(s, caps, ls[0]), Step(u, caps, ls[0]), caps, ls[1..], t);
        assert Only(ls, t)[1..] == Only(ls[1..], t);
      } else {
        TabsAreIsolated(Step(s, caps, ls[0]), u, caps, ls[1..], t);
        assert Only(ls, t) == Only(ls[1..], t);
      }
    }
  }

  // ----- what is delivered -----

  /** An ordered selection: every entry of a is a different entry of b. */
  predicate Selected<T(==)>(a: seq<T>, b: seq<T>) {
    a == [] || (b != [] && (Selected(a, b[..|b| - 1])
                           || (a[|a| - 1] == b[|b| - 1] && Selected(a[..|a| - 1], b[..|b| - 1]))))
  }

  lemma SelectedMore<T>(a: seq<T>, b: seq<T>, x: T)
    requires Selected(a, b)
    ensures Selected(a, b + [x]) && Selected(a + [x], b + [x])
  {
    assert (b + [x])[..|b|] == b && (a + [x])[..|a|] == a;
  }

  lemma {:induction false} SelectedAll<T>(a: seq<T>, b: seq<T>, c: seq<T>)
    requires Selected(a, b)
    ensures Selected(a + c, b + c)
    decreases |c|
  {
    if c == [] {
      assert a + c == a && b + c == b;
    } else {
      SelectedMore(a, b, c[0]);
      SelectedAll(a + [c[0]], b + [c[0]], c[1..]);
      assert a + [c[0]] + c[1..] == a + c && b + [c[0]] + c[1..] == b + c;
    }
  }

  /** As many selected as there are: all of them. */
  lemma {:induction false} SelectedAllOf<T>(a: seq<T>, b: seq<T>)
    requires Selected(a, b)
    ensures |a| <= |b| && (|a| == |b| ==> a == b)
    decreases |b|
  {
    if a != [] {
      var m, n := |a| - 1, |b| - 1;
      if Selected(a, b[..n]) {
        SelectedAllOf(a, b[..n]);
      } else {
        SelectedAllOf(a[..m], b[..n]);
        assert a == a[..m] + [a[m]] && b == b[..n] + [b[n]];
      }
    }
  }

  /** A queue between a sender and a receiver: what waits is the newest of what was sent, what
      was received is a selection, in order, of the rest, and exactly as many entries are
      missing as there were pushes onto a full queue. */
  ghost predicate Delivers<T>(sent: seq<T>, queue: seq<T>, received: seq<T>, full: nat) {
    && |sent| == |received| + |queue| + full
    && queue == sent[|sent| - |queue|..]
    && Selected(received, sent[..|sent| - |queue|])
  }

  /** A queue that was never pushed onto when full has lost nothing. */
  lemma NothingLost<T>(sent: seq<T>, queue: seq<T>, received: seq<T>)
    requires Delivers(sent, queue, received, 0)
    ensures received + queue == sent
  {
    var n := |sent| - |queue|;
    SelectedAllOf(received, sent[..n]);
    assert sent[..n] + sent[n..] == sent;
  }

  lemma DeliversPush<T>(sent: seq<T>, queue: seq<T>, received: seq<T>, full: nat, x: T)
    requires Delivers(sent, queue, received, full)
    ensures Delivers(sent + [x], Pushed(queue, x), received, full + Full(queue))
  {
    var n := |sent| - |queue|;
    if |queue| >= QUEUE_CAP {
      SelectedMore(received, sent[..n], sent[n]);
      assert sent[..n] + [sent[n]] == (sent + [x])[..n + 1];
      assert queue[1..] + [x] == (sent + [x])[n + 1..];
    } else {
      assert (sent + [x])[..n] == sent[..n];
      assert queue + [x] == (sent + [x])[n..];
    }
  }

  lemma DeliversPop<T>(sent: seq<T>, queue: seq<T>, received: seq<T>, full: nat)
    requires Delivers(sent, queue, received, full) && queue != []
    ensures Delivers(sent, queue[1..], received + [queue[0]], full)
  {
    var n := |sent| - |queue|;
    SelectedMore(received, sent[..n], sent[n]);
    assert sent[..n] + [sent[n]] == sent[..n + 1];
  }

  lemma DeliversDrain<T>(sent: seq<T>, queue: seq<T>, received: seq<T>, full: nat)
    requires Delivers(sent, queue, received, full)
    ensures Delivers(sent, [], received + queue, full)
  {
    var n := |sent| - |queue|;
    SelectedAll(received, sent[..n], queue);
    assert sent[..n] + queue == sent == sent[..|sent|];
  }

  /** The one-place mailbox: a body waits only if it is the newest stored, the bodies taken are
      a selection, in storing order, of the others, and exactly as many are missing as
      were overwritten while they waited. */
  ghost predicate Mails<T>(stored: seq<T>, slot: Option<T>, taken: seq<T>, overwritten: nat) {
    && |stored| == |taken| + Waiting(slot) + overwritten
    && match slot
       case None => Selected(taken, stored)
       case Some(x) => stored != [] && x == stored[|stored| - 1] && Selected(taken, stored[..|stored| - 1])
  }

  lemma MailsStore<T>(stored: seq<T>, slot: Option<T>, taken: seq<T>, overwritten: nat, x: T)
    requires Mails(stored, slot, taken, overwritten)
    ensures Mails(stored + [x], Some(x), taken, overwritten + Waiting(slot))
  {
    assert (stored + [x])[..|stored|] == stored;
    if slot.Some? {
      var n := |stored| - 1;
      SelectedMore(taken, stored[..n], stored[n]);
      assert stored[..n] + [stored[n]] == stored;
    }
  }

  lemma MailsTake<T>(stored: seq<T>, x: T, taken: seq<T>, overwritten: nat)
    requires Mails(stored, Some(x), taken, overwritten)
    ensures Mails(stored, None, taken + [x], overwritten)
  {
    var n := |stored| - 1;
    SelectedMore(taken, stored[..n], x);
    assert stored[..n] + [x] == stored;
  }

  // ----- what every run keeps -----

  /** The address a tab is at: the last one it was sent to. */
  function LastNavigated(cmds: seq<Cmd>): (u: string) {
    if cmds == [] then "about:home"
    else if cmds[|cmds| - 1].Navigate? then cmds[|cmds| - 1].url
    else LastNavigated(cmds[..|cmds| - 1])
  }

  /** The calls of all commands, one command after the other. */
  function PlansOf(t: nat, caps: Caps, cmds: seq<Cmd>, nets: seq<Fetch>): (p: seq<Action>)
    requires |cmds| == |nets|
  {
    if cmds == [] then []
    else
      var n := |cmds| - 1;
      PlansOf(t, caps, cmds[..n], nets[..n]) + Plan(t, caps, LastNavigated(cmds[..n]), cmds[n], nets[n])
  }

  /** A renderer obeys nothing after it was shut down. */
  predicate UpToShutdown(cmds: seq<Cmd>, alive: bool) {
    && (forall i :: 0 <= i < |cmds| - 1 ==> !cmds[i].Shutdown?)
    && (alive <==> cmds == [] || !cmds[|cmds| - 1].Shutdown?)
  }

  /** The calls made and still to be made are those of the commands obeyed. */
  ghost predicate Follows(x: Tab, t: nat, caps: Caps) {
    && |x.past.nets| == |x.past.obeyed|
    && x.past.log + x.thread.todo == PlansOf(t, caps, x.past.obeyed, x.past.nets)
    && x.thread.url == LastNavigated(x.past.obeyed)
    && UpToShutdown(x.past.obeyed, x.thread.alive)
  }

  ghost predicate Sound(x: Tab, t: nat, caps: Caps) {
    && |x.cmds| <= 32 && |x.evts| <= 32
    && Delivers(x.past.issued, x.cmds, x.past.obeyed, x.past.fullCmds)
    && Delivers(Emitted(x.past.log), x.evts, x.past.seen, x.past.fullEvts)
    && Mails(Stored(x.past.log), x.body, x.past.taken, x.past.overwritten)
    && Follows(x, t, caps)
  }

  lemma AloneKeepsSound(x: Tab, t: nat, caps: Caps, l: Label)
    requires Sound(x, t, caps)
    ensures Sound(Alone(x, t, caps, l), t, caps)
  {
    hide Delivers, Mails, Emitted, Stored, Follows, Begin;
    match l
    case Issue(_, c) => DeliversPush(x.past.issued, x.cmds, x.past.obeyed, x.past.fullCmds, c);
      SameFollows(x, Alone(x, t, caps, l), t, caps);
    case See(_) => if x.evts != [] { DeliversPop(Emitted(x.past.log), x.evts, x.past.seen, x.past.fullEvts); }
      SameFollows(x, Alone(x, t, caps, l), t, caps);
    case Drain(_) => DeliversDrain(Emitted(x.past.log), x.evts, x.past.seen, x.past.fullEvts);
      SameFollows(x, Alone(x, t, caps, l), t, caps);
    case Take(_) => if x.body.Some? { MailsTake(Stored(x.past.log), x.body.value, x.past.taken, x.past.overwritten); }
      SameFollows(x, Alone(x, t, caps, l), t, caps);
    case Obey(_, net) =>
      if x.thread.alive && x.thread.todo == [] && x.cmds != [] {
        DeliversPop(x.past.issued, x.cmds, x.past.obeyed, x.past.fullCmds);
        ObeyFollows(x, t, caps, net);
      }
    case Work(_) => if x.thread.todo != [] { WorkKeepsSound(x, t, caps); }
  }

  lemma SameFollows(x: Tab, y: Tab, t: nat, caps: Caps)
    requires Follows(x, t, caps) && x.thread == y.thread
    requires x.past.obeyed == y.past.obeyed && x.past.nets == y.past.nets && x.past.log == y.past.log
    ensures Follows(y, t, caps)
  {
    hide PlansOf, LastNavigated;
  }

  lemma ObeyFollows(x: Tab, t: nat, caps: Caps, net: Fetch)
    requires Follows(x, t, caps) && x.thread.alive && x.thread.todo == [] && x.cmds != []
    ensures Follows(Alone(x, t, caps, Obey(t, net)), t, caps)
  {
    hide Plan;
    var cs, ns := x.past.obeyed, x.past.nets;
    var c := x.cmds[0];
    assert (cs + [c])[..|cs|] == cs && (ns + [net])[..|ns|] == ns;
    assert x.past.log + [] == x.past.log;
  }

  lemma WorkKeepsSound(x: Tab, t: nat, caps: Caps)
    requires Sound(x, t, caps) && x.thread.todo != []
    ensures Sound(Worked(x, x.thread.todo[0]), t, caps)
  {
    hide Delivers, Mails, Emitted, Stored, PlansOf, LastNavigated, UpToShutdown;
    var a, rest := x.thread.todo[0], x.thread.todo[1..];
    var log := x.past.log;
    LogGrows(log, a);
    assert x.thread.todo == [a] + rest && log + [a] + rest == log + x.thread.todo;
    match a
    case Emit(e) =>
      DeliversPush(Emitted(log), x.evts, x.past.seen, x.past.fullEvts, e);
      assert Stored(log) + [] == Stored(log);
    case Store(r) =>
      MailsStore(Stored(log), x.body, x.past.taken, x.past.overwritten, r);
      assert Emitted(log) + [] == Emitted(log);
  }

  /** Safety of the whole protocol: after every run, on every tab, the queues are bounded and
      have lost as many entries, always the oldest, as were pushed when full; what each
      side received is in order and never twice; the calls made are those of the commands
      obeyed; and the loading protocol was never broken. */
  lemma EveryRunIsSound(caps: Caps, ls: seq<Label>, t: nat)
    requires t < 8
    ensures Sound(TabOf(Run(Start(), caps, ls), t), t, caps)
    ensures WatchAll(Idle, TabOf(Run(Start(), caps, ls), t).past.log, t, caps) != Broken
  {
    hide Sound, Step, WatchAll;
    StartIsSound(t, caps);
    RunKeepsSound(Start(), caps, ls, t);
    NotBroken(TabOf(Run(Start(), caps, ls), t), t, caps);
  }

  /** A run in which no queue was pushed onto when full, and no body overwritten, loses nothing:
      every command, event and body was received, in order, or is still waiting. */
  lemma CalmRunsLoseNothing(caps: Caps, ls: seq<Label>, t: nat)
    requires t < 8
    ensures var x := TabOf(Run(Start(), caps, ls), t);
            && (x.past.fullCmds == 0 ==> x.past.obeyed + x.cmds == x.past.issued)
            && (x.past.fullEvts == 0 ==> x.past.seen + x.evts == Emitted(x.past.log))
            && (x.past.overwritten == 0 ==>
                   x.past.taken + (if x.body.Some? then [x.body.value] else []) == Stored(x.past.log))
  {
    hide Delivers, Mails, WatchAll, Emitted, Stored, Step, Follows;
    EveryRunIsSound(caps, ls, t);
    var x := TabOf(Run(Start(), caps, ls), t);
    if x.past.fullCmds == 0 { NothingLost(x.past.issued, x.cmds, x.past.obeyed); }
    if x.past.fullEvts == 0 { NothingLost(Emitted(x.past.log), x.evts, x.past.seen); }
    if x.past.overwritten == 0 { NoMailLost(Stored(x.past.log), x.body, x.past.taken); }
  }

  lemma NoMailLost<T>(stored: seq<T>, slot: Option<T>, taken: seq<T>)
    requires Mails(stored, slot, taken, 0)
    ensures taken + (if slot.Some? then [slot.value] else []) == stored
  {
    match slot
    case None => SelectedAllOf(taken, stored);
    case Some(x) =>
      var n := |stored| - 1;
      SelectedAllOf(taken, stored[..n]);
      assert stored[..n] + [x] == stored;
  }

  lemma StartIsSound(t: nat, caps: Caps)
    requires t < MAX_TABS
    ensures Sound(TabOf(Start(), t), t, caps)
  {}

  lemma {:induction false} PlansKeepProtocol(t: nat, caps: Caps, cmds: seq<Cmd>, nets: seq<Fetch>)
    requires |cmds| == |nets|
    ensures WatchAll(Idle, PlansOf(t, caps, cmds, nets), t, caps) == Idle
    decreases |cmds|
  {
    hide WatchAll, Plan, LastNavigated;
    if cmds == [] {
      NothingSeen(Idle, t, caps);
    } else {
      var n := |cmds| - 1;
      var url := LastNavigated(cmds[..n]);
      PlansKeepProtocol(t, caps, cmds[..n], nets[..n]);
      PlanKeepsProtocol(t, caps, url, cmds[n], nets[n]);
      WatchAppend(Idle, PlansOf(t, caps, cmds[..n], nets[..n]), Plan(t, caps, url, cmds[n], nets[n]), t, caps);
    }
  }

  lemma NotBroken(x: Tab, t: nat, caps: Caps)
    requires Sound(x, t, caps)
    ensures WatchAll(Idle, x.past.log, t, caps) != Broken
  {
    hide Delivers, Mails, Emitted, Stored, PlansOf, LastNavigated, UpToShutdown;
    PlansKeepProtocol(t, caps, x.past.obeyed, x.past.nets);
    WatchAppend(Idle, x.past.log, x.thread.todo, t, caps);
    BrokenStays(x.thread.todo, t, caps);
  }

  lemma {:induction false} RunKeepsSound(s: System, caps: Caps, ls: seq<Label>, t: nat)
    requires Shaped(s) && t < MAX_TABS && Sound(TabOf(s, t), t, caps)
    ensures Sound(TabOf(Run(s, caps, ls), t), t, caps)
    decreases |ls|
  {
    hide Sound, Step, Alone;
    if ls != [] {
      StepActsOnOneTab(s, caps, ls[0], t);
      if ls[0].tab == t {
        AloneKeepsSound(TabOf(s, t), t, caps, ls[0]);
      }
      RunKeepsSound(Step(s, caps, ls[0]), caps, ls[1..], t);
    }
  }

  /** In every run, every body a renderer stored is for an address the policy allows
      and within the cap. */
  lemma EveryStoredBodyIsProper(caps: Caps, ls: seq<Label>, t: nat)
    requires t < 8
    ensures var log := TabOf(Run(Start(), caps, ls), t).past.log;
            forall k :: 0 <= k < |log| && log[k].Store? ==> Proper(log[k].response, t, caps)
  {
    hide Sound, Proper, WatchAll, Step;
    EveryRunIsSound(caps, ls, t);
    var log := TabOf(Run(Start(), caps, ls), t).past.log;
    forall k | 0 <= k < |log| && log[k].Store? ensures Proper(log[k].response, t, caps) {
      StoredIsProper(Idle, log, k, t, caps);
    }
  }
}
