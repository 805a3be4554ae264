/** The message bus between the browser chrome and its tab renderers: bounded
    queues that drop their oldest entry, and one page body per tab. */
module BrowserIpc {
  import opened Basics

  const MAX_TABS: nat := 8
  const QUEUE_CAP: nat := 32

  datatype Cmd =
    | Navigate(url: string) | Reload | Stop | ScrollDown(lines: nat) | ScrollUp(lines: nat)
    | KeyEvent(ascii: nat, scancode: nat) | MouseClick(x: nat, y: nat, button: nat)
    | SetUserAgent(agent: string) | Shutdown

  datatype Security = Security(https: bool, certValid: bool, subject: string, warnings: seq<string>)

  datatype Event =
    | TitleChanged(title: string) | PermissionRequest(permission: string) | Crashed(reason: string)
    | ConsoleLog(level: string, text: string)
    | UrlChanged(url: string) | LoadStarted | LoadProgress(percent: nat) | LoadDone(status: nat)
    | LoadError(message: string) | SecurityChanged(info: Security)

  datatype Response = Response(tab: nat, url: string, status: nat, body: seq<nat>, isHttps: bool, error: Option<string>)

  /** A queue that is full loses its oldest entry to a new one. */
  function Pushed<T>(q: seq<T>, x: T): (r: seq<T>)
    ensures |q| <= QUEUE_CAP ==> |r| <= QUEUE_CAP
  {
    (if |q| >= QUEUE_CAP then q[1..] else q) + [x]
  }

  /** The bus as a value. */
  datatype Bus = Bus(cmds: seq<seq<Cmd>>, evts: seq<seq<Event>>, bodies: seq<Option<Response>>)

  predicate WellFormed(b: Bus) {
    && |b.cmds| == |b.evts| == |b.bodies| == MAX_TABS
    && (forall t :: 0 <= t < MAX_TABS ==> |b.cmds[t]| <= QUEUE_CAP)
    && (forall t :: 0 <= t < MAX_TABS ==> |b.evts[t]| <= QUEUE_CAP)
  }

  function WithCmds(b: Bus, t: nat, q: seq<Cmd>): (r: Bus)
    requires WellFormed(b) && t < MAX_TABS && |q| <= QUEUE_CAP
    ensures WellFormed(r)
  {
    b.(cmds := b.cmds[t := q])
  }

  function WithEvts(b: Bus, t: nat, q: seq<Event>): (r: Bus)
    requires WellFormed(b) && t < MAX_TABS && |q| <= QUEUE_CAP
    ensures WellFormed(r)
  {
    b.(evts := b.evts[t := q])
  }

  function WithBody(b: Bus, t: nat, x: Option<Response>): (r: Bus)
    requires WellFormed(b) && t < MAX_TABS
    ensures WellFormed(r)
  {
    b.(bodies := b.bodies[t := x])
  }

  class Ipc {
    var cmds: seq<seq<Cmd>>
    var evts: seq<seq<Event>>
    var bodies: seq<Option<Response>>

    ghost function State(): (b: Bus)
      reads this
    {
      Bus(cmds, evts, bodies)
    }

    ghost predicate Valid()
      reads this
    {
      WellFormed(State())
    }

    constructor ()
      ensures Valid()
      ensures forall t :: 0 <= t < MAX_TABS ==> cmds[t] == [] && evts[t] == [] && bodies[t] == None
    {
      cmds := seq(MAX_TABS, _ => []);
      evts := seq(MAX_TABS, _ => []);
      bodies := seq(MAX_TABS, _ => None);
    }

    method PushCmd(tab: nat, cmd: Cmd)
      requires Valid()
      modifies this
      ensures Valid()
      ensures State() ==
              if tab < MAX_TABS then WithCmds(old(State()), tab, Pushed(old(cmds[tab]), cmd)) else old(State())
    {
      if tab >= MAX_TABS { return; }
      if |cmds[tab]| >= QUEUE_CAP { cmds := cmds[tab := cmds[tab][1..]]; }
      cmds := cmds[tab := cmds[tab] + [cmd]];
    }

    method PopCmd(tab: nat) returns (r: Option<Cmd>)
      requires Valid()
      modifies this
      ensures Valid()
      ensures if tab >= MAX_TABS || old(cmds[tab]) == [] then r == None && State() == old(State())
              else r == Some(old(cmds[tab][0])) && State() == WithCmds(old(State()), tab, old(cmds[tab][1..]))
    {
      if tab >= MAX_TABS { return None; }
      if cmds[tab] == [] { return None; }
      r := Some(cmds[tab][0]);
      cmds := cmds[tab := cmds[tab][1..]];
    }

    method PushEvent(tab: nat, evt: Event)
      requires Valid()
      modifies this
      ensures Valid()
      ensures State() ==
              if tab < MAX_TABS then WithEvts(old(State()), tab, Pushed(old(evts[tab]), evt)) else old(State())
    {
      if tab >= MAX_TABS { return; }
      if |evts[tab]| >= QUEUE_CAP { evts := evts[tab := evts[tab][1..]]; }
      evts := evts[tab := evts[tab] + [evt]];
    }

    method PopEvent(tab: nat) returns (r: Option<Event>)
      requires Valid()
      modifies this
      ensures Valid()
      ensures if tab >= MAX_TABS || old(evts[tab]) == [] then r == None && State() == old(State())
              else r == Some(old(evts[tab][0])) && State() == WithEvts(old(State()), tab, old(evts[tab][1..]))
    {
      if tab >= MAX_TABS { return None; }
      if evts[tab] == [] { return None; }
      r := Some(evts[tab][0]);
      evts := evts[tab := evts[tab][1..]];
    }

    /** Takes every waiting event, in order, in one locked section. */
    method DrainEvents(tab: nat) returns (v: seq<Event>)
      requires Valid()
      modifies this
      ensures Valid()
      ensures if tab >= MAX_TABS then v == [] && State() == old(State())
              else v == old(evts[tab]) && State() == WithEvts(old(State()), tab, [])
    {
      v := [];
      if tab >= MAX_TABS { return; }
      while evts[tab] != []
        invariant Valid() && State() == WithEvts(old(State()), tab, evts[tab])
        invariant v + evts[tab] == old(evts[tab])
        decreases |evts[tab]|
      {
        v := v + [evts[tab][0]];
        evts := evts[tab := evts[tab][1..]];
      }
    }

    method StoreResponse(resp: Response)
      requires Valid()
      modifies this
      ensures Valid()
      ensures State() == if resp.tab < MAX_TABS then WithBody(old(State()), resp.tab, Some(resp)) else old(State())
    {
      if resp.tab >= MAX_TABS { return; }
      bodies := bodies[resp.tab := Some(resp)];
    }

    method TakeResponse(tab: nat) returns (r: Option<Response>)
      requires Valid()
      modifies this
      ensures Valid()
      ensures if tab >= MAX_TABS then r == None && State() == old(State())
              else r == old(bodies[tab]) && State() == WithBody(old(State()), tab, None)
    {
      if tab >= MAX_TABS { return None; }
      r := bodies[tab];
      bodies := bodies[tab := None];
    }
  }
}
