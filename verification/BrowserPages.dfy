/** What a tab reports over every run: each page that is loaded is announced, answered with what
    the network gave, and concluded. */
module BrowserPages {
  import opened Basics
  import opened BrowserIpc
  import opened BrowserSandbox
  import opened BrowserProtocol
  import opened BrowserRuns

  /** A page to be loaded, and what the network gives for it. */
  datatype Load = Load(url: string, net: Fetch)

  /** The loads that a command leads to: one where it asks for an address that is allowed. */
  function LoadOf(caps: Caps, current: string, cmd: Cmd, net: Fetch): (ls: seq<Load>) {
    match cmd
    case Navigate(url) => if Allowed(url, caps) then [Load(url, net)] else []
    case Reload => if Allowed(current, caps) then [Load(current, net)] else []
    case _ => []
  }

  function LoadsOf(caps: Caps, cmds: seq<Cmd>, nets: seq<Fetch>): (ls: seq<Load>)
    requires |cmds| == |nets|
  {
    if cmds == [] then []
    else
      var n := |cmds| - 1;
      LoadsOf(caps, cmds[..n], nets[..n]) + LoadOf(caps, LastNavigated(cmds[..n]), cmds[n], nets[n])
  }

  // ----- the answer to a load -----

  /** The response to a fetch: its status and the longest part of its body that the cap allows,
      or its error. */
  predicate Answers(r: Response, t: nat, caps: Caps, l: Load) {
    && r.tab == t && r.url == l.url && (r.isHttps <==> "https://" <= l.url)
    && match l.net
       case Fetched(status, body) =>
         && r.error == None && r.status == status && r.body <= body
         && (r.body == body || |r.body| == caps.maxKb * 1024 > 0)
         && (caps.maxKb > 0 ==> |r.body| <= caps.maxKb * 1024)
       case Failed(m) => r.error == Some(m) && r.status == 0 && r.body == []
  }

  /** The responses to loads, in order; pages of the browser's own have none. */
  ghost predicate AnswersAll(rs: seq<Response>, t: nat, caps: Caps, ls: seq<Load>)
    decreases |ls|
  {
    if ls == [] then rs == []
    else
      var l := ls[|ls| - 1];
      if IsLocal(l.url) then AnswersAll(rs, t, caps, ls[..|ls| - 1])
      else
        && rs != [] && Answers(rs[|rs| - 1], t, caps, l)
        && AnswersAll(rs[..|rs| - 1], t, caps, ls[..|ls| - 1])
  }

  lemma AnswersMore(rs: seq<Response>, t: nat, caps: Caps, ls: seq<Load>, l: Load, more: seq<Response>)
    requires AnswersAll(rs, t, caps, ls)
    requires if IsLocal(l.url) then more == [] else |more| == 1 && Answers(more[0], t, caps, l)
    ensures AnswersAll(rs + more, t, caps, ls + [l])
  {
    hide Answers, IsLocal;
    assert (ls + [l])[..|ls|] == ls;
    if IsLocal(l.url) {
      assert rs + more == rs;
    } else {
      assert (rs + more)[..|rs|] == rs;
    }
  }

  // ----- what is announced and concluded -----

  function UrlsIn(es: seq<Event>): (us: seq<string>) {
    if es == [] then []
    else UrlsIn(es[..|es| - 1]) + match es[|es| - 1] case UrlChanged(u) => [u] case _ => []
  }

  function DonesIn(es: seq<Event>): (ss: seq<nat>) {
    if es == [] then []
    else DonesIn(es[..|es| - 1]) + match es[|es| - 1] case LoadDone(s) => [s] case _ => []
  }

  lemma {:induction false} EventsJoin(a: seq<Event>, b: seq<Event>)
    ensures UrlsIn(a + b) == UrlsIn(a) + UrlsIn(b) && DonesIn(a + b) == DonesIn(a) + DonesIn(b)
    decreases |b|
  {
    if b == [] {
      assert a + b == a;
    } else {
      var n := |b| - 1;
      EventsJoin(a, b[..n]);
      assert (a + b)[..|a + b| - 1] == a + b[..n] && (a + b)[|a + b| - 1] == b[n];
    }
  }

  function UrlsOf(ls: seq<Load>): (us: seq<string>) {
    if ls == [] then [] else UrlsOf(ls[..|ls| - 1]) + [ls[|ls| - 1].url]
  }

  /** How a load ends: as pages of the browser's own do, with the status of the page, or with
      none for an error. */
  function Ending(l: Load): (s: nat) {
    if "about:" <= l.url || "data:" <= l.url then 200 else match l.net case Fetched(s, _) => s case Failed(_) => 0
  }

  /** What is concluded for a command: its load, or the stop itself. */
  function EndingsOf(caps: Caps, current: string, cmd: Cmd, net: Fetch): (ss: seq<nat>) {
    var ls := LoadOf(caps, current, cmd, net);
    if cmd.Stop? then [0] else if ls == [] then [] else [Ending(ls[0])]
  }

  function AllEndings(caps: Caps, cmds: seq<Cmd>, nets: seq<Fetch>): (ss: seq<nat>)
    requires |cmds| == |nets|
  {
    if cmds == [] then []
    else
      var n := |cmds| - 1;
      AllEndings(caps, cmds[..n], nets[..n]) + EndingsOf(caps, LastNavigated(cmds[..n]), cmds[n], nets[n])
  }

  // ----- one plan -----

  /** What the observer of some calls finds in them: bodies, addresses and endings. */
  ghost predicate Reports(p: seq<Action>, rs: seq<Response>, us: seq<string>, ss: seq<nat>) {
    Stored(p) == rs && UrlsIn(Emitted(p)) == us && DonesIn(Emitted(p)) == ss
  }

  lemma ReportsMore(p: seq<Action>, rs: seq<Response>, us: seq<string>, ss: seq<nat>, a: Action)
    requires Reports(p, rs, us, ss)
    ensures a.Store? ==> Reports(p + [a], rs + [a.response], us, ss)
    ensures a.Emit? && a.event.UrlChanged? ==> Reports(p + [a], rs, us + [a.event.url], ss)
    ensures a.Emit? && a.event.LoadDone? ==> Reports(p + [a], rs, us, ss + [a.event.status])
    ensures a.Emit? && !a.event.UrlChanged? && !a.event.LoadDone? ==> Reports(p + [a], rs, us, ss)
  {
    hide Emitted, Stored, UrlsIn, DonesIn;
    LogGrows(p, a);
    match a
    case Store(r) => assert Emitted(p) + [] == Emitted(p);
    case Emit(e) =>
      assert rs + [] == rs;
      OneMoreEvent(Emitted(p), e);
  }

  lemma OneMoreEvent(es: seq<Event>, e: Event)
    ensures UrlsIn(es + [e]) == if e.UrlChanged? then UrlsIn(es) + [e.url] else UrlsIn(es)
    ensures DonesIn(es + [e]) == if e.LoadDone? then DonesIn(es) + [e.status] else DonesIn(es)
  {
    assert (es + [e])[..|es|] == es;
    assert UrlsIn(es) + [] == UrlsIn(es) && DonesIn(es) + [] == DonesIn(es);
  }

  lemma PageReports(p: seq<Action>, rs: seq<Response>, us: seq<string>, ss: seq<nat>,
                    t: nat, caps: Caps, url: string, status: nat, body: seq<nat>)
    returns (r: Response)
    requires Reports(p, rs, us, ss)
    ensures Reports(p + PagePlan(t, caps, url, status, body), rs + [r], us, ss + [status])
    ensures Answers(r, t, caps, Load(url, Fetched(status, body)))
  {
    hide Reports, Capped;
    r := Response(t, url, status, Capped(body, caps), IsHttps(url), None);
    CappedIsLongestPrefix(body, caps);
    var q := PagePlan(t, caps, url, status, body);
    ReportsMore(p, rs, us, ss, q[0]);
    ReportsMore(p + [q[0]], rs, us, ss, q[1]);
    ReportsMore(p + [q[0]] + [q[1]], rs + [r], us, ss, q[2]);
    ReportsMore(p + [q[0]] + [q[1]] + [q[2]], rs + [r], us, ss, q[3]);
    assert p + q == p + [q[0]] + [q[1]] + [q[2]] + [q[3]];
  }

  lemma ErrorReports(p: seq<Action>, rs: seq<Response>, us: seq<string>, ss: seq<nat>,
                     t: nat, caps: Caps, url: string, m: string)
    returns (r: Response)
    requires Reports(p, rs, us, ss)
    ensures Reports(p + ErrorPlan(t, url, m), rs + [r], us, ss + [0])
    ensures Answers(r, t, caps, Load(url, Failed(m)))
  {
    hide Reports;
    r := Response(t, url, 0, [], IsHttps(url), Some(m));
    var q := ErrorPlan(t, url, m);
    ReportsMore(p, rs, us, ss, q[0]);
    ReportsMore(p + [q[0]], rs + [r], us, ss, q[1]);
    ReportsMore(p + [q[0]] + [q[1]], rs + [r], us, ss, q[2]);
    assert p + q == p + [q[0]] + [q[1]] + [q[2]];
  }

  lemma FetchReports(p: seq<Action>, rs: seq<Response>, us: seq<string>, ss: seq<nat>,
                     t: nat, caps: Caps, url: string, net: Fetch)
    returns (r: Response)
    requires Reports(p, rs, us, ss) && !IsLocal(url)
    ensures Reports(p + FetchPlan(t, caps, url, net), rs + [r], us, ss + [Ending(Load(url, net))])
    ensures Answers(r, t, caps, Load(url, net))
  {
    hide Reports, Answers, PagePlan, ErrorPlan, SecurityOf;
    var q := FetchPlan(t, caps, url, net);
    ReportsMore(p, rs, us, ss, q[0]);
    ReportsMore(p + [q[0]], rs, us, ss, q[1]);
    ReportsMore(p + [q[0]] + [q[1]], rs, us, ss, q[2]);
    var a := p + [q[0]] + [q[1]] + [q[2]];
    match net
    case Fetched(status, body) =>
      r := PageReports(a, rs, us, ss, t, caps, url, status, body);
      assert p + q == a + PagePlan(t, caps, url, status, body);
    case Failed(m) =>
      r := ErrorReports(a, rs, us, ss, t, caps, url, m);
      assert p + q == a + ErrorPlan(t, url, m);
  }

  /** The plan of a load reports the address, the answer and the ending of the load. */
  lemma LoadReports(p: seq<Action>, rs: seq<Response>, us: seq<string>, ss: seq<nat>,
                    t: nat, caps: Caps, url: string, net: Fetch)
    returns (more: seq<Response>)
    requires Reports(p, rs, us, ss) && Allowed(url, caps)
    ensures Reports(p + NavigatePlan(t, caps, url, net), rs + more, us + [url], ss + [Ending(Load(url, net))])
    ensures if IsLocal(url) then more == [] else |more| == 1 && Answers(more[0], t, caps, Load(url, net))
  {
    hide Reports, Answers, FetchPlan, CheckUrl;
    var q := NavigatePlan(t, caps, url, net);
    ReportsMore(p, rs, us, ss, q[0]);
    ReportsMore(p + [q[0]], rs, us + [url], ss, q[1]);
    ReportsMore(p + [q[0]] + [q[1]], rs, us + [url], ss, q[2]);
    var a := p + [q[0]] + [q[1]] + [q[2]];
    if IsLocal(url) {
      more := [];
      ReportsMore(a, rs, us + [url], ss, q[3]);
      ReportsMore(a + [q[3]], rs, us + [url], ss, q[4]);
      assert p + q == a + [q[3]] + [q[4]] && rs + [] == rs;
    } else {
      var r := FetchReports(a, rs, us + [url], ss, t, caps, url, net);
      more := [r];
      assert p + q == a + FetchPlan(t, caps, url, net);
    }
  }

  /** A command that asks for a blocked address only says so, with a reason. */
  lemma BlockedSaysWhy(t: nat, caps: Caps, current: string, cmd: Cmd, net: Fetch) returns (reason: string)
    requires (cmd.Navigate? && !Allowed(cmd.url, caps)) || (cmd.Reload? && !Allowed(current, caps))
    ensures Plan(t, caps, current, cmd, net) == [Emit(LoadError("Blocked: " + reason))] && reason != ""
  {
    reason := CheckUrl(if cmd.Navigate? then cmd.url else current, caps).value;
  }

  lemma PlanReports(p: seq<Action>, rs: seq<Response>, us: seq<string>, ss: seq<nat>,
                    t: nat, caps: Caps, current: string, cmd: Cmd, net: Fetch)
    returns (more: seq<Response>)
    requires Reports(p, rs, us, ss)
    ensures var ls := LoadOf(caps, current, cmd, net);
            && Reports(p + Plan(t, caps, current, cmd, net), rs + more, us + UrlsOf(ls),
                       ss + EndingsOf(caps, current, cmd, net))
            && (ls == [] ==> more == [])
            && (ls != [] ==>
                if IsLocal(ls[0].url) then more == [] else |more| == 1 && Answers(more[0], t, caps, ls[0]))
  {
    hide Reports, Answers, NavigatePlan, CheckUrl, IsLocal;
    var ls := LoadOf(caps, current, cmd, net);
    more := [];
    assert rs + [] == rs && us + [] == us && ss + [] == ss && p + [] == p;
    if ls != [] {
      assert ls[..0] == [];
      assert UrlsOf(ls) == [ls[0].url];
      more := LoadReports(p, rs, us, ss, t, caps, ls[0].url, net);
    } else if cmd.Navigate? || cmd.Reload? {
      var why := BlockedSaysWhy(t, caps, current, cmd, net);
      ReportsMore(p, rs, us, ss, Emit(LoadError("Blocked: " + why)));
    } else if cmd.Stop? {
      ReportsMore(p, rs, us, ss, Emit(LoadDone(0)));
    }
  }

  // ----- all plans of a run -----

  lemma {:induction false} PlansReport(t: nat, caps: Caps, cmds: seq<Cmd>, nets: seq<Fetch>) returns (rs: seq<Response>)
    requires |cmds| == |nets|
    ensures Reports(PlansOf(t, caps, cmds, nets), rs, UrlsOf(LoadsOf(caps, cmds, nets)), AllEndings(caps, cmds, nets))
    ensures AnswersAll(rs, t, caps, LoadsOf(caps, cmds, nets))
    decreases |cmds|
  {
    hide Plan, LoadOf, EndingsOf, LastNavigated, Answers, IsLocal;
    if cmds == [] {
      rs := [];
    } else {
      var n := |cmds| - 1;
      var url := LastNavigated(cmds[..n]);
      var before := PlansReport(t, caps, cmds[..n], nets[..n]);
      var ls, added := LoadsOf(caps, cmds[..n], nets[..n]), LoadOf(caps, url, cmds[n], nets[n]);
      var more := PlanReports(PlansOf(t, caps, cmds[..n], nets[..n]), before, UrlsOf(ls),
                              AllEndings(caps, cmds[..n], nets[..n]), t, caps, url, cmds[n], nets[n]);
      rs := before + more;
      OneMoreLoad(ls, caps, url, cmds[n], nets[n]);
      if added == [] {
        assert before + more == before;
      } else {
        AnswersMore(before, t, caps, ls, added[0], more);
      }
    }
  }

  lemma OneMoreLoad(ls: seq<Load>, caps: Caps, current: string, cmd: Cmd, net: Fetch)
    ensures var added := LoadOf(caps, current, cmd, net);
            && UrlsOf(ls + added) == UrlsOf(ls) + UrlsOf(added)
            && (if added == [] then ls + added == ls else added == [added[0]])
  {
    var added := LoadOf(caps, current, cmd, net);
    if added == [] {
      assert ls + added == ls && UrlsOf(ls) + [] == UrlsOf(ls);
    } else {
      assert (ls + added)[..|ls|] == ls && added[..0] == [];
    }
  }

  /** Over every run, for every tab: the calls made and still to be made announce each load that was
      asked for, in order, store for each fetched page what the network gave for it, and
      conclude each load and each stop. */
  lemma EveryLoadIsAnswered(caps: Caps, ls: seq<Label>, t: nat)
    requires t < 8
    ensures var x := TabOf(Run(Start(), caps, ls), t);
            var all := x.past.log + x.thread.todo;
            && |x.past.nets| == |x.past.obeyed|
            && UrlsIn(Emitted(all)) == UrlsOf(LoadsOf(caps, x.past.obeyed, x.past.nets))
            && AnswersAll(Stored(all), t, caps, LoadsOf(caps, x.past.obeyed, x.past.nets))
            && DonesIn(Emitted(all)) == AllEndings(caps, x.past.obeyed, x.past.nets)
  {
    hide Delivers, Mails, Step, PlansOf, LastNavigated, WatchAll;
    EveryRunIsSound(caps, ls, t);
    var x := TabOf(Run(Start(), caps, ls), t);
    var rs := PlansReport(t, caps, x.past.obeyed, x.past.nets);
  }

  /** So every body that was stored, in every run, is the answer to a load that a command asked for. */
  lemma {:induction false} EveryBodyAnswers(rs: seq<Response>, t: nat, caps: Caps, ls: seq<Load>, k: nat)
    returns (i: nat)
    requires AnswersAll(rs, t, caps, ls) && k < |rs|
    ensures i < |ls| && !IsLocal(ls[i].url) && Answers(rs[k], t, caps, ls[i])
    decreases |ls|
  {
    hide Answers, IsLocal;
    var n := |ls| - 1;
    if IsLocal(ls[n].url) {
      i := EveryBodyAnswers(rs, t, caps, ls[..n], k);
    } else if k == |rs| - 1 {
      i := n;
    } else {
      i := EveryBodyAnswers(rs[..|rs| - 1], t, caps, ls[..n], k);
    }
  }
}
