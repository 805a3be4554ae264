/** The sandboxed tab renderer: which addresses it may load, and what it puts on
    the bus for each command. */
module BrowserSandbox {
  import opened Basics
  import opened BrowserIpc

  datatype Caps = Caps(allowNet: bool, httpsOnly: bool, maxKb: nat, origins: seq<string>)

  function DefaultWeb(): (c: Caps) { Caps(true, false, 8192, []) }

  // ----- addresses -----

  predicate StartsWith(s: string, p: string) { p <= s }

  predicate IsHttps(url: string) { StartsWith(url, "https://") }
  predicate IsHttp(url: string) { StartsWith(url, "http://") }
  predicate IsLocal(url: string) { StartsWith(url, "about:") || StartsWith(url, "data:") }

  /** Up to the first slash. */
  function Host(rest: string): (h: string)
    ensures h <= rest && '/' !in h && (h == rest || rest[|h|] == '/')
  {
    if rest == "" || rest[0] == '/' then "" else [rest[0]] + Host(rest[1..])
  }

  function Origin(url: string): (o: string) {
    if IsHttps(url) then "https://" + Host(url[8..])
    else if IsHttp(url) then "http://" + Host(url[7..])
    else url
  }

  function CheckUrl(url: string, caps: Caps): (r: Option<string>) {
    if !caps.allowNet then Some("Network access disabled for this tab")
    else if IsLocal(url) then None
    else if !IsHttps(url) && !IsHttp(url) then Some("Only http:// and https:// URLs are supported")
    else if caps.httpsOnly && IsHttp(url) then Some("HTTP blocked — HTTPS required by policy")
    else if caps.origins != [] && Origin(url) !in caps.origins then Some("Origin not in allow-list")
    else None
  }

  predicate Allowed(url: string, caps: Caps) { CheckUrl(url, caps) == None }

  /** What the check promises about an address that is fetched: it is a web
      address, an encrypted one where the policy says so, and where there is an
      allow-list it is an address under one of the listed origins. */
  predicate Fetchable(url: string, caps: Caps) {
    && caps.allowNet
    && (IsHttps(url) || (IsHttp(url) && !caps.httpsOnly))
    && (caps.origins == [] || exists o :: o in caps.origins && o <= url && (o == url || url[|o|] == '/'))
  }

  lemma AllowedIsFetchable(url: string, caps: Caps)
    requires Allowed(url, caps) && !IsLocal(url)
    ensures Fetchable(url, caps)
  {
    if caps.origins != [] {
      OriginIsPrefix(url);
      assert Origin(url) in caps.origins;
    }
  }

  lemma OriginIsPrefix(url: string)
    requires IsHttps(url) || IsHttp(url)
    ensures Origin(url) <= url && (Origin(url) == url || url[|Origin(url)|] == '/')
  {
    if IsHttps(url) {
      assert url == "https://" + url[8..];
      PrefixUnder("https://", Host(url[8..]), url[8..]);
    } else {
      assert url == "http://" + url[7..];
      PrefixUnder("http://", Host(url[7..]), url[7..]);
    }
  }

  /** An origin: a scheme and what follows it up to the first slash. */
  predicate IsOriginOf(o: string, url: string) {
    && (("https://" <= o && '/' !in o[8..]) || ("http://" <= o && '/' !in o[7..]))
    && o <= url && (o == url || url[|o|] == '/')
  }

  /** A web address has one origin. */
  lemma OriginIsOnly(o: string, url: string)
    requires IsHttps(url) || IsHttp(url)
    ensures IsOriginOf(o, url) <==> o == Origin(url)
  {
    OriginIsPrefix(url);
    var n := if IsHttps(url) then 8 else 7;
    var h := Host(url[n..]);
    assert Origin(url)[n..] == h;
    if IsOriginOf(o, url) {
      assert o[4] == url[4] && o[n..] <= url[n..];
      SameHost(o[n..], h, url[n..]);
      assert o == o[..n] + o[n..] && o[..n] == url[..n] == Origin(url)[..n];
    }
  }

  lemma SameHost(a: string, h: string, rest: string)
    requires a <= rest && '/' !in a && (a == rest || rest[|a|] == '/')
    requires h <= rest && '/' !in h && (h == rest || rest[|h|] == '/')
    ensures a == h
  {
    if |a| < |h| { assert false; }
    if |h| < |a| { assert false; }
  }

  /** The check, exactly: with network access, pages of the browser's own are let through, and web
      addresses that meet the policy; nothing else is. */
  lemma AllowedExactly(url: string, caps: Caps)
    ensures Allowed(url, caps) <==>
            && caps.allowNet
            && (|| "about:" <= url || "data:" <= url
                || (&& ("https://" <= url || ("http://" <= url && !caps.httpsOnly))
                    && (caps.origins == [] || exists o :: o in caps.origins && IsOriginOf(o, url))))
  {
    if IsHttps(url) || IsHttp(url) {
      forall o ensures IsOriginOf(o, url) <==> o == Origin(url) { OriginIsOnly(o, url); }
      assert (exists o :: o in caps.origins && IsOriginOf(o, url)) <==> Origin(url) in caps.origins;
      if IsHttps(url) { assert url[4] == 's'; }
    }
  }

  /** A new tab may load every web address. */
  lemma DefaultAllowsWeb(url: string)
    ensures Allowed(url, DefaultWeb()) <==>
            "about:" <= url || "data:" <= url || "https://" <= url || "http://" <= url
  {}

  lemma PrefixUnder(a: string, h: string, rest: string)
    requires h <= rest && (h == rest || rest[|h|] == '/')
    ensures a + h <= a + rest && (a + h == a + rest || (a + rest)[|a + h|] == '/')
  {}

  // ----- what a command does -----

  /** What the network gave. */
  datatype Fetch = Fetched(status: nat, body: seq<nat>) | Failed(message: string)

  /** One locked call on the bus. */
  datatype Action = Emit(event: Event) | Store(response: Response)

  function MaxBytes(caps: Caps): (n: nat) { caps.maxKb * 1024 }

  function Capped(body: seq<nat>, caps: Caps): (r: seq<nat>) {
    if MaxBytes(caps) > 0 && |body| > MaxBytes(caps) then body[..MaxBytes(caps)] else body
  }

  /** What is kept of a page: all of it, or as much as the cap allows. */
  lemma CappedIsLongestPrefix(body: seq<nat>, caps: Caps)
    ensures Capped(body, caps) <= body
    ensures caps.maxKb > 0 ==> |Capped(body, caps)| <= caps.maxKb * 1024
    ensures Capped(body, caps) == body || |Capped(body, caps)| == caps.maxKb * 1024 > 0
  {}

  /** A new tab keeps eight mebibytes of a page. */
  lemma DefaultKeeps(body: seq<nat>)
    ensures Capped(body, DefaultWeb()) == if |body| <= 8 * 1024 * 1024 then body else body[..8 * 1024 * 1024]
  {}

  function SecurityOf(url: string): (s: Security) {
    if IsHttps(url) then Security(true, true, Host(url[8..]), [])
    else Security(false, false, "", ["Connection not secure (HTTP)"])
  }

  function PagePlan(tab: nat, caps: Caps, url: string, status: nat, body: seq<nat>): (p: seq<Action>) {
    [Emit(LoadProgress(90)), Store(Response(tab, url, status, Capped(body, caps), IsHttps(url), None)),
     Emit(LoadProgress(100)), Emit(LoadDone(status))]
  }

  function ErrorPlan(tab: nat, url: string, m: string): (p: seq<Action>) {
    [Store(Response(tab, url, 0, [], IsHttps(url), Some(m))), Emit(LoadError(m)), Emit(LoadDone(0))]
  }

  function FetchPlan(tab: nat, caps: Caps, url: string, f: Fetch): (p: seq<Action>) {
    [Emit(LoadProgress(30)), Emit(SecurityChanged(SecurityOf(url))), Emit(LoadProgress(50))] +
    match f
    case Fetched(status, body) => PagePlan(tab, caps, url, status, body)
    case Failed(m) => ErrorPlan(tab, url, m)
  }

  function NavigatePlan(tab: nat, caps: Caps, url: string, f: Fetch): (p: seq<Action>) {
    match CheckUrl(url, caps)
    case Some(reason) => [Emit(LoadError("Blocked: " + reason))]
    case None =>
      [Emit(UrlChanged(url)), Emit(LoadStarted), Emit(LoadProgress(10))] +
      if IsLocal(url) then [Emit(LoadProgress(100)), Emit(LoadDone(200))] else FetchPlan(tab, caps, url, f)
  }

  /** The calls a command leads to, in order, and the address afterwards. */
  function Plan(tab: nat, caps: Caps, current: string, cmd: Cmd, f: Fetch): (p: seq<Action>) {
    match cmd
    case Navigate(url) => NavigatePlan(tab, caps, url, f)
    case Reload => NavigatePlan(tab, caps, current, f)
    case Stop => [Emit(LoadDone(0))]
    case _ => []
  }

  function NextUrl(current: string, cmd: Cmd): (u: string) {
    if cmd.Navigate? then cmd.url else current
  }

  function Act(b: Bus, tab: nat, a: Action): (r: Bus)
    requires WellFormed(b) && tab < MAX_TABS
    ensures WellFormed(r)
  {
    match a
    case Emit(e) => WithEvts(b, tab, Pushed(b.evts[tab], e))
    case Store(resp) => WithBody(b, tab, Some(resp))
  }

  function ActAll(b: Bus, tab: nat, p: seq<Action>): (r: Bus)
    requires WellFormed(b) && tab < MAX_TABS
    ensures WellFormed(r)
    decreases |p|
  {
    if p == [] then b else ActAll(Act(b, tab, p[0]), tab, p[1..])
  }

  lemma {:induction false} ActAllAppend(b: Bus, tab: nat, p: seq<Action>, q: seq<Action>)
    requires WellFormed(b) && tab < MAX_TABS
    ensures ActAll(b, tab, p + q) == ActAll(ActAll(b, tab, p), tab, q)
    decreases |p|
  {
    if p == [] {
      assert p + q == q;
    } else {
      assert (p + q)[1..] == p[1..] + q;
      ActAllAppend(Act(b, tab, p[0]), tab, p[1..], q);
    }
  }

  lemma ActOne(b: Bus, tab: nat, p: seq<Action>, a: Action)
    requires WellFormed(b) && tab < MAX_TABS
    ensures ActAll(b, tab, p + [a]) == Act(ActAll(b, tab, p), tab, a)
  {
    ActAllAppend(b, tab, p, [a]);
    assert [a][1..] == [];
  }

  lemma Extend(p: seq<Action>, all: seq<Action>, k: nat)
    requires k < |all|
    ensures k == 0 ==> p + [all[0]] == p + all[..1]
    ensures p + all[..k] + [all[k]] == p + all[..k + 1]
    ensures k + 1 == |all| ==> p + all[..k + 1] == p + all
  {
    assert all[..k + 1] == all[..k] + [all[k]];
    assert k + 1 == |all| ==> all[..k + 1] == all;
  }

  class TabRenderer {
    const tab: nat
    const caps: Caps
    const ipc: Ipc
    var currentUrl: string
    var loading: bool

    constructor (tab: nat, ipc: Ipc)
      ensures this.tab == tab && this.ipc == ipc && caps == DefaultWeb() && currentUrl == "about:home" && !loading
    {
      this.tab := tab;
      this.ipc := ipc;
      caps := DefaultWeb();
      currentUrl := "about:home";
      loading := false;
    }

    method Send(a: Action, ghost start: Bus, ghost done: seq<Action>)
      requires ipc.Valid() && tab < MAX_TABS && (a.Store? ==> a.response.tab == tab)
      requires WellFormed(start) && ipc.State() == ActAll(start, tab, done)
      modifies ipc
      ensures ipc.Valid() && ipc.State() == ActAll(start, tab, done + [a])
    {
      ActOne(start, tab, done, a);
      match a
      case Emit(e) => ipc.PushEvent(tab, e);
      case Store(r) => ipc.StoreResponse(r);
    }

    /** Runs a command to its end: the calls on the bus are those of its plan. */
    method HandleCmd(cmd: Cmd, net: Fetch)
      requires ipc.Valid() && tab < MAX_TABS
      modifies this`currentUrl, this`loading, ipc
      ensures ipc.Valid()
      ensures ipc.State() == ActAll(old(ipc.State()), tab, Plan(tab, caps, old(currentUrl), cmd, net))
      ensures currentUrl == NextUrl(old(currentUrl), cmd)
      ensures loading == (old(loading) && !cmd.Navigate? && !cmd.Reload? && !cmd.Stop?)
    {
      hide NavigatePlan, ActAll;
      match cmd
      case Navigate(url) => NavigateTo(url, net);
      case Reload =>
        var url := currentUrl;
        NavigateTo(url, net);
      case Stop =>
        loading := false;
        Nothing(ipc.State());
        assert [] + [Emit(LoadDone(0))] == [Emit(LoadDone(0))];
        Send(Emit(LoadDone(0)), ipc.State(), []);
      case _ => Nothing(ipc.State());
    }

    lemma Nothing(b: Bus)
      requires WellFormed(b) && tab < MAX_TABS
      ensures ActAll(b, tab, []) == b
    {}

    method NavigateTo(url: string, net: Fetch)
      requires ipc.Valid() && tab < MAX_TABS
      modifies this`currentUrl, this`loading, ipc
      ensures ipc.Valid() && currentUrl == url && !loading
      ensures ipc.State() == ActAll(old(ipc.State()), tab, NavigatePlan(tab, caps, url, net))
    {
      hide ActAll, FetchPlan;
      ghost var s := ipc.State();
      Nothing(s);
      currentUrl := url;
      loading := true;
      var blocked := CheckUrl(url, caps);
      if blocked.Some? {
        Send(Emit(LoadError("Blocked: " + blocked.value)), s, []);
        assert [] + [Emit(LoadError("Blocked: " + blocked.value))] == NavigatePlan(tab, caps, url, net);
        loading := false;
        return;
      }
      ghost var p: seq<Action> := [Emit(UrlChanged(url)), Emit(LoadStarted), Emit(LoadProgress(10))];
      Send(Emit(UrlChanged(url)), s, []);
      Send(Emit(LoadStarted), s, [] + [Emit(UrlChanged(url))]);
      Send(Emit(LoadProgress(10)), s, [] + [Emit(UrlChanged(url))] + [Emit(LoadStarted)]);
      assert [] + [Emit(UrlChanged(url))] + [Emit(LoadStarted)] + [Emit(LoadProgress(10))] == p;
      if IsLocal(url) {
        Send(Emit(LoadProgress(100)), s, p);
        Send(Emit(LoadDone(200)), s, p + [Emit(LoadProgress(100))]);
        assert p + [Emit(LoadProgress(100))] + [Emit(LoadDone(200))]
               == p + [Emit(LoadProgress(100)), Emit(LoadDone(200))];
        loading := false;
        return;
      }
      FetchAndStore(url, net, s, p);
      loading := false;
    }

    method FetchAndStore(url: string, net: Fetch, ghost s: Bus, ghost p: seq<Action>)
      requires ipc.Valid() && tab < MAX_TABS && WellFormed(s) && ipc.State() == ActAll(s, tab, p)
      modifies ipc
      ensures ipc.Valid() && ipc.State() == ActAll(s, tab, p + FetchPlan(tab, caps, url, net))
    {
      hide ActAll;
      ghost var all := FetchPlan(tab, caps, url, net);
      Send(Emit(LoadProgress(30)), s, p);
      Extend(p, all, 0);
      var sec := if IsHttps(url) then Security(true, true, Host(url[8..]), [])
                 else Security(false, false, "", ["Connection not secure (HTTP)"]);
      Send(Emit(SecurityChanged(sec)), s, p + all[..1]);
      Extend(p, all, 1);
      Send(Emit(LoadProgress(50)), s, p + all[..2]);
      Extend(p, all, 2);
      match net
      case Fetched(status, body) => KeepPage(url, status, body, s, p + all[..3]);
        assert p + all[..3] + PagePlan(tab, caps, url, status, body) == p + all;
      case Failed(m) => KeepError(url, m, s, p + all[..3]);
        assert p + all[..3] + ErrorPlan(tab, url, m) == p + all;
    }

    method KeepPage(url: string, status: nat, body: seq<nat>, ghost s: Bus, ghost p: seq<Action>)
      requires ipc.Valid() && tab < MAX_TABS && WellFormed(s) && ipc.State() == ActAll(s, tab, p)
      modifies ipc
      ensures ipc.Valid() && ipc.State() == ActAll(s, tab, p + PagePlan(tab, caps, url, status, body))
    {
      hide ActAll;
      ghost var all := PagePlan(tab, caps, url, status, body);
      var maxBytes := caps.maxKb * 1024;
      var kept := if maxBytes > 0 && |body| > maxBytes then body[..maxBytes] else body;
      Send(Emit(LoadProgress(90)), s, p);
      Extend(p, all, 0);
      Send(Store(Response(tab, url, status, kept, IsHttps(url), None)), s, p + all[..1]);
      Extend(p, all, 1);
      Send(Emit(LoadProgress(100)), s, p + all[..2]);
      Extend(p, all, 2);
      Send(Emit(LoadDone(status)), s, p + all[..3]);
      Extend(p, all, 3);
    }

    method KeepError(url: string, m: string, ghost s: Bus, ghost p: seq<Action>)
      requires ipc.Valid() && tab < MAX_TABS && WellFormed(s) && ipc.State() == ActAll(s, tab, p)
      modifies ipc
      ensures ipc.Valid() && ipc.State() == ActAll(s, tab, p + ErrorPlan(tab, url, m))
    {
      hide ActAll;
      ghost var all := ErrorPlan(tab, url, m);
      Send(Store(Response(tab, url, 0, [], IsHttps(url), Some(m))), s, p);
      Extend(p, all, 0);
      Send(Emit(LoadError(m)), s, p + all[..1]);
      Extend(p, all, 1);
      Send(Emit(LoadDone(0)), s, p + all[..2]);
      Extend(p, all, 2);
    }
  }
}
