/** The protocol of loading a page, as an observer of a tab's calls on the bus sees it. */
module BrowserProtocol {
  import opened Basics
  import opened BrowserIpc
  import opened BrowserSandbox

  // ----- what is in a list of calls -----

  function Emitted(log: seq<Action>): (es: seq<Event>) {
    if log == [] then []
    else Emitted(log[..|log| - 1]) + match log[|log| - 1] case Emit(e) => [e] case Store(_) => []
  }

  function Stored(log: seq<Action>): (rs: seq<Response>) {
    if log == [] then []
    else Stored(log[..|log| - 1]) + match log[|log| - 1] case Emit(_) => [] case Store(r) => [r]
  }

  lemma LogGrows(log: seq<Action>, a: Action)
    ensures Emitted(log + [a]) == Emitted(log) + match a case Emit(e) => [e] case Store(_) => []
    ensures Stored(log + [a]) == Stored(log) + match a case Emit(_) => [] case Store(r) => [r]
  {
    assert (log + [a])[..|log|] == log;
  }

  lemma {:induction false} LogJoins(a: seq<Action>, b: seq<Action>)
    ensures Emitted(a + b) == Emitted(a) + Emitted(b) && Stored(a + b) == Stored(a) + Stored(b)
    decreases |b|
  {
    hide Emitted, Stored;
    if b == [] {
      assert a + b == a;
      NothingLogged(a);
    } else {
      var n := |b| - 1;
      LogJoins(a, b[..n]);
      LogGrows(a + b[..n], b[n]);
      LogGrows(b[..n], b[n]);
      assert a + b[..n] + [b[n]] == a + b && b[..n] + [b[n]] == b;
    }
  }

  lemma NothingLogged(a: seq<Action>)
    ensures Emitted(a) + Emitted([]) == Emitted(a) && Stored(a) + Stored([]) == Stored(a)
  {}

  // ----- the protocol -----

  /** What an observer knows: nothing is loading, an address was announced, a page is loading
      (how far, and whether its security was reported), or its body is stored (and an error
      in it reported or not); Broken when the protocol was broken. */
  datatype Phase =
    | Idle
    | Announced(url: string)
    | Loading(url: string, percent: nat, secured: bool)
    | Kept(url: string, response: Response, percent: nat, told: bool)
    | Broken

  /** A body may be stored only for the address being loaded, which the policy
      must allow, and no longer than the cap. */
  predicate Proper(r: Response, t: nat, caps: Caps) {
    && Allowed(r.url, caps) && Fetchable(r.url, caps) && r.tab == t
    && (caps.maxKb == 0 || |r.body| <= caps.maxKb * 1024)
    && (r.isHttps <==> IsHttps(r.url))
    && (r.error.Some? ==> r.body == [] && r.status == 0)
  }

  /** What may be said about the security of an address: an encrypted one is valid for its host,
      any other is not secure and comes with a warning. */
  predicate Secures(s: Security, url: string) {
    if IsHttps(url) then
      && s.https && s.certValid && s.warnings == [] && '/' !in s.subject
      && "https://" + s.subject <= url && (8 + |s.subject| == |url| || url[8 + |s.subject|] == '/')
    else !s.https && !s.certValid && s.subject == "" && s.warnings != []
  }

  function WatchEvent(p: Phase, e: Event): (r: Phase) {
    match e
    case UrlChanged(u) => if p == Idle then Announced(u) else Broken
    case LoadStarted => if p.Announced? then Loading(p.url, 0, false) else Broken
    case LoadProgress(n) =>
      if p.Loading? && p.percent < n <= 100 then Loading(p.url, n, p.secured)
      else if p.Kept? && p.response.error == None && p.percent < n <= 100 then Kept(p.url, p.response, n, p.told)
      else Broken
    case SecurityChanged(s) =>
      if p.Loading? && !IsLocal(p.url) && !p.secured && Secures(s, p.url) then p.(secured := true) else Broken
    case LoadError(m) =>
      if p == Idle then Idle
      else if p.Kept? && p.response.error == Some(m) && !p.told then p.(told := true)
      else Broken
    case LoadDone(s) =>
      if p == Idle && s == 0 then Idle
      else if p.Loading? && IsLocal(p.url) && p.percent == 100 && s == 200 then Idle
      else if p.Kept? && s == p.response.status && (if p.response.error == None then p.percent == 100 else p.told)
      then Idle
      else Broken
    case _ => p
  }

  function Watch(p: Phase, a: Action, t: nat, caps: Caps): (r: Phase) {
    match a
    case Emit(e) => WatchEvent(p, e)
    case Store(r) =>
      if p.Loading? && p.secured && !IsLocal(p.url) && r.url == p.url && Proper(r, t, caps)
      then Kept(p.url, r, p.percent, false)
      else Broken
  }

  function WatchAll(p: Phase, log: seq<Action>, t: nat, caps: Caps): (r: Phase)
    decreases |log|
  {
    if log == [] then p else WatchAll(Watch(p, log[0], t, caps), log[1..], t, caps)
  }

  lemma {:induction false} WatchAppend(p: Phase, a: seq<Action>, b: seq<Action>, t: nat, caps: Caps)
    ensures WatchAll(p, a + b, t, caps) == WatchAll(WatchAll(p, a, t, caps), b, t, caps)
    decreases |a|
  {
    hide Watch;
    if a == [] {
      assert a + b == b;
    } else {
      assert (a + b)[1..] == a[1..] + b;
      WatchAppend(Watch(p, a[0], t, caps), a[1..], b, t, caps);
    }
  }

  lemma {:induction false} BrokenStays(log: seq<Action>, t: nat, caps: Caps)
    ensures WatchAll(Broken, log, t, caps) == Broken
    decreases |log|
  {
    if log != [] {
      BrokenStays(log[1..], t, caps);
    }
  }

  lemma NothingSeen(p: Phase, t: nat, caps: Caps)
    ensures WatchAll(p, [], t, caps) == p
  {}

  lemma Seen1(p: Phase, a: Action, t: nat, caps: Caps)
    ensures WatchAll(p, [a], t, caps) == Watch(p, a, t, caps)
  {
    hide Watch;
    assert [a][1..] == [];
  }

  lemma Seen2(p: Phase, a: Action, b: Action, t: nat, caps: Caps)
    ensures WatchAll(p, [a, b], t, caps) == Watch(Watch(p, a, t, caps), b, t, caps)
  {
    hide Watch;
    assert [a, b][1..] == [b];
    Seen1(Watch(p, a, t, caps), b, t, caps);
  }

  lemma Seen3(p: Phase, a: Action, b: Action, c: Action, t: nat, caps: Caps)
    ensures WatchAll(p, [a, b, c], t, caps) == Watch(Watch(Watch(p, a, t, caps), b, t, caps), c, t, caps)
  {
    hide Watch;
    assert [a, b, c][1..] == [b, c];
    Seen2(Watch(p, a, t, caps), b, c, t, caps);
  }

  /** Every command's plan, whatever the network gives, follows the protocol. */
  lemma PlanKeepsProtocol(t: nat, caps: Caps, current: string, cmd: Cmd, net: Fetch)
    ensures WatchAll(Idle, Plan(t, caps, current, cmd, net), t, caps) == Idle
  {
    hide NavigatePlan;
    match cmd
    case Navigate(url) => NavigateKeepsProtocol(t, caps, url, net);
    case Reload => NavigateKeepsProtocol(t, caps, current, net);
    case Stop => Seen1(Idle, Emit(LoadDone(0)), t, caps);
    case _ => NothingSeen(Idle, t, caps);
  }

  lemma NavigateKeepsProtocol(t: nat, caps: Caps, url: string, net: Fetch)
    ensures WatchAll(Idle, NavigatePlan(t, caps, url, net), t, caps) == Idle
  {
    hide FetchPlan, CheckUrl, WatchAll, IsLocal;
    match CheckUrl(url, caps)
    case Some(reason) => Seen1(Idle, Emit(LoadError("Blocked: " + reason)), t, caps);
    case None =>
      var a := [Emit(UrlChanged(url)), Emit(LoadStarted), Emit(LoadProgress(10))];
      Seen3(Idle, a[0], a[1], a[2], t, caps);
      assert WatchAll(Idle, a, t, caps) == Loading(url, 10, false);
      if IsLocal(url) {
        var b := [Emit(LoadProgress(100)), Emit(LoadDone(200))];
        WatchAppend(Idle, a, b, t, caps);
        Seen2(Loading(url, 10, false), b[0], b[1], t, caps);
      } else {
        WatchAppend(Idle, a, FetchPlan(t, caps, url, net), t, caps);
        FetchKeepsProtocol(t, caps, url, net);
      }
  }

  lemma SecurityIsRight(url: string)
    ensures Secures(SecurityOf(url), url)
  {
    if IsHttps(url) {
      assert url == "https://" + url[8..];
      PrefixUnder("https://", Host(url[8..]), url[8..]);
    }
  }

  lemma FetchKeepsProtocol(t: nat, caps: Caps, url: string, net: Fetch)
    requires Allowed(url, caps) && !IsLocal(url)
    ensures WatchAll(Loading(url, 10, false), FetchPlan(t, caps, url, net), t, caps) == Idle
  {
    hide SecurityOf, CheckUrl, Secures, WatchAll, PagePlan, ErrorPlan, IsLocal, Fetchable;
    var start := Loading(url, 10, false);
    var a := [Emit(LoadProgress(30)), Emit(SecurityChanged(SecurityOf(url))), Emit(LoadProgress(50))];
    var b := match net case Fetched(status, body) => PagePlan(t, caps, url, status, body)
             case Failed(m) => ErrorPlan(t, url, m);
    SecurityIsRight(url);
    Seen3(start, a[0], a[1], a[2], t, caps);
    WatchAppend(start, a, b, t, caps);
    AllowedIsFetchable(url, caps);
    match net
    case Fetched(status, body) => PageKeepsProtocol(t, caps, url, status, body);
    case Failed(m) => ErrorKeepsProtocol(t, caps, url, m);
  }

  lemma PageKeepsProtocol(t: nat, caps: Caps, url: string, status: nat, body: seq<nat>)
    requires Allowed(url, caps) && Fetchable(url, caps) && !IsLocal(url)
    ensures WatchAll(Loading(url, 50, true), PagePlan(t, caps, url, status, body), t, caps) == Idle
  {
    hide CheckUrl, Fetchable, IsHttps, WatchAll, IsLocal;
    var p, b := Loading(url, 50, true), PagePlan(t, caps, url, status, body);
    assert b == [b[0], b[1]] + [b[2], b[3]];
    Seen2(p, b[0], b[1], t, caps);
    assert Proper(b[1].response, t, caps);
    WatchAppend(p, [b[0], b[1]], [b[2], b[3]], t, caps);
    Seen2(Kept(url, b[1].response, 90, false), b[2], b[3], t, caps);
  }

  lemma ErrorKeepsProtocol(t: nat, caps: Caps, url: string, m: string)
    requires Allowed(url, caps) && Fetchable(url, caps) && !IsLocal(url)
    ensures WatchAll(Loading(url, 50, true), ErrorPlan(t, url, m), t, caps) == Idle
  {
    hide CheckUrl, Fetchable, IsHttps, WatchAll, IsLocal;
    var b := ErrorPlan(t, url, m);
    assert Proper(b[0].response, t, caps);
    Seen3(Loading(url, 50, true), b[0], b[1], b[2], t, caps);
  }

  // ----- what an unbroken protocol means -----

  lemma {:induction false} StoredIsProper(p: Phase, log: seq<Action>, k: nat, t: nat, caps: Caps)
    requires WatchAll(p, log, t, caps) != Broken && k < |log| && log[k].Store?
    ensures Proper(log[k].response, t, caps)
    decreases |log|
  {
    hide Proper;
    if k == 0 {
      BrokenStays(log[1..], t, caps);
    } else {
      StoredIsProper(Watch(p, log[0], t, caps), log[1..], k - 1, t, caps);
    }
  }

  predicate IsDone(a: Action) { a.Emit? && a.event.LoadDone? }

  /** The first LoadDone after a fetched address was announced carries the status of
      a body of that address that was stored in between. */
  lemma {:induction false} StoredBeforeDone(p: Phase, log: seq<Action>, i: nat, j: nat, t: nat, caps: Caps)
    returns (k: nat)
    requires WatchAll(p, log, t, caps) != Broken
    requires i < j < |log| && log[i].Emit? && log[i].event.UrlChanged? && !IsLocal(log[i].event.url)
    requires IsDone(log[j]) && forall m :: i < m < j ==> !IsDone(log[m])
    ensures i < k < j && log[k].Store?
    ensures log[k].response.url == log[i].event.url && log[k].response.status == log[j].event.status
    decreases |log|
  {
    hide Proper, IsLocal, Secures;
    var q := Watch(p, log[0], t, caps);
    if i == 0 {
      BrokenStays(log[1..], t, caps);
      k := DoneAfterStore(q, log[1..], j - 1, t, caps);
      k := k + 1;
    } else {
      k := StoredBeforeDone(q, log[1..], i - 1, j - 1, t, caps);
      k := k + 1;
    }
  }

  lemma {:induction false} DoneAfterStore(p: Phase, log: seq<Action>, j: nat, t: nat, caps: Caps) returns (k: nat)
    requires (p.Announced? || p.Loading?) && !IsLocal(p.url) && WatchAll(p, log, t, caps) != Broken
    requires j < |log| && IsDone(log[j]) && forall m :: 0 <= m < j ==> !IsDone(log[m])
    ensures k < j && log[k].Store? && log[k].response.url == p.url && log[k].response.status == log[j].event.status
    decreases |log|
  {
    hide Proper, IsLocal, Secures;
    BrokenStays(log[1..], t, caps);
    var q := Watch(p, log[0], t, caps);
    if log[0].Store? {
      k := 0;
      KeptUntilDone(q, log[1..], j - 1, t, caps);
    } else {
      k := DoneAfterStore(q, log[1..], j - 1, t, caps);
      k := k + 1;
    }
  }

  lemma {:induction false} KeptUntilDone(p: Phase, log: seq<Action>, j: nat, t: nat, caps: Caps)
    requires p.Kept? && WatchAll(p, log, t, caps) != Broken && j < |log|
    requires IsDone(log[j]) && forall m :: 0 <= m < j ==> !IsDone(log[m])
    ensures log[j].event.status == p.response.status
    decreases |log|
  {
    hide Proper, IsLocal, Secures;
    BrokenStays(log[1..], t, caps);
    if j > 0 {
      KeptUntilDone(Watch(p, log[0], t, caps), log[1..], j - 1, t, caps);
    }
  }
}
