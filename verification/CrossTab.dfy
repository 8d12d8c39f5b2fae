/**
 Cross-tab session sharing: clients/web/src/lib/cross-tab-session.ts over the per-tab key store of
 clients/web/src/stores/session.ts and the lock of clients/web/src/stores/lock.ts.
 Keys are arrays that a lock overwrites with zeros in place, so the model keeps an explicit heap of
 arrays shared by all tabs and tracks which tab refers to which array. Each call of
 adoptSessionFromOtherTab keeps its own `done` flag, timer and listener, and what it does to the
 outside world, running `adopt` and settling its promise, is recorded in a log.
 */
module CrossTab {
  import opened Wrappers
  import opened Bytes

  type Loc = nat
  type TabId = nat
  type Nonce = nat
  type Handle = nat

  /** The contents of a user key. */
  datatype Key = Key(enc: seq<Byte>, mac: seq<Byte>)

  /** The two arrays a tab's key store refers to. */
  datatype KeyRef = KeyRef(enc: Loc, mac: Loc)

  datatype Client = Client(serverUrl: string, token: string)

  datatype Tab = Tab(
    key: Option<KeyRef>, rsa: Option<Handle>, client: Option<Client>,
    locked: bool, token: Option<string>, serverUrl: string)

  /** The SessionPayload of a response; the channel carries a structured clone of it. */
  datatype Payload = Payload(key: Key, rsa: Option<Handle>, token: string, serverUrl: string)

  datatype Message = RequestKey(nonce: Nonce) | KeyResponse(nonce: Nonce, payload: Payload) | Unlocked

  /** The variables of one call of adoptSessionFromOtherTab. */
  datatype Request = Request(tab: TabId, done: bool, timer: bool, listener: bool)

  /** Where `adopt` throws: copying the arrays, or right after a step; the last step may throw once its state is set. */
  datatype Stop = Copying | KeySet | RsaSet | ClientSet | AuthUnlocked | Completed

  datatype Effect = Adopt(nonce: Nonce, message: Message, stop: Stop) | Resolve(nonce: Nonce, adopted: bool)

  datatype World = World(
    heap: map<Loc, seq<Byte>>, next: Loc, tabs: map<TabId, Tab>,
    requests: map<Nonce, Request>, posted: set<Message>, log: seq<Effect>)

  datatype Event =
    | Open(tab: TabId)
    | Login(tab: TabId, payload: Payload)                       // any login or unlock that installs a key
    | Lock(tab: TabId)
    | Logout(tab: TabId)
    | Announce(tab: TabId)
    | Ask(tab: TabId, nonce: Nonce, channel: bool)              // channel: BroadcastChannel could be opened
    | Respond(tab: TabId, message: Message)                     // the tab's responder hears a message
    | Hear(nonce: Nonce, message: Message, stop: Stop)          // the listener of a request hears a message
    | Expire(nonce: Nonce)                                      // the timer of a request fires

  // ----- the key store -----

  function Zeros(n: nat): (s: seq<Byte>) {
    seq(n, _ => 0)
  }

  /** The tab's arrays exist. */
  predicate Refers(w: World, t: TabId)
    requires t in w.tabs
  {
    w.tabs[t].key.Some? ==> w.tabs[t].key.value.enc in w.heap && w.tabs[t].key.value.mac in w.heap
  }

  function KeyOf(w: World, ref: KeyRef): (key: Key)
    requires ref.enc in w.heap && ref.mac in w.heap
  {
    Key(w.heap[ref.enc], w.heap[ref.mac])
  }

  /** Two new arrays with the given contents, and setSessionUserKey. */
  function Install(w: World, t: TabId, key: Key): (after: World)
    requires t in w.tabs
  {
    var ref := KeyRef(w.next, w.next + 1);
    w.(heap := w.heap[ref.enc := key.enc][ref.mac := key.mac],
       next := w.next + 2,
       tabs := w.tabs[t := w.tabs[t].(key := Some(ref))])
  }

  /** clearSessionKey and the auth store's lock or logout: the arrays are filled with zeros, then forgotten. */
  function Clear(w: World, t: TabId, locked: bool): (after: World)
    requires t in w.tabs && Refers(w, t)
  {
    var key := w.tabs[t].key;
    var heap := if key.None? then w.heap
                else w.heap[key.value.enc := Zeros(|w.heap[key.value.enc]|)][key.value.mac := Zeros(|w.heap[key.value.mac]|)];
    w.(heap := heap, tabs := w.tabs[t := w.tabs[t].(key := None, rsa := None, locked := locked, token := None)])
  }

  /** The tab after the steps of `adopt` that follow the key: RSA key if there is one, API client, auth store. */
  function Adopted(tab: Tab, p: Payload, stop: Stop): (after: Tab) {
    if stop == Copying || stop == KeySet then tab
    else
      var withRsa := if p.rsa.Some? then tab.(rsa := p.rsa) else tab;
      if stop == RsaSet then withRsa
      else
        var withClient := withRsa.(client := Some(Client(p.serverUrl, p.token)));
        if stop == ClientSet then withClient else withClient.(locked := false, token := Some(p.token))
  }

  /** `adopt`, up to where it throws. */
  function RunAdopt(w: World, t: TabId, p: Payload, stop: Stop): (after: World)
    requires t in w.tabs
  {
    if stop == Copying then w
    else
      var keyed := Install(w, t, p.key);
      keyed.(tabs := keyed.tabs[t := Adopted(keyed.tabs[t], p, stop)])
  }

  /** currentPayload: null while the tab has no key, is locked or has no token. */
  function CurrentPayload(w: World, t: TabId): (p: Option<Payload>)
    requires t in w.tabs && Refers(w, t)
  {
    var tab := w.tabs[t];
    if tab.key.None? || tab.locked || tab.token.None? || tab.token.value == "" then None
    else Some(Payload(KeyOf(w, tab.key.value), tab.rsa, tab.token.value, tab.serverUrl))
  }

  // ----- the request -----

  /** `finish` */
  function Finish(w: World, n: Nonce, adopted: bool): (after: World)
    requires n in w.requests
  {
    if w.requests[n].done then w
    else
      w.(requests := w.requests[n := w.requests[n].(done := true, timer := false, listener := false)],
         log := w.log + [Resolve(n, adopted)])
  }

  /** `onMsg`: the handler itself sorts out other messages, and adopts before `finish` looks at the flag. */
  function OnMessage(w: World, n: Nonce, m: Message, stop: Stop): (after: World)
    requires n in w.requests && w.requests[n].tab in w.tabs
  {
    if !m.KeyResponse? || m.nonce != n then w
    else
      var adopted := RunAdopt(w, w.requests[n].tab, m.payload, stop);
      Finish(adopted.(log := adopted.log + [Adopt(n, m, stop)]), n, stop == Completed)
  }

  function AskStep(w: World, t: TabId, n: Nonce, channel: bool): (after: World) {
    if channel then
      w.(requests := w.requests[n := Request(t, false, true, true)], posted := w.posted + {RequestKey(n)})
    else w.(requests := w.requests[n := Request(t, true, false, false)], log := w.log + [Resolve(n, false)])
  }

  function RespondStep(w: World, t: TabId, m: Message): (after: World)
    requires t in w.tabs && Refers(w, t)
  {
    if !m.RequestKey? || CurrentPayload(w, t).None? then w
    else w.(posted := w.posted + {KeyResponse(m.nonce, CurrentPayload(w, t).value)})
  }

  /** Tabs act while they are open, a removed listener and a cleared timer are never called, and only posted messages arrive. */
  predicate Happens(w: World, e: Event) {
    match e
    case Open(t) => t !in w.tabs
    case Ask(t, n, _) => t in w.tabs && n !in w.requests
    case Respond(t, m) => t in w.tabs && m in w.posted
    case Hear(n, m, _) => n in w.requests && w.requests[n].listener && m in w.posted
    case Expire(n) => n in w.requests && w.requests[n].timer
    case _ => e.tab in w.tabs
  }

  function Step(w: World, e: Event): (after: World)
    requires Sound(w)
  {
    if !Happens(w, e) then w
    else
      match e
      case Open(t) => w.(tabs := w.tabs[t := Tab(None, None, None, false, None, "")])
      case Login(t, p) =>
        var known := w.(tabs := w.tabs[t := w.tabs[t].(serverUrl := p.serverUrl)]);
        RunAdopt(known, t, p, Completed)
      case Lock(t) => Clear(w, t, true)
      case Logout(t) => Clear(w, t, false)
      case Announce(_) => w.(posted := w.posted + {Unlocked})
      case Ask(t, n, channel) => AskStep(w, t, n, channel)
      case Respond(t, m) => RespondStep(w, t, m)
      case Hear(n, m, stop) => OnMessage(w, n, m, stop)
      case Expire(n) => Finish(w, n, false)
  }

  // ----- arrays are never shared -----

  function Locs(tab: Tab): (locs: set<Loc>) {
    if tab.key.None? then {} else {tab.key.value.enc, tab.key.value.mac}
  }

  /** Every tab's arrays exist, its two arrays differ, and no two tabs refer to the same one. */
  predicate KeysApart(w: World) {
    && (forall l :: l in w.heap ==> l < w.next)
    && (forall t :: t in w.tabs ==> Refers(w, t))
    && (forall t :: t in w.tabs && w.tabs[t].key.Some? ==> w.tabs[t].key.value.enc != w.tabs[t].key.value.mac)
    && (forall t, u :: t in w.tabs && u in w.tabs && t != u ==> Locs(w.tabs[t]) !! Locs(w.tabs[u]))
  }

  /** Keys are kept apart and every request comes from an open tab. */
  predicate Sound(w: World) {
    KeysApart(w) && forall n :: n in w.requests ==> w.requests[n].tab in w.tabs
  }

  lemma ReferencesExist(w: World, t: TabId)
    requires KeysApart(w) && t in w.tabs
    ensures Refers(w, t)
  {
  }

  lemma InstallKeepsSound(w: World, t: TabId, key: Key)
    requires Sound(w) && t in w.tabs
    ensures Sound(Install(w, t, key))
  {
    var after := Install(w, t, key);
    forall u | u in after.tabs && u != t ensures Locs(after.tabs[u]) !! Locs(after.tabs[t]) {
      assert Refers(w, u);
    }
  }

  lemma ClearKeepsSound(w: World, t: TabId, locked: bool)
    requires Sound(w) && t in w.tabs
    ensures Sound(Clear(w, t, locked))
  {
    assert Refers(w, t);
    var after := Clear(w, t, locked);
    assert after.heap.Keys == w.heap.Keys;
  }

  /** Soundness is about the heap, the tabs' key references and the tabs of the requests only. */
  lemma SameKeys(w: World, v: World)
    requires Sound(w) && v.heap == w.heap && v.next == w.next && v.tabs.Keys == w.tabs.Keys
    requires forall t :: t in w.tabs ==> v.tabs[t].key == w.tabs[t].key
    requires forall n :: n in v.requests ==> v.requests[n].tab in v.tabs
    ensures Sound(v)
  {
    forall t | t in v.tabs ensures Refers(v, t) && Locs(v.tabs[t]) == Locs(w.tabs[t]) {
      assert Refers(w, t);
    }
  }

  lemma RunAdoptKeepsSound(w: World, t: TabId, p: Payload, stop: Stop)
    requires Sound(w) && t in w.tabs
    ensures Sound(RunAdopt(w, t, p, stop)) && RunAdopt(w, t, p, stop).tabs.Keys == w.tabs.Keys
  {
    if stop != Copying {
      InstallKeepsSound(w, t, p.key);
      SameKeys(Install(w, t, p.key), RunAdopt(w, t, p, stop));
    }
  }

  lemma LoginKeepsSound(w: World, t: TabId, p: Payload)
    requires Sound(w) && t in w.tabs
    ensures Sound(Step(w, Login(t, p)))
  {
    hide KeysApart, RunAdopt;
    var known := w.(tabs := w.tabs[t := w.tabs[t].(serverUrl := p.serverUrl)]);
    SameKeys(w, known);
    RunAdoptKeepsSound(known, t, p, Completed);
  }

  lemma OnMessageKeepsSound(w: World, n: Nonce, m: Message, stop: Stop)
    requires Sound(w) && n in w.requests
    ensures Sound(OnMessage(w, n, m, stop))
  {
    hide KeysApart, RunAdopt;
    if m.KeyResponse? && m.nonce == n {
      RunAdoptKeepsOthers(w, n, m, stop);
      RunAdoptKeepsSound(w, w.requests[n].tab, m.payload, stop);
      SameKeys(RunAdopt(w, w.requests[n].tab, m.payload, stop), OnMessage(w, n, m, stop));
    }
  }

  /** Adopting touches neither the requests, nor the messages, nor the log. */
  lemma RunAdoptKeepsOthers(w: World, n: Nonce, m: Message, stop: Stop)
    requires n in w.requests && w.requests[n].tab in w.tabs && m.KeyResponse?
    ensures var v := RunAdopt(w, w.requests[n].tab, m.payload, stop);
            v.requests == w.requests && v.posted == w.posted && v.log == w.log
  {
  }

  lemma StepKeepsSound(w: World, e: Event)
    requires Sound(w)
    ensures Sound(Step(w, e))
  {
    hide KeysApart, Clear, RunAdopt, OnMessage;
    if Happens(w, e) {
      match e
      case Open(t) => OpenKeepsSound(w, t);
      case Login(t, p) => LoginKeepsSound(w, t, p);
      case Lock(t) => ClearKeepsSound(w, t, true);
      case Logout(t) => ClearKeepsSound(w, t, false);
      case Hear(n, m, stop) => OnMessageKeepsSound(w, n, m, stop);
      case _ => SameKeys(w, Step(w, e));
    }
  }

  lemma OpenKeepsSound(w: World, t: TabId)
    requires Sound(w) && t !in w.tabs
    ensures Sound(Step(w, Open(t)))
  {
  }

  // ----- one tab never touches the key of another -----

  /** The references a tab holds, if any. */
  function RefOf(w: World, t: TabId): (ref: Option<KeyRef>) {
    if t in w.tabs then w.tabs[t].key else None
  }

  /** The key a tab holds, if any. */
  function Held(w: World, t: TabId): (key: Option<Key>)
    requires Sound(w)
  {
    if RefOf(w, t).Some? then
      ReferencesExist(w, t);
      Some(KeyOf(w, RefOf(w, t).value))
    else None
  }

  /** The tab whose key an event may change. */
  predicate Concerns(w: World, e: Event, t: TabId) {
    match e
    case Login(u, _) => u == t
    case Lock(u) => u == t
    case Logout(u) => u == t
    case Hear(n, _, _) => n in w.requests && w.requests[n].tab == t
    case _ => false
  }

  lemma InstallSparesOthers(w: World, u: TabId, key: Key, t: TabId)
    requires Sound(w) && u in w.tabs && t != u
    ensures Sound(Install(w, u, key))
    ensures RefOf(Install(w, u, key), t) == RefOf(w, t) && Held(Install(w, u, key), t) == Held(w, t)
  {
    InstallKeepsSound(w, u, key);
    if t in w.tabs {
      ReferencesExist(w, t);
    }
  }

  lemma RunAdoptSparesOthers(w: World, u: TabId, p: Payload, stop: Stop, t: TabId)
    requires Sound(w) && u in w.tabs && t != u
    ensures Sound(RunAdopt(w, u, p, stop))
    ensures RefOf(RunAdopt(w, u, p, stop), t) == RefOf(w, t) && Held(RunAdopt(w, u, p, stop), t) == Held(w, t)
  {
    hide KeysApart;
    RunAdoptKeepsSound(w, u, p, stop);
    if stop != Copying {
      InstallSparesOthers(w, u, p.key, t);
    }
  }

  lemma ClearSparesOthers(w: World, u: TabId, locked: bool, t: TabId)
    requires Sound(w) && u in w.tabs && t != u
    ensures Sound(Clear(w, u, locked))
    ensures RefOf(Clear(w, u, locked), t) == RefOf(w, t) && Held(Clear(w, u, locked), t) == Held(w, t)
  {
    ClearKeepsSound(w, u, locked);
    if t in w.tabs {
      ReferencesExist(w, t);
      assert Locs(w.tabs[t]) !! Locs(w.tabs[u]);
    }
  }

  /** Zeroing, installing and adopting in one tab leave the key of every other tab as it was. */
  lemma OtherTabsKeepTheirKey(w: World, e: Event, t: TabId)
    requires Sound(w) && !Concerns(w, e, t)
    ensures Sound(Step(w, e)) && RefOf(Step(w, e), t) == RefOf(w, t) && Held(Step(w, e), t) == Held(w, t)
  {
    hide KeysApart, Clear, RunAdopt;
    StepKeepsSound(w, e);
    if Happens(w, e) {
      match e
      case Login(u, p) =>
        var known := w.(tabs := w.tabs[u := w.tabs[u].(serverUrl := p.serverUrl)]);
        SameKeys(w, known);
        RunAdoptSparesOthers(known, u, p, Completed, t);
      case Lock(u) => ClearSparesOthers(w, u, true, t);
      case Logout(u) => ClearSparesOthers(w, u, false, t);
      case Hear(n, m, stop) =>
        if m.KeyResponse? && m.nonce == n {
          RunAdoptSparesOthers(w, w.requests[n].tab, m.payload, stop, t);
        }
      case _ =>
    }
  }

  // ----- runs -----

  const START := World(map[], 0, map[], map[], {}, [])

  function Run(events: seq<Event>): (w: World)
    ensures Sound(w)
  {
    if events == [] then START
    else
      var before := Run(events[..|events| - 1]);
      StepKeepsSound(before, events[|events| - 1]);
      Step(before, events[|events| - 1])
  }

  /** Some login or unlock of the run installed this key. */
  ghost predicate Installed(events: seq<Event>, key: Key) {
    exists i :: 0 <= i < |events| && events[i].Login? && events[i].payload.key == key
  }

  ghost predicate OnlyInstalled(w: World, events: seq<Event>)
    requires Sound(w)
  {
    && (forall t :: Held(w, t).Some? ==> Installed(events, Held(w, t).value))
    && (forall m :: m in w.posted && m.KeyResponse? ==> Installed(events, m.payload.key))
  }

  lemma InstalledGrows(events: seq<Event>, key: Key)
    requires events != [] && Installed(events[..|events| - 1], key)
    ensures Installed(events, key)
  {
  }

  lemma InstallGives(w: World, t: TabId, key: Key)
    requires Sound(w) && t in w.tabs
    ensures var after := Install(w, t, key);
            Sound(after) && Held(after, t) == Some(key) && RefOf(after, t) != RefOf(w, t)
  {
    InstallKeepsSound(w, t, key);
    ReferencesExist(w, t);
  }

  /** What `adopt` leaves in its own tab: new arrays with the payload's key, or nothing new. */
  lemma AdoptInstalls(w: World, t: TabId, p: Payload, stop: Stop)
    requires Sound(w) && t in w.tabs
    ensures var after := RunAdopt(w, t, p, stop);
            && Sound(after)
            && (stop == Copying ==> after == w)
            && (stop != Copying ==> Held(after, t) == Some(p.key) && RefOf(after, t) != RefOf(w, t))
            && (after.tabs[t].token, after.tabs[t].locked) ==
               (if stop == AuthUnlocked || stop == Completed then (Some(p.token), false) else (w.tabs[t].token, w.tabs[t].locked))
            && after.tabs[t].rsa == (if stop != Copying && stop != KeySet && p.rsa.Some? then p.rsa else w.tabs[t].rsa)
            && after.tabs[t].client ==
               (if stop in {ClientSet, AuthUnlocked, Completed} then Some(Client(p.serverUrl, p.token)) else w.tabs[t].client)
  {
    hide KeysApart;
    RunAdoptKeepsSound(w, t, p, stop);
    InstallGives(w, t, p.key);
  }

  /** Where the key a step leaves in a tab comes from. */
  lemma KeyComesFrom(w: World, e: Event, t: TabId)
    requires Sound(w) && Sound(Step(w, e)) && Held(Step(w, e), t).Some?
    ensures var k := Held(Step(w, e), t).value;
            || Held(w, t) == Some(k)
            || (e.Login? && e.payload.key == k)
            || (e.Hear? && e.message in w.posted && e.message.KeyResponse? && e.message.payload.key == k)
  {
    hide KeysApart, RunAdopt;
    if !Concerns(w, e, t) {
      OtherTabsKeepTheirKey(w, e, t);
    } else if Happens(w, e) {
      match e
      case Login(u, p) =>
        var known := w.(tabs := w.tabs[u := w.tabs[u].(serverUrl := p.serverUrl)]);
        SameKeys(w, known);
        AdoptInstalls(known, u, p, Completed);
      case Hear(n, m, stop) =>
        if m.KeyResponse? && m.nonce == n {
          AdoptInstalls(w, t, m.payload, stop);
        }
      case _ =>
    }
  }

  /** Where the key of a response comes from: a tab that held it when it answered. */
  lemma ResponseComesFrom(w: World, e: Event, m: Message)
    requires Sound(w) && m in Step(w, e).posted && m.KeyResponse?
    ensures m in w.posted || (e.Respond? && Held(w, e.tab) == Some(m.payload.key))
  {
  }

  /** Every key held or in flight is one that a login or unlock installed; a zeroed key is never passed on. */
  lemma {:induction false} KeysWereInstalled(events: seq<Event>)
    ensures OnlyInstalled(Run(events), events)
  {
    if events != [] {
      var before, e := events[..|events| - 1], events[|events| - 1];
      var w := Run(before);
      var after := Run(events);
      KeysWereInstalled(before);
      hide Sound, Step, Held;
      forall t | Held(after, t).Some? ensures Installed(events, Held(after, t).value) {
        KeyComesFrom(w, e, t);
        if Installed(before, Held(after, t).value) {
          InstalledGrows(events, Held(after, t).value);
        }
      }
      forall m | m in after.posted && m.KeyResponse? ensures Installed(events, m.payload.key) {
        ResponseComesFrom(w, e, m);
        InstalledGrows(events, m.payload.key);
      }
    }
  }

  // ----- what a lock wipes and what a login or a shared session installs -----

  predicate IsZero(s: seq<Byte>) {
    forall i :: 0 <= i < |s| ==> s[i] == 0
  }

  /** Locking and logging out leave the tab without keys and token, and zeros in the arrays its key was in. */
  lemma LockWipes(w: World, e: Event)
    requires Sound(w) && (e.Lock? || e.Logout?) && e.tab in w.tabs
    ensures var after := Step(w, e);
            && e.tab in after.tabs && Sound(after) && Held(after, e.tab) == None && CurrentPayload(after, e.tab) == None
            && after.tabs[e.tab] == w.tabs[e.tab].(key := None, rsa := None, token := None, locked := e.Lock?)
            && (w.tabs[e.tab].key.Some? ==>
                  && var ref := w.tabs[e.tab].key.value;
                  && ref.enc in after.heap && |after.heap[ref.enc]| == |w.heap[ref.enc]| && IsZero(after.heap[ref.enc])
                  && ref.mac in after.heap && |after.heap[ref.mac]| == |w.heap[ref.mac]| && IsZero(after.heap[ref.mac]))
  {
    StepKeepsSound(w, e);
    ReferencesExist(w, e.tab);
  }

  /** The tab holds the payload's key and acts for its account: RSA key, API client and token, unlocked. */
  predicate ActsFor(w: World, t: TabId, p: Payload)
    requires Sound(w)
  {
    && Held(w, t) == Some(p.key) && t in w.tabs
    && var tab := w.tabs[t];
       && !tab.locked && tab.token == Some(p.token) && tab.client == Some(Client(p.serverUrl, p.token))
       && (p.rsa.Some? ==> tab.rsa == p.rsa)
  }

  lemma AdoptActs(w: World, t: TabId, p: Payload)
    requires Sound(w) && t in w.tabs
    ensures Sound(RunAdopt(w, t, p, Completed)) && ActsFor(RunAdopt(w, t, p, Completed), t, p)
    ensures p.rsa.None? ==> RunAdopt(w, t, p, Completed).tabs[t].rsa == w.tabs[t].rsa
    ensures RunAdopt(w, t, p, Completed).tabs[t].serverUrl == w.tabs[t].serverUrl
  {
    hide KeysApart;
    AdoptInstalls(w, t, p, Completed);
  }

  lemma LoginActs(w: World, t: TabId, p: Payload)
    requires Sound(w) && t in w.tabs
    ensures Sound(Step(w, Login(t, p))) && ActsFor(Step(w, Login(t, p)), t, p)
    ensures Step(w, Login(t, p)).tabs[t].serverUrl == p.serverUrl
  {
    hide KeysApart, RunAdopt, ActsFor;
    var known := w.(tabs := w.tabs[t := w.tabs[t].(serverUrl := p.serverUrl)]);
    SameKeys(w, known);
    AdoptActs(known, t, p);
  }

  /** An unlocked tab answers a request with its own session, to that nonce, and to nothing else. */
  lemma RespondAnswers(w: World, t: TabId, m: Message)
    requires Sound(w) && t in w.tabs && m in w.posted
    ensures Refers(w, t)
    ensures var after, p := Step(w, Respond(t, m)), CurrentPayload(w, t);
            after == if m.RequestKey? && p.Some? then w.(posted := w.posted + {KeyResponse(m.nonce, p.value)}) else w
    ensures CurrentPayload(w, t).Some? <==>
              Held(w, t).Some? && !w.tabs[t].locked && w.tabs[t].token.Some? && w.tabs[t].token.value != ""
    ensures CurrentPayload(w, t).Some? ==>
              CurrentPayload(w, t).value == Payload(Held(w, t).value, w.tabs[t].rsa, w.tabs[t].token.value, w.tabs[t].serverUrl)
  {
    ReferencesExist(w, t);
  }

  /** announceUnlock posts its message and touches nothing else; an empty tab opens unlocked, with nothing to share. */
  lemma AnnounceTells(w: World, t: TabId)
    requires Sound(w)
    ensures t in w.tabs ==> Step(w, Announce(t)) == w.(posted := w.posted + {Unlocked})
    ensures t !in w.tabs ==>
              var after := Step(w, Open(t));
              Sound(after) && t in after.tabs && Held(after, t) == None && CurrentPayload(after, t) == None
  {
    StepKeepsSound(w, Open(t));
  }

  lemma AskAsks(w: World, t: TabId, n: Nonce)
    requires Sound(w) && t in w.tabs && n !in w.requests
    ensures var after := Step(w, Ask(t, n, true));
            && Sound(after) && after.tabs == w.tabs && after.heap == w.heap && after.log == w.log
            && n in after.requests && after.requests[n].tab == t && after.requests[n].listener && !after.requests[n].done
            && RequestKey(n) in after.posted && Held(after, t) == Held(w, t)
  {
    hide KeysApart;
    StepKeepsSound(w, Ask(t, n, true));
  }

  lemma SamePayload(w: World, v: World, t: TabId)
    requires Sound(w) && Sound(v) && t in w.tabs && v.tabs == w.tabs && v.heap == w.heap
    ensures Refers(w, t) && Refers(v, t) && CurrentPayload(v, t) == CurrentPayload(w, t)
    ensures CurrentPayload(w, t).Some? ==> Held(w, t) == Some(CurrentPayload(w, t).value.key)
  {
    ReferencesExist(w, t);
    ReferencesExist(v, t);
  }

  lemma HearAdopts(w: World, n: Nonce, p: Payload)
    requires Sound(w) && n in w.requests && w.requests[n].listener && !w.requests[n].done && KeyResponse(n, p) in w.posted
    ensures var m := KeyResponse(n, p);
            var after := Step(w, Hear(n, m, Completed));
            && Sound(after) && ActsFor(after, w.requests[n].tab, p)
            && after.log == w.log + [Adopt(n, m, Completed)] + [Resolve(n, true)]
  {
    hide KeysApart, RunAdopt, Held;
    var m := KeyResponse(n, p);
    AdoptActs(w, w.requests[n].tab, p);
    HearInstalls(w, n, m, Completed);
    RunAdoptKeepsOthers(w, n, m, Completed);
  }

  /** What the sharing is for: a tab that asks an unlocked one ends up with its session, and is told true. */
  lemma SessionIsShared(w: World, owner: TabId, t: TabId, n: Nonce)
    requires Sound(w) && owner in w.tabs && t in w.tabs && n !in w.requests
    requires Refers(w, owner) && CurrentPayload(w, owner).Some?
    ensures var p := CurrentPayload(w, owner).value;
            var asked := Step(w, Ask(t, n, true));
            && Sound(asked)
            && var answered := Step(asked, Respond(owner, RequestKey(n)));
            && Sound(answered)
            && var after := Step(answered, Hear(n, KeyResponse(n, p), Completed));
            && Sound(after) && ActsFor(after, t, p) && p.key == Held(w, owner).value
            && |after.log| > 0 && after.log[|after.log| - 1] == Resolve(n, true)
  {
    hide KeysApart, Step, Held, ActsFor, RunAdopt;
    var p, asked := CurrentPayload(w, owner).value, Step(w, Ask(t, n, true));
    AskAsks(w, t, n);
    SamePayload(w, asked, owner);
    RespondAnswers(asked, owner, RequestKey(n));
    StepKeepsSound(asked, Respond(owner, RequestKey(n)));
    HearAdopts(Step(asked, Respond(owner, RequestKey(n))), n, p);
  }

  // ----- a request settles once, and adopts only before that and only its own response -----

  ghost predicate Mentions(log: seq<Effect>, n: Nonce) {
    exists i :: 0 <= i < |log| && log[i].nonce == n
  }

  /**
   Nothing follows the settling of a request, `adopt` ran for its own nonce and the request settled next, and
   true means that `adopt` completed.
   */
  ghost predicate Ledger(log: seq<Effect>, posted: set<Message>) {
    && (forall i, j :: 0 <= i < j < |log| && log[i].Resolve? ==> log[j].nonce != log[i].nonce)
    && (forall i :: 0 <= i < |log| && log[i].Adopt? ==>
          && log[i].message in posted && log[i].message.KeyResponse? && log[i].message.nonce == log[i].nonce
          && i + 1 < |log| && log[i + 1] == Resolve(log[i].nonce, log[i].stop == Completed))
    && (forall i :: 0 <= i < |log| && log[i].Resolve? && log[i].adopted ==>
          i > 0 && log[i - 1].Adopt? && log[i - 1].nonce == log[i].nonce && log[i - 1].stop == Completed)
  }

  /** A request that has settled has neither timer nor listener left and is the only kind the log mentions. */
  ghost predicate Orderly(w: World) {
    && Ledger(w.log, w.posted)
    && (forall n :: n in w.requests ==> w.requests[n].timer == w.requests[n].listener == !w.requests[n].done)
    && (forall n :: Mentions(w.log, n) <==> n in w.requests && w.requests[n].done)
  }

  lemma LedgerGrowsByResolve(log: seq<Effect>, posted: set<Message>, n: Nonce)
    requires Ledger(log, posted) && !Mentions(log, n)
    ensures Ledger(log + [Resolve(n, false)], posted)
    ensures forall k :: Mentions(log + [Resolve(n, false)], k) <==> Mentions(log, k) || k == n
  {
    var after := log + [Resolve(n, false)];
    assert forall i :: 0 <= i < |log| ==> after[i] == log[i];
    assert after[|log|].nonce == n;
  }

  lemma LedgerGrowsByAdopt(log: seq<Effect>, posted: set<Message>, n: Nonce, m: Message, stop: Stop)
    requires Ledger(log, posted) && !Mentions(log, n) && m in posted && m.KeyResponse? && m.nonce == n
    ensures var after := log + [Adopt(n, m, stop)] + [Resolve(n, stop == Completed)];
            Ledger(after, posted) && forall k :: Mentions(after, k) <==> Mentions(log, k) || k == n
  {
    var after := log + [Adopt(n, m, stop)] + [Resolve(n, stop == Completed)];
    assert forall i :: 0 <= i < |log| ==> after[i] == log[i];
    assert after[|log|] == Adopt(n, m, stop) && after[|log| + 1] == Resolve(n, stop == Completed);
  }

  lemma MorePosted(log: seq<Effect>, posted: set<Message>, more: set<Message>)
    requires Ledger(log, posted) && posted <= more
    ensures Ledger(log, more)
  {
  }

  lemma StepKeepsOrderly(w: World, e: Event)
    requires Sound(w) && Orderly(w)
    ensures Orderly(Step(w, e))
  {
    hide Ledger, Mentions, KeysApart, Clear, RunAdopt;
    if Happens(w, e) {
      match e
      case Ask(_, n, channel) =>
        if channel {
          MorePosted(w.log, w.posted, Step(w, e).posted);
        } else {
          LedgerGrowsByResolve(w.log, w.posted, n);
        }
      case Expire(n) => LedgerGrowsByResolve(w.log, w.posted, n);
      case Hear(n, m, stop) =>
        if m.KeyResponse? && m.nonce == n {
          RunAdoptKeepsOthers(w, n, m, stop);
          LedgerGrowsByAdopt(w.log, w.posted, n, m, stop);
        }
      case Login(t, p) => LoginKeepsOthers(w, t, p);
      case Lock(t) => ClearKeepsOthers(w, t, true);
      case Logout(t) => ClearKeepsOthers(w, t, false);
      case _ => MorePosted(w.log, w.posted, Step(w, e).posted);
    }
  }

  lemma LoginKeepsOthers(w: World, t: TabId, p: Payload)
    requires Sound(w) && t in w.tabs
    ensures var v := Step(w, Login(t, p)); v.requests == w.requests && v.posted == w.posted && v.log == w.log
  {
  }

  lemma ClearKeepsOthers(w: World, t: TabId, locked: bool)
    requires Sound(w) && t in w.tabs
    ensures Refers(w, t)
    ensures var v := Clear(w, t, locked); v.requests == w.requests && v.posted == w.posted && v.log == w.log
  {
  }

  lemma {:induction false} RunIsOrderly(events: seq<Event>)
    ensures Orderly(Run(events))
  {
    hide Step, Sound;
    if events != [] {
      RunIsOrderly(events[..|events| - 1]);
      StepKeepsOrderly(Run(events[..|events| - 1]), events[|events| - 1]);
    } else {
      NothingLogged();
    }
  }

  lemma NothingLogged()
    ensures Orderly(START)
  {
  }

  /** How often the promise of a request was resolved. */
  function Resolutions(log: seq<Effect>, n: Nonce): (k: nat) {
    if log == [] then 0
    else Resolutions(log[..|log| - 1], n) + if log[|log| - 1].Resolve? && log[|log| - 1].nonce == n then 1 else 0
  }

  lemma {:induction false} OnceInLedger(log: seq<Effect>, n: Nonce)
    requires forall i, j :: 0 <= i < j < |log| && log[i].Resolve? ==> log[j].nonce != log[i].nonce
    ensures Resolutions(log, n) == if exists i :: 0 <= i < |log| && log[i].Resolve? && log[i].nonce == n then 1 else 0
  {
    if log != [] {
      var front := log[..|log| - 1];
      OnceInLedger(front, n);
      assert log == front + [log[|log| - 1]];
      assert forall i :: 0 <= i < |front| ==> front[i] == log[i];
    }
  }

  /**
   In every run the promise of a request is resolved once when the request has settled and not at all before;
   a request that has not settled still has its listener and its timer, and the timer settles it.
   */
  lemma ResolvesOnce(events: seq<Event>, n: Nonce)
    requires n in Run(events).requests
    ensures var w := Run(events); var request := w.requests[n];
            && Resolutions(w.log, n) == (if request.done then 1 else 0)
            && request.timer == request.listener == !request.done
            && (!request.done ==> Resolutions(Step(w, Expire(n)).log, n) == 1)
  {
    hide Step, Sound;
    RunIsOrderly(events);
    SettledOnce(Run(events), n);
    if !Run(events).requests[n].done {
      TimerSettles(Run(events), n);
    }
  }

  lemma SettledOnce(w: World, n: Nonce)
    requires Orderly(w) && n in w.requests
    ensures Resolutions(w.log, n) == if w.requests[n].done then 1 else 0
  {
    OnceInLedger(w.log, n);
    if w.requests[n].done {
      var i :| 0 <= i < |w.log| && w.log[i].nonce == n;
      if w.log[i].Adopt? {
        assert w.log[i + 1].Resolve? && w.log[i + 1].nonce == n;
      }
    } else {
      assert !Mentions(w.log, n);
    }
  }

  lemma TimerSettles(w: World, n: Nonce)
    requires Sound(w) && Orderly(w) && n in w.requests && !w.requests[n].done
    ensures Resolutions(Step(w, Expire(n)).log, n) == 1
  {
    hide Ledger, Mentions;
    SettledOnce(w, n);
    assert (w.log + [Resolve(n, false)])[..|w.log|] == w.log;
  }

  /**
   In every run `adopt` runs for a posted response to the request's own nonce, at most once and never after the
   promise was settled; the promise then gets true if and only if `adopt` completed, and never gets true otherwise.
   */
  lemma AdoptsOwnResponse(events: seq<Event>, i: nat)
    requires i < |Run(events).log|
    ensures var w := Run(events); var effect := w.log[i];
            && (effect.Adopt? ==>
                  && effect.message in w.posted && effect.message.KeyResponse? && effect.message.nonce == effect.nonce
                  && (forall k :: 0 <= k < i ==> w.log[k].nonce != effect.nonce)
                  && i + 1 < |w.log| && w.log[i + 1] == Resolve(effect.nonce, effect.stop == Completed))
            && (effect.Resolve? ==>
                  && (forall k :: i < k < |w.log| ==> w.log[k].nonce != effect.nonce)
                  && (effect.adopted <==>
                        i > 0 && w.log[i - 1].Adopt? && w.log[i - 1].nonce == effect.nonce && w.log[i - 1].stop == Completed))
  {
    RunIsOrderly(events);
    hide Run;
    LedgerEntry(Run(events).log, Run(events).posted, i);
  }

  lemma LedgerEntry(log: seq<Effect>, posted: set<Message>, i: nat)
    requires Ledger(log, posted) && i < |log|
    ensures log[i].Adopt? ==> forall k :: 0 <= k < i ==> log[k].nonce != log[i].nonce
    ensures log[i].Resolve? && i > 0 && log[i - 1].Adopt? && log[i - 1].nonce == log[i].nonce ==>
              log[i].adopted == (log[i - 1].stop == Completed)
  {
    if log[i].Adopt? {
      forall k | 0 <= k < i ensures log[k].nonce != log[i].nonce {
        assert log[k].Adopt? ==> log[k + 1].Resolve? && log[k + 1].nonce == log[k].nonce;
      }
    }
  }

  // ----- the promise is false, and the tab holds the key all the same -----

  /** The step settles the request with false. */
  ghost predicate SettlesFalse(w: World, e: Event, n: Nonce)
    requires Sound(w)
  {
    n in w.requests && |Step(w, e).log| > |w.log| && Step(w, e).log[|Step(w, e).log| - 1] == Resolve(n, false)
  }

  /**
   When a request settles with false, its tab got new key arrays if and only if `adopt` had copied the response
   and failed later; they hold the response's key. The tab counts as unlocked by it only if the last step failed.
   */
  lemma FalseWithKey(w: World, e: Event, n: Nonce)
    requires Sound(w) && SettlesFalse(w, e, n)
    ensures var after, t := Step(w, e), w.requests[n].tab;
            && Sound(after)
            && (RefOf(after, t) != RefOf(w, t) <==> e.Hear? && e.stop != Copying)
            && (RefOf(after, t) != RefOf(w, t) ==>
                  && e.nonce == e.message.nonce == n && e.message.KeyResponse?
                  && Held(after, t) == Some(e.message.payload.key)
                  && (after.tabs[t].token, after.tabs[t].locked) ==
                     if e.stop == AuthUnlocked then (Some(e.message.payload.token), false)
                     else (w.tabs[t].token, w.tabs[t].locked))
  {
    hide KeysApart, RunAdopt, Held, SettlesFalse;
    StepKeepsSound(w, e);
    SettledBy(w, e, n);
    if e.Hear? {
      AdoptInstalls(w, w.requests[n].tab, e.message.payload, e.stop);
      HearInstalls(w, n, e.message, e.stop);
    }
  }

  /** Only the timer, or a response whose `adopt` throws, settles with false. */
  lemma SettledBy(w: World, e: Event, n: Nonce)
    requires Sound(w) && SettlesFalse(w, e, n)
    ensures Happens(w, e)
    ensures e == Expire(n) || (e.Hear? && e.nonce == e.message.nonce == n && e.message.KeyResponse? && e.stop != Completed)
  {
    hide KeysApart, Clear, RunAdopt, CurrentPayload;
    if Happens(w, e) {
      match e
      case Login(t, p) => LoginKeepsOthers(w, t, p);
      case Lock(t) => ClearKeepsOthers(w, t, true);
      case Logout(t) => ClearKeepsOthers(w, t, false);
      case Hear(k, m, stop) =>
        if m.KeyResponse? && m.nonce == k {
          RunAdoptKeepsOthers(w, k, m, stop);
        }
      case _ =>
    }
  }

  /** Settling changes neither tabs nor heap. */
  lemma HearInstalls(w: World, n: Nonce, m: Message, stop: Stop)
    requires Sound(w) && n in w.requests && m.KeyResponse? && m.nonce == n
    ensures var adopted, after := RunAdopt(w, w.requests[n].tab, m.payload, stop), OnMessage(w, n, m, stop);
            && Sound(adopted) && Sound(after) && after.tabs == adopted.tabs
            && Held(after, w.requests[n].tab) == Held(adopted, w.requests[n].tab)
  {
    hide KeysApart, RunAdopt;
    RunAdoptKeepsSound(w, w.requests[n].tab, m.payload, stop);
    OnMessageKeepsSound(w, n, m, stop);
  }

  lemma RunSnoc(events: seq<Event>, e: Event)
    ensures Run(events + [e]) == Step(Run(events), e)
  {
    assert (events + [e])[..|events|] == events;
  }

  /** The references and the key stay with the tab through any events that do not concern it. */
  lemma {:induction false} KeyStays(events: seq<Event>, later: seq<Event>, t: TabId)
    requires forall k :: 0 <= k < |later| ==> !Concerns(Run(events + later[..k]), later[k], t)
    ensures RefOf(Run(events + later), t) == RefOf(Run(events), t)
    ensures Held(Run(events + later), t) == Held(Run(events), t)
  {
    hide Run, Step, Held, Sound, Concerns, RefOf;
    if later == [] {
      assert events + later == events;
    } else {
      var n := |later| - 1;
      var before := later[..n];
      assert forall k :: 0 <= k < n ==> before[..k] == later[..k];
      KeyStays(events, before, t);
      RunSnoc(events + before, later[n]);
      assert events + later == events + before + [later[n]];
      OtherTabsKeepTheirKey(Run(events + before), later[n], t);
    }
  }

  /**
   Over every run: a request told false leaves its tab with the response's key, until an event concerns that tab,
   if and only if `adopt` had failed after its first step.
   */
  lemma FalseYetKeyHeld(events: seq<Event>, e: Event, n: Nonce, later: seq<Event>)
    requires SettlesFalse(Run(events), e, n)
    requires forall k :: 0 <= k < |later| ==>
               !Concerns(Run(events + [e] + later[..k]), later[k], Run(events).requests[n].tab)
    ensures var before, end, t := Run(events), Run(events + [e] + later), Run(events).requests[n].tab;
            && (RefOf(end, t) != RefOf(before, t) <==> e.Hear? && e.stop != Copying)
            && (RefOf(end, t) != RefOf(before, t) ==> e.message.KeyResponse? && Held(end, t) == Some(e.message.payload.key))
  {
    hide Run, Step, Held, Sound, Concerns, RefOf;
    var run := events + [e];
    RunSnoc(events, e);
    FalseWithKey(Run(events), e, n);
    KeyStays(run, later, Run(events).requests[n].tab);
  }

  /** The flag alone would not do: called after the request has settled, the handler would still install the key. */
  lemma FlagDoesNotGuardAdopt(w: World, n: Nonce, m: Message)
    requires Sound(w) && n in w.requests && w.requests[n].done && m.KeyResponse? && m.nonce == n
    ensures var after, t := OnMessage(w, n, m, Completed), w.requests[n].tab;
            && Sound(after) && RefOf(after, t) != RefOf(w, t) && Held(after, t) == Some(m.payload.key)
            && after.log == w.log + [Adopt(n, m, Completed)]
  {
    hide KeysApart, RunAdopt, Held;
    AdoptInstalls(w, w.requests[n].tab, m.payload, Completed);
    HearInstalls(w, n, m, Completed);
    RunAdoptKeepsOthers(w, n, m, Completed);
  }

  /** Two tabs, the first logged in with a payload. */
  function TwoTabs(p: Payload): (w: World) {
    World(
      map[0 := p.key.enc, 1 := p.key.mac], 2,
      map[0 := Tab(Some(KeyRef(0, 1)), p.rsa, Some(Client(p.serverUrl, p.token)), false, Some(p.token), p.serverUrl),
          1 := Tab(None, None, None, false, None, "")],
      map[], {}, [])
  }

  lemma OneTabRun(p: Payload)
    ensures Run([Open(0), Login(0, p)]) == TwoTabs(p).(tabs := map[0 := TwoTabs(p).tabs[0]])
  {
    var open, login := Open(0), Login(0, p);
    assert Run([]) == START;
    hide Run, Sound;
    RunSnoc([], open);
    RunSnoc([open], login);
    assert [] + [open] == [open] && [open] + [login] == [open, login];
  }

  lemma TwoTabsRun(p: Payload)
    ensures Run([Open(0), Login(0, p), Open(1)]) == TwoTabs(p)
  {
    hide Run, Sound;
    var front := [Open(0), Login(0, p)];
    OneTabRun(p);
    RunSnoc(front, Open(1));
    assert front + [Open(1)] == [Open(0), Login(0, p), Open(1)];
  }

  lemma TwoTabsShare(p: Payload, n: Nonce)
    requires p.token != "" && Sound(TwoTabs(p))
    ensures var asked := Step(TwoTabs(p), Ask(1, n, true));
            && Sound(asked) && asked.requests == map[n := Request(1, false, true, true)]
            && asked.log == [] && Step(asked, Respond(0, RequestKey(n))) == asked.(posted := {RequestKey(n), KeyResponse(n, p)})
  {
    StepKeepsSound(TwoTabs(p), Ask(1, n, true));
  }

  /** A run in which a tab is told false and holds the other tab's key: the response is copied, then `adopt` throws. */
  lemma FalseWithKeyHappens(p: Payload, n: Nonce)
    requires p.token != ""
    ensures var events := [Open(0), Login(0, p), Open(1), Ask(1, n, true), Respond(0, RequestKey(n))];
            var heard := Hear(n, KeyResponse(n, p), KeySet);
            SettlesFalse(Run(events), heard, n) && Held(Run(events + [heard]), 1) == Some(p.key)
  {
    hide Run, Held, RefOf, KeysApart, RunAdopt;
    var login := [Open(0), Login(0, p), Open(1)];
    var ask, respond, heard := Ask(1, n, true), Respond(0, RequestKey(n)), Hear(n, KeyResponse(n, p), KeySet);
    var events := [Open(0), Login(0, p), Open(1), ask, respond];
    assert events == login + [ask] + [respond];
    TwoTabsRun(p);
    TwoTabsShare(p, n);
    RunSnoc(login, ask);
    RunSnoc(login + [ask], respond);
    RunSnoc(events, heard);
    RunAdoptKeepsOthers(Run(events), n, heard.message, KeySet);
    AdoptInstalls(Run(events), 1, p, KeySet);
    FalseWithKey(Run(events), heard, n);
  }
}
