/**
 What the extension's service worker (clients/extension/src/background/background.js) shows to its
 callers, without any cryptography: a session, and a vault that one PIN protects.
 Every handler is one atomic step; the network's answers and the random bytes are part of the event.
 */
module VaultSpec {
  import opened Wrappers

  const PIN_MAX_ATTEMPTS := 5

  datatype Item = Item(id: string, name: string, username: string, password: string, uris: seq<string>)

  type Bytes = seq<nat>

  datatype Entropy = Entropy(dek: Bytes, salt: Bytes, blobIv: Bytes, wrapIv: Bytes)

  datatype Event =
    | Install                                   // the extension was installed or updated
    | Restart                                   // the browser restarted: session storage is empty
    | Lock                                      // the LOCK message or the idle alarm
    | Unlock(userKey: Option<string>, accessToken: Option<string>, serverUrl: Option<string>, synced: Option<seq<Item>>)
    | Store(pushed: Option<seq<Item>>)
    | Sync(synced: Option<seq<Item>>)           // None: the server refused or could not be reached
    | Save(created: Option<Item>, ok: bool)     // None: nothing came back that decrypts; ok: what the saver answered
    | SetPin(pin: string, entropy: Entropy)
    | UnlockPin(pin: string)
    | RemovePin

  datatype Reply = Done | Refused | WrongPin(left: nat) | Wiped | NoPin

  datatype Snapshot = Snapshot(items: seq<Item>, serverUrl: string, userKey: Option<string>, accessToken: Option<string>)

  datatype Protected = Protected(pin: string, snapshot: Snapshot, failures: nat)

  /** `live`: the key of the protected snapshot is in memory, so the snapshot follows the session. */
  datatype Spec = Spec(
    locked: Option<bool>, items: Option<seq<Item>>, serverUrl: Option<string>,
    userKey: Option<string>, accessToken: Option<string>, live: bool, vault: Option<Protected>)
  {
    function Current(items: seq<Item>): (r: Snapshot) {
      Snapshot(items, if serverUrl.Some? then serverUrl.value else "", userKey, accessToken)
    }

    function Refreshed(items: seq<Item>): (r: Spec) {
      if live && vault.Some? then this.(vault := Some(vault.value.(snapshot := Current(items)))) else this
    }
  }

  predicate Truthy(s: Option<string>) {
    s.Some? && s.value != ""
  }

  function OrEmpty(items: Option<seq<Item>>): (r: seq<Item>) {
    if items.Some? then items.value else []
  }

  predicate ValidPin(pin: string) {
    (|pin| == 4 || |pin| == 6) && forall i :: 0 <= i < |pin| ==> '0' <= pin[i] <= '9'
  }

  /** GET_STATUS reports a session whose flag was never written as locked. */
  predicate ReportedLocked(s: Spec) {
    s.locked != Some(false)
  }

  function Cleared(s: Spec, locked: Option<bool>): (r: Spec) {
    Spec(locked, None, s.serverUrl, None, None, false, s.vault)
  }

  function SyncStep(s: Spec, synced: Option<seq<Item>>): (r: (Spec, Reply)) {
    if s.locked == Some(true) || !Truthy(s.accessToken) || !Truthy(s.userKey) || synced.None? then (s, Refused)
    else (s.(items := synced).Refreshed(synced.value), Done)
  }

  function SaveStep(s: Spec, created: Option<Item>, ok: bool): (r: (Spec, Reply)) {
    if s.locked == Some(true) then (s, Refused)
    else if !Truthy(s.userKey) || !Truthy(s.accessToken) || created.None? then (s, if ok then Done else Refused)
    else
      var items := OrEmpty(s.items) + [created.value];
      (s.(items := Some(items)).Refreshed(items), Done)
  }

  function UnlockPinStep(s: Spec, pin: string): (r: (Spec, Reply)) {
    if s.vault.None? then (s, NoPin)
    else
      var v := s.vault.value;
      if pin == v.pin then
        (Spec(Some(false), Some(v.snapshot.items), Some(v.snapshot.serverUrl), v.snapshot.userKey,
              v.snapshot.accessToken, true, Some(v.(failures := 0))), Done)
      else if v.failures + 1 >= PIN_MAX_ATTEMPTS then (s.(vault := None), Wiped)
      else (s.(vault := Some(v.(failures := v.failures + 1))), WrongPin(PIN_MAX_ATTEMPTS - v.failures - 1))
  }

  function Step(s: Spec, e: Event): (r: (Spec, Reply)) {
    match e
    case Install => (Cleared(s.(serverUrl := None), Some(true)), Done)
    case Restart => (Cleared(s.(serverUrl := None), None), Done)
    case Lock => (Cleared(s, Some(true)), Done)
    case Unlock(userKey, accessToken, serverUrl, synced) =>
      if !Truthy(accessToken) || !Truthy(userKey) then (s, Refused)
      else
        var url := if serverUrl.Some? then serverUrl.value else "";
        (SyncStep(s.(locked := Some(false), accessToken := accessToken, serverUrl := Some(url), userKey := userKey), synced).0, Done)
    case Store(pushed) => (s.(items := pushed, locked := Some(false)).Refreshed(OrEmpty(pushed)), Done)
    case Sync(synced) => SyncStep(s, synced)
    case Save(created, ok) => SaveStep(s, created, ok)
    case SetPin(pin, _) =>
      if !ValidPin(pin) || s.locked == Some(true) then (s, Refused)
      else (s.(live := true, vault := Some(Protected(pin, s.Current(OrEmpty(s.items)), 0))), Done)
    case UnlockPin(pin) => UnlockPinStep(s, pin)
    case RemovePin => (s.(live := false, vault := None), Done)
  }

  // ----- runs -----

  function Run(s: Spec, events: seq<Event>): (r: (Spec, seq<Reply>))
    ensures |r.1| == |events|
  {
    if events == [] then (s, [])
    else
      var (before, replies) := Run(s, events[..|events| - 1]);
      var (after, reply) := Step(before, events[|events| - 1]);
      (after, replies + [reply])
  }

  /** What every handler keeps. */
  predicate Inv(s: Spec) {
    && (s.locked != Some(false) ==> s.items.None? && s.userKey.None? && s.accessToken.None?)
    && (s.locked == Some(true) ==> !s.live)
    && (s.vault.Some? ==> s.vault.value.failures < PIN_MAX_ATTEMPTS)
    && (s.vault.Some? && s.live ==> s.vault.value.snapshot.items == OrEmpty(s.items))
  }

  lemma StepKeepsInv(s: Spec, e: Event)
    requires Inv(s)
    ensures Inv(Step(s, e).0)
  {
  }

  lemma {:induction false} RunKeepsInv(s: Spec, events: seq<Event>)
    requires Inv(s)
    ensures Inv(Run(s, events).0)
  {
    if events != [] {
      RunKeepsInv(s, events[..|events| - 1]);
      StepKeepsInv(Run(s, events[..|events| - 1]).0, events[|events| - 1]);
    }
  }

  // ----- what each event leaves behind, after any run -----

  lemma RunSnoc(s: Spec, events: seq<Event>, e: Event)
    ensures var (before, replies) := Run(s, events);
            Run(s, events + [e]) == (Step(before, e).0, replies + [Step(before, e).1])
  {
    assert (events + [e])[..|events|] == events;
  }

  /** No secret is left in the session. */
  predicate Emptied(s: Spec) {
    s.items == None && s.userKey == None && s.accessToken == None && !s.live
  }

  /** Locking, installing and restarting leave no secret, report a locked vault and keep what the PIN protects. */
  lemma LockLocks(s: Spec, events: seq<Event>)
    ensures var before, end := Run(s, events).0, Run(s, events + [Lock]).0;
            && Emptied(end) && end.locked == Some(true) && ReportedLocked(end)
            && end.serverUrl == before.serverUrl && end.vault == before.vault
    ensures var before, end := Run(s, events).0, Run(s, events + [Install]).0;
            && Emptied(end) && end.locked == Some(true) && ReportedLocked(end)
            && end.serverUrl == None && end.vault == before.vault
    ensures var before, end := Run(s, events).0, Run(s, events + [Restart]).0;
            && Emptied(end) && end.locked == None && ReportedLocked(end)
            && end.serverUrl == None && end.vault == before.vault
  {
    RunSnoc(s, events, Lock);
    RunSnoc(s, events, Install);
    RunSnoc(s, events, Restart);
  }

  predicate SameCredentials(s: Spec, t: Spec) {
    s.userKey == t.userKey && s.accessToken == t.accessToken && s.serverUrl == t.serverUrl && s.live == t.live
  }

  /** STORE_ITEMS leaves exactly the pushed items in an unlocked session. */
  lemma StoreStores(s: Spec, events: seq<Event>, pushed: Option<seq<Item>>)
    ensures var before, end := Run(s, events).0, Run(s, events + [Store(pushed)]).0;
            && end.items == pushed && end.locked == Some(false) && !ReportedLocked(end)
            && SameCredentials(before, end) && PinOf(end) == PinOf(before) && FailuresOf(end) == FailuresOf(before)
  {
    RunSnoc(s, events, Store(pushed));
  }

  /** SYNC is accepted exactly in a session not locked, with key and token, that the server answers; it leaves exactly the synced items. */
  lemma SyncStores(s: Spec, events: seq<Event>, synced: Option<seq<Item>>)
    ensures var before, end := Run(s, events).0, Run(s, events + [Sync(synced)]).0;
            var accepted := before.locked != Some(true) && Truthy(before.accessToken) && Truthy(before.userKey) && synced.Some?;
            && Run(s, events + [Sync(synced)]).1[|events|] == (if accepted then Done else Refused)
            && (accepted ==> end.items == synced && end.locked == before.locked && SameCredentials(before, end)
                             && PinOf(end) == PinOf(before) && FailuresOf(end) == FailuresOf(before))
            && (!accepted ==> end == before)
  {
    RunSnoc(s, events, Sync(synced));
  }

  /** SAVE_CREDENTIAL adds the created item behind the others, or changes nothing. */
  lemma SaveAppends(s: Spec, events: seq<Event>, created: Option<Item>, ok: bool)
    ensures var before, end := Run(s, events).0, Run(s, events + [Save(created, ok)]).0;
            var reply := Run(s, events + [Save(created, ok)]).1[|events|];
            if before.locked == Some(true) then reply == Refused && end == before
            else if Truthy(before.userKey) && Truthy(before.accessToken) && created.Some? then
              && reply == Done && end.locked == before.locked && SameCredentials(before, end)
              && end.items == Some((if before.items.Some? then before.items.value else []) + [created.value])
              && PinOf(end) == PinOf(before) && FailuresOf(end) == FailuresOf(before)
            else end == before && (reply == Done <==> ok) && (reply == Refused <==> !ok)
  {
    RunSnoc(s, events, Save(created, ok));
  }

  /** UNLOCK is refused exactly without key or token; else it leaves its key, token and server, and the items of the sync or the old ones. */
  lemma UnlockOpens(s: Spec, events: seq<Event>, key: Option<string>, token: Option<string>, url: Option<string>, synced: Option<seq<Item>>)
    ensures var before, end := Run(s, events).0, Run(s, events + [Unlock(key, token, url, synced)]).0;
            var accepted := key.Some? && key.value != "" && token.Some? && token.value != "";
            && Run(s, events + [Unlock(key, token, url, synced)]).1[|events|] == (if accepted then Done else Refused)
            && (accepted ==>
                  && end.locked == Some(false) && end.userKey == key && end.accessToken == token && end.live == before.live
                  && end.serverUrl == Some(if url.Some? then url.value else "")
                  && end.items == (if synced.Some? then synced else before.items)
                  && PinOf(end) == PinOf(before) && FailuresOf(end) == FailuresOf(before))
            && (!accepted ==> end == before)
  {
    hide Run;
    RunSnoc(s, events, Unlock(key, token, url, synced));
  }

  /** SET_PIN is accepted exactly for four or six digits in a session not locked; it protects that session with no failure counted. */
  lemma SetPinProtects(s: Spec, events: seq<Event>, pin: string, e: Entropy)
    ensures var before, end := Run(s, events).0, Run(s, events + [SetPin(pin, e)]).0;
            var accepted := before.locked != Some(true) && |pin| in {4, 6} && forall i :: 0 <= i < |pin| ==> pin[i] in "0123456789";
            && Run(s, events + [SetPin(pin, e)]).1[|events|] == (if accepted then Done else Refused)
            && (accepted ==>
                  && end == before.(live := true, vault := end.vault) && PinOf(end) == Some(pin) && FailuresOf(end) == 0
                  && Snapped(end) == Shown(before))
            && (!accepted ==> end == before)
  {
    hide Run;
    RunSnoc(s, events, SetPin(pin, e));
    assert forall i :: 0 <= i < |pin| ==> (pin[i] in "0123456789" <==> '0' <= pin[i] <= '9');
  }

  /** A wrong PIN changes nothing but the counter and is told how many of five attempts are left; REMOVE_PIN forgets the PIN and nothing else. */
  lemma WrongPinCounts(s: Spec, events: seq<Event>, pin: string)
    requires Inv(s)
    ensures var before, end, reply := Run(s, events).0, Run(s, events + [UnlockPin(pin)]).0, Run(s, events + [UnlockPin(pin)]).1[|events|];
            && (reply.WrongPin? ==>
                  && end == before.(vault := end.vault) && PinOf(end) == PinOf(before) && Snapped(end) == Snapped(before)
                  && FailuresOf(end) == FailuresOf(before) + 1 && reply.left == 5 - FailuresOf(end) && 0 < reply.left)
            && (reply == Wiped ==> end == before.(vault := None))
            && (reply == NoPin ==> end == before)
    ensures Run(s, events + [RemovePin]).0 == Run(s, events).0.(live := false, vault := None)
  {
    hide Run;
    RunSnoc(s, events, UnlockPin(pin));
    RunSnoc(s, events, RemovePin);
    RunKeepsInv(s, events);
  }

  // ----- the PIN and its attempt counter, read off the conversation alone -----

  /** The PIN of the last accepted SET_PIN, unless REMOVE_PIN or a wipe came after it. */
  function PinInForce(initial: Option<string>, events: seq<Event>, replies: seq<Reply>): (r: Option<string>)
    requires |events| == |replies|
  {
    if events == [] then initial
    else
      var n := |events| - 1;
      if events[n].SetPin? && replies[n] == Done then Some(events[n].pin)
      else if events[n] == RemovePin || replies[n] == Wiped then None
      else PinInForce(initial, events[..n], replies[..n])
  }

  /** Wrong PINs answered since the last accepted SET_PIN or successful UNLOCK_PIN. */
  function FailuresInARow(initial: nat, events: seq<Event>, replies: seq<Reply>): (r: nat)
    requires |events| == |replies|
  {
    if events == [] then initial
    else
      var n := |events| - 1;
      if (events[n].SetPin? || events[n].UnlockPin?) && replies[n] == Done then 0
      else FailuresInARow(initial, events[..n], replies[..n]) + if replies[n].WrongPin? then 1 else 0
  }

  function PinOf(s: Spec): (r: Option<string>) {
    if s.vault.Some? then Some(s.vault.value.pin) else None
  }

  function FailuresOf(s: Spec): (r: nat) {
    if s.vault.Some? then s.vault.value.failures else 0
  }

  lemma RunUnfold(s: Spec, events: seq<Event>)
    requires events != []
    ensures var (before, replies) := Run(s, events[..|events| - 1]);
            && Run(s, events).0 == Step(before, events[|events| - 1]).0
            && Run(s, events).1[..|events| - 1] == replies
            && Run(s, events).1[|events| - 1] == Step(before, events[|events| - 1]).1
  {
  }

  /** How one step changes the PIN in force and its counter, by its event and reply. */
  lemma StepTracksPin(s: Spec, e: Event)
    requires Inv(s)
    ensures var (after, reply) := Step(s, e);
            && (e.SetPin? && reply == Done ==> PinOf(after) == Some(e.pin) && FailuresOf(after) == 0)
            && (e == RemovePin || reply == Wiped ==> PinOf(after) == None)
            && (!(e.SetPin? && reply == Done) && e != RemovePin && reply != Wiped ==> PinOf(after) == PinOf(s))
            && (e.UnlockPin? && reply == Done ==> FailuresOf(after) == 0)
            && (!((e.SetPin? || e.UnlockPin?) && reply == Done) && PinOf(after).Some? ==>
                  FailuresOf(after) == FailuresOf(s) + if reply.WrongPin? then 1 else 0)
  {
  }

  lemma UnlocksWithPinOf(s: Spec, pin: string)
    ensures Step(s, UnlockPin(pin)).1 == Done <==> PinOf(s) == Some(pin)
    ensures Step(s, UnlockPin(pin)).1 == NoPin <==> PinOf(s) == None
  {
  }

  /**
   After any run the stored counter is the number of wrong PINs since the last reset, below five, and
   UNLOCK_PIN succeeds with exactly the PIN in force; with none in force it answers that no PIN is set.
   */
  lemma {:induction false} PinInForceUnlocks(s: Spec, events: seq<Event>, pin: string)
    requires Inv(s)
    ensures var (end, replies) := Run(s, events);
            && PinOf(end) == PinInForce(PinOf(s), events, replies)
            && (PinOf(end).Some? ==> FailuresOf(end) == FailuresInARow(FailuresOf(s), events, replies) < PIN_MAX_ATTEMPTS)
            && (Step(end, UnlockPin(pin)).1 == Done <==> PinInForce(PinOf(s), events, replies) == Some(pin))
            && (Step(end, UnlockPin(pin)).1 == NoPin <==> PinInForce(PinOf(s), events, replies) == None)
  {
    RunKeepsInv(s, events);
    UnlocksWithPinOf(Run(s, events).0, pin);
    hide Step;
    if events != [] {
      var n := |events| - 1;
      RunUnfold(s, events);
      RunKeepsInv(s, events[..n]);
      PinInForceUnlocks(s, events[..n], pin);
      StepTracksPin(Run(s, events[..n]).0, events[n]);
    }
  }

  /** Once the PIN is gone, nothing but another SET_PIN lets UNLOCK_PIN succeed. */
  lemma {:induction false} WipeLastsUntilSetPin(s: Spec, events: seq<Event>, pin: string)
    requires s.vault.None?
    requires forall i :: 0 <= i < |events| ==> !events[i].SetPin?
    ensures Step(Run(s, events).0, UnlockPin(pin)).1 == NoPin
  {
    if events != [] {
      RunUnfold(s, events);
      WipeLastsUntilSetPin(s, events[..|events| - 1], pin);
    }
  }

  /** The first k replies of a run are those of its first k events, and the next one answers in the state they leave. */
  lemma {:induction false} RunPrefix(s: Spec, events: seq<Event>, k: nat)
    requires k < |events|
    ensures Run(s, events).1[..k] == Run(s, events[..k]).1
    ensures Run(s, events).1[k] == Step(Run(s, events[..k]).0, events[k]).1
  {
    hide Step;
    var n := |events| - 1;
    RunUnfold(s, events);
    if k < n {
      RunPrefix(s, events[..n], k);
      assert events[..n][..k] == events[..k];
      assert Run(s, events).1[..k] == Run(s, events).1[..n][..k];
    }
  }

  lemma WipesAtFive(s: Spec, e: Event)
    requires Inv(s)
    ensures Step(s, e).1 == Wiped <==>
            e.UnlockPin? && PinOf(s).Some? && PinOf(s).value != e.pin && FailuresOf(s) == PIN_MAX_ATTEMPTS - 1
    ensures Step(s, e).1 == Wiped ==> PinOf(Step(s, e).0) == None
  {
  }

  /** In every run an event wipes the PIN if and only if it enters a wrong PIN after four wrong ones in a row. */
  lemma FifthFailureWipes(s: Spec, events: seq<Event>, k: nat)
    requires Inv(s) && k < |events|
    ensures var replies := Run(s, events).1;
            var pin := PinInForce(PinOf(s), events[..k], replies[..k]);
            replies[k] == Wiped <==>
              && events[k].UnlockPin? && pin.Some? && pin.value != events[k].pin
              && FailuresInARow(FailuresOf(s), events[..k], replies[..k]) == PIN_MAX_ATTEMPTS - 1
  {
    hide Step, PinInForce, FailuresInARow;
    var before := Run(s, events[..k]).0;
    RunPrefix(s, events, k);
    RunKeepsInv(s, events[..k]);
    PinInForceUnlocks(s, events[..k], "");
    WipesAtFive(before, events[k]);
  }

  // ----- what a PIN unlock restores -----

  /** The whole session, as a snapshot shows it. */
  function Shown(s: Spec): (snapshot: Snapshot) {
    s.Current(OrEmpty(s.items))
  }

  /** The snapshot of a vault without one. */
  const NOTHING := Snapshot([], "", None, None)

  function Snapped(s: Spec): (snapshot: Snapshot) {
    if s.vault.Some? then s.vault.value.snapshot else NOTHING
  }

  /** The session at the last moment of the run at which the snapshot's key was in memory. */
  function LastLive(s: Spec, events: seq<Event>): (snapshot: Snapshot) {
    var end := Run(s, events).0;
    if end.live then Shown(end)
    else if events == [] then Snapped(s)
    else LastLive(s, events[..|events| - 1])
  }

  /** A step that leaves the key out of memory leaves the snapshot alone. */
  lemma IdleKeepsSnapshot(s: Spec, e: Event)
    requires !Step(s, e).0.live && Step(s, e).0.vault.Some?
    ensures s.vault.Some? && Step(s, e).0.vault.value.snapshot == s.vault.value.snapshot
  {
  }

  lemma {:induction false} SnapshotIsLastLive(s: Spec, events: seq<Event>)
    requires Inv(s)
    ensures var end := Run(s, events).0;
            end.vault.Some? ==> end.vault.value.snapshot.items == LastLive(s, events).items
  {
    hide Step;
    var end := Run(s, events).0;
    RunKeepsInv(s, events);
    if !end.live && end.vault.Some? && events != [] {
      var n := |events| - 1;
      RunUnfold(s, events);
      SnapshotIsLastLive(s, events[..n]);
      IdleKeepsSnapshot(Run(s, events[..n]).0, events[n]);
    }
  }

  /** The PIN last set always unlocks, and restores the items of the last moment its snapshot was kept in step. */
  lemma PinRestoresItems(s: Spec, events: seq<Event>, pin: string)
    requires Inv(s)
    requires PinInForce(PinOf(s), events, Run(s, events).1) == Some(pin)
    ensures var (after, reply) := Step(Run(s, events).0, UnlockPin(pin));
            reply == Done && after.items == Some(LastLive(s, events).items) && !ReportedLocked(after)
  {
    PinInForceUnlocks(s, events, pin);
    SnapshotIsLastLive(s, events);
  }

  /** The protected snapshot shows the whole session: items, server, user key and token. */
  predicate InStep(s: Spec) {
    s.vault.Some? && s.vault.value.snapshot == Shown(s)
  }

  /** A session that the protected snapshot should show, and does not. */
  predicate Lagging(s: Spec) {
    s.live && s.vault.Some? && !InStep(s)
  }

  /** What an UNLOCK or a session says of the server and who is logged in. */
  datatype Credentials = Credentials(serverUrl: string, userKey: Option<string>, accessToken: Option<string>)

  function CredentialsOf(snapshot: Snapshot): (c: Credentials) {
    Credentials(snapshot.serverUrl, snapshot.userKey, snapshot.accessToken)
  }

  /** The credentials of an UNLOCK that is accepted and whose sync fails. */
  function Unsynced(e: Event): (c: Option<Credentials>) {
    if e.Unlock? && Truthy(e.userKey) && Truthy(e.accessToken) && e.synced.None?
    then Some(Credentials(if e.serverUrl.Some? then e.serverUrl.value else "", e.userKey, e.accessToken))
    else None
  }

  /**
   While the key is in memory every handler keeps the snapshot in step with the whole session, except an
   accepted UNLOCK whose sync failed and that brings another key, token or server than the session's.
   */
  lemma OnlyUnsyncedUnlockLags(s: Spec, e: Event)
    requires Inv(s) && s.live && InStep(s)
    ensures Lagging(Step(s, e).0) <==>
            Unsynced(e).Some? && Unsynced(e).value != CredentialsOf(Shown(s))
  {
  }

  // ----- the snapshot over a whole run -----

  /** The event writes the snapshot of a live session, or restores the session from it. */
  predicate Settles(e: Event, reply: Reply) {
    reply == Done && match e
      case Store(_) => true
      case Sync(_) => true
      case SetPin(_, _) => true
      case UnlockPin(_) => true
      case Unlock(_, _, _, synced) => synced.Some?
      case Save(created, _) => created.Some?
      case _ => false
  }

  /** The credentials of the last unsynced UNLOCK of a live session that nothing settled since. */
  function Outstanding(s: Spec, events: seq<Event>): (c: Option<Credentials>) {
    if events == [] then None
    else
      var (end, replies) := Run(s, events);
      var n := |events| - 1;
      if !end.live then Outstanding(s, events[..n])
      else if Settles(events[n], replies[n]) then None
      else if Unsynced(events[n]).Some? then Unsynced(events[n])
      else Outstanding(s, events[..n])
  }

  /** The session at the last live moment with no unsynced UNLOCK outstanding. */
  function LastKept(s: Spec, events: seq<Event>): (snapshot: Snapshot) {
    var end := Run(s, events).0;
    if end.live && Outstanding(s, events).None? then Shown(end)
    else if events == [] then Snapped(s)
    else LastKept(s, events[..|events| - 1])
  }

  /** An unsynced UNLOCK with other credentials than those kept is outstanding. */
  predicate Lags(s: Spec, events: seq<Event>) {
    Outstanding(s, events).Some? && Outstanding(s, events).value != CredentialsOf(LastKept(s, events))
  }

  predicate HasCredentials(s: Spec) {
    Truthy(s.userKey) && Truthy(s.accessToken)
  }

  lemma SettlingKeepsStep(s: Spec, e: Event)
    requires Inv(s) && (Lagging(s) ==> HasCredentials(s)) && Step(s, e).0.live && Settles(e, Step(s, e).1)
    ensures !Lagging(Step(s, e).0)
  {
  }

  lemma UnsyncedKeepsSnapshot(s: Spec, e: Event)
    requires Inv(s) && Step(s, e).0.live && Unsynced(e).Some?
    ensures s.live && PinOf(Step(s, e).0) == PinOf(s) && Snapped(Step(s, e).0) == Snapped(s)
    ensures var after := Step(s, e).0;
            Shown(after).items == Shown(s).items && CredentialsOf(Shown(after)) == Unsynced(e).value && HasCredentials(after)
  {
  }

  lemma OthersKeepSession(s: Spec, e: Event)
    requires Inv(s) && Step(s, e).0.live && !Settles(e, Step(s, e).1) && Unsynced(e).None?
    ensures s.live && Shown(Step(s, e).0) == Shown(s) && HasCredentials(Step(s, e).0) == HasCredentials(s)
    ensures Step(s, e).0.vault.Some? ==> s.vault.Some? && Snapped(Step(s, e).0) == Snapped(s)
  {
  }

  /** How the snapshot, the session and the outstanding credentials hang together after a run. */
  predicate Tracked(s: Spec, events: seq<Event>) {
    var end, kept, last, open := Run(s, events).0, LastKept(s, events), LastLive(s, events), Outstanding(s, events);
    && (open.None? ==> !Lagging(end))
    && (open.Some? && end.live ==> HasCredentials(end))
    && (end.vault.Some? ==>
          && Snapped(end) == kept && kept.items == last.items
          && if open.None? then kept == last else CredentialsOf(last) == open.value)
  }

  lemma {:induction false} RunIsTracked(s: Spec, events: seq<Event>)
    requires Inv(s) && !Lagging(s)
    ensures Tracked(s, events)
  {
    hide Step;
    RunKeepsInv(s, events);
    if events != [] {
      var n := |events| - 1;
      var before, e := Run(s, events[..n]).0, events[n];
      RunUnfold(s, events);
      RunKeepsInv(s, events[..n]);
      RunIsTracked(s, events[..n]);
      if !Step(before, e).0.live {
        if Step(before, e).0.vault.Some? {
          IdleKeepsSnapshot(before, e);
        }
      } else if Settles(e, Step(before, e).1) {
        SettlingKeepsStep(before, e);
      } else if Unsynced(e).Some? {
        UnsyncedKeepsSnapshot(before, e);
      } else {
        OthersKeepSession(before, e);
      }
    }
  }

  /**
   After every run the PIN in force brings back the whole session (items, server, user key and token) of the
   last live moment, except when an unsynced UNLOCK with other credentials is outstanding: then the
   session of the last moment before it.
   */
  lemma PinRestoresSession(s: Spec, events: seq<Event>, pin: string)
    requires Inv(s) && !Lagging(s)
    requires PinInForce(PinOf(s), events, Run(s, events).1) == Some(pin)
    ensures var (back, reply) := Step(Run(s, events).0, UnlockPin(pin));
            && reply == Done && back.live && InStep(back) && !ReportedLocked(back)
            && Shown(back) == LastKept(s, events)
            && (Shown(back) == LastLive(s, events) <==> !Lags(s, events))
  {
    hide PinInForce, LastKept, LastLive, Outstanding;
    PinInForceUnlocks(s, events, pin);
    RunIsTracked(s, events);
  }

  // ----- SET_PIN on a session that never wrote its flag -----

  /** SET_PIN is accepted while GET_STATUS says locked exactly when the session flag was never written. */
  lemma SetPinWhileReportedLocked(s: Spec, pin: string, entropy: Entropy)
    ensures ReportedLocked(s) && Step(s, SetPin(pin, entropy)).1 == Done <==> s.locked == None && ValidPin(pin)
  {
    match s.locked
    case None =>
    case Some(flag) =>
      assert flag || s.locked == Some(false);
  }

  /** In a reported-locked session an accepted SET_PIN always replaces the protected items by none. */
  lemma SetPinAfterRestartForgets(s: Spec, pin: string, entropy: Entropy)
    requires Inv(s) && ReportedLocked(s) && Step(s, SetPin(pin, entropy)).1 == Done
    ensures Step(s, SetPin(pin, entropy)).0.vault.value.snapshot.items == []
  {
  }

  const FRESH := Spec(None, None, None, None, None, false, None)

  /** A run in which a stored item is lost that way: push, set a PIN, restart, set a PIN again. */
  lemma ItemLostAfterRestart(item: Item, e: Entropy)
    ensures var events := [Store(Some([item])), SetPin("1234", e), Restart];
            && LastLive(FRESH, events).items == [item]
            && LastLive(FRESH, events + [SetPin("1234", e)]).items == []
  {
    var e1 := Store(Some([item]));
    var e2 := SetPin("1234", e);
    var s0 := [e1];
    var s1 := [e1, e2];
    var s2 := [e1, e2, Restart];
    var s3 := s2 + [e2];
    assert s0[..0] == [] && s1[..1] == s0 && s2[..2] == s1 && s3[..3] == s2;
    assert Run(FRESH, []).0 == FRESH;
    assert Run(FRESH, s0).0 == Step(FRESH, e1).0;
    assert Run(FRESH, s1).0 == Step(Run(FRESH, s0).0, e2).0;
    assert Run(FRESH, s2).0 == Step(Run(FRESH, s1).0, Restart).0;
    assert Run(FRESH, s3).0 == Step(Run(FRESH, s2).0, e2).0;
    assert LastLive(FRESH, s1).items == [item];
  }

  /** A run that lags: log in, set a PIN, log in as somebody else without a sync, lock; the PIN brings the first login back. */
  lemma SecondLoginLags(e: Entropy)
    ensures var first, second := Unlock(Some("k1"), Some("t1"), None, Some([])), Unlock(Some("k2"), Some("t2"), None, None);
            var events := [first, SetPin("1234", e), second, Lock];
            && Lags(FRESH, events)
            && LastLive(FRESH, events).userKey == Some("k2")
            && Step(Run(FRESH, events).0, UnlockPin("1234")).0.userKey == Some("k1")
  {
    var first, second := Unlock(Some("k1"), Some("t1"), None, Some([])), Unlock(Some("k2"), Some("t2"), None, None);
    var e2 := SetPin("1234", e);
    var s1, s2, s3, s4 := [first], [first, e2], [first, e2, second], [first, e2, second, Lock];
    assert s1[..0] == [] && s2[..1] == s1 && s3[..2] == s2 && s4[..3] == s3;
    assert Run(FRESH, []).0 == FRESH;
    assert Run(FRESH, s1).0 == Step(FRESH, first).0;
    assert Run(FRESH, s2).0 == Step(Run(FRESH, s1).0, e2).0;
    assert Run(FRESH, s3).0 == Step(Run(FRESH, s2).0, second).0;
    assert Run(FRESH, s4).0 == Step(Run(FRESH, s3).0, Lock).0;
    assert LastKept(FRESH, s4) == LastKept(FRESH, s3) == LastKept(FRESH, s2) == Shown(Run(FRESH, s2).0);
  }
}
