/** The service worker itself: its two storage areas, and handlers that update them. */
module PinVault {
  import opened Wrappers
  import opened VaultSpec

  const PIN_ITERATIONS := 600_000

  /** AES-GCM keys: an imported data-encryption key, or the stretching of a PIN. */
  datatype Key = DekKey(raw: Bytes) | PinKey(pin: string, salt: Bytes, iterations: nat)

  /** An authenticated box: it opens only under the key that sealed it. */
  datatype Box<T> = Box(key: Key, iv: Bytes, plain: T) {
    function Open(k: Key): (r: Option<T>) {
      if k == key then Some(plain) else None
    }
  }

  /** The JSON inside the vault blob: a bundle, or the bare array of items of older builds. */
  datatype Stored =
    | BareItems(items: seq<Item>)
    | Bundle(bundled: Option<seq<Item>>, serverUrl: Option<string>, userKey: Option<string>, accessToken: Option<string>)

  function UnwrapVaultBundle(parsed: Stored): (r: Snapshot) {
    match parsed
    case BareItems(items) => Snapshot(items, "", None, None)
    case Bundle(items, url, userKey, token) =>
      Snapshot(OrEmpty(items), if url.Some? then url.value else "", userKey, token)
  }

  datatype PinRecord = PinRecord(salt: Bytes, wrapped: Box<Bytes>, iterations: nat, length: nat)

  class Worker {
    // storage.session
    var locked: Option<bool>
    var items: Option<seq<Item>>
    var dek: Option<Bytes>
    var serverUrl: Option<string>
    var userKey: Option<string>
    var accessToken: Option<string>

    // storage.local
    var pin: Option<PinRecord>
    var vaultBlob: Option<Box<Stored>>
    var pinAttempts: Option<nat>

    function Attempts(): (r: nat)
      reads this
    {
      if pinAttempts.Some? then pinAttempts.value else 0
    }

    /** A PIN record wraps the key that seals the blob, under its own salt, and any key in memory is that key. */
    ghost predicate Paired()
      reads this
    {
      pin.Some? ==>
        && pin.value.wrapped.key.PinKey?
        && pin.value.wrapped.key == PinKey(pin.value.wrapped.key.pin, pin.value.salt, pin.value.iterations)
        && pin.value.length == |pin.value.wrapped.key.pin|
        && vaultBlob.Some? && vaultBlob.value.key == DekKey(pin.value.wrapped.plain)
        && (dek.Some? ==> dek.value == pin.value.wrapped.plain)
    }

    ghost function Abs(): (r: Spec)
      requires Paired()
      reads this
    {
      Spec(locked, items, serverUrl, userKey, accessToken, dek.Some?,
           if pin.None? then None
           else Some(Protected(pin.value.wrapped.key.pin, UnwrapVaultBundle(vaultBlob.value.plain), Attempts())))
    }

    ghost predicate Valid()
      reads this
    {
      Paired() && Inv(Abs())
    }

    constructor ()
      ensures Valid() && Abs() == FRESH
    {
      locked, items, dek, serverUrl, userKey, accessToken := None, None, None, None, None, None;
      pin, vaultBlob, pinAttempts := None, None, None;
    }

    method GetStatus() returns (isLocked: bool, hasPin: bool, pinLength: Option<nat>)
      requires Valid()
      ensures isLocked == ReportedLocked(Abs())
      ensures hasPin == Abs().vault.Some?
      ensures pinLength == if Abs().vault.Some? then Some(|Abs().vault.value.pin|) else None
    {
      isLocked := if locked.Some? then locked.value else true;
      hasPin := pin.Some?;
      pinLength := if pin.Some? then Some(pin.value.length) else None;
    }

    method LockVault()
      requires Paired()
      modifies this
      ensures Paired() && Abs() == Step(old(Abs()), Lock).0
      ensures locked == Some(true) && items == None && dek == None && userKey == None && accessToken == None
      ensures serverUrl == old(serverUrl) && pin == old(pin) && vaultBlob == old(vaultBlob) && pinAttempts == old(pinAttempts)
    {
      locked, items, dek, accessToken, userKey := Some(true), None, None, None, None;
    }

    /** Session storage lives in memory only; an install writes the flag, a restart does not. */
    method ResetSession(installed: bool)
      requires Paired()
      modifies this
      ensures Paired() && Abs() == Step(old(Abs()), if installed then Install else Restart).0
      ensures locked == (if installed then Some(true) else None)
      ensures items == None && dek == None && userKey == None && accessToken == None && serverUrl == None
      ensures pin == old(pin) && vaultBlob == old(vaultBlob) && pinAttempts == old(pinAttempts)
    {
      locked, items, dek, serverUrl, userKey, accessToken := None, None, None, None, None, None;
      if installed {
        locked := Some(true);
      }
    }

    method RefreshVaultBlob(latest: Option<seq<Item>>, iv: Bytes)
      requires Paired()
      modifies this`vaultBlob
      ensures Paired() && Abs() == old(Abs()).Refreshed(OrEmpty(latest))
      ensures if dek.Some? then vaultBlob.Some? && vaultBlob.value.key == DekKey(dek.value) else vaultBlob == old(vaultBlob)
      ensures dek.Some? ==>
                UnwrapVaultBundle(vaultBlob.value.plain)
                == Snapshot(OrEmpty(latest), if serverUrl.Some? then serverUrl.value else "", userKey, accessToken)
    {
      if dek.None? {
        return;
      }
      var bundle := Bundle(
        Some(OrEmpty(latest)), Some(if serverUrl.Some? then serverUrl.value else ""), userKey, accessToken);
      vaultBlob := Some(Box(DekKey(dek.value), iv, bundle));
    }

    method HandleSync(synced: Option<seq<Item>>, iv: Bytes) returns (reply: Reply)
      requires Paired()
      modifies this
      ensures Paired() && (Abs(), reply) == SyncStep(old(Abs()), synced)
      ensures items == (if reply == Done then synced else old(items))
      ensures locked == old(locked) && userKey == old(userKey) && accessToken == old(accessToken) && serverUrl == old(serverUrl)
    {
      if locked == Some(true) || !Truthy(accessToken) || !Truthy(userKey) {
        return Refused;
      }
      if synced.None? {
        return Refused;
      }
      items := synced;
      RefreshVaultBlob(synced, iv);
      reply := Done;
    }

    method HandleUnlock(key: Option<string>, token: Option<string>, url: Option<string>, synced: Option<seq<Item>>, iv: Bytes)
      returns (reply: Reply)
      requires Paired()
      modifies this
      ensures Paired() && (Abs(), reply) == Step(old(Abs()), Unlock(key, token, url, synced))
      ensures reply == Done ==>
                && locked == Some(false) && userKey == key && accessToken == token
                && serverUrl == Some(if url.Some? then url.value else "")
                && items == if synced.Some? then synced else old(items)
    {
      if !Truthy(token) || !Truthy(key) {
        return Refused;
      }
      locked, accessToken, serverUrl, userKey := Some(false), token, Some(if url.Some? then url.value else ""), key;
      var ignored := HandleSync(synced, iv);
      reply := Done;
    }

    method StoreItems(pushed: Option<seq<Item>>, iv: Bytes) returns (reply: Reply)
      requires Paired()
      modifies this
      ensures Paired() && (Abs(), reply) == Step(old(Abs()), Store(pushed))
      ensures items == pushed && locked == Some(false)
    {
      items, locked := pushed, Some(false);
      RefreshVaultBlob(pushed, iv);
      reply := Done;
    }

    method HandleSaveCredential(created: Option<Item>, ok: bool, iv: Bytes) returns (reply: Reply)
      requires Paired()
      modifies this
      ensures Paired() && (Abs(), reply) == SaveStep(old(Abs()), created, ok)
      ensures items == old(items) || (created.Some? && items == Some(OrEmpty(old(items)) + [created.value]))
    {
      if locked == Some(true) {
        return Refused;
      }
      if Truthy(userKey) && Truthy(accessToken) && created.Some? {
        items := Some(OrEmpty(items) + [created.value]);
        RefreshVaultBlob(items, iv);
        return Done;
      }
      reply := if ok then Done else Refused;
    }

    method HandleSetPin(newPin: string, e: Entropy) returns (reply: Reply)
      requires Paired()
      modifies this
      ensures Paired() && (Abs(), reply) == Step(old(Abs()), SetPin(newPin, e))
      ensures reply == Done ==>
                && dek == Some(if old(dek).Some? then old(dek).value else e.dek)
                && pin.value.wrapped == Box(PinKey(newPin, e.salt, PIN_ITERATIONS), e.wrapIv, dek.value)
    {
      if !ValidPin(newPin) {
        return Refused;
      }
      if locked == Some(true) {
        return Refused;
      }
      var dekArr := if dek.Some? then dek.value else e.dek;
      var bundle := Bundle(
        Some(OrEmpty(items)), Some(if serverUrl.Some? then serverUrl.value else ""), userKey, accessToken);
      var wrap := Box(PinKey(newPin, e.salt, PIN_ITERATIONS), e.wrapIv, dekArr);
      pin := Some(PinRecord(e.salt, wrap, PIN_ITERATIONS, |newPin|));
      vaultBlob := Some(Box(DekKey(dekArr), e.blobIv, bundle));
      pinAttempts := Some(0);
      dek := Some(dekArr);
      reply := Done;
    }

    method HandleUnlockPin(entered: string) returns (reply: Reply)
      requires Paired()
      modifies this
      ensures Paired() && (Abs(), reply) == UnlockPinStep(old(Abs()), entered)
      ensures reply == Wiped ==> pin.None? && vaultBlob.None? && pinAttempts.None?
      ensures reply == Done ==>
                && locked == Some(false) && dek == Some(pin.value.wrapped.plain) && pinAttempts == Some(0)
                && match vaultBlob.value.plain
                   case BareItems(bare) =>
                     items == Some(bare) && serverUrl == Some("") && userKey == None && accessToken == None
                   case Bundle(bundled, url, key, token) =>
                     && items == Some(OrEmpty(bundled)) && serverUrl == Some(if url.Some? then url.value else "")
                     && userKey == key && accessToken == token
    {
      if pin.None? || vaultBlob.None? {
        return NoPin;
      }
      var attempts := Attempts();
      var rec := pin.value;
      var unwrapped := rec.wrapped.Open(PinKey(entered, rec.salt, rec.iterations));
      if unwrapped.Some? {
        var parsed := vaultBlob.value.Open(DekKey(unwrapped.value));
        if parsed.Some? {
          var bundle := UnwrapVaultBundle(parsed.value);
          locked, items, serverUrl := Some(false), Some(bundle.items), Some(bundle.serverUrl);
          userKey, accessToken, dek := bundle.userKey, bundle.accessToken, unwrapped;
          pinAttempts := Some(0);
          return Done;
        }
      }
      var used := attempts + 1;
      if PIN_MAX_ATTEMPTS - used <= 0 {
        pin, vaultBlob, pinAttempts := None, None, None;
        return Wiped;
      }
      pinAttempts := Some(used);
      reply := WrongPin(PIN_MAX_ATTEMPTS - used);
    }

    method HandleRemovePin() returns (reply: Reply)
      requires Paired()
      modifies this
      ensures Paired() && (Abs(), reply) == Step(old(Abs()), RemovePin)
      ensures pin.None? && vaultBlob.None? && pinAttempts.None? && dek.None?
    {
      pin, vaultBlob, pinAttempts, dek := None, None, None, None;
      reply := Done;
    }

    /** One message, alarm or life-cycle event. */
    method Handle(e: Event, iv: Bytes) returns (reply: Reply)
      requires Valid()
      modifies this
      ensures Valid() && (Abs(), reply) == Step(old(Abs()), e)
    {
      StepKeepsInv(Abs(), e);
      match e
      case Install => ResetSession(true); reply := Done;
      case Restart => ResetSession(false); reply := Done;
      case Lock => LockVault(); reply := Done;
      case Unlock(key, token, url, synced) => reply := HandleUnlock(key, token, url, synced, iv);
      case Store(pushed) => reply := StoreItems(pushed, iv);
      case Sync(synced) => reply := HandleSync(synced, iv);
      case Save(created, ok) => reply := HandleSaveCredential(created, ok, iv);
      case SetPin(newPin, entropy) => reply := HandleSetPin(newPin, entropy);
      case UnlockPin(entered) => reply := HandleUnlockPin(entered);
      case RemovePin => reply := HandleRemovePin();
    }

    /** Any sequence of events: the worker with its sealed boxes answers like the specification without them. */
    method Serve(events: seq<Event>, ivs: seq<Bytes>) returns (replies: seq<Reply>)
      requires Valid() && |ivs| == |events|
      modifies this
      ensures Valid() && (Abs(), replies) == Run(old(Abs()), events)
    {
      ghost var start := Abs();
      replies := [];
      for i := 0 to |events|
        invariant Valid() && (Abs(), replies) == Run(start, events[..i])
      {
        assert events[..i + 1][..i] == events[..i];
        var reply := Handle(events[i], ivs[i]);
        replies := replies + [reply];
      }
      assert events[..|events|] == events;
    }
  }
}
