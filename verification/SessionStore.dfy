/**
 The stores of one tab on Dafny's own heap: clients/web/src/stores/session.ts, the parts of the auth and
 vault stores that clients/web/src/stores/lock.ts clears, and the two ends of
 clients/web/src/lib/cross-tab-session.ts that copy keys.
 */
module SessionStore {
  import opened Wrappers
  import opened Bytes

  type Handle = nat

  datatype SymKey = SymKey(encKey: array<Byte>, macKey: array<Byte>)

  datatype Client = Client(serverUrl: string, token: string)

  datatype Payload = Payload(key: SymKey, rsaKey: Option<Handle>, accessToken: string, serverUrl: string)

  predicate AllZero(a: array<Byte>)
    reads a
  {
    forall i :: 0 <= i < a.Length ==> a[i] == 0
  }

  method Copy(a: array<Byte>) returns (b: array<Byte>)
    ensures fresh(b) && b[..] == a[..]
  {
    b := new Byte[a.Length](i requires 0 <= i < a.Length reads a => a[i]);
  }

  method FillZero(a: array<Byte>)
    modifies a
    ensures AllZero(a)
  {
    for k := 0 to a.Length
      invariant forall i :: 0 <= i < k ==> a[i] == 0
    {
      a[k] := 0;
    }
  }

  function Arrays(key: Option<SymKey>): (s: set<object>) {
    if key.Some? then {key.value.encKey, key.value.macKey} else {}
  }

  class Store {
    // session store
    var userKey: Option<SymKey>
    var rsaKey: Option<Handle>
    // auth store
    var isLocked: bool
    var accessToken: Option<string>
    var serverUrl: string
    // vault store
    var items: seq<string>
    var lastSynced: Option<nat>
    // API client
    var client: Option<Client>

    constructor ()
      ensures userKey == None && rsaKey == None && !isLocked && accessToken == None && serverUrl == ""
      ensures items == [] && lastSynced == None && client == None
    {
      userKey, rsaKey, isLocked, accessToken, serverUrl := None, None, false, None, "";
      items, lastSynced, client := [], None, None;
    }

    /** Whether currentPayload has something to share. */
    predicate CanShare()
      reads this
    {
      userKey.Some? && !isLocked && accessToken.Some? && accessToken.value != ""
    }

    method SetSessionUserKey(key: SymKey)
      modifies this`userKey
      ensures userKey == Some(key)
    {
      userKey := Some(key);
    }

    /** The arrays themselves become zeros, whoever else refers to them, and are then forgotten. */
    method ClearSessionKey()
      modifies this`userKey, this`rsaKey, Arrays(userKey)
      ensures userKey == None && rsaKey == None
      ensures old(userKey).Some? ==> AllZero(old(userKey).value.encKey) && AllZero(old(userKey).value.macKey)
    {
      if userKey.Some? {
        FillZero(userKey.value.encKey);
        FillZero(userKey.value.macKey);
        userKey := None;
      }
      rsaKey := None;
    }

    /** lockVault: keys, decrypted items and the token go; the server and the API client stay. */
    method LockVault()
      modifies this`userKey, this`rsaKey, this`items, this`lastSynced, this`isLocked, this`accessToken, Arrays(userKey)
      ensures userKey == None && rsaKey == None && items == [] && lastSynced == None
      ensures isLocked && accessToken == None && !CanShare()
      ensures old(userKey).Some? ==> AllZero(old(userKey).value.encKey) && AllZero(old(userKey).value.macKey)
    {
      ClearSessionKey();
      items, lastSynced := [], None;
      isLocked, accessToken := true, None;
    }

    /** currentPayload: null unless the tab can share, and else copies, never the arrays of the store. */
    method CurrentPayload() returns (p: Option<Payload>)
      ensures p.Some? <==> CanShare()
      ensures p.Some? ==>
                && fresh(p.value.key.encKey) && fresh(p.value.key.macKey) && p.value.key.encKey != p.value.key.macKey
                && p.value.key.encKey[..] == userKey.value.encKey[..] && p.value.key.macKey[..] == userKey.value.macKey[..]
                && p.value.rsaKey == rsaKey && Some(p.value.accessToken) == accessToken && p.value.serverUrl == serverUrl
    {
      if userKey.None? || isLocked || accessToken.None? || accessToken.value == "" {
        return None;
      }
      var enc := Copy(userKey.value.encKey);
      var mac := Copy(userKey.value.macKey);
      p := Some(Payload(SymKey(enc, mac), rsaKey, accessToken.value, serverUrl));
    }

    /** adopt: the payload is copied again before it is installed; a missing RSA key keeps the old one. */
    method Adopt(p: Payload)
      modifies this`userKey, this`rsaKey, this`client, this`isLocked, this`accessToken
      ensures userKey.Some? && fresh(userKey.value.encKey) && fresh(userKey.value.macKey)
      ensures userKey.value.encKey[..] == p.key.encKey[..] && userKey.value.macKey[..] == p.key.macKey[..]
      ensures rsaKey == if p.rsaKey.Some? then p.rsaKey else old(rsaKey)
      ensures client == Some(Client(p.serverUrl, p.accessToken)) && !isLocked && accessToken == Some(p.accessToken)
    {
      var enc := Copy(p.key.encKey);
      var mac := Copy(p.key.macKey);
      SetSessionUserKey(SymKey(enc, mac));
      if p.rsaKey.Some? {
        rsaKey := p.rsaKey;
      }
      client := Some(Client(p.serverUrl, p.accessToken));
      isLocked, accessToken := false, Some(p.accessToken);
    }
  }

  /** One tab shares its session with another and then locks: the other keeps it, byte for byte, and can share it on. */
  method ShareThenLock(owner: Store, asker: Store) returns (shared: bool)
    requires owner != asker
    modifies owner, asker, Arrays(owner.userKey)
    ensures shared == old(owner.CanShare())
    ensures owner.userKey == None && owner.rsaKey == None && owner.items == [] && owner.isLocked && owner.accessToken == None
    ensures old(owner.userKey).Some? ==>
              AllZero(old(owner.userKey).value.encKey) && AllZero(old(owner.userKey).value.macKey)
    ensures shared ==>
              && asker.CanShare() && asker.accessToken == old(owner.accessToken)
              && asker.userKey.value.encKey[..] == old(owner.userKey.value.encKey[..])
              && asker.userKey.value.macKey[..] == old(owner.userKey.value.macKey[..])
              && asker.rsaKey == if old(owner.rsaKey).Some? then old(owner.rsaKey) else old(asker.rsaKey)
    ensures !shared ==> asker.userKey == old(asker.userKey) && asker.accessToken == old(asker.accessToken)
  {
    var payload := owner.CurrentPayload();
    shared := payload.Some?;
    if shared {
      asker.Adopt(payload.value);
    }
    owner.LockVault();
  }
}
