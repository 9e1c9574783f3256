// The verification keys of agent/src/auth/jwks.rs: parsing a JWKS document, and the key cache.
// A string is a sequence of Unicode characters here.
module KeyStorage {
  import opened Basics
  import opened Base64Url

  const MAX_KEYS: nat := 64
  const MAX_FILE_BYTES: nat := 0x10_0000

  datatype VerifyingKey = VerifyingKey(kid: string, sec1: seq<byte>)

  // One decoded member of the document; `secret` says that the member "d" was present.
  datatype Jwk = Jwk(kty: string, crv: string, x: string, y: string, kid: string,
                     alg: Option<string>, use: Option<string>, secret: bool)

  datatype LoadError =
    | CannotOpen | NotRegular | CannotRead | TooLarge | NotJwks | TooManyKeys | PrivateKey | BadKid
    | NotP256(kid: string) | WrongAlg(kid: string) | WrongUse(kid: string) | BadCoordinate
    | BadPoint(kid: string) | DuplicateKid(kid: string)

  predicate IsControl(c: char) { c as int < 0x20 || 0x7F <= c as int <= 0x9F }

  predicate ValidKid(kid: string) {
    kid != "" && forall i | 0 <= i < |kid| :: !IsControl(kid[i])
  }

  predicate IsCoordinate(text: string) { Decode(text).Some? && |Decode(text).value| == 32 }

  // The key of one member, or its first fault; `curve` is the foreign check of the point.
  function KeyOf(jwk: Jwk, curve: seq<byte> -> bool): Result<VerifyingKey, LoadError> {
    if jwk.secret then Err(PrivateKey)
    else if !ValidKid(jwk.kid) then Err(BadKid)
    else if jwk.kty != "EC" || jwk.crv != "P-256" then Err(NotP256(jwk.kid))
    else if jwk.alg.Some? && jwk.alg.value != "ES256" then Err(WrongAlg(jwk.kid))
    else if jwk.use.Some? && jwk.use.value != "sig" then Err(WrongUse(jwk.kid))
    else if !IsCoordinate(jwk.x) || !IsCoordinate(jwk.y) then Err(BadCoordinate)
    else
      var sec1 := [4] + Decode(jwk.x).value + Decode(jwk.y).value;
      if !curve(sec1) then Err(BadPoint(jwk.kid)) else Ok(VerifyingKey(jwk.kid, sec1))
  }

  // A proper name: not empty, no control character.
  ghost predicate Named(jwk: Jwk) {
    jwk.kid != "" && forall i | 0 <= i < |jwk.kid| :: jwk.kid[i] >= ' ' && !(0x7F <= jwk.kid[i] as int < 0xA0)
  }

  ghost predicate OnCurve(jwk: Jwk) { jwk.kty == "EC" && jwk.crv == "P-256" }

  ghost predicate ForSignatures(jwk: Jwk) {
    (jwk.alg.None? || jwk.alg == Some("ES256")) && (jwk.use.None? || jwk.use == Some("sig"))
  }

  // The key that a member publishes: its point is the byte 4 and the two coordinates, x before y,
  // whose base64url the member holds.
  ghost predicate Publishes(jwk: Jwk, curve: seq<byte> -> bool, key: VerifyingKey) {
    && !jwk.secret && Named(jwk) && OnCurve(jwk) && ForSignatures(jwk)
    && key.kid == jwk.kid && |key.sec1| == 65 && key.sec1[0] == 4
    && Encode(key.sec1[1..33]) == jwk.x && Encode(key.sec1[33..]) == jwk.y
    && curve(key.sec1)
  }

  lemma CoordinateExact(text: string, bytes: seq<byte>)
    requires |bytes| == 32
    ensures IsCoordinate(text) && Decode(text).value == bytes <==> Encode(bytes) == text
  {
    DecodeEncode(bytes);
    if Decode(text).Some? {
      EncodeDecode(text);
    }
    hide Encode, Decode;
  }

  // Which members give a key, and which key, in both directions.
  lemma KeyOfExact(jwk: Jwk, curve: seq<byte> -> bool, key: VerifyingKey)
    ensures KeyOf(jwk, curve) == Ok(key) <==> Publishes(jwk, curve, key)
  {
    hide Decode, Encode;
    if Publishes(jwk, curve, key) {
      CoordinateExact(jwk.x, key.sec1[1..33]);
      CoordinateExact(jwk.y, key.sec1[33..]);
      assert key.sec1 == [4] + key.sec1[1..33] + key.sec1[33..];
    }
    if KeyOf(jwk, curve) == Ok(key) {
      var x, y := Decode(jwk.x).value, Decode(jwk.y).value;
      assert key.sec1[1..33] == x && key.sec1[33..] == y;
      CoordinateExact(jwk.x, x);
      CoordinateExact(jwk.y, y);
    }
  }

  // A member is refused for its first fault.
  lemma KeyOfFault(jwk: Jwk, curve: seq<byte> -> bool)
    ensures KeyOf(jwk, curve) == Err(PrivateKey) <==> jwk.secret
    ensures KeyOf(jwk, curve) == Err(BadKid) <==> !jwk.secret && !Named(jwk)
    ensures !jwk.secret && Named(jwk) ==>
              && (KeyOf(jwk, curve) == Err(NotP256(jwk.kid)) <==> !OnCurve(jwk))
              && (KeyOf(jwk, curve) == Err(WrongAlg(jwk.kid)) <==>
                    OnCurve(jwk) && jwk.alg.Some? && jwk.alg.value != "ES256")
              && (KeyOf(jwk, curve) == Err(WrongUse(jwk.kid)) <==>
                    OnCurve(jwk) && (jwk.alg.Some? ==> jwk.alg.value == "ES256")
                    && jwk.use.Some? && jwk.use.value != "sig")
              && (KeyOf(jwk, curve) == Err(BadCoordinate) <==>
                    OnCurve(jwk) && ForSignatures(jwk) && !(IsCoordinate(jwk.x) && IsCoordinate(jwk.y)))
  {
    hide IsCoordinate, Decode;
  }

  predicate Knows(keys: seq<VerifyingKey>, kid: string) {
    exists i | 0 <= i < |keys| :: keys[i].kid == kid
  }

  lemma KnowsOneMore(keys: seq<VerifyingKey>, key: VerifyingKey)
    ensures forall kid :: Knows(keys + [key], kid) <==> Knows(keys, kid) || kid == key.kid
  {
    forall kid ensures Knows(keys + [key], kid) <==> Knows(keys, kid) || kid == key.kid {
      assert (keys + [key])[|keys|] == key;
      if i :| 0 <= i < |keys| && keys[i].kid == kid {
        assert (keys + [key])[i].kid == kid;
      }
    }
  }

  // The keys of the first members, then the rest of the document.
  function ParseRest(document: seq<Jwk>, curve: seq<byte> -> bool, keys: seq<VerifyingKey>)
    : Result<seq<VerifyingKey>, LoadError>
    requires |keys| <= |document|
    decreases |document| - |keys|
  {
    if |keys| == |document| then Ok(keys)
    else match KeyOf(document[|keys|], curve)
      case Err(error) => Err(error)
      case Ok(key) =>
        if Knows(keys, key.kid) then Err(DuplicateKid(key.kid)) else ParseRest(document, curve, keys + [key])
  }

  // `document` is None if the bytes are not a JWKS document with only the permitted members.
  function ParseOf(document: Option<seq<Jwk>>, curve: seq<byte> -> bool): Result<seq<VerifyingKey>, LoadError> {
    if document.None? then Err(NotJwks)
    else if |document.value| > MAX_KEYS then Err(TooManyKeys)
    else ParseRest(document.value, curve, [])
  }

  method Parse(document: Option<seq<Jwk>>, curve: seq<byte> -> bool)
    returns (result: Result<seq<VerifyingKey>, LoadError>)
    ensures result == ParseOf(document, curve)
  {
    if document.None? {
      return Err(NotJwks);
    }
    var jwks := document.value;
    if |jwks| > MAX_KEYS {
      return Err(TooManyKeys);
    }
    var seen: set<string> := {};
    var keys: seq<VerifyingKey> := [];
    for i := 0 to |jwks|
      invariant |keys| == i
      invariant forall kid :: kid in seen <==> Knows(keys, kid)
      invariant ParseOf(document, curve) == ParseRest(jwks, curve, keys)
    {
      match KeyOf(jwks[i], curve) {
        case Err(error) =>
          return Err(error);
        case Ok(key) =>
          if key.kid in seen {
            return Err(DuplicateKid(key.kid));
          }
          KnowsOneMore(keys, key);
          seen := seen + {key.kid};
          keys := keys + [key];
      }
    }
    result := Ok(keys);
  }

  ghost predicate DistinctKids(keys: seq<VerifyingKey>) {
    forall i, j | 0 <= i < j < |keys| :: keys[i].kid != keys[j].kid
  }

  // A document is accepted exactly if every member alone is, there are at most 64, and no kid repeats;
  // its keys are then those of its members, in order.
  ghost predicate AcceptedAs(document: Option<seq<Jwk>>, curve: seq<byte> -> bool, keys: seq<VerifyingKey>) {
    && document.Some? && |document.value| <= MAX_KEYS
    && |keys| == |document.value| && DistinctKids(keys)
    && forall i | 0 <= i < |keys| :: Publishes(document.value[i], curve, keys[i])
  }

  ghost predicate ReadSoFar(document: seq<Jwk>, curve: seq<byte> -> bool, keys: seq<VerifyingKey>) {
    |keys| <= |document| && DistinctKids(keys) && forall i | 0 <= i < |keys| :: KeyOf(document[i], curve) == Ok(keys[i])
  }

  lemma AcceptedAsRead(document: seq<Jwk>, curve: seq<byte> -> bool, keys: seq<VerifyingKey>)
    ensures AcceptedAs(Some(document), curve, keys) <==>
            |document| <= MAX_KEYS && |keys| == |document| && ReadSoFar(document, curve, keys)
  {
    hide KeyOf, Publishes;
    if |keys| == |document| {
      forall i | 0 <= i < |keys|
        ensures KeyOf(document[i], curve) == Ok(keys[i]) <==> Publishes(document[i], curve, keys[i])
      {
        KeyOfExact(document[i], curve, keys[i]);
      }
    }
  }

  lemma {:induction false} ParseRestExact(document: seq<Jwk>, curve: seq<byte> -> bool,
                                          keys: seq<VerifyingKey>, all: seq<VerifyingKey>)
    requires ReadSoFar(document, curve, keys)
    ensures ParseRest(document, curve, keys) == Ok(all) <==>
            keys <= all && |all| == |document| && ReadSoFar(document, curve, all)
    decreases |document| - |keys|
  {
    hide KeyOf;
    var n := |keys|;
    if n == |document| {
      assert keys <= all && |all| == n ==> all == keys;
    } else if KeyOf(document[n], curve).Ok? {
      var key := KeyOf(document[n], curve).value;
      if Knows(keys, key.kid) {
        var i :| 0 <= i < n && keys[i].kid == key.kid;
        assert keys <= all ==> all[i] == keys[i];
      } else {
        ParseRestExact(document, curve, keys + [key], all);
        assert keys <= all && n < |all| && all[n] == key ==> keys + [key] <= all;
        assert keys + [key] <= all ==> keys <= all;
      }
    }
  }

  lemma ParseExact(document: Option<seq<Jwk>>, curve: seq<byte> -> bool, keys: seq<VerifyingKey>)
    ensures ParseOf(document, curve) == Ok(keys) <==> AcceptedAs(document, curve, keys)
  {
    if document.Some? && |document.value| <= MAX_KEYS {
      ParseRestExact(document.value, curve, [], keys);
      AcceptedAsRead(document.value, curve, keys);
    }
  }

  // The member after these keys is the first with a fault of its own, or with a kid seen before.
  ghost predicate FirstFault(document: seq<Jwk>, curve: seq<byte> -> bool, keys: seq<VerifyingKey>, error: LoadError) {
    && ReadSoFar(document, curve, keys) && |keys| < |document|
    && match KeyOf(document[|keys|], curve)
       case Err(fault) => error == fault
       case Ok(key) => Knows(keys, key.kid) && error == DuplicateKid(key.kid)
  }

  lemma {:induction false} ParseRestFault(document: seq<Jwk>, curve: seq<byte> -> bool, keys: seq<VerifyingKey>,
                                          error: LoadError)
    requires ReadSoFar(document, curve, keys)
    ensures ParseRest(document, curve, keys) == Err(error) ==>
              exists read :: keys <= read && FirstFault(document, curve, read, error)
    decreases |document| - |keys|
  {
    if ParseRest(document, curve, keys) == Err(error) {
      var n := |keys|;
      if KeyOf(document[n], curve).Err? || Knows(keys, KeyOf(document[n], curve).value.kid) {
        assert FirstFault(document, curve, keys, error);
      } else {
        var key := KeyOf(document[n], curve).value;
        hide KeyOf;
        ParseRestFault(document, curve, keys + [key], error);
        var read :| keys + [key] <= read && FirstFault(document, curve, read, error);
        assert keys <= read;
      }
    }
  }

  // A refused document: not one, too many members, or the first fault in the order of the members.
  lemma ParseFault(document: Option<seq<Jwk>>, curve: seq<byte> -> bool, error: LoadError)
    requires ParseOf(document, curve) == Err(error)
    ensures || (document.None? && error == NotJwks)
            || (document.Some? && |document.value| > MAX_KEYS && error == TooManyKeys)
            || (document.Some? && |document.value| <= MAX_KEYS
                && exists keys :: FirstFault(document.value, curve, keys, error))
  {
    if document.Some? && |document.value| <= MAX_KEYS {
      ParseRestFault(document.value, curve, [], error);
    }
  }

  // ---- lookup

  function Find(keys: seq<VerifyingKey>, kid: string): Option<VerifyingKey> {
    if keys == [] then None
    else if keys[0].kid == kid then Some(keys[0])
    else Find(keys[1..], kid)
  }

  lemma {:induction false} FindExact(keys: seq<VerifyingKey>, kid: string, key: VerifyingKey)
    requires DistinctKids(keys)
    ensures Find(keys, kid) == Some(key) <==> key in keys && key.kid == kid
  {
    if keys != [] {
      FindExact(keys[1..], kid, key);
      assert key in keys <==> key == keys[0] || key in keys[1..];
    }
  }

  // With distinct kids the order of the keys in the file does not matter.
  lemma FindOrderFree(keys: seq<VerifyingKey>, other: seq<VerifyingKey>, kid: string)
    requires DistinctKids(keys) && DistinctKids(other) && multiset(keys) == multiset(other)
    ensures Find(keys, kid) == Find(other, kid)
  {
    if Find(keys, kid).Some? {
      var key := Find(keys, kid).value;
      FindExact(keys, kid, key);
      assert key in multiset(other);
      FindExact(other, kid, key);
    } else if Find(other, kid).Some? {
      var key := Find(other, kid).value;
      FindExact(other, kid, key);
      assert key in multiset(keys);
      FindExact(keys, kid, key);
    }
  }

  // ---- the file and the cache

  datatype Fingerprint = Fingerprint(len: nat, modified: Option<nat>, inode: nat)

  // One version of the file at the path; Gone if even its metadata cannot be had.
  datatype File =
    | Gone
    | Present(fingerprint: Fingerprint, openable: bool, regular: bool, readable: bool,
              size: nat, document: Option<seq<Jwk>>)

  function Load(file: File, curve: seq<byte> -> bool): Result<seq<VerifyingKey>, LoadError> {
    if file.Gone? || !file.openable then Err(CannotOpen)
    else if !file.regular then Err(NotRegular)
    else if !file.readable then Err(CannotRead)
    else if file.size > MAX_FILE_BYTES then Err(TooLarge)
    else ParseOf(file.document, curve)
  }

  datatype Rejection = KeysUnavailable | UnknownKey

  // How versions load. The cache works with any loader; the agent's is LoaderFor(curve).
  type Loader = File -> Result<seq<VerifyingKey>, LoadError>

  function LoaderFor(curve: seq<byte> -> bool): Loader { (file: File) => Load(file, curve) }

  // Exactly the versions with an accepted document in a readable regular file within the limit load.
  ghost predicate Holds(file: File, curve: seq<byte> -> bool, keys: seq<VerifyingKey>) {
    && file.Present? && file.openable && file.regular && file.readable && file.size <= MAX_FILE_BYTES
    && AcceptedAs(file.document, curve, keys)
  }

  lemma LoadExact(file: File, curve: seq<byte> -> bool, keys: seq<VerifyingKey>)
    ensures LoaderFor(curve)(file) == Ok(keys) <==> Holds(file, curve, keys)
  {
    if file.Present? {
      ParseExact(file.document, curve, keys);
    }
  }

  // The first thing that keeps a version from loading.
  lemma LoadFault(file: File, curve: seq<byte> -> bool)
    ensures var result := LoaderFor(curve)(file);
            && (file.Gone? || !file.openable ==> result == Err(CannotOpen))
            && (file.Present? && file.openable ==>
                  && (!file.regular ==> result == Err(NotRegular))
                  && (file.regular && !file.readable ==> result == Err(CannotRead))
                  && (file.regular && file.readable && file.size > 1024 * 1024 ==> result == Err(TooLarge))
                  && (file.regular && file.readable && file.size <= 1024 * 1024 ==>
                        result == ParseOf(file.document, curve)))
  {
  }

  // The answer of a store without a cache: look at the file, load it, find the key.
  function Fresh(file: File, load: Loader, kid: string): Result<VerifyingKey, Rejection> {
    if file.Gone? || load(file).Err? then Err(KeysUnavailable)
    else match Find(load(file).value, kid)
      case Some(key) => Ok(key)
      case None => Err(UnknownKey)
  }

  datatype Loaded = Loaded(at: nat, fingerprint: Fingerprint, keys: seq<VerifyingKey>)

  // One call of key: the file may change between the stat at `now` and the load at `later`.
  datatype Call = Call(kid: string, now: nat, later: nat, atStat: File, atLoad: File)

  function LoadedAt(file: File, at: nat, load: Loader): Option<Loaded> {
    if file.Gone? || load(file).Err? then None else Some(Loaded(at, file.fingerprint, load(file).value))
  }

  // What opening a store keeps, if there is any key to keep.
  function Opened(file: File, at: nat, load: Loader): Option<Loaded> {
    var loaded := LoadedAt(file, at, load);
    if loaded.Some? && loaded.value.keys == [] then None else loaded
  }

  predicate Stale(refresh: nat, loaded: Option<Loaded>, call: Call)
    requires call.atStat.Present?
  {
    || loaded.None?
    || loaded.value.fingerprint != call.atStat.fingerprint
    || call.now >= loaded.value.at + refresh
  }

  function CacheAfter(refresh: nat, loaded: Option<Loaded>, call: Call, load: Loader): Option<Loaded> {
    if call.atStat.Gone? || !Stale(refresh, loaded, call) then loaded
    else LoadedAt(call.atLoad, call.later, load)
  }

  function AnswerTo(refresh: nat, loaded: Option<Loaded>, call: Call, load: Loader)
    : Result<VerifyingKey, Rejection>
  {
    var after := CacheAfter(refresh, loaded, call, load);
    if call.atStat.Gone? || after.None? then Err(KeysUnavailable)
    else match Find(after.value.keys, call.kid)
      case Some(key) => Ok(key)
      case None => Err(UnknownKey)
  }

  class KeyStore {
    const refresh: nat
    const load: Loader
    var loaded: Option<Loaded>

    constructor (refresh: nat, load: Loader, loaded: Loaded)
      ensures this.refresh == refresh && this.load == load && this.loaded == Some(loaded)
    {
      this.refresh, this.load, this.loaded := refresh, load, Some(loaded);
    }

    // A file that does not load or has no keys stops the agent at startup.
    static method Open(refresh: nat, load: Loader, file: File, at: nat) returns (store: Option<KeyStore>)
      ensures store.Some? <==> Opened(file, at, load).Some?
      ensures store.Some? ==>
                && fresh(store.value) && store.value.refresh == refresh && store.value.load == load
                && store.value.loaded == Opened(file, at, load)
    {
      if file.Gone? || load(file).Err? || load(file).value == [] {
        return None;
      }
      var s := new KeyStore(refresh, load, Loaded(at, file.fingerprint, load(file).value));
      store := Some(s);
    }

    // A failed stat leaves the cache alone; a failed load clears it.
    method Key(call: Call) returns (result: Result<VerifyingKey, Rejection>)
      modifies this
      ensures result == AnswerTo(refresh, old(loaded), call, load)
      ensures loaded == CacheAfter(refresh, old(loaded), call, load)
      ensures call.atStat.Gone? ==> result == Err(KeysUnavailable) && loaded == old(loaded)
      ensures call.atStat.Present? && Stale(refresh, old(loaded), call) && load(call.atLoad).Err? ==>
                result == Err(KeysUnavailable) && loaded.None?
    {
      if call.atStat.Gone? {
        return Err(KeysUnavailable);
      }
      var current := call.atStat.fingerprint;
      var stale := match loaded
        case None => true
        case Some(l) => l.fingerprint != current || call.now >= l.at + refresh;
      if stale {
        loaded := None;
        if call.atLoad.Gone? || load(call.atLoad).Err? {
          return Err(KeysUnavailable);
        }
        loaded := Some(Loaded(call.later, call.atLoad.fingerprint, load(call.atLoad).value));
      }
      result := match Find(loaded.value.keys, call.kid)
        case Some(key) => Ok(key)
        case None => Err(UnknownKey);
    }
  }

  // ---- whole histories of calls and file changes

  function CacheAt(refresh: nat, loaded: Option<Loaded>, calls: seq<Call>, load: Loader): Option<Loaded> {
    if calls == [] then loaded
    else CacheAfter(refresh, CacheAt(refresh, loaded, calls[..|calls| - 1], load), calls[|calls| - 1], load)
  }

  lemma CacheSteps(refresh: nat, loaded: Option<Loaded>, calls: seq<Call>, call: Call, load: Loader)
    ensures CacheAt(refresh, loaded, [], load) == loaded
    ensures CacheAt(refresh, loaded, calls + [call], load) ==
            CacheAfter(refresh, CacheAt(refresh, loaded, calls, load), call, load)
  {
    assert (calls + [call])[..|calls|] == calls;
  }

  // What fingerprints are for: versions that share one load alike.
  ghost predicate Telling(versions: set<File>, load: Loader) {
    forall f, g | f in versions && g in versions && f.Present? && g.Present? && f.fingerprint == g.fingerprint ::
      load(f) == load(g)
  }

  ghost predicate Honest(loaded: Option<Loaded>, versions: set<File>, load: Loader) {
    loaded.Some? ==> exists f :: f in versions && f.Present? && f.fingerprint == loaded.value.fingerprint
                              && load(f) == Ok(loaded.value.keys)
  }

  lemma {:induction false} CacheHonest(refresh: nat, loaded: Option<Loaded>, calls: seq<Call>,
                                       versions: set<File>, load: Loader)
    requires Honest(loaded, versions, load)
    requires forall i | 0 <= i < |calls| :: calls[i].atLoad in versions
    ensures Honest(CacheAt(refresh, loaded, calls, load), versions, load)
  {
    if calls != [] {
      CacheHonest(refresh, loaded, calls[..|calls| - 1], versions, load);
    }
  }

  // The cache agrees with no cache: after a store was opened and any history of calls and file
  // changes, a call answers what a fresh look would have answered at its stat or at its load, and so
  // exactly what a fresh look answers if the file does not change during the call.
  lemma {:induction false} CacheIsTransparent(refresh: nat, first: File, at: nat, calls: seq<Call>, call: Call,
                                              versions: set<File>, load: Loader)
    requires Telling(versions, load) && first in versions && Opened(first, at, load).Some?
    requires forall i | 0 <= i < |calls| :: calls[i].atLoad in versions
    requires call.atStat in versions && call.atLoad in versions
    ensures var answer := AnswerTo(refresh, CacheAt(refresh, Opened(first, at, load), calls, load), call, load);
            && (answer == Fresh(call.atStat, load, call.kid) || answer == Fresh(call.atLoad, load, call.kid))
            && (call.atStat == call.atLoad ==> answer == Fresh(call.atStat, load, call.kid))
  {
    CacheHonest(refresh, Opened(first, at, load), calls, versions, load);
  }

  lemma {:induction false} CacheHasSource(refresh: nat, loaded: Option<Loaded>, calls: seq<Call>, load: Loader)
    ensures var cache := CacheAt(refresh, loaded, calls, load);
            cache == None || cache == loaded
            || exists i :: 0 <= i < |calls| && cache == LoadedAt(calls[i].atLoad, calls[i].later, load)
  {
    if calls != [] {
      var n := |calls| - 1;
      var cache, before := CacheAt(refresh, loaded, calls, load), CacheAt(refresh, loaded, calls[..n], load);
      CacheHasSource(refresh, loaded, calls[..n], load);
      if cache == before && before != None && before != loaded {
        var i :| 0 <= i < n && before == LoadedAt(calls[..n][i].atLoad, calls[..n][i].later, load);
        assert before == LoadedAt(calls[i].atLoad, calls[i].later, load);
      } else if cache != before {
        assert cache == LoadedAt(calls[n].atLoad, calls[n].later, load);
      }
    }
  }

  // The file, loaded at that time, offered the key.
  ghost predicate Offered(file: File, at: nat, load: Loader, kid: string, key: VerifyingKey) {
    LoadedAt(file, at, load).Some? && Find(LoadedAt(file, at, load).value.keys, kid) == Some(key)
  }

  // Whatever fingerprints tell: a returned key was offered at a load in this very call, or at opening
  // or in an earlier call less than `refresh` before it.
  lemma {:induction false} KeyIsRecent(refresh: nat, first: File, at: nat, calls: seq<Call>, call: Call,
                                       load: Loader, key: VerifyingKey)
    requires AnswerTo(refresh, CacheAt(refresh, Opened(first, at, load), calls, load), call, load) == Ok(key)
    ensures || Offered(call.atLoad, call.later, load, call.kid, key)
            || (call.now < at + refresh && Offered(first, at, load, call.kid, key))
            || exists i :: 0 <= i < |calls| && call.now < calls[i].later + refresh
                           && Offered(calls[i].atLoad, calls[i].later, load, call.kid, key)
  {
    var before := CacheAt(refresh, Opened(first, at, load), calls, load);
    CacheHasSource(refresh, Opened(first, at, load), calls, load);
    if !Stale(refresh, before, call) && before != Opened(first, at, load) {
      var i :| 0 <= i < |calls| && before == LoadedAt(calls[i].atLoad, calls[i].later, load);
      assert Offered(calls[i].atLoad, calls[i].later, load, call.kid, key);
    }
  }

  // An accepted document in the file has the key, under that kid.
  ghost predicate Lists(file: File, curve: seq<byte> -> bool, kid: string, key: VerifyingKey) {
    key.kid == kid && exists keys :: Holds(file, curve, keys) && key in keys
  }

  lemma OfferedIsListed(file: File, at: nat, curve: seq<byte> -> bool, kid: string, key: VerifyingKey)
    ensures Offered(file, at, LoaderFor(curve), kid, key) <==> Lists(file, curve, kid, key)
  {
    if keys :| Holds(file, curve, keys) && key in keys {
      LoadExact(file, curve, keys);
      FindExact(keys, kid, key);
    }
    if Offered(file, at, LoaderFor(curve), kid, key) {
      var keys := LoadedAt(file, at, LoaderFor(curve)).value.keys;
      LoadExact(file, curve, keys);
      FindExact(keys, kid, key);
    }
  }

  // With the loader of the agent: a key that the store returns is a member of an accepted document
  // that the file held at a load in this call or less than `refresh` before, and it has the kid asked for.
  lemma {:induction false} KeyIsAccepted(refresh: nat, first: File, at: nat, calls: seq<Call>, call: Call,
                                         curve: seq<byte> -> bool, key: VerifyingKey)
    requires var load := LoaderFor(curve);
             AnswerTo(refresh, CacheAt(refresh, Opened(first, at, load), calls, load), call, load) == Ok(key)
    ensures || Lists(call.atLoad, curve, call.kid, key)
            || (call.now < at + refresh && Lists(first, curve, call.kid, key))
            || exists i :: 0 <= i < |calls| && call.now < calls[i].later + refresh
                           && Lists(calls[i].atLoad, curve, call.kid, key)
  {
    var load := LoaderFor(curve);
    KeyIsRecent(refresh, first, at, calls, call, load, key);
    OfferedIsListed(call.atLoad, call.later, curve, call.kid, key);
    OfferedIsListed(first, at, curve, call.kid, key);
    if i :| 0 <= i < |calls| && call.now < calls[i].later + refresh
            && Offered(calls[i].atLoad, calls[i].later, load, call.kid, key) {
      OfferedIsListed(calls[i].atLoad, calls[i].later, curve, call.kid, key);
    }
  }

  // And without a cache nothing else could be answered: a fresh look finds exactly what the file lists.
  lemma FreshExact(file: File, curve: seq<byte> -> bool, kid: string, key: VerifyingKey)
    ensures Fresh(file, LoaderFor(curve), kid) == Ok(key) <==> Lists(file, curve, kid, key)
  {
    OfferedIsListed(file, 0, curve, kid, key);
  }

  // ---- a file that becomes unreadable

  // A file that cannot be loaded, throughout the call, is refused with "unavailable" exactly if it
  // cannot be found or the cache is stale: an unreadable file with the cached fingerprint is not noticed.
  lemma UnreadableExact(refresh: nat, loaded: Option<Loaded>, call: Call, load: Loader)
    requires call.atStat == call.atLoad && (call.atLoad.Gone? || load(call.atLoad).Err?)
    ensures Fresh(call.atLoad, load, call.kid) == Err(KeysUnavailable)
    ensures AnswerTo(refresh, loaded, call, load) == Err(KeysUnavailable) <==>
            call.atStat.Gone? || Stale(refresh, loaded, call)
  {
  }

  // Whatever happened before: once no load has succeeded for the refresh time, no key is returned.
  lemma UnreadableInTime(refresh: nat, first: File, at: nat, calls: seq<Call>, call: Call, load: Loader, since: nat)
    requires at <= since && since + refresh <= call.now
    requires forall i | 0 <= i < |calls| && calls[i].atLoad.Present? && load(calls[i].atLoad).Ok? ::
               calls[i].later <= since
    requires call.atLoad.Gone? || load(call.atLoad).Err?
    ensures AnswerTo(refresh, CacheAt(refresh, Opened(first, at, load), calls, load), call, load).Err?
  {
    var answer := AnswerTo(refresh, CacheAt(refresh, Opened(first, at, load), calls, load), call, load);
    if answer.Ok? {
      KeyIsRecent(refresh, first, at, calls, call, load, answer.value);
      assert false;
    }
  }

  // A store whose file loses its permission to be opened, with the fingerprint unchanged, goes on
  // returning the key.
  lemma UnreadableWitness(refresh: nat, first: File, at: nat, kid: string, key: VerifyingKey, curve: seq<byte> -> bool)
    requires refresh > 0 && Lists(first, curve, kid, key)
    ensures var (load, later) := (LoaderFor(curve), first.(openable := false));
            && load(later) == Err(CannotOpen) && Fresh(later, load, kid) == Err(KeysUnavailable)
            && AnswerTo(refresh, Opened(first, at, load), Call(kid, at, at, later, later), load) == Ok(key)
  {
    OfferedIsListed(first, at, curve, kid, key);
  }
}
