/** App-state patches and snapshots: the mutations of a collection, the author that encodes
    one and the follower that decodes and mixes them into its own copy of the state. */
module AppState {
  import opened Common
  import opened LtHash

  type Digest = b: Bytes | |b| == 32 witness seq(32, i => 0)
  type Digest64 = b: Bytes | |b| == 64 witness seq(64, i => 0)
  type InitVector = b: Bytes | |b| == 16 witness seq(16, i => 0)

  const SET: int := 0
  const REMOVE: int := 1

  datatype Keys = Keys(index: Bytes, valueEncryption: Bytes, valueMac: Bytes, snapshotMac: Bytes, patchMac: Bytes)

  /** A decoded `SyncActionData` message; `value` stands for the action inside it. */
  datatype ActionData = ActionData(index: Bytes, value: Bytes, version: int)

  type Index = seq<string>

  /** The foreign calls: key derivation, MACs, AES in CBC mode with the vector in front,
      protobuf, JSON and base64. Decoders return None where the call raises. */
  datatype Suite = Suite(
    hasher: Hasher,
    expandKeys: Bytes -> Keys,
    hmac: (Bytes, Bytes) -> Digest,
    hmac512: (Bytes, Bytes) -> Digest64,
    encrypt: (InitVector, Bytes, Bytes) -> Bytes,
    decrypt: (Bytes, Bytes) -> Option<Bytes>,
    writeAction: ActionData -> Bytes,
    parseAction: Bytes -> Option<ActionData>,
    dumps: Index -> Bytes,
    loads: Bytes -> Option<Index>,
    base64: Bytes -> string,
    unBase64: string -> Option<Bytes>,
    utf8: Utf8)
  {
    /** Every decoder undoes its encoder. */
    ghost predicate Lawful() {
      && (forall iv, data, key :: decrypt(encrypt(iv, data, key), key) == Some(data))
      && (forall a :: parseAction(writeAction(a)) == Some(a))
      && (forall i :: loads(dumps(i)) == Some(i))
      && (forall b :: unBase64(base64(b)) == Some(b))
      && (forall b :: base64(b) == "" <==> b == [])
    }
  }

  /** Only a missing key is told apart from the other exceptions. */
  datatype Error = MissingKey | OtherError

  // ---- messages -----------------------------------------------------------------------

  /** The fields of a record that are present; an empty blob counts as absent. */
  datatype Record = Record(keyId: Option<Bytes>, value: Option<Bytes>, index: Option<Bytes>)

  /** A mutation; the records of a snapshot are SET mutations. */
  datatype Mutation = Mutation(operation: int, record: Option<Record>)

  datatype Patch = Patch(
    version: Option<nat>,
    mutations: seq<Mutation>,
    external: Option<Bytes>,
    snapshotMac: Bytes,
    patchMac: Bytes,
    keyId: Option<Bytes>)

  datatype Snapshot = Snapshot(version: Option<nat>, records: seq<Record>, mac: Bytes, keyId: Option<Bytes>)

  datatype PatchCreate = PatchCreate(patchType: string, index: Index, action: Bytes, apiVersion: int, operation: int)

  /** What a follower is told about one mutation. */
  datatype AppMutation = AppMutation(collection: string, index: Index, action: Bytes, operation: int, keyId: string,
                                     data: ActionData)

  // ---- states as values ---------------------------------------------------------------

  datatype State = State(version: nat, hash: Bytes, indexValueMap: map<string, Bytes>)

  /** `bytes(128)` */
  function ZeroHash(): Block {
    seq(128, i => 0)
  }

  /** The hash is that of the index map, and no value MAC is empty. */
  ghost predicate Consistent(s: Suite, st: State) {
    && HashOf(s.hasher, st.hash, st.indexValueMap)
    && forall key :: key in st.indexValueMap ==> st.indexValueMap[key] != []
  }

  /** The state object that is updated in place. */
  class LtHashState {
    var version: nat
    var hash: Bytes
    var indexValueMap: map<string, Bytes>

    constructor (st: State)
      ensures View() == st
    {
      version, hash, indexValueMap := st.version, st.hash, st.indexValueMap;
    }

    function View(): State
      reads this
    {
      State(version, hash, indexValueMap)
    }

    /** `_mix_lthash_mutation` */
    method Mix(s: Suite, indexMac: Bytes, valueMac: Bytes, operation: int) returns (error: Option<Error>)
      modifies this
      ensures match MixState(s, old(View()), indexMac, valueMac, operation)
              case Ok(st) => error == None && View() == st
              case Err(e) => error == Some(e)
    {
      var indexKey := s.base64(indexMac);
      if operation == REMOVE {
        if indexKey !in indexValueMap { return None; }
        var previous := indexValueMap[indexKey];
        indexValueMap := indexValueMap - {indexKey};
        var removed := SubtractThenAddBytes(s.hasher, hash, [previous], []);
        if removed.None? { return Some(OtherError); }
        hash := removed.value;
        return None;
      }
      var subtract := Previous(indexValueMap, indexKey);
      var mixed := SubtractThenAddBytes(s.hasher, hash, subtract, [valueMac]);
      if mixed.None? { return Some(OtherError); }
      hash := mixed.value;
      indexValueMap := indexValueMap[indexKey := valueMac];
      error := None;
    }
  }

  /** The value MAC to subtract, if there is one that is not empty. */
  function Previous(m: map<string, Bytes>, key: string): seq<Bytes> {
    if key in m && m[key] != [] then [m[key]] else []
  }

  function MixState(s: Suite, st: State, indexMac: Bytes, valueMac: Bytes, operation: int): Result<State, Error> {
    var key := s.base64(indexMac);
    var m := st.indexValueMap;
    if operation == REMOVE then
      if key !in m then Ok(st)
      else match SubtractThenAdd(s.hasher, st.hash, [m[key]], [])
        case None => Err(OtherError)
        case Some(hash) => Ok(State(st.version, hash, m - {key}))
    else match SubtractThenAdd(s.hasher, st.hash, Previous(m, key), [valueMac])
      case None => Err(OtherError)
      case Some(hash) => Ok(State(st.version, hash, m[key := valueMac]))
  }

  // ---- MACs ---------------------------------------------------------------------------

  function ContentMac(s: Suite, operation: int, data: Bytes, keyId: Bytes, key: Bytes): Digest {
    var op: Byte := if operation == SET then 1 else 2;
    s.hmac512([op] + keyId + data + Big(|keyId| + 1, 8), key)[..32]
  }

  /** Err when the hash has the wrong length or the version does not fit eight bytes. */
  function SnapshotMac(s: Suite, hash: Bytes, version: nat, name: string, key: Bytes): Result<Digest, Error> {
    if |hash| != 128 || version >= 0x1_0000_0000_0000_0000 then Err(OtherError)
    else Ok(s.hmac(hash + Big(version, 8) + s.utf8.encode(name), key))
  }

  function PatchMac(s: Suite, snapshotMac: Bytes, valueMacs: seq<Bytes>, version: nat, name: string, key: Bytes)
    : Result<Digest, Error>
  {
    if version >= 0x1_0000_0000_0000_0000 then Err(OtherError)
    else Ok(s.hmac(snapshotMac + Join(valueMacs) + Big(version, 8) + s.utf8.encode(name), key))
  }

  // ---- the author ---------------------------------------------------------------------

  /** `encode_syncd_patch`: the patch and the author's new state. `iv` is drawn at random. */
  function EncodePatch(s: Suite, create: PatchCreate, keyId: string, st: State, keyData: Bytes, iv: InitVector)
    : Result<(Patch, State), Error>
  {
    match s.unBase64(keyId)
    case None => Err(OtherError)
    case Some(encKeyId) =>
      var keys := s.expandKeys(keyData);
      var (indexMac, encrypted, valueMac) := Sealed(s, create, encKeyId, keys, iv);
      var st' :- AuthorState(s, st, indexMac, valueMac);
      var snapshotMac :- SnapshotMac(s, st'.hash, st'.version, create.patchType, keys.snapshotMac);
      var patchMac := PatchMac(s, snapshotMac, [valueMac], st'.version, create.patchType, keys.patchMac).value;
      var record := Record(Some(encKeyId), Some(encrypted + valueMac), Some(indexMac));
      Ok((Patch(None, [Mutation(create.operation, Some(record))], None, snapshotMac, patchMac, Some(encKeyId)), st'))
  }

  /** The index MAC, the encrypted action and its value MAC. */
  function Sealed(s: Suite, create: PatchCreate, encKeyId: Bytes, keys: Keys, iv: InitVector): (Digest, Bytes, Digest) {
    var index := s.dumps(create.index);
    var encrypted := s.encrypt(iv, s.writeAction(ActionData(index, create.action, create.apiVersion)),
                               keys.valueEncryption);
    (s.hmac(index, keys.index), encrypted, ContentMac(s, create.operation, encrypted, encKeyId, keys.valueMac))
  }

  /** How the author updates its state: the operation is not looked at. */
  function AuthorState(s: Suite, st: State, indexMac: Bytes, valueMac: Bytes): Result<State, Error> {
    var key := s.base64(indexMac);
    match SubtractThenAdd(s.hasher, st.hash, Previous(st.indexValueMap, key), [valueMac])
    case None => Err(OtherError)
    case Some(hash) => Ok(State(st.version + 1, hash, st.indexValueMap[key := valueMac]))
  }

  /** `encode_syncd_patch` on state objects: the old one is copied, not touched. */
  method EncodeSyncdPatch(s: Suite, create: PatchCreate, keyId: string, state: LtHashState, keyData: Bytes,
                          iv: InitVector)
    returns (r: Result<(Patch, LtHashState), Error>)
    ensures match EncodePatch(s, create, keyId, state.View(), keyData, iv)
            case Ok((patch, st)) => r.Ok? && r.value.0 == patch && fresh(r.value.1) && r.value.1.View() == st
            case Err(e) => r == Err(e)
  {
    hide Sealed, SubtractThenAdd, Previous, Suite.Lawful;
    var id := s.unBase64(keyId);
    if id.None? { return Err(OtherError); }
    var encKeyId := id.value;
    var author := new LtHashState(state.View());
    var keys := s.expandKeys(keyData);
    var (indexMac, encrypted, valueMac) := Sealed(s, create, encKeyId, keys, iv);

    var indexKey := s.base64(indexMac);
    var subtract := Previous(author.indexValueMap, indexKey);
    var hash := SubtractThenAddBytes(s.hasher, author.hash, subtract, [valueMac]);
    if hash.None? { return Err(OtherError); }
    author.hash := hash.value;
    author.version := author.version + 1;
    author.indexValueMap := author.indexValueMap[indexKey := valueMac];

    var snapshotMac :- SnapshotMac(s, author.hash, author.version, create.patchType, keys.snapshotMac);
    var patchMac := PatchMac(s, snapshotMac, [valueMac], author.version, create.patchType, keys.patchMac).value;
    var record := Record(Some(encKeyId), Some(encrypted + valueMac), Some(indexMac));
    r := Ok((Patch(None, [Mutation(create.operation, Some(record))], None, snapshotMac, patchMac, Some(encKeyId)),
             author));
  }

  // ---- the follower -------------------------------------------------------------------

  /** `_app_state_key_data`; empty key data counts as missing. */
  function KeyData(keys: map<string, Bytes>, id: string): Option<Bytes> {
    if id in keys && keys[id] != [] then Some(keys[id]) else None
  }

  /** The records that are not skipped outright. */
  predicate Usable(record: Record) {
    Filled(record.keyId) && record.value.Some? && |record.value.value| >= 32 && Filled(record.index)
  }

  /** What the settings and the credentials contribute to decoding. */
  datatype Context = Context(keys: map<string, Bytes>, collection: string, validate: bool, emit: bool)

  /** What one usable record amounts to: nothing if its MAC or its content is wrong. */
  function Unsealed(s: Suite, ctx: Context, operation: int, record: Record, keys: Keys)
    : Result<Option<ActionData>, Error>
    requires Usable(record)
  {
    var content := record.value.value;
    var encrypted, valueMac := content[..|content| - 32], content[|content| - 32..];
    if ctx.validate && ContentMac(s, operation, encrypted, record.keyId.value, keys.valueMac) != valueMac then Ok(None)
    else match ParsePlain(s, encrypted, keys)
      case None => Ok(None)
      case Some(data) =>
        if ctx.validate && s.hmac(data.index, keys.index) != record.index.value then Err(OtherError)
        else Ok(Some(data))
  }

  function ParsePlain(s: Suite, encrypted: Bytes, keys: Keys): Option<ActionData> {
    match s.decrypt(encrypted, keys.valueEncryption)
    case None => None
    case Some(plain) => s.parseAction(plain)
  }

  /** What the caller is told, when it asks for it. */
  function Emitted(s: Suite, ctx: Context, operation: int, keyId: string, data: ActionData)
    : Result<seq<AppMutation>, Error>
  {
    if !ctx.emit then Ok([])
    else match s.loads(data.index)
      case None => Err(OtherError)
      case Some(index) => Ok([AppMutation(ctx.collection, index, data.value, operation, keyId, data)])
  }

  /** One turn of the decoding loop. */
  function DecodeOne(s: Suite, ctx: Context, m: Mutation, st: State): Result<(State, seq<AppMutation>), Error> {
    if m.record.None? || !Usable(m.record.value) then Ok((st, []))
    else
      var record := m.record.value;
      var keyId := s.base64(record.keyId.value);
      match KeyData(ctx.keys, keyId)
      case None => Err(MissingKey)
      case Some(keyData) =>
        var data :- Unsealed(s, ctx, m.operation, record, s.expandKeys(keyData));
        if data.None? then Ok((st, []))
        else
          var emitted :- Emitted(s, ctx, m.operation, keyId, data.value);
          var st' :- MixState(s, st, record.index.value, record.value.value[|record.value.value| - 32..], m.operation);
          Ok((st', emitted))
  }

  /** The state and the news after the first `n` mutations. */
  function DecodeMutations(s: Suite, ctx: Context, mutations: seq<Mutation>, n: nat, st: State)
    : Result<(State, seq<AppMutation>), Error>
    requires n <= |mutations|
  {
    if n == 0 then Ok((st, []))
    else
      var (st1, news) :- DecodeMutations(s, ctx, mutations, n - 1, st);
      var (st2, more) :- DecodeOne(s, ctx, mutations[n - 1], st1);
      Ok((st2, news + more))
  }

  lemma {:induction false} DecodeFails(s: Suite, ctx: Context, mutations: seq<Mutation>, i: nat, n: nat, st: State)
    requires i <= n <= |mutations| && DecodeMutations(s, ctx, mutations, i, st).Err?
    ensures DecodeMutations(s, ctx, mutations, n, st) == DecodeMutations(s, ctx, mutations, i, st)
  {
    hide DecodeOne;
    if i < n {
      DecodeFails(s, ctx, mutations, i, n - 1, st);
    }
  }

  /** The keys derived so far are those that deriving again would give. */
  ghost predicate CacheFits(s: Suite, keys: map<string, Bytes>, cache: map<string, Keys>) {
    forall id :: id in cache ==> KeyData(keys, id).Some? && cache[id] == s.expandKeys(KeyData(keys, id).value)
  }

  /** `decode_syncd_mutations`: the state is copied, then changed record by record. */
  method DecodeSyncdMutations(s: Suite, ctx: Context, mutations: seq<Mutation>, start: LtHashState)
    returns (r: Result<(LtHashState, seq<AppMutation>), Error>)
    ensures match DecodeMutations(s, ctx, mutations, |mutations|, start.View())
            case Ok((st, news)) => r.Ok? && fresh(r.value.0) && r.value.0.View() == st && r.value.1 == news
            case Err(e) => r == Err(e)
  {
    var state := new LtHashState(start.View());
    var decoded: seq<AppMutation> := [];
    var cache: map<string, Keys> := map[];
    for i := 0 to |mutations|
      invariant fresh(state)
      invariant DecodeMutations(s, ctx, mutations, i, start.View()) == Ok((state.View(), decoded))
      invariant CacheFits(s, ctx.keys, cache)
    {
      var error;
      error, decoded, cache := DecodeRecord(s, ctx, mutations[i], state, decoded, cache);
      if error.Some? {
        DecodeFails(s, ctx, mutations, i + 1, |mutations|, start.View());
        return Err(error.value);
      }
    }
    r := Ok((state, decoded));
  }

  method DecodeRecord(s: Suite, ctx: Context, m: Mutation, state: LtHashState, decoded: seq<AppMutation>,
                      cache: map<string, Keys>)
    returns (error: Option<Error>, decoded': seq<AppMutation>, cache': map<string, Keys>)
    requires CacheFits(s, ctx.keys, cache)
    modifies state
    ensures CacheFits(s, ctx.keys, cache')
    ensures match DecodeOne(s, ctx, m, old(state.View()))
            case Ok((st, news)) => error == None && state.View() == st && decoded' == decoded + news
            case Err(e) => error == Some(e)
  {
    decoded', cache' := decoded, cache;
    if m.record.None? || !Usable(m.record.value) { return None, decoded, cache; }
    var record := m.record.value;
    var keyId := s.base64(record.keyId.value);
    if keyId !in cache {
      var keyData := KeyData(ctx.keys, keyId);
      if keyData.None? { return Some(MissingKey), decoded, cache; }
      cache' := cache[keyId := s.expandKeys(keyData.value)];
    }
    var keys := cache'[keyId];
    var unsealed := Unsealed(s, ctx, m.operation, record, keys);
    if unsealed.Err? { return Some(unsealed.error), decoded, cache'; }
    if unsealed.value.None? { return None, decoded, cache'; }
    var emitted := Emitted(s, ctx, m.operation, keyId, unsealed.value.value);
    if emitted.Err? { return Some(emitted.error), decoded, cache'; }
    decoded' := decoded + emitted.value;
    error := state.Mix(s, record.index.value, record.value.value[|record.value.value| - 32..], m.operation);
  }
}
