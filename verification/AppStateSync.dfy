/** Decoding whole snapshots and patches, and applying a collection's sync to the stored states. */
module AppStateSync {
  import opened Common
  import opened LtHash
  import opened AppState

  datatype Settings = Settings(minimumVersion: Option<nat>, validate: bool)

  /** The callback that fetches the mutations of a patch that keeps them outside itself. */
  type Download = Option<Bytes -> Result<seq<Mutation>, Error>>

  datatype Decoded = Decoded(state: State, news: seq<AppMutation>, snapshotMacValid: Option<bool>)

  function ContextFor(keys: map<string, Bytes>, collection: string, settings: Settings, version: nat): Context {
    Context(keys, collection, settings.validate,
            settings.minimumVersion.None? || version > settings.minimumVersion.value)
  }

  /** The id and the data of the key that a snapshot or a patch names. */
  function NamedKey(s: Suite, keys: map<string, Bytes>, keyId: Option<Bytes>): Option<Bytes> {
    if Filled(keyId) then KeyData(keys, s.base64(keyId.value)) else None
  }

  /** `mac` checked against the snapshot MAC of the state; None when there is nothing to check. */
  function CheckSnapshotMac(s: Suite, st: State, collection: string, key: Option<Bytes>, validate: bool, mac: Bytes)
    : Result<Option<bool>, Error>
  {
    if !validate || key.None? || mac == [] then Ok(None)
    else
      var expected :- SnapshotMac(s, st.hash, st.version, collection, s.expandKeys(key.value).snapshotMac);
      Ok(Some(expected == mac))
  }

  function RecordMutations(records: seq<Record>): seq<Mutation> {
    seq(|records|, i requires 0 <= i < |records| => Mutation(SET, Some(records[i])))
  }

  /** `decode_syncd_snapshot`: the state is built up from nothing. */
  function DecodeSnapshot(s: Suite, keys: map<string, Bytes>, collection: string, settings: Settings,
                          snapshot: Snapshot)
    : Result<Decoded, Error>
  {
    var version := if snapshot.version.Some? then snapshot.version.value else 0;
    var key := NamedKey(s, keys, snapshot.keyId);
    var mutations := RecordMutations(snapshot.records);
    var (st, news) :- DecodeMutations(s, ContextFor(keys, collection, settings, version), mutations, |mutations|,
                                      State(version, ZeroHash(), map[]));
    var valid :- CheckSnapshotMac(s, st, collection, key, settings.validate, snapshot.mac);
    Ok(Decoded(st, news, valid))
  }

  /** The mutations of a patch, those kept outside it last. */
  function AllMutations(patch: Patch, download: Download): Result<seq<Mutation>, Error> {
    if patch.external.None? then Ok(patch.mutations)
    else if download.None? then Err(OtherError)
    else
      var more :- download.value(patch.external.value);
      Ok(patch.mutations + more)
  }

  /** `_record_value_mac` of every mutation that has a record. */
  function ValueMacs(mutations: seq<Mutation>): seq<Bytes> {
    if mutations == [] then []
    else
      var rest := ValueMacs(mutations[1..]);
      match mutations[0].record
      case None => rest
      case Some(record) =>
        if record.value.None? || |record.value.value| < 32 then [[]] + rest
        else [record.value.value[|record.value.value| - 32..]] + rest
  }

  /** The patch MAC is right, or the patch is refused. */
  function CheckPatchMac(s: Suite, collection: string, key: Option<Bytes>, validate: bool, patch: Patch,
                         mutations: seq<Mutation>, version: nat)
    : Option<Error>
  {
    if !validate then None
    else if key.None? then Some(MissingKey)
    else match PatchMac(s, patch.snapshotMac, ValueMacs(mutations), version, collection,
                        s.expandKeys(key.value).patchMac)
      case Err(e) => Some(e)
      case Ok(expected) => if expected == patch.patchMac then None else Some(OtherError)
  }

  /** `decode_syncd_patch` */
  function DecodePatch(s: Suite, keys: map<string, Bytes>, collection: string, settings: Settings, download: Download,
                       patch: Patch, st: State)
    : Result<Decoded, Error>
  {
    var mutations :- AllMutations(patch, download);
    var version := if patch.version.Some? then patch.version.value else st.version + 1;
    var key := NamedKey(s, keys, patch.keyId);
    match CheckPatchMac(s, collection, key, settings.validate, patch, mutations, version)
    case Some(e) => Err(e)
    case None =>
      var (st', news) :- DecodeMutations(s, ContextFor(keys, collection, settings, version), mutations, |mutations|,
                                         st.(version := version));
      var valid :- CheckSnapshotMac(s, st', collection, key, settings.validate, patch.snapshotMac);
      Ok(Decoded(st', news, valid))
  }

  // ---- stored states ------------------------------------------------------------------

  /** A state as it is stored, its bytes in base64. */
  datatype Stored = Stored(version: nat, hash: string, indexValueMap: map<string, string>)

  function ToJson(s: Suite, st: State): Stored {
    Stored(st.version, s.base64(st.hash), map key | key in st.indexValueMap :: s.base64(st.indexValueMap[key]))
  }

  predicate AllBase64(s: Suite, macs: map<string, string>) {
    forall key :: key in macs && macs[key] != "" ==> s.unBase64(macs[key]).Some?
  }

  /** The value MACs that are not stored as empty strings. */
  function LoadMacs(s: Suite, macs: map<string, string>): map<string, Bytes>
    requires AllBase64(s, macs)
  {
    map key | key in macs && macs[key] != "" :: s.unBase64(macs[key]).value
  }

  /** Err when something stored is not base64. Nothing stored stands for the initial state. */
  function FromJson(s: Suite, stored: Option<Stored>): Result<State, Error> {
    match stored
    case None => Ok(State(0, ZeroHash(), map[]))
    case Some(json) =>
      if !AllBase64(s, json.indexValueMap) then Err(OtherError)
      else if json.hash == "" then Ok(State(json.version, ZeroHash(), LoadMacs(s, json.indexValueMap)))
      else match s.unBase64(json.hash)
        case None => Err(OtherError)
        case Some(hash) => Ok(State(json.version, hash, LoadMacs(s, json.indexValueMap)))
  }

  /** Storing a state whose hash and value MACs are not empty, and loading it, gives it back. */
  lemma JsonRoundTrip(s: Suite, st: State)
    requires s.Lawful()
    requires st.hash != [] && forall key :: key in st.indexValueMap ==> st.indexValueMap[key] != []
    ensures FromJson(s, Some(ToJson(s, st))) == Ok(st)
  {
    var macs := ToJson(s, st).indexValueMap;
    forall key | key in macs
      ensures macs[key] != "" && s.unBase64(macs[key]) == Some(st.indexValueMap[key])
    {
      assert macs[key] == s.base64(st.indexValueMap[key]);
    }
    assert LoadMacs(s, macs) == st.indexValueMap;
  }

  /** Loading any stored state: an exception exactly when a value MAC or the hash is neither empty nor base64; the
      hash of nothing is 128 zeros, value MACs stored as empty strings are left out, and without a stored state it is
      the initial one. */
  lemma LoadExact(s: Suite, stored: Option<Stored>)
    ensures
      var r := FromJson(s, stored);
      match stored
      case None => r.Ok? && r.value.version == 0 && Zeros(r.value.hash) && r.value.indexValueMap == map[]
      case Some(json) =>
        && (r.Err? <==> (json.hash != "" && s.unBase64(json.hash) == None)
                        || exists k :: k in json.indexValueMap && json.indexValueMap[k] != ""
                                       && s.unBase64(json.indexValueMap[k]) == None)
        && (r.Ok? ==>
              && r.value.version == json.version
              && (if json.hash == "" then Zeros(r.value.hash) else Some(r.value.hash) == s.unBase64(json.hash))
              && forall k :: (k in r.value.indexValueMap <==> k in json.indexValueMap && json.indexValueMap[k] != "")
                             && (k in r.value.indexValueMap ==>
                                   Some(r.value.indexValueMap[k]) == s.unBase64(json.indexValueMap[k])))
  {
  }

  predicate Zeros(hash: Bytes) {
    |hash| == 128 && forall i :: 0 <= i < 128 ==> hash[i] == 0
  }

  /** The part of the credentials that app-state sync uses. */
  class Credentials {
    var keys: map<string, Bytes>
    var versions: map<string, Stored>

    constructor (keys: map<string, Bytes>, versions: map<string, Stored>)
      ensures this.keys == keys && this.versions == versions
    {
      this.keys, this.versions := keys, versions;
    }
  }

  function StoredFor(versions: map<string, Stored>, collection: string): Option<Stored> {
    if collection in versions then Some(versions[collection]) else None
  }

  // ---- applying a sync ----------------------------------------------------------------

  datatype Sync = Sync(collection: string, snapshot: Option<Snapshot>, patches: seq<Patch>)

  /** Where the loop over the patches stands: `stopped` after a patch whose snapshot MAC is wrong. */
  datatype Progress = Progress(state: State, news: seq<AppMutation>, stopped: bool)

  /** The state to start from: the snapshot's if there is one, else the stored one. */
  function Start(s: Suite, keys: map<string, Bytes>, settings: Settings, sync: Sync, stored: Option<Stored>)
    : Result<Progress, Error>
  {
    var st :- FromJson(s, stored);
    if sync.snapshot.None? then Ok(Progress(st, [], false))
    else
      var decoded :- DecodeSnapshot(s, keys, sync.collection, settings, sync.snapshot.value);
      Ok(Progress(decoded.state, decoded.news, false))
  }

  /** One patch: a missing key ends the sync, any other exception skips the patch. */
  function ApplyPatch(s: Suite, keys: map<string, Bytes>, collection: string, settings: Settings, download: Download,
                      patch: Patch, p: Progress)
    : Result<Progress, Error>
  {
    if p.stopped then Ok(p)
    else match DecodePatch(s, keys, collection, settings, download, patch, p.state)
      case Err(MissingKey) => Err(MissingKey)
      case Err(OtherError) => Ok(p)
      case Ok(decoded) => Ok(Progress(decoded.state, p.news + decoded.news, decoded.snapshotMacValid == Some(false)))
  }

  /** After the first `n` patches. */
  function ApplyPatches(s: Suite, keys: map<string, Bytes>, settings: Settings, download: Download, sync: Sync, n: nat,
                        start: Progress)
    : Result<Progress, Error>
    requires n <= |sync.patches|
  {
    if n == 0 then Ok(start)
    else
      var p :- ApplyPatches(s, keys, settings, download, sync, n - 1, start);
      ApplyPatch(s, keys, sync.collection, settings, download, sync.patches[n - 1], p)
  }

  function ApplySync(s: Suite, keys: map<string, Bytes>, settings: Settings, download: Download, sync: Sync,
                     stored: Option<Stored>)
    : Result<Progress, Error>
  {
    var start :- Start(s, keys, settings, sync, stored);
    ApplyPatches(s, keys, settings, download, sync, |sync.patches|, start)
  }

  lemma {:induction false} ApplyFails(s: Suite, keys: map<string, Bytes>, settings: Settings, download: Download,
                                      sync: Sync, i: nat, n: nat, start: Progress)
    requires i <= n <= |sync.patches|
    requires ApplyPatches(s, keys, settings, download, sync, i, start).Err?
    ensures ApplyPatches(s, keys, settings, download, sync, n, start)
      == ApplyPatches(s, keys, settings, download, sync, i, start)
  {
    hide ApplyPatch;
    if i < n {
      ApplyFails(s, keys, settings, download, sync, i, n - 1, start);
    }
  }

  lemma {:induction false} ApplyStops(s: Suite, keys: map<string, Bytes>, settings: Settings, download: Download,
                                      sync: Sync, i: nat, n: nat, start: Progress, p: Progress)
    requires i <= n <= |sync.patches|
    requires p.stopped && ApplyPatches(s, keys, settings, download, sync, i, start) == Ok(p)
    ensures ApplyPatches(s, keys, settings, download, sync, n, start) == Ok(p)
  {
    hide DecodePatch;
    if i < n {
      ApplyStops(s, keys, settings, download, sync, i, n - 1, start, p);
    }
  }

  /** `decode_syncd_snapshot` on a state object. */
  method DecodeSyncdSnapshot(s: Suite, keys: map<string, Bytes>, collection: string, settings: Settings,
                             snapshot: Snapshot)
    returns (r: Result<(LtHashState, seq<AppMutation>, Option<bool>), Error>)
    ensures match DecodeSnapshot(s, keys, collection, settings, snapshot)
            case Ok(d) =>
              && r.Ok? && fresh(r.value.0) && r.value.0.View() == d.state
              && r.value.1 == d.news && r.value.2 == d.snapshotMacValid
            case Err(e) => r == Err(e)
  {
    var version := if snapshot.version.Some? then snapshot.version.value else 0;
    var key := NamedKey(s, keys, snapshot.keyId);
    var empty := new LtHashState(State(version, ZeroHash(), map[]));
    var decoded := DecodeSyncdMutations(s, ContextFor(keys, collection, settings, version),
                                        RecordMutations(snapshot.records), empty);
    if decoded.Err? { return Err(decoded.error); }
    var (state, news) := decoded.value;
    var valid := CheckSnapshotMac(s, state.View(), collection, key, settings.validate, snapshot.mac);
    if valid.Err? { return Err(valid.error); }
    r := Ok((state, news, valid.value));
  }

  /** `decode_syncd_patch` on state objects: the old one is copied, not touched. */
  method DecodeSyncdPatch(s: Suite, keys: map<string, Bytes>, collection: string, settings: Settings,
                          download: Download, patch: Patch, state: LtHashState)
    returns (r: Result<(LtHashState, seq<AppMutation>, Option<bool>), Error>)
    ensures match DecodePatch(s, keys, collection, settings, download, patch, state.View())
            case Ok(d) =>
              && r.Ok? && fresh(r.value.0) && r.value.0.View() == d.state
              && r.value.1 == d.news && r.value.2 == d.snapshotMacValid
            case Err(e) => r == Err(e)
  {
    hide DecodeMutations, CheckSnapshotMac, CheckPatchMac, AllMutations, ContextFor, NamedKey;
    var mutations := AllMutations(patch, download);
    if mutations.Err? { return Err(mutations.error); }
    var version := if patch.version.Some? then patch.version.value else state.version + 1;
    var working := new LtHashState(state.View().(version := version));
    var key := NamedKey(s, keys, patch.keyId);
    var checked := CheckPatchMac(s, collection, key, settings.validate, patch, mutations.value, version);
    if checked.Some? { return Err(checked.value); }
    var decoded := DecodeSyncdMutations(s, ContextFor(keys, collection, settings, version), mutations.value, working);
    if decoded.Err? { return Err(decoded.error); }
    var (state', news) := decoded.value;
    var valid := CheckSnapshotMac(s, state'.View(), collection, key, settings.validate, patch.snapshotMac);
    if valid.Err? { return Err(valid.error); }
    r := Ok((state', news, valid.value));
  }

  /** `apply_app_state_sync`: the stored state of one collection is replaced when the sync
      ends, and nothing is stored when an exception escapes. */
  method ApplyAppStateSync(s: Suite, credentials: Credentials, settings: Settings, download: Download, sync: Sync)
    returns (r: Result<Progress, Error>)
    modifies credentials`versions
    ensures r == ApplySync(s, credentials.keys, settings, download, sync,
                           StoredFor(old(credentials.versions), sync.collection))
    ensures credentials.versions ==
            if r.Ok? then old(credentials.versions)[sync.collection := ToJson(s, r.value.state)]
            else old(credentials.versions)
  {
    hide DecodePatch, DecodeSnapshot, FromJson, ToJson;
    var keys := credentials.keys;
    var st := FromJson(s, StoredFor(credentials.versions, sync.collection));
    if st.Err? { return Err(st.error); }
    var state := new LtHashState(st.value);
    var news: seq<AppMutation> := [];
    if sync.snapshot.Some? {
      var decoded := DecodeSyncdSnapshot(s, keys, sync.collection, settings, sync.snapshot.value);
      if decoded.Err? { return Err(decoded.error); }
      state, news := decoded.value.0, decoded.value.1;
    }
    ghost var start := Progress(state.View(), news, false);
    var stopped := false;
    var i := 0;
    while i < |sync.patches| && !stopped
      invariant i <= |sync.patches|
      invariant ApplyPatches(s, keys, settings, download, sync, i, start) == Ok(Progress(state.View(), news, stopped))
      invariant credentials.versions == old(credentials.versions)
    {
      var decoded := DecodeSyncdPatch(s, keys, sync.collection, settings, download, sync.patches[i], state);
      if decoded == Err(MissingKey) {
        ApplyFails(s, keys, settings, download, sync, i + 1, |sync.patches|, start);
        return Err(MissingKey);
      }
      if decoded.Ok? {
        state, news, stopped := decoded.value.0, news + decoded.value.1, decoded.value.2 == Some(false);
      }
      i := i + 1;
    }
    if stopped {
      ApplyStops(s, keys, settings, download, sync, i, |sync.patches|, start, Progress(state.View(), news, true));
    }
    credentials.versions := credentials.versions[sync.collection := ToJson(s, state.View())];
    r := Ok(Progress(state.View(), news, stopped));
  }

  // ---- writing a patch of one's own ---------------------------------------------------

  /** `app_state_patch_node` from the key on: the patch, and the stored states with the author's new one. */
  function WritePatch(s: Suite, keys: map<string, Bytes>, versions: map<string, Stored>, create: PatchCreate,
                      keyId: string, iv: InitVector): Result<(Patch, map<string, Stored>), Error>
  {
    if keyId == "" then Err(MissingKey)
    else match KeyData(keys, keyId)
      case None => Err(MissingKey)
      case Some(keyData) =>
        var initial :- FromJson(s, StoredFor(versions, create.patchType));
        var (patch, st) :- EncodePatch(s, create, keyId, initial, keyData, iv);
        Ok((patch, versions[create.patchType := ToJson(s, st)]))
  }

  /** `app_state_patch_node` on the credentials. */
  method AppStatePatch(s: Suite, credentials: Credentials, create: PatchCreate, keyId: string, iv: InitVector)
    returns (r: Result<Patch, Error>)
    modifies credentials`versions
    ensures match WritePatch(s, credentials.keys, old(credentials.versions), create, keyId, iv)
            case Ok((patch, versions)) => r == Ok(patch) && credentials.versions == versions
            case Err(e) => r == Err(e) && credentials.versions == old(credentials.versions)
  {
    hide EncodePatch, FromJson, ToJson;
    if keyId == "" { return Err(MissingKey); }
    var keyData := KeyData(credentials.keys, keyId);
    if keyData.None? { return Err(MissingKey); }
    var initial := FromJson(s, StoredFor(credentials.versions, create.patchType));
    if initial.Err? { return Err(initial.error); }
    var state := new LtHashState(initial.value);
    var encoded := EncodeSyncdPatch(s, create, keyId, state, keyData.value, iv);
    if encoded.Err? { return Err(encoded.error); }
    credentials.versions := credentials.versions[create.patchType := ToJson(s, encoded.value.1.View())];
    return Ok(encoded.value.0);
  }
}
