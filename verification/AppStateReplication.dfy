/** What app-state replication keeps: the incremental hash is that of the index map at every
    step, and a follower of one patch equals its author exactly when that is no REMOVE. */
module AppStateReplication {
  import opened Common
  import opened LtHash
  import opened AppState
  import opened AppStateSync

  // ---- the hash follows the map -------------------------------------------------------

  lemma InitialConsistent(s: Suite, version: nat)
    ensures Consistent(s, State(version, ZeroHash(), map[]))
  {
    EmptyHash(s.hasher);
  }

  /** Mixing in one mutation never fails on a consistent state, and keeps it consistent;
      it touches one key only. */
  lemma MixConsistent(s: Suite, st: State, indexMac: Bytes, valueMac: Bytes, operation: int)
    requires Consistent(s, st) && valueMac != []
    ensures var r := MixState(s, st, indexMac, valueMac, operation);
            && r.Ok? && Consistent(s, r.value) && r.value.version == st.version
            && r.value.indexValueMap ==
               if operation == REMOVE then st.indexValueMap - {s.base64(indexMac)}
               else st.indexValueMap[s.base64(indexMac) := valueMac]
  {
    hide HashOf, SubtractThenAdd;
    var key := s.base64(indexMac);
    if operation != REMOVE {
      HashSet(s.hasher, st.hash, st.indexValueMap, key, valueMac);
    } else if key in st.indexValueMap {
      HashRemove(s.hasher, st.hash, st.indexValueMap, key);
    } else {
      assert st.indexValueMap - {key} == st.indexValueMap;
    }
  }

  /** The author's update keeps consistency as well. */
  lemma AuthorConsistent(s: Suite, st: State, indexMac: Bytes, valueMac: Bytes)
    requires Consistent(s, st) && valueMac != []
    ensures var r := AuthorState(s, st, indexMac, valueMac);
            && r.Ok? && Consistent(s, r.value) && r.value.version == st.version + 1
            && r.value.indexValueMap == st.indexValueMap[s.base64(indexMac) := valueMac]
  {
    hide HashOf, SubtractThenAdd;
    HashSet(s.hasher, st.hash, st.indexValueMap, s.base64(indexMac), valueMac);
  }

  lemma DecodeOneConsistent(s: Suite, ctx: Context, m: Mutation, st: State)
    requires Consistent(s, st) && DecodeOne(s, ctx, m, st).Ok?
    ensures Consistent(s, DecodeOne(s, ctx, m, st).value.0)
  {
    hide Consistent, Unsealed, Emitted, MixState;
    if m.record.Some? && Usable(m.record.value) {
      var record := m.record.value;
      MixConsistent(s, st, record.index.value, record.value.value[|record.value.value| - 32..], m.operation);
    }
  }

  /** Any run of mutations, whether fresh, overwriting, removing, absent or skipped, leaves a
      hash that is the lane-wise sum over exactly the value MACs now in the map. */
  lemma {:induction false} DecodeConsistent(s: Suite, ctx: Context, mutations: seq<Mutation>, n: nat, st: State)
    requires n <= |mutations| && Consistent(s, st) && DecodeMutations(s, ctx, mutations, n, st).Ok?
    ensures Consistent(s, DecodeMutations(s, ctx, mutations, n, st).value.0)
  {
    hide Consistent, DecodeOne;
    if n > 0 {
      DecodeConsistent(s, ctx, mutations, n - 1, st);
      DecodeOneConsistent(s, ctx, mutations[n - 1], DecodeMutations(s, ctx, mutations, n - 1, st).value.0);
    }
  }

  /** Decoding goes through the whole list: what the first part leads to is where the second one starts, and the news of
      both are told, in order. */
  lemma {:induction false} DecodeJoin(s: Suite, ctx: Context, a: seq<Mutation>, b: seq<Mutation>, st: State)
    ensures DecodeMutations(s, ctx, a + b, |a + b|, st) ==
      match DecodeMutations(s, ctx, a, |a|, st)
      case Err(e) => Err(e)
      case Ok((middle, news)) =>
        match DecodeMutations(s, ctx, b, |b|, middle)
        case Err(e) => Err(e)
        case Ok((after, more)) => Ok((after, news + more))
    decreases |b|
  {
    hide DecodeOne;
    if b == [] {
      assert a + b == a;
      var r := DecodeMutations(s, ctx, a, |a|, st);
      if r.Ok? {
        assert r.value.1 + [] == r.value.1;
      }
    } else {
      var n := |b| - 1;
      DecodePrefix(s, ctx, a + b, a + b[..n], |a| + n, st);
      DecodeJoin(s, ctx, a, b[..n], st);
      var r := DecodeMutations(s, ctx, a, |a|, st);
      if r.Ok? {
        DecodePrefix(s, ctx, b, b[..n], n, r.value.0);
        if DecodeMutations(s, ctx, b, n, r.value.0).Ok? {
          JoinNews(s, ctx, b, r.value.0, r.value.1);
        }
      }
    }
  }

  lemma JoinNews(s: Suite, ctx: Context, b: seq<Mutation>, st: State, news: seq<AppMutation>)
    requires b != [] && DecodeMutations(s, ctx, b, |b| - 1, st).Ok?
    ensures
      var (middle, more) := DecodeMutations(s, ctx, b, |b| - 1, st).value;
      DecodeOne(s, ctx, b[|b| - 1], middle).Ok? ==>
        (news + more) + DecodeOne(s, ctx, b[|b| - 1], middle).value.1
        == news + (more + DecodeOne(s, ctx, b[|b| - 1], middle).value.1)
  {
  }

  lemma {:induction false} DecodePrefix(s: Suite, ctx: Context, a: seq<Mutation>, b: seq<Mutation>, n: nat, st: State)
    requires n <= |a| && n <= |b| && a[..n] == b[..n]
    ensures DecodeMutations(s, ctx, a, n, st) == DecodeMutations(s, ctx, b, n, st)
  {
    hide DecodeOne;
    if n > 0 {
      assert a[..n][n - 1] == b[..n][n - 1];
      assert a[..n - 1] == a[..n][..n - 1] && b[..n - 1] == b[..n][..n - 1];
      DecodePrefix(s, ctx, a, b, n - 1, st);
    }
  }

  /** A snapshot is built up from an empty state by setting each of its records, at its version or else at 0. */
  lemma SnapshotBuilds(s: Suite, keys: map<string, Bytes>, collection: string, settings: Settings, snapshot: Snapshot,
                       sets: seq<Mutation>, start: State)
    requires |start.hash| == 128 && (forall i :: 0 <= i < 128 ==> start.hash[i] == 0) && start.indexValueMap == map[]
    requires start.version == match snapshot.version case Some(v) => v case None => 0
    requires |sets| == |snapshot.records|
    requires forall i :: 0 <= i < |sets| ==> sets[i] == Mutation(0, Some(snapshot.records[i]))
    requires DecodeSnapshot(s, keys, collection, settings, snapshot).Ok?
    ensures
      var d := DecodeSnapshot(s, keys, collection, settings, snapshot).value;
      var news := settings.minimumVersion == None || start.version > settings.minimumVersion.value;
      DecodeMutations(s, Context(keys, collection, settings.validate, news), sets, |sets|, start)
      == Ok((d.state, d.news))
  {
    hide DecodeMutations, CheckSnapshotMac;
    assert sets == RecordMutations(snapshot.records);
    assert start == State(start.version, ZeroHash(), map[]) by { assert start.hash == ZeroHash(); }
    var news := settings.minimumVersion == None || start.version > settings.minimumVersion.value;
    assert ContextFor(keys, collection, settings, start.version)
        == Context(keys, collection, settings.validate, news);
    var version := if snapshot.version.Some? then snapshot.version.value else 0;
    assert version == start.version;
    var r := DecodeMutations(s, ContextFor(keys, collection, settings, version), sets, |sets|, start);
    assert r.Ok?;
    assert r.value.0 == DecodeSnapshot(s, keys, collection, settings, snapshot).value.state;
    assert r.value.1 == DecodeSnapshot(s, keys, collection, settings, snapshot).value.news;
  }

  lemma SnapshotConsistent(s: Suite, keys: map<string, Bytes>, collection: string, settings: Settings,
                           snapshot: Snapshot)
    requires DecodeSnapshot(s, keys, collection, settings, snapshot).Ok?
    ensures Consistent(s, DecodeSnapshot(s, keys, collection, settings, snapshot).value.state)
  {
    hide Consistent, DecodeMutations, CheckSnapshotMac;
    var version := if snapshot.version.Some? then snapshot.version.value else 0;
    var mutations := RecordMutations(snapshot.records);
    InitialConsistent(s, version);
    DecodeConsistent(s, ContextFor(keys, collection, settings, version), mutations, |mutations|,
                     State(version, ZeroHash(), map[]));
  }

  lemma PatchConsistent(s: Suite, keys: map<string, Bytes>, collection: string, settings: Settings, download: Download,
                        patch: Patch, st: State)
    requires Consistent(s, st) && DecodePatch(s, keys, collection, settings, download, patch, st).Ok?
    ensures Consistent(s, DecodePatch(s, keys, collection, settings, download, patch, st).value.state)
  {
    hide DecodeMutations, CheckSnapshotMac, CheckPatchMac, AllMutations;
    var mutations := AllMutations(patch, download).value;
    var version := if patch.version.Some? then patch.version.value else st.version + 1;
    DecodeConsistent(s, ContextFor(keys, collection, settings, version), mutations, |mutations|,
                     st.(version := version));
  }

  lemma {:induction false} PatchesConsistent(s: Suite, keys: map<string, Bytes>, settings: Settings,
                                             download: Download, sync: Sync, n: nat, start: Progress)
    requires n <= |sync.patches| && Consistent(s, start.state)
    requires ApplyPatches(s, keys, settings, download, sync, n, start).Ok?
    ensures Consistent(s, ApplyPatches(s, keys, settings, download, sync, n, start).value.state)
  {
    hide Consistent, DecodePatch;
    if n > 0 {
      PatchesConsistent(s, keys, settings, download, sync, n - 1, start);
      var p := ApplyPatches(s, keys, settings, download, sync, n - 1, start).value;
      if DecodePatch(s, keys, sync.collection, settings, download, sync.patches[n - 1], p.state).Ok? {
        PatchConsistent(s, keys, sync.collection, settings, download, sync.patches[n - 1], p.state);
      }
    }
  }

  /** Every stored state can be loaded, and is consistent. */
  ghost predicate AllConsistent(s: Suite, versions: map<string, Stored>) {
    forall c :: c in versions ==>
      FromJson(s, Some(versions[c])).Ok? && Consistent(s, FromJson(s, Some(versions[c])).value)
  }

  /** A sync that ends has a consistent state to store, and storing it keeps every stored state consistent. */
  lemma SyncConsistent(s: Suite, keys: map<string, Bytes>, settings: Settings, download: Download, sync: Sync,
                       versions: map<string, Stored>)
    requires s.Lawful() && AllConsistent(s, versions)
    requires ApplySync(s, keys, settings, download, sync, StoredFor(versions, sync.collection)).Ok?
    ensures var st := ApplySync(s, keys, settings, download, sync, StoredFor(versions, sync.collection)).value.state;
            && Consistent(s, st)
            && FromJson(s, Some(ToJson(s, st))) == Ok(st)
            && AllConsistent(s, versions[sync.collection := ToJson(s, st)])
  {
    hide HashOf, DecodeSnapshot, ApplyPatches, FromJson, ToJson;
    var stored := StoredFor(versions, sync.collection);
    var start := Start(s, keys, settings, sync, stored).value;
    if sync.snapshot.Some? {
      SnapshotConsistent(s, keys, sync.collection, settings, sync.snapshot.value);
    } else if stored.None? {
      NothingStored(s);
    }
    PatchesConsistent(s, keys, settings, download, sync, |sync.patches|, start);
    var st := ApplySync(s, keys, settings, download, sync, stored).value.state;
    HashLength(s, st);
    JsonRoundTrip(s, st);
  }

  lemma NothingStored(s: Suite)
    ensures FromJson(s, None).Ok? && Consistent(s, FromJson(s, None).value)
  {
    InitialConsistent(s, 0);
  }

  lemma HashLength(s: Suite, st: State)
    requires Consistent(s, st)
    ensures |st.hash| == 128
  {
  }

  /** A patch that raises anything but a missing key is no step at all: dropping it from the
      sync changes nothing. */
  lemma FailingPatchIsNoStep(s: Suite, keys: map<string, Bytes>, settings: Settings, download: Download, sync: Sync,
                             n: nat, start: Progress)
    requires n < |sync.patches| && ApplyPatches(s, keys, settings, download, sync, n, start).Ok?
    requires var p := ApplyPatches(s, keys, settings, download, sync, n, start).value;
             && !p.stopped
             && DecodePatch(s, keys, sync.collection, settings, download, sync.patches[n], p.state) == Err(OtherError)
    ensures ApplyPatches(s, keys, settings, download, sync, |sync.patches|, start) ==
            (var less := sync.(patches := sync.patches[..n] + sync.patches[n + 1..]);
             ApplyPatches(s, keys, settings, download, less, |less.patches|, start))
  {
    var less := sync.(patches := sync.patches[..n] + sync.patches[n + 1..]);
    hide DecodePatch;
    SamePrefix(s, keys, settings, download, sync, less, n, start);
    ShiftedSuffix(s, keys, settings, download, sync, less, n, |less.patches|, start);
  }

  lemma {:induction false} SamePrefix(s: Suite, keys: map<string, Bytes>, settings: Settings, download: Download,
                                      a: Sync, b: Sync, n: nat, start: Progress)
    requires n <= |a.patches| && n <= |b.patches| && a.patches[..n] == b.patches[..n] && a.collection == b.collection
    ensures ApplyPatches(s, keys, settings, download, a, n, start)
      == ApplyPatches(s, keys, settings, download, b, n, start)
  {
    hide ApplyPatch;
    if n > 0 {
      assert a.patches[..n][n - 1] == b.patches[..n][n - 1];
      assert a.patches[..n - 1] == a.patches[..n][..n - 1] && b.patches[..n - 1] == b.patches[..n][..n - 1];
      SamePrefix(s, keys, settings, download, a, b, n - 1, start);
    }
  }

  lemma {:induction false} ShiftedSuffix(s: Suite, keys: map<string, Bytes>, settings: Settings, download: Download,
                                         sync: Sync, less: Sync, n: nat, i: nat, start: Progress)
    requires n < |sync.patches| && less == sync.(patches := sync.patches[..n] + sync.patches[n + 1..])
    requires n <= i <= |less.patches|
    requires ApplyPatches(s, keys, settings, download, sync, n + 1, start)
      == ApplyPatches(s, keys, settings, download, less, n, start)
    ensures ApplyPatches(s, keys, settings, download, sync, i + 1, start)
      == ApplyPatches(s, keys, settings, download, less, i, start)
  {
    hide ApplyPatch;
    if i > n {
      ShiftedSuffix(s, keys, settings, download, sync, less, n, i - 1, start);
      assert less.patches[i - 1] == sync.patches[i];
    }
  }

  // ---- author and follower ------------------------------------------------------------

  /** The follower holds the key that the author's patch names. */
  ghost predicate KnowsKey(s: Suite, keys: map<string, Bytes>, keyId: string, keyData: Bytes) {
    match s.unBase64(keyId)
    case None => false
    case Some(id) => id != [] && KeyData(keys, s.base64(id)) == Some(keyData)
  }

  /** What a follower should be told about the author's change. */
  function Told(s: Suite, create: PatchCreate, keyId: Bytes): AppMutation {
    AppMutation(create.patchType, create.index, create.action, create.operation, s.base64(keyId),
                ActionData(s.dumps(create.index), create.action, create.apiVersion))
  }

  /** The record that the author writes. */
  function AuthorRecord(s: Suite, create: PatchCreate, keyId: Bytes, keys: Keys, iv: InitVector): Record {
    var (indexMac, encrypted, valueMac) := Sealed(s, create, keyId, keys, iv);
    Record(Some(keyId), Some(encrypted + valueMac), Some(indexMac))
  }

  /** The author's record passes both checks and opens to the author's action. */
  lemma UnsealedBack(s: Suite, ctx: Context, create: PatchCreate, keyId: Bytes, keys: Keys, iv: InitVector)
    requires s.Lawful() && keyId != []
    ensures var record := AuthorRecord(s, create, keyId, keys, iv);
            && Usable(record)
            && record.value.value[|record.value.value| - 32..] == Sealed(s, create, keyId, keys, iv).2
            && Unsealed(s, ctx, create.operation, record, keys) ==
               Ok(Some(ActionData(s.dumps(create.index), create.action, create.apiVersion)))
  {
    var (indexMac, encrypted, valueMac) := Sealed(s, create, keyId, keys, iv);
    var content: Bytes := encrypted + valueMac;
    assert content[..|content| - 32] == encrypted && content[|content| - 32..] == valueMac;
    var data := ActionData(s.dumps(create.index), create.action, create.apiVersion);
    assert s.decrypt(encrypted, keys.valueEncryption) == Some(s.writeAction(data));
    assert s.parseAction(s.writeAction(data)) == Some(data);
  }

  /** The follower's step on the author's mutation is the mixing step alone. */
  lemma DecodeOneBack(s: Suite, ctx: Context, create: PatchCreate, keyId: Bytes, keyData: Bytes, iv: InitVector,
                      st: State)
    requires s.Lawful() && keyId != [] && KeyData(ctx.keys, s.base64(keyId)) == Some(keyData)
    requires ctx.collection == create.patchType
    ensures var keys := s.expandKeys(keyData);
            var m := Mutation(create.operation, Some(AuthorRecord(s, create, keyId, keys, iv)));
            var (indexMac, _, valueMac) := Sealed(s, create, keyId, keys, iv);
            var mixed := MixState(s, st, indexMac, valueMac, create.operation);
            DecodeOne(s, ctx, m, st) ==
            if mixed.Err? then Err(mixed.error)
            else Ok((mixed.value, if ctx.emit then [Told(s, create, keyId)] else []))
  {
    hide Unsealed, Sealed, MixState, Usable;
    var keys := s.expandKeys(keyData);
    UnsealedBack(s, ctx, create, keyId, keys, iv);
    assert s.loads(s.dumps(create.index)) == Some(create.index);
  }

  lemma DecodeSingle(s: Suite, ctx: Context, m: Mutation, st: State)
    ensures DecodeMutations(s, ctx, [m], 1, st) == DecodeOne(s, ctx, m, st)
  {
    hide DecodeOne;
    assert DecodeMutations(s, ctx, [m], 0, st) == Ok((st, []));
    var r := DecodeOne(s, ctx, m, st);
    if r.Ok? {
      assert [] + r.value.1 == r.value.1;
    }
  }

  lemma ValueMacsSingle(s: Suite, create: PatchCreate, keyId: Bytes, keys: Keys, iv: InitVector)
    ensures ValueMacs([Mutation(create.operation, Some(AuthorRecord(s, create, keyId, keys, iv)))]) ==
            [Sealed(s, create, keyId, keys, iv).2]
  {
    hide Sealed;
    var (indexMac, encrypted, valueMac) := Sealed(s, create, keyId, keys, iv);
    var content: Bytes := encrypted + valueMac;
    assert content[|content| - 32..] == valueMac;
    var m := Mutation(create.operation, Some(AuthorRecord(s, create, keyId, keys, iv)));
    assert [m][1..] == [];
    assert ValueMacs([]) == [];
  }

  /** The author and the follower mix a change in the same way unless it is a REMOVE. */
  lemma MixAsAuthor(s: Suite, st: State, indexMac: Bytes, valueMac: Bytes, operation: int)
    requires AuthorState(s, st, indexMac, valueMac).Ok?
    ensures MixState(s, st.(version := st.version + 1), indexMac, valueMac, operation).Ok?
    ensures (MixState(s, st.(version := st.version + 1), indexMac, valueMac, operation) ==
             AuthorState(s, st, indexMac, valueMac)) <==> operation != REMOVE
  {
    hide AppliedAll;
    var key := s.base64(indexMac);
    if operation == REMOVE {
      var theirs := MixState(s, st.(version := st.version + 1), indexMac, valueMac, operation).value;
      assert key !in theirs.indexValueMap && key in AuthorState(s, st, indexMac, valueMac).value.indexValueMap;
    }
  }

  /** A follower in the author's old state accepts the author's patch, is told the original
      index and action, and lands in the author's exact new state unless the operation is a
      REMOVE: for a REMOVE it always lands elsewhere. */
  lemma FollowerAgrees(s: Suite, keys: map<string, Bytes>, create: PatchCreate, keyId: string, keyData: Bytes,
                       iv: InitVector, st: State, settings: Settings, download: Download)
    requires s.Lawful() && KnowsKey(s, keys, keyId, keyData)
    requires EncodePatch(s, create, keyId, st, keyData, iv).Ok?
    ensures var (patch, st') := EncodePatch(s, create, keyId, st, keyData, iv).value;
            var r := DecodePatch(s, keys, create.patchType, settings, download, patch, st);
            && st'.version == st.version + 1
            && (create.operation != REMOVE ==> r.Ok?)
            && (r.Ok? && r.value.state == st' <==> create.operation != REMOVE)
            && (create.operation != REMOVE ==>
                && r.value.snapshotMacValid == (if settings.validate then Some(true) else None)
                && r.value.news == (if ContextFor(keys, create.patchType, settings, st'.version).emit
                                    then [Told(s, create, s.unBase64(keyId).value)] else []))
  {
    hide Sealed, MixState, AuthorState, Told, DecodeMutations, HashOf;
    var id := s.unBase64(keyId).value;
    var derived := s.expandKeys(keyData);
    var (patch, st') := EncodePatch(s, create, keyId, st, keyData, iv).value;
    var (indexMac, encrypted, valueMac) := Sealed(s, create, id, derived, iv);
    var record := AuthorRecord(s, create, id, derived, iv);
    var ctx := ContextFor(keys, create.patchType, settings, st.version + 1);
    var working := st.(version := st.version + 1);
    assert patch.mutations == [Mutation(create.operation, Some(record))];
    AuthorVersion(s, st, indexMac, valueMac);
    ValueMacsSingle(s, create, id, derived, iv);
    DecodeOneBack(s, ctx, create, id, keyData, iv, working);
    DecodeSingle(s, ctx, patch.mutations[0], working);
    MixAsAuthor(s, st, indexMac, valueMac, create.operation);
  }

  lemma AuthorVersion(s: Suite, st: State, indexMac: Bytes, valueMac: Bytes)
    requires AuthorState(s, st, indexMac, valueMac).Ok?
    ensures AuthorState(s, st, indexMac, valueMac).value.version == st.version + 1
  {
  }
}
