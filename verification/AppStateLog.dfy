/** A follower of a whole log of its author's patches, whatever their operations: where it ends up, and
    exactly when that is where its author is. */
module AppStateLog {
  import opened Common
  import opened LtHash
  import opened AppState
  import opened AppStateSync
  import opened AppStateReplication

  // ---- the author ---------------------------------------------------------------------

  /** One change of the author, with the key it uses and the vector it draws. */
  datatype Change = Change(create: PatchCreate, keyId: string, keyData: Bytes, iv: InitVector)

  /** The patches of the first `n` changes and the state they leave the author in. */
  function AuthorLog(s: Suite, log: seq<Change>, n: nat, st: State): Result<(seq<Patch>, State), Error>
    requires n <= |log|
  {
    if n == 0 then Ok(([], st))
    else
      var (patches, st1) :- AuthorLog(s, log, n - 1, st);
      var change := log[n - 1];
      var (patch, st2) :- EncodePatch(s, change.create, change.keyId, st1, change.keyData, change.iv);
      Ok((patches + [patch], st2))
  }

  lemma {:induction false} AuthorLogLength(s: Suite, log: seq<Change>, n: nat, st: State)
    requires n <= |log| && AuthorLog(s, log, n, st).Ok?
    ensures |AuthorLog(s, log, n, st).value.0| == n
  {
    hide EncodePatch;
    if n > 0 {
      AuthorLogLength(s, log, n - 1, st);
    }
  }

  /** The shorter log gives the first of the longer log's patches. */
  lemma {:induction false} LogPrefix(s: Suite, log: seq<Change>, n: nat, m: nat, st: State)
    requires n <= m <= |log| && AuthorLog(s, log, m, st).Ok?
    ensures AuthorLog(s, log, n, st).Ok? && |AuthorLog(s, log, m, st).value.0| == m
    ensures AuthorLog(s, log, n, st).value.0 == AuthorLog(s, log, m, st).value.0[..n]
  {
    hide EncodePatch;
    AuthorLogLength(s, log, m, st);
    if n < m {
      LogPrefix(s, log, n, m - 1, st);
      assert AuthorLog(s, log, m, st).value.0[..n] == AuthorLog(s, log, m - 1, st).value.0[..n];
    } else {
      assert AuthorLog(s, log, m, st).value.0[..m] == AuthorLog(s, log, m, st).value.0;
    }
  }

  /** The news of the first `n` changes after version `start`, in order; what is not beyond the
      minimum version is no news. */
  function ToldAll(s: Suite, log: seq<Change>, n: nat, settings: Settings, start: nat): seq<AppMutation>
    requires n <= |log|
    requires forall i :: 0 <= i < |log| ==> s.unBase64(log[i].keyId).Some?
  {
    if n == 0 then []
    else
      var isNews := settings.minimumVersion.None? || start + n > settings.minimumVersion.value;
      ToldAll(s, log, n - 1, settings, start)
      + if isNews then [Told(s, log[n - 1].create, s.unBase64(log[n - 1].keyId).value)] else []
  }

  ghost predicate KeysNamed(s: Suite, log: seq<Change>) {
    forall i :: 0 <= i < |log| ==> s.unBase64(log[i].keyId).Some?
  }

  /** Changes of one collection whose keys the follower holds. */
  ghost predicate Readable(s: Suite, keys: map<string, Bytes>, collection: string, log: seq<Change>) {
    KeysNamed(s, log) && forall i :: 0 <= i < |log| ==>
      log[i].create.patchType == collection && KnowsKey(s, keys, log[i].keyId, log[i].keyData)
  }

  /** A patch as the author wrote it, or with the author's own version filled in. */
  predicate Echoes(patch: Patch, written: Patch, version: nat) {
    patch == written || patch == written.(version := Some(version))
  }

  // ---- the follower -------------------------------------------------------------------

  /** The index MAC, the encrypted action and the value MAC of a change. */
  function SealedBy(s: Suite, change: Change): (Digest, Bytes, Digest)
    requires s.unBase64(change.keyId).Some?
  {
    Sealed(s, change.create, s.unBase64(change.keyId).value, s.expandKeys(change.keyData), change.iv)
  }

  /** The state after a change is mixed in. */
  function MixChange(s: Suite, change: Change, st: State): State
    requires s.unBase64(change.keyId).Some?
  {
    var (indexMac, _, valueMac) := SealedBy(s, change);
    match MixState(s, st.(version := st.version + 1), indexMac, valueMac, change.create.operation)
    case Ok(mixed) => mixed
    case Err(_) => st
  }

  /** The state after mixing in the first `n` changes one after the other. */
  ghost function Follow(s: Suite, log: seq<Change>, n: nat, st: State): State
    requires n <= |log| && KeysNamed(s, log)
  {
    if n == 0 then st else MixChange(s, log[n - 1], Follow(s, log, n - 1, st))
  }

  function MacAt(s: Suite, st: State, change: Change): Result<Digest, Error> {
    SnapshotMac(s, st.hash, st.version, change.create.patchType, s.expandKeys(change.keyData).snapshotMac)
  }

  /** The author's state after the first `n` changes. */
  function AuthorAt(s: Suite, log: seq<Change>, n: nat, st: State): State
    requires n <= |log|
  {
    match AuthorLog(s, log, n, st)
    case Ok((_, now)) => now
    case Err(_) => st
  }

  /** After `n` changes a follower that validates sees a snapshot MAC that is not its own, and stops. */
  ghost predicate Halts(s: Suite, log: seq<Change>, n: nat, st: State, settings: Settings)
    requires n <= |log| && KeysNamed(s, log)
  {
    && settings.validate && n > 0
    && MacAt(s, Follow(s, log, n, st), log[n - 1]) != MacAt(s, AuthorAt(s, log, n, st), log[n - 1])
  }

  /** How many of the first `n` changes are mixed in: all, or those up to the first at which it stops. */
  ghost function Reached(s: Suite, log: seq<Change>, n: nat, st: State, settings: Settings): (m: nat)
    requires n <= |log| && KeysNamed(s, log)
    ensures m <= n
  {
    if n == 0 then 0
    else
      var m := Reached(s, log, n - 1, st, settings);
      if m == n - 1 && !Halts(s, log, m, st, settings) then n else m
  }

  lemma {:induction false} ReachedFirst(s: Suite, log: seq<Change>, n: nat, st: State, settings: Settings)
    requires n <= |log| && KeysNamed(s, log)
    ensures var m := Reached(s, log, n, st, settings);
            && (m < n ==> Halts(s, log, m, st, settings))
            && (forall j :: 0 < j < m ==> !Halts(s, log, j, st, settings))
  {
    hide Halts, KeysNamed;
    if n > 0 {
      ReachedFirst(s, log, n - 1, st, settings);
    }
  }

  /** Filling in the version changes nothing for a follower at the author's version. */
  lemma EchoDecodes(s: Suite, keys: map<string, Bytes>, collection: string, settings: Settings, download: Download,
                    patch: Patch, written: Patch, st: State)
    requires written.version == None && Echoes(patch, written, st.version + 1)
    ensures DecodePatch(s, keys, collection, settings, download, patch, st)
      == DecodePatch(s, keys, collection, settings, download, written, st)
  {
    hide DecodeMutations, CheckSnapshotMac, ContextFor, ValueMacs, PatchMac;
  }

  lemma VersionAside(s: Suite, st: State, version: nat)
    requires Consistent(s, st)
    ensures Consistent(s, st.(version := version))
  {
  }

  /** On a consistent state every change can be mixed in; one key of the map is touched. */
  lemma MixedIn(s: Suite, change: Change, st: State)
    requires s.unBase64(change.keyId).Some? && Consistent(s, st)
    ensures var (indexMac, _, valueMac) := SealedBy(s, change);
            var mixed := MixChange(s, change, st);
            var key := s.base64(indexMac);
            && MixState(s, st.(version := st.version + 1), indexMac, valueMac, change.create.operation) == Ok(mixed)
            && Consistent(s, mixed) && |mixed.hash| == 128 && mixed.version == st.version + 1
            && mixed.indexValueMap == if change.create.operation == REMOVE then st.indexValueMap - {key}
                                      else st.indexValueMap[key := valueMac]
  {
    hide Sealed, MixState, Consistent;
    var (indexMac, _, valueMac) := SealedBy(s, change);
    VersionAside(s, st, st.version + 1);
    MixConsistent(s, st.(version := st.version + 1), indexMac, valueMac, change.create.operation);
    HashLength(s, MixChange(s, change, st));
  }

  /** The author's patch names a key that the follower holds, and its patch MAC is right. */
  lemma PatchAccepted(s: Suite, keys: map<string, Bytes>, change: Change, ours: State, settings: Settings)
    requires s.Lawful() && KnowsKey(s, keys, change.keyId, change.keyData)
    requires EncodePatch(s, change.create, change.keyId, ours, change.keyData, change.iv).Ok?
    ensures
      var (written, ours') := EncodePatch(s, change.create, change.keyId, ours, change.keyData, change.iv).value;
      var id := s.unBase64(change.keyId).value;
      && NamedKey(s, keys, written.keyId) == Some(change.keyData)
      && ours'.version == ours.version + 1
      && MacAt(s, ours', change) == Ok(written.snapshotMac)
      && written == written.(version := None, external := None, mutations :=
           [Mutation(change.create.operation,
                     Some(AuthorRecord(s, change.create, id, s.expandKeys(change.keyData), change.iv)))])
      && CheckPatchMac(s, change.create.patchType, Some(change.keyData), settings.validate, written,
                       written.mutations, ours.version + 1) == None
  {
    hide Sealed, AuthorState;
    var id, derived := s.unBase64(change.keyId).value, s.expandKeys(change.keyData);
    var (indexMac, _, valueMac) := Sealed(s, change.create, id, derived, change.iv);
    AuthorVersion(s, ours, indexMac, valueMac);
    ValueMacsSingle(s, change.create, id, derived, change.iv);
  }

  lemma SnapshotVerdict(s: Suite, change: Change, mixed: State, validate: bool, mac: Digest)
    requires MacAt(s, mixed, change).Ok?
    ensures CheckSnapshotMac(s, mixed, change.create.patchType, Some(change.keyData), validate, mac)
      == Ok(if validate then Some(MacAt(s, mixed, change) == Ok(mac)) else None)
  {
  }

  /** What a consistent follower at the author's version makes of the author's next patch. */
  lemma FollowerStep(s: Suite, keys: map<string, Bytes>, change: Change, ours: State, theirs: State,
                     settings: Settings, download: Download)
    requires s.Lawful() && KnowsKey(s, keys, change.keyId, change.keyData)
    requires EncodePatch(s, change.create, change.keyId, ours, change.keyData, change.iv).Ok?
    requires Consistent(s, theirs) && theirs.version == ours.version
    ensures var mixed := MixChange(s, change, theirs);
            var (written, ours') := EncodePatch(s, change.create, change.keyId, ours, change.keyData, change.iv).value;
            && written.version == None
            && mixed.version == ours'.version == ours.version + 1
            && DecodePatch(s, keys, change.create.patchType, settings, download, written, theirs)
               == Ok(Decoded(mixed,
                             if ContextFor(keys, change.create.patchType, settings, ours.version + 1).emit
                             then [Told(s, change.create, s.unBase64(change.keyId).value)] else [],
                             if settings.validate then Some(MacAt(s, mixed, change) == MacAt(s, ours', change))
                             else None))
  {
    hide Sealed, MixState, EncodePatch, Told, DecodeMutations, Consistent, MixChange, CheckPatchMac, CheckSnapshotMac,
         NamedKey, HashOf;
    var create, id := change.create, s.unBase64(change.keyId).value;
    var (written, ours') := EncodePatch(s, create, change.keyId, ours, change.keyData, change.iv).value;
    var ctx := ContextFor(keys, create.patchType, settings, ours.version + 1);
    PatchAccepted(s, keys, change, ours, settings);
    DecodeOneBack(s, ctx, create, id, change.keyData, change.iv, theirs.(version := ours.version + 1));
    DecodeSingle(s, ctx, written.mutations[0], theirs.(version := ours.version + 1));
    MixedIn(s, change, theirs);
    SnapshotVerdict(s, change, MixChange(s, change, theirs), settings.validate, written.snapshotMac);
  }

  lemma {:induction false} FollowConsistent(s: Suite, log: seq<Change>, n: nat, st: State)
    requires n <= |log| && KeysNamed(s, log) && Consistent(s, st)
    ensures Consistent(s, Follow(s, log, n, st)) && Follow(s, log, n, st).version == st.version + n
  {
    hide Consistent, MixChange;
    if n > 0 {
      FollowConsistent(s, log, n - 1, st);
      MixedIn(s, log[n - 1], Follow(s, log, n - 1, st));
    }
  }

  lemma {:induction false} AuthorAtConsistent(s: Suite, log: seq<Change>, n: nat, st: State)
    requires n <= |log| && KeysNamed(s, log) && Consistent(s, st) && AuthorLog(s, log, n, st).Ok?
    ensures Consistent(s, AuthorAt(s, log, n, st)) && AuthorAt(s, log, n, st).version == st.version + n
  {
    hide Consistent, Sealed, AuthorState;
    if n > 0 {
      AuthorAtConsistent(s, log, n - 1, st);
      var (indexMac, _, valueMac) := SealedBy(s, log[n - 1]);
      AuthorConsistent(s, AuthorAt(s, log, n - 1, st), indexMac, valueMac);
    }
  }

  /** The patches of a sync are those of the log, with or without their versions. */
  ghost predicate Written(s: Suite, log: seq<Change>, st: State, sync: Sync) {
    && AuthorLog(s, log, |log|, st).Ok?
    && |sync.patches| == |AuthorLog(s, log, |log|, st).value.0| == |log|
    && forall i :: 0 <= i < |log| ==>
         Echoes(sync.patches[i], AuthorLog(s, log, |log|, st).value.0[i], st.version + i + 1)
  }

  /** The `n`-th patch is what the author makes of its state before it. */
  lemma WrittenAt(s: Suite, log: seq<Change>, n: nat, st: State, sync: Sync)
    requires 0 < n <= |log| && Written(s, log, st, sync)
    ensures AuthorLog(s, log, n, st).Ok? && AuthorLog(s, log, n - 1, st).Ok? && |sync.patches| == |log|
    ensures var change := log[n - 1];
            var before := AuthorAt(s, log, n - 1, st);
            var r := EncodePatch(s, change.create, change.keyId, before, change.keyData, change.iv);
            && r.Ok? && r.value.1 == AuthorAt(s, log, n, st)
            && Echoes(sync.patches[n - 1], r.value.0, st.version + n)
  {
    hide EncodePatch, Echoes;
    LogPrefix(s, log, n, |log|, st);
    LogPrefix(s, log, n - 1, n, st);
    assert AuthorLog(s, log, n, st).value.0[n - 1] == AuthorLog(s, log, |log|, st).value.0[n - 1];
  }

  /** Where a follower of the first `n` patches stands. */
  ghost function Following(s: Suite, log: seq<Change>, n: nat, st: State, settings: Settings): Progress
    requires n <= |log| && KeysNamed(s, log)
  {
    var m := Reached(s, log, n, st, settings);
    Progress(Follow(s, log, m, st), ToldAll(s, log, m, settings, st.version), Halts(s, log, m, st, settings))
  }

  /** The follower's step from one patch to the next, unless it has stopped. */
  lemma FollowingStep(s: Suite, keys: map<string, Bytes>, log: seq<Change>, n: nat, st: State,
                      settings: Settings, download: Download, sync: Sync)
    requires s.Lawful() && 0 < n <= |log| && Readable(s, keys, sync.collection, log)
    requires Consistent(s, st) && Written(s, log, st, sync)
    requires Reached(s, log, n - 1, st, settings) == n - 1 && !Halts(s, log, n - 1, st, settings)
    ensures ApplyPatch(s, keys, sync.collection, settings, download, sync.patches[n - 1],
                       Following(s, log, n - 1, st, settings))
      == Ok(Following(s, log, n, st, settings))
  {
    hide EncodePatch, DecodePatch, Told, Consistent, MixChange, MacAt, Echoes, AuthorLog, AuthorAt, Written, KnowsKey;
    WrittenAt(s, log, n, st, sync);
    FollowConsistent(s, log, n - 1, st);
    AuthorAtConsistent(s, log, n - 1, st);
    var change, theirs := log[n - 1], Follow(s, log, n - 1, st);
    var ours := AuthorAt(s, log, n - 1, st);
    var (written, _) := EncodePatch(s, change.create, change.keyId, ours, change.keyData, change.iv).value;
    FollowerStep(s, keys, change, ours, theirs, settings, download);
    EchoDecodes(s, keys, sync.collection, settings, download, sync.patches[n - 1], written, theirs);
  }

  lemma StoppedStays(s: Suite, keys: map<string, Bytes>, collection: string, settings: Settings, download: Download,
                     patch: Patch, p: Progress)
    requires p.stopped
    ensures ApplyPatch(s, keys, collection, settings, download, patch, p) == Ok(p)
  {
  }

  lemma FollowingNothing(s: Suite, log: seq<Change>, st: State, settings: Settings)
    requires KeysNamed(s, log)
    ensures Following(s, log, 0, st, settings) == Progress(st, [], false)
  {
  }

  lemma FollowingNext(s: Suite, keys: map<string, Bytes>, log: seq<Change>, n: nat, st: State,
                      settings: Settings, download: Download, sync: Sync)
    requires KeysNamed(s, log) && 0 < n <= |log| == |sync.patches|
    requires s.Lawful() && Readable(s, keys, sync.collection, log) && Consistent(s, st) && Written(s, log, st, sync)
    ensures ApplyPatch(s, keys, sync.collection, settings, download, sync.patches[n - 1],
                       Following(s, log, n - 1, st, settings))
      == Ok(Following(s, log, n, st, settings))
  {
    hide ApplyPatch, Consistent, Follow, ToldAll, Halts, Readable, KeysNamed, Suite.Lawful, Written;
    var m := Reached(s, log, n - 1, st, settings);
    ReachedFirst(s, log, n - 1, st, settings);
    if Halts(s, log, m, st, settings) {
      StoppedStays(s, keys, sync.collection, settings, download, sync.patches[n - 1],
                   Following(s, log, n - 1, st, settings));
    } else {
      FollowingStep(s, keys, log, n, st, settings, download, sync);
    }
  }

  lemma {:induction false} FollowsEach(s: Suite, keys: map<string, Bytes>, log: seq<Change>, n: nat, st: State,
                                       settings: Settings, download: Download, sync: Sync)
    requires KeysNamed(s, log) && n <= |log| == |sync.patches|
    requires s.Lawful() && Readable(s, keys, sync.collection, log) && Consistent(s, st) && Written(s, log, st, sync)
    ensures ApplyPatches(s, keys, settings, download, sync, n, Progress(st, [], false))
      == Ok(Following(s, log, n, st, settings))
  {
    hide ApplyPatch, Following, Consistent, Readable, KeysNamed, Written, Suite.Lawful;
    if n == 0 {
      FollowingNothing(s, log, st, settings);
    } else {
      FollowsEach(s, keys, log, n - 1, st, settings, download, sync);
      FollowingNext(s, keys, log, n, st, settings, download, sync);
    }
  }

  /** A follower that starts in its author's state and applies the log refuses nothing: it mixes in every change
      up to the first at which it stops, and is told, in order, every one of those beyond the minimum version
      that it asked for. */
  lemma FollowsAny(s: Suite, keys: map<string, Bytes>, log: seq<Change>, n: nat, st: State,
                   settings: Settings, download: Download, sync: Sync)
    requires s.Lawful() && n <= |log| && Readable(s, keys, sync.collection, log)
    requires Consistent(s, st) && Written(s, log, st, sync)
    ensures ApplyPatches(s, keys, settings, download, sync, n, Progress(st, [], false))
      == Ok(Following(s, log, n, st, settings))
  {
    hide Following, ApplyPatches, Consistent, Suite.Lawful, Echoes, KnowsKey;
    FollowsEach(s, keys, log, n, st, settings, download, sync);
  }

  // ---- when the follower is where its author is ---------------------------------------

  function Key(s: Suite, change: Change): string
    requires s.unBase64(change.keyId).Some?
  {
    s.base64(SealedBy(s, change).0)
  }

  /** The last of the first `n` changes that names the key. */
  ghost function LastTouch(s: Suite, log: seq<Change>, n: nat, key: string): (at: Option<nat>)
    requires n <= |log| && KeysNamed(s, log)
    ensures at.Some? ==> at.value < n && Key(s, log[at.value]) == key
    ensures forall i :: 0 <= i < n && Key(s, log[i]) == key ==> at.Some? && i <= at.value
  {
    if n == 0 then None
    else if Key(s, log[n - 1]) == key then Some(n - 1)
    else LastTouch(s, log, n - 1, key)
  }

  /** Every REMOVE among the first `n` changes is followed by another change of the same key that is none. */
  ghost predicate Settled(s: Suite, log: seq<Change>, n: nat)
    requires n <= |log| && KeysNamed(s, log)
  {
    forall i :: 0 <= i < n && log[i].create.operation == REMOVE ==>
      exists j :: i < j < n && log[j].create.operation != REMOVE && Key(s, log[j]) == Key(s, log[i])
  }

  lemma AuthorSets(s: Suite, change: Change, st: State)
    requires EncodePatch(s, change.create, change.keyId, st, change.keyData, change.iv).Ok?
    ensures EncodePatch(s, change.create, change.keyId, st, change.keyData, change.iv).value.1.indexValueMap
      == st.indexValueMap[Key(s, change) := SealedBy(s, change).2]
  {
    hide Sealed;
  }

  /** The author's map: what no change names is as it was, the rest has the MAC of its last change. */
  lemma {:induction false} AuthorMap(s: Suite, log: seq<Change>, n: nat, st: State, key: string)
    requires n <= |log| && KeysNamed(s, log) && AuthorLog(s, log, n, st).Ok?
    ensures var m, at := AuthorAt(s, log, n, st).indexValueMap, LastTouch(s, log, n, key);
            if at.Some? then key in m && m[key] == SealedBy(s, log[at.value]).2
            else (key in m <==> key in st.indexValueMap) && (key in m ==> m[key] == st.indexValueMap[key])
  {
    hide SealedBy, EncodePatch;
    if n > 0 {
      AuthorMap(s, log, n - 1, st, key);
      AuthorSets(s, log[n - 1], AuthorAt(s, log, n - 1, st));
    }
  }

  /** The follower's map: a key whose last change is a REMOVE is gone. */
  lemma {:induction false} FollowMap(s: Suite, log: seq<Change>, n: nat, st: State, key: string)
    requires n <= |log| && KeysNamed(s, log) && Consistent(s, st)
    ensures var m, at := Follow(s, log, n, st).indexValueMap, LastTouch(s, log, n, key);
            if at.None? then (key in m <==> key in st.indexValueMap) && (key in m ==> m[key] == st.indexValueMap[key])
            else if log[at.value].create.operation == REMOVE then key !in m
            else key in m && m[key] == SealedBy(s, log[at.value]).2
  {
    hide SealedBy, Consistent, MixChange;
    if n > 0 {
      FollowMap(s, log, n - 1, st, key);
      FollowConsistent(s, log, n - 1, st);
      MixedIn(s, log[n - 1], Follow(s, log, n - 1, st));
    }
  }

  /** Mixing in every change gives the author's state exactly when no key is left with a REMOVE. */
  lemma SettledExact(s: Suite, log: seq<Change>, n: nat, st: State)
    requires n <= |log| && KeysNamed(s, log) && Consistent(s, st) && AuthorLog(s, log, n, st).Ok?
    ensures Follow(s, log, n, st) == AuthorAt(s, log, n, st) <==> Settled(s, log, n)
  {
    hide AuthorAt, AuthorLog, Follow, HashOf, Key, SealedBy;
    var theirs, ours := Follow(s, log, n, st), AuthorAt(s, log, n, st);
    if Settled(s, log, n) {
      forall key
        ensures key in theirs.indexValueMap <==> key in ours.indexValueMap
        ensures key in ours.indexValueMap ==> theirs.indexValueMap[key] == ours.indexValueMap[key]
      {
        AuthorMap(s, log, n, st, key);
        FollowMap(s, log, n, st, key);
        var at := LastTouch(s, log, n, key);
      }
      assert theirs.indexValueMap == ours.indexValueMap;
      FollowConsistent(s, log, n, st);
      AuthorAtConsistent(s, log, n, st);
      HashDetermined(s.hasher, theirs.hash, ours.hash, ours.indexValueMap);
    } else {
      var i :| 0 <= i < n && log[i].create.operation == REMOVE
               && forall j :: i < j < n && log[j].create.operation != REMOVE ==> Key(s, log[j]) != Key(s, log[i]);
      var key := Key(s, log[i]);
      AuthorMap(s, log, n, st, key);
      FollowMap(s, log, n, st, key);
      assert LastTouch(s, log, n, key).Some?;
    }
  }

  /** Only a log that is not settled can stop a follower. */
  lemma HaltsUnsettled(s: Suite, log: seq<Change>, n: nat, st: State, settings: Settings)
    requires n <= |log| && KeysNamed(s, log) && Consistent(s, st) && AuthorLog(s, log, n, st).Ok?
    requires Halts(s, log, n, st, settings)
    ensures !Settled(s, log, n)
  {
    hide Settled, Follow, AuthorAt, MacAt, Consistent, KeysNamed;
    SettledExact(s, log, n, st);
  }

  /** After `n` patches the follower is where its author is exactly when no key is left with a REMOVE and, if it
      validates, no earlier snapshot MAC gave a missed REMOVE away. */
  lemma FollowsLogExact(s: Suite, keys: map<string, Bytes>, log: seq<Change>, n: nat, st: State,
                        settings: Settings, download: Download, sync: Sync)
    requires s.Lawful() && n <= |log| && Readable(s, keys, sync.collection, log)
    requires Consistent(s, st) && Written(s, log, st, sync)
    ensures var r := ApplyPatches(s, keys, settings, download, sync, n, Progress(st, [], false));
            && r.Ok?
            && (r.value.state == AuthorAt(s, log, n, st) <==>
                Settled(s, log, n) && forall j :: 0 < j < n ==> !Halts(s, log, j, st, settings))
  {
    assert KeysNamed(s, log);
    hide ApplyPatches, Settled, Follow, AuthorAt, AuthorLog, Halts, Consistent, KeysNamed, ToldAll, Readable;
    FollowsAny(s, keys, log, n, st, settings, download, sync);
    ReachedFirst(s, log, n, st, settings);
    var m := Reached(s, log, n, st, settings);
    FollowConsistent(s, log, m, st);
    LogPrefix(s, log, n, |log|, st);
    AuthorAtConsistent(s, log, n, st);
    NoHaltAtStart(s, log, st, settings);
    SettledExact(s, log, n, st);
  }

  lemma NoHaltAtStart(s: Suite, log: seq<Change>, st: State, settings: Settings)
    requires KeysNamed(s, log)
    ensures !Halts(s, log, 0, st, settings)
  {
  }

  /** A follower of a log without REMOVE equals its author after every patch, and is told every change beyond
      the minimum version; the state need not even be consistent. */
  lemma {:induction false} FollowsLog(s: Suite, keys: map<string, Bytes>, log: seq<Change>, n: nat, st: State,
                                      settings: Settings, download: Download, sync: Sync)
    requires s.Lawful() && n <= |log| && Readable(s, keys, sync.collection, log)
    requires Written(s, log, st, sync)
    requires forall i :: 0 <= i < n ==> log[i].create.operation != REMOVE
    ensures ApplyPatches(s, keys, settings, download, sync, n, Progress(st, [], false)) ==
            Ok(Progress(AuthorAt(s, log, n, st), ToldAll(s, log, n, settings, st.version), false))
    ensures AuthorAt(s, log, n, st).version == st.version + n
  {
    hide EncodePatch, DecodePatch, Told, KnowsKey, Written, Echoes, AuthorLog;
    if n == 0 {
      NoChange(s, log, st);
    } else {
      FollowsLog(s, keys, log, n - 1, st, settings, download, sync);
      WrittenAt(s, log, n, st, sync);
      var change, before := log[n - 1], AuthorAt(s, log, n - 1, st);
      FollowerAgrees(s, keys, change.create, change.keyId, change.keyData, change.iv, before, settings, download);
      var (written, _) := EncodePatch(s, change.create, change.keyId, before, change.keyData, change.iv).value;
      NoVersion(s, change, before);
      EchoDecodes(s, keys, sync.collection, settings, download, sync.patches[n - 1], written, before);
    }
  }

  lemma NoVersion(s: Suite, change: Change, st: State)
    requires EncodePatch(s, change.create, change.keyId, st, change.keyData, change.iv).Ok?
    ensures EncodePatch(s, change.create, change.keyId, st, change.keyData, change.iv).value.0.version == None
  {
    hide Sealed, AuthorState;
  }

  lemma NoChange(s: Suite, log: seq<Change>, st: State)
    ensures AuthorAt(s, log, 0, st) == st
  {
  }

  // ---- the author's own store ---------------------------------------------------------

  /** The patches written for the first `n` changes and the states stored after them. */
  function WriteAll(s: Suite, keys: map<string, Bytes>, versions: map<string, Stored>, log: seq<Change>, n: nat)
    : Result<(seq<Patch>, map<string, Stored>), Error>
    requires n <= |log|
  {
    if n == 0 then Ok(([], versions))
    else
      var (patches, stored) :- WriteAll(s, keys, versions, log, n - 1);
      var (patch, stored') :- WritePatch(s, keys, stored, log[n - 1].create, log[n - 1].keyId, log[n - 1].iv);
      Ok((patches + [patch], stored'))
  }

  /** The keys that the changes of one collection use are held. */
  predicate HoldsKeys(keys: map<string, Bytes>, collection: string, log: seq<Change>) {
    forall i :: 0 <= i < |log| ==>
      && log[i].create.patchType == collection
      && log[i].keyId != "" && log[i].keyId in keys && log[i].keyData != [] && keys[log[i].keyId] == log[i].keyData
  }

  /** Writing own patches one after the other, each from what is stored, gives the author's log; what is stored loads as
      the author's state, and other collections stay as they are. */
  lemma {:induction false} OwnLog(s: Suite, keys: map<string, Bytes>, versions: map<string, Stored>, log: seq<Change>,
                                  n: nat, collection: string, other: string)
    requires s.Lawful() && n <= |log| && HoldsKeys(keys, collection, log) && collection != other
    requires FromJson(s, StoredFor(versions, collection)).Ok?
    requires Consistent(s, FromJson(s, StoredFor(versions, collection)).value)
    ensures
      var st := FromJson(s, StoredFor(versions, collection)).value;
      var written, author := WriteAll(s, keys, versions, log, n), AuthorLog(s, log, n, st);
      && (written.Ok? <==> author.Ok?)
      && (written.Ok? ==>
            && written.value.0 == author.value.0 && Consistent(s, author.value.1)
            && FromJson(s, StoredFor(written.value.1, collection)) == Ok(author.value.1)
            && StoredFor(written.value.1, other) == StoredFor(versions, other))
  {
    hide Consistent, FromJson, ToJson, EncodePatch, Suite.Lawful;
    if n > 0 {
      OwnLog(s, keys, versions, log, n - 1, collection, other);
      var st := FromJson(s, StoredFor(versions, collection)).value;
      if AuthorLog(s, log, n - 1, st).Ok? {
        var change, before := log[n - 1], AuthorLog(s, log, n - 1, st).value.1;
        if EncodePatch(s, change.create, change.keyId, before, change.keyData, change.iv).Ok? {
          EncodedStored(s, change, before);
        }
      }
    }
  }

  lemma EncodedStored(s: Suite, change: Change, st: State)
    requires s.Lawful() && Consistent(s, st)
    requires EncodePatch(s, change.create, change.keyId, st, change.keyData, change.iv).Ok?
    ensures
      var after := EncodePatch(s, change.create, change.keyId, st, change.keyData, change.iv).value.1;
      Consistent(s, after) && FromJson(s, Some(ToJson(s, after))) == Ok(after)
  {
    hide Sealed, AuthorState, FromJson, ToJson, HashOf;
    var after := EncodePatch(s, change.create, change.keyId, st, change.keyData, change.iv).value.1;
    var (indexMac, _, valueMac) := SealedBy(s, change);
    AuthorConsistent(s, st, indexMac, valueMac);
    HashLength(s, after);
    JsonRoundTrip(s, after);
  }

  /** Without a key id, or without the key, no patch is written and nothing is stored. */
  lemma NoKeyNoPatch(s: Suite, keys: map<string, Bytes>, versions: map<string, Stored>, create: PatchCreate,
                     keyId: string, iv: InitVector)
    requires keyId == "" || keyId !in keys || keys[keyId] == []
    ensures WritePatch(s, keys, versions, create, keyId, iv) == Err(MissingKey)
  {
  }
}
