/** The four MACs of app state: what each of them covers and under which key, and what becomes of a record, a
    patch or a snapshot whose MAC is another one. */
module AppStateMacs {
  import opened Common
  import opened LtHash
  import opened AppState
  import opened AppStateSync
  import opened AppStateReplication

  // ---- what a MAC is ------------------------------------------------------------------

  /** Eight bytes that spell the number. */
  predicate Spells8(e: Bytes, n: nat) {
    |e| == 8 && BigValue(e) == n
  }

  lemma Spelled(n: nat)
    requires n < 0x1_0000_0000_0000_0000
    ensures Spells8(Big(n, 8), n)
  {
    assert Pow2(0) == 1;
    hide Pow2, Big, BigValue;
    NextByte(0);
    NextByte(8);
    NextByte(16);
    NextByte(24);
    NextByte(32);
    NextByte(40);
    NextByte(48);
    NextByte(56);
    BigBack(n, 8);
  }

  lemma {:induction false} SpelledOnce(a: Bytes, b: Bytes)
    requires |a| == |b| && BigValue(a) == BigValue(b)
    ensures a == b
  {
    if a != [] {
      var x, y := a[..|a| - 1], b[..|b| - 1];
      SpelledOnce(x, y);
      assert a == x + [a[|a| - 1]] && b == y + [b[|b| - 1]];
    }
  }

  /** The first half of an HMAC of the operation, the key id, the encrypted value and the length of the key id and
      one more. */
  ghost predicate IsContentMac(s: Suite, mac: Bytes, operation: int, keyId: Bytes, data: Bytes, key: Bytes) {
    var length := |keyId| + 1;
    exists e :: Spells8(e, length)
      && mac == s.hmac512([if operation == 0 then 1 else 2] + keyId + data + e, key)[..32]
  }

  /** An HMAC of the hash, the version and the name of the collection. */
  ghost predicate IsSnapshotMac(s: Suite, mac: Bytes, hash: Bytes, version: nat, name: string, key: Bytes) {
    exists e :: Spells8(e, version) && mac == s.hmac(hash + e + s.utf8.encode(name), key)
  }

  /** An HMAC of the snapshot MAC, the value MACs, the version and the name of the collection. */
  ghost predicate IsPatchMac(s: Suite, mac: Bytes, snapshotMac: Bytes, valueMacs: seq<Bytes>, version: nat,
                             name: string, key: Bytes)
  {
    exists e :: Spells8(e, version) && mac == s.hmac(snapshotMac + Join(valueMacs) + e + s.utf8.encode(name), key)
  }

  lemma ContentMacIs(s: Suite, mac: Bytes, operation: int, keyId: Bytes, data: Bytes, key: Bytes)
    requires |keyId| + 1 < 0x1_0000_0000_0000_0000
    ensures IsContentMac(s, mac, operation, keyId, data, key) <==> mac == ContentMac(s, operation, data, keyId, key)
  {
    hide Big, BigValue;
    var length := |keyId| + 1;
    Spelled(length);
    if e :| Spells8(e, length)
            && mac == s.hmac512([if operation == 0 then 1 else 2] + keyId + data + e, key)[..32] {
      SpelledOnce(e, Big(length, 8));
    }
  }

  lemma SnapshotMacIs(s: Suite, mac: Bytes, hash: Bytes, version: nat, name: string, key: Bytes)
    requires |hash| == 128 && version < 0x1_0000_0000_0000_0000
    ensures SnapshotMac(s, hash, version, name, key).Ok?
    ensures IsSnapshotMac(s, mac, hash, version, name, key) <==> mac == SnapshotMac(s, hash, version, name, key).value
  {
    hide Big, BigValue;
    Spelled(version);
    if e :| Spells8(e, version) && mac == s.hmac(hash + e + s.utf8.encode(name), key) {
      SpelledOnce(e, Big(version, 8));
    }
  }

  lemma PatchMacIs(s: Suite, mac: Bytes, snapshotMac: Bytes, valueMacs: seq<Bytes>, version: nat, name: string,
                   key: Bytes)
    requires version < 0x1_0000_0000_0000_0000
    ensures PatchMac(s, snapshotMac, valueMacs, version, name, key).Ok?
    ensures IsPatchMac(s, mac, snapshotMac, valueMacs, version, name, key)
      <==> mac == PatchMac(s, snapshotMac, valueMacs, version, name, key).value
  {
    hide Big, BigValue, Join;
    Spelled(version);
    if e :| Spells8(e, version) && mac == s.hmac(snapshotMac + Join(valueMacs) + e + s.utf8.encode(name), key) {
      SpelledOnce(e, Big(version, 8));
    }
  }

  // ---- patches ------------------------------------------------------------------------

  /** The data of a key that is named and held. */
  function Held(s: Suite, keys: map<string, Bytes>, keyId: Option<Bytes>): Option<Bytes> {
    match keyId
    case None => None
    case Some(id) =>
      if id != [] && s.base64(id) in keys && keys[s.base64(id)] != [] then Some(keys[s.base64(id)]) else None
  }

  /** The version that a patch has or, without one, that of the next state. */
  function VersionOf(patch: Patch, st: State): nat {
    match patch.version
    case Some(v) => v
    case None => st.version + 1
  }

  /** With validation on, a patch is refused for want of its key, and for any other patch MAC than the HMAC under
      that key; else it is decoded record by record, and the verdict on its snapshot MAC is whether that is the HMAC
      of the state decoded. */
  lemma PatchExact(s: Suite, keys: map<string, Bytes>, collection: string, settings: Settings, download: Download,
                   patch: Patch, st: State)
    requires settings.validate && AllMutations(patch, download).Ok?
    ensures
      var r := DecodePatch(s, keys, collection, settings, download, patch, st);
      var mutations, version := AllMutations(patch, download).value, VersionOf(patch, st);
      match Held(s, keys, patch.keyId)
      case None => r == Err(MissingKey)
      case Some(key) =>
        && (r.Ok? ==> version < 0x1_0000_0000_0000_0000
                      && IsPatchMac(s, patch.patchMac, patch.snapshotMac, ValueMacs(mutations), version, collection,
                                    s.expandKeys(key).patchMac))
        && (version < 0x1_0000_0000_0000_0000
            && !IsPatchMac(s, patch.patchMac, patch.snapshotMac, ValueMacs(mutations), version, collection,
                           s.expandKeys(key).patchMac)
            ==> r == Err(OtherError))
  {
    hide DecodeMutations, CheckSnapshotMac, IsPatchMac, PatchMac;
    if Held(s, keys, patch.keyId).Some? {
      var version := VersionOf(patch, st);
      var key := s.expandKeys(Held(s, keys, patch.keyId).value).patchMac;
      if version < 0x1_0000_0000_0000_0000 {
        PatchMacIs(s, patch.patchMac, patch.snapshotMac, ValueMacs(AllMutations(patch, download).value), version,
                   collection, key);
      } else {
        TooLate(s, patch.snapshotMac, ValueMacs(AllMutations(patch, download).value), version, collection, key);
      }
    }
  }

  lemma TooLate(s: Suite, snapshotMac: Bytes, valueMacs: seq<Bytes>, version: nat, name: string, key: Bytes)
    requires version >= 0x1_0000_0000_0000_0000
    ensures PatchMac(s, snapshotMac, valueMacs, version, name, key) == Err(OtherError)
  {
  }

  /** The value MACs of mutations are joined in order; one without a record has none, and one whose value is missing or
      below 32 bytes has an empty one. */
  lemma {:induction false} ValueMacsJoin(a: seq<Mutation>, b: seq<Mutation>)
    ensures ValueMacs(a + b) == ValueMacs(a) + ValueMacs(b)
  {
    if a == [] {
      assert a + b == b;
    } else {
      assert (a + b)[1..] == a[1..] + b;
      ValueMacsJoin(a[1..], b);
    }
  }

  lemma ValueMacsOne(m: Mutation)
    ensures
      ValueMacs([m]) ==
      if m.record == None then []
      else if m.record.value.value == None || |m.record.value.value.value| < 32 then [[]]
      else [m.record.value.value.value[|m.record.value.value.value| - 32..]]
  {
    assert [m][1..] == [] && ValueMacs([]) == [];
  }

  /** Mutations kept outside a patch count as if they stood at its end; a patch that has some cannot be decoded without
      a way to fetch them. */
  lemma ExternalLast(s: Suite, keys: map<string, Bytes>, collection: string, settings: Settings, download: Download,
                     patch: Patch, st: State)
    requires patch.external.Some?
    ensures
      var r := DecodePatch(s, keys, collection, settings, download, patch, st);
      if download == None then r == Err(OtherError)
      else match download.value(patch.external.value)
        case Err(e) => r == Err(e)
        case Ok(more) =>
          r == DecodePatch(s, keys, collection, settings, None,
                           patch.(external := None, mutations := patch.mutations + more), st)
  {
    hide DecodeMutations, CheckSnapshotMac, ValueMacs, PatchMac;
  }

  /** In a sync such a patch changes nothing, and one without its key ends the sync. */
  lemma PatchRefused(s: Suite, keys: map<string, Bytes>, collection: string, settings: Settings, download: Download,
                     patch: Patch, p: Progress)
    requires settings.validate && AllMutations(patch, download).Ok? && !p.stopped
    ensures
      var mutations, version := AllMutations(patch, download).value, VersionOf(patch, p.state);
      var after := ApplyPatch(s, keys, collection, settings, download, patch, p);
      match Held(s, keys, patch.keyId)
      case None => after == Err(MissingKey)
      case Some(key) =>
        version < 0x1_0000_0000_0000_0000
        && !IsPatchMac(s, patch.patchMac, patch.snapshotMac, ValueMacs(mutations), version, collection,
                       s.expandKeys(key).patchMac)
        ==> after == Ok(p)
  {
    hide DecodePatch, IsPatchMac, AllMutations;
    PatchExact(s, keys, collection, settings, download, patch, p.state);
  }

  /** Without validation neither of the two MACs of a patch nor the key it names makes a difference. */
  lemma NothingValidated(s: Suite, keys: map<string, Bytes>, collection: string, settings: Settings,
                         download: Download, patch: Patch, st: State, patchMac: Bytes, snapshotMac: Bytes,
                         keyId: Option<Bytes>)
    requires !settings.validate
    ensures DecodePatch(s, keys, collection, settings, download, patch, st)
      == DecodePatch(s, keys, collection, settings, download,
                     patch.(patchMac := patchMac, snapshotMac := snapshotMac, keyId := keyId), st)
  {
    hide DecodeMutations, ValueMacs, PatchMac;
  }

  /** The verdict on a snapshot MAC. */
  ghost function Verdict(s: Suite, st: State, collection: string, key: Option<Bytes>, validate: bool, mac: Bytes)
    : Option<bool>
  {
    if !validate || key == None || mac == [] then None
    else Some(IsSnapshotMac(s, mac, st.hash, st.version, collection, s.expandKeys(key.value).snapshotMac))
  }

  lemma VerdictIs(s: Suite, st: State, collection: string, key: Option<Bytes>, validate: bool, mac: Bytes)
    requires CheckSnapshotMac(s, st, collection, key, validate, mac).Ok?
    ensures CheckSnapshotMac(s, st, collection, key, validate, mac).value
      == Verdict(s, st, collection, key, validate, mac)
  {
    hide IsSnapshotMac;
    if validate && key.Some? && mac != [] {
      SnapshotMacIs(s, mac, st.hash, st.version, collection, s.expandKeys(key.value).snapshotMac);
    }
  }

  /** A patch that is decoded has the verdict on the state it leads to; in a sync that state is kept with its news
      either way, and the sync stops exactly when the snapshot MAC is another one. */
  lemma PatchVerdict(s: Suite, keys: map<string, Bytes>, collection: string, settings: Settings, download: Download,
                     patch: Patch, p: Progress)
    requires !p.stopped && DecodePatch(s, keys, collection, settings, download, patch, p.state).Ok?
    ensures
      var d := DecodePatch(s, keys, collection, settings, download, patch, p.state).value;
      var verdict := Verdict(s, d.state, collection, Held(s, keys, patch.keyId), settings.validate, patch.snapshotMac);
      && d.snapshotMacValid == verdict
      && ApplyPatch(s, keys, collection, settings, download, patch, p)
         == Ok(Progress(d.state, p.news + d.news, verdict == Some(false)))
  {
    hide DecodeMutations, CheckSnapshotMac, Verdict, CheckPatchMac, AllMutations;
    var d := DecodePatch(s, keys, collection, settings, download, patch, p.state).value;
    VerdictIs(s, d.state, collection, Held(s, keys, patch.keyId), settings.validate, patch.snapshotMac);
  }

  /** A snapshot has the verdict on the state that its records build up. */
  lemma SnapshotVerdict(s: Suite, keys: map<string, Bytes>, collection: string, settings: Settings, snapshot: Snapshot)
    requires DecodeSnapshot(s, keys, collection, settings, snapshot).Ok?
    ensures
      var d := DecodeSnapshot(s, keys, collection, settings, snapshot).value;
      d.snapshotMacValid
      == Verdict(s, d.state, collection, Held(s, keys, snapshot.keyId), settings.validate, snapshot.mac)
  {
    hide DecodeMutations, CheckSnapshotMac, Verdict;
    var d := DecodeSnapshot(s, keys, collection, settings, snapshot).value;
    VerdictIs(s, d.state, collection, Held(s, keys, snapshot.keyId), settings.validate, snapshot.mac);
  }

  // ---- records ------------------------------------------------------------------------

  /** A record that is complete and whose key is held: with another value MAC than the HMAC it is passed over, as it
      is when it cannot be decrypted or parsed; with another index than the HMAC of the one inside it an exception is
      raised; else its index and its value MAC are mixed in. Without validation the two MACs are not looked at. */
  lemma RecordExact(s: Suite, ctx: Context, operation: int, record: Record, st: State)
    requires record.keyId.Some? && record.keyId.value != []
    requires |record.keyId.value| + 1 < 0x1_0000_0000_0000_0000
    requires record.value.Some? && |record.value.value| >= 32 && record.index.Some? && record.index.value != []
    requires Held(s, ctx.keys, record.keyId).Some?
    ensures
      var r := DecodeOne(s, ctx, Mutation(operation, Some(record)), st);
      var cut := |record.value.value| - 32;
      var encrypted, valueMac := record.value.value[..cut], record.value.value[cut..];
      var derived := s.expandKeys(Held(s, ctx.keys, record.keyId).value);
      var plain := s.decrypt(encrypted, derived.valueEncryption);
      var action := if plain.Some? then s.parseAction(plain.value) else None;
      if (ctx.validate && !IsContentMac(s, valueMac, operation, record.keyId.value, encrypted, derived.valueMac))
         || action == None
      then r == Ok((st, []))
      else if ctx.validate && s.hmac(action.value.index, derived.index) != record.index.value then r == Err(OtherError)
      else if ctx.emit && s.loads(action.value.index) == None then r == Err(OtherError)
      else
        var mixed := MixState(s, st, record.index.value, valueMac, operation);
        r == if mixed.Err? then Err(mixed.error)
             else Ok((mixed.value,
                      if ctx.emit
                      then [AppMutation(ctx.collection, s.loads(action.value.index).value, action.value.value,
                                        operation, s.base64(record.keyId.value), action.value)]
                      else []))
  {
    hide MixState, ContentMac, IsContentMac;
    var cut := |record.value.value| - 32;
    ContentMacIs(s, record.value.value[cut..], operation, record.keyId.value, record.value.value[..cut],
                 s.expandKeys(Held(s, ctx.keys, record.keyId).value).valueMac);
  }

  /** A record without an id, without an index or with a value below 32 bytes is passed over; a complete one whose key
      is not held ends the decoding. */
  lemma RecordSkipped(s: Suite, ctx: Context, operation: int, record: Record, st: State)
    ensures
      var complete := && record.keyId != None && record.keyId != Some([])
                      && record.value.Some? && |record.value.value| >= 32
                      && record.index != None && record.index != Some([]);
      var r := DecodeOne(s, ctx, Mutation(operation, Some(record)), st);
      && (!complete ==> r == Ok((st, [])))
      && (complete && Held(s, ctx.keys, record.keyId) == None ==> r == Err(MissingKey))
  {
  }

  // ---- the author ---------------------------------------------------------------------

  /** What the author writes: one mutation that holds the encrypted action with its MAC, under the MAC of its index,
      and the MACs of the patch and of the state it leads to. */
  lemma AuthorWrites(s: Suite, create: PatchCreate, keyId: string, st: State, keyData: Bytes, iv: InitVector)
    requires EncodePatch(s, create, keyId, st, keyData, iv).Ok?
    ensures
      var (patch, after) := EncodePatch(s, create, keyId, st, keyData, iv).value;
      var derived, index := s.expandKeys(keyData), s.dumps(create.index);
      var encrypted := s.encrypt(iv, s.writeAction(ActionData(index, create.action, create.apiVersion)),
                                 derived.valueEncryption);
      && s.unBase64(keyId).Some? && |patch.mutations| == 1
      && patch.mutations[0].record.Some? && patch.mutations[0].record.value.value.Some?
      && |patch.mutations[0].record.value.value.value| == |encrypted| + 32
      && var id, valueMac := s.unBase64(keyId).value, patch.mutations[0].record.value.value.value[|encrypted|..];
         && patch == Patch(None, [Mutation(create.operation, Some(Record(Some(id), Some(encrypted + valueMac),
                                                                         Some(s.hmac(index, derived.index)))))],
                           None, patch.snapshotMac, patch.patchMac, Some(id))
         && (|id| + 1 < 0x1_0000_0000_0000_0000 ==>
               IsContentMac(s, valueMac, create.operation, id, encrypted, derived.valueMac))
         && IsSnapshotMac(s, patch.snapshotMac, after.hash, after.version, create.patchType, derived.snapshotMac)
         && IsPatchMac(s, patch.patchMac, patch.snapshotMac, [valueMac], after.version, create.patchType,
                       derived.patchMac)
         && after.version == st.version + 1
         && after.indexValueMap == st.indexValueMap[s.base64(s.hmac(index, derived.index)) := valueMac]
  {
    hide IsContentMac, IsSnapshotMac, IsPatchMac, ContentMac, Join;
    var (patch, after) := EncodePatch(s, create, keyId, st, keyData, iv).value;
    var derived, id := s.expandKeys(keyData), s.unBase64(keyId).value;
    var (indexMac, encrypted, valueMac) := Sealed(s, create, id, derived, iv);
    assert (encrypted + valueMac)[|encrypted|..] == valueMac;
    if |id| + 1 < 0x1_0000_0000_0000_0000 {
      ContentMacIs(s, valueMac, create.operation, id, encrypted, derived.valueMac);
    }
    SnapshotMacIs(s, patch.snapshotMac, after.hash, after.version, create.patchType, derived.snapshotMac);
    PatchMacIs(s, patch.patchMac, patch.snapshotMac, [valueMac], after.version, create.patchType, derived.patchMac);
  }
}
