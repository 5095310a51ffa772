/** The stored states over any run of syncs, patches of one's own and newly shared keys. */
module AppStateRoutes {
  import opened Common
  import opened LtHash
  import opened AppState
  import opened AppStateSync
  import opened AppStateReplication

  /** What the credentials hold of the app state. */
  datatype Book = Book(keys: map<string, Bytes>, versions: map<string, Stored>)

  /** A sync with its snapshot and patches; a patch of one's own, kept when the server accepts it; or a
      key that is shared. */
  datatype Move =
    | SyncMove(sync: Sync, settings: Settings, download: Download)
    | WriteMove(create: PatchCreate, keyId: string, iv: InitVector, accepted: bool)
    | KeyMove(id: string, data: Bytes)

  function MoveOn(s: Suite, book: Book, move: Move): Book {
    match move
    case SyncMove(sync, settings, download) =>
      (match ApplySync(s, book.keys, settings, download, sync, StoredFor(book.versions, sync.collection))
       case Err(_) => book
       case Ok(p) => book.(versions := book.versions[sync.collection := ToJson(s, p.state)]))
    case WriteMove(create, keyId, iv, accepted) =>
      (match WritePatch(s, book.keys, book.versions, create, keyId, iv)
       case Err(_) => book
       case Ok((_, versions)) => if accepted then book.(versions := versions) else book)
    case KeyMove(id, data) => book.(keys := book.keys[id := data])
  }

  function Route(s: Suite, book: Book, moves: seq<Move>): Book {
    if moves == [] then book else MoveOn(s, Route(s, book, moves[..|moves| - 1]), moves[|moves| - 1])
  }

  /** Writing a patch keeps every stored state consistent, whatever its operation. */
  lemma WriteConsistent(s: Suite, keys: map<string, Bytes>, versions: map<string, Stored>, create: PatchCreate,
                        keyId: string, iv: InitVector)
    requires s.Lawful() && AllConsistent(s, versions) && WritePatch(s, keys, versions, create, keyId, iv).Ok?
    ensures AllConsistent(s, WritePatch(s, keys, versions, create, keyId, iv).value.1)
  {
    hide FromJson, ToJson, HashOf, AuthorState, SnapshotMac, PatchMac, Sealed;
    var initial := FromJson(s, StoredFor(versions, create.patchType)).value;
    if create.patchType !in versions {
      NothingStored(s);
    }
    var keyData := KeyData(keys, keyId).value;
    var (indexMac, _, valueMac) := Sealed(s, create, s.unBase64(keyId).value, s.expandKeys(keyData), iv);
    AuthorConsistent(s, initial, indexMac, valueMac);
    var st := EncodePatch(s, create, keyId, initial, keyData, iv).value.1;
    HashLength(s, st);
    JsonRoundTrip(s, st);
  }

  /** Every state stored by any run is consistent. */
  lemma {:induction false} RouteConsistent(s: Suite, book: Book, moves: seq<Move>)
    requires s.Lawful() && AllConsistent(s, book.versions)
    ensures AllConsistent(s, Route(s, book, moves).versions)
  {
    hide AllConsistent, ApplySync, WritePatch, ToJson;
    if moves != [] {
      var before, last := Route(s, book, moves[..|moves| - 1]), moves[|moves| - 1];
      RouteConsistent(s, book, moves[..|moves| - 1]);
      match last
      case SyncMove(sync, settings, download) =>
        if ApplySync(s, before.keys, settings, download, sync, StoredFor(before.versions, sync.collection)).Ok? {
          SyncConsistent(s, before.keys, settings, download, sync, before.versions);
        }
      case WriteMove(create, keyId, iv, _) =>
        if WritePatch(s, before.keys, before.versions, create, keyId, iv).Ok? {
          WriteConsistent(s, before.keys, before.versions, create, keyId, iv);
        }
      case KeyMove(_, _) =>
    }
  }

  /** Two routes from consistent books, by any snapshots, patches, overwrites and removals, whose stored
      states of a collection have the same index map, have the same hash of it. */
  lemma RoutesAgree(s: Suite, a: Book, movesA: seq<Move>, b: Book, movesB: seq<Move>, c: string, d: string)
    requires s.Lawful() && AllConsistent(s, a.versions) && AllConsistent(s, b.versions)
    requires c in Route(s, a, movesA).versions && d in Route(s, b, movesB).versions
    ensures
      var x, y := FromJson(s, Some(Route(s, a, movesA).versions[c])),
          FromJson(s, Some(Route(s, b, movesB).versions[d]));
      && x.Ok? && y.Ok?
      && (x.value.indexValueMap == y.value.indexValueMap ==> x.value.hash == y.value.hash)
  {
    hide Route, HashOf, FromJson;
    RouteConsistent(s, a, movesA);
    RouteConsistent(s, b, movesB);
    var x, y := FromJson(s, Some(Route(s, a, movesA).versions[c])), FromJson(s, Some(Route(s, b, movesB).versions[d]));
    if x.value.indexValueMap == y.value.indexValueMap {
      HashDetermined(s.hasher, x.value.hash, y.value.hash, x.value.indexValueMap);
    }
  }
}
