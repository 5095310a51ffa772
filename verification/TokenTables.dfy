/** The dictionary tables of the node codec and the reverse map that is built from them. */
module TokenTables {
  import opened Common

  /** `(None, index)` names a single-byte token, `(dict, index)` a double-byte one. */
  datatype Place = Place(dict: Option<nat>, index: nat)

  type TokenMap = map<string, Place>

  datatype Tables = Tables(single: seq<string>, double: seq<seq<string>>, tokenMap: TokenMap) {

    /** What the codec needs of the generated tables: every place has a byte of its own
        that no other tag uses, and the map is the one the loader builds. */
    ghost predicate Valid() {
      && |single| <= 236
      && (single == [] || single[0] == "")
      && |double| <= 4
      && (forall d :: 0 <= d < |double| ==> |double[d]| <= 256)
      && LastPlaces(single, double, tokenMap)
    }
  }

  /** `p` is a place of the tables, and `tok` stands there. */
  predicate StandsAt(single: seq<string>, double: seq<seq<string>>, tok: string, p: Place) {
    match p.dict
    case None => p.index < |single| && single[p.index] == tok
    case Some(d) => d < |double| && p.index < |double[d]| && double[d][p.index] == tok
  }

  /** `p` comes before `q` in the order in which the loader visits the tables. */
  predicate Before(p: Place, q: Place) {
    match (p.dict, q.dict)
    case (None, None) => p.index < q.index
    case (None, Some(_)) => true
    case (Some(_), None) => false
    case (Some(d), Some(e)) => d < e || (d == e && p.index < q.index)
  }

  /** Every non-empty token is mapped to the last place where it stands, and nothing else is mapped. */
  ghost predicate LastPlaces(single: seq<string>, double: seq<seq<string>>, m: TokenMap) {
    && (forall tok :: tok in m ==> tok != "" && StandsAt(single, double, tok, m[tok]))
    && (forall tok, p :: tok != "" && StandsAt(single, double, tok, p) ==>
                           tok in m && (p == m[tok] || Before(p, m[tok])))
  }

  /** The map is fixed by the tables. */
  lemma LastPlacesUnique(single: seq<string>, double: seq<seq<string>>, m: TokenMap, m': TokenMap)
    requires LastPlaces(single, double, m) && LastPlaces(single, double, m')
    ensures m == m'
  {
    forall tok | tok in m || tok in m'
      ensures tok in m && tok in m' && m[tok] == m'[tok]
    {
      assert tok in m ==> StandsAt(single, double, tok, m[tok]);
      assert tok in m' ==> StandsAt(single, double, tok, m'[tok]);
    }
  }

  /** What the loader has established when it is about to visit `here`. */
  ghost predicate LastPlacesBefore(single: seq<string>, double: seq<seq<string>>, m: TokenMap, here: Place) {
    && (forall tok :: tok in m ==> tok != "" && StandsAt(single, double, tok, m[tok]) && Before(m[tok], here))
    && (forall tok, p :: tok != "" && StandsAt(single, double, tok, p) && Before(p, here) ==>
                           tok in m && (p == m[tok] || Before(p, m[tok])))
  }

  /** Visiting one place. */
  lemma VisitPlace(single: seq<string>, double: seq<seq<string>>, m: TokenMap, tok: string, here: Place)
    requires LastPlacesBefore(single, double, m, here)
    requires StandsAt(single, double, tok, here)
    ensures LastPlacesBefore(single, double, if tok == "" then m else m[tok := here], here.(index := here.index + 1))
  {
    var next := here.(index := here.index + 1);
    var m' := if tok == "" then m else m[tok := here];
    forall t, p | t != "" && StandsAt(single, double, t, p) && Before(p, next)
      ensures t in m' && (p == m'[t] || Before(p, m'[t]))
    {
      assert p == here || Before(p, here);
    }
  }

  /** Moving on to a later row when the current one is exhausted. */
  lemma NextRow(single: seq<string>, double: seq<seq<string>>, m: TokenMap, here: Place, next: Place)
    requires LastPlacesBefore(single, double, m, here)
    requires Before(here, next)
    requires forall tok, p :: StandsAt(single, double, tok, p) && Before(p, next) ==> Before(p, here)
    ensures LastPlacesBefore(single, double, m, next)
  {
  }

  /** The two enumerating loops of the loader: later places overwrite earlier ones. */
  method LoadTokens(single: seq<string>, double: seq<seq<string>>) returns (m: TokenMap)
    ensures LastPlaces(single, double, m)
  {
    m := map[];
    for i := 0 to |single|
      invariant LastPlacesBefore(single, double, m, Place(None, i))
    {
      VisitPlace(single, double, m, single[i], Place(None, i));
      if single[i] != "" {
        m := m[single[i] := Place(None, i)];
      }
    }
    NextRow(single, double, m, Place(None, |single|), Place(Some(0), 0));
    for d := 0 to |double|
      invariant LastPlacesBefore(single, double, m, Place(Some(d), 0))
    {
      m := LoadRow(single, double, d, m);
    }
    Finished(single, double, m);
  }

  /** The inner loop over one double-byte dictionary. */
  method LoadRow(single: seq<string>, double: seq<seq<string>>, d: nat, start: TokenMap) returns (m: TokenMap)
    requires d < |double|
    requires LastPlacesBefore(single, double, start, Place(Some(d), 0))
    ensures LastPlacesBefore(single, double, m, Place(Some(d + 1), 0))
  {
    m := start;
    for i := 0 to |double[d]|
      invariant LastPlacesBefore(single, double, m, Place(Some(d), i))
    {
      VisitPlace(single, double, m, double[d][i], Place(Some(d), i));
      if double[d][i] != "" {
        m := m[double[d][i] := Place(Some(d), i)];
      }
    }
    NextRow(single, double, m, Place(Some(d), |double[d]|), Place(Some(d + 1), 0));
  }

  lemma Finished(single: seq<string>, double: seq<seq<string>>, m: TokenMap)
    requires LastPlacesBefore(single, double, m, Place(Some(|double|), 0))
    ensures LastPlaces(single, double, m)
  {
  }
}
