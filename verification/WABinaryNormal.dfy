/** Which strings and nodes the codec leaves as they are. */
module WABinaryNormal {
  import opened Common
  import opened Text
  import opened TokenTables
  import opened WABinary
  import opened WABinaryEncoder
  import opened WABinaryDecoder
  import opened WABinaryRoundTrip

  /** An address is cut at its first `@`. */
  lemma AtCut(v: string)
    requires '@' in v
    ensures v == UserPart(v) + "@" + ServerPart(v) && '@' !in UserPart(v)
  {
  }

  lemma AtJoin(user: string, server: string)
    requires '@' !in user
    ensures UserPart(user + "@" + server) == user && ServerPart(user + "@" + server) == server
  {
    var v := user + "@" + server;
    FindAt(user, '@', server);
    assert v[..|user|] == user && v[|user| + 1..] == server;
  }

  predicate DomainName(server: string) {
    server == "lid" || server == "hosted" || server == "hosted.lid" || server == "s.whatsapp.net"
  }

  /** The form in which an address with a device comes back: no agent, no device 0, no
      padding of the device, and a server that stands for its domain type. */
  predicate CanonicalAdJid(v: string, device: int)
    requires '@' in v
  {
    var left := UserPart(v);
    && '_' !in left
    && 0 < device
    && left[Find(left, ':')..] == ":" + Decimal(device)
    && DomainName(ServerPart(v))
  }

  predicate Canonical(c: Codec, v: string)
    decreases |v|
  {
    match Classify(c, v)
    case AdJidForm(_, device, _) => '@' in v && CanonicalAdJid(v, device)
    case JidPairForm(_, server) => Canonical(c, server)
    case _ => true
  }

  /** What the classification of an address with a device says about its text. */
  lemma AdJidShape(c: Codec, v: string)
    requires Classify(c, v).AdJidForm?
    ensures '@' in v
    ensures var left := UserPart(v);
            var AdJidForm(user, device, domainType) := Classify(c, v);
            var agent := left[..Find(left, ':')];
            && ':' in left
            && user == agent[..Find(agent, '_')]
            && '@' !in user && ':' !in user && '_' !in user
            && c.host.ParseInt(left[Find(left, ':') + 1..]) == Some(device)
            && ('_' !in left && DomainName(ServerPart(v)) ==> DomainServer(domainType) == ServerPart(v))
  {
  }

  lemma NumeralFree(n: nat)
    ensures '@' !in Decimal(n) && ':' !in Decimal(n) && '_' !in Decimal(n)
  {
  }

  lemma ParseDecimal(h: Host, n: nat)
    requires n < 1000
    ensures h.ParseInt(Decimal(n)) == Some(n)
  {
  }

  lemma JoinHasServer(user: string, server: string)
    requires user != "" && user[0] != '@' && server != ""
    ensures HasServer(user + "@" + server) <==> server[|server| - 1] != '@'
  {
    var v := user + "@" + server;
    assert v[|user|] == '@' && v[0] == user[0] && v[|v| - 1] == server[|server| - 1];
  }

  lemma PlainParts(h: Host, user: string, device: nat, server: string)
    requires ':' !in user && '_' !in user && device < 256
    requires DomainName(server)
    ensures var r := SplitParts(h, user + ":" + Decimal(device), server);
            && r.Ok? && r.value.user == user && r.value.server == server && r.value.device == Some(device)
            && DomainServer(r.value.domainType) == server
  {
    hide Host.ParseInt, Find, Decimal;
    var left := user + ":" + Decimal(device);
    FindAt(user, ':', Decimal(device));
    ParseDecimal(h, device);
    assert left[..|user|] == user && left[|user| + 1..] == Decimal(device);
    assert Find(user, '_') == |user|;
  }

  /** Text with an `@` is never packed. */
  lemma AtForm(c: Codec, v: string)
    requires '@' in v && v !in c.tables.tokenMap
    ensures Classify(c, v) == (match SplitFullJid(c.host, v)
                               case Err(e) => NoForm(e)
                               case Ok(None) => PlainForm
                               case Ok(Some(full)) =>
                                 if full.device.Some? then AdJidForm(full.user, full.device.value, full.domainType)
                                 else JidPairForm(UserPart(v), full.server))
  {
    hide SplitFullJid;
    assert !IsNibble(c.host, v) && !IsHex(c.host, v);
  }

  lemma DeviceText(user: string, device: nat, domainType: int)
    requires device > 0
    ensures AdJidText(user, device, domainType) == user + ":" + Decimal(device) + "@" + DomainServer(domainType)
  {
    hide Decimal, DomainServer;
  }

  /** The text printed for an AD-JID with a device is classified as that AD-JID again. */
  lemma AdJidTextForm(c: Codec, user: string, device: nat, domainType: int)
    requires '@' !in user && ':' !in user && '_' !in user
    requires 0 < device < 256
    requires AdJidText(user, device, domainType) !in c.tables.tokenMap
    ensures var f := Classify(c, AdJidText(user, device, domainType));
            && f.AdJidForm? && f.user == user && f.device == device
            && DomainServer(f.domainType) == DomainServer(domainType)
  {
    hide Classify, SplitParts, Find, Decimal, HasServer, UserPart, ServerPart, AdJidText;
    var server := DomainServer(domainType);
    var left := user + ":" + Decimal(device);
    DeviceText(user, device, domainType);
    NumeralFree(device);
    PlainParts(c.host, user, device, server);
    AtJoin(left, server);
    JoinHasServer(left, server);
    AtForm(c, left + "@" + server);
  }

  /** An address without a device whose device 0 was dropped, or whose server was normalised. */
  lemma PairTextForm(c: Codec, user: string, server: string)
    requires '@' !in user && ':' !in user && server != ""
    requires user + "@" + server !in c.tables.tokenMap
    ensures var f := Classify(c, user + "@" + server);
            if user == "" || server[|server| - 1] == '@' then f == PlainForm
            else if DomainType(c.host, user, server).Some? then f == JidPairForm(user, server)
            else f.NoForm?
  {
    hide Classify, DomainType, DomainName;
    var v := user + "@" + server;
    AtJoin(user, server);
    AtForm(c, v);
    if user == "" {
      assert v[0] == '@';
    } else {
      JoinHasServer(user, server);
      assert Find(user, ':') == |user| && user[..|user|] == user;
    }
  }

  lemma NormToken(c: Codec, v: string)
    requires v in c.tables.tokenMap
    ensures Norm(c, v) == v
  {
  }

  lemma NormAdJid(c: Codec, v: string)
    requires Classify(c, v).AdJidForm? && 0 <= Classify(c, v).device < 256
    ensures Norm(c, Norm(c, v)) == Norm(c, v)
  {
    hide Classify, AdJidText, Host.ParseInt;
    AdJidShape(c, v);
    var AdJidForm(user, device, domainType) := Classify(c, v);
    PlainUser(c, user);
    NormAdJidText(c, user, device, domainType);
  }

  lemma NormAdJidText(c: Codec, user: string, device: nat, domainType: int)
    requires '@' !in user && ':' !in user && '_' !in user
    requires device < 256
    ensures Norm(c, AdJidText(user, device, domainType)) == AdJidText(user, device, domainType)
  {
    hide Classify, DomainType, AdJidText;
    var w := AdJidText(user, device, domainType);
    PlainUser(c, user);
    if w in c.tables.tokenMap {
      NormToken(c, w);
    } else if device > 0 {
      AdJidTextForm(c, user, device, domainType);
      SameDomain(user, device, Classify(c, w).domainType, domainType);
    } else {
      var server := DomainServer(domainType);
      ZeroDevice(user, domainType);
      PairTextForm(c, user, server);
      PlainUser(c, server);
      NoAgent(c.host, user, server);
    }
  }

  lemma SameDomain(user: string, device: nat, domainType: int, other: int)
    requires DomainServer(domainType) == DomainServer(other)
    ensures AdJidText(user, device, domainType) == AdJidText(user, device, other)
  {
  }

  lemma ZeroDevice(user: string, domainType: int)
    ensures AdJidText(user, 0, domainType) == user + "@" + DomainServer(domainType)
  {
    assert AdJidText(user, 0, domainType) == user + ("" + "@" + DomainServer(domainType));
  }

  lemma NoAgent(h: Host, user: string, server: string)
    requires '_' !in user
    ensures DomainType(h, user, server).Some?
  {
  }

  /** What the classification of an address without a device says about its text. */
  lemma PairShape(c: Codec, v: string)
    requires Classify(c, v).JidPairForm?
    ensures var JidPairForm(user, server) := Classify(c, v);
            && v == user + "@" + server
            && user != "" && server != "" && '@' !in user && ':' !in user
            && DomainType(c.host, user, server).Some?
  {
    hide Find, IsNibble, IsHex, DomainType, Host.ParseInt;
    if '@' !in v {
      PlainUser(c, v);
    }
    AtCut(v);
    var combined := UserPart(v);
    assert Find(combined, ':') == |combined|;
    assert combined[..|combined|] == combined;
  }

  /** A server that normalisation changes is not one of the special ones, before or after. */
  lemma ServerDomain(c: Codec, user: string, server: string)
    requires DomainType(c.host, user, server).Some?
    ensures DomainType(c.host, user, Norm(c, server)).Some?
  {
    hide Norm, Find, Host.ParseInt;
    if '@' !in server {
      PlainUser(c, server);
    } else {
      NormKeepsAt(c, server);
    }
  }

  lemma NormKeepsAt(c: Codec, v: string)
    requires '@' in v
    ensures '@' in Norm(c, v)
  {
    hide Classify, Decimal, DomainServer;
    match Classify(c, v)
    case AdJidForm(user, device, domainType) =>
      if device >= 0 {
        var head := Norm(c, user) + (if device != 0 then ":" + Decimal(device) else "");
        assert Norm(c, v) == head + "@" + DomainServer(domainType);
      }
    case _ =>
  }

  lemma NormPair(c: Codec, v: string)
    requires Classify(c, v).JidPairForm?
    requires var server := Classify(c, v).server;
             Norm(c, Norm(c, server)) == Norm(c, server) && Norm(c, server) != ""
    ensures Norm(c, Norm(c, v)) == Norm(c, v) && Norm(c, v) != ""
  {
    PairShape(c, v);
    var JidPairForm(user, server) := Classify(c, v);
    hide SplitFullJid, SplitParts, Find, IsNibble, IsHex, DomainType;
    PlainUser(c, user);
    ServerDomain(c, user, server);
    var w := user + "@" + Norm(c, server);
    if w in c.tables.tokenMap {
      NormToken(c, w);
    } else {
      PairTextForm(c, user, Norm(c, server));
    }
  }

  /** Normalising twice is normalising once, at any depth of nested addresses. */
  lemma {:induction false} NormIdempotent(c: Codec, v: string)
    requires StringBytes(c, v).Ok?
    ensures Norm(c, Norm(c, v)) == Norm(c, v)
    ensures v != "" ==> Norm(c, v) != ""
    decreases |v|
  {
    hide SplitFullJid, SplitParts, Find, IsNibble, IsHex, Token, Packed, Blob;
    match Classify(c, v)
    case AdJidForm(user, device, domainType) => NormAdJid(c, v);
    case JidPairForm(user, server) =>
      PairShape(c, v);
      NormIdempotent(c, server);
      NormPair(c, v);
    case _ =>
  }

  lemma CanonicalAdJidForm(c: Codec, v: string)
    requires Classify(c, v).AdJidForm? && 0 <= Classify(c, v).device < 256
    ensures Norm(c, v) == v <==> Canonical(c, v)
  {
    hide Classify, AdJidText, Host.ParseInt, Find, Decimal, CanonicalAdJid, DomainServer, DomainName;
    AdJidShape(c, v);
    var AdJidForm(user, device, domainType) := Classify(c, v);
    var left, server := UserPart(v), ServerPart(v);
    var cut := Find(left, ':');
    var agent, raw := left[..cut], left[cut + 1..];
    AtCut(v);
    PlainUser(c, user);
    CanonicalParts(v, device);
    PrintedParts(agent, raw, server, user, device, domainType);
    IsDomainName(domainType);
  }

  lemma IsDomainName(domainType: int)
    ensures DomainName(DomainServer(domainType))
  {
  }

  lemma CanonicalParts(v: string, device: nat)
    requires '@' in v && ':' in UserPart(v)
    ensures var left := UserPart(v);
            var cut := Find(left, ':');
            var agent, raw := left[..cut], left[cut + 1..];
            && left == agent + ":" + raw
            && (CanonicalAdJid(v, device) <==>
                '_' !in agent && 0 < device && raw == Decimal(device) && DomainName(ServerPart(v)))
            && (CanonicalAdJid(v, device) ==> '_' !in left)
  {
    hide Find, Decimal, DomainName;
    NumeralFree(device);
    var left := UserPart(v);
    var cut := Find(left, ':');
    var agent, raw := left[..cut], left[cut + 1..];
    assert left == agent + ":" + raw && left[cut..] == ":" + raw;
    CancelHead(":", raw, Decimal(device));
    assert '_' !in left <==> '_' !in agent && '_' !in raw;
  }

  lemma CancelHead(head: string, a: string, b: string)
    ensures head + a == head + b ==> a == b
  {
    if head + a == head + b {
      assert a == (head + a)[|head|..] && b == (head + b)[|head|..];
    }
  }

  /** An address with a device is the text printed for it exactly when each part is. */
  lemma PrintedParts(agent: string, raw: string, server: string, user: string, device: nat, domainType: int)
    requires '@' !in agent && '@' !in raw && ':' !in agent
    requires user == agent[..Find(agent, '_')]
    ensures agent + ":" + raw + "@" + server == AdJidText(user, device, domainType) <==>
            '_' !in agent && 0 < device && raw == Decimal(device) && server == DomainServer(domainType)
  {
    hide Find, Decimal, DomainServer;
    if agent + ":" + raw + "@" + server == AdJidText(user, device, domainType) {
      PartsOfPrinted(agent, raw, server, user, device, domainType);
    }
    if '_' !in agent && 0 < device && raw == Decimal(device) && server == DomainServer(domainType) {
      assert user == agent;
      assert agent + ":" + raw + "@" + server == agent + (":" + raw + "@" + server);
    }
  }

  lemma PartsOfPrinted(agent: string, raw: string, server: string, user: string, device: nat, domainType: int)
    requires '@' !in agent && '@' !in raw && ':' !in agent
    requires user == agent[..Find(agent, '_')]
    requires agent + ":" + raw + "@" + server == AdJidText(user, device, domainType)
    ensures '_' !in agent && 0 < device && raw == Decimal(device) && server == DomainServer(domainType)
  {
    hide Find, Decimal, DomainServer;
    NumeralFree(device);
    var left := agent + ":" + raw;
    var tail := if device != 0 then ":" + Decimal(device) else "";
    assert AdJidText(user, device, domainType) == user + tail + "@" + DomainServer(domainType);
    CutUnique(left, server, '@', user + tail, DomainServer(domainType));
    DeviceOfPrinted(agent, raw, user, device);
  }

  lemma DeviceOfPrinted(agent: string, raw: string, user: string, device: nat)
    requires ':' !in agent && user <= agent
    requires agent + ":" + raw == user + (if device != 0 then ":" + Decimal(device) else "")
    ensures 0 < device && user == agent && raw == Decimal(device)
  {
    hide Decimal;
    if device != 0 {
      assert user + (":" + Decimal(device)) == user + ":" + Decimal(device);
      CutUnique(agent, raw, ':', user, Decimal(device));
    }
  }

  /** A string that is encoded comes back unchanged by normalisation exactly when every
      address with a device in it, at any depth, is canonical. */
  lemma {:induction false} NormIdentity(c: Codec, v: string)
    requires StringBytes(c, v).Ok?
    ensures Norm(c, v) == v <==> Canonical(c, v)
    decreases |v|
  {
    hide SplitFullJid, SplitParts, Find, IsNibble, IsHex, Token, Packed, Blob;
    match Classify(c, v)
    case AdJidForm(user, device, domainType) => CanonicalAdJidForm(c, v);
    case JidPairForm(user, server) =>
      PairShape(c, v);
      PlainUser(c, user);
      NormIdentity(c, server);
      if Norm(c, v) == v {
        CutUnique(user, Norm(c, server), '@', user, server);
      }
    case _ =>
  }

  // ---- nodes --------------------------------------------------------------------------

  predicate DistinctKeys(attrs: seq<Attr>) {
    forall i, j :: 0 <= i < j < |attrs| ==> attrs[i].key != attrs[j].key
  }

  predicate CanonicalAttr(c: Codec, attr: Attr) {
    attr.value.Some? && Canonical(c, attr.key) && Canonical(c, attr.value.value)
  }

  predicate CanonicalAttrs(c: Codec, attrs: seq<Attr>) {
    DistinctKeys(attrs) && forall i :: 0 <= i < |attrs| ==> CanonicalAttr(c, attrs[i])
  }

  predicate CanonicalContent(c: Codec, content: Content) {
    match content
    case Text(text) => !Classify(c, text).PlainForm? && Canonical(c, text)
    case Children(nodes) => forall i :: 0 <= i < |nodes| ==> CanonicalNode(c, nodes[i])
    case _ => true
  }

  /** No attribute without a value, no repeated key, no text that is written as plain
      bytes, and every string canonical, at every level. */
  predicate CanonicalNode(c: Codec, node: Node) {
    Canonical(c, node.tag) && CanonicalAttrs(c, node.attrs) && CanonicalContent(c, node.content)
  }

  ghost predicate HasKey(attrs: seq<Attr>, key: string) {
    exists i :: 0 <= i < |attrs| && attrs[i].key == key
  }

  lemma {:induction false} DictSetGrows(attrs: seq<Attr>, key: string, value: string)
    ensures if HasKey(attrs, key) then |DictSet(attrs, key, value)| == |attrs|
            else DictSet(attrs, key, value) == attrs + [Attr(key, Some(value))]
  {
    if attrs != [] && attrs[0].key != key {
      DictSetGrows(attrs[1..], key, value);
      assert HasKey(attrs, key) <==> HasKey(attrs[1..], key) by {
        if i :| 0 <= i < |attrs| && attrs[i].key == key { assert attrs[1..][i - 1].key == key; }
      }
    }
  }

  lemma {:induction false} NormAttrsShort(c: Codec, attrs: seq<Attr>, n: nat)
    requires n <= |attrs|
    ensures |NormAttrs(c, attrs, n)| <= n
  {
    hide Norm;
    if n > 0 {
      NormAttrsShort(c, attrs, n - 1);
      DictSetGrows(NormAttrs(c, attrs, n - 1), Norm(c, attrs[n - 1].key), NormValue(c, attrs[n - 1].value));
    }
  }

  ghost predicate KeptAttr(c: Codec, attr: Attr) {
    attr.value.Some? && Norm(c, attr.key) == attr.key && Norm(c, attr.value.value) == attr.value.value
  }

  lemma {:induction false} NormAttrsIdentity(c: Codec, attrs: seq<Attr>, n: nat)
    requires n <= |attrs|
    ensures NormAttrs(c, attrs, n) == attrs[..n] <==>
            DistinctKeys(attrs[..n]) && forall i :: 0 <= i < n ==> KeptAttr(c, attrs[i])
  {
    hide Norm, HasKey, DistinctKeys, DictSet;
    NoKeys(attrs);
    if n > 0 {
      var Attr(key, value) := attrs[n - 1];
      var front := NormAttrs(c, attrs, n - 1);
      NormAttrsIdentity(c, attrs, n - 1);
      NormAttrsShort(c, attrs, n - 1);
      DictSetGrows(front, Norm(c, key), NormValue(c, value));
      assert attrs[..n] == attrs[..n - 1] + [attrs[n - 1]];
      OneMoreKey(attrs, n);
      if NormAttrs(c, attrs, n) == attrs[..n] {
        assert front == NormAttrs(c, attrs, n)[..n - 1];
      }
    }
  }

  lemma NoKeys(attrs: seq<Attr>)
    ensures attrs[..0] == [] && DistinctKeys(attrs[..0])
  {
  }

  lemma OneMoreKey(attrs: seq<Attr>, n: nat)
    requires 0 < n <= |attrs|
    ensures DistinctKeys(attrs[..n]) <==> DistinctKeys(attrs[..n - 1]) && !HasKey(attrs[..n - 1], attrs[n - 1].key)
  {
    var front := attrs[..n - 1];
    assert forall i :: 0 <= i < n - 1 ==> front[i] == attrs[..n][i];
  }

  lemma {:induction false} PresentAll(attrs: seq<Attr>)
    requires forall i :: 0 <= i < |attrs| ==> attrs[i].value.Some?
    ensures Present(attrs) == attrs
  {
    if attrs != [] {
      PresentAll(attrs[1..]);
    }
  }

  lemma {:induction false} NormAttrsPresent(c: Codec, attrs: seq<Attr>, n: nat)
    requires n <= |attrs|
    ensures forall i :: 0 <= i < |NormAttrs(c, attrs, n)| ==> NormAttrs(c, attrs, n)[i].value.Some?
  {
    hide Norm;
    if n > 0 {
      NormAttrsPresent(c, attrs, n - 1);
      DictSetPresent(NormAttrs(c, attrs, n - 1), Norm(c, attrs[n - 1].key), NormValue(c, attrs[n - 1].value));
    }
  }

  lemma {:induction false} DictSetPresent(attrs: seq<Attr>, key: string, value: string)
    requires forall i :: 0 <= i < |attrs| ==> attrs[i].value.Some?
    ensures forall i :: 0 <= i < |DictSet(attrs, key, value)| ==> DictSet(attrs, key, value)[i].value.Some?
  {
    if attrs != [] && attrs[0].key != key {
      DictSetPresent(attrs[1..], key, value);
    }
  }

  lemma {:induction false} AttrsOk(c: Codec, attrs: seq<Attr>, n: nat)
    requires n <= |attrs| && AttrsBytes(c, attrs, n).Ok?
    ensures forall i :: 0 <= i < n ==> AttrBytes(c, attrs[i]).Ok?
  {
    hide AttrBytes;
    if n > 0 {
      AttrsOk(c, attrs, n - 1);
    }
  }

  lemma {:induction false} NodesOk(c: Codec, nodes: seq<Node>, n: nat)
    requires n <= |nodes| && NodesBytes(c, nodes, n).Ok?
    ensures forall i :: 0 <= i < n ==> NodeBytes(c, nodes[i]).Ok?
  {
    hide NodeBytes;
    if n > 0 {
      NodesOk(c, nodes, n - 1);
    }
  }

  lemma AttrIdentity(c: Codec, attr: Attr)
    requires AttrBytes(c, attr).Ok?
    ensures KeptAttr(c, attr) <==> CanonicalAttr(c, attr)
  {
    hide StringBytes, Norm, Canonical;
    NormIdentity(c, attr.key);
    if attr.value.Some? {
      NormIdentity(c, attr.value.value);
    }
  }

  lemma AttrsIdentity(c: Codec, attrs: seq<Attr>)
    requires AttrsBytes(c, Present(attrs), |Present(attrs)|).Ok?
    ensures NormAttrs(c, Present(attrs), |Present(attrs)|) == attrs <==> CanonicalAttrs(c, attrs)
  {
    hide KeptAttr, AttrBytes, NormAttrs, Norm, Canonical;
    var present := Present(attrs);
    if forall i :: 0 <= i < |attrs| ==> attrs[i].value.Some? {
      PresentAll(attrs);
      NormAttrsIdentity(c, attrs, |attrs|);
      AttrsOk(c, attrs, |attrs|);
      assert attrs[..|attrs|] == attrs;
      forall i | 0 <= i < |attrs|
        ensures KeptAttr(c, attrs[i]) <==> CanonicalAttr(c, attrs[i])
      {
        AttrIdentity(c, attrs[i]);
      }
    } else {
      NormAttrsPresent(c, present, |present|);
    }
  }

  lemma {:induction false} NodesIdentity(c: Codec, nodes: seq<Node>, n: nat)
    requires n <= |nodes| && NodesBytes(c, nodes, n).Ok?
    ensures NormNodes(c, nodes, n) == nodes[..n] <==> forall i :: 0 <= i < n ==> CanonicalNode(c, nodes[i])
    decreases nodes, n
  {
    hide NodeBytes, NormNode, CanonicalNode;
    if n > 0 {
      NodesIdentity(c, nodes, n - 1);
      NodeIdentity(c, nodes[n - 1]);
      assert nodes[..n] == nodes[..n - 1] + [nodes[n - 1]];
      var front := NormNodes(c, nodes, n - 1);
      assert NormNodes(c, nodes, n)[..n - 1] == front && NormNodes(c, nodes, n)[n - 1] == NormNode(c, nodes[n - 1]);
    }
  }

  lemma {:induction false} ContentIdentity(c: Codec, content: Content)
    requires ContentBytes(c, content).Ok?
    ensures NormContent(c, content) == content <==> CanonicalContent(c, content)
    decreases content, 1
  {
    hide NormNodes, NodesBytes, CanonicalNode, StringBytes, Norm, Canonical, Classify;
    match content
    case Text(text) => NormIdentity(c, text);
    case Children(nodes) =>
      NodesIdentity(c, nodes, |nodes|);
      assert nodes[..|nodes|] == nodes;
    case _ =>
  }

  /** Normalisation leaves an encoded node as it is exactly when the node is canonical. */
  lemma {:induction false} NodeIdentity(c: Codec, node: Node)
    requires NodeBytes(c, node).Ok?
    ensures NormNode(c, node) == node <==> CanonicalNode(c, node)
    decreases node, 1
  {
    hide StringBytes, AttrsBytes, ContentBytes, NormAttrs, NormContent, Norm, Canonical, CanonicalAttrs,
        CanonicalContent;
    NormIdentity(c, node.tag);
    AttrsIdentity(c, node.attrs);
    ContentIdentity(c, node.content);
  }

  /** A clean canonical node comes back from its encoding unchanged. */
  lemma CanonicalRoundTrip(c: Codec, node: Node, suffix: Bytes)
    requires c.Valid() && NodeBytes(c, node).Ok? && CleanNode(c, node) && CanonicalNode(c, node)
    ensures ReadNode(c, NodeBytes(c, node).value + suffix) == Ok((node, suffix))
  {
    hide NodeBytes, ReadNode, NormNode, CleanNode, CanonicalNode;
    NodeRoundTrip(c, node, suffix);
    NodeIdentity(c, node);
  }

  // ---- where the codec loses a string -------------------------------------------------

  /** `"1\u00b2"` is all digits for Python: it is packed to the byte 0x92 and read back as `"92"`. */
  lemma SuperscriptDigit(c: Codec, suffix: Bytes)
    requires c.Valid() && c.host.wideDigit('\U{B2}') && "1\U{B2}" !in c.tables.tokenMap
    ensures StringBytes(c, "1\U{B2}") == Ok([NIBBLE_8, 1, 0x92])
    ensures ReadTagged(c, [NIBBLE_8, 1, 0x92] + suffix) == Ok(("92", suffix))
  {
    hide StringBytes, ReadTagged;
    SuperscriptWritten(c);
    SuperscriptRead(suffix);
    ReadTaggedFrom(c, [NIBBLE_8, 1, 0x92], suffix);
  }

  lemma SuperscriptWritten(c: Codec)
    requires c.Valid() && c.host.wideDigit('\U{B2}') && "1\U{B2}" !in c.tables.tokenMap
    ensures StringBytes(c, "1\U{B2}") == Ok([NIBBLE_8, 1, 0x92])
  {
    var v := "1\U{B2}";
    assert IsNibble(c.host, v);
    SuperscriptByte(c.host);
    hide PackedByte, Host.IsDigit, IsNibble, IsHex, SplitFullJid;
    assert PairsBytes(c.host, NIBBLE_8, v, 0) == Ok([]);
    assert PairsBytes(c.host, NIBBLE_8, v, 1).value == [0x92];
    assert Packed(c.host, NIBBLE_8, v).value == [NIBBLE_8, 1, 0x92];
  }

  lemma SuperscriptByte(h: Host)
    requires h.wideDigit('\U{B2}')
    ensures PackedByte(h, NIBBLE_8, '1', '\U{B2}') == Ok([0x92])
  {
    SuperscriptBits();
    hide BitOr;
  }

  lemma SuperscriptBits()
    ensures BitOr(16, 0x82) == 0x92
  {
    assert BitOr(1, 8) == 9;
    assert BitOr(2, 16) == 18;
    assert BitOr(4, 32) == 36;
    assert BitOr(8, 65) == 73;
  }

  lemma SuperscriptRead(suffix: Bytes)
    ensures ReadPacked(NIBBLE_8, [NIBBLE_8, 1, 0x92][1..] + suffix) == Ok(("92", suffix))
  {
    var d := [NIBBLE_8, 1, 0x92][1..] + suffix;
    assert d[0] == 1 && d[1..][0] == 0x92 && d[1..][1..] == suffix;
    assert ReadPairs(NIBBLE_8, 0, d[1..]) == Ok(("", d[1..]));
    assert UnpackByte(NIBBLE_8, 0x92) == Ok("92");
    assert "" + "92" == "92";
    assert ReadPairs(NIBBLE_8, 1, d[1..]) == Ok(("92", suffix));
  }
}
