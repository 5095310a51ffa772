/** When normalising a second time changes anything. */
module WABinaryTwice {
  import opened Common
  import opened Text
  import opened WABinary
  import opened WABinaryEncoder
  import opened WABinaryRoundTrip
  import opened WABinaryNormal

  /** An address with device 0 and an empty user, whose printed text is no token: it is not plain
      text, but what is printed for it is. */
  predicate Unsettled(c: Codec, text: string) {
    var f := Classify(c, text);
    f.AdJidForm? && f.user == "" && f.device == 0 && "@" + DomainServer(f.domainType) !in c.tables.tokenMap
  }

  predicate SettledContent(c: Codec, content: Content) {
    match content
    case Text(text) => !Unsettled(c, text)
    case Children(nodes) => forall i :: 0 <= i < |nodes| ==> SettledNode(c, nodes[i])
    case _ => true
  }

  /** No text content in the tree is unsettled. */
  predicate SettledNode(c: Codec, node: Node) {
    SettledContent(c, node.content)
  }

  // ---- text ---------------------------------------------------------------------------

  lemma AdJidTextEnd(user: string, device: nat, domainType: int)
    ensures var t := AdJidText(user, device, domainType); t != "" && t[|t| - 1] != '@'
  {
    hide Decimal;
    var server := DomainServer(domainType);
    var t := AdJidText(user, device, domainType);
    assert server != "" && server[|server| - 1] != '@';
    assert t[|t| - 1] == server[|server| - 1];
  }

  /** Normalising does not put an `@` at the end. */
  lemma {:induction false} NormEnd(c: Codec, v: string)
    requires v != "" && v[|v| - 1] != '@'
    ensures Norm(c, v) != "" && Norm(c, v)[|Norm(c, v)| - 1] != '@'
    decreases |v|
  {
    hide Classify, AdJidText;
    match Classify(c, v)
    case AdJidForm(user, device, domainType) =>
      if device >= 0 {
        AdJidTextEnd(Norm(c, user), device, domainType);
      }
    case JidPairForm(user, server) =>
      PairShape(c, v);
      assert v[|v| - 1] == server[|server| - 1];
      NormEnd(c, server);
    case _ =>
  }

  lemma ServerEnd(c: Codec, v: string)
    requires Classify(c, v).JidPairForm?
    ensures var server := Classify(c, v).server; server != "" && server[|server| - 1] != '@'
  {
    PairShape(c, v);
    PairHasServer(c, v);
    hide Classify;
    var server := Classify(c, v).server;
    assert v[|v| - 1] == server[|server| - 1];
  }

  lemma PairHasServer(c: Codec, v: string)
    requires Classify(c, v).JidPairForm?
    ensures HasServer(v)
  {
    hide Find, IsNibble, IsHex, DomainType, Host.ParseInt, SplitParts;
  }

  lemma AdJidNorm(c: Codec, v: string)
    requires Classify(c, v).AdJidForm? && 0 <= Classify(c, v).device
    ensures
      var AdJidForm(user, device, domainType) := Classify(c, v);
      '@' !in user && ':' !in user && '_' !in user && Norm(c, v) == AdJidText(user, device, domainType)
  {
    AdJidShape(c, v);
    hide Classify, AdJidText, Find, Host.ParseInt, DomainServer;
    PlainUser(c, Classify(c, v).user);
  }

  /** The text printed for an address is plain text again only when it is unsettled. */
  lemma AdJidSettles(c: Codec, v: string)
    requires Classify(c, v).AdJidForm? && 0 <= Classify(c, v).device < 256
    ensures Classify(c, Norm(c, v)).PlainForm? <==> Unsettled(c, v)
  {
    hide Classify, AdJidText, DomainServer, Norm;
    var AdJidForm(user, device, domainType) := Classify(c, v);
    AdJidNorm(c, v);
    var text := AdJidText(user, device, domainType);
    if text in c.tables.tokenMap {
      TokenForms(c, text);
      if user == "" && device == 0 {
        ZeroDevice(user, domainType);
        assert "" + "@" + DomainServer(domainType) == "@" + DomainServer(domainType);
      }
    } else if device > 0 {
      AdJidTextForm(c, user, device, domainType);
    } else {
      ZeroDevice(user, domainType);
      NoAgent(c.host, user, DomainServer(domainType));
      AdJidTextEnd(user, device, domainType);
      ServerNotEmpty(domainType);
      PairTextForm(c, user, DomainServer(domainType));
      assert "" + "@" + DomainServer(domainType) == "@" + DomainServer(domainType);
    }
  }

  lemma ServerNotEmpty(domainType: int)
    ensures var server := DomainServer(domainType); server != "" && server[|server| - 1] != '@'
  {
  }

  lemma TokenForms(c: Codec, v: string)
    requires v in c.tables.tokenMap
    ensures Classify(c, v).TokenForm?
  {
  }

  lemma PairSettles(c: Codec, v: string)
    requires Classify(c, v).JidPairForm?
    ensures !Classify(c, Norm(c, v)).PlainForm?
  {
    PairShape(c, v);
    ServerEnd(c, v);
    hide Classify, DomainType;
    var JidPairForm(user, server) := Classify(c, v);
    PlainUser(c, user);
    NormEnd(c, server);
    ServerDomain(c, user, server);
    var w := user + "@" + Norm(c, server);
    if w in c.tables.tokenMap {
      TokenForms(c, w);
    } else {
      PairTextForm(c, user, Norm(c, server));
    }
  }

  /** What an encoded text that is not plain is normalised to is plain exactly when it is unsettled. */
  lemma TextSettles(c: Codec, text: string)
    requires StringBytes(c, text).Ok? && !Classify(c, text).PlainForm?
    ensures Classify(c, Norm(c, text)).PlainForm? <==> Unsettled(c, text)
  {
    hide SplitFullJid, SplitSimpleJid, IsNibble, IsHex, Token, Packed;
    match Classify(c, text)
    case AdJidForm(_, _, _) => AdJidSettles(c, text);
    case JidPairForm(_, _) => PairSettles(c, text);
    case _ =>
  }

  /** Normalising text content a second time changes nothing exactly when it is not unsettled. */
  lemma TextNormTwice(c: Codec, text: string)
    requires StringBytes(c, text).Ok?
    ensures
      var once := NormContent(c, Content.Text(text));
      NormContent(c, once) == once <==> !Unsettled(c, text)
  {
    hide Classify, StringBytes, Norm;
    NormIdempotent(c, text);
    if !Classify(c, text).PlainForm? {
      TextSettles(c, text);
    }
  }

  // ---- attributes ---------------------------------------------------------------------

  /** Assigning a key changes the value of that key, or adds it at the end. */
  lemma {:induction false} DictSetItems(attrs: seq<Attr>, key: string, value: string)
    ensures forall i :: 0 <= i < |DictSet(attrs, key, value)| ==>
      var item := DictSet(attrs, key, value)[i];
      if i < |attrs| then item.key == attrs[i].key && (item == attrs[i] || item == Attr(key, Some(value)))
      else item == Attr(key, Some(value))
    ensures |attrs| <= |DictSet(attrs, key, value)|
  {
    if attrs != [] && attrs[0].key != key {
      DictSetItems(attrs[1..], key, value);
    }
  }

  ghost predicate AllKept(c: Codec, attrs: seq<Attr>) {
    DistinctKeys(attrs) && forall i :: 0 <= i < |attrs| ==> KeptAttr(c, attrs[i])
  }

  lemma DictSetKept(c: Codec, attrs: seq<Attr>, key: string, value: string)
    requires AllKept(c, attrs) && Norm(c, key) == key && Norm(c, value) == value
    ensures AllKept(c, DictSet(attrs, key, value))
  {
    hide Norm;
    DictSetGrows(attrs, key, value);
    DictSetItems(attrs, key, value);
  }

  lemma {:induction false} NormAttrsKept(c: Codec, attrs: seq<Attr>, n: nat)
    requires n <= |attrs| && AttrsBytes(c, attrs, n).Ok? && forall i :: 0 <= i < |attrs| ==> attrs[i].value.Some?
    ensures AllKept(c, NormAttrs(c, attrs, n))
  {
    hide Norm, StringBytes, DictSet;
    if n > 0 {
      NormAttrsKept(c, attrs, n - 1);
      var Attr(key, Some(value)) := attrs[n - 1];
      NormIdempotent(c, key);
      NormIdempotent(c, value);
      DictSetKept(c, NormAttrs(c, attrs, n - 1), Norm(c, key), Norm(c, value));
    }
  }

  /** Normalising the attributes a second time changes nothing. */
  lemma AttrsNormTwice(c: Codec, attrs: seq<Attr>)
    requires AttrsBytes(c, attrs, |attrs|).Ok? && forall i :: 0 <= i < |attrs| ==> attrs[i].value.Some?
    ensures
      var once := NormAttrs(c, attrs, |attrs|);
      Present(once) == once && NormAttrs(c, once, |once|) == once
  {
    hide Norm, AttrsBytes, NormAttrs, KeptAttr, DistinctKeys;
    var once := NormAttrs(c, attrs, |attrs|);
    NormAttrsKept(c, attrs, |attrs|);
    NormAttrsPresent(c, attrs, |attrs|);
    PresentAll(once);
    NormAttrsIdentity(c, once, |once|);
    assert once[..|once|] == once;
  }

  // ---- nodes --------------------------------------------------------------------------

  lemma {:induction false} NodesNormTwice(c: Codec, nodes: seq<Node>, n: nat)
    requires n <= |nodes| && NodesBytes(c, nodes, n).Ok?
    ensures
      var once := NormNodes(c, nodes, n);
      NormNodes(c, once, n) == once <==> forall i :: 0 <= i < n ==> SettledNode(c, nodes[i])
    decreases nodes, n
  {
    hide NodeBytes, NormNode, SettledNode;
    if n > 0 {
      NodesNormTwice(c, nodes, n - 1);
      NodeNormTwice(c, nodes[n - 1]);
      var front, last := NormNodes(c, nodes, n - 1), NormNode(c, nodes[n - 1]);
      NormNodesPrefix(c, front, last, n - 1);
    }
  }

  lemma {:induction false} NormNodesFront(c: Codec, nodes: seq<Node>, more: seq<Node>, n: nat)
    requires n <= |nodes|
    ensures NormNodes(c, nodes + more, n) == NormNodes(c, nodes, n)
  {
    hide NormNode;
    if n > 0 {
      NormNodesFront(c, nodes, more, n - 1);
      assert (nodes + more)[n - 1] == nodes[n - 1];
    }
  }

  lemma NormNodesPrefix(c: Codec, front: seq<Node>, last: Node, n: nat)
    requires |front| == n
    ensures NormNodes(c, front + [last], n + 1) == front + [last]
      <==> NormNodes(c, front, n) == front && NormNode(c, last) == last
  {
    hide NormNode;
    NormNodesFront(c, front, [last], n);
    var all := NormNodes(c, front + [last], n + 1);
    assert (front + [last])[n] == last;
    assert all == NormNodes(c, front, n) + [NormNode(c, last)];
    assert all[..n] == NormNodes(c, front, n) && all[n] == NormNode(c, last);
    assert (front + [last])[..n] == front;
  }

  lemma {:induction false} ContentNormTwice(c: Codec, content: Content)
    requires ContentBytes(c, content).Ok?
    ensures
      var once := NormContent(c, content);
      NormContent(c, once) == once <==> SettledContent(c, content)
    decreases content, 1
  {
    hide NormNodes, NodesBytes, SettledNode, StringBytes, Norm, Classify, Unsettled;
    match content
    case Text(text) => TextNormTwice(c, text);
    case Children(nodes) => NodesNormTwice(c, nodes, |nodes|);
    case _ =>
  }

  /** Normalising an encoded tree a second time changes nothing exactly when no text content in it
      is unsettled. */
  lemma {:induction false} NodeNormTwice(c: Codec, node: Node)
    requires NodeBytes(c, node).Ok?
    ensures NormNode(c, NormNode(c, node)) == NormNode(c, node) <==> SettledNode(c, node)
    decreases node, 1
  {
    hide StringBytes, AttrsBytes, ContentBytes, NormAttrs, NormContent, Norm, SettledContent;
    NormIdempotent(c, node.tag);
    AttrsNormTwice(c, Present(node.attrs));
    ContentNormTwice(c, node.content);
  }

  /** Node normalisation is not idempotent: text `":0@lid"` comes back as text `"@lid"`,
      and that text comes back as bytes. */
  lemma TextTwice(c: Codec)
    requires c.Valid() && ":0@lid" !in c.tables.tokenMap && "@lid" !in c.tables.tokenMap && "" !in c.tables.tokenMap
    ensures NormContent(c, Content.Text(":0@lid")) == Content.Text("@lid")
    ensures NormContent(c, Content.Text("@lid")) == Raw(c.host.utf8.encode("@lid"))
  {
    hide Classify, AdJidText;
    ZeroDeviceForm(c);
    PlainUser(c, "");
    ZeroDevice("", 1);
    assert "" + "@" + "lid" == "@lid";
    AtForm(c, "@lid");
  }

  lemma ZeroDeviceForm(c: Codec)
    requires ":0@lid" !in c.tables.tokenMap
    ensures Classify(c, ":0@lid") == AdJidForm("", 0, 1)
  {
    hide Classify, SplitParts, UserPart, ServerPart;
    assert ":0@lid" == ":0" + "@" + "lid";
    AtJoin(":0", "lid");
    AtForm(c, ":0@lid");
    ZeroDeviceParts(c.host);
  }

  lemma ZeroDeviceParts(h: Host)
    ensures SplitParts(h, ":0", "lid") == Ok(FullJid("", "lid", Some(0), 1))
  {
    var left := ":0";
    assert Find(left, ':') == 0 && left[1..] == "0" && left[..0] == "";
    assert Numeral("0") && NumeralValue("0") == 0;
  }
}
