/** When exactly a node comes back as its normal form. */
module WABinaryExact {
  import opened Common
  import opened WABinary
  import opened WABinaryEncoder
  import opened WABinaryDecoder
  import opened WABinaryRoundTrip
  import opened WABinaryNormal

  /** The keys of one node stay distinct when they are normalised. */
  predicate ApartAttrs(c: Codec, attrs: seq<Attr>) {
    forall i, j :: 0 <= i < j < |attrs| ==> Norm(c, attrs[i].key) != Norm(c, attrs[j].key)
  }

  predicate ApartContent(c: Codec, content: Content) {
    match content
    case Children(nodes) => forall i :: 0 <= i < |nodes| ==> ApartNode(c, nodes[i])
    case _ => true
  }

  /** The keys stay distinct at every level. */
  predicate ApartNode(c: Codec, node: Node) {
    ApartAttrs(c, Present(node.attrs)) && ApartContent(c, node.content)
  }

  /** A reading that stops at `suffix` if it succeeds, and then gives `norm` exactly when `clean`. */
  ghost predicate Exact<T>(r: Read<T>, norm: T, suffix: Bytes, clean: bool) {
    && (clean ==> r.Ok?)
    && (r.Ok? ==> r.value.1 == suffix && (r.value.0 == norm <==> clean))
  }

  lemma StringExact(c: Codec, v: string, suffix: Bytes)
    requires c.Valid() && StringBytes(c, v).Ok?
    ensures Exact(ReadTagged(c, StringBytes(c, v).value + suffix), Norm(c, v), suffix, Clean(c, v))
  {
    hide StringBytes, ReadTagged, Norm, Clean;
    StringRoundTrip(c, v, suffix);
  }

  // ---- attributes ---------------------------------------------------------------------

  function NormAttr(c: Codec, attr: Attr): Attr {
    Attr(Norm(c, attr.key), Some(NormValue(c, attr.value)))
  }

  lemma {:induction false} NormAttrsApart(c: Codec, attrs: seq<Attr>, n: nat)
    requires n <= |attrs| && ApartAttrs(c, attrs)
    ensures |NormAttrs(c, attrs, n)| == n
    ensures forall i :: 0 <= i < n ==> NormAttrs(c, attrs, n)[i] == NormAttr(c, attrs[i])
  {
    hide Norm, DictSet, HasKey, ApartAttrs;
    if n > 0 {
      NormAttrsApart(c, attrs, n - 1);
      NewKey(c, attrs, n, NormAttrs(c, attrs, n - 1));
      DictSetGrows(NormAttrs(c, attrs, n - 1), Norm(c, attrs[n - 1].key), NormValue(c, attrs[n - 1].value));
    }
  }

  lemma NewKey(c: Codec, attrs: seq<Attr>, n: nat, front: seq<Attr>)
    requires 0 < n <= |attrs| && ApartAttrs(c, attrs) && |front| == n - 1
    requires forall i :: 0 <= i < n - 1 ==> front[i] == NormAttr(c, attrs[i])
    ensures !HasKey(front, Norm(c, attrs[n - 1].key))
  {
    hide Norm;
  }

  lemma {:induction false} ReadAttrsShort(c: Codec, n: nat, d: Bytes)
    requires ReadAttrs(c, n, d).Ok?
    ensures |ReadAttrs(c, n, d).value.0| <= n
  {
    hide ReadTagged;
    if n > 0 {
      ReadAttrsShort(c, n - 1, d);
      var attrs := ReadAttrs(c, n - 1, d).value.0;
      var key := ReadTagged(c, ReadAttrs(c, n - 1, d).value.1).value;
      DictSetGrows(attrs, key.0, ReadTagged(c, key.1).value.0);
    }
  }

  /** Two dictionaries that one item makes equal, where the item is new to the longer one. */
  lemma SameAfterSet(a: seq<Attr>, key: string, value: string, b: seq<Attr>, key': string, value': string)
    requires |a| <= |b| && !HasKey(b, key')
    ensures DictSet(a, key, value) == DictSet(b, key', value') <==> a == b && key == key' && value == value'
  {
    DictSetGrows(a, key, value);
    DictSetGrows(b, key', value');
    if DictSet(a, key, value) == DictSet(b, key', value') {
      assert !HasKey(a, key);
      assert a == (a + [Attr(key, Some(value))])[..|a|] && b == (b + [Attr(key', Some(value'))])[..|b|];
      assert (a + [Attr(key, Some(value))])[|a|] == (b + [Attr(key', Some(value'))])[|b|];
    }
  }

  lemma {:induction false} AttrsExact(c: Codec, attrs: seq<Attr>, n: nat, suffix: Bytes)
    requires c.Valid() && n <= |attrs| && AttrsBytes(c, attrs, n).Ok?
    requires ApartAttrs(c, attrs) && forall i :: 0 <= i < |attrs| ==> attrs[i].value.Some?
    ensures Exact(ReadAttrs(c, n, AttrsBytes(c, attrs, n).value + suffix), NormAttrs(c, attrs, n), suffix,
                  CleanAttrs(c, attrs[..n]))
  {
    hide StringBytes, ReadTagged, Clean, Norm, DictSet, HasKey;
    if n == 0 {
      assert AttrsBytes(c, attrs, n).value + suffix == suffix;
    } else {
      var Attr(key, Some(value)) := attrs[n - 1];
      var front := AttrsBytes(c, attrs, n - 1).value;
      var keyBytes, valueBytes := StringBytes(c, key).value, StringBytes(c, value).value;
      var d := front + (keyBytes + (valueBytes + suffix));
      assert front + (keyBytes + valueBytes) + suffix == d;
      AttrsExact(c, attrs, n - 1, keyBytes + (valueBytes + suffix));
      StringExact(c, key, valueBytes + suffix);
      StringExact(c, value, suffix);
      CleanMore(c, attrs, n);
      var read := ReadAttrs(c, n - 1, d);
      if read.Ok? {
        ReadAttrsShort(c, n - 1, d);
        NormAttrsApart(c, attrs, n - 1);
        NewKey(c, attrs, n, NormAttrs(c, attrs, n - 1));
        var k := ReadTagged(c, keyBytes + (valueBytes + suffix));
        var v := ReadTagged(c, valueBytes + suffix);
        if k.Ok? && v.Ok? {
          SameAfterSet(read.value.0, k.value.0, v.value.0, NormAttrs(c, attrs, n - 1), Norm(c, key), Norm(c, value));
        }
      }
    }
  }

  lemma CleanMore(c: Codec, attrs: seq<Attr>, n: nat)
    requires 0 < n <= |attrs| && attrs[n - 1].value.Some?
    ensures CleanAttrs(c, attrs[..n])
      <==> CleanAttrs(c, attrs[..n - 1]) && Clean(c, attrs[n - 1].key) && Clean(c, attrs[n - 1].value.value)
  {
    hide Clean;
    assert forall i :: 0 <= i < n - 1 ==> attrs[..n - 1][i] == attrs[..n][i];
  }

  // ---- content and nodes --------------------------------------------------------------

  lemma TextExact(c: Codec, text: string, suffix: Bytes)
    requires c.Valid() && StringBytes(c, text).Ok?
    ensures Exact(ReadContent(c, StringBytes(c, text).value + suffix), NormContent(c, Content.Text(text)), suffix,
                  Clean(c, text))
  {
    hide StringBytes, ReadString, Norm, Classify;
    if Classify(c, text).PlainForm? {
      TextBack(c, text, suffix);
    } else {
      hide Clean;
      var b := StringBytes(c, text).value;
      StringTag(c, text);
      assert (b + suffix)[1..] == b[1..] + suffix;
      StringExact(c, text, suffix);
      ReadTaggedFrom(c, b, suffix);
    }
  }

  lemma {:induction false} ContentExact(c: Codec, content: Content, suffix: Bytes)
    requires c.Valid() && ContentBytes(c, content).Ok? && !content.NoContent? && ApartContent(c, content)
    ensures Exact(ReadContent(c, ContentBytes(c, content).value + suffix), NormContent(c, content), suffix,
                  CleanContent(c, content))
    decreases content, 1
  {
    match content
    case Text(text) => TextExact(c, text, suffix);
    case Raw(data) => RawBack(c, data, suffix);
    case Children(nodes) =>
      hide CleanNode, ApartNode;
      NodesExact(c, nodes, |nodes|, suffix);
      assert nodes[..|nodes|] == nodes;
      ChildrenExact(c, nodes, suffix);
  }

  lemma ChildrenExact(c: Codec, nodes: seq<Node>, suffix: Bytes)
    requires c.Valid() && ContentBytes(c, Children(nodes)).Ok? && NodesBytes(c, nodes, |nodes|).Ok?
    requires Exact(ReadNodes(c, |nodes|, NodesBytes(c, nodes, |nodes|).value + suffix), NormNodes(c, nodes, |nodes|),
                   suffix, CleanNodes(c, nodes))
    ensures Exact(ReadContent(c, ContentBytes(c, Children(nodes)).value + suffix), NormContent(c, Children(nodes)),
                  suffix, CleanContent(c, Children(nodes)))
  {
    hide NodesBytes, ReadNodes, NormNodes, ListStart, ReadListSize, ReadString, ReadBlob, CleanNode;
    var start, body := ListStart(|nodes|).value, NodesBytes(c, nodes, |nodes|).value;
    ListStartBack(|nodes|, body + suffix);
    assert (start + body + suffix)[1..] == start[1..] + (body + suffix);
  }

  predicate CleanNodes(c: Codec, nodes: seq<Node>) {
    forall i :: 0 <= i < |nodes| ==> CleanNode(c, nodes[i])
  }

  lemma {:induction false} NodesExact(c: Codec, nodes: seq<Node>, n: nat, suffix: Bytes)
    requires c.Valid() && n <= |nodes| && NodesBytes(c, nodes, n).Ok?
    requires forall i :: 0 <= i < |nodes| ==> ApartNode(c, nodes[i])
    ensures Exact(ReadNodes(c, n, NodesBytes(c, nodes, n).value + suffix), NormNodes(c, nodes, n), suffix,
                  CleanNodes(c, nodes[..n]))
    decreases nodes, n
  {
    hide NodeBytes, ReadNode, CleanNode, NormNode, ApartNode;
    if n == 0 {
      assert NodesBytes(c, nodes, n).value + suffix == suffix;
    } else {
      var front, last := NodesBytes(c, nodes, n - 1).value, NodeBytes(c, nodes[n - 1]).value;
      NodesExact(c, nodes, n - 1, last + suffix);
      NodeExact(c, nodes[n - 1], suffix);
      assert front + last + suffix == front + (last + suffix);
      assert nodes[..n] == nodes[..n - 1] + [nodes[n - 1]];
      CleanNodesMore(c, nodes[..n - 1], nodes[n - 1]);
      var read, child := ReadNodes(c, n - 1, front + (last + suffix)), ReadNode(c, last + suffix);
      if read.Ok? && child.Ok? {
        SameAppended(read.value.0, child.value.0, NormNodes(c, nodes, n - 1), NormNode(c, nodes[n - 1]));
      }
    }
  }

  lemma CleanNodesMore(c: Codec, nodes: seq<Node>, node: Node)
    ensures CleanNodes(c, nodes + [node]) <==> CleanNodes(c, nodes) && CleanNode(c, node)
  {
    hide CleanNode;
    assert (nodes + [node])[|nodes|] == node;
    assert forall i :: 0 <= i < |nodes| ==> (nodes + [node])[i] == nodes[i];
  }

  lemma SameAppended(a: seq<Node>, x: Node, b: seq<Node>, y: Node)
    ensures a + [x] == b + [y] <==> a == b && x == y
  {
    if a + [x] == b + [y] {
      assert a == (a + [x])[..|a|] && b == (b + [y])[..|b|];
      assert (a + [x])[|a|] == (b + [y])[|b|];
    }
  }

  lemma {:induction false} NodeExact(c: Codec, node: Node, suffix: Bytes)
    requires c.Valid() && NodeBytes(c, node).Ok? && ApartNode(c, node)
    ensures Exact(ReadNode(c, NodeBytes(c, node).value + suffix), NormNode(c, node), suffix, CleanNode(c, node))
    decreases node, 1
  {
    hide StringBytes, ReadTagged, Clean, Norm, ContentBytes, ReadContent, NormContent, CleanContent, AttrsBytes,
        ReadAttrs, NormAttrs, CleanAttrs, ApartAttrs, ApartContent;
    var attrs := Present(node.attrs);
    var size := ListSize(node);
    var start, tag := ListStart(size).value, StringBytes(c, node.tag).value;
    var items, content := AttrsBytes(c, attrs, |attrs|).value, ContentBytes(c, node.content).value;
    ListStartBack(size, tag + (items + (content + suffix)));
    StringExact(c, node.tag, items + (content + suffix));
    AttrsExact(c, attrs, |attrs|, content + suffix);
    assert attrs[..|attrs|] == attrs;
    NodeLayout(start, tag, items, content, suffix);
    assert NodeBytes(c, node).value == start + tag + items + content;
    if node.content.NoContent? {
      NoBytes(c, suffix);
      NothingUnclean(c);
    } else {
      ContentExact(c, node.content, suffix);
    }
  }

  lemma NothingUnclean(c: Codec)
    ensures CleanContent(c, NoContent)
  {
  }

  /** A node whose keys stay apart is read back as its normal form, up to exactly the bytes that
      follow it, if and only if it is clean; and if it is read back as anything else, the reading
      still stops there. */
  lemma NodeRoundTripExact(c: Codec, node: Node, suffix: Bytes)
    requires c.Valid() && NodeBytes(c, node).Ok? && ApartNode(c, node)
    ensures
      var r := ReadNode(c, NodeBytes(c, node).value + suffix);
      && (r == Ok((NormNode(c, node), suffix)) <==> CleanNode(c, node))
      && (r.Ok? ==> r.value.1 == suffix)
  {
    hide NodeBytes, ReadNode, NormNode, CleanNode, ApartNode;
    NodeExact(c, node, suffix);
  }
}
