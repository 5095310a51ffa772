/** Which strings and which trees can be encoded at all; on every other the encoder raises. */
module WABinaryEncodable {
  import opened Common
  import opened Text
  import opened WABinary
  import opened WABinaryEncoder
  import opened WABinaryDecoder
  import opened WABinaryRoundTrip
  import opened WABinaryExact
  import opened WABinaryNormal

  /** Digits beyond ASCII fit only into the lower half of a packed byte, and there up to U+012F. */
  predicate PackFits(v: string) {
    forall i :: 0 <= i < |v| ==> v[i] as int < 128 || (i % 2 == 1 && v[i] as int < 304)
  }

  predicate Fits8(n: int) {
    0 <= n < 256
  }

  /** The condition on the text: what is packed fits, the device and the agent of an address are integers, the
      device and the domain type of an address with a device fit a byte, the parts of an address can be encoded,
      and plain text stays below 2^32 bytes. */
  predicate Encodable(c: Codec, v: string)
    decreases |v|
  {
    if v in c.tables.tokenMap then true
    else if IsNibble(c.host, v) || IsHex(c.host, v) then PackFits(v)
    else if !HasServer(v) then |c.host.utf8.encode(v)| < 0x1_0000_0000
    else
      var left, server := UserPart(v), ServerPart(v);
      var colon := Find(left, ':');
      var userAgent := left[..colon];
      var domainType := DomainType(c.host, userAgent, server);
      if colon == |left| then domainType.Some? && Encodable(c, left) && Encodable(c, server)
      else
        var device := c.host.ParseInt(left[colon + 1..]);
        && device.Some? && domainType.Some? && Fits8(device.value) && Fits8(domainType.value)
        && Encodable(c, userAgent[..Find(userAgent, '_')])
  }

  // ---- packing ------------------------------------------------------------------------

  /** Or-ing keeps the width and loses nothing of either side. */
  lemma {:induction false} BitOrWidth(a: nat, b: nat, k: nat)
    ensures a <= BitOr(a, b) && b <= BitOr(a, b)
    ensures a < Pow2(k) && b < Pow2(k) ==> BitOr(a, b) < Pow2(k)
    decreases a
  {
    if a != 0 && b != 0 {
      BitOrWidth(a / 2, b / 2, if k > 0 then k - 1 else 0);
    }
  }

  predicate PackChar(h: Host, tag: Byte, ch: char) {
    h.IsDigit(ch) || (if tag == NIBBLE_8 then ch == '-' || ch == '.' else 'A' <= ch <= 'F')
  }

  /** A character below 128 packs to a nibble, a digit beyond to its distance from `0`. */
  lemma PackValue(h: Host, tag: Byte, ch: char)
    requires tag == NIBBLE_8 || tag == HEX_8
    requires PackChar(h, tag, ch) || ch == '\0'
    ensures Pack(h, tag, ch).Some?
    ensures if ch as int < 128 then Pack(h, tag, ch).value < 16 else Pack(h, tag, ch).value == ch as int - 48
  {
  }

  lemma PackedByteFits(h: Host, tag: Byte, hi: char, lo: char)
    requires tag == NIBBLE_8 || tag == HEX_8
    requires PackChar(h, tag, hi) && (PackChar(h, tag, lo) || lo == '\0')
    ensures PackedByte(h, tag, hi, lo).Ok? <==> hi as int < 128 && lo as int < 304
  {
    hide Pack, BitOr;
    PackValue(h, tag, hi);
    PackValue(h, tag, lo);
    var a, b := Pack(h, tag, hi).value, Pack(h, tag, lo).value;
    BitOrWidth(a * 16, b, 8);
    Width8();
  }

  lemma Width8()
    ensures Pow2(8) == 256
  {
    assert Pow2(4) == 16;
  }

  lemma {:induction false} PairsFit(h: Host, tag: Byte, v: string, n: nat)
    requires tag == NIBBLE_8 || tag == HEX_8
    requires 2 * n <= |v| && forall i :: 0 <= i < |v| ==> PackChar(h, tag, v[i])
    ensures PairsBytes(h, tag, v, n).Ok? <==> PackFits(v[..2 * n])
  {
    hide PackedByte, PackChar;
    if n > 0 {
      PairsFit(h, tag, v, n - 1);
      PackedByteFits(h, tag, v[2 * n - 2], v[2 * n - 1]);
      FitsMore(v, n);
    }
  }

  lemma FitsMore(v: string, n: nat)
    requires 0 < n && 2 * n <= |v|
    ensures PackFits(v[..2 * n])
      <==> PackFits(v[..2 * n - 2]) && v[2 * n - 2] as int < 128 && v[2 * n - 1] as int < 304
  {
    var all, front := v[..2 * n], v[..2 * n - 2];
    assert forall i :: 0 <= i < 2 * n - 2 ==> front[i] == all[i];
    assert all[2 * n - 2] == v[2 * n - 2] && all[2 * n - 1] == v[2 * n - 1];
    assert (2 * n - 2) % 2 == 0 && (2 * n - 1) % 2 == 1;
  }

  lemma PackedFits(h: Host, tag: Byte, v: string)
    requires tag == NIBBLE_8 || tag == HEX_8
    requires |v| <= PACKED_MAX && forall i :: 0 <= i < |v| ==> PackChar(h, tag, v[i])
    ensures Packed(h, tag, v).Ok? <==> PackFits(v)
  {
    hide PackedByte, PackChar, PairsBytes;
    var n := |v| / 2;
    PairsFit(h, tag, v, n);
    if |v| % 2 == 1 {
      var last := v[|v| - 1];
      PackedByteFits(h, tag, last, '\0');
      assert v == v[..2 * n] + [last];
      assert PackFits(v) <==> PackFits(v[..2 * n]) && last as int < 128 by {
        assert forall i :: 0 <= i < 2 * n ==> v[..2 * n][i] == v[i];
      }
    } else {
      assert v == v[..2 * n];
    }
  }

  // ---- strings ------------------------------------------------------------------------

  lemma BlobOk(data: Bytes)
    ensures Blob(data).Ok? <==> |data| < 0x1_0000_0000
  {
  }

  lemma HeaderOk(domainType: int, device: int)
    ensures AdJidHeader(domainType, device).Ok? <==> Fits8(domainType) && Fits8(device)
  {
  }

  /** How an address is taken apart. */
  lemma AddressForm(c: Codec, v: string)
    requires v !in c.tables.tokenMap && !IsNibble(c.host, v) && !IsHex(c.host, v) && HasServer(v)
    ensures
      var left, server := UserPart(v), ServerPart(v);
      var colon := Find(left, ':');
      var userAgent := left[..colon];
      var domainType := DomainType(c.host, userAgent, server);
      var device := if colon < |left| then c.host.ParseInt(left[colon + 1..]) else None;
      if domainType.None? || (colon < |left| && device.None?) then Classify(c, v).NoForm?
      else if colon < |left|
      then Classify(c, v) == AdJidForm(userAgent[..Find(userAgent, '_')], device.value, domainType.value)
      else Classify(c, v) == JidPairForm(left, server)
  {
    hide DomainType, Find, Host.ParseInt, IsNibble, IsHex;
  }

  /** A string is encoded exactly when it meets the condition; on every other the encoder raises. */
  lemma {:induction false} EncodableExact(c: Codec, v: string)
    requires c.Valid()
    ensures StringBytes(c, v).Ok? <==> Encodable(c, v)
    decreases |v|
  {
    if v in c.tables.tokenMap {
      TokenBack(c, v, []);
    } else if IsNibble(c.host, v) {
      PackedFits(c.host, NIBBLE_8, v);
    } else if IsHex(c.host, v) {
      PackedFits(c.host, HEX_8, v);
    } else if !HasServer(v) {
      BlobOk(c.host.utf8.encode(v));
    } else {
      AddressExact(c, v);
    }
  }

  lemma AddressExact(c: Codec, v: string)
    requires c.Valid()
    requires v !in c.tables.tokenMap && !IsNibble(c.host, v) && !IsHex(c.host, v) && HasServer(v)
    ensures StringBytes(c, v).Ok? <==> Encodable(c, v)
    decreases |v|, 0
  {
    hide Classify, DomainType, Host.ParseInt, IsNibble, IsHex, AdJidHeader;
    AddressForm(c, v);
    var left, server := UserPart(v), ServerPart(v);
    var colon := Find(left, ':');
    if colon == |left| {
      assert left[..colon] == left;
      EncodableExact(c, left);
      EncodableExact(c, server);
    } else {
      var userAgent := left[..colon];
      EncodableExact(c, userAgent[..Find(userAgent, '_')]);
      var f := Classify(c, v);
      if f.AdJidForm? {
        HeaderOk(f.domainType, f.device);
      }
    }
  }

  // ---- trees --------------------------------------------------------------------------

  predicate EncodableAttrs(c: Codec, attrs: seq<Attr>) {
    forall i :: 0 <= i < |attrs| ==>
      Encodable(c, attrs[i].key) && (attrs[i].value.Some? ==> Encodable(c, attrs[i].value.value))
  }

  predicate EncodableContent(c: Codec, content: Content) {
    match content
    case NoContent => true
    case Text(text) => Encodable(c, text)
    case Raw(data) => |data| < 0x1_0000_0000
    case Children(nodes) => |nodes| < 0x1_0000 && forall i :: 0 <= i < |nodes| ==> EncodableNode(c, nodes[i])
  }

  /** A tag, not more items than a list can hold, and strings and contents that can be encoded, at every level. */
  predicate EncodableNode(c: Codec, node: Node) {
    && node.tag != "" && ListSize(node) < 0x1_0000
    && Encodable(c, node.tag) && EncodableAttrs(c, Present(node.attrs)) && EncodableContent(c, node.content)
  }

  lemma ListOk(size: nat)
    ensures ListStart(size).Ok? <==> size < 0x1_0000
  {
  }

  lemma {:induction false} AttrsExactly(c: Codec, attrs: seq<Attr>, n: nat)
    requires c.Valid() && n <= |attrs|
    ensures AttrsBytes(c, attrs, n).Ok? <==> EncodableAttrs(c, attrs[..n])
  {
    hide StringBytes, Encodable;
    if n > 0 {
      var front, last := attrs[..n - 1], attrs[n - 1];
      AttrsExactly(c, attrs, n - 1);
      EncodableExact(c, last.key);
      if last.value.Some? {
        EncodableExact(c, last.value.value);
      }
      assert attrs[..n] == front + [last];
      assert forall i :: 0 <= i < n - 1 ==> attrs[..n][i] == front[i];
    }
  }

  lemma {:induction false} NodesExactly(c: Codec, nodes: seq<Node>, n: nat)
    requires c.Valid() && n <= |nodes|
    ensures NodesBytes(c, nodes, n).Ok? <==> forall i :: 0 <= i < n ==> EncodableNode(c, nodes[i])
    decreases nodes, n
  {
    hide NodeBytes, EncodableNode;
    if n > 0 {
      NodesExactly(c, nodes, n - 1);
      NodeExactly(c, nodes[n - 1]);
    }
  }

  lemma {:induction false} ContentExactly(c: Codec, content: Content)
    requires c.Valid()
    ensures ContentBytes(c, content).Ok? <==> EncodableContent(c, content)
    decreases content, 1
  {
    hide StringBytes, Encodable, NodesBytes, EncodableNode, ListStart, Blob;
    match content
    case NoContent =>
    case Text(text) => EncodableExact(c, text);
    case Raw(data) => BlobOk(data);
    case Children(nodes) =>
      ListOk(|nodes|);
      NodesExactly(c, nodes, |nodes|);
  }

  /** A tree is encoded exactly when it meets the condition at every level. */
  lemma {:induction false} NodeExactly(c: Codec, node: Node)
    requires c.Valid()
    ensures NodeBytes(c, node).Ok? <==> EncodableNode(c, node)
    decreases node, 1
  {
    hide StringBytes, Encodable, AttrsBytes, ContentBytes, EncodableAttrs, EncodableContent, ListStart;
    var attrs := Present(node.attrs);
    ListOk(ListSize(node));
    EncodableExact(c, node.tag);
    AttrsExactly(c, attrs, |attrs|);
    assert attrs[..|attrs|] == attrs;
    ContentExactly(c, node.content);
  }

  /** The whole codec, by conditions on the tree alone: a tree can be encoded and comes back as its normal form if
      it can be encoded and is clean, and, when keys stay distinct after normalisation, only then. */
  lemma CodecExact(c: Codec, node: Node, streamPrefix: bool)
    requires c.Valid()
    ensures
      var sent := EncodeBinaryNode(c, node, streamPrefix);
      var back := sent.Ok? && DecodeBinaryNode(c, sent.value, streamPrefix) == Ok(NormNode(c, node));
      && (sent.Ok? <==> EncodableNode(c, node))
      && (EncodableNode(c, node) && CleanNode(c, node) ==> back)
      && (ApartNode(c, node) ==> (back <==> EncodableNode(c, node) && CleanNode(c, node)))
  {
    hide NodeBytes, ReadNode, NormNode, CleanNode, EncodableNode, ApartNode;
    NodeExactly(c, node);
    if NodeBytes(c, node).Ok? {
      var b := NodeBytes(c, node).value;
      assert b + [] == b && [] + b == b && ([0] + b)[1..] == b;
      if CleanNode(c, node) {
        DecodeEncode(c, node, streamPrefix);
      } else if ApartNode(c, node) {
        NodeRoundTripExact(c, node, []);
      }
    }
  }

  /** An address on which the encoder raises: its agent is no integer. */
  lemma AgentRaises(c: Codec)
    requires c.Valid() && c.host.oddInt("b").None? && "a_b@x" !in c.tables.tokenMap
    ensures StringBytes(c, "a_b@x").Err?
  {
    hide StringBytes, Classify, UserPart, ServerPart;
    var v := "a_b@x";
    EncodableExact(c, v);
    assert v == "a_b" + "@" + "x";
    AtJoin("a_b", "x");
    NoSuchAgent(c.host);
    assert !c.host.IsDigit(v[0]) && '@' in v;
  }

  lemma NoSuchAgent(h: Host)
    requires h.oddInt("b").None?
    ensures Find("a_b", ':') == 3 && DomainType(h, "a_b"[..3], "x").None?
  {
    assert "a_b"[..3] == "a_b" && Find("a_b", '_') == 1 && "a_b"[2..] == "b";
    assert !AsciiDigit("b"[0]);
  }
}
