/** The encoder of binary nodes: what bytes each part of a node becomes, and the
    class that appends them to one growing buffer. */
module WABinaryEncoder {
  import opened Common
  import opened Text
  import opened TokenTables
  import opened WABinary

  type Encoded = Result<Bytes, Failure>

  function ByteOf(n: int): Encoded {
    if 0 <= n < 256 then Ok([n]) else Err(ByteOutOfRange)
  }

  /** The bytes of one part and then those of the next; the first exception wins. */
  function Then(a: Encoded, b: Encoded): Encoded {
    if a.Err? then a else if b.Err? then b else Ok(a.value + b.value)
  }

  // ---- the bytes of each form ---------------------------------------------------------

  function ListStart(size: nat): Encoded {
    if size == 0 then Ok([LIST_EMPTY])
    else if size < 256 then Ok([LIST_8, size])
    else if size < 0x1_0000 then Ok([LIST_16] + Big2(size))
    else Err(TooLarge)
  }

  function ByteLength(n: nat): Encoded {
    if n >= 0x1_0000_0000 then Err(TooLarge)
    else if n >= 0x10_0000 then Ok([BINARY_32] + Big4(n))
    else if n >= 256 then Ok([BINARY_20, n / 0x1_0000 % 16, n / 0x100 % 0x100, n % 0x100])
    else Ok([BINARY_8, n])
  }

  /** Length-prefixed bytes, as written for bytes content and for plain text. */
  function Blob(data: Bytes): Encoded {
    Then(ByteLength(|data|), Ok(data))
  }

  function PackedByte(h: Host, tag: Byte, hi: char, lo: char): Encoded {
    match (Pack(h, tag, hi), Pack(h, tag, lo))
    case (Some(a), Some(b)) => ByteOf(BitOr(a * 16, b))
    case _ => Err(ByteOutOfRange)
  }

  /** The first `n` pairs of characters, a pair to a byte. */
  function PairsBytes(h: Host, tag: Byte, v: string, n: nat): Encoded
    requires 2 * n <= |v|
  {
    if n == 0 then Ok([])
    else Then(PairsBytes(h, tag, v, n - 1), PackedByte(h, tag, v[2 * n - 2], v[2 * n - 1]))
  }

  lemma PairsMore(h: Host, tag: Byte, v: string, i: nat)
    requires i % 2 == 0 && i + 1 < |v|
    ensures PairsBytes(h, tag, v, i / 2 + 1) == Then(PairsBytes(h, tag, v, i / 2), PackedByte(h, tag, v[i], v[i + 1]))
    ensures (i + 2) / 2 == i / 2 + 1
  {
  }

  lemma PairsNone(h: Host, tag: Byte, v: string)
    ensures PairsBytes(h, tag, v, 0) == Ok([])
  {
  }

  /** An odd last character is paired with `\0`. */
  function OddByte(h: Host, tag: Byte, v: string): Encoded {
    if |v| % 2 == 1 then PackedByte(h, tag, v[|v| - 1], '\0') else Ok([])
  }

  function PackedHeader(tag: Byte, length: nat): Bytes
    requires length <= PACKED_MAX
  {
    [tag, (length + 1) / 2 + (if length % 2 == 1 then 0x80 else 0)]
  }

  function Packed(h: Host, tag: Byte, v: string): Encoded
    requires |v| <= PACKED_MAX
  {
    Then(Then(Ok(PackedHeader(tag, |v|)), PairsBytes(h, tag, v, |v| / 2)), OddByte(h, tag, v))
  }

  function Token(p: Place): Encoded {
    match p.dict
    case None => ByteOf(p.index)
    case Some(d) =>
      Then(ByteOf(DICTIONARY_0 + d), ByteOf(p.index))
  }

  function StringBytes(c: Codec, v: string): Encoded
    decreases |v|
  {
    match Classify(c, v)
    case TokenForm(place) => Token(place)
    case PackedForm(tag) => Packed(c.host, tag, v)
    case AdJidForm(user, device, domainType) => Then(AdJidHeader(domainType, device), StringBytes(c, user))
    case JidPairForm(user, server) => Then(Then(Ok([JID_PAIR]), StringBytes(c, user)), StringBytes(c, server))
    case PlainForm => Blob(c.host.utf8.encode(v))
    case NoForm(e) => Err(e)
  }

  function AdJidHeader(domainType: int, device: int): Encoded {
    Then(Then(Ok([AD_JID]), ByteOf(domainType)), ByteOf(device))
  }

  /** The attributes that are written: those with a value. */
  function Present(attrs: seq<Attr>): (r: seq<Attr>)
    ensures forall i :: 0 <= i < |r| ==> r[i].value.Some?
    ensures |r| <= |attrs|
  {
    if attrs == [] then []
    else if attrs[0].value.None? then Present(attrs[1..])
    else [attrs[0]] + Present(attrs[1..])
  }

  /** The first `n` attributes. */
  function AttrsBytes(c: Codec, attrs: seq<Attr>, n: nat): Encoded
    requires n <= |attrs|
  {
    if n == 0 then Ok([]) else Then(AttrsBytes(c, attrs, n - 1), AttrBytes(c, attrs[n - 1]))
  }

  function AttrBytes(c: Codec, attr: Attr): Encoded
  {
    Then(StringBytes(c, attr.key), ValueBytes(c, attr.value))
  }

  /** `_write_string` on a value that may be None. */
  function ValueBytes(c: Codec, value: Option<string>): Encoded {
    if value.None? then Ok([LIST_EMPTY]) else StringBytes(c, value.value)
  }

  function ListSize(node: Node): nat {
    1 + 2 * |Present(node.attrs)| + (if node.content.NoContent? then 0 else 1)
  }

  function ContentBytes(c: Codec, content: Content): Encoded
    decreases content, 0
  {
    match content
    case NoContent => Ok([])
    case Text(text) => StringBytes(c, text)
    case Raw(data) => Blob(data)
    case Children(nodes) =>
      Then(ListStart(|nodes|), NodesBytes(c, nodes, |nodes|))
  }

  /** The first `n` children. */
  function NodesBytes(c: Codec, nodes: seq<Node>, n: nat): Encoded
    requires n <= |nodes|
    decreases nodes, n
  {
    if n == 0 then Ok([]) else Then(NodesBytes(c, nodes, n - 1), NodeBytes(c, nodes[n - 1]))
  }

  function NodeBytes(c: Codec, node: Node): Encoded
    decreases node, 1
  {
    if node.tag == "" then Err(EmptyTag)
    else
      var head := Then(ListStart(ListSize(node)), StringBytes(c, node.tag));
      Then(Then(head, AttrsBytes(c, Present(node.attrs), |Present(node.attrs)|)), ContentBytes(c, node.content))
  }

  /** `encode_binary_node` */
  function EncodeBinaryNode(c: Codec, node: Node, streamPrefix: bool): Encoded {
    Then(Ok(if streamPrefix then [0] else []), NodeBytes(c, node))
  }

  /** A writing method took the buffer from `before` to `after`: it appended what `spec`
      says, or raised its exception. */
  ghost predicate Appended(spec: Encoded, before: Bytes, after: Bytes, status: Option<Failure>) {
    match spec
    case Ok(bytes) => status == None && after == before + bytes
    case Err(e) => status == Some(e)
  }

  lemma AppendedThen(a: Encoded, b: Encoded, before: Bytes, middle: Bytes, after: Bytes, status: Option<Failure>)
    requires Appended(a, before, middle, None)
    requires Appended(b, middle, after, status)
    ensures Appended(Then(a, b), before, after, status)
  {
    if b.Ok? {
      assert before + a.value + b.value == before + (a.value + b.value);
    }
  }

  /** An exception in one pair is the exception of the whole. */
  lemma {:induction false} PairsFail(h: Host, tag: Byte, v: string, i: nat, n: nat)
    requires i <= n && 2 * n <= |v|
    requires PairsBytes(h, tag, v, i).Err?
    ensures PairsBytes(h, tag, v, n) == PairsBytes(h, tag, v, i)
  {
    if i < n {
      PairsFail(h, tag, v, i, n - 1);
    }
  }

  /** An exception in one attribute is the exception of the whole. */
  lemma {:induction false} AttrsFail(c: Codec, attrs: seq<Attr>, i: nat, n: nat)
    requires i <= n <= |attrs|
    requires AttrsBytes(c, attrs, i).Err?
    ensures AttrsBytes(c, attrs, n) == AttrsBytes(c, attrs, i)
  {
    hide AttrBytes;
    if i < n {
      AttrsFail(c, attrs, i, n - 1);
    }
  }

  /** An exception in one child is the exception of the whole. */
  lemma {:induction false} NodesFail(c: Codec, nodes: seq<Node>, i: nat, n: nat)
    requires i <= n <= |nodes|
    requires NodesBytes(c, nodes, i).Err?
    ensures NodesBytes(c, nodes, n) == NodesBytes(c, nodes, i)
  {
    hide NodeBytes;
    if i < n {
      NodesFail(c, nodes, i, n - 1);
    }
  }

  // ---- the encoder --------------------------------------------------------------------

  /** The bytearray that the writing functions share. A method that raises leaves some
      of its bytes behind; one that succeeds has appended exactly its own. */
  class Encoder {
    const codec: Codec
    var out: Bytes

    constructor (codec: Codec, start: Bytes)
      ensures this.codec == codec && out == start
    {
      this.codec := codec;
      out := start;
    }

    method Append(n: int) returns (status: Option<Failure>)
      modifies this
      ensures Appended(ByteOf(n), old(out), out, status)
    {
      if 0 <= n < 256 {
        out := out + [n];
        return None;
      }
      return Some(ByteOutOfRange);
    }

    method WriteListStart(size: nat) returns (status: Option<Failure>)
      modifies this
      ensures Appended(ListStart(size), old(out), out, status)
    {
      status := None;
      if size == 0 {
        out := out + [LIST_EMPTY];
      } else if size < 256 {
        out := out + [LIST_8, size];
      } else {
        out := out + [LIST_16];
        if size >= 0x1_0000 { return Some(TooLarge); }
        out := out + Big2(size);
      }
    }

    method WriteByteLength(length: nat) returns (status: Option<Failure>)
      modifies this
      ensures Appended(ByteLength(length), old(out), out, status)
    {
      status := None;
      if length >= 0x1_0000_0000 { return Some(TooLarge); }
      if length >= 0x10_0000 {
        out := out + [BINARY_32];
        out := out + Big4(length);
      } else if length >= 256 {
        out := out + [BINARY_20];
        out := out + [length / 0x1_0000 % 16, length / 0x100 % 0x100, length % 0x100];
      } else {
        out := out + [BINARY_8, length];
      }
    }

    method WriteBlob(data: Bytes) returns (status: Option<Failure>)
      modifies this
      ensures Appended(Blob(data), old(out), out, status)
    {
      status := WriteByteLength(|data|);
      if status.Some? { return; }
      out := out + data;
    }

    method WritePackedBytes(v: string, tag: Byte) returns (status: Option<Failure>)
      requires |v| <= PACKED_MAX
      modifies this
      ensures Appended(Packed(codec.host, tag, v), old(out), out, status)
    {
      hide PackedByte, PairsBytes;
      out := out + PackedHeader(tag, |v|);
      ghost var header := out;
      ghost var n := |v| / 2;
      PairsNone(codec.host, tag, v);
      var i := 0;
      while i + 1 < |v|
        invariant i % 2 == 0 && i / 2 <= n
        invariant Appended(PairsBytes(codec.host, tag, v, i / 2), header, out, None)
      {
        PairsMore(codec.host, tag, v, i);
        var packed := PackedByte(codec.host, tag, v[i], v[i + 1]);
        if packed.Err? {
          PairsFail(codec.host, tag, v, i / 2 + 1, n);
          return Some(packed.error);
        }
        AppendedThen(PairsBytes(codec.host, tag, v, i / 2), packed, header, out, out + packed.value, None);
        out := out + packed.value;
        i := i + 2;
      }
      assert i / 2 == n;
      ghost var pairs := out;
      ghost var body := Then(Ok(PackedHeader(tag, |v|)), PairsBytes(codec.host, tag, v, n));
      AppendedThen(Ok(PackedHeader(tag, |v|)), PairsBytes(codec.host, tag, v, n), old(out), header, out, None);
      status := None;
      if i < |v| {
        var packed := PackedByte(codec.host, tag, v[|v| - 1], '\0');
        if packed.Err? { return Some(packed.error); }
        out := out + packed.value;
      }
      AppendedThen(body, OddByte(codec.host, tag, v), old(out), pairs, out, status);
    }

    method WriteToken(p: Place) returns (status: Option<Failure>)
      modifies this
      ensures Appended(Token(p), old(out), out, status)
    {
      if p.dict.Some? {
        status := Append(DICTIONARY_0 + p.dict.value);
        if status.Some? { return; }
      }
      status := Append(p.index);
    }

    method WriteString(v: string) returns (status: Option<Failure>)
      modifies this
      ensures Appended(StringBytes(codec, v), old(out), out, status)
      decreases |v|
    {
      if v in codec.tables.tokenMap {
        status := WriteToken(codec.tables.tokenMap[v]);
        return;
      }
      if IsNibble(codec.host, v) {
        status := WritePackedBytes(v, NIBBLE_8);
        return;
      }
      if IsHex(codec.host, v) {
        status := WritePackedBytes(v, HEX_8);
        return;
      }
      var full := SplitFullJid(codec.host, v);
      if full.Err? { return Some(full.error); }
      if full.value.Some? && full.value.value.device.Some? {
        status := WriteAdJid(full.value.value, |v|);
        return;
      }
      var jid := SplitSimpleJid(v);
      if jid.Some? {
        status := WriteJidPair(jid.value.0, jid.value.1, |v|);
        return;
      }
      status := WriteBlob(codec.host.utf8.encode(v));
    }

    /** The AD-JID branch of `_write_string`. */
    method WriteAdJid(jid: FullJid, ghost bound: nat) returns (status: Option<Failure>)
      requires jid.device.Some?
      requires |jid.user| < bound
      modifies this
      ensures Appended(Then(AdJidHeader(jid.domainType, jid.device.value), StringBytes(codec, jid.user)), old(out),
                       out, status)
      decreases bound, 0
    {
      status := WriteAdJidHeader(jid.domainType, jid.device.value);
      if status.Some? { return; }
      status := WriteString(jid.user);
    }

    method WriteAdJidHeader(domainType: int, device: int) returns (status: Option<Failure>)
      modifies this
      ensures Appended(AdJidHeader(domainType, device), old(out), out, status)
    {
      out := out + [AD_JID];
      status := Append(domainType);
      if status.Some? { return; }
      status := Append(device);
    }

    /** The JID-pair branch of `_write_string`. */
    method WriteJidPair(user: string, server: string, ghost bound: nat) returns (status: Option<Failure>)
      requires |user| < bound && |server| < bound
      modifies this
      ensures Appended(Then(Then(Ok([JID_PAIR]), StringBytes(codec, user)), StringBytes(codec, server)), old(out), out,
                       status)
      decreases bound, 0
    {
      out := out + [JID_PAIR];
      ghost var tagged := out;
      status := WriteString(user);
      if status.Some? { return; }
      ghost var head := out;
      AppendedThen(Ok([JID_PAIR]), StringBytes(codec, user), old(out), tagged, head, None);
      status := WriteString(server);
      AppendedThen(Then(Ok([JID_PAIR]), StringBytes(codec, user)), StringBytes(codec, server),
                   old(out), head, out, status);
    }

    method WriteNode(node: Node) returns (status: Option<Failure>)
      modifies this
      ensures Appended(NodeBytes(codec, node), old(out), out, status)
      decreases node, 1
    {
      if node.tag == "" { return Some(EmptyTag); }
      var attrs := Present(node.attrs);
      status := WriteHead(1 + 2 * |attrs| + (if node.content.NoContent? then 0 else 1), node.tag);
      if status.Some? { return; }
      ghost var head := Then(ListStart(ListSize(node)), StringBytes(codec, node.tag));
      ghost var out1 := out;
      status := WriteAttrs(attrs);
      if status.Some? { return; }
      ghost var out2 := out;
      AppendedThen(head, AttrsBytes(codec, attrs, |attrs|), old(out), out1, out2, None);
      status := WriteContent(node.content);
      AppendedThen(Then(head, AttrsBytes(codec, attrs, |attrs|)), ContentBytes(codec, node.content), old(out), out2,
                   out, status);
    }

    method WriteHead(size: nat, tag: string) returns (status: Option<Failure>)
      modifies this
      ensures Appended(Then(ListStart(size), StringBytes(codec, tag)), old(out), out, status)
    {
      status := WriteListStart(size);
      if status.Some? { return; }
      ghost var started := out;
      status := WriteString(tag);
      AppendedThen(ListStart(size), StringBytes(codec, tag), old(out), started, out, status);
    }

    method WriteAttrs(attrs: seq<Attr>) returns (status: Option<Failure>)
      modifies this
      ensures Appended(AttrsBytes(codec, attrs, |attrs|), old(out), out, status)
    {
      hide AttrBytes;
      status := None;
      for i := 0 to |attrs|
        invariant Appended(AttrsBytes(codec, attrs, i), old(out), out, None)
      {
        ghost var before := out;
        status := WriteAttr(attrs[i]);
        AppendedThen(AttrsBytes(codec, attrs, i), AttrBytes(codec, attrs[i]), old(out), before, out, status);
        if status.Some? {
          AttrsFail(codec, attrs, i + 1, |attrs|);
          return;
        }
      }
      status := None;
    }

    method WriteAttr(attr: Attr) returns (status: Option<Failure>)
      modifies this
      ensures Appended(AttrBytes(codec, attr), old(out), out, status)
    {
      status := WriteString(attr.key);
      if status.Some? { return; }
      ghost var keyed := out;
      if attr.value.None? {
        out := out + [LIST_EMPTY];
        status := None;
      } else {
        status := WriteString(attr.value.value);
      }
      AppendedThen(StringBytes(codec, attr.key), ValueBytes(codec, attr.value), old(out), keyed, out, status);
    }

    method WriteContent(content: Content) returns (status: Option<Failure>)
      modifies this
      ensures Appended(ContentBytes(codec, content), old(out), out, status)
      decreases content, 1
    {
      hide StringBytes, NodesBytes, ListStart;
      match content
      case NoContent => status := None;
      case Text(text) => status := WriteString(text);
      case Raw(data) => status := WriteBlob(data);
      case Children(nodes) =>
        status := WriteListStart(|nodes|);
        if status.Some? { return; }
        ghost var started := out;
        status := WriteChildren(nodes);
        AppendedThen(ListStart(|nodes|), NodesBytes(codec, nodes, |nodes|), old(out), started, out, status);
    }

    method WriteChildren(nodes: seq<Node>) returns (status: Option<Failure>)
      modifies this
      ensures Appended(NodesBytes(codec, nodes, |nodes|), old(out), out, status)
      decreases nodes, 0
    {
      hide NodeBytes;
      status := None;
      for i := 0 to |nodes|
        invariant Appended(NodesBytes(codec, nodes, i), old(out), out, None)
      {
        ghost var before := out;
        status := WriteNode(nodes[i]);
        AppendedThen(NodesBytes(codec, nodes, i), NodeBytes(codec, nodes[i]), old(out), before, out, status);
        if status.Some? {
          NodesFail(codec, nodes, i + 1, |nodes|);
          return;
        }
      }
      status := None;
    }
  }

  /** `encode_binary_node` */
  method Encode(c: Codec, node: Node, streamPrefix: bool) returns (r: Encoded)
    ensures r == EncodeBinaryNode(c, node, streamPrefix)
  {
    var encoder := new Encoder(c, if streamPrefix then [0] else []);
    var status := encoder.WriteNode(node);
    r := if status.Some? then Err(status.value) else Ok(encoder.out);
  }
}
