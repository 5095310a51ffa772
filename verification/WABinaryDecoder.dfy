/** The decoder of binary nodes: what each reading function makes of the bytes that
    are left, and the class that moves a cursor over them. */
module WABinaryDecoder {
  import opened Common
  import opened Text
  import opened TokenTables
  import opened WABinary

  /** A value and the bytes left after it. */
  type Read<T> = Result<(T, Bytes), Failure>

  /** A successful read used up at least one byte of `d`. */
  ghost predicate Shortens<T>(r: Read<T>, d: Bytes) {
    r.Ok? ==> |r.value.1| < |d|
  }

  /** A successful read left no more than `d`. */
  ghost predicate Within<T>(r: Read<T>, d: Bytes) {
    r.Ok? ==> |r.value.1| <= |d|
  }

  // ---- what each reading function returns ---------------------------------------------

  function ReadByte(d: Bytes): (r: Read<Byte>)
    ensures Shortens(r, d)
  {
    if d == [] then Err(EndOfStream) else Ok((d[0], d[1..]))
  }

  function ReadBytes(length: nat, d: Bytes): (r: Read<Bytes>)
    ensures Within(r, d)
  {
    if length > |d| then Err(EndOfStream) else Ok((d[..length], d[length..]))
  }

  function ReadListSize(tag: Byte, d: Bytes): (r: Read<nat>)
    ensures Within(r, d)
  {
    if tag == LIST_EMPTY then Ok((0, d))
    else if tag == LIST_8 then
      var (n, rest) :- ReadByte(d);
      Ok((n as nat, rest))
    else if tag == LIST_16 then ReadBig(2, d)
    else Err(InvalidListTag)
  }

  function ReadBig(width: nat, d: Bytes): (r: Read<nat>)
    requires width == 2 || width == 4
    ensures Shortens(r, d)
  {
    var (b, rest) :- ReadBytes(width, d);
    Ok((FromBig(b), rest))
  }

  predicate IsListTag(tag: Byte) {
    tag == LIST_EMPTY || tag == LIST_8 || tag == LIST_16
  }

  predicate IsBinaryTag(tag: Byte) {
    tag == BINARY_8 || tag == BINARY_20 || tag == BINARY_32
  }

  function ReadLength(tag: Byte, d: Bytes): (r: Read<nat>)
    requires IsBinaryTag(tag)
    ensures Shortens(r, d)
  {
    if tag == BINARY_8 then
      var (n, rest) :- ReadByte(d);
      Ok((n as nat, rest))
    else if tag == BINARY_20 then
      var (a, d1) :- ReadByte(d);
      var (b, d2) :- ReadByte(d1);
      var (c, d3) :- ReadByte(d2);
      Ok((a as int % 16 * 0x1_0000 + b as int * 0x100 + c as int, d3))
    else ReadBig(4, d)
  }

  /** `_read_bytes_by_binary_tag` */
  function ReadBlob(tag: Byte, d: Bytes): (r: Read<Bytes>)
    requires IsBinaryTag(tag)
    ensures Shortens(r, d)
  {
    var (length, rest) :- ReadLength(tag, d);
    ReadBytes(length, rest)
  }

  function UnpackByte(tag: Byte, b: Byte): Result<string, Failure> {
    match (UnpackNibble(tag, b / 16), UnpackNibble(tag, b % 16))
    case (Some(hi), Some(lo)) => Ok([hi, lo])
    case _ => Err(InvalidNibble)
  }

  /** The characters of the first `n` packed bytes. */
  function ReadPairs(tag: Byte, n: nat, d: Bytes): (r: Read<string>)
    ensures Within(r, d)
    ensures r.Ok? ==> |r.value.0| == 2 * n
  {
    if n == 0 then Ok(("", d))
    else
      var (front, d1) :- ReadPairs(tag, n - 1, d);
      var (b, rest) :- ReadByte(d1);
      var pair :- UnpackByte(tag, b);
      Ok((front + pair, rest))
  }

  /** `_read_packed8` */
  function ReadPacked(tag: Byte, d: Bytes): (r: Read<string>)
    ensures Shortens(r, d)
  {
    var (start, d1) :- ReadByte(d);
    var (s, rest) :- ReadPairs(tag, start as int % 0x80, d1);
    Ok((if start >= 0x80 then DropLast(s) else s, rest))
  }

  function DropLast(s: string): string {
    if s == "" then "" else s[..|s| - 1]
  }

  /** A tag byte and the string that it announces. */
  function ReadTagged(c: Codec, d: Bytes): (r: Read<string>)
    ensures Shortens(r, d)
    decreases |d|, 0
  {
    var (tag, rest) :- ReadByte(d);
    ReadString(c, tag, rest)
  }

  /** `_read_string` */
  function ReadString(c: Codec, tag: Byte, d: Bytes): (r: Read<string>)
    ensures Within(r, d)
    decreases |d|, 1
  {
    if 1 <= tag < |c.tables.single| then Ok((c.tables.single[tag], d))
    else if DICTIONARY_0 <= tag <= DICTIONARY_3 then ReadDictionary(c, tag - DICTIONARY_0, d)
    else if tag == LIST_EMPTY then Ok(("", d))
    else if IsBinaryTag(tag) then
      var (data, rest) :- ReadBlob(tag, d);
      match c.host.utf8.decode(data)
      case Some(s) => Ok((s, rest))
      case None => Err(BadUtf8)
    else if tag == JID_PAIR then
      var (user, d1) :- ReadTagged(c, d);
      var (server, rest) :- ReadTagged(c, d1);
      Ok((user + "@" + server, rest))
    else if tag == AD_JID then
      var (domainType, d1) :- ReadByte(d);
      var (device, d2) :- ReadByte(d1);
      var (user, rest) :- ReadTagged(c, d2);
      Ok((AdJidText(user, device, domainType), rest))
    else if tag == FB_JID then
      var (user, d1) :- ReadTagged(c, d);
      var (device, d2) :- ReadBig(2, d1);
      var (server, rest) :- ReadTagged(c, d2);
      Ok((user + ":" + Decimal(device) + "@" + server, rest))
    else if tag == INTEROP_JID then
      var (user, d1) :- ReadTagged(c, d);
      var (device, d2) :- ReadBig(2, d1);
      var (integrator, d3) :- ReadBig(2, d2);
      var (server, rest) := InteropServer(c, d3);
      Ok((Decimal(integrator) + "-" + user + ":" + Decimal(device) + "@" + server, rest))
    else if tag == NIBBLE_8 || tag == HEX_8 then ReadPacked(tag, d)
    else Err(UnsupportedTag)
  }

  /** The server of an interop JID; when none can be read the cursor goes back. */
  function InteropServer(c: Codec, d: Bytes): (r: (string, Bytes))
    ensures |r.1| <= |d|
    decreases |d|, 1
  {
    match ReadTagged(c, d)
    case Ok(read) => read
    case Err(_) => ("interop", d)
  }

  function ReadDictionary(c: Codec, dict: nat, d: Bytes): (r: Read<string>)
    ensures Shortens(r, d)
  {
    var (index, rest) :- ReadByte(d);
    if dict < |c.tables.double| && index < |c.tables.double[dict]| then Ok((c.tables.double[dict][index], rest))
    else Err(InvalidToken)
  }

  /** The dictionary built from the first `n` attributes. */
  function ReadAttrs(c: Codec, n: nat, d: Bytes): (r: Read<seq<Attr>>)
    ensures Within(r, d)
  {
    if n == 0 then Ok(([], d))
    else
      var (attrs, d1) :- ReadAttrs(c, n - 1, d);
      var (key, d2) :- ReadTagged(c, d1);
      var (value, rest) :- ReadTagged(c, d2);
      Ok((DictSet(attrs, key, value), rest))
  }

  /** The first `n` children. */
  function ReadNodes(c: Codec, n: nat, d: Bytes): (r: Read<seq<Node>>)
    ensures Within(r, d)
    decreases |d|, 1, n
  {
    if n == 0 then Ok(([], d))
    else
      var (nodes, d1) :- ReadNodes(c, n - 1, d);
      var (node, rest) :- ReadNode(c, d1);
      Ok((nodes + [node], rest))
  }

  function ReadContent(c: Codec, d: Bytes): (r: Read<Content>)
    ensures Shortens(r, d)
    decreases |d|, 0
  {
    var (tag, d1) :- ReadByte(d);
    if IsListTag(tag) then
      var (size, d2) :- ReadListSize(tag, d1);
      var (nodes, rest) :- ReadNodes(c, size, d2);
      Ok((Children(nodes), rest))
    else if IsBinaryTag(tag) then
      var (data, rest) :- ReadBlob(tag, d1);
      Ok((Raw(data), rest))
    else
      var (s, rest) :- ReadString(c, tag, d1);
      Ok((Content.Text(s), rest))
  }

  /** `read_node` */
  function ReadNode(c: Codec, d: Bytes): (r: Read<Node>)
    ensures Shortens(r, d)
    decreases |d|, 0
  {
    var (listTag, d1) :- ReadByte(d);
    var (size, d2) :- ReadListSize(listTag, d1);
    if size < 1 then Err(InvalidNode)
    else
      var (tag, d3) :- ReadTagged(c, d2);
      var (attrs, d4) :- ReadAttrs(c, (size - 1) / 2, d3);
      if size % 2 == 1 then Ok((Node(tag, attrs, NoContent), d4))
      else
        var (content, rest) :- ReadContent(c, d4);
        Ok((Node(tag, attrs, content), rest))
  }

  /** `decode_binary_node`: bytes after the node are ignored. */
  function DecodeBinaryNode(c: Codec, data: Bytes, streamPrefix: bool): Result<Node, Failure> {
    var (node, _) :- ReadNode(c, if streamPrefix && data != [] then data[1..] else data);
    Ok(node)
  }

  // ---- the decoder --------------------------------------------------------------------

  class Decoder {
    const codec: Codec
    const data: Bytes
    var index: nat

    constructor (codec: Codec, data: Bytes)
      ensures this.codec == codec && this.data == data && index == 0
    {
      this.codec := codec;
      this.data := data;
      index := 0;
    }

    ghost predicate Valid()
      reads this
    {
      index <= |data|
    }

    /** The bytes that have not been read. */
    ghost function Rest(): Bytes
      requires Valid()
      reads this
    {
      data[index..]
    }

    /** `r` is what `spec` returns, and the cursor stands where `spec` says. */
    ghost predicate Has<T>(spec: Read<T>, r: Result<T, Failure>)
      requires Valid()
      reads this
    {
      match spec
      case Ok((value, rest)) => r == Ok(value) && Rest() == rest
      case Err(e) => r == Err(e)
    }

    method NextByte() returns (r: Result<Byte, Failure>)
      requires Valid()
      modifies this
      ensures Valid() && Has(ReadByte(old(Rest())), r) && old(index) <= index
    {
      if index + 1 > |data| { return Err(EndOfStream); }
      r := Ok(data[index]);
      index := index + 1;
    }

    method NextBytes(length: nat) returns (r: Result<Bytes, Failure>)
      requires Valid()
      modifies this
      ensures Valid() && Has(ReadBytes(length, old(Rest())), r) && old(index) <= index
    {
      if index + length > |data| { return Err(EndOfStream); }
      r := Ok(data[index..index + length]);
      assert data[index..][..length] == data[index..index + length];
      assert data[index..][length..] == data[index + length..];
      index := index + length;
    }

    method NextBig(width: nat) returns (r: Result<nat, Failure>)
      requires Valid()
      requires width == 2 || width == 4
      modifies this
      ensures Valid() && Has(ReadBig(width, old(Rest())), r) && old(index) <= index
    {
      var b :- NextBytes(width);
      r := Ok(FromBig(b));
    }

    method NextListSize(tag: Byte) returns (r: Result<nat, Failure>)
      requires Valid()
      modifies this
      ensures Valid() && Has(ReadListSize(tag, old(Rest())), r) && old(index) <= index
    {
      if tag == LIST_EMPTY { return Ok(0); }
      if tag == LIST_8 {
        var n :- NextByte();
        return Ok(n as nat);
      }
      if tag == LIST_16 {
        r := NextBig(2);
        return;
      }
      return Err(InvalidListTag);
    }

    method NextBlob(tag: Byte) returns (r: Result<Bytes, Failure>)
      requires Valid() && IsBinaryTag(tag)
      modifies this
      ensures Valid() && Has(ReadBlob(tag, old(Rest())), r) && old(index) <= index
    {
      var length := 0;
      if tag == BINARY_8 {
        var n :- NextByte();
        length := n as nat;
      } else if tag == BINARY_20 {
        var a :- NextByte();
        var b :- NextByte();
        var c :- NextByte();
        length := a as int % 16 * 0x1_0000 + b as int * 0x100 + c as int;
      } else {
        length :- NextBig(4);
      }
      r := NextBytes(length);
    }

    method NextPacked(tag: Byte) returns (r: Result<string, Failure>)
      requires Valid()
      modifies this
      ensures Valid() && Has(ReadPacked(tag, old(Rest())), r) && old(index) <= index
    {
      var start :- NextByte();
      var n := start as int % 0x80;
      ghost var packed := Rest();
      var s := "";
      for i := 0 to n
        invariant Valid() && old(index) <= index
        invariant ReadPairs(tag, i, packed) == Ok((s, Rest()))
      {
        var b := NextByte();
        if b.Err? {
          PairsFail(tag, i + 1, n, packed);
          return Err(b.error);
        }
        var pair := UnpackByte(tag, b.value);
        if pair.Err? {
          PairsFail(tag, i + 1, n, packed);
          return Err(pair.error);
        }
        s := s + pair.value;
      }
      r := Ok(if start >= 0x80 then DropLast(s) else s);
    }

    method NextTagged() returns (r: Result<string, Failure>)
      requires Valid()
      modifies this
      ensures Valid() && Has(ReadTagged(codec, old(Rest())), r) && old(index) <= index
      ensures r.Ok? ==> old(index) < index
      decreases |data| - index, 0
    {
      var tag :- NextByte();
      r := NextString(tag);
    }

    method NextString(tag: Byte) returns (r: Result<string, Failure>)
      requires Valid()
      modifies this
      ensures Valid() && Has(ReadString(codec, tag, old(Rest())), r) && old(index) <= index
      decreases |data| - index, 1
    {
      if 1 <= tag < |codec.tables.single| { return Ok(codec.tables.single[tag]); }
      if DICTIONARY_0 <= tag <= DICTIONARY_3 {
        var dict: nat := tag - DICTIONARY_0;
        var index :- NextByte();
        if dict < |codec.tables.double| && index < |codec.tables.double[dict]| {
          return Ok(codec.tables.double[dict][index]);
        }
        return Err(InvalidToken);
      }
      if tag == LIST_EMPTY { return Ok(""); }
      if IsBinaryTag(tag) {
        var bytes :- NextBlob(tag);
        var s := codec.host.utf8.decode(bytes);
        return if s.Some? then Ok(s.value) else Err(BadUtf8);
      }
      if tag == JID_PAIR {
        var user :- NextTagged();
        var server :- NextTagged();
        return Ok(user + "@" + server);
      }
      if tag == AD_JID {
        var domainType :- NextByte();
        var device :- NextByte();
        var user :- NextTagged();
        return Ok(AdJidText(user, device, domainType));
      }
      if tag == FB_JID {
        var user :- NextTagged();
        var device :- NextBig(2);
        var server :- NextTagged();
        return Ok(user + ":" + Decimal(device) + "@" + server);
      }
      if tag == INTEROP_JID {
        var user :- NextTagged();
        var device :- NextBig(2);
        var integrator :- NextBig(2);
        var beforeServer := index;
        var server := NextTagged();
        if server.Err? {
          index := beforeServer;
          server := Ok("interop");
        }
        return Ok(Decimal(integrator) + "-" + user + ":" + Decimal(device) + "@" + server.value);
      }
      if tag == NIBBLE_8 || tag == HEX_8 {
        r := NextPacked(tag);
        return;
      }
      return Err(UnsupportedTag);
    }

    method NextAttrs(n: nat) returns (r: Result<seq<Attr>, Failure>)
      requires Valid()
      modifies this
      ensures Valid() && Has(ReadAttrs(codec, n, old(Rest())), r) && old(index) <= index
    {
      var attrs: seq<Attr> := [];
      for i := 0 to n
        invariant Valid() && old(index) <= index
        invariant ReadAttrs(codec, i, old(Rest())) == Ok((attrs, Rest()))
      {
        var key := NextTagged();
        if key.Err? {
          AttrsFail(codec, i + 1, n, old(Rest()));
          return Err(key.error);
        }
        var value := NextTagged();
        if value.Err? {
          AttrsFail(codec, i + 1, n, old(Rest()));
          return Err(value.error);
        }
        attrs := DictSet(attrs, key.value, value.value);
      }
      r := Ok(attrs);
    }

    method NextNodes(n: nat) returns (r: Result<seq<Node>, Failure>)
      requires Valid()
      modifies this
      ensures Valid() && Has(ReadNodes(codec, n, old(Rest())), r) && old(index) <= index
      decreases |data| - index, 1
    {
      var nodes: seq<Node> := [];
      for i := 0 to n
        invariant Valid() && old(index) <= index
        invariant ReadNodes(codec, i, old(Rest())) == Ok((nodes, Rest()))
      {
        var node := NextNode();
        if node.Err? {
          NodesFail(codec, i + 1, n, old(Rest()));
          return Err(node.error);
        }
        nodes := nodes + [node.value];
      }
      r := Ok(nodes);
    }

    method NextContent() returns (r: Result<Content, Failure>)
      requires Valid()
      modifies this
      ensures Valid() && Has(ReadContent(codec, old(Rest())), r) && old(index) <= index
      decreases |data| - index, 0
    {
      var tag :- NextByte();
      if IsListTag(tag) {
        var size :- NextListSize(tag);
        var nodes :- NextNodes(size);
        return Ok(Children(nodes));
      }
      if IsBinaryTag(tag) {
        var bytes :- NextBlob(tag);
        return Ok(Raw(bytes));
      }
      var s :- NextString(tag);
      return Ok(Content.Text(s));
    }

    method NextNode() returns (r: Result<Node, Failure>)
      requires Valid()
      modifies this
      ensures Valid() && Has(ReadNode(codec, old(Rest())), r) && old(index) <= index
      ensures r.Ok? ==> old(index) < index
      decreases |data| - index, 0
    {
      var listTag :- NextByte();
      var size :- NextListSize(listTag);
      if size < 1 { return Err(InvalidNode); }
      var tag :- NextTagged();
      var attrs :- NextAttrs((size - 1) / 2);
      if size % 2 == 1 { return Ok(Node(tag, attrs, NoContent)); }
      var content :- NextContent();
      return Ok(Node(tag, attrs, content));
    }
  }

  lemma {:induction false} PairsFail(tag: Byte, i: nat, n: nat, d: Bytes)
    requires i <= n && ReadPairs(tag, i, d).Err?
    ensures ReadPairs(tag, n, d) == ReadPairs(tag, i, d)
  {
    if i < n {
      PairsFail(tag, i, n - 1, d);
    }
  }

  lemma {:induction false} AttrsFail(c: Codec, i: nat, n: nat, d: Bytes)
    requires i <= n && ReadAttrs(c, i, d).Err?
    ensures ReadAttrs(c, n, d) == ReadAttrs(c, i, d)
  {
    hide ReadTagged;
    if i < n {
      AttrsFail(c, i, n - 1, d);
    }
  }

  lemma {:induction false} NodesFail(c: Codec, i: nat, n: nat, d: Bytes)
    requires i <= n && ReadNodes(c, i, d).Err?
    ensures ReadNodes(c, n, d) == ReadNodes(c, i, d)
  {
    hide ReadNode;
    if i < n {
      NodesFail(c, i, n - 1, d);
    }
  }

  /** `decode_binary_node` */
  method Decode(c: Codec, data: Bytes, streamPrefix: bool) returns (r: Result<Node, Failure>)
    ensures r == DecodeBinaryNode(c, data, streamPrefix)
  {
    var decoder := new Decoder(c, if streamPrefix && data != [] then data[1..] else data);
    r := decoder.NextNode();
  }
}
