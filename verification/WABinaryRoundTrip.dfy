/** Reading back what the encoder wrote: every string and every node comes back as its
    normal form, and the normal forms that change nothing are told apart. */
module WABinaryRoundTrip {
  import opened Common
  import opened Text
  import opened TokenTables
  import opened WABinary
  import opened WABinaryEncoder
  import opened WABinaryDecoder

  // ---- normal forms -------------------------------------------------------------------

  /** What a string comes back as. */
  function Norm(c: Codec, v: string): string
    decreases |v|
  {
    match Classify(c, v)
    case AdJidForm(user, device, domainType) =>
      if device < 0 then v else AdJidText(Norm(c, user), device, domainType)
    case JidPairForm(user, server) => Norm(c, user) + "@" + Norm(c, server)
    case _ => v
  }

  /** Nothing that is packed contains a digit beyond ASCII. */
  predicate Clean(c: Codec, v: string)
    decreases |v|
  {
    match Classify(c, v)
    case PackedForm(_) => AsciiText(v)
    case AdJidForm(user, _, _) => Clean(c, user)
    case JidPairForm(user, server) => Clean(c, user) && Clean(c, server)
    case _ => true
  }

  function NormAttrs(c: Codec, attrs: seq<Attr>, n: nat): seq<Attr>
    requires n <= |attrs|
  {
    if n == 0 then []
    else DictSet(NormAttrs(c, attrs, n - 1), Norm(c, attrs[n - 1].key), NormValue(c, attrs[n - 1].value))
  }

  function NormValue(c: Codec, value: Option<string>): string {
    if value.None? then "" else Norm(c, value.value)
  }

  /** Text that is written as plain bytes comes back as bytes. */
  function NormContent(c: Codec, content: Content): Content
    decreases content, 0
  {
    match content
    case Text(text) =>
      if Classify(c, text).PlainForm? then Raw(c.host.utf8.encode(text)) else Content.Text(Norm(c, text))
    case Children(nodes) => Children(NormNodes(c, nodes, |nodes|))
    case _ => content
  }

  function NormNodes(c: Codec, nodes: seq<Node>, n: nat): (r: seq<Node>)
    requires n <= |nodes|
    ensures |r| == n
    decreases nodes, n
  {
    if n == 0 then [] else NormNodes(c, nodes, n - 1) + [NormNode(c, nodes[n - 1])]
  }

  function NormNode(c: Codec, node: Node): Node
    decreases node, 1
  {
    var attrs := Present(node.attrs);
    Node(Norm(c, node.tag), NormAttrs(c, attrs, |attrs|), NormContent(c, node.content))
  }

  predicate CleanAttrs(c: Codec, attrs: seq<Attr>) {
    forall i :: 0 <= i < |attrs| ==>
      Clean(c, attrs[i].key) && (attrs[i].value.Some? ==> Clean(c, attrs[i].value.value))
  }

  predicate CleanContent(c: Codec, content: Content) {
    match content
    case Text(text) => Clean(c, text)
    case Children(nodes) => forall i :: 0 <= i < |nodes| ==> CleanNode(c, nodes[i])
    case _ => true
  }

  predicate CleanNode(c: Codec, node: Node) {
    Clean(c, node.tag) && CleanAttrs(c, Present(node.attrs)) && CleanContent(c, node.content)
  }

  // ---- the pieces of the format -------------------------------------------------------

  lemma ListStartBack(n: nat, suffix: Bytes)
    requires ListStart(n).Ok?
    ensures var b := ListStart(n).value;
            b != [] && IsListTag(b[0]) && ReadListSize(b[0], b[1..] + suffix) == Ok((n, suffix))
  {
    var b := ListStart(n).value;
    var d := b[1..] + suffix;
    if 0 < n < 256 {
      assert d[0] == n && d[1..] == suffix;
    } else if n != 0 {
      assert d[..2] == Big2(n) && d[2..] == suffix;
    } else {
      assert d == suffix;
    }
  }

  lemma ByteLengthBack(n: nat, suffix: Bytes)
    requires ByteLength(n).Ok?
    ensures var b := ByteLength(n).value;
            b != [] && IsBinaryTag(b[0]) && ReadLength(b[0], b[1..] + suffix) == Ok((n, suffix))
  {
    var b := ByteLength(n).value;
    var d := b[1..] + suffix;
    if n >= 0x10_0000 {
      assert d[..4] == Big4(n) && d[4..] == suffix;
    } else if n >= 256 {
      assert d[1..][1..][1..] == suffix;
      assert n == n / 0x1_0000 * 0x1_0000 + n / 0x100 % 0x100 * 0x100 + n % 0x100;
    } else {
      assert d[1..] == suffix;
    }
  }

  lemma BlobBack(data: Bytes, suffix: Bytes)
    requires Blob(data).Ok?
    ensures var b := Blob(data).value;
            b != [] && IsBinaryTag(b[0]) && ReadBlob(b[0], b[1..] + suffix) == Ok((data, suffix))
  {
    var length := ByteLength(|data|).value;
    var b := Blob(data).value;
    ByteLengthBack(|data|, data + suffix);
    assert b[1..] + suffix == length[1..] + (data + suffix);
    assert (data + suffix)[..|data|] == data && (data + suffix)[|data|..] == suffix;
  }

  /** A character that packing accepts and unpacking gives back. */
  predicate Packable(tag: Byte, ch: char) {
    AsciiDigit(ch) || (if tag == NIBBLE_8 then ch == '-' || ch == '.' else 'A' <= ch <= 'F')
  }

  lemma PackedByteBack(h: Host, tag: Byte, hi: char, lo: char)
    requires tag == NIBBLE_8 || tag == HEX_8
    requires Packable(tag, hi) && (Packable(tag, lo) || lo == '\0')
    ensures PackedByte(h, tag, hi, lo).Ok?
    ensures var b := PackedByte(h, tag, hi, lo).value;
            |b| == 1 && UnpackByte(tag, b[0]) == Ok([hi, if lo == '\0' && tag == HEX_8 then 'F' else lo])
    ensures Packable(tag, lo) ==> UnpackByte(tag, PackedByte(h, tag, hi, lo).value[0]) == Ok([hi, lo])
  {
    PackBack(h, tag, hi);
    PackBack(h, tag, lo);
    hide Packable, Pack, UnpackNibble, BitOr;
    var a, z := Pack(h, tag, hi).value, Pack(h, tag, lo).value;
    BitOrNibble(a, z);
    assert (a * 16 + z) / 16 == a && (a * 16 + z) % 16 == z;
  }

  lemma PackBack(h: Host, tag: Byte, ch: char)
    requires tag == NIBBLE_8 || tag == HEX_8
    requires Packable(tag, ch) || ch == '\0'
    ensures Pack(h, tag, ch).Some? && Pack(h, tag, ch).value < 16
    ensures UnpackNibble(tag, Pack(h, tag, ch).value) == Some(if ch == '\0' && tag == HEX_8 then 'F' else ch)
  {
  }

  lemma {:induction false} PairsBack(h: Host, tag: Byte, v: string, n: nat, suffix: Bytes)
    requires tag == NIBBLE_8 || tag == HEX_8
    requires 2 * n <= |v|
    requires forall i :: 0 <= i < |v| ==> Packable(tag, v[i])
    ensures PairsBytes(h, tag, v, n).Ok?
    ensures ReadPairs(tag, n, PairsBytes(h, tag, v, n).value + suffix) == Ok((v[..2 * n], suffix))
  {
    hide PackedByte, Packable, UnpackByte;
    if n == 0 {
      assert PairsBytes(h, tag, v, n).value + suffix == suffix;
    } else {
      PackedByteBack(h, tag, v[2 * n - 2], v[2 * n - 1]);
      var b := PackedByte(h, tag, v[2 * n - 2], v[2 * n - 1]).value;
      PairsBack(h, tag, v, n - 1, b + suffix);
      var front := PairsBytes(h, tag, v, n - 1).value;
      ReadPairsMore(tag, n - 1, front, b, suffix);
      assert v[..2 * n - 2] + [v[2 * n - 2], v[2 * n - 1]] == v[..2 * n];
    }
  }

  /** Every odd and even length up to 127 comes back. */
  lemma PackedBack(h: Host, tag: Byte, v: string, suffix: Bytes)
    requires tag == NIBBLE_8 || tag == HEX_8
    requires 0 < |v| <= PACKED_MAX
    requires forall i :: 0 <= i < |v| ==> Packable(tag, v[i])
    ensures Packed(h, tag, v).Ok?
    ensures var b := Packed(h, tag, v).value;
            b != [] && b[0] == tag && ReadPacked(tag, b[1..] + suffix) == Ok((v, suffix))
  {
    hide PackedByte, Packable, UnpackByte, ReadPairs;
    var n := |v| / 2;
    var header := PackedHeader(tag, |v|);
    PairsBack(h, tag, v, n, suffix);
    var pairs := PairsBytes(h, tag, v, n).value;
    if |v| % 2 == 0 {
      assert Packed(h, tag, v) == Ok(header + pairs + []);
      assert header + pairs + [] == [tag, n] + pairs;
      assert v[..2 * n] == v;
      ReadPackedBack(tag, n, pairs, v, suffix);
    } else {
      var last := v[|v| - 1];
      PackedByteBack(h, tag, last, '\0');
      var odd := PackedByte(h, tag, last, '\0').value;
      PairsBack(h, tag, v, n, odd + suffix);
      ReadPairsMore(tag, n, pairs, odd, suffix);
      assert Packed(h, tag, v) == Ok(header + pairs + odd);
      assert header + pairs + odd == [tag, n + 1 + 0x80] + (pairs + odd);
      var text := v[..2 * n] + UnpackByte(tag, odd[0]).value;
      assert text[..|text| - 1] == v;
      ReadPackedBack(tag, n + 1 + 0x80, pairs + odd, text, suffix);
    }
  }

  /** One more packed byte. */
  lemma ReadPairsMore(tag: Byte, n: nat, front: Bytes, b: Bytes, suffix: Bytes)
    requires |b| == 1 && UnpackByte(tag, b[0]).Ok?
    requires var r := ReadPairs(tag, n, front + (b + suffix)); r.Ok? && r.value.1 == b + suffix
    ensures ReadPairs(tag, n + 1, front + b + suffix) ==
            Ok((ReadPairs(tag, n, front + (b + suffix)).value.0 + UnpackByte(tag, b[0]).value, suffix))
  {
    assert front + b + suffix == front + (b + suffix);
    assert (b + suffix)[1..] == suffix;
  }

  lemma ReadPackedBack(tag: Byte, start: Byte, body: Bytes, text: string, suffix: Bytes)
    requires ReadPairs(tag, start as int % 0x80, body + suffix) == Ok((text, suffix))
    ensures ReadPacked(tag, ([tag, start] + body)[1..] + suffix) ==
            Ok((if start >= 0x80 then DropLast(text) else text, suffix))
  {
    var d := ([tag, start] + body)[1..] + suffix;
    assert d[0] == start && d[1..] == body + suffix;
  }

  predicate AsciiText(s: string) {
    forall i :: 0 <= i < |s| ==> s[i] as int < 128 && s[i] != '@'
  }

  /** Unpacking takes exactly its bytes and only ever yields ASCII other than `@`. */
  lemma {:induction false} PairsText(tag: Byte, n: nat, d: Bytes)
    requires ReadPairs(tag, n, d).Ok?
    ensures n <= |d| && ReadPairs(tag, n, d).value.1 == d[n..]
    ensures AsciiText(ReadPairs(tag, n, d).value.0)
  {
    if n > 0 {
      PairsText(tag, n - 1, d);
    }
  }

  lemma {:induction false} PairsLength(h: Host, tag: Byte, v: string, n: nat)
    requires 2 * n <= |v| && PairsBytes(h, tag, v, n).Ok?
    ensures |PairsBytes(h, tag, v, n).value| == n
  {
    hide BitOr, Pack;
    if n > 0 {
      PairsLength(h, tag, v, n - 1);
    }
  }

  lemma OddLength(h: Host, tag: Byte, v: string)
    requires OddByte(h, tag, v).Ok?
    ensures |OddByte(h, tag, v).value| == |v| % 2
  {
    hide BitOr, Pack;
  }

  lemma LengthByte(tag: Byte, length: nat)
    requires length <= PACKED_MAX
    ensures |PackedHeader(tag, length)| == 2 && PackedHeader(tag, length)[0] == tag
    ensures PackedHeader(tag, length)[1] as int % 0x80 == length / 2 + length % 2
  {
  }

  /** Whatever was packed, reading it takes exactly its bytes and yields ASCII. */
  lemma PackedText(h: Host, tag: Byte, v: string, suffix: Bytes)
    requires 0 < |v| <= PACKED_MAX && Packed(h, tag, v).Ok?
    ensures var b := Packed(h, tag, v).value;
            && b != [] && b[0] == tag
            && var r := ReadPacked(tag, b[1..] + suffix);
               r.Ok? ==> r.value.1 == suffix && AsciiText(r.value.0)
  {
    hide PackedByte, PairsBytes, UnpackByte, ReadPairs;
    var pairs, odd := PairsBytes(h, tag, v, |v| / 2).value, OddByte(h, tag, v).value;
    PairsLength(h, tag, v, |v| / 2);
    OddLength(h, tag, v);
    LengthByte(tag, |v|);
    var b := Packed(h, tag, v).value;
    var start := b[1];
    var d := b[1..] + suffix;
    var n := |pairs| + |odd|;
    assert d[0] == start && d[1..] == pairs + odd + suffix && start as int % 0x80 == n;
    if ReadPairs(tag, n, d[1..]).Ok? {
      PairsText(tag, n, d[1..]);
      assert d[1..][n..] == suffix;
    }
  }

  // ---- strings ------------------------------------------------------------------------

  lemma TokenBack(c: Codec, v: string, suffix: Bytes)
    requires c.Valid() && v in c.tables.tokenMap
    ensures Token(c.tables.tokenMap[v]).Ok?
    ensures var b := Token(c.tables.tokenMap[v]).value;
            b != [] && 1 <= b[0] <= DICTIONARY_3 && ReadString(c, b[0], b[1..] + suffix) == Ok((v, suffix))
  {
    var p := c.tables.tokenMap[v];
    assert StandsAt(c.tables.single, c.tables.double, v, p);
    var b := Token(p).value;
    var d := b[1..] + suffix;
    if p.dict.None? {
      assert d == suffix;
    } else {
      assert d[0] == p.index && d[1..] == suffix;
    }
  }

  /** An encoded string is announced by its first byte. */
  lemma ReadTaggedFrom(c: Codec, b: Bytes, suffix: Bytes)
    requires b != []
    ensures ReadTagged(c, b + suffix) == ReadString(c, b[0], b[1..] + suffix)
  {
    assert (b + suffix)[0] == b[0] && (b + suffix)[1..] == b[1..] + suffix;
  }

  lemma ReadPairBack(c: Codec, user: Bytes, server: Bytes, suffix: Bytes)
    requires c.Valid()
    ensures ReadString(c, JID_PAIR, (([JID_PAIR] + user) + server)[1..] + suffix) ==
            (var first :- ReadTagged(c, user + (server + suffix));
             var second :- ReadTagged(c, first.1);
             Ok((first.0 + "@" + second.0, second.1)))
  {
    assert (([JID_PAIR] + user) + server)[1..] + suffix == user + (server + suffix);
  }

  lemma ReadAdJidBack(c: Codec, domainType: Byte, device: Byte, user: Bytes, suffix: Bytes)
    requires c.Valid()
    ensures ReadString(c, AD_JID, ([AD_JID, domainType, device] + user)[1..] + suffix) ==
            (var read :- ReadTagged(c, user + suffix);
             Ok((AdJidText(read.0, device, domainType), read.1)))
  {
    var d := ([AD_JID, domainType, device] + user)[1..] + suffix;
    assert d[0] == domainType && d[1..][0] == device && d[1..][1..] == user + suffix;
  }

  /** A string without `@` is not an address. */
  lemma PlainUser(c: Codec, v: string)
    requires '@' !in v
    ensures !Classify(c, v).AdJidForm? && !Classify(c, v).JidPairForm?
    ensures Norm(c, v) == v
  {
  }

  /** What reading an encoded string can give, clean or not. */
  ghost predicate Back(c: Codec, v: string, suffix: Bytes, r: Read<string>) {
    && (Clean(c, v) ==> r == Ok((Norm(c, v), suffix)))
    && (!Clean(c, v) && r.Ok? ==> r.value.0 != Norm(c, v) && r.value.1 == suffix)
    && (r.Ok? && '@' !in v ==> '@' !in r.value.0)
  }

  lemma PackedFormBack(c: Codec, v: string, suffix: Bytes)
    requires c.Valid() && StringBytes(c, v).Ok? && Classify(c, v).PackedForm?
    ensures var b := StringBytes(c, v).value; b != [] && Back(c, v, suffix, ReadTagged(c, b + suffix))
  {
    hide Packed, ReadPacked;
    var tag := Classify(c, v).tag;
    var b := StringBytes(c, v).value;
    PackedText(c.host, tag, v, suffix);
    if Clean(c, v) {
      assert forall i :: 0 <= i < |v| ==> Packable(tag, v[i]);
      PackedBack(c.host, tag, v, suffix);
    }
    ReadTaggedFrom(c, b, suffix);
  }

  lemma PlainFormBack(c: Codec, v: string, suffix: Bytes)
    requires c.Valid() && StringBytes(c, v).Ok? && Classify(c, v).PlainForm?
    ensures var b := StringBytes(c, v).value; b != [] && ReadTagged(c, b + suffix) == Ok((v, suffix))
  {
    hide Blob, ReadBlob;
    var b := StringBytes(c, v).value;
    BlobBack(c.host.utf8.encode(v), suffix);
    assert c.host.utf8.decode(c.host.utf8.encode(v)) == Some(v);
    ReadTaggedFrom(c, b, suffix);
  }

  lemma TokenFormBack(c: Codec, v: string, suffix: Bytes)
    requires c.Valid() && StringBytes(c, v).Ok? && Classify(c, v).TokenForm?
    ensures var b := StringBytes(c, v).value; b != [] && ReadTagged(c, b + suffix) == Ok((v, suffix))
  {
    TokenBack(c, v, suffix);
    ReadTaggedFrom(c, StringBytes(c, v).value, suffix);
  }

  /** The AD-JID case, given what becomes of the user. */
  lemma AdJidFormBack(c: Codec, v: string, suffix: Bytes)
    requires c.Valid() && StringBytes(c, v).Ok? && Classify(c, v).AdJidForm?
    requires StringBytes(c, Classify(c, v).user).Ok?
    requires var user := Classify(c, v).user;
             Back(c, user, suffix, ReadTagged(c, StringBytes(c, user).value + suffix))
    ensures var b := StringBytes(c, v).value; b != [] && Back(c, v, suffix, ReadTagged(c, b + suffix))
  {
    hide SplitFullJid, Find, ReadTagged;
    var AdJidForm(user, device, domainType) := Classify(c, v);
    var userBytes := StringBytes(c, user).value;
    if '@' !in v {
      PlainUser(c, v);
    }
    assert StringBytes(c, v) == Then(AdJidHeader(domainType, device), StringBytes(c, user));
    assert AdJidHeader(domainType, device).value == [AD_JID, domainType, device];
    var b := [AD_JID, domainType, device] + userBytes;
    ReadAdJidBack(c, domainType, device, userBytes, suffix);
    ReadTaggedFrom(c, b, suffix);
    var r := ReadTagged(c, userBytes + suffix);
    if r.Ok? {
      CancelTail(r.value.0, Norm(c, user), AdJidTail(device, domainType));
    }
  }

  lemma CancelTail(a: string, b: string, tail: string)
    ensures a + tail == b + tail ==> a == b
  {
    if a + tail == b + tail {
      assert a == (a + tail)[..|a|] && b == (b + tail)[..|b|];
    }
  }

  /** The JID-pair case, given what becomes of the two parts. */
  lemma JidPairFormBack(c: Codec, v: string, suffix: Bytes)
    requires c.Valid() && StringBytes(c, v).Ok? && Classify(c, v).JidPairForm?
    requires var JidPairForm(user, server) := Classify(c, v);
             && StringBytes(c, user).Ok? && StringBytes(c, server).Ok?
             && var serverBytes := StringBytes(c, server).value;
                && Back(c, user, serverBytes + suffix,
                        ReadTagged(c, StringBytes(c, user).value + (serverBytes + suffix)))
                && Back(c, server, suffix, ReadTagged(c, serverBytes + suffix))
    ensures var b := StringBytes(c, v).value; b != [] && Back(c, v, suffix, ReadTagged(c, b + suffix))
  {
    if '@' !in v {
      PlainUser(c, v);
    }
    var JidPairForm(user, server) := Classify(c, v);
    assert '@' !in user;
    hide SplitFullJid, Find, ReadTagged;
    PlainUser(c, user);
    var userBytes, serverBytes := StringBytes(c, user).value, StringBytes(c, server).value;
    assert StringBytes(c, v) == Ok([JID_PAIR] + userBytes + serverBytes);
    var b := [JID_PAIR] + userBytes + serverBytes;
    ReadPairBack(c, userBytes, serverBytes, suffix);
    ReadTaggedFrom(c, b, suffix);
    var first := ReadTagged(c, userBytes + (serverBytes + suffix));
    var second := ReadTagged(c, serverBytes + suffix);
    if first.Ok? && second.Ok? && first.value.0 + "@" + second.value.0 == Norm(c, user) + "@" + Norm(c, server) {
      CutUnique(first.value.0, second.value.0, '@', Norm(c, user), Norm(c, server));
    }
  }

  /** Whichever form is chosen, a string that is encoded is read back as its normal form
      and the reading stops where the encoding did, if and only if it is clean. */
  lemma {:induction false} StringRoundTrip(c: Codec, v: string, suffix: Bytes)
    requires c.Valid() && StringBytes(c, v).Ok?
    ensures StringBytes(c, v).value != []
    ensures Clean(c, v) <==> ReadTagged(c, StringBytes(c, v).value + suffix) == Ok((Norm(c, v), suffix))
    ensures Back(c, v, suffix, ReadTagged(c, StringBytes(c, v).value + suffix))
    decreases |v|
  {
    hide Token, Packed, Blob, ReadTagged, SplitFullJid, SplitSimpleJid;
    match Classify(c, v)
    case TokenForm(_) => TokenFormBack(c, v, suffix);
    case PackedForm(_) => PackedFormBack(c, v, suffix);
    case AdJidForm(user, _, _) =>
      StringRoundTrip(c, user, suffix);
      AdJidFormBack(c, v, suffix);
    case JidPairForm(user, server) =>
      StringRoundTrip(c, server, suffix);
      StringRoundTrip(c, user, StringBytes(c, server).value + suffix);
      JidPairFormBack(c, v, suffix);
    case PlainForm => PlainFormBack(c, v, suffix);
    case NoForm(_) =>
  }

  // ---- nodes --------------------------------------------------------------------------

  /** A string that is not plain text is announced by a tag of its own: neither that of a
      list nor that of raw bytes. */
  lemma StringTag(c: Codec, v: string)
    requires c.Valid() && StringBytes(c, v).Ok?
    ensures StringBytes(c, v).value != []
    ensures var tag := StringBytes(c, v).value[0];
            if Classify(c, v).PlainForm? then IsBinaryTag(tag) else !IsListTag(tag) && !IsBinaryTag(tag)
  {
    hide SplitFullJid, Blob, PairsBytes, OddByte, Token;
    match Classify(c, v)
    case TokenForm(_) => TokenBack(c, v, []);
    case PlainForm => BlobBack(c.host.utf8.encode(v), []);
    case _ =>
  }

  lemma {:induction false} AttrsBack(c: Codec, attrs: seq<Attr>, n: nat, suffix: Bytes)
    requires c.Valid() && n <= |attrs| && AttrsBytes(c, attrs, n).Ok?
    requires CleanAttrs(c, attrs)
    requires forall i :: 0 <= i < |attrs| ==> attrs[i].value.Some?
    ensures ReadAttrs(c, n, AttrsBytes(c, attrs, n).value + suffix) == Ok((NormAttrs(c, attrs, n), suffix))
  {
    hide StringBytes, ReadTagged, Clean, Norm;
    if n == 0 {
      assert AttrsBytes(c, attrs, n).value + suffix == suffix;
    } else {
      var Attr(key, Some(value)) := attrs[n - 1];
      var front := AttrsBytes(c, attrs, n - 1).value;
      var keyBytes, valueBytes := StringBytes(c, key).value, StringBytes(c, value).value;
      AttrsBack(c, attrs, n - 1, keyBytes + (valueBytes + suffix));
      StringRoundTrip(c, key, valueBytes + suffix);
      StringRoundTrip(c, value, suffix);
      assert front + (keyBytes + valueBytes) + suffix == front + (keyBytes + (valueBytes + suffix));
    }
  }

  lemma {:induction false} ContentBack(c: Codec, content: Content, suffix: Bytes)
    requires c.Valid() && ContentBytes(c, content).Ok? && CleanContent(c, content)
    requires !content.NoContent?
    ensures ReadContent(c, ContentBytes(c, content).value + suffix) == Ok((NormContent(c, content), suffix))
    decreases content, 1
  {
    match content
    case Text(text) => TextBack(c, text, suffix);
    case Raw(data) =>
      RawBack(c, data, suffix);
    case Children(nodes) =>
      hide CleanNode;
      NodesBack(c, nodes, |nodes|, suffix);
      ChildrenBack(c, nodes, suffix);
  }

  lemma RawBack(c: Codec, data: Bytes, suffix: Bytes)
    requires c.Valid() && ContentBytes(c, Raw(data)).Ok?
    ensures ReadContent(c, ContentBytes(c, Raw(data)).value + suffix) == Ok((NormContent(c, Raw(data)), suffix))
  {
    hide Blob, ReadBlob, ReadString;
    var b := Blob(data).value;
    BlobBack(data, suffix);
    assert (b + suffix)[1..] == b[1..] + suffix;
  }

  lemma ChildrenBack(c: Codec, nodes: seq<Node>, suffix: Bytes)
    requires c.Valid() && ContentBytes(c, Children(nodes)).Ok? && NodesBytes(c, nodes, |nodes|).Ok?
    requires ReadNodes(c, |nodes|, NodesBytes(c, nodes, |nodes|).value + suffix) ==
             Ok((NormNodes(c, nodes, |nodes|), suffix))
    ensures ReadContent(c, ContentBytes(c, Children(nodes)).value + suffix) ==
            Ok((NormContent(c, Children(nodes)), suffix))
  {
    hide NodesBytes, ReadNodes, NormNodes, ListStart, ReadListSize, ReadString, ReadBlob;
    var start, body := ListStart(|nodes|).value, NodesBytes(c, nodes, |nodes|).value;
    ListStartBack(|nodes|, body + suffix);
    assert (start + body + suffix)[1..] == start[1..] + (body + suffix);
  }

  lemma TextBack(c: Codec, text: string, suffix: Bytes)
    requires c.Valid() && StringBytes(c, text).Ok? && Clean(c, text)
    ensures ReadContent(c, StringBytes(c, text).value + suffix) == Ok((NormContent(c, Content.Text(text)), suffix))
  {
    hide StringBytes, ReadString, Clean, Norm, Classify, Blob, ReadBlob;
    var b := StringBytes(c, text).value;
    StringTag(c, text);
    assert (b + suffix)[1..] == b[1..] + suffix;
    if Classify(c, text).PlainForm? {
      PlainBlob(c, text);
      BlobBack(c.host.utf8.encode(text), suffix);
    } else {
      StringRoundTrip(c, text, suffix);
      ReadTaggedFrom(c, b, suffix);
    }
  }

  lemma PlainBlob(c: Codec, text: string)
    requires Classify(c, text).PlainForm?
    ensures StringBytes(c, text) == Blob(c.host.utf8.encode(text))
  {
  }

  lemma {:induction false} NodesBack(c: Codec, nodes: seq<Node>, n: nat, suffix: Bytes)
    requires c.Valid() && n <= |nodes| && NodesBytes(c, nodes, n).Ok?
    requires forall i :: 0 <= i < |nodes| ==> CleanNode(c, nodes[i])
    ensures ReadNodes(c, n, NodesBytes(c, nodes, n).value + suffix) == Ok((NormNodes(c, nodes, n), suffix))
    decreases nodes, n
  {
    hide NodeBytes, ReadNode, CleanNode, NormNode;
    if n == 0 {
      assert NodesBytes(c, nodes, n).value + suffix == suffix;
    } else {
      var front, last := NodesBytes(c, nodes, n - 1).value, NodeBytes(c, nodes[n - 1]).value;
      NodesBack(c, nodes, n - 1, last + suffix);
      NodeRoundTrip(c, nodes[n - 1], suffix);
      assert front + last + suffix == front + (last + suffix);
    }
  }

  /** A clean node that is encoded, with any bytes after it, is read back as its normal
      form, and the reading stops exactly where those bytes begin. */
  lemma {:induction false} NodeRoundTrip(c: Codec, node: Node, suffix: Bytes)
    requires c.Valid() && NodeBytes(c, node).Ok? && CleanNode(c, node)
    ensures ReadNode(c, NodeBytes(c, node).value + suffix) == Ok((NormNode(c, node), suffix))
    decreases node, 1
  {
    hide StringBytes, ReadTagged, Clean, Norm, ContentBytes, ReadContent, NormContent, CleanContent, AttrsBytes,
        ReadAttrs, NormAttrs;
    var attrs := Present(node.attrs);
    var size := ListSize(node);
    var start, tag := ListStart(size).value, StringBytes(c, node.tag).value;
    var items, content := AttrsBytes(c, attrs, |attrs|).value, ContentBytes(c, node.content).value;
    ListStartBack(size, tag + (items + (content + suffix)));
    StringRoundTrip(c, node.tag, items + (content + suffix));
    AttrsBack(c, attrs, |attrs|, content + suffix);
    NodeLayout(start, tag, items, content, suffix);
    assert NodeBytes(c, node).value == start + tag + items + content;
    if node.content.NoContent? {
      NoBytes(c, suffix);
    } else {
      ContentBack(c, node.content, suffix);
    }
  }

  lemma NoBytes(c: Codec, suffix: Bytes)
    ensures ContentBytes(c, NoContent) == Ok([]) && NormContent(c, NoContent) == NoContent
    ensures [] + suffix == suffix
  {
  }

  lemma NodeLayout(start: Bytes, tag: Bytes, items: Bytes, content: Bytes, suffix: Bytes)
    requires start != []
    ensures var d := start + tag + items + content + suffix;
            d != [] && d[0] == start[0] && d[1..] == start[1..] + (tag + (items + (content + suffix)))
  {
  }

  /** `decode_binary_node(encode_binary_node(node))` is the normal form of the node. */
  lemma DecodeEncode(c: Codec, node: Node, streamPrefix: bool)
    requires c.Valid() && CleanNode(c, node) && EncodeBinaryNode(c, node, streamPrefix).Ok?
    ensures DecodeBinaryNode(c, EncodeBinaryNode(c, node, streamPrefix).value, streamPrefix) == Ok(NormNode(c, node))
  {
    hide NodeBytes, ReadNode, NormNode, CleanNode;
    var b := NodeBytes(c, node).value;
    NodeRoundTrip(c, node, []);
    assert b + [] == b && [] + b == b && ([0] + b)[1..] == b;
  }
}
