/** The bytes of the format itself: the shortest headers, the form that each text is written in, and what is
    read from the forms that only other clients write. */
module WABinaryForms {
  import opened Common
  import opened Text
  import opened TokenTables
  import opened WABinary
  import opened WABinaryEncoder
  import opened WABinaryDecoder
  import opened WABinaryRoundTrip
  import opened WABinaryNormal

  // ---- headers ------------------------------------------------------------------------

  /** Whatever is read as a list size can be written as one, and nothing shorter is read as it. */
  lemma ListStartShortest(n: nat, tag: Byte, d: Bytes, rest: Bytes)
    requires ReadListSize(tag, d) == Ok((n, rest))
    ensures ListStart(n).Ok? && |ListStart(n).value| + |rest| <= 1 + |d|
  {
  }

  /** Whatever is read as a length can be written as one, and nothing shorter is read as it; of the readings in as
      many bytes the written one leaves the upper half of a three-byte length empty. */
  lemma ByteLengthShortest(n: nat, tag: Byte, d: Bytes, rest: Bytes)
    requires IsBinaryTag(tag) && ReadLength(tag, d) == Ok((n, rest))
    ensures ByteLength(n).Ok? && |ByteLength(n).value| + |rest| <= 1 + |d|
    ensures |ByteLength(n).value| == 4 ==> BigValue(ByteLength(n).value[1..]) == n
  {
    hide BigValue, Big4;
    if tag == BINARY_32 {
      FromBigFits(d[..4]);
    }
    if 256 <= n < 0x10_0000 {
      ThreeBytes(n);
    }
  }

  lemma FromBigFits(b: Bytes)
    requires |b| == 4
    ensures FromBig(b) < 0x1_0000_0000
  {
  }

  lemma ThreeBytes(n: nat)
    requires n < 0x10_0000
    ensures BigValue([n / 0x1_0000 % 16, n / 0x100 % 0x100, n % 0x100]) == n
  {
    var a, b, c := n / 0x1_0000 % 16, n / 0x100 % 0x100, n % 0x100;
    assert [a, b, c][..2] == [a, b] && [a, b][..1] == [a] && [a][..0] == [];
    assert BigValue([a]) == a && BigValue([a, b]) == a * 0x100 + b;
  }

  // ---- what each text is written as ---------------------------------------------------

  /** A token is written as its place: a single byte, or the dictionary and the index. */
  lemma TokenWritten(c: Codec, v: string)
    requires c.Valid() && v in c.tables.tokenMap
    ensures
      var r := StringBytes(c, v);
      r.Ok? &&
      if |r.value| == 1 then r.value[0] < |c.tables.single| && c.tables.single[r.value[0]] == v
      else
        && |r.value| == 2 && 236 <= r.value[0] < 236 + |c.tables.double|
        && r.value[1] < |c.tables.double[r.value[0] - 236]|
        && c.tables.double[r.value[0] - 236][r.value[1]] == v
  {
    assert StandsAt(c.tables.single, c.tables.double, v, c.tables.tokenMap[v]);
    TokenBack(c, v, []);
  }

  /** The code of a packed character: digits as they are, `-` and `A` 10, `.` and `B` 11, and so on. */
  function Code(ch: char): nat {
    if '0' <= ch <= '9' then ch as int - '0' as int
    else if ch == '-' || ch == 'A' then 10
    else if ch == '.' || ch == 'B' then 11
    else if ch == 'C' then 12
    else if ch == 'D' then 13
    else if ch == 'E' then 14
    else 15
  }

  predicate AllOf(v: string, punctuation: bool) {
    0 < |v| <= 127 && forall i :: 0 <= i < |v| ==>
      '0' <= v[i] <= '9' || (if punctuation then v[i] == '-' || v[i] == '.' else 'A' <= v[i] <= 'F')
  }

  /** Digits with `-` and `.`, or else with `A` to `F`, up to 127 of them: a tag, the number of bytes with the odd flag,
      and two codes to a byte; 15 fills up the last one. */
  lemma PackedWritten(c: Codec, v: string)
    requires c.Valid() && v !in c.tables.tokenMap && (AllOf(v, true) || AllOf(v, false))
    ensures
      var r, n := StringBytes(c, v), (|v| + 1) / 2;
      && r.Ok? && |r.value| == 2 + n
      && r.value[0] == (if AllOf(v, true) then 255 else 251)
      && r.value[1] == n + (if |v| % 2 == 1 then 128 else 0)
      && forall k :: 0 <= k < n ==>
           r.value[2 + k] == 16 * Code(v[2 * k]) + if 2 * k + 1 < |v| then Code(v[2 * k + 1]) else 15
  {
    hide Packed, Code, IsNibble, IsHex;
    var tag := if AllOf(v, true) then NIBBLE_8 else HEX_8;
    ClassOf(c.host, v);
    PackedCoded(c.host, tag, v);
  }

  lemma PackedCoded(h: Host, tag: Byte, v: string)
    requires (tag == NIBBLE_8 || tag == HEX_8) && |v| <= 127 && forall i :: 0 <= i < |v| ==> Codes(tag, v[i])
    ensures
      var r, n := Packed(h, tag, v), (|v| + 1) / 2;
      && r.Ok? && |r.value| == 2 + n && r.value[0] == tag
      && r.value[1] == n + (if |v| % 2 == 1 then 128 else 0)
      && forall k :: 0 <= k < n ==>
           r.value[2 + k] == 16 * Code(v[2 * k]) + if 2 * k + 1 < |v| then Code(v[2 * k + 1]) else 15
  {
    assert Code('\0') == 15;
    hide PackedByte, PairsBytes, Codes, Code, Packed;
    var n := |v| / 2;
    PairsCoded(h, tag, v, n);
    if |v| % 2 == 1 {
      ByteCoded(h, tag, v[|v| - 1], '\0');
    }
    var pairs, odd := PairsBytes(h, tag, v, n).value, OddByte(h, tag, v).value;
    PackedShape(h, tag, v, pairs, odd);
    PackedAt([tag, (|v| + 1) / 2 + (if |v| % 2 == 1 then 128 else 0)], v, pairs, odd);
  }

  lemma PackedAt(head: Bytes, v: string, pairs: Bytes, odd: Bytes)
    requires |head| == 2 && |pairs| == |v| / 2 && |odd| == |v| % 2
    requires forall k :: 0 <= k < |v| / 2 ==> pairs[k] == 16 * Code(v[2 * k]) + Code(v[2 * k + 1])
    requires |v| % 2 == 1 ==> odd[0] == 16 * Code(v[|v| - 1]) + 15
    ensures
      var b, n := head + pairs + odd, (|v| + 1) / 2;
      && |b| == 2 + n
      && forall k :: 0 <= k < n ==>
           b[2 + k] == 16 * Code(v[2 * k]) + if 2 * k + 1 < |v| then Code(v[2 * k + 1]) else 15
  {
    hide Code;
    var b := head + pairs + odd;
    forall k | 0 <= k < (|v| + 1) / 2
      ensures b[2 + k] == 16 * Code(v[2 * k]) + if 2 * k + 1 < |v| then Code(v[2 * k + 1]) else 15
    {
      if k < |v| / 2 {
        assert b[2 + k] == pairs[k];
      } else {
        assert b[2 + k] == odd[0] && 2 * k == |v| - 1;
      }
    }
  }

  lemma PackedShape(h: Host, tag: Byte, v: string, pairs: Bytes, odd: Bytes)
    requires |v| <= 127 && PairsBytes(h, tag, v, |v| / 2) == Ok(pairs) && OddByte(h, tag, v) == Ok(odd)
    ensures Packed(h, tag, v) == Ok([tag, (|v| + 1) / 2 + (if |v| % 2 == 1 then 128 else 0)] + pairs + odd)
  {
    hide PairsBytes, OddByte;
  }

  lemma ClassOf(h: Host, v: string)
    requires AllOf(v, true) || AllOf(v, false)
    ensures if AllOf(v, true) then IsNibble(h, v) else !IsNibble(h, v) && IsHex(h, v)
  {
    if !AllOf(v, true) {
      var i :| 0 <= i < |v| && !('0' <= v[i] <= '9' || v[i] == '-' || v[i] == '.');
      assert 'A' <= v[i] <= 'F';
    }
  }

  predicate Codes(tag: Byte, ch: char) {
    '0' <= ch <= '9' || (if tag == NIBBLE_8 then ch == '-' || ch == '.' else 'A' <= ch <= 'F')
  }

  lemma ByteCoded(h: Host, tag: Byte, hi: char, lo: char)
    requires (tag == NIBBLE_8 || tag == HEX_8) && Codes(tag, hi) && (Codes(tag, lo) || lo == '\0')
    ensures PackedByte(h, tag, hi, lo) == Ok([16 * Code(hi) + Code(lo)])
  {
    hide BitOr;
    BitOrNibble(Code(hi), Code(lo));
  }

  lemma {:induction false} PairsCoded(h: Host, tag: Byte, v: string, n: nat)
    requires (tag == NIBBLE_8 || tag == HEX_8) && 2 * n <= |v| && forall i :: 0 <= i < |v| ==> Codes(tag, v[i])
    ensures
      var r := PairsBytes(h, tag, v, n);
      && r.Ok? && |r.value| == n
      && forall k :: 0 <= k < n ==> r.value[k] == 16 * Code(v[2 * k]) + Code(v[2 * k + 1])
  {
    hide PackedByte;
    if n > 0 {
      PairsCoded(h, tag, v, n - 1);
      ByteCoded(h, tag, v[2 * n - 2], v[2 * n - 1]);
    }
  }

  function WithAgent(user: string, agent: Option<string>): string {
    match agent
    case None => user
    case Some(a) => user + "_" + a
  }

  /** 1, 128 and 129 for three servers; for the others the agent, or 0 without one. */
  function DomainOf(h: Host, agent: Option<string>, server: string): Option<int> {
    if server == "lid" then Some(1)
    else if server == "hosted" then Some(128)
    else if server == "hosted.lid" then Some(129)
    else match agent
      case None => Some(0)
      case Some(a) => if a == "" then Some(0) else h.ParseInt(a)
  }

  /** The head and then the parts; the first part that is refused refuses the whole. */
  function Headed(head: Bytes, a: Encoded): Encoded {
    if a.Err? then a else Ok(head + a.value)
  }

  function Joined(head: Bytes, a: Encoded, b: Encoded): Encoded {
    if a.Err? then a else Headed(head + a.value, b)
  }

  /** How the part before the `@` is taken apart. */
  lemma PartsSplit(h: Host, user: string, agent: Option<string>, device: Option<string>, server: string)
    requires ':' !in WithAgent(user, agent) && '_' !in user
    ensures
      var combined := WithAgent(user, agent) + if device.Some? then ":" + device.value else "";
      var n := if device.Some? then h.ParseInt(device.value) else None;
      var domain := DomainOf(h, agent, server);
      SplitParts(h, combined, server) ==
      if (device.Some? && n.None?) || domain.None? then Err(BadInteger)
      else Ok(FullJid(user, server, n, domain.value))
  {
    hide Find, Host.ParseInt;
    var left := WithAgent(user, agent);
    AgentSplit(user, agent);
    if device.Some? {
      FindAt(left, ':', device.value);
      var combined := left + ":" + device.value;
      assert combined == left + (":" + device.value);
      assert combined[..|left|] == left && combined[|left| + 1..] == device.value;
    } else {
      NoColon(left);
      assert left + "" == left;
    }
  }

  lemma AddressClass(c: Codec, combined: string, server: string)
    requires combined != "" && '@' !in combined && server != "" && server[|server| - 1] != '@'
    requires combined + "@" + server !in c.tables.tokenMap
    ensures Classify(c, combined + "@" + server) ==
      match SplitParts(c.host, combined, server)
      case Err(e) => NoForm(e)
      case Ok(full) => if full.device.Some? then AdJidForm(full.user, full.device.value, full.domainType)
                       else JidPairForm(combined, full.server)
  {
    hide SplitParts, IsNibble, IsHex, UserPart, ServerPart;
    var v := combined + "@" + server;
    AtJoin(combined, server);
    NotPacked(c.host, v);
    assert v[0] == combined[0] && v[|v| - 1] == server[|server| - 1];
  }

  /** An address with a device: tag, domain type, device, and the user without its agent. It is refused when the
      device or the agent is no integer, or when one of the two does not fit a byte. */
  lemma AdJidWritten(c: Codec, user: string, agent: Option<string>, device: string, server: string)
    requires server != "" && server[|server| - 1] != '@'
    requires '@' !in WithAgent(user, agent) && ':' !in WithAgent(user, agent) && '_' !in user && '@' !in device
    requires WithAgent(user, agent) + ":" + device + "@" + server !in c.tables.tokenMap
    ensures
      var v := WithAgent(user, agent) + ":" + device + "@" + server;
      var n, domain := c.host.ParseInt(device), DomainOf(c.host, agent, server);
      if n.None? || domain.None? || !(0 <= n.value < 256) || !(0 <= domain.value < 256) then StringBytes(c, v).Err?
      else StringBytes(c, v) == Headed([247, domain.value, n.value], StringBytes(c, user))
  {
    hide Packed, Token, Blob, Host.ParseInt, AdJidHeader, Classify, SplitParts;
    var combined := WithAgent(user, agent) + ":" + device;
    assert combined == WithAgent(user, agent) + (":" + device);
    PartsSplit(c.host, user, agent, Some(device), server);
    AddressClass(c, combined, server);
    HeaderWritten(DomainOf(c.host, agent, server), c.host.ParseInt(device));
  }

  lemma HeaderWritten(domain: Option<int>, device: Option<int>)
    ensures domain.Some? && device.Some? ==>
      AdJidHeader(domain.value, device.value) ==
      if !(0 <= domain.value < 256) || !(0 <= device.value < 256) then Err(ByteOutOfRange)
      else Ok([247, domain.value, device.value])
  {
    if domain.Some? && device.Some? && 0 <= domain.value < 256 && 0 <= device.value < 256 {
      assert [AD_JID] + [domain.value] + [device.value] == [247, domain.value, device.value];
    }
  }

  /** An address without a device: tag, the whole user, the server. */
  lemma JidPairWritten(c: Codec, user: string, agent: Option<string>, server: string)
    requires server != "" && server[|server| - 1] != '@' && WithAgent(user, agent) != ""
    requires '@' !in WithAgent(user, agent) && ':' !in WithAgent(user, agent) && '_' !in user
    requires WithAgent(user, agent) + "@" + server !in c.tables.tokenMap
    ensures
      var left := WithAgent(user, agent);
      if DomainOf(c.host, agent, server).None? then StringBytes(c, left + "@" + server).Err?
      else StringBytes(c, left + "@" + server) == Joined([250], StringBytes(c, left), StringBytes(c, server))
  {
    hide Packed, Token, Blob, Host.ParseInt, Classify, SplitParts;
    var left := WithAgent(user, agent);
    assert left + "" == left;
    PartsSplit(c.host, user, agent, None, server);
    AddressClass(c, left, server);
  }

  lemma NotPacked(h: Host, v: string)
    requires '@' in v
    ensures !IsNibble(h, v) && !IsHex(h, v)
  {
    var i :| 0 <= i < |v| && v[i] == '@';
    assert !h.IsDigit(v[i]);
  }

  lemma NoColon(left: string)
    requires ':' !in left
    ensures Find(left, ':') == |left| && left[..|left|] == left
  {
  }

  lemma AgentSplit(user: string, agent: Option<string>)
    requires '_' !in user
    ensures
      var left := WithAgent(user, agent);
      && Find(left, '_') == |user| && left[..|user|] == user
      && (agent.Some? ==> |user| < |left| && left[|user| + 1..] == agent.value)
  {
    if agent.Some? {
      FindAt(user, '_', agent.value);
      assert user + "_" + agent.value == user + ['_'] + agent.value;
    }
  }

  /** The length in front of plain text and of bytes: in one byte, in three, or in four. */
  predicate LengthHead(head: Bytes, n: nat) {
    && |head| == (if n < 256 then 2 else if n < 0x10_0000 then 4 else 5)
    && head[0] == (if n < 256 then 252 else if n < 0x10_0000 then 253 else 254)
    && BigValue(head[1..]) == n
  }

  /** Every other text: its length and its UTF-8. */
  lemma PlainWritten(c: Codec, v: string)
    requires v !in c.tables.tokenMap && (v == "" || '@' !in v || v[0] == '@' || v[|v| - 1] == '@')
    requires |v| > 127 || v == "" || (exists i :: 0 <= i < |v| && !c.host.IsDigit(v[i]) && v[i] !in "-.ABCDEF")
    ensures
      var r, data := StringBytes(c, v), c.host.utf8.encode(v);
      && (r.Ok? <==> |data| < 0x1_0000_0000)
      && (r.Ok? ==> |r.value| >= |data| && LengthHead(r.value[..|r.value| - |data|], |data|)
                    && r.value[|r.value| - |data|..] == data)
  {
    var data := c.host.utf8.encode(v);
    assert !IsNibble(c.host, v) && !IsHex(c.host, v);
    assert Classify(c, v).PlainForm?;
    if |data| < 0x1_0000_0000 {
      LengthWritten(|data|);
      var head := ByteLength(|data|).value;
      assert (head + data)[..|head|] == head && (head + data)[|head|..] == data;
    }
  }

  lemma LengthWritten(n: nat)
    requires n < 0x1_0000_0000
    ensures ByteLength(n).Ok? && LengthHead(ByteLength(n).value, n)
  {
    hide BigValue;
    if n < 256 {
      OneByte(n);
    } else if n < 0x10_0000 {
      ThreeBytes(n);
    } else {
      FourBytes(n);
    }
  }

  lemma OneByte(n: Byte)
    ensures BigValue([n]) == n
  {
    assert [n][..0] == [];
  }

  lemma FourBytes(n: nat)
    requires n < 0x1_0000_0000
    ensures BigValue(Big4(n)) == n
  {
    var n1 := n / 0x100;
    var n2 := n1 / 0x100;
    var a, b, c, d := n2 / 0x100, n2 % 0x100, n1 % 0x100, n % 0x100;
    assert [a, b, c, d][..3] == [a, b, c] && [a, b, c][..2] == [a, b] && [a, b][..1] == [a] && [a][..0] == [];
    assert BigValue([a]) == a && BigValue([a, b]) == n2 && BigValue([a, b, c]) == n1;
  }

  // ---- what is read from the other forms ----------------------------------------------

  /** An address with a domain type: the server is that of the type, and device 0 is not printed. */
  lemma AdJidRead(c: Codec, domainType: Byte, device: Byte, user: string, suffix: Bytes)
    requires c.Valid() && StringBytes(c, user).Ok? && Clean(c, user)
    ensures ReadTagged(c, [247, domainType, device] + StringBytes(c, user).value + suffix)
      == Ok((Norm(c, user) + (if device == 0 then "" else ":" + Decimal(device))
             + (if domainType == 1 then "@lid" else if domainType == 128 then "@hosted"
                else if domainType == 129 then "@hosted.lid" else "@s.whatsapp.net"), suffix))
  {
    hide StringBytes, Norm, Clean, Decimal;
    StringRoundTrip(c, user, suffix);
    var d := [247, domainType, device] + StringBytes(c, user).value + suffix;
    assert d[1..][1..][1..] == StringBytes(c, user).value + suffix;
    AdText(Norm(c, user), device, domainType);
  }

  lemma AdText(user: string, device: Byte, domainType: Byte)
    ensures AdJidText(user, device, domainType) ==
      user + (if device == 0 then "" else ":" + Decimal(device))
      + (if domainType == 1 then "@lid" else if domainType == 128 then "@hosted"
         else if domainType == 129 then "@hosted.lid" else "@s.whatsapp.net")
  {
    ServerText(domainType);
    hide Decimal, DomainServer;
    var shown := if device == 0 then "" else ":" + Decimal(device);
    assert AdJidText(user, device, domainType) == user + (shown + "@" + DomainServer(domainType));
    assert user + (shown + "@" + DomainServer(domainType)) == user + shown + ("@" + DomainServer(domainType));
  }

  lemma ServerText(domainType: int)
    ensures "@" + DomainServer(domainType) ==
      if domainType == 1 then "@lid" else if domainType == 128 then "@hosted"
      else if domainType == 129 then "@hosted.lid" else "@s.whatsapp.net"
  {
  }

  /** A two-byte number in front of other bytes. */
  lemma BigRead(n: nat, rest: Bytes)
    requires n < 0x1_0000
    ensures ReadBig(2, Big2(n) + rest) == Ok((n, rest))
  {
    hide FromBig, Big2;
    assert (Big2(n) + rest)[..2] == Big2(n) && (Big2(n) + rest)[2..] == rest;
  }

  /** An FB address: the user, a device in two bytes, the server. */
  lemma FbRead(c: Codec, user: string, device: nat, server: string, suffix: Bytes)
    requires c.Valid() && device < 0x1_0000
    requires StringBytes(c, user).Ok? && Clean(c, user) && StringBytes(c, server).Ok? && Clean(c, server)
    ensures ReadTagged(c, [246] + StringBytes(c, user).value + Big2(device) + StringBytes(c, server).value + suffix)
      == Ok((Norm(c, user) + ":" + Decimal(device) + "@" + Norm(c, server), suffix))
  {
    hide StringBytes, Norm, Clean, Decimal, Big2, ReadBig;
    var u, v := StringBytes(c, user).value, StringBytes(c, server).value;
    var d := [246] + u + Big2(device) + v + suffix;
    StringRoundTrip(c, user, Big2(device) + (v + suffix));
    StringRoundTrip(c, server, suffix);
    BigRead(device, v + suffix);
    assert d[1..] == u + (Big2(device) + (v + suffix));
  }

  /** An interop address: the user, a device and an integrator in two bytes each, and the server; when no server can
      be read there, the bytes are left for what follows and the server is `interop`. */
  lemma InteropRead(c: Codec, user: string, device: nat, integrator: nat, tail: Bytes)
    requires c.Valid() && device < 0x1_0000 && integrator < 0x1_0000
    requires StringBytes(c, user).Ok? && Clean(c, user)
    ensures ReadTagged(c, [245] + StringBytes(c, user).value + Big2(device) + Big2(integrator) + tail)
      == (var (server, rest) := if ReadTagged(c, tail).Ok? then ReadTagged(c, tail).value else ("interop", tail);
          Ok((Decimal(integrator) + "-" + Norm(c, user) + ":" + Decimal(device) + "@" + server, rest)))
  {
    hide StringBytes, Norm, Clean, Decimal, Big2, ReadBig, ReadTagged;
    var u := StringBytes(c, user).value;
    var d := [245] + u + Big2(device) + Big2(integrator) + tail;
    StringRoundTrip(c, user, Big2(device) + (Big2(integrator) + tail));
    BigRead(device, Big2(integrator) + tail);
    BigRead(integrator, tail);
    assert d[1..] == u + (Big2(device) + (Big2(integrator) + tail)) && d[0] == 245;
    InteropParts(c, d, Norm(c, user), device, integrator, tail);
  }

  lemma InteropParts(c: Codec, d: Bytes, user: string, device: nat, integrator: nat, tail: Bytes)
    requires c.Valid() && d != [] && d[0] == 245 && ReadTagged(c, d[1..]).Ok?
    requires
      var (read, after) := ReadTagged(c, d[1..]).value;
      read == user && ReadBig(2, after).Ok? && ReadBig(2, after).value.0 == device
      && ReadBig(2, ReadBig(2, after).value.1) == Ok((integrator, tail))
    ensures ReadTagged(c, d)
      == (var (server, rest) := if ReadTagged(c, tail).Ok? then ReadTagged(c, tail).value else ("interop", tail);
          Ok((Decimal(integrator) + "-" + user + ":" + Decimal(device) + "@" + server, rest)))
  {
    hide Decimal, ReadBig, ReadPacked, ReadBlob, ReadDictionary;
    var (server, rest) := InteropServer(c, tail);
    assert ReadTagged(c, d) == ReadString(c, 245, d[1..]);
    assert ReadString(c, 245, d[1..])
        == Ok((Decimal(integrator) + "-" + user + ":" + Decimal(device) + "@" + server, rest));
  }

  /** An empty list stands for the empty text. */
  lemma EmptyRead(c: Codec, suffix: Bytes)
    ensures ReadTagged(c, [0] + suffix) == Ok(("", suffix))
  {
    assert ([0] + suffix)[1..] == suffix;
  }

  /** One packed byte: digits, `-`, `.` and NUL for 10, 11 and 15, where 12 to 14 are refused; or digits and `A` to
      `F`. */
  lemma PackedRead(c: Codec, hex: bool, hi: nat, lo: nat, suffix: Bytes)
    requires c.Valid() && hi < 16 && lo < 16
    ensures
      var r := ReadTagged(c, [if hex then 251 else 255, 1, 16 * hi + lo] + suffix);
      if !hex && (12 <= hi <= 14 || 12 <= lo <= 14) then r == Err(InvalidNibble)
      else r == Ok(([Unpacked(hex, hi), Unpacked(hex, lo)], suffix))
  {
    hide UnpackByte;
    var tag: Byte := if hex then 251 else 255;
    var b: Byte := 16 * hi + lo;
    var d := [tag, 1, b] + suffix;
    assert d[1..] == [1, b] + suffix && d[1..][1..] == [b] + suffix && ([b] + suffix)[1..] == suffix;
    UnpackedByte(hex, hi, lo);
    assert ReadPairs(tag, 0, [b] + suffix) == Ok(("", [b] + suffix));
    var r := UnpackByte(tag, b);
    assert r.Ok? ==> "" + r.value == r.value;
    assert ReadPairs(tag, 1, [b] + suffix) == if r.Err? then Err(InvalidNibble) else Ok((r.value, suffix));
  }

  lemma UnpackedByte(hex: bool, hi: nat, lo: nat)
    requires hi < 16 && lo < 16
    ensures UnpackByte(if hex then 251 else 255, 16 * hi + lo) ==
      if !hex && (12 <= hi <= 14 || 12 <= lo <= 14) then Err(InvalidNibble)
      else Ok([Unpacked(hex, hi), Unpacked(hex, lo)])
  {
    var b: Byte := 16 * hi + lo;
    assert b / 16 == hi && b % 16 == lo;
    UnpackedNibble(hex, hi);
    UnpackedNibble(hex, lo);
  }

  lemma UnpackedNibble(hex: bool, n: nat)
    requires n < 16
    ensures UnpackNibble(if hex then 251 else 255, n) == if !hex && 12 <= n <= 14 then None else Some(Unpacked(hex, n))
  {
  }

  function Unpacked(hex: bool, n: nat): char
    requires n < 16
  {
    if hex then "0123456789ABCDEF"[n] else "0123456789-.???\0"[n]
  }

  // ---- nodes --------------------------------------------------------------------------

  /** The attributes that are written: those of a list and then those of another; one alone if it has a value. */
  lemma {:induction false} PresentJoin(a: seq<Attr>, b: seq<Attr>)
    ensures Present(a + b) == Present(a) + Present(b)
  {
    if a == [] {
      assert a + b == b;
    } else {
      assert (a + b)[1..] == a[1..] + b;
      PresentJoin(a[1..], b);
    }
  }

  lemma PresentOne(attr: Attr)
    ensures Present([attr]) == if attr.value == None then [] else [attr]
  {
    assert [attr][1..] == [];
  }

  /** What a node with one attribute that has a value, one that has none, and any content is written as. */
  lemma NodeWritten(c: Codec, tag: string, key: string, value: string, content: Content)
    requires tag != "" && ContentBytes(c, content).Ok?
    requires StringBytes(c, tag).Ok? && StringBytes(c, key).Ok? && StringBytes(c, value).Ok?
    ensures NodeBytes(c, Node(tag, [Attr(key, None), Attr(key, Some(value))], content))
      == Ok([248, if content == NoContent then 3 else 4] + StringBytes(c, tag).value
            + (StringBytes(c, key).value + StringBytes(c, value).value) + ContentBytes(c, content).value)
  {
    hide StringBytes, ContentBytes, NodeBytes;
    var k, v := StringBytes(c, key).value, StringBytes(c, value).value;
    var attr := Attr(key, Some(value));
    var attrs := [Attr(key, None), attr];
    assert attrs == [Attr(key, None)] + [attr];
    PresentJoin([Attr(key, None)], [attr]);
    PresentOne(Attr(key, None));
    PresentOne(attr);
    assert Present(attrs) == [attr];
    assert AttrsBytes(c, [attr], 0) == Ok([]);
    assert AttrsBytes(c, [attr], 1) == Ok(k + v) by { assert [] + (k + v) == k + v; }
    var size := if content == NoContent then 3 else 4;
    PartsOfNode(c, Node(tag, attrs, content), size, StringBytes(c, tag).value, k + v, ContentBytes(c, content).value);
  }

  /** And its content: text as any text, bytes behind their length, a child behind the head of a list of one. */
  lemma ContentWritten(c: Codec, text: string, data: Bytes, child: Node)
    requires |data| < 256
    ensures ContentBytes(c, NoContent) == Ok([])
    ensures ContentBytes(c, Content.Text(text)) == StringBytes(c, text)
    ensures ContentBytes(c, Raw(data)) == Ok([252, |data|] + data)
    ensures ContentBytes(c, Children([child])) == Headed([248, 1], NodeBytes(c, child))
  {
    hide StringBytes, NodeBytes;
    assert NodesBytes(c, [child], 0) == Ok([]);
    if NodeBytes(c, child).Ok? {
      var b := NodeBytes(c, child).value;
      assert [] + b == b;
    }
  }

  lemma PartsOfNode(c: Codec, node: Node, size: Byte, tag: Bytes, attrs: Bytes, content: Bytes)
    requires node.tag != "" && ListSize(node) == size > 0 && StringBytes(c, node.tag) == Ok(tag)
    requires AttrsBytes(c, Present(node.attrs), |Present(node.attrs)|) == Ok(attrs)
    requires ContentBytes(c, node.content) == Ok(content)
    ensures NodeBytes(c, node) == Ok([248, size] + tag + attrs + content)
  {
    hide StringBytes, AttrsBytes, ContentBytes, Present, ListSize;
  }
}
