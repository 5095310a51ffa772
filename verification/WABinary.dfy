/** Nodes, tags and the string forms shared by the encoder and the decoder of binary nodes. */
module WABinary {
  import opened Common
  import opened Text
  import opened TokenTables

  const LIST_EMPTY: Byte := 0
  const DICTIONARY_0: Byte := 236
  const DICTIONARY_3: Byte := 239
  const INTEROP_JID: Byte := 245
  const FB_JID: Byte := 246
  const AD_JID: Byte := 247
  const LIST_8: Byte := 248
  const LIST_16: Byte := 249
  const JID_PAIR: Byte := 250
  const HEX_8: Byte := 251
  const BINARY_8: Byte := 252
  const BINARY_20: Byte := 253
  const BINARY_32: Byte := 254
  const NIBBLE_8: Byte := 255

  const PACKED_MAX: nat := 127

  /** One item of a node's attribute dictionary; the encoder skips values that are None. */
  datatype Attr = Attr(key: string, value: Option<string>)

  datatype Content = NoContent | Text(text: string) | Raw(bytes: Bytes) | Children(nodes: seq<Node>)

  /** `attrs` lists the items of the dictionary in insertion order. */
  datatype Node = Node(tag: string, attrs: seq<Attr>, content: Content)

  datatype Failure =
    | EmptyTag | TooLarge | ByteOutOfRange | BadInteger
    | EndOfStream | InvalidNode | InvalidListTag | InvalidToken | BadUtf8 | InvalidNibble | UnsupportedTag

  /** What the codec depends on: Python's text operations and the dictionary tables. */
  datatype Codec = Codec(host: Host, tables: Tables) {
    ghost predicate Valid() {
      host.Lawful() && tables.Valid()
    }
  }

  // ---- string forms -------------------------------------------------------------------

  predicate IsNibble(h: Host, v: string) {
    v != "" && |v| <= PACKED_MAX && forall i :: 0 <= i < |v| ==> h.IsDigit(v[i]) || v[i] == '-' || v[i] == '.'
  }

  predicate IsHex(h: Host, v: string) {
    v != "" && |v| <= PACKED_MAX && forall i :: 0 <= i < |v| ==> h.IsDigit(v[i]) || 'A' <= v[i] <= 'F'
  }

  /** `value` has an `@` that is neither its first nor its last character. */
  predicate HasServer(v: string) {
    '@' in v && v[0] != '@' && v[|v| - 1] != '@'
  }

  /** The part of an address before its first `@`. */
  function UserPart(v: string): string
    requires '@' in v
  {
    v[..Find(v, '@')]
  }

  /** The part of an address after its first `@`. */
  function ServerPart(v: string): string
    requires '@' in v
  {
    v[Find(v, '@') + 1..]
  }

  datatype FullJid = FullJid(user: string, server: string, device: Option<int>, domainType: int)

  /** `_split_full_jid`: Err when a device or an agent is not an integer. */
  function SplitFullJid(h: Host, v: string): Result<Option<FullJid>, Failure> {
    if !HasServer(v) then Ok(None)
    else
      var jid :- SplitParts(h, UserPart(v), ServerPart(v));
      Ok(Some(jid))
  }

  /** The user, agent and device before the first `@`, and the server after it. */
  function SplitParts(h: Host, combined: string, server: string): Result<FullJid, Failure> {
    var colon := Find(combined, ':');
    var userAgent := combined[..colon];
    var device := if colon < |combined| then h.ParseInt(combined[colon + 1..]) else None;
    if colon < |combined| && device == None then Err(BadInteger)
    else match DomainType(h, userAgent, server)
      case None => Err(BadInteger)
      case Some(domainType) => Ok(FullJid(userAgent[..Find(userAgent, '_')], server, device, domainType))
  }

  function DomainType(h: Host, userAgent: string, server: string): Option<int> {
    var underscore := Find(userAgent, '_');
    var agentRaw := if underscore < |userAgent| then userAgent[underscore + 1..] else "";
    if server == "lid" then Some(1)
    else if server == "hosted" then Some(128)
    else if server == "hosted.lid" then Some(129)
    else if agentRaw != "" then h.ParseInt(agentRaw)
    else Some(0)
  }

  /** `_split_simple_jid` */
  function SplitSimpleJid(v: string): Option<(string, string)> {
    if !HasServer(v) || ':' in UserPart(v) then None
    else Some((UserPart(v), ServerPart(v)))
  }

  /** The form in which a string is written. */
  datatype Form =
    | TokenForm(place: Place)
    | PackedForm(tag: Byte)
    | AdJidForm(user: string, device: int, domainType: int)
    | JidPairForm(user: string, server: string)
    | PlainForm
    | NoForm(error: Failure)

  function Classify(c: Codec, v: string): (f: Form)
    ensures f.PackedForm? ==> |v| <= PACKED_MAX && (f.tag == NIBBLE_8 || f.tag == HEX_8)
    ensures f.AdJidForm? ==> |f.user| < |v|
    ensures f.JidPairForm? ==> |f.user| < |v| && |f.server| < |v|
  {
    if v in c.tables.tokenMap then TokenForm(c.tables.tokenMap[v])
    else if IsNibble(c.host, v) then PackedForm(NIBBLE_8)
    else if IsHex(c.host, v) then PackedForm(HEX_8)
    else match SplitFullJid(c.host, v)
      case Err(e) => NoForm(e)
      case Ok(Some(full)) =>
        if full.device.Some? then AdJidForm(full.user, full.device.value, full.domainType)
        else JidPairForm(UserPart(v), full.server)
      case Ok(None) => PlainForm
  }

  /** The server that the decoder prints for a domain type. */
  function DomainServer(domainType: int): string {
    if domainType == 1 then "lid"
    else if domainType == 128 then "hosted"
    else if domainType == 129 then "hosted.lid"
    else "s.whatsapp.net"
  }

  /** The text the decoder prints for an AD-JID. */
  function AdJidText(user: string, device: nat, domainType: int): string {
    user + AdJidTail(device, domainType)
  }

  function AdJidTail(device: nat, domainType: int): string {
    (if device != 0 then ":" + Decimal(device) else "") + "@" + DomainServer(domainType)
  }

  /** `_pack_nibble`, None standing for ValueError. A digit beyond ASCII packs to more than a nibble. */
  function PackNibble(h: Host, c: char): Option<nat> {
    if c == '-' then Some(10)
    else if c == '.' then Some(11)
    else if c == '\0' then Some(15)
    else if h.IsDigit(c) then Some(c as int - '0' as int)
    else None
  }

  /** `_pack_hex` */
  function PackHex(h: Host, c: char): Option<nat> {
    if h.IsDigit(c) then Some(c as int - '0' as int)
    else if 'A' <= c <= 'F' then Some(10 + c as int - 'A' as int)
    else if 'a' <= c <= 'f' then Some(10 + c as int - 'a' as int)
    else if c == '\0' then Some(15)
    else None
  }

  function Pack(h: Host, tag: Byte, c: char): Option<nat> {
    if tag == NIBBLE_8 then PackNibble(h, c) else PackHex(h, c)
  }

  /** `_unpack_byte` on one nibble, None standing for ValueError. */
  function UnpackNibble(tag: Byte, n: nat): Option<char>
    requires n < 16
  {
    if n < 10 then Some(('0' as int + n) as char)
    else if tag == HEX_8 then Some(('A' as int + n - 10) as char)
    else if n == 10 then Some('-')
    else if n == 11 then Some('.')
    else if n == 15 then Some('\0')
    else None
  }

  /** Bitwise or. */
  function BitOr(a: nat, b: nat): nat {
    if a == 0 then b
    else if b == 0 then a
    else 2 * BitOr(a / 2, b / 2) + (if a % 2 == 1 || b % 2 == 1 then 1 else 0)
  }

  /** Merging a nibble under an empty low half only adds it. */
  lemma BitOrNibble(hi: nat, lo: nat)
    requires lo < 16
    ensures BitOr(hi * 16, lo) == hi * 16 + lo
  {
    hide BitOr;
    BitOrNothing(hi);
    BitOrTwice(hi, lo / 8);
    BitOrTwice(2 * hi, lo / 4);
    BitOrTwice(4 * hi, lo / 2);
    BitOrTwice(8 * hi, lo);
  }

  lemma BitOrNothing(a: nat)
    ensures BitOr(a, 0) == a
  {
  }

  /** One more bit: if the lower half of `b` only adds, so does `b`. */
  lemma BitOrTwice(a: nat, b: nat)
    requires BitOr(a, b / 2) == a + b / 2
    ensures BitOr(2 * a, b) == 2 * a + b
  {
    assert 2 * a / 2 == a && 2 * a % 2 == 0;
  }

  /** A dictionary that is assigned `key`: a known key keeps its position. */
  function DictSet(attrs: seq<Attr>, key: string, value: string): seq<Attr> {
    if attrs == [] then [Attr(key, Some(value))]
    else if attrs[0].key == key then [Attr(key, Some(value))] + attrs[1..]
    else [attrs[0]] + DictSet(attrs[1..], key, value)
  }
}
