/** The address parser and printer: `user[_agent][:device]@server[.integrator]`. */
module Jid {
  import opened Common
  import opened Text

  const S_WHATSAPP_NET: string := "s.whatsapp.net"
  const C_US: string := "c.us"
  const LID_SERVER: string := "lid"
  const HOSTED_SERVER: string := "hosted"
  const HOSTED_LID_SERVER: string := "hosted.lid"

  const DOMAIN_WHATSAPP := 0
  const DOMAIN_LID := 1
  const DOMAIN_HOSTED := 128
  const DOMAIN_HOSTED_LID := 129

  /** The reasons for a ValueError. */
  datatype JidError = NoServer | EmptyPart | BadDevice | BadInteger

  datatype JidParts = JidParts(user: string, server: string, device: int, agent: Option<int>,
                               integrator: Option<int>, domainType: int)

  function DomainTypeForServer(server: string, agent: Option<int>): int {
    if server == LID_SERVER then DOMAIN_LID
    else if server == HOSTED_SERVER then DOMAIN_HOSTED
    else if server == HOSTED_LID_SERVER then DOMAIN_HOSTED_LID
    else match agent
      case Some(a) => a
      case None => DOMAIN_WHATSAPP
  }

  // ---- parsing ------------------------------------------------------------------------

  /** `s.isdigit()` */
  predicate Digits(h: Host, s: string) {
    s != "" && forall i :: 0 <= i < |s| ==> h.IsDigit(s[i])
  }

  /** Whether `s` ends in `c` and digits. */
  predicate EndsInNumber(h: Host, s: string, c: char) {
    c in s && Digits(h, s[FindLast(s, c) + 1..])
  }

  /** `s` without the number after its last `c`, and that number; all of `s` when there is none. */
  function SplitNumber(h: Host, s: string, c: char): Result<(string, Option<int>), JidError> {
    if !EndsInNumber(h, s, c) then Ok((s, None))
    else match h.ParseInt(s[FindLast(s, c) + 1..])
      case None => Err(BadInteger)
      case Some(n) => Ok((s[..FindLast(s, c)], Some(n)))
  }

  function OrZero(n: Option<int>): int {
    match n
    case Some(v) => v
    case None => 0
  }

  /** The parts of a left and a right side, neither empty. */
  function ParseSides(h: Host, left: string, right: string): Result<JidParts, JidError> {
    if left == "" || right == "" then Err(EmptyPart)
    else if ':' in left && !EndsInNumber(h, left, ':') then Err(BadDevice)
    else
      var (userAgent, device) :- SplitNumber(h, left, ':');
      var (user, agent) :- SplitNumber(h, userAgent, '_');
      var (server, integrator) :- SplitNumber(h, right, '.');
      Ok(JidParts(user, server, OrZero(device), agent, integrator, DomainTypeForServer(server, agent)))
  }

  /** `jid_decode` */
  function Decode(h: Host, jid: string): Result<JidParts, JidError> {
    if '@' !in jid then Err(NoServer)
    else ParseSides(h, jid[..Find(jid, '@')], jid[Find(jid, '@') + 1..])
  }

  // ---- printing -----------------------------------------------------------------------

  /** `str(n)`, which Python refuses beyond 4300 digits. */
  function Str(n: int): Result<string, JidError> {
    var digits := Decimal(if n < 0 then -n else n);
    if |digits| > 4300 then Err(BadInteger)
    else Ok(if n < 0 then "-" + digits else digits)
  }

  function Suffix(c: char, n: Option<int>): Result<string, JidError> {
    match n
    case None => Ok("")
    case Some(v) =>
      var digits :- Str(v);
      Ok([c] + digits)
  }

  /** A device that is printed: neither missing nor zero. */
  function Shown(device: Option<int>): Option<int> {
    if device == Some(0) then None else device
  }

  /** `jid_encode` */
  function Encode(user: string, server: string, device: Option<int>, agent: Option<int>,
                  integrator: Option<int>): Result<string, JidError>
  {
    var agentText :- Suffix('_', agent);
    var deviceText :- Suffix(':', Shown(device));
    var integratorText :- Suffix('.', integrator);
    Ok((user + agentText + deviceText) + "@" + (server + integratorText))
  }

  function NormalServer(server: string): string {
    if server == C_US then S_WHATSAPP_NET else server
  }

  /** `jid_normalized_user` */
  function NormalizedUser(h: Host, jid: string): Result<string, JidError> {
    var p :- Decode(h, jid);
    Encode(p.user, NormalServer(p.server), None, p.agent, p.integrator)
  }

  // ---- one number behind one separator ------------------------------------------------

  predicate Separator(c: char) {
    c == '_' || c == ':' || c == '.'
  }

  /** What makes `base` and `n` readable again once printed with `c` between them. */
  predicate NumberFits(h: Host, base: string, c: char, n: Option<int>) {
    match n
    case None => !EndsInNumber(h, base, c)
    case Some(v) => v >= 0
  }

  lemma SuffixShape(c: char, n: Option<int>, text: string)
    requires Suffix(c, n) == Ok(text)
    ensures n == None ==> text == ""
    ensures n.Some? && n.value >= 0 ==> text == [c] + Decimal(n.value) && |Decimal(n.value)| <= 4300
    ensures n.Some? && n.value < 0 ==> text == [c] + ("-" + Decimal(-n.value))
    ensures forall d :: d in text ==> d == c || d == '-' || AsciiDigit(d)
  {
    hide Decimal;
  }

  /** A number printed after `base` is read back, and `base` with it, exactly when it fits. */
  lemma SuffixBack(h: Host, base: string, c: char, n: Option<int>, text: string)
    requires Separator(c) && Suffix(c, n) == Ok(text)
    ensures SplitNumber(h, base + text, c) == Ok((base, n)) <==> NumberFits(h, base, c, n)
    ensures n.Some? ==> FindLast(base + text, c) == |base|
    ensures n.Some? ==> (EndsInNumber(h, base + text, c) <==> n.value >= 0)
  {
    hide Decimal, FindLast, Suffix, EndsInNumber, SplitNumber, Str;
    if n == None {
      SuffixShape(c, n, text);
      assert base + text == base;
      NoNumber(h, base, c);
    } else {
      SomeBack(h, base, c, n.value, text);
    }
  }

  lemma SomeBack(h: Host, base: string, c: char, v: int, text: string)
    requires Separator(c) && Suffix(c, Some(v)) == Ok(text)
    ensures SplitNumber(h, base + text, c) == if v >= 0 then Ok((base, Some(v))) else Ok((base + text, None))
    ensures FindLast(base + text, c) == |base|
    ensures EndsInNumber(h, base + text, c) <==> v >= 0
  {
    hide FindLast, Suffix, EndsInNumber, SplitNumber, Numeral, NumeralValue, Str;
    SuffixDigits(c, v, text);
    NumberAt(h, base, c, text);
  }

  lemma SuffixDigits(c: char, v: int, text: string)
    requires Separator(c) && Suffix(c, Some(v)) == Ok(text)
    ensures |text| > 1 && text[0] == c && c !in text[1..] && (text[1] == '-' <==> v < 0)
    ensures v >= 0 ==> Numeral(text[1..]) && |text| <= 4301 && NumeralValue(text[1..]) == v
  {
    hide Decimal, NumeralValue;
    var digits := if v < 0 then "-" + Decimal(-v) else Decimal(v);
    assert text == [c] + digits;
    assert text[1..] == digits;
  }

  lemma NoNumber(h: Host, base: string, c: char)
    ensures SplitNumber(h, base, c) == Ok((base, None)) <==> !EndsInNumber(h, base, c)
  {
    hide FindLast, EndsInNumber;
  }

  lemma NumberAt(h: Host, base: string, c: char, text: string)
    requires Separator(c) && |text| > 1 && text[0] == c && c !in text[1..]
    requires text[1] == '-' || (Numeral(text[1..]) && |text| <= 4301)
    ensures FindLast(base + text, c) == |base|
    ensures EndsInNumber(h, base + text, c) <==> text[1] != '-'
    ensures SplitNumber(h, base + text, c)
      == if text[1] == '-' then Ok((base + text, None)) else Ok((base, Some(NumeralValue(text[1..]))))
  {
    hide FindLast, NumeralValue;
    var s, digits := base + text, text[1..];
    assert s == base + [c] + digits;
    FindLastAt(base, c, digits);
    assert s[|base|] == c;
    assert s[|base| + 1..] == digits && s[..|base|] == base;
    assert digits[0] == '-' ==> !h.IsDigit(digits[0]);
  }

  // ---- printing, then parsing ---------------------------------------------------------

  /** The parts that can be told apart in the printed text. */
  predicate Separable(h: Host, user: string, server: string, device: Option<int>, agent: Option<int>,
                      integrator: Option<int>)
  {
    && '@' !in user
    && (user != "" || agent.Some? || Shown(device).Some?)
    && (server != "" || integrator.Some?)
    && (if Shown(device).Some? then device.value > 0 else ':' !in user)
    && NumberFits(h, user, '_', agent)
    && NumberFits(h, server, '.', integrator)
  }

  lemma SidesFound(left: string, right: string)
    requires '@' !in left
    ensures '@' in left + "@" + right
    ensures (left + "@" + right)[..Find(left + "@" + right, '@')] == left
    ensures (left + "@" + right)[Find(left + "@" + right, '@') + 1..] == right
  {
    hide Find;
    FindAt(left, '@', right);
    assert (left + "@" + right)[|left|] == '@';
  }

  lemma UserIsPrefix(h: Host, left: string, right: string)
    requires ParseSides(h, left, right).Ok?
    ensures ParseSides(h, left, right).value.user <= left
    ensures ':' in left ==> |ParseSides(h, left, right).value.user| <= FindLast(left, ':')
  {
    hide FindLast, Digits, DomainTypeForServer, Host.ParseInt;
  }

  /** The user of a parsed address holds no `@`. */
  lemma UserHasNoAt(h: Host, jid: string)
    requires Decode(h, jid).Ok?
    ensures '@' !in Decode(h, jid).value.user
  {
    hide Find, ParseSides;
    UserIsPrefix(h, jid[..Find(jid, '@')], jid[Find(jid, '@') + 1..]);
  }

  /** Once the device is split off, the rest decides. */
  lemma RestBack(h: Host, left: string, right: string, userAgent: string, device: Option<int>,
                 user: string, server: string, agent: Option<int>, integrator: Option<int>)
    requires left != "" && right != "" && (':' in left ==> EndsInNumber(h, left, ':'))
    requires SplitNumber(h, left, ':') == Ok((userAgent, device))
    ensures
      (ParseSides(h, left, right)
       == Ok(JidParts(user, server, OrZero(device), agent, integrator, DomainTypeForServer(server, agent))))
      <==> (SplitNumber(h, userAgent, '_') == Ok((user, agent))
            && SplitNumber(h, right, '.') == Ok((server, integrator)))
  {
    hide EndsInNumber, SplitNumber, OrZero, DomainTypeForServer;
    var a, s := SplitNumber(h, userAgent, '_'), SplitNumber(h, right, '.');
    if a.Ok? && s.Ok? {
      assert a == Ok((a.value.0, a.value.1)) && s == Ok((s.value.0, s.value.1));
      assert ParseSides(h, left, right)
          == Ok(JidParts(a.value.0, s.value.0, OrZero(device), a.value.1, s.value.1,
                         DomainTypeForServer(s.value.0, a.value.1)));
    }
  }

  /** The two sides of a printed address are parsed back exactly when its numbers stand apart. */
  lemma SidesBack(h: Host, user: string, server: string, device: Option<int>, agent: Option<int>,
                  integrator: Option<int>, agentText: string, deviceText: string, integratorText: string)
    requires Suffix('_', agent) == Ok(agentText) && Suffix(':', Shown(device)) == Ok(deviceText)
    requires Suffix('.', integrator) == Ok(integratorText) && '@' !in user
    ensures
      (ParseSides(h, user + agentText + deviceText, server + integratorText)
       == Ok(JidParts(user, server, OrZero(device), agent, integrator, DomainTypeForServer(server, agent))))
      <==> Separable(h, user, server, device, agent, integrator)
  {
    hide FindLast, Digits, SplitNumber, Suffix, DomainTypeForServer, Str, Host.ParseInt, EndsInNumber;
    var userAgent, left, right := user + agentText, user + agentText + deviceText, server + integratorText;
    SuffixShape('_', agent, agentText);
    SuffixShape(':', Shown(device), deviceText);
    SuffixShape('.', integrator, integratorText);
    SuffixBack(h, user, '_', agent, agentText);
    SuffixBack(h, userAgent, ':', Shown(device), deviceText);
    SuffixBack(h, server, '.', integrator, integratorText);
    assert ':' in left <==> ':' in user || Shown(device).Some? by {
      assert Shown(device).Some? ==> left[|userAgent|] == ':';
    }
    var readable := if Shown(device).Some? then device.value > 0 else ':' !in user;
    if left != "" && right != "" && readable {
      assert Shown(device) == None ==> left == userAgent;
      NoColon(h, left);
      RestBack(h, left, right, userAgent, Shown(device), user, server, agent, integrator);
    } else if !readable && Shown(device) == None && ParseSides(h, left, right).Ok? {
      assert left == userAgent;
      UserIsPrefix(h, left, right);
      LastInFront(user, agentText, ':');
    }
  }

  lemma NoColon(h: Host, s: string)
    ensures ':' !in s ==> !EndsInNumber(h, s, ':')
  {
  }

  lemma LastInFront(front: string, back: string, c: char)
    requires c in front && c !in back
    ensures FindLast(front + back, c) < |front|
  {
    hide FindLast;
    var s, i := front + back, FindLast(front + back, c);
    var k :| 0 <= k < |front| && front[k] == c;
    assert s[k] == c;
  }

  /** Printing and then parsing gives back the parts exactly when they are separable. */
  lemma DecodeEncode(h: Host, user: string, server: string, device: Option<int>, agent: Option<int>,
                     integrator: Option<int>)
    requires Encode(user, server, device, agent, integrator).Ok?
    ensures
      (Decode(h, Encode(user, server, device, agent, integrator).value)
       == Ok(JidParts(user, server, OrZero(device), agent, integrator, DomainTypeForServer(server, agent))))
      <==> Separable(h, user, server, device, agent, integrator)
  {
    hide Find, Suffix, ParseSides, DomainTypeForServer, NumberFits;
    var jid := Encode(user, server, device, agent, integrator).value;
    var agentText, deviceText := Suffix('_', agent).value, Suffix(':', Shown(device)).value;
    var integratorText := Suffix('.', integrator).value;
    SuffixShape('_', agent, agentText);
    SuffixShape(':', Shown(device), deviceText);
    if '@' in user {
      if Decode(h, jid).Ok? {
        UserHasNoAt(h, jid);
      }
    } else {
      SidesFound(user + agentText + deviceText, server + integratorText);
      SidesBack(h, user, server, device, agent, integrator, agentText, deviceText, integratorText);
    }
  }

  // ---- parsing, then printing ---------------------------------------------------------

  /** A numeral as `str` prints it. */
  predicate Plain(s: string) {
    Numeral(s) && (|s| == 1 || s[0] != '0')
  }

  /** The number after the last `c`, if there is one, is as `str` prints it. */
  predicate PlainTail(h: Host, s: string, c: char) {
    EndsInNumber(h, s, c) ==> Plain(s[FindLast(s, c) + 1..])
  }

  /** An address as the printer writes it: plain numbers, and no device that is zero. */
  predicate Canonical(h: Host, jid: string)
    requires '@' in jid
  {
    var left, right := jid[..Find(jid, '@')], jid[Find(jid, '@') + 1..];
    && PlainTail(h, left, ':') && (':' in left ==> left[FindLast(left, ':') + 1..] != "0")
    && PlainTail(h, left[..FindLast(left, ':')], '_')
    && PlainTail(h, right, '.')
  }

  lemma {:induction false} DecimalPlain(n: nat)
    ensures Plain(Decimal(n))
    ensures n > 0 ==> Decimal(n)[0] != '0'
  {
    if n >= 10 {
      DecimalPlain(n / 10);
    }
  }

  lemma {:induction false} DecimalOfPlain(s: string)
    requires Plain(s)
    ensures Decimal(NumeralValue(s)) == s
    ensures s[0] != '0' ==> NumeralValue(s) > 0
  {
    if |s| > 1 {
      var front := s[..|s| - 1];
      assert s == front + [s[|s| - 1]];
      DecimalOfPlain(front);
    }
  }

  /** A number printed again is the text it was parsed from exactly when that text is plain. */
  lemma StrBack(h: Host, s: string, n: int)
    requires Digits(h, s) && h.ParseInt(s) == Some(n)
    ensures Str(n) == Ok(s) <==> Plain(s)
    ensures Plain(s) ==> (n == 0 <==> s == "0")
  {
    hide Decimal, NumeralValue;
    if Plain(s) {
      DecimalOfPlain(s);
      if s[0] == '0' {
        assert s == "0";
        DecimalPlain(0);
      }
    }
    if Str(n) == Ok(s) {
      assert h.IsDigit(s[0]);
      DecimalPlain(if n < 0 then -n else n);
    }
  }

  /** What stands behind the base is what the printer would put there exactly when it is plain. */
  lemma TailBack(h: Host, s: string, c: char, base: string, n: Option<int>)
    requires Separator(c) && SplitNumber(h, s, c) == Ok((base, n))
    ensures base <= s
    ensures Suffix(c, n) == Ok(s[|base|..]) <==> PlainTail(h, s, c)
    ensures n == None ==> base == s
    ensures n.Some? ==> EndsInNumber(h, s, c) && base == s[..FindLast(s, c)]
    ensures n.Some? && PlainTail(h, s, c) ==> (n == Some(0) <==> s[FindLast(s, c) + 1..] == "0")
    ensures s[|base|..] == "" || s[|base|] == c
    ensures forall d :: d in s[|base|..] ==> d == c || h.IsDigit(d)
    ensures c != ':' ==> ':' !in s[|base|..]
  {
    hide FindLast, Plain, Str, Host.ParseInt;
    if n.Some? {
      var digits := s[FindLast(s, c) + 1..];
      assert s[|base|..] == [c] + digits;
      StrBack(h, digits, n.value);
      assert !h.IsDigit(':');
      assert Str(n.value).Ok? ==> ([c] + Str(n.value).value)[1..] == Str(n.value).value;
      assert ([c] + digits)[1..] == digits;
    } else {
      assert s[|base|..] == "";
    }
  }

  /** The same for the device, which is not printed when it is zero. */
  lemma DeviceBack(h: Host, left: string, userAgent: string, device: Option<int>)
    requires SplitNumber(h, left, ':') == Ok((userAgent, device))
    requires ':' in left ==> EndsInNumber(h, left, ':')
    ensures userAgent == left[..FindLast(left, ':')]
    ensures left[|userAgent|..] == "" || left[|userAgent|] == ':'
    ensures Suffix(':', Shown(Some(OrZero(device)))) == Ok(left[|userAgent|..])
      <==> PlainTail(h, left, ':') && (':' in left ==> left[FindLast(left, ':') + 1..] != "0")
  {
    hide FindLast, Plain, Str, Host.ParseInt, Host.IsDigit, Digits;
    TailBack(h, left, ':', userAgent, device);
    NoColon(h, left);
    if device == Some(0) {
      assert left[|userAgent|..][0] == ':';
    }
  }

  lemma SameTails(front: string, a: string, d: string, a': string, d': string)
    requires ':' !in a && ':' !in a' && (d == "" || d[0] == ':') && (d' == "" || d'[0] == ':')
    requires front + a + d == front + a' + d'
    ensures a == a' && d == d'
  {
    assert a + d == (front + a + d)[|front|..] == (front + a' + d')[|front|..] == a' + d';
    ColonIn(a, d);
    ColonIn(a', d');
    if d != "" {
      assert a + d == a + ":" + d[1..] && a' + d' == a' + ":" + d'[1..];
      CutUnique(a, d[1..], ':', a', d'[1..]);
      assert d == ":" + d[1..] && d' == ":" + d'[1..];
    } else {
      assert a + d == a && a' + d' == a';
    }
  }

  lemma ColonIn(a: string, d: string)
    requires ':' !in a && (d == "" || d[0] == ':')
    ensures ':' in a + d <==> d != ""
  {
    assert d != "" ==> (a + d)[|a|] == ':';
  }

  /** Parsing and then printing gives back the address exactly when it is canonical. */
  lemma EncodeDecode(h: Host, jid: string)
    requires Decode(h, jid).Ok?
    ensures
      var p := Decode(h, jid).value;
      Encode(p.user, p.server, Some(p.device), p.agent, p.integrator) == Ok(jid) <==> Canonical(h, jid)
  {
    hide Find, FindLast, EndsInNumber, SplitNumber, Suffix, Plain, PlainTail, DomainTypeForServer, Encode, Digits,
        Host.IsDigit, Shown, OrZero;
    var left, right := jid[..Find(jid, '@')], jid[Find(jid, '@') + 1..];
    var (userAgent, device) := SplitNumber(h, left, ':').value;
    var (user, agent) := SplitNumber(h, userAgent, '_').value;
    var (server, integrator) := SplitNumber(h, right, '.').value;
    DeviceBack(h, left, userAgent, device);
    TailBack(h, userAgent, '_', user, agent);
    TailBack(h, right, '.', server, integrator);
    var a, d, i := userAgent[|user|..], left[|userAgent|..], right[|server|..];
    Joined(left, user, userAgent);
    assert right == server + i;
    CutAtFirst(jid);
    PrintPieces(user, server, Some(OrZero(device)), agent, integrator, a, d, i);
  }

  lemma CutAtFirst(jid: string)
    requires '@' in jid
    ensures jid == jid[..Find(jid, '@')] + "@" + jid[Find(jid, '@') + 1..]
  {
    hide Find;
  }

  lemma Joined(s: string, a: string, b: string)
    requires a <= b <= s
    ensures s == a + b[|a|..] + s[|b|..]
    ensures forall d :: d !in s ==> d !in a && d !in b[|a|..] && d !in s[|b|..]
  {
  }

  /** An address is printed piece by piece. */
  lemma PrintPieces(user: string, server: string, device: Option<int>, agent: Option<int>, integrator: Option<int>,
                    a: string, d: string, i: string)
    requires ':' !in a && (d == "" || d[0] == ':') && '@' !in user && '@' !in a && '@' !in d
    ensures Encode(user, server, device, agent, integrator) == Ok((user + a + d) + "@" + (server + i))
      <==> Suffix('_', agent) == Ok(a) && Suffix(':', Shown(device)) == Ok(d) && Suffix('.', integrator) == Ok(i)
  {
    hide Suffix;
    var a', d', i' := Suffix('_', agent), Suffix(':', Shown(device)), Suffix('.', integrator);
    if a'.Ok? && d'.Ok? && i'.Ok? {
      SuffixShape('_', agent, a'.value);
      SuffixShape(':', Shown(device), d'.value);
      SuffixShape('.', integrator, i'.value);
      SameText(user, server, a, d, i, a'.value, d'.value, i'.value);
    }
  }

  lemma SameText(user: string, server: string, a: string, d: string, i: string, a': string, d': string, i': string)
    requires ':' !in a && ':' !in a' && (d == "" || d[0] == ':') && (d' == "" || d'[0] == ':')
    requires '@' !in user && '@' !in a && '@' !in d && '@' !in a' && '@' !in d'
    ensures (user + a + d) + "@" + (server + i) == (user + a' + d') + "@" + (server + i')
      <==> a == a' && d == d' && i == i'
  {
    if (user + a + d) + "@" + (server + i) == (user + a' + d') + "@" + (server + i') {
      CutUnique(user + a + d, server + i, '@', user + a' + d', server + i');
      SameTails(user, a, d, a', d');
      assert (server + i)[|server|..] == i && (server + i')[|server|..] == i';
    }
  }

  // ---- normalising twice --------------------------------------------------------------

  /** `int()` of a run of digits is not negative. */
  ghost predicate NaturalDigits(h: Host) {
    forall s: string :: Digits(h, s) && h.oddInt(s).Some? ==> h.oddInt(s).value >= 0
  }

  /** The left side without its device. */
  function UserAgent(jid: string): string
    requires '@' in jid
  {
    var left := jid[..Find(jid, '@')];
    left[..FindLast(left, ':')]
  }

  /** At most one colon in the left side, and something in front of it. */
  predicate OneDevice(jid: string)
    requires '@' in jid
  {
    UserAgent(jid) != "" && ':' !in UserAgent(jid)
  }

  /** What is left of a split number fits with the number. */
  lemma SplitFits(h: Host, s: string, c: char, base: string, n: Option<int>)
    requires NaturalDigits(h) && Separator(c) && SplitNumber(h, s, c) == Ok((base, n))
    ensures NumberFits(h, base, c, n)
    ensures s == "" <==> base == "" && n == None
    ensures c == '_' ==> (':' in s <==> ':' in base)
  {
    hide FindLast, NumeralValue;
    TailBack(h, s, c, base, n);
    assert s == base + s[|base|..];
  }

  /** The parts of a parsed address, in terms of its text. */
  lemma PartsOf(h: Host, jid: string)
    requires NaturalDigits(h) && Decode(h, jid).Ok?
    ensures
      var p := Decode(h, jid).value;
      && NumberFits(h, p.user, '_', p.agent)
      && NumberFits(h, p.server, '.', p.integrator)
      && (p.server != "" || p.integrator.Some?)
      && (p.user == "" && p.agent == None <==> UserAgent(jid) == "")
      && (':' in p.user <==> ':' in UserAgent(jid))
      && p.domainType == DomainTypeForServer(p.server, p.agent)
  {
    hide Find, FindLast, EndsInNumber, SplitNumber, Plain, PlainTail, DomainTypeForServer, NumberFits;
    var left, right := jid[..Find(jid, '@')], jid[Find(jid, '@') + 1..];
    var (userAgent, device) := SplitNumber(h, left, ':').value;
    var (user, agent) := SplitNumber(h, userAgent, '_').value;
    var (server, integrator) := SplitNumber(h, right, '.').value;
    DeviceBack(h, left, userAgent, device);
    SplitFits(h, userAgent, '_', user, agent);
    SplitFits(h, right, '.', server, integrator);
  }

  /** The renamed server still holds no number. */
  lemma NormalServerFits(h: Host, server: string, integrator: Option<int>)
    requires NumberFits(h, server, '.', integrator)
    ensures NumberFits(h, NormalServer(server), '.', integrator)
    ensures NormalServer(server) == "" <==> server == ""
  {
    hide FindLast;
    FindLastAt("s.whatsapp", '.', "net");
    assert S_WHATSAPP_NET == "s.whatsapp" + ['.'] + "net";
    assert S_WHATSAPP_NET[11..] == "net";
    assert !h.IsDigit("net"[0]);
  }

  /** A user that still holds a colon does not survive being parsed and printed without a device. */
  lemma ColonLost(h: Host, user: string, server: string, agent: Option<int>, integrator: Option<int>)
    requires Encode(user, server, None, agent, integrator).Ok? && '@' !in user && ':' in user
    ensures
      var s := Encode(user, server, None, agent, integrator).value;
      NormalizedUser(h, s) != Ok(s)
  {
    hide Find, FindLast, ParseSides, Suffix, Shown;
    var s := Encode(user, server, None, agent, integrator).value;
    var left, right := user + Suffix('_', agent).value, server + Suffix('.', integrator).value;
    var k :| 0 <= k < |user| && user[k] == ':';
    assert left[k] == ':';
    if NormalizedUser(h, s) == Ok(s) {
      var q := Decode(h, s).value;
      UserHasNoAt(h, s);
      LeftSides(h, user, server, agent, integrator, q.user, NormalServer(q.server), q.agent, q.integrator);
      SidesFound(left, right);
      SuffixShape('_', q.agent, Suffix('_', q.agent).value);
      UserTooShort(h, left, right, Suffix('_', q.agent).value);
    }
  }

  lemma UserTooShort(h: Host, left: string, right: string, tail: string)
    requires ':' in left && ':' !in tail && ParseSides(h, left, right).Ok?
    ensures left != ParseSides(h, left, right).value.user + tail
  {
    hide FindLast, ParseSides;
    UserIsPrefix(h, left, right);
    if left == ParseSides(h, left, right).value.user + tail {
      LastInTail(ParseSides(h, left, right).value.user, tail, ':');
    }
  }

  lemma LastInTail(front: string, back: string, c: char)
    requires c in front + back && c !in back
    ensures FindLast(front + back, c) < |front|
  {
    hide FindLast;
    assert c in front;
    LastInFront(front, back, c);
  }

  lemma LeftSides(h: Host, user: string, server: string, agent: Option<int>, integrator: Option<int>,
                  user': string, server': string, agent': Option<int>, integrator': Option<int>)
    requires '@' !in user && '@' !in user'
    requires Encode(user, server, None, agent, integrator).Ok?
    requires Encode(user', server', None, agent', integrator') == Encode(user, server, None, agent, integrator)
    ensures user + Suffix('_', agent).value == user' + Suffix('_', agent').value
    ensures '@' !in user + Suffix('_', agent).value
    ensures Encode(user, server, None, agent, integrator).value
      == (user + Suffix('_', agent).value) + "@" + (server + Suffix('.', integrator).value)
  {
    hide Suffix;
    var a, a' := Suffix('_', agent).value, Suffix('_', agent').value;
    var none := Suffix(':', Shown(None)).value;
    SuffixShape(':', Shown(None), none);
    SuffixShape('_', agent, a);
    SuffixShape('_', agent', a');
    assert user + a + none == user + a && user' + a' + none == user' + a';
    CutUnique(user + a, server + Suffix('.', integrator).value, '@', user' + a',
              server' + Suffix('.', integrator').value);
  }

  /** Normalising a normalised address changes nothing exactly when the address had one device at most,
      behind a user; it is then the same address without the device. */
  lemma NormaliseTwice(h: Host, jid: string)
    requires NaturalDigits(h) && NormalizedUser(h, jid).Ok?
    ensures
      var s := NormalizedUser(h, jid).value;
      NormalizedUser(h, s) == Ok(s) <==> OneDevice(jid)
    ensures
      var p := Decode(h, jid).value;
      OneDevice(jid) ==>
        Decode(h, NormalizedUser(h, jid).value)
        == Ok(JidParts(p.user, NormalServer(p.server), 0, p.agent, p.integrator,
                       DomainTypeForServer(NormalServer(p.server), p.agent)))
  {
    hide UserAgent, ParseSides, Find, Suffix, NumberFits, DomainTypeForServer;
    var p, s := Decode(h, jid).value, NormalizedUser(h, jid).value;
    var server := NormalServer(p.server);
    PartsOf(h, jid);
    UserHasNoAt(h, jid);
    NormalServerFits(h, p.server, p.integrator);
    DecodeEncode(h, p.user, server, None, p.agent, p.integrator);
    if ':' in p.user {
      ColonLost(h, p.user, server, p.agent, p.integrator);
    } else if UserAgent(jid) == "" {
      NothingLeft(h, server, p.integrator);
    }
  }

  lemma NothingLeft(h: Host, server: string, integrator: Option<int>)
    requires Encode("", server, None, None, integrator).Ok?
    ensures NormalizedUser(h, Encode("", server, None, None, integrator).value) == Err(EmptyPart)
  {
    hide Find, Suffix;
    SuffixShape('_', None, Suffix('_', None).value);
    SuffixShape(':', None, Suffix(':', None).value);
    SidesFound("", server + Suffix('.', integrator).value);
  }

  /** The two ways normalising fails to settle: a device without a user, and a second device. */
  lemma NormaliseTwiceFails(h: Host)
    ensures NormalizedUser(h, ":5@x") == Ok("@x") && NormalizedUser(h, "@x") == Err(EmptyPart)
    ensures NormalizedUser(h, "a:1:2@x") == Ok("a:1@x") && NormalizedUser(h, "a:1@x") == Ok("a@x")
  {
    hide NormalizedUser;
    OneNumber(h, "", "5", ":5@x", "@x");
    OneNumber(h, "a:1", "2", "a:1:2@x", "a:1@x");
    OneNumber(h, "a", "1", "a:1@x", "a@x");
    NoUser(h);
  }

  lemma NoUser(h: Host)
    ensures NormalizedUser(h, "@x") == Err(EmptyPart)
  {
    hide Find;
    SidesFound("", "x");
    assert "" + "@" + "x" == "@x";
  }

  lemma Unsplit(h: Host, s: string, c: char)
    requires c !in s
    ensures SplitNumber(h, s, c) == Ok((s, None))
  {
  }

  /** A user without agent and a one-digit device, at the server `x`. */
  lemma OneNumber(h: Host, user: string, digit: string, jid: string, bare: string)
    requires '@' !in user && '_' !in user && |digit| == 1 && AsciiDigit(digit[0])
    requires jid == user + ":" + digit + "@x" && bare == user + "@x"
    ensures NormalizedUser(h, jid) == Ok(bare)
  {
    hide FindLast, Find, NumeralValue, SplitNumber, EndsInNumber, DomainTypeForServer, Decimal;
    Unsplit(h, user, '_');
    Unsplit(h, "x", '.');
    var left := user + ":" + digit;
    SidesFound(left, "x");
    assert jid == left + "@" + "x";
    NumberAt(h, user, ':', ":" + digit);
    assert left == user + (":" + digit) && (":" + digit)[1..] == digit;
    assert left[|user|] == ':';
    assert user + "" + "" + "@" + ("x" + "") == bare;
  }

  /** The domain type: 1, 128 and 129 for three servers; for the others the agent, or 0 without one. */
  predicate HasDomain(p: JidParts) {
    if p.server == "lid" then p.domainType == 1
    else if p.server == "hosted" then p.domainType == 128
    else if p.server == "hosted.lid" then p.domainType == 129
    else if p.agent.Some? then p.domainType == p.agent.value
    else p.domainType == 0
  }

  lemma DomainTypes(h: Host, jid: string)
    requires Decode(h, jid).Ok?
    ensures HasDomain(Decode(h, jid).value)
  {
    hide SplitNumber, Find;
  }

  /** The normalised address is the same one without its device, and at `s.whatsapp.net` if it was at `c.us`. */
  lemma NormalisedParts(h: Host, jid: string)
    requires NaturalDigits(h) && NormalizedUser(h, jid).Ok? && OneDevice(jid)
    ensures
      var p, r := Decode(h, jid).value, Decode(h, NormalizedUser(h, jid).value);
      && r.Ok? && HasDomain(r.value)
      && r.value == p.(device := 0, server := if p.server == "c.us" then "s.whatsapp.net" else p.server,
                       domainType := r.value.domainType)
  {
    hide OneDevice, NormalizedUser, HasDomain;
    NormaliseTwice(h, jid);
    DomainTypes(h, NormalizedUser(h, jid).value);
    hide Decode;
  }
}
