/** The Noise session: handshake cipher, transport cipher, frames and the reassembly buffer. */
module Noise {
  import opened Common

  /** AES-GCM, SHA-256 and the 64-byte HKDF; `decrypt` is None where the tag is wrong. */
  datatype Suite = Suite(
    encrypt: (Bytes, Bytes, Bytes, Bytes) -> Bytes,
    decrypt: (Bytes, Bytes, Bytes, Bytes) -> Option<Bytes>,
    sha256: Bytes -> Bytes,
    hkdf: (Bytes, Bytes) -> (Bytes, Bytes))
  {
    /** Decrypting with the same key, vector and associated data gives the plaintext back, and a
        ciphertext is its plaintext and a tag of 16 bytes. */
    ghost predicate Lawful() {
      && (forall p, key, iv, data :: decrypt(encrypt(p, key, iv, data), key, iv, data) == Some(p))
      && (forall p, key, iv, data :: |encrypt(p, key, iv, data)| == |p| + 16)
    }
  }

  datatype Failure = CounterOverflow | BadTag | FrameTooLarge | RoutingInfoTooLarge

  const COUNTER_LIMIT: nat := 0x1_0000_0000
  const FRAME_LIMIT: nat := 0x100_0000

  const NOISE_WA_HEADER: Bytes := [87, 65, 6, 3]

  /** `noise_intro_header`: with routing info, the letters ED, a version, the length in three bytes and the
      routing info come before the header. */
  function IntroHeader(routingInfo: Option<Bytes>): Result<Bytes, Failure> {
    if !Filled(routingInfo) then Ok(NOISE_WA_HEADER)
    else if |routingInfo.value| >= FRAME_LIMIT then Err(RoutingInfoTooLarge)
    else Ok([0x45, 0x44, 0, 1] + Big3(|routingInfo.value|) + routingInfo.value + NOISE_WA_HEADER)
  }

  /** The intro tells the routing info: its length stands in three bytes before it, and no other routing
      info has the same intro; none and empty are the same. */
  lemma IntroHeaderTells(a: Option<Bytes>, b: Option<Bytes>)
    requires IntroHeader(a).Ok? && IntroHeader(b).Ok?
    ensures Filled(a) ==>
      var h := IntroHeader(a).value;
      |h| == |a.value| + 11 && FromBig(h[4..7]) == |a.value| && h[7..7 + |a.value|] == a.value
      && h[7 + |a.value|..] == NOISE_WA_HEADER
    ensures IntroHeader(a) == IntroHeader(b) <==> (if Filled(a) then a == b else !Filled(b))
  {
    hide Big3, FromBig;
    if Filled(a) {
      IntroParts(a.value);
    }
    if Filled(b) {
      IntroParts(b.value);
    }
  }

  lemma IntroParts(info: Bytes)
    requires 0 < |info| < FRAME_LIMIT
    ensures
      var h := [0x45, 0x44, 0, 1] + Big3(|info|) + info + NOISE_WA_HEADER;
      |h| == |info| + 11 && h[4..7] == Big3(|info|) && h[7..7 + |info|] == info && h[7 + |info|..] == NOISE_WA_HEADER
      && h[0] == 0x45 && FromBig(h[4..7]) == |info|
  {
    hide Big3, FromBig;
    var h := [0x45, 0x44, 0, 1] + Big3(|info|) + info + NOISE_WA_HEADER;
    assert h[4..7] == Big3(|info|);
  }

  /** `_iv`, for a counter that fits. */
  function Iv(counter: nat): Bytes {
    [0, 0, 0, 0, 0, 0, 0, 0] + Big(counter, 4)
  }

  // ---- sessions as values -------------------------------------------------------------

  /** The handshake state: hash, salt, keys and one counter for both directions. */
  datatype Handshake = Handshake(hash: Bytes, salt: Bytes, encKey: Bytes, decKey: Bytes, counter: nat)

  datatype Transport = Transport(encKey: Bytes, decKey: Bytes, readCounter: nat, writeCounter: nat)

  datatype Session = Session(handshake: Handshake, transport: Option<Transport>, introHeader: Bytes, sentIntro: bool,
                             inBytes: Bytes)

  function Authenticate(s: Suite, h: Handshake, data: Bytes): Handshake {
    h.(hash := s.sha256(h.hash + data))
  }

  function MixIntoKey(s: Suite, h: Handshake, data: Bytes): Handshake {
    var (write, read) := s.hkdf(data, h.salt);
    h.(salt := write, encKey := read, decKey := read, counter := 0)
  }

  function HandshakeEncrypt(s: Suite, h: Handshake, plaintext: Bytes): Result<(Bytes, Handshake), Failure> {
    if h.counter >= COUNTER_LIMIT then Err(CounterOverflow)
    else
      var encrypted := s.encrypt(plaintext, h.encKey, Iv(h.counter), h.hash);
      Ok((encrypted, Authenticate(s, h.(counter := h.counter + 1), encrypted)))
  }

  function HandshakeDecrypt(s: Suite, h: Handshake, ciphertext: Bytes): Result<(Bytes, Handshake), Failure> {
    if h.counter >= COUNTER_LIMIT then Err(CounterOverflow)
    else match s.decrypt(ciphertext, h.decKey, Iv(h.counter), h.hash)
      case None => Err(BadTag)
      case Some(plaintext) => Ok((plaintext, Authenticate(s, h.(counter := h.counter + 1), ciphertext)))
  }

  function TransportEncrypt(s: Suite, t: Transport, plaintext: Bytes): Result<(Bytes, Transport), Failure> {
    if t.writeCounter >= COUNTER_LIMIT then Err(CounterOverflow)
    else Ok((s.encrypt(plaintext, t.encKey, Iv(t.writeCounter), []), t.(writeCounter := t.writeCounter + 1)))
  }

  function TransportDecrypt(s: Suite, t: Transport, ciphertext: Bytes): Result<(Bytes, Transport), Failure> {
    if t.readCounter >= COUNTER_LIMIT then Err(CounterOverflow)
    else match s.decrypt(ciphertext, t.decKey, Iv(t.readCounter), [])
      case None => Err(BadTag)
      case Some(plaintext) => Ok((plaintext, t.(readCounter := t.readCounter + 1)))
  }

  /** `NoiseHandshake.decrypt`: the transport cipher once there is one. */
  function Decrypt(s: Suite, st: Session, ciphertext: Bytes): Result<(Bytes, Session), Failure> {
    if st.transport.Some? then
      var (plaintext, t) :- TransportDecrypt(s, st.transport.value, ciphertext);
      Ok((plaintext, st.(transport := Some(t))))
    else
      var (plaintext, h) :- HandshakeDecrypt(s, st.handshake, ciphertext);
      Ok((plaintext, st.(handshake := h)))
  }

  /** `NoiseHandshake.encrypt` */
  function Encrypt(s: Suite, st: Session, plaintext: Bytes): Result<(Bytes, Session), Failure> {
    if st.transport.Some? then
      var (ciphertext, t) :- TransportEncrypt(s, st.transport.value, plaintext);
      Ok((ciphertext, st.(transport := Some(t))))
    else
      var (ciphertext, h) :- HandshakeEncrypt(s, st.handshake, plaintext);
      Ok((ciphertext, st.(handshake := h)))
  }

  // ---- frames -------------------------------------------------------------------------

  function Frame(body: Bytes): Bytes
    requires |body| < FRAME_LIMIT
  {
    Big3(|body|) + body
  }

  /** `encode_frame`: what it returns or raises, and the session it leaves behind. A body that
      is too large is only noticed after the counter has moved. */
  function EncodeFrame(s: Suite, st: Session, payload: Bytes): (Result<Bytes, Failure>, Session) {
    if st.transport.None? then PutFrame(st, payload)
    else match TransportEncrypt(s, st.transport.value, payload)
      case Err(e) => (Err(e), st)
      case Ok((body, t)) => PutFrame(st.(transport := Some(t)), body)
  }

  function PutFrame(st: Session, body: Bytes): (Result<Bytes, Failure>, Session) {
    var intro := if st.sentIntro then [] else st.introHeader;
    (if |body| >= FRAME_LIMIT then Err(FrameTooLarge) else Ok(intro + Frame(body)), st.(sentIntro := true))
  }

  /** The bytes from `index` on begin with a complete frame. */
  predicate HasFrame(buffer: Bytes, index: nat) {
    index + 3 <= |buffer| && index + 3 + FromBig(buffer[index..index + 3]) <= |buffer|
  }

  /** The complete frames from `index` on, and the bytes after them. */
  function SplitFrames(buffer: Bytes, index: nat): (r: (seq<Bytes>, Bytes))
    requires index <= |buffer|
    decreases |buffer| - index
  {
    if !HasFrame(buffer, index) then ([], buffer[index..])
    else
      var end := index + 3 + FromBig(buffer[index..index + 3]);
      var (frames, rest) := SplitFrames(buffer, end);
      ([buffer[index + 3..end]] + frames, rest)
  }

  /** The first `n` frames of the buffer end at `index`. */
  ghost predicate FramesEndAt(buffer: Bytes, n: nat, index: nat) {
    && index <= |buffer| && n <= |SplitFrames(buffer, 0).0|
    && SplitFrames(buffer, index) == (SplitFrames(buffer, 0).0[n..], SplitFrames(buffer, 0).1)
  }

  /** Reading on from the end of a frame. */
  lemma NextFrame(buffer: Bytes, n: nat, index: nat)
    requires FramesEndAt(buffer, n, index)
    ensures !HasFrame(buffer, index) ==> n == |SplitFrames(buffer, 0).0| && SplitFrames(buffer, 0).1 == buffer[index..]
    ensures HasFrame(buffer, index) ==>
              var end := index + 3 + FromBig(buffer[index..index + 3]);
              && n < |SplitFrames(buffer, 0).0| && SplitFrames(buffer, 0).0[n] == buffer[index + 3..end]
              && FramesEndAt(buffer, n + 1, end)
  {
    hide FromBig;
    var frames := SplitFrames(buffer, 0).0;
    if HasFrame(buffer, index) {
      var end := index + 3 + FromBig(buffer[index..index + 3]);
      assert frames[n..] == [buffer[index + 3..end]] + SplitFrames(buffer, end).0;
      assert frames[n..][1..] == frames[n + 1..] && frames[n..][0] == frames[n];
    }
  }

  /** Frames decrypted one after the other; after a failure the rest is not looked at. */
  datatype Decrypted = Decrypted(plaintexts: seq<Bytes>, session: Session, failure: Option<Failure>)

  function DecryptFrames(s: Suite, st: Session, frames: seq<Bytes>, n: nat): Decrypted
    requires n <= |frames|
  {
    if n == 0 then Decrypted([], st, None)
    else
      var d := DecryptFrames(s, st, frames, n - 1);
      if d.failure.Some? then d
      else match Decrypt(s, d.session, frames[n - 1])
        case Err(e) => d.(failure := Some(e))
        case Ok((plaintext, st')) => Decrypted(d.plaintexts + [plaintext], st', None)
  }

  /** `decode_transport_frames`: on a failure the buffer keeps everything. */
  function DecodeTransportFrames(s: Suite, st: Session, data: Bytes): (Result<seq<Bytes>, Failure>, Session) {
    var buffer := st.inBytes + data;
    var (frames, rest) := SplitFrames(buffer, 0);
    var d := DecryptFrames(s, st.(inBytes := buffer), frames, |frames|);
    match d.failure
    case Some(e) => (Err(e), d.session)
    case None => (Ok(d.plaintexts), d.session.(inBytes := rest))
  }

  lemma {:induction false} DecryptStops(s: Suite, st: Session, frames: seq<Bytes>, i: nat, n: nat)
    requires i <= n <= |frames| && DecryptFrames(s, st, frames, i).failure.Some?
    ensures DecryptFrames(s, st, frames, n) == DecryptFrames(s, st, frames, i)
  {
    hide Decrypt;
    if i < n {
      DecryptStops(s, st, frames, i, n - 1);
    }
  }

  // ---- session objects ----------------------------------------------------------------

  class TransportState {
    const encKey: Bytes
    const decKey: Bytes
    var readCounter: nat
    var writeCounter: nat

    constructor (encKey: Bytes, decKey: Bytes)
      ensures View() == Transport(encKey, decKey, 0, 0)
    {
      this.encKey, this.decKey := encKey, decKey;
      readCounter, writeCounter := 0, 0;
    }

    function View(): Transport
      reads this
    {
      Transport(encKey, decKey, readCounter, writeCounter)
    }

    method EncryptBytes(s: Suite, plaintext: Bytes) returns (r: Result<Bytes, Failure>)
      modifies this
      ensures match TransportEncrypt(s, old(View()), plaintext)
              case Ok((ciphertext, t)) => r == Ok(ciphertext) && View() == t
              case Err(e) => r == Err(e) && View() == old(View())
    {
      if writeCounter >= COUNTER_LIMIT { return Err(CounterOverflow); }
      r := Ok(s.encrypt(plaintext, encKey, Iv(writeCounter), []));
      writeCounter := writeCounter + 1;
    }

    method DecryptBytes(s: Suite, ciphertext: Bytes) returns (r: Result<Bytes, Failure>)
      modifies this
      ensures match TransportDecrypt(s, old(View()), ciphertext)
              case Ok((plaintext, t)) => r == Ok(plaintext) && View() == t
              case Err(e) => r == Err(e) && View() == old(View())
    {
      if readCounter >= COUNTER_LIMIT { return Err(CounterOverflow); }
      var plaintext := s.decrypt(ciphertext, decKey, Iv(readCounter), []);
      if plaintext.None? { return Err(BadTag); }
      readCounter := readCounter + 1;
      r := Ok(plaintext.value);
    }
  }

  class NoiseHandshake {
    const introHeader: Bytes
    var hash: Bytes
    var salt: Bytes
    var encKey: Bytes
    var decKey: Bytes
    var counter: nat
    var sentIntro: bool
    var transport: TransportState?
    var inBytes: Bytes

    /** The protocol name is used as it is when it has 32 bytes, and hashed otherwise. */
    constructor (s: Suite, protocolName: Bytes, introHeader: Bytes, ephemeralKey: Bytes)
      ensures View() == Opening(s, protocolName, introHeader, ephemeralKey)
    {
      this.introHeader := introHeader;
      var start := if |protocolName| == 32 then protocolName else s.sha256(protocolName);
      hash, salt, encKey, decKey, counter := start, start, start, start, 0;
      sentIntro, transport, inBytes := false, null, [];
      new;
      AuthenticateBytes(s, NOISE_WA_HEADER);
      AuthenticateBytes(s, ephemeralKey);
    }

    /** `NoiseHandshake(...)`, which raises when the routing info is too large. */
    static method Create(s: Suite, protocolName: Bytes, routingInfo: Option<Bytes>, ephemeralKey: Bytes)
      returns (r: Result<NoiseHandshake, Failure>)
      ensures match IntroHeader(routingInfo)
              case Err(e) => r == Err(e)
              case Ok(header) =>
                r.Ok? && fresh(r.value) && r.value.View() == Opening(s, protocolName, header, ephemeralKey)
    {
      var header := IntroHeader(routingInfo);
      if header.Err? { return Err(header.error); }
      var handshake := new NoiseHandshake(s, protocolName, header.value, ephemeralKey);
      return Ok(handshake);
    }

    function HandshakeView(): Handshake
      reads this
    {
      Handshake(hash, salt, encKey, decKey, counter)
    }

    function View(): Session
      reads this, transport
    {
      Session(HandshakeView(), if transport == null then None else Some(transport.View()), introHeader, sentIntro,
              inBytes)
    }

    method AuthenticateBytes(s: Suite, data: Bytes)
      modifies this
      ensures View() == old(View()).(handshake := Authenticate(s, old(HandshakeView()), data))
      ensures transport == old(transport)
    {
      hash := s.sha256(hash + data);
    }

    method MixIntoKeyBytes(s: Suite, data: Bytes)
      modifies this
      ensures View() == old(View()).(handshake := MixIntoKey(s, old(HandshakeView()), data))
      ensures transport == old(transport)
    {
      var (write, read) := s.hkdf(data, salt);
      salt, encKey, decKey, counter := write, read, read, 0;
    }

    /** `finish_init` */
    method FinishInit(s: Suite)
      modifies this
      ensures fresh(transport)
      ensures var (write, read) := s.hkdf([], old(salt));
              View() == old(View()).(transport := Some(Transport(write, read, 0, 0)))
    {
      var (write, read) := s.hkdf([], salt);
      transport := new TransportState(write, read);
    }

    method EncryptBytes(s: Suite, plaintext: Bytes) returns (r: Result<Bytes, Failure>)
      modifies this, transport
      ensures transport == old(transport)
      ensures match Encrypt(s, old(View()), plaintext)
              case Ok((ciphertext, st)) => r == Ok(ciphertext) && View() == st
              case Err(e) => r == Err(e) && View() == old(View())
    {
      if transport != null {
        r := transport.EncryptBytes(s, plaintext);
        return;
      }
      if counter >= COUNTER_LIMIT { return Err(CounterOverflow); }
      var encrypted := s.encrypt(plaintext, encKey, Iv(counter), hash);
      counter := counter + 1;
      AuthenticateBytes(s, encrypted);
      r := Ok(encrypted);
    }

    method DecryptBytes(s: Suite, ciphertext: Bytes) returns (r: Result<Bytes, Failure>)
      modifies this, transport
      ensures transport == old(transport) && inBytes == old(inBytes)
      ensures match Decrypt(s, old(View()), ciphertext)
              case Ok((plaintext, st)) => r == Ok(plaintext) && View() == st
              case Err(e) => r == Err(e) && View() == old(View())
    {
      if transport != null {
        r := transport.DecryptBytes(s, ciphertext);
        return;
      }
      if counter >= COUNTER_LIMIT { return Err(CounterOverflow); }
      var plaintext := s.decrypt(ciphertext, decKey, Iv(counter), hash);
      if plaintext.None? { return Err(BadTag); }
      counter := counter + 1;
      AuthenticateBytes(s, ciphertext);
      r := Ok(plaintext.value);
    }

    /** `encode_frame` */
    method EncodeFrameBytes(s: Suite, payload: Bytes) returns (r: Result<Bytes, Failure>)
      modifies this, transport
      ensures transport == old(transport)
      ensures (r, View()) == EncodeFrame(s, old(View()), payload)
    {
      var body := payload;
      if transport != null {
        var encrypted := transport.EncryptBytes(s, payload);
        if encrypted.Err? { return encrypted; }
        body := encrypted.value;
      }
      var intro := if sentIntro then [] else introHeader;
      sentIntro := true;
      if |body| >= FRAME_LIMIT { return Err(FrameTooLarge); }
      r := Ok(intro + Big3(|body|) + body);
      assert intro + Big3(|body|) + body == intro + Frame(body);
    }

    /** `decode_transport_frames` */
    method DecodeFrames(s: Suite, data: Bytes) returns (r: Result<seq<Bytes>, Failure>)
      modifies this, transport
      ensures transport == old(transport)
      ensures (r, View()) == DecodeTransportFrames(s, old(View()), data)
    {
      inBytes := inBytes + data;
      var frames, index, failure := DecryptBuffered(s);
      if failure.Some? { return Err(failure.value); }
      inBytes := inBytes[index..];
      r := Ok(frames);
    }

    /** The loop over the buffer: it ends at the first incomplete frame or the first failure. */
    method DecryptBuffered(s: Suite) returns (frames: seq<Bytes>, index: nat, failure: Option<Failure>)
      modifies this, transport
      ensures transport == old(transport) && inBytes == old(inBytes)
      ensures var (all, rest) := SplitFrames(inBytes, 0);
              && DecryptFrames(s, old(View()), all, |all|) == Decrypted(frames, View(), failure)
              && (failure.None? ==> index <= |inBytes| && inBytes[index..] == rest)
    {
      hide SplitFrames, Decrypt, FromBig, FramesEndAt;
      ghost var start := View();
      ghost var all := SplitFrames(inBytes, 0).0;
      frames, index, failure := [], 0, None;
      ghost var n := 0;
      NoFrameYet(inBytes);
      while index + 3 <= |inBytes|
        invariant transport == old(transport) && inBytes == old(inBytes)
        invariant index <= |inBytes| && n <= |all| && FramesEndAt(inBytes, n, index)
        invariant DecryptFrames(s, start, all, n) == Decrypted(frames, View(), None)
        decreases |inBytes| - index
      {
        NextFrame(inBytes, n, index);
        var size := FromBig(inBytes[index..index + 3]);
        index := index + 3;
        if index + size > |inBytes| {
          index := index - 3;
          break;
        }
        var ciphertext := inBytes[index..index + size];
        index := index + size;
        var plaintext := DecryptBytes(s, ciphertext);
        if plaintext.Err? {
          DecryptStops(s, start, all, n + 1, |all|);
          failure := Some(plaintext.error);
          return;
        }
        frames := frames + [plaintext.value];
        n := n + 1;
      }
      NextFrame(inBytes, n, index);
    }
  }

  lemma NoFrameYet(buffer: Bytes)
    ensures FramesEndAt(buffer, 0, 0)
  {
    assert SplitFrames(buffer, 0).0[0..] == SplitFrames(buffer, 0).0;
  }

  /** The session of a new handshake object. */
  function Opening(s: Suite, protocolName: Bytes, introHeader: Bytes, ephemeralKey: Bytes): Session {
    var start := if |protocolName| == 32 then protocolName else s.sha256(protocolName);
    var h := Authenticate(s, Handshake(start, start, start, start, 0), NOISE_WA_HEADER);
    Session(Authenticate(s, h, ephemeralKey), None, introHeader, false, [])
  }
}
