/** Two parties of a Noise session: they agree throughout the handshake, and in the transport
    phase what one receives is what the other sent, however the byte stream is cut up. */
module NoiseProtocol {
  import opened Common
  import opened Noise

  // ---- the handshake ------------------------------------------------------------------

  datatype HandshakeStep =
    | BothAuthenticate(data: Bytes) | BothMix(data: Bytes) | AToB(plaintext: Bytes) | BToA(plaintext: Bytes)

  /** The two handshake states, the plaintexts encrypted so far and those decrypted so far. */
  datatype Parties = Parties(a: Handshake, b: Handshake, sent: seq<Bytes>, got: seq<Bytes>)

  /** One encryption and the matching decryption; an exception leaves everything as it was. */
  function Exchange(s: Suite, sender: Handshake, receiver: Handshake, plaintext: Bytes)
    : Option<(Handshake, Handshake, Option<Bytes>)>
  {
    match HandshakeEncrypt(s, sender, plaintext)
    case Err(_) => None
    case Ok((ciphertext, sender')) =>
      match HandshakeDecrypt(s, receiver, ciphertext)
      case Err(_) => Some((sender', receiver, None))
      case Ok((received, receiver')) => Some((sender', receiver', Some(received)))
  }

  function Received(got: seq<Bytes>, plaintext: Option<Bytes>): seq<Bytes> {
    if plaintext.Some? then got + [plaintext.value] else got
  }

  function HandshakeNext(s: Suite, p: Parties, step: HandshakeStep): Parties {
    match step
    case BothAuthenticate(data) => p.(a := Authenticate(s, p.a, data), b := Authenticate(s, p.b, data))
    case BothMix(data) => p.(a := MixIntoKey(s, p.a, data), b := MixIntoKey(s, p.b, data))
    case AToB(plaintext) =>
      (match Exchange(s, p.a, p.b, plaintext)
       case None => p
       case Some((a, b, got)) => Parties(a, b, p.sent + [plaintext], Received(p.got, got)))
    case BToA(plaintext) =>
      (match Exchange(s, p.b, p.a, plaintext)
       case None => p
       case Some((b, a, got)) => Parties(a, b, p.sent + [plaintext], Received(p.got, got)))
  }

  function HandshakeRun(s: Suite, p: Parties, steps: seq<HandshakeStep>): Parties {
    if steps == [] then p
    else HandshakeNext(s, HandshakeRun(s, p, steps[..|steps| - 1]), steps[|steps| - 1])
  }

  /** Both sides have the same hash, salt, counter and key, one key for both directions, and
      every plaintext encrypted by one side was recovered by the other. */
  predicate InAgreement(p: Parties) {
    p.a == p.b && p.a.encKey == p.a.decKey && p.sent == p.got
  }

  lemma ExchangeAgrees(s: Suite, h: Handshake, plaintext: Bytes)
    requires s.Lawful() && h.encKey == h.decKey
    ensures match Exchange(s, h, h, plaintext)
            case None => h.counter >= COUNTER_LIMIT
            case Some((sender, receiver, got)) =>
              && sender == receiver && sender.encKey == sender.decKey == h.encKey
              && got == Some(plaintext) && sender.counter == h.counter + 1
  {
    if h.counter < COUNTER_LIMIT {
      var ciphertext := s.encrypt(plaintext, h.encKey, Iv(h.counter), h.hash);
      assert s.decrypt(ciphertext, h.encKey, Iv(h.counter), h.hash) == Some(plaintext);
    }
  }

  /** Agreement lasts over every sequence of handshake steps in either direction. */
  lemma {:induction false} HandshakeAgreement(s: Suite, p: Parties, steps: seq<HandshakeStep>)
    requires s.Lawful() && InAgreement(p)
    ensures InAgreement(HandshakeRun(s, p, steps))
  {
    if steps != [] {
      HandshakeAgreement(s, p, steps[..|steps| - 1]);
      var q := HandshakeRun(s, p, steps[..|steps| - 1]);
      match steps[|steps| - 1]
      case AToB(plaintext) => ExchangeAgrees(s, q.a, plaintext);
      case BToA(plaintext) => ExchangeAgrees(s, q.b, plaintext);
      case _ =>
    }
  }

  // ---- frames in a stream -------------------------------------------------------------

  /** Bodies framed one after the other. */
  function Stream(bodies: seq<Bytes>): Bytes
    requires forall i :: 0 <= i < |bodies| ==> |bodies[i]| < FRAME_LIMIT
  {
    if bodies == [] then [] else Frame(bodies[0]) + Stream(bodies[1..])
  }

  lemma {:induction false} StreamMore(bodies: seq<Bytes>, body: Bytes)
    requires forall i :: 0 <= i < |bodies| ==> |bodies[i]| < FRAME_LIMIT
    requires |body| < FRAME_LIMIT
    ensures Stream(bodies + [body]) == Stream(bodies) + Frame(body)
  {
    if bodies == [] {
      assert [body][1..] == [] && Frame(body) + [] == Frame(body);
      assert bodies + [body] == [body];
    } else {
      assert (bodies + [body])[1..] == bodies[1..] + [body];
      StreamMore(bodies[1..], body);
    }
  }

  /** The front of a stream holds a complete frame exactly when it holds all of the first one. */
  lemma FrontFrame(front: Bytes, rest: Bytes, body: Bytes, others: Bytes)
    requires |body| < FRAME_LIMIT && front + rest == Frame(body) + others
    ensures HasFrame(front, 0) <==> |Frame(body)| <= |front|
    ensures 3 <= |front| ==> FromBig(front[..3]) == |body|
    ensures |Frame(body)| <= |front| ==> front[3..|Frame(body)|] == body
    ensures |Frame(body)| <= |front| ==> front[|Frame(body)|..] + rest == others
  {
    hide FromBig;
    var size := Big3(|body|);
    hide Big3;
    if 3 <= |front| {
      assert front[..3] == (front + rest)[..3] == (Frame(body) + others)[..3] == size;
    }
    if |Frame(body)| <= |front| {
      var end := |Frame(body)|;
      assert front[3..end] == (front + rest)[3..end] == (Frame(body) + others)[3..end] == body;
      assert front[end..] + rest == (front + rest)[end..] == (Frame(body) + others)[end..] == others;
    }
  }

  /** Splitting from an index on is splitting what stands there. */
  lemma {:induction false} SplitShift(buffer: Bytes, index: nat)
    requires index <= |buffer|
    ensures SplitFrames(buffer, index) == SplitFrames(buffer[index..], 0)
  {
    SplitDrop(buffer, index, 0);
  }

  lemma {:induction false} SplitDrop(buffer: Bytes, start: nat, index: nat)
    requires start + index <= |buffer|
    ensures SplitFrames(buffer, start + index) == SplitFrames(buffer[start..], index)
    decreases |buffer| - start - index
  {
    hide FromBig;
    var tail := buffer[start..];
    assert tail[index..] == buffer[start + index..];
    if start + index + 3 <= |buffer| {
      assert tail[index..index + 3] == buffer[start + index..start + index + 3];
      var size := FromBig(tail[index..index + 3]);
      if start + index + 3 + size <= |buffer| {
        assert tail[index + 3..index + 3 + size] == buffer[start + index + 3..start + index + 3 + size];
        SplitDrop(buffer, start, index + 3 + size);
      }
    }
  }

  /** Cut a stream of frames anywhere: splitting the front gives the first so many bodies,
      and what it leaves, joined to the back, is the stream of the others. */
  lemma {:induction false} SplitPrefix(front: Bytes, back: Bytes, bodies: seq<Bytes>)
    requires forall i :: 0 <= i < |bodies| ==> |bodies[i]| < FRAME_LIMIT
    requires front + back == Stream(bodies)
    ensures var (frames, rest) := SplitFrames(front, 0);
            && |frames| <= |bodies| && frames == bodies[..|frames|]
            && rest + back == Stream(bodies[|frames|..])
            && !HasFrame(rest, 0)
    decreases |bodies|
  {
    if bodies == [] {
      assert front == [] && back == [];
      assert front[0..] == front && bodies[0..] == bodies;
    } else {
      var body, others := bodies[0], bodies[1..];
      FrontFrame(front, back, body, Stream(others));
      hide FromBig, Frame;
      if HasFrame(front, 0) {
        var end := |Frame(body)|;
        SplitPrefix(front[end..], back, others);
        SplitShift(front, end);
        FirstFrame(front, body);
        var frames := SplitFrames(front[end..], 0).0;
        assert [body] + others[..|frames|] == bodies[..1 + |frames|];
        assert others[|frames|..] == bodies[1 + |frames|..];
      } else {
        assert front[0..] == front && bodies[0..] == bodies;
      }
    }
  }

  lemma FirstFrame(front: Bytes, body: Bytes)
    requires |body| < FRAME_LIMIT && HasFrame(front, 0) && |Frame(body)| <= |front|
    requires FromBig(front[..3]) == |body| && front[3..|Frame(body)|] == body
    ensures SplitFrames(front, 0) ==
            ([body] + SplitFrames(front, |Frame(body)|).0, SplitFrames(front, |Frame(body)|).1)
  {
    hide FromBig;
    assert front[0..0 + 3] == front[..3];
  }

  // ---- one direction of the transport phase -------------------------------------------

  /** What is sent on one direction of a session: the two ends, the bytes in flight, the
      payloads whose frames were written and the payloads that were handed out. */
  datatype Link = Link(sender: Session, receiver: Session, wire: Bytes, sent: seq<Bytes>, got: seq<Bytes>)

  /** The frame of a payload stays below the three-byte length. */
  predicate Fits(payload: Bytes) {
    |payload| + 16 < FRAME_LIMIT
  }

  /** The bodies of the frames from number `start` on. */
  function Bodies(s: Suite, key: Bytes, sent: seq<Bytes>, start: nat): (r: seq<Bytes>)
    requires start <= |sent|
    ensures |r| == |sent| - start
  {
    seq(|sent| - start, i requires 0 <= i < |sent| - start => s.encrypt(sent[start + i], key, Iv(start + i), []))
  }

  /** Both ends count the same frames, and the bytes on their way are exactly the frames that
      have not been handed out, without a complete one waiting in the buffer. */
  ghost predicate InStep(s: Suite, l: Link) {
    && l.sender.transport.Some? && l.receiver.transport.Some? && l.sender.sentIntro
    && l.sender.transport.value.encKey == l.receiver.transport.value.decKey
    && l.sender.transport.value.writeCounter == |l.sent| <= COUNTER_LIMIT
    && l.receiver.transport.value.readCounter == |l.got| <= |l.sent|
    && l.got == l.sent[..|l.got|]
    && !HasFrame(l.receiver.inBytes, 0)
    && InFlight(s, l.sender.transport.value.encKey, l.sent, |l.got|, l.receiver.inBytes + l.wire)
  }

  ghost predicate InFlight(s: Suite, key: Bytes, sent: seq<Bytes>, start: nat, bytes: Bytes) {
    && start <= |sent|
    && (forall i :: 0 <= i < |Bodies(s, key, sent, start)| ==> |Bodies(s, key, sent, start)[i]| < FRAME_LIMIT)
    && bytes == Stream(Bodies(s, key, sent, start))
  }

  function SendOn(s: Suite, l: Link, payload: Bytes): Link {
    var (r, sender) := EncodeFrame(s, l.sender, payload);
    match r
    case Err(_) => l.(sender := sender)
    case Ok(frame) => l.(sender := sender, wire := l.wire + frame, sent := l.sent + [payload])
  }

  /** The next `n` bytes in flight, or all of them, reach the receiver. */
  function DeliverOn(s: Suite, l: Link, n: nat): Link {
    var cut := if n < |l.wire| then n else |l.wire|;
    var (r, receiver) := DecodeTransportFrames(s, l.receiver, l.wire[..cut]);
    l.(receiver := receiver, wire := l.wire[cut..], got := if r.Ok? then l.got + r.value else l.got)
  }

  lemma BodiesMore(s: Suite, key: Bytes, sent: seq<Bytes>, start: nat, payload: Bytes)
    requires start <= |sent|
    ensures Bodies(s, key, sent + [payload], start) ==
            Bodies(s, key, sent, start) + [s.encrypt(payload, key, Iv(|sent|), [])]
  {
  }

  lemma BodiesDrop(s: Suite, key: Bytes, sent: seq<Bytes>, start: nat, n: nat)
    requires start + n <= |sent|
    ensures Bodies(s, key, sent, start)[n..] == Bodies(s, key, sent, start + n)
  {
  }

  lemma FlightMore(s: Suite, key: Bytes, sent: seq<Bytes>, start: nat, bytes: Bytes, payload: Bytes)
    requires s.Lawful() && InFlight(s, key, sent, start, bytes) && Fits(payload)
    ensures |s.encrypt(payload, key, Iv(|sent|), [])| < FRAME_LIMIT
    ensures InFlight(s, key, sent + [payload], start, bytes + Frame(s.encrypt(payload, key, Iv(|sent|), [])))
  {
    var body := s.encrypt(payload, key, Iv(|sent|), []);
    assert |body| == |payload| + 16;
    BodiesMore(s, key, sent, start, payload);
    StreamMore(Bodies(s, key, sent, start), body);
  }

  /** Sending keeps the two ends in step exactly when the frame fits or the counter is used up
      (then nothing happens). A frame that is too large moves the counter and sends nothing. */
  lemma SendInStep(s: Suite, l: Link, payload: Bytes)
    requires s.Lawful() && InStep(s, l)
    ensures InStep(s, SendOn(s, l, payload)) <==> Fits(payload) || |l.sent| == COUNTER_LIMIT
  {
    hide Frame, InFlight, HasFrame, Iv;
    var key := l.sender.transport.value.encKey;
    if |l.sent| < COUNTER_LIMIT {
      var body := s.encrypt(payload, key, Iv(|l.sent|), []);
      assert |body| == |payload| + 16;
      if Fits(payload) {
        FlightMore(s, key, l.sent, |l.got|, l.receiver.inBytes + l.wire, payload);
        var frame := Frame(body);
        assert [] + frame == frame;
        assert l.receiver.inBytes + l.wire + frame == l.receiver.inBytes + (l.wire + frame);
        assert (l.sent + [payload])[..|l.got|] == l.sent[..|l.got|];
      }
    }
  }

  lemma BodyBack(s: Suite, key: Bytes, sent: seq<Bytes>, start: nat, k: nat)
    requires s.Lawful() && start + k < |sent| <= COUNTER_LIMIT
    ensures s.decrypt(Bodies(s, key, sent, start)[k], key, Iv(start + k), []) == Some(sent[start + k])
  {
    hide Iv;
  }

  /** Frames that were encrypted under the right counters are all decrypted. */
  lemma {:induction false} DecryptBodies(s: Suite, st: Session, sent: seq<Bytes>, frames: seq<Bytes>, n: nat)
    requires s.Lawful() && st.transport.Some?
    requires var t := st.transport.value;
             && t.readCounter + |frames| <= |sent| <= COUNTER_LIMIT
             && frames == Bodies(s, t.decKey, sent, t.readCounter)[..|frames|]
    requires n <= |frames|
    ensures var t := st.transport.value;
            DecryptFrames(s, st, frames, n) ==
            Decrypted(sent[t.readCounter..t.readCounter + n],
                      st.(transport := Some(t.(readCounter := t.readCounter + n))), None)
  {
    hide Iv, Bodies, Suite.Lawful;
    var t := st.transport.value;
    if n > 0 {
      DecryptBodies(s, st, sent, frames, n - 1);
      var i := t.readCounter + n - 1;
      BodyBack(s, t.decKey, sent, t.readCounter, n - 1);
      assert sent[t.readCounter..i] + [sent[i]] == sent[t.readCounter..i + 1];
    }
  }

  /** The frames at the front of the bytes in flight are the next bodies, and the rest are those after them. */
  lemma FlightSplit(s: Suite, key: Bytes, sent: seq<Bytes>, start: nat, front: Bytes, back: Bytes)
    requires InFlight(s, key, sent, start, front + back)
    ensures var (frames, rest) := SplitFrames(front, 0);
            && start + |frames| <= |sent| && frames == Bodies(s, key, sent, start)[..|frames|]
            && InFlight(s, key, sent, start + |frames|, rest + back)
            && !HasFrame(rest, 0)
  {
    hide SplitFrames, HasFrame, Stream;
    var bodies := Bodies(s, key, sent, start);
    SplitPrefix(front, back, bodies);
    BodiesDrop(s, key, sent, start, |SplitFrames(front, 0).0|);
  }

  /** Any chunk of the bytes in flight, of any size, keeps the two ends in step. */
  lemma DeliverInStep(s: Suite, l: Link, n: nat)
    requires s.Lawful() && InStep(s, l)
    ensures InStep(s, DeliverOn(s, l, n))
    ensures |l.got| <= |DeliverOn(s, l, n).got|
  {
    hide HasFrame, SplitFrames, InFlight, DecryptFrames, Bodies;
    var cut := if n < |l.wire| then n else |l.wire|;
    var chunk, back := l.wire[..cut], l.wire[cut..];
    var buffer := l.receiver.inBytes + chunk;
    assert buffer + back == l.receiver.inBytes + l.wire;
    FlightSplit(s, l.sender.transport.value.encKey, l.sent, |l.got|, buffer, back);
    var frames := SplitFrames(buffer, 0).0;
    DecryptBodies(s, l.receiver.(inBytes := buffer), l.sent, frames, |frames|);
    assert l.sent[..|l.got|] + l.sent[|l.got|..|l.got| + |frames|] == l.sent[..|l.got| + |frames|];
  }

  // ---- both directions ----------------------------------------------------------------

  datatype Network = Network(a: Session, b: Session, toB: Bytes, toA: Bytes,
                             sentByA: seq<Bytes>, gotByB: seq<Bytes>, sentByB: seq<Bytes>, gotByA: seq<Bytes>)
  {
    function AToBLink(): Link { Link(a, b, toB, sentByA, gotByB) }
    function BToALink(): Link { Link(b, a, toA, sentByB, gotByA) }
  }

  datatype Step = SendA(payload: Bytes) | SendB(payload: Bytes) | DeliverToA(n: nat) | DeliverToB(n: nat)

  function Next(s: Suite, w: Network, step: Step): Network {
    match step
    case SendA(payload) =>
      var l := SendOn(s, w.AToBLink(), payload);
      w.(a := l.sender, toB := l.wire, sentByA := l.sent)
    case SendB(payload) =>
      var l := SendOn(s, w.BToALink(), payload);
      w.(b := l.sender, toA := l.wire, sentByB := l.sent)
    case DeliverToB(n) =>
      var l := DeliverOn(s, w.AToBLink(), n);
      w.(b := l.receiver, toB := l.wire, gotByB := l.got)
    case DeliverToA(n) =>
      var l := DeliverOn(s, w.BToALink(), n);
      w.(a := l.receiver, toA := l.wire, gotByA := l.got)
  }

  function Run(s: Suite, w: Network, steps: seq<Step>): Network {
    if steps == [] then w else Next(s, Run(s, w, steps[..|steps| - 1]), steps[|steps| - 1])
  }

  ghost predicate BothInStep(s: Suite, w: Network) {
    InStep(s, w.AToBLink()) && InStep(s, w.BToALink())
  }

  /** How many of the steps are sends by the one party or the other. */
  function Sends(steps: seq<Step>, byA: bool): nat {
    if steps == [] then 0
    else
      var last := steps[|steps| - 1];
      Sends(steps[..|steps| - 1], byA) + if (if byA then last.SendA? else last.SendB?) then 1 else 0
  }

  /** After the steps `before`: a send whose frame fits, or for which the counter is used up. */
  predicate StepFits(w: Network, before: seq<Step>, step: Step) {
    match step
    case SendA(payload) => Fits(payload) || |w.sentByA| + Sends(before, true) >= COUNTER_LIMIT
    case SendB(payload) => Fits(payload) || |w.sentByB| + Sends(before, false) >= COUNTER_LIMIT
    case _ => true
  }

  /** Every send of the run fits, or comes when the counter of its party is used up. */
  predicate RunFits(w: Network, steps: seq<Step>) {
    steps == [] ||
    (var before, last := steps[..|steps| - 1], steps[|steps| - 1];
     RunFits(w, before) && StepFits(w, before, last))
  }

  /** Writing only moves the write side of a session. */
  lemma SendFrame(s: Suite, st: Session, payload: Bytes)
    requires st.transport.Some?
    ensures var after := EncodeFrame(s, st, payload).1;
            && after.transport.Some? && after.inBytes == st.inBytes
            && after.transport.value.decKey == st.transport.value.decKey
            && after.transport.value.readCounter == st.transport.value.readCounter
  {
  }

  /** Reading only moves the read side of a session. */
  lemma {:induction false} DecryptFrame(s: Suite, st: Session, frames: seq<Bytes>, n: nat)
    requires st.transport.Some? && n <= |frames|
    ensures var after := DecryptFrames(s, st, frames, n).session;
            && after.transport.Some? && after.sentIntro == st.sentIntro
            && after.transport.value.encKey == st.transport.value.encKey
            && after.transport.value.writeCounter == st.transport.value.writeCounter
  {
    hide Iv;
    if n > 0 {
      DecryptFrame(s, st, frames, n - 1);
    }
  }

  lemma ReceiveFrame(s: Suite, st: Session, data: Bytes)
    requires st.transport.Some?
    ensures var after := DecodeTransportFrames(s, st, data).1;
            && after.transport.Some? && after.sentIntro == st.sentIntro
            && after.transport.value.encKey == st.transport.value.encKey
            && after.transport.value.writeCounter == st.transport.value.writeCounter
  {
    var frames := SplitFrames(st.inBytes + data, 0).0;
    DecryptFrame(s, st.(inBytes := st.inBytes + data), frames, |frames|);
  }

  lemma StepInStep(s: Suite, w: Network, step: Step)
    requires s.Lawful() && BothInStep(s, w)
    requires step.SendA? ==> Fits(step.payload) || |w.sentByA| == COUNTER_LIMIT
    requires step.SendB? ==> Fits(step.payload) || |w.sentByB| == COUNTER_LIMIT
    ensures BothInStep(s, Next(s, w, step))
  {
    hide InFlight, HasFrame, EncodeFrame, DecodeTransportFrames, Fits;
    match step
    case SendA(payload) => SendInStep(s, w.AToBLink(), payload); SendFrame(s, w.a, payload);
    case SendB(payload) => SendInStep(s, w.BToALink(), payload); SendFrame(s, w.b, payload);
    case DeliverToB(n) =>
      DeliverInStep(s, w.AToBLink(), n);
      ReceiveFrame(s, w.b, w.toB[..if n < |w.toB| then n else |w.toB|]);
    case DeliverToA(n) =>
      DeliverInStep(s, w.BToALink(), n);
      ReceiveFrame(s, w.a, w.toA[..if n < |w.toA| then n else |w.toA|]);
  }

  /** What has been sent after a step that was allowed. */
  lemma StepCounts(s: Suite, w: Network, step: Step)
    requires s.Lawful() && BothInStep(s, w) && BothInStep(s, Next(s, w, step))
    ensures var r := Next(s, w, step);
            && |r.sentByA| == |w.sentByA| + (if step.SendA? && |w.sentByA| < COUNTER_LIMIT then 1 else 0)
            && |r.sentByB| == |w.sentByB| + (if step.SendB? && |w.sentByB| < COUNTER_LIMIT then 1 else 0)
  {
    hide InFlight, HasFrame, DecodeTransportFrames, Iv, Frame;
  }

  /** A party that has counted more frames than it has sent. */
  predicate Ahead(sender: Session, sent: seq<Bytes>) {
    sender.transport.Some? && sender.transport.value.writeCounter > |sent|
  }

  /** A frame that is too large puts its sender ahead. */
  lemma TooLarge(s: Suite, l: Link, payload: Bytes)
    requires s.Lawful() && InStep(s, l) && !Fits(payload) && |l.sent| < COUNTER_LIMIT
    ensures Ahead(SendOn(s, l, payload).sender, SendOn(s, l, payload).sent)
  {
    hide InFlight, HasFrame, Iv;
    var body := s.encrypt(payload, l.sender.transport.value.encKey, Iv(|l.sent|), []);
    assert |body| == |payload| + 16;
  }

  lemma SendAhead(s: Suite, l: Link, payload: Bytes)
    requires Ahead(l.sender, l.sent)
    ensures Ahead(SendOn(s, l, payload).sender, SendOn(s, l, payload).sent)
  {
    hide Iv, Frame;
  }

  /** A party that is ahead stays ahead, whatever is sent or delivered. */
  lemma AheadStays(s: Suite, w: Network, step: Step)
    ensures Ahead(w.a, w.sentByA) ==> Ahead(Next(s, w, step).a, Next(s, w, step).sentByA)
    ensures Ahead(w.b, w.sentByB) ==> Ahead(Next(s, w, step).b, Next(s, w, step).sentByB)
  {
    hide SendOn, DecodeTransportFrames;
    match step
    case SendA(payload) =>
      SendKeeps(s, w.AToBLink(), payload);
      if Ahead(w.a, w.sentByA) { SendAhead(s, w.AToBLink(), payload); }
    case SendB(payload) =>
      SendKeeps(s, w.BToALink(), payload);
      if Ahead(w.b, w.sentByB) { SendAhead(s, w.BToALink(), payload); }
    case DeliverToB(n) =>
      if w.b.transport.Some? { ReceiveFrame(s, w.b, w.toB[..if n < |w.toB| then n else |w.toB|]); }
    case DeliverToA(n) =>
      if w.a.transport.Some? { ReceiveFrame(s, w.a, w.toA[..if n < |w.toA| then n else |w.toA|]); }
  }

  lemma SendKeeps(s: Suite, l: Link, payload: Bytes)
    ensures var r := SendOn(s, l, payload); r.receiver == l.receiver && r.got == l.got
  {
    hide EncodeFrame;
  }

  /** Two ends in step, and how much was sent; or one party ahead for good. */
  lemma {:induction false} RunAccount(s: Suite, w: Network, steps: seq<Step>)
    requires s.Lawful() && BothInStep(s, w)
    ensures var r := Run(s, w, steps);
            if RunFits(w, steps) then
              && BothInStep(s, r)
              && |r.sentByA| == Least(COUNTER_LIMIT, |w.sentByA| + Sends(steps, true))
              && |r.sentByB| == Least(COUNTER_LIMIT, |w.sentByB| + Sends(steps, false))
            else Ahead(r.a, r.sentByA) || Ahead(r.b, r.sentByB)
  {
    hide InStep, Next, Ahead, Fits, Suite.Lawful;
    if steps == [] {
      SentWithin(s, w);
    } else {
      var before, last := steps[..|steps| - 1], steps[|steps| - 1];
      var middle := Run(s, w, before);
      RunAccount(s, w, before);
      AheadStays(s, middle, last);
      if RunFits(w, before) {
        SentWithin(s, middle);
        if StepFits(w, before, last) {
          StepInStep(s, middle, last);
          StepCounts(s, middle, last);
        } else {
          OneTooLarge(s, middle, last);
        }
      }
    }
  }

  lemma OneTooLarge(s: Suite, w: Network, step: Step)
    requires s.Lawful() && BothInStep(s, w)
    requires (step.SendA? && !Fits(step.payload) && |w.sentByA| < COUNTER_LIMIT)
      || (step.SendB? && !Fits(step.payload) && |w.sentByB| < COUNTER_LIMIT)
    ensures var r := Next(s, w, step); Ahead(r.a, r.sentByA) || Ahead(r.b, r.sentByB)
  {
    hide InStep, Ahead, Fits, SendOn;
    match step
    case SendA(payload) => TooLarge(s, w.AToBLink(), payload);
    case SendB(payload) => TooLarge(s, w.BToALink(), payload);
  }

  function Least(a: nat, b: nat): nat {
    if a <= b then a else b
  }

  lemma SentWithin(s: Suite, w: Network)
    requires BothInStep(s, w)
    ensures |w.sentByA| <= COUNTER_LIMIT && |w.sentByB| <= COUNTER_LIMIT
    ensures !Ahead(w.a, w.sentByA) && !Ahead(w.b, w.sentByB)
  {
    hide InFlight, HasFrame;
  }

  /** For every interleaving of sends in both directions and every way of cutting the two byte streams
      into chunks: the two ends are in step exactly when every send fitted, or came when the counter of
      its party was used up. Then what was handed out is a prefix of what was sent, the read counters
      count it, and no buffer holds a complete frame. */
  lemma RunInStep(s: Suite, w: Network, steps: seq<Step>)
    requires s.Lawful() && BothInStep(s, w)
    ensures BothInStep(s, Run(s, w, steps)) <==> RunFits(w, steps)
    ensures RunFits(w, steps) ==>
              var r := Run(s, w, steps);
              && r.gotByB <= r.sentByA && r.gotByA <= r.sentByB
              && r.b.transport.value.readCounter == |r.gotByB| && r.a.transport.value.readCounter == |r.gotByA|
              && !HasFrame(r.b.inBytes, 0) && !HasFrame(r.a.inBytes, 0)
  {
    hide InFlight, HasFrame, Run, RunFits, Ahead, Suite.Lawful;
    RunAccount(s, w, steps);
    if BothInStep(s, Run(s, w, steps)) {
      SentWithin(s, Run(s, w, steps));
    }
  }

  /** Ends that are out of step never come back into step, whatever is sent or delivered. */
  lemma OutOfStepForGood(s: Suite, w: Network, steps: seq<Step>, more: seq<Step>)
    requires s.Lawful() && BothInStep(s, w) && !BothInStep(s, Run(s, w, steps))
    ensures !BothInStep(s, Run(s, w, steps + more))
  {
    hide InStep, Run, Suite.Lawful, StepFits;
    RunInStep(s, w, steps);
    RunInStep(s, w, steps + more);
    if RunFits(w, steps + more) {
      FitsFront(w, steps, more);
    }
  }

  lemma {:induction false} FitsFront(w: Network, steps: seq<Step>, more: seq<Step>)
    requires RunFits(w, steps + more)
    ensures RunFits(w, steps)
  {
    hide StepFits;
    if more == [] {
      assert steps + more == steps;
    } else {
      assert (steps + more)[..|steps + more| - 1] == steps + more[..|more| - 1];
      FitsFront(w, steps, more[..|more| - 1]);
    }
  }

  /** Once every byte has arrived, everything sent has been handed out. */
  lemma AllArrived(s: Suite, l: Link)
    requires InStep(s, l) && l.wire == []
    ensures l.got == l.sent && l.receiver.inBytes == []
  {
    var bodies := Bodies(s, l.sender.transport.value.encKey, l.sent, |l.got|);
    assert l.receiver.inBytes + [] == l.receiver.inBytes;
    if bodies != [] {
      FrontFrame(l.receiver.inBytes, [], bodies[0], Stream(bodies[1..]));
    }
    assert l.sent[..|l.sent|] == l.sent;
  }

  /** A session as it stands after `finish_init`, the other party's with the two keys swapped. */
  ghost predicate Finished(s: Suite, h: Handshake, st: Session, swapped: bool) {
    var (write, read) := s.hkdf([], h.salt);
    && st.transport == Some(if swapped then Transport(read, write, 0, 0) else Transport(write, read, 0, 0))
    && st.sentIntro && st.inBytes == []
  }

  /** Parties in agreement begin the transport phase in step. */
  lemma TransportStarts(s: Suite, p: Parties, a: Session, b: Session)
    requires InAgreement(p) && Finished(s, p.a, a, false) && Finished(s, p.b, b, true)
    ensures BothInStep(s, Network(a, b, [], [], [], [], [], []))
  {
    assert Bodies(s, a.transport.value.encKey, [], 0) == [] && Bodies(s, b.transport.value.encKey, [], 0) == [];
  }

  /** A whole session: any handshake steps from agreeing states, then any sends and deliveries.
      What each party was handed is what the other sent, once nothing is on its way any more. */
  lemma WholeSession(s: Suite, p: Parties, steps: seq<HandshakeStep>, a: Session, b: Session, run: seq<Step>)
    requires s.Lawful() && InAgreement(p)
    requires Finished(s, HandshakeRun(s, p, steps).a, a, false) && Finished(s, HandshakeRun(s, p, steps).b, b, true)
    requires RunFits(Network(a, b, [], [], [], [], [], []), run)
    ensures var r := Run(s, Network(a, b, [], [], [], [], [], []), run);
            && r.gotByB <= r.sentByA && r.gotByA <= r.sentByB
            && (r.toB == [] ==> r.gotByB == r.sentByA) && (r.toA == [] ==> r.gotByA == r.sentByB)
  {
    hide HandshakeRun, Run, RunFits, InStep, InFlight, Finished, Suite.Lawful;
    var w := Network(a, b, [], [], [], [], [], []);
    HandshakeAgreement(s, p, steps);
    TransportStarts(s, HandshakeRun(s, p, steps), a, b);
    RunInStep(s, w, run);
    var r := Run(s, w, run);
    if r.toB == [] { AllArrived(s, r.AToBLink()); }
    if r.toA == [] { AllArrived(s, r.BToALink()); }
  }
}
