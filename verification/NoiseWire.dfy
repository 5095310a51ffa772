/** What a session puts on the wire: the vector of every encryption, the frames of a run, the intro, and the
    hash and the keys that a handshake arrives at. */
module NoiseWire {
  import opened Common
  import opened Noise
  import opened NoiseProtocol

  // ---- vectors ------------------------------------------------------------------------

  /** Eight zeros, and the number in four bytes, the high one first. */
  predicate Nonce(v: Bytes, n: nat) {
    |v| == 12 && (forall i :: 0 <= i < 8 ==> v[i] == 0) && FromBig(v[8..]) == n
  }

  /** The ciphertext is that of the plaintext under the vector `v`, which has the number `n`. */
  predicate With(s: Suite, key: Bytes, v: Bytes, n: nat, data: Bytes, plaintext: Bytes, ciphertext: Bytes) {
    Nonce(v, n) && ciphertext == s.encrypt(plaintext, key, v, data)
  }

  ghost predicate Under(s: Suite, key: Bytes, n: nat, data: Bytes, plaintext: Bytes, ciphertext: Bytes) {
    exists v :: With(s, key, v, n, data, plaintext, ciphertext)
  }

  lemma IvIsNonce(n: nat)
    requires n < COUNTER_LIMIT
    ensures Nonce(Iv(n), n)
  {
    var n1 := n / 0x100;
    var n2 := n1 / 0x100;
    var n3 := n2 / 0x100;
    assert Big(n3, 1) == Big(0, 0) + [n3];
    assert Big(n2, 2) == Big(n3, 1) + [n2 % 0x100];
    assert Big(n1, 3) == Big(n2, 2) + [n1 % 0x100];
    assert Iv(n)[8..] == Big(n, 4) == [n3, n2 % 0x100, n1 % 0x100, n % 0x100];
  }

  /** Two vectors are the same exactly when their numbers are. */
  lemma NoncesDiffer(v: Bytes, w: Bytes, m: nat, n: nat)
    requires Nonce(v, m) && Nonce(w, n)
    ensures v == w <==> m == n
  {
    if m == n {
      FromBigTells(v[8..], w[8..]);
      assert v == v[..8] + v[8..] && w == w[..8] + w[8..];
    }
  }

  lemma FromBigTells(a: Bytes, b: Bytes)
    requires |a| == |b| == 4 && FromBig(a) == FromBig(b)
    ensures a == b
  {
    LastByte(a);
    LastByte(b);
    hide FromBig;
    var x, y := (a[0] as int * 0x100 + a[1]) * 0x100 + a[2], (b[0] as int * 0x100 + b[1]) * 0x100 + b[2];
    assert x == y && a[3] == b[3];
    assert a[2] == x % 0x100 && b[2] == y % 0x100;
    assert a[0] as int * 0x100 + a[1] == b[0] as int * 0x100 + b[1];
  }

  lemma LastByte(b: Bytes)
    requires |b| == 4
    ensures FromBig(b) / 0x100 == (b[0] as int * 0x100 + b[1]) * 0x100 + b[2]
    ensures FromBig(b) % 0x100 == b[3]
  {
  }

  // ---- the handshake ------------------------------------------------------------------

  /** What one party of a handshake does. */
  datatype Act = Authenticated(data: Bytes) | Mixed(data: Bytes) | Sealed(plaintext: Bytes) | Opened(ciphertext: Bytes)

  /** An exception leaves everything as it was. */
  function ActOn(s: Suite, h: Handshake, act: Act): Handshake {
    match act
    case Authenticated(data) => Authenticate(s, h, data)
    case Mixed(data) => MixIntoKey(s, h, data)
    case Sealed(plaintext) =>
      (match HandshakeEncrypt(s, h, plaintext) case Ok((_, after)) => after case Err(_) => h)
    case Opened(ciphertext) =>
      (match HandshakeDecrypt(s, h, ciphertext) case Ok((_, after)) => after case Err(_) => h)
  }

  function Acted(s: Suite, h: Handshake, acts: seq<Act>): Handshake {
    if acts == [] then h else ActOn(s, Acted(s, h, acts[..|acts| - 1]), acts[|acts| - 1])
  }

  /** A ciphertext that the act made or accepted. */
  function Passed(s: Suite, h: Handshake, act: Act): seq<Bytes> {
    match act
    case Sealed(plaintext) =>
      (match HandshakeEncrypt(s, h, plaintext) case Ok((ciphertext, _)) => [ciphertext] case Err(_) => [])
    case Opened(ciphertext) => if HandshakeDecrypt(s, h, ciphertext).Ok? then [ciphertext] else []
    case _ => []
  }

  /** Everything that was authenticated, and every ciphertext in either direction, in order. */
  function Transcript(s: Suite, h: Handshake, acts: seq<Act>): seq<Bytes> {
    if acts == [] then []
    else
      var before, last := acts[..|acts| - 1], acts[|acts| - 1];
      Transcript(s, h, before)
      + if last.Authenticated? then [last.data] else Passed(s, Acted(s, h, before), last)
  }

  /** The hash over a list: each item is hashed after the hash so far. */
  function Chain(s: Suite, start: Bytes, items: seq<Bytes>): Bytes {
    if items == [] then start else s.sha256(Chain(s, start, items[..|items| - 1]) + items[|items| - 1])
  }

  /** The salt and the key that mixing in a list of secrets leads to. */
  function Schedule(s: Suite, start: (Bytes, Bytes), secrets: seq<Bytes>): (Bytes, Bytes) {
    if secrets == [] then start
    else s.hkdf(secrets[|secrets| - 1], Schedule(s, start, secrets[..|secrets| - 1]).0)
  }

  function Secrets(acts: seq<Act>): seq<Bytes> {
    if acts == [] then []
    else
      var last := acts[|acts| - 1];
      Secrets(acts[..|acts| - 1]) + (if last.Mixed? then [last.data] else [])
  }

  /** How many ciphertexts there were since the last secret, on top of the counter if there was none. */
  function Count(s: Suite, h: Handshake, acts: seq<Act>): nat {
    if acts == [] then h.counter
    else
      var before, last := acts[..|acts| - 1], acts[|acts| - 1];
      if last.Mixed? then 0 else Count(s, h, before) + |Passed(s, Acted(s, h, before), last)|
  }

  /** Whatever a party does in a handshake: its hash is the chain over the transcript, its salt and its one key
      are those of the schedule, and its counter counts the ciphertexts since the last secret. */
  lemma {:induction false} HandshakeRecord(s: Suite, h: Handshake, acts: seq<Act>)
    requires h.encKey == h.decKey
    ensures
      var now := Acted(s, h, acts);
      && now.hash == Chain(s, h.hash, Transcript(s, h, acts))
      && (now.salt, now.encKey) == Schedule(s, (h.salt, h.encKey), Secrets(acts))
      && now.encKey == now.decKey
      && now.counter == Count(s, h, acts)
  {
    hide ActOn, Passed;
    if acts != [] {
      var before, last := acts[..|acts| - 1], acts[|acts| - 1];
      var now := Acted(s, h, before);
      HandshakeRecord(s, h, before);
      OneAct(s, now, last);
      if last.Authenticated? {
        ChainMore(s, h.hash, Transcript(s, h, before), last.data);
      } else if Passed(s, now, last) == [] {
        assert Transcript(s, h, acts) == Transcript(s, h, before);
      } else {
        ChainMore(s, h.hash, Transcript(s, h, before), Passed(s, now, last)[0]);
        assert Passed(s, now, last) == [Passed(s, now, last)[0]];
      }
      if last.Mixed? {
        assert Secrets(acts)[..|Secrets(before)|] == Secrets(before);
      } else {
        assert Secrets(acts) == Secrets(before);
      }
    }
  }

  lemma OneAct(s: Suite, h: Handshake, act: Act)
    ensures
      var now, passed := ActOn(s, h, act), Passed(s, h, act);
      && |passed| <= (if act.Sealed? || act.Opened? then 1 else 0)
      && now.hash == (if act.Authenticated? then s.sha256(h.hash + act.data)
                      else if passed == [] then h.hash else s.sha256(h.hash + passed[0]))
      && (if act.Mixed? then (now.salt, now.encKey) == s.hkdf(act.data, h.salt) && now.decKey == now.encKey
          else now.salt == h.salt && now.encKey == h.encKey && now.decKey == h.decKey)
      && now.counter == if act.Mixed? then 0 else h.counter + |passed|
  {
    hide Iv;
  }

  lemma ChainMore(s: Suite, start: Bytes, items: seq<Bytes>, item: Bytes)
    ensures Chain(s, start, items + [item]) == s.sha256(Chain(s, start, items) + item)
  {
    assert (items + [item])[..|items|] == items;
  }

  /** The next ciphertext is under the key of the schedule, the vector with the number of ciphertexts since
      the last secret, and the hash over the transcript; it is refused only when the counter is used up. */
  lemma SealedUnder(s: Suite, h: Handshake, acts: seq<Act>, plaintext: Bytes)
    requires h.encKey == h.decKey
    ensures
      var r, n := HandshakeEncrypt(s, Acted(s, h, acts), plaintext), Count(s, h, acts);
      var key := Schedule(s, (h.salt, h.encKey), Secrets(acts)).1;
      && (r.Ok? <==> n < COUNTER_LIMIT)
      && (r.Ok? ==> Under(s, key, n, Chain(s, h.hash, Transcript(s, h, acts)), plaintext, r.value.0))
  {
    hide Iv, Chain, Transcript, Schedule;
    HandshakeRecord(s, h, acts);
    var n := Count(s, h, acts);
    if n < COUNTER_LIMIT {
      IvIsNonce(n);
      var now := Acted(s, h, acts);
      assert With(s, now.encKey, Iv(n), n, now.hash, plaintext, HandshakeEncrypt(s, now, plaintext).value.0);
    }
  }

  /** A ciphertext is opened under the same three, and refused when the tag is wrong under them. */
  lemma OpenedUnder(s: Suite, h: Handshake, acts: seq<Act>, ciphertext: Bytes)
    requires h.encKey == h.decKey
    ensures
      var r, n := HandshakeDecrypt(s, Acted(s, h, acts), ciphertext), Count(s, h, acts);
      var key := Schedule(s, (h.salt, h.encKey), Secrets(acts)).1;
      if n >= COUNTER_LIMIT then r == Err(CounterOverflow)
      else exists v ::
        && Nonce(v, n)
        && match s.decrypt(ciphertext, key, v, Chain(s, h.hash, Transcript(s, h, acts)))
           case None => r == Err(BadTag)
           case Some(plaintext) => r.Ok? && r.value.0 == plaintext
  {
    hide Iv, Chain, Transcript, Schedule;
    HandshakeRecord(s, h, acts);
    var n := Count(s, h, acts);
    if n < COUNTER_LIMIT {
      IvIsNonce(n);
    }
  }

  /** From the opening state on: the transcript of a session begins with the protocol name, hashed unless it has
      32 bytes, the header `WA` 6 3 and the ephemeral key, and its first salt and key are the name's. */
  lemma WholeRecord(s: Suite, name: Bytes, intro: Bytes, ephemeral: Bytes, acts: seq<Act>)
    ensures
      var start := if |name| == 32 then name else s.sha256(name);
      var st := Opening(s, name, intro, ephemeral);
      var now := Acted(s, st.handshake, acts);
      && st == Session(st.handshake, None, intro, false, [])
      && now.hash == Chain(s, start, [[87, 65, 6, 3], ephemeral] + Transcript(s, st.handshake, acts))
      && (now.salt, now.encKey) == Schedule(s, (start, start), Secrets(acts))
      && now.decKey == now.encKey
      && st.handshake.counter == 0
  {
    hide Transcript, Schedule, Acted;
    var start := if |name| == 32 then name else s.sha256(name);
    var h := Opening(s, name, intro, ephemeral).handshake;
    HandshakeRecord(s, h, acts);
    ChainMore(s, start, [], [87, 65, 6, 3]);
    ChainMore(s, start, [[87, 65, 6, 3]], ephemeral);
    assert [] + [[87, 65, 6, 3]] == [[87, 65, 6, 3]];
    assert [[87, 65, 6, 3]] + [ephemeral] == [[87, 65, 6, 3], ephemeral];
    ChainJoin(s, start, [[87, 65, 6, 3], ephemeral], Transcript(s, h, acts));
  }

  lemma {:induction false} ChainJoin(s: Suite, start: Bytes, a: seq<Bytes>, b: seq<Bytes>)
    ensures Chain(s, start, a + b) == Chain(s, Chain(s, start, a), b)
  {
    if b == [] {
      assert a + b == a;
    } else {
      assert (a + b)[..|a + b| - 1] == a + b[..|b| - 1];
      ChainJoin(s, start, a, b[..|b| - 1]);
    }
  }

  // ---- frames -------------------------------------------------------------------------

  /** The bytes that a list of payloads is written as, and the session after them; one that raises is left out. */
  function Written(s: Suite, st: Session, payloads: seq<Bytes>): (Bytes, Session) {
    if payloads == [] then ([], st)
    else
      var (bytes, now) := Written(s, st, payloads[..|payloads| - 1]);
      var (frame, after) := EncodeFrame(s, now, payloads[|payloads| - 1]);
      (if frame.Ok? then bytes + frame.value else bytes, after)
  }

  function Framed(payloads: seq<Bytes>): (r: seq<Bytes>)
    ensures forall i :: 0 <= i < |r| ==> |r[i]| < FRAME_LIMIT
  {
    if payloads == [] then []
    else
      var last := payloads[|payloads| - 1];
      Framed(payloads[..|payloads| - 1]) + if |last| < FRAME_LIMIT then [last] else []
  }

  /** Before there is a transport the payloads are framed as they are; the intro comes once, before the very first
      of them. If that one is too large, it never comes. */
  lemma {:induction false} IntroOnce(s: Suite, st: Session, payloads: seq<Bytes>)
    requires st.transport.None?
    ensures
      var intro := if st.sentIntro || payloads == [] || |payloads[0]| >= FRAME_LIMIT then [] else st.introHeader;
      Written(s, st, payloads) ==
      (intro + Stream(Framed(payloads)), if payloads == [] then st else st.(sentIntro := true))
  {
    hide Frame, Stream;
    NoBodies();
    if payloads == [] {
      assert [] + Stream(Framed(payloads)) == [];
    } else {
      var before, last := payloads[..|payloads| - 1], payloads[|payloads| - 1];
      IntroOnce(s, st, before);
      assert before != [] ==> before[0] == payloads[0];
      var intro := if st.sentIntro then [] else st.introHeader;
      if |last| < FRAME_LIMIT {
        StreamMore(Framed(before), last);
        JoinIntro(intro, Stream(Framed(before)), Frame(last));
        assert Written(s, st, payloads).0
            == Written(s, st, before).0 + ((if before == [] then intro else []) + Frame(last));
      } else {
        assert Framed(payloads) == Framed(before);
        assert before == [] ==> [] + Stream(Framed(payloads)) == [];
      }
    }
  }

  lemma JoinIntro(intro: Bytes, stream: Bytes, frame: Bytes)
    ensures [] + (intro + frame) == intro + ([] + frame)
    ensures (intro + stream) + ([] + frame) == intro + (stream + frame)
    ensures ([] + stream) + ([] + frame) == [] + (stream + frame)
  {
  }

  lemma NoBodies()
    ensures Stream([]) == [] && Framed([]) == []
  {
  }

  /** The bytes that one party puts on its wire in a run. */
  function Emitted(s: Suite, w: Network, steps: seq<Step>, byA: bool): Bytes {
    if steps == [] then []
    else
      var before, last := steps[..|steps| - 1], steps[|steps| - 1];
      var now := Run(s, w, before);
      Emitted(s, w, before, byA)
      + (if byA && last.SendA? then FrameOf(s, now.a, last.payload)
         else if !byA && last.SendB? then FrameOf(s, now.b, last.payload)
         else [])
  }

  function FrameOf(s: Suite, st: Session, payload: Bytes): Bytes {
    match EncodeFrame(s, st, payload).0
    case Ok(frame) => frame
    case Err(_) => []
  }

  /** The `k`-th frame is under the vector with the number `from + k`, for every `k`. */
  ghost predicate Numbered(s: Suite, key: Bytes, frames: seq<Bytes>, payloads: seq<Bytes>, from: nat) {
    |frames| == |payloads| &&
    forall k :: 0 <= k < |frames| ==> Under(s, key, from + k, [], payloads[k], frames[k])
  }

  /** A stream of frames splits into the frames it was made of. */
  lemma SplitStream(bodies: seq<Bytes>)
    requires forall i :: 0 <= i < |bodies| ==> |bodies[i]| < FRAME_LIMIT
    ensures SplitFrames(Stream(bodies), 0) == (bodies, [])
  {
    hide SplitFrames, HasFrame, Frame;
    var all := Stream(bodies);
    assert all + [] == all;
    SplitPrefix(all, [], bodies);
    var (frames, rest) := SplitFrames(all, 0);
    var others := bodies[|frames|..];
    assert rest + [] == rest;
    if others != [] {
      FrontFrame(rest, [], others[0], Stream(others[1..]));
    }
    assert bodies[..|bodies|] == bodies;
  }

  function Party(w: Network, byA: bool): Session {
    if byA then w.a else w.b
  }

  function SentOf(w: Network, byA: bool): seq<Bytes> {
    if byA then w.sentByA else w.sentByB
  }

  /** Everything sent is below the length that a frame can have. */
  ghost predicate Streamed(s: Suite, key: Bytes, sent: seq<Bytes>, start: nat, bytes: Bytes) {
    && start <= |sent|
    && (forall i :: 0 <= i < |Bodies(s, key, sent, start)| ==> |Bodies(s, key, sent, start)[i]| < FRAME_LIMIT)
    && bytes == Stream(Bodies(s, key, sent, start))
  }

  /** One send that fits, or comes when the counter is used up. */
  lemma OneSend(s: Suite, l: Link, payload: Bytes, start: nat, bytes: Bytes)
    requires s.Lawful() && InStep(s, l) && (Fits(payload) || |l.sent| == COUNTER_LIMIT)
    requires Streamed(s, l.sender.transport.value.encKey, l.sent, start, bytes)
    ensures
      var after := SendOn(s, l, payload);
      && after.sender.transport.Some?
      && after.sender.transport.value.encKey == l.sender.transport.value.encKey
      && l.sent <= after.sent
      && Streamed(s, l.sender.transport.value.encKey, after.sent, start, bytes + FrameOf(s, l.sender, payload))
  {
    hide InFlight, HasFrame, Iv, Frame;
    var key := l.sender.transport.value.encKey;
    if |l.sent| < COUNTER_LIMIT {
      FlightMore(s, key, l.sent, start, bytes, payload);
      var body := s.encrypt(payload, key, Iv(|l.sent|), []);
      assert |body| == |payload| + 16;
      assert [] + Frame(body) == Frame(body);
    } else {
      assert bytes + [] == bytes;
    }
  }

  lemma {:induction false} RunEmits(s: Suite, w: Network, steps: seq<Step>, byA: bool)
    requires s.Lawful() && BothInStep(s, w) && RunFits(w, steps)
    ensures
      var now := Run(s, w, steps);
      && BothInStep(s, now)
      && Party(now, byA).transport.value.encKey == Party(w, byA).transport.value.encKey
      && SentOf(w, byA) <= SentOf(now, byA)
      && Streamed(s, Party(w, byA).transport.value.encKey, SentOf(now, byA), |SentOf(w, byA)|,
                  Emitted(s, w, steps, byA))
  {
    assert Party(w, byA).transport.Some?;
    hide InStep, Next, StepFits, Suite.Lawful, Streamed, FrameOf;
    if steps == [] {
      NothingStreamed(s, Party(w, byA).transport.value.encKey, SentOf(w, byA));
    } else {
      var before, last := steps[..|steps| - 1], steps[|steps| - 1];
      var middle := Run(s, w, before);
      RunEmits(s, w, before, byA);
      LastFits(s, w, before, last);
      StepInStep(s, middle, last);
      StepEmits(s, middle, last, byA, |SentOf(w, byA)|, Emitted(s, w, before, byA));
    }
  }

  lemma LastFits(s: Suite, w: Network, before: seq<Step>, last: Step)
    requires s.Lawful() && BothInStep(s, w) && RunFits(w, before) && StepFits(w, before, last)
    ensures
      var middle := Run(s, w, before);
      && (last.SendA? ==> Fits(last.payload) || |middle.sentByA| == COUNTER_LIMIT)
      && (last.SendB? ==> Fits(last.payload) || |middle.sentByB| == COUNTER_LIMIT)
  {
    hide InStep, Next, Fits, Suite.Lawful, RunFits, Run;
    RunAccount(s, w, before);
  }

  lemma StepEmits(s: Suite, w: Network, step: Step, byA: bool, start: nat, bytes: Bytes)
    requires s.Lawful() && BothInStep(s, w)
    requires step.SendA? ==> Fits(step.payload) || |w.sentByA| == COUNTER_LIMIT
    requires step.SendB? ==> Fits(step.payload) || |w.sentByB| == COUNTER_LIMIT
    requires Streamed(s, Party(w, byA).transport.value.encKey, SentOf(w, byA), start, bytes)
    ensures
      var now := Next(s, w, step);
      var more := if byA && step.SendA? then FrameOf(s, w.a, step.payload)
                  else if !byA && step.SendB? then FrameOf(s, w.b, step.payload)
                  else [];
      && Party(now, byA).transport.Some?
      && Party(now, byA).transport.value.encKey == Party(w, byA).transport.value.encKey
      && SentOf(w, byA) <= SentOf(now, byA)
      && Streamed(s, Party(w, byA).transport.value.encKey, SentOf(now, byA), start, bytes + more)
  {
    hide Streamed, FrameOf, DecodeTransportFrames, InFlight, HasFrame, EncodeFrame, Fits;
    assert bytes + [] == bytes;
    match step
    case SendA(payload) =>
      SendKeeps(s, w.AToBLink(), payload);
      if byA { OneSend(s, w.AToBLink(), payload, start, bytes); }
    case SendB(payload) =>
      SendKeeps(s, w.BToALink(), payload);
      if !byA { OneSend(s, w.BToALink(), payload, start, bytes); }
    case DeliverToB(n) => ReceiveFrame(s, w.b, w.toB[..if n < |w.toB| then n else |w.toB|]);
    case DeliverToA(n) => ReceiveFrame(s, w.a, w.toA[..if n < |w.toA| then n else |w.toA|]);
  }

  lemma NothingStreamed(s: Suite, key: Bytes, sent: seq<Bytes>)
    ensures Streamed(s, key, sent, |sent|, [])
  {
    assert Bodies(s, key, sent, |sent|) == [];
  }

  /** Over any interleaving of sends and deliveries in which every send fits, what a party puts on its wire is
      one frame for each payload, and the k-th one it has ever sent is under the vector with the number k. */
  lemma FramesNumbered(s: Suite, w: Network, steps: seq<Step>, byA: bool)
    requires s.Lawful() && BothInStep(s, w) && RunFits(w, steps)
    ensures
      var before, sent := SentOf(w, byA), SentOf(Run(s, w, steps), byA);
      var (frames, rest) := SplitFrames(Emitted(s, w, steps, byA), 0);
      && before <= sent && rest == []
      && Numbered(s, Party(w, byA).transport.value.encKey, frames, sent[|before|..], |before|)
  {
    assert Party(w, byA).transport.Some?;
    hide Run, RunFits, Emitted, Stream, SplitFrames, Bodies, Numbered, InStep;
    var key, before, sent := Party(w, byA).transport.value.encKey, SentOf(w, byA), SentOf(Run(s, w, steps), byA);
    RunEmits(s, w, steps, byA);
    SentWithin(s, Run(s, w, steps));
    SplitStream(Bodies(s, key, sent, |before|));
    BodiesNumbered(s, key, sent, |before|);
  }

  lemma BodiesNumbered(s: Suite, key: Bytes, sent: seq<Bytes>, start: nat)
    requires start <= |sent| <= COUNTER_LIMIT
    ensures Numbered(s, key, Bodies(s, key, sent, start), sent[start..], start)
  {
    hide Iv, Nonce;
    var frames := Bodies(s, key, sent, start);
    forall k | 0 <= k < |frames|
      ensures Under(s, key, start + k, [], sent[start..][k], frames[k])
    {
      IvIsNonce(start + k);
      assert With(s, key, Iv(start + k), start + k, [], sent[start..][k], frames[k]);
    }
  }

  /** So no two frames of one direction share a vector. */
  lemma NoVectorTwice(s: Suite, key: Bytes, frames: seq<Bytes>, payloads: seq<Bytes>, from: nat, j: nat, k: nat)
    requires Numbered(s, key, frames, payloads, from) && j < k < |frames|
    ensures
      var m, n := from + j, from + k;
      exists v, w :: v != w && With(s, key, v, m, [], payloads[j], frames[j])
                            && With(s, key, w, n, [], payloads[k], frames[k])
  {
    assert Under(s, key, from + j, [], payloads[j], frames[j]) && Under(s, key, from + k, [], payloads[k], frames[k]);
    var v :| With(s, key, v, from + j, [], payloads[j], frames[j]);
    var w :| With(s, key, w, from + k, [], payloads[k], frames[k]);
    NoncesDiffer(v, w, from + j, from + k);
  }

  // ---- the session's own cipher -------------------------------------------------------

  /** With a transport the session encrypts under its write key and write counter and moves that counter only;
      before that it is the handshake that encrypts, and nothing else of the session changes. */
  lemma SessionEncrypts(s: Suite, st: Session, plaintext: Bytes)
    ensures
      var r := Encrypt(s, st, plaintext);
      if st.transport.Some? then
        var t := st.transport.value;
        if t.writeCounter >= 0x1_0000_0000 then r == Err(CounterOverflow)
        else r.Ok? && Under(s, t.encKey, t.writeCounter, [], plaintext, r.value.0)
             && r.value.1 == st.(transport := Some(t.(writeCounter := t.writeCounter + 1)))
      else match HandshakeEncrypt(s, st.handshake, plaintext)
        case Err(e) => r == Err(e)
        case Ok((ciphertext, after)) => r == Ok((ciphertext, st.(handshake := after)))
  {
    hide HandshakeEncrypt, Iv;
    if st.transport.Some? && st.transport.value.writeCounter < COUNTER_LIMIT {
      var t := st.transport.value;
      IvIsNonce(t.writeCounter);
      assert With(s, t.encKey, Iv(t.writeCounter), t.writeCounter, [], plaintext, Encrypt(s, st, plaintext).value.0);
    }
  }

  /** What a frame decrypts to under the read key and the vector with a number. */
  function Reads(s: Suite, key: Bytes, n: nat, frame: Bytes): Option<Bytes> {
    s.decrypt(frame, key, [0, 0, 0, 0, 0, 0, 0, 0] + Big(n, 4), [])
  }

  /** The same for decryption; nothing changes when the tag is wrong or the counter is used up. */
  lemma SessionDecrypts(s: Suite, st: Session, ciphertext: Bytes)
    ensures
      var r := Decrypt(s, st, ciphertext);
      if st.transport.Some? then
        var t := st.transport.value;
        if t.readCounter >= 0x1_0000_0000 then r == Err(CounterOverflow)
        else match Reads(s, t.decKey, t.readCounter, ciphertext)
          case None => r == Err(BadTag)
          case Some(plaintext) =>
            r == Ok((plaintext, st.(transport := Some(t.(readCounter := t.readCounter + 1)))))
      else match HandshakeDecrypt(s, st.handshake, ciphertext)
        case Err(e) => r == Err(e)
        case Ok((plaintext, after)) => r == Ok((plaintext, st.(handshake := after)))
  {
    hide HandshakeDecrypt, Big;
  }

  /** The first of the frames that cannot be read when they are numbered from `n` on, or how many there are. */
  function FirstBad(s: Suite, key: Bytes, n: nat, frames: seq<Bytes>): (k: nat)
    ensures k <= |frames|
    decreases |frames|
  {
    if frames == [] || n >= 0x1_0000_0000 || Reads(s, key, n, frames[0]).None? then 0
    else 1 + FirstBad(s, key, n + 1, frames[1..])
  }

  function Plaintexts(s: Suite, key: Bytes, n: nat, frames: seq<Bytes>, k: nat): seq<Bytes>
    requires k <= FirstBad(s, key, n, frames)
    decreases k
  {
    if k == 0 then [] else [Reads(s, key, n, frames[0]).value] + Plaintexts(s, key, n + 1, frames[1..], k - 1)
  }

  /** The `i`-th frame before the first bad one is read under the vector `i` further on. */
  lemma {:induction false} ReadAt(s: Suite, key: Bytes, n: nat, frames: seq<Bytes>, i: nat)
    requires i < |frames| && i <= FirstBad(s, key, n, frames)
    ensures i < FirstBad(s, key, n, frames) <==> n + i < 0x1_0000_0000 && Reads(s, key, n + i, frames[i]).Some?
    ensures i < FirstBad(s, key, n, frames) ==>
      Plaintexts(s, key, n, frames, i) + [Reads(s, key, n + i, frames[i]).value] == Plaintexts(s, key, n, frames, i + 1)
    decreases i
  {
    hide Reads;
    if i > 0 {
      ReadAt(s, key, n + 1, frames[1..], i - 1);
    }
  }

  lemma {:induction false} FramesRead(s: Suite, st: Session, frames: seq<Bytes>, n: nat)
    requires st.transport.Some? && n <= |frames|
    ensures
      var t := st.transport.value;
      var k := FirstBad(s, t.decKey, t.readCounter, frames);
      var m := if n <= k then n else k;
      DecryptFrames(s, st, frames, n) ==
      Decrypted(Plaintexts(s, t.decKey, t.readCounter, frames, m),
                st.(transport := Some(t.(readCounter := t.readCounter + m))),
                if n <= k then None else if t.readCounter + k >= 0x1_0000_0000 then Some(CounterOverflow)
                else Some(BadTag))
  {
    hide Decrypt, Plaintexts, FirstBad, Reads;
    var t := st.transport.value;
    var k := FirstBad(s, t.decKey, t.readCounter, frames);
    if n == 0 {
      NothingRead(s, t.decKey, t.readCounter, frames);
    } else {
      FramesRead(s, st, frames, n - 1);
      if n - 1 <= k {
        var now := st.(transport := Some(t.(readCounter := t.readCounter + (n - 1))));
        SessionDecrypts(s, now, frames[n - 1]);
        ReadAt(s, t.decKey, t.readCounter, frames, n - 1);
      }
    }
  }

  lemma NothingRead(s: Suite, key: Bytes, n: nat, frames: seq<Bytes>)
    ensures Plaintexts(s, key, n, frames, 0) == []
  {
  }

  /** Whatever bytes arrive: if every complete frame can be read in turn, their plaintexts are handed out and the bytes
      after them kept; if one cannot, nothing is handed out, every byte is kept, and yet the read counter has passed the
      frames before it. */
  lemma DecodeExact(s: Suite, st: Session, data: Bytes)
    requires st.transport.Some?
    ensures
      var t := st.transport.value;
      var (frames, rest) := SplitFrames(st.inBytes + data, 0);
      var k := FirstBad(s, t.decKey, t.readCounter, frames);
      var now := Some(t.(readCounter := t.readCounter + k));
      DecodeTransportFrames(s, st, data) ==
      if k == |frames| then
        (Ok(Plaintexts(s, t.decKey, t.readCounter, frames, k)), st.(transport := now, inBytes := rest))
      else
        (Err(if t.readCounter + k >= 0x1_0000_0000 then CounterOverflow else BadTag),
         st.(transport := now, inBytes := st.inBytes + data))
  {
    hide Plaintexts, FirstBad, Reads, SplitFrames, DecryptFrames;
    var frames := SplitFrames(st.inBytes + data, 0).0;
    FramesRead(s, st.(inBytes := st.inBytes + data), frames, |frames|);
  }

  /** The intro is refused exactly for routing info whose length does not fit three bytes. */
  lemma IntroRefused(routingInfo: Option<Bytes>)
    ensures IntroHeader(routingInfo).Err? <==> routingInfo.Some? && |routingInfo.value| >= 0x100_0000
  {
  }
}
