/** A WAM buffer read from front to back: which records it holds for its events, whatever it was written from. */
module WamBuffer {
  import opened Common
  import opened WamRecord
  import opened Wam
  import opened WamInjective

  /** The next `n` records and the bytes after them. */
  function ParseMany(u: Utf8, d: Bytes, n: nat): Option<(seq<Record>, Bytes)> {
    if n == 0 then Some(([], d))
    else match ParseRecord(u, d)
      case None => None
      case Some((first, rest)) =>
        match ParseMany(u, rest, n - 1)
        case None => None
        case Some((others, after)) => Some(([first] + others, after))
  }

  lemma {:induction false} ManyBack(u: Utf8, records: seq<Record>, rest: Bytes)
    requires u.Lawful() && AllWritable(u, records)
    ensures ParseMany(u, AllBytes(u, records) + rest, |records|) == Some((NormRecords(records), rest))
  {
    hide ParseRecord, RecordBytes, Writable;
    if records == [] {
      assert [] + rest == rest;
    } else {
      var tail := AllBytes(u, records[1..]);
      assert RecordBytes(u, records[0]) + tail + rest == RecordBytes(u, records[0]) + (tail + rest);
      RecordBack(u, records[0], tail + rest);
      ManyBack(u, records[1..], rest);
      assert NormRecords(records) == [NormRecord(records[0])] + NormRecords(records[1..]);
    }
  }

  /** How many records an event takes. */
  function Size(e: Event): nat {
    |e.globals| + 1 + |e.props|
  }

  /** How many records the first `k` events take. */
  function Offset(events: seq<Event>, k: nat): nat
    requires k <= |events|
  {
    if k == 0 then 0 else Offset(events, k - 1) + Size(events[k - 1])
  }

  /** What a reader sees of a value: a boolean as 0 or 1. */
  function Seen(v: Value): Value {
    match v
    case Bool(true) => Int(1)
    case Bool(false) => Int(0)
    case _ => v
  }

  /** The records of an event: its globals with flag 0; its id with the weight negated, and flag 1, or 5 when no
      property has a value; its properties with flag 1, the last one with flag 6. */
  ghost predicate EventAt(specs: Specs, e: Event, records: seq<Record>) {
    var g, p := |e.globals|, |e.props|;
    && Named(specs, e) && |records| == g + 1 + p
    && (forall i :: 0 <= i < g ==>
          records[i] == Record(specs.globals[e.globals[i].key], Seen(e.globals[i].value), 0))
    && records[g].key == specs.events[e.name].id && records[g].value == Int(-(specs.events[e.name].weight as int))
    && records[g].flag == (if exists i :: 0 <= i < p && e.props[i].value != Null then 1 else 5)
    && (forall i :: 0 <= i < p ==>
          records[g + 1 + i] == Record(specs.events[e.name].props[e.props[i].key], Seen(e.props[i].value),
                                       if i < p - 1 then 1 else 6))
  }

  lemma EventSeen(specs: Specs, e: Event)
    requires Named(specs, e)
    ensures EventAt(specs, e, NormRecords(EventRecords(specs, e)))
  {
    hide NormRecords, EventRecords, NormRecord, GlobalRecords, FieldRecords, HasValue;
    var g, p := |e.globals|, |e.props|;
    var records := NormRecords(EventRecords(specs, e));
    HeadSeen(specs, e);
    forall i | 0 <= i < g
      ensures records[i] == Record(specs.globals[e.globals[i].key], Seen(e.globals[i].value), 0)
    {
      GlobalSeen(specs, e, i);
    }
    forall i | 0 <= i < p
      ensures records[g + 1 + i] == Record(specs.events[e.name].props[e.props[i].key], Seen(e.props[i].value),
                                           if i < p - 1 then 1 else 6)
    {
      FieldSeen(specs, e, i);
    }
  }

  lemma HeadSeen(specs: Specs, e: Event)
    requires Named(specs, e)
    ensures
      var records, g := NormRecords(EventRecords(specs, e)), |e.globals|;
      && |records| == g + 1 + |e.props|
      && records[g].key == specs.events[e.name].id && records[g].value == Int(-(specs.events[e.name].weight as int))
      && records[g].flag == (if exists i :: 0 <= i < |e.props| && e.props[i].value != Null then 1 else 5)
  {
    hide GlobalRecords, FieldRecords, Known;
    assert HasValue(e.props) <==> exists i :: 0 <= i < |e.props| && e.props[i].value != Null;
  }

  lemma GlobalSeen(specs: Specs, e: Event, i: nat)
    requires Named(specs, e) && i < |e.globals|
    ensures |NormRecords(EventRecords(specs, e))| == |e.globals| + 1 + |e.props|
    ensures NormRecords(EventRecords(specs, e))[i]
      == Record(specs.globals[e.globals[i].key], Seen(e.globals[i].value), 0)
  {
    hide FieldRecords, EventRecord;
  }

  lemma FieldSeen(specs: Specs, e: Event, i: nat)
    requires Named(specs, e) && i < |e.props|
    ensures |NormRecords(EventRecords(specs, e))| == |e.globals| + 1 + |e.props|
    ensures NormRecords(EventRecords(specs, e))[|e.globals| + 1 + i]
      == Record(specs.events[e.name].props[e.props[i].key], Seen(e.props[i].value), if i < |e.props| - 1 then 1 else 6)
  {
    hide GlobalRecords, EventRecord;
  }

  lemma {:induction false} EventsSeen(u: Utf8, specs: Specs, events: seq<Event>, k: nat)
    requires AllEncodable(u, specs, events) && k < |events|
    ensures
      var records := EventsRecords(u, specs, events);
      && |records| == Offset(events, |events|)
      && Offset(events, k) + Size(events[k]) <= |records|
      && records[Offset(events, k)..Offset(events, k) + Size(events[k])] == EventRecords(specs, events[k])
    decreases |events|
  {
    hide AllWritable, EventRecords, EventsRecords, Named, Size, Offset;
    var front, last := events[..|events| - 1], events[|events| - 1];
    assert events == front + [last];
    MoreRecords(u, specs, front, last);
    SameOffset(front, last, |front|);
    SameOffset(front, last, k);
    LastOffset(specs, events);
    var before, after := EventsRecords(u, specs, front), EventRecords(specs, last);
    if front == [] {
      NoEvents(u, specs);
      assert [] + after == after;
    } else {
      EventsSeen(u, specs, front, if k < |front| then k else 0);
      if k < |front| {
        Slice(before, after, Offset(front, k), Offset(front, k) + Size(front[k]));
      }
    }
    if k == |front| {
      assert (before + after)[|before|..|before| + |after|] == after;
    }
  }

  lemma LastOffset(specs: Specs, events: seq<Event>)
    requires events != [] && Named(specs, events[|events| - 1])
    ensures
      var last := events[|events| - 1];
      && Offset(events, |events|) == Offset(events, |events| - 1) + Size(last)
      && |EventRecords(specs, last)| == Size(last)
  {
  }

  lemma Slice(a: seq<Record>, b: seq<Record>, i: nat, j: nat)
    requires i <= j <= |a|
    ensures (a + b)[i..j] == a[i..j]
  {
  }

  lemma {:induction false} SameOffset(front: seq<Event>, last: Event, k: nat)
    requires k <= |front|
    ensures Offset(front + [last], k) == Offset(front, k)
  {
    if k > 0 {
      SameOffset(front, last, k - 1);
    }
  }

  /** The opening bytes of a buffer: `WAM`, the protocol version, 1, the sequence number in two bytes, and 0. */
  predicate Opening(info: Info, head: Bytes) {
    && |head| == 8 && head[..3] == [0x57, 0x41, 0x4D] && head[3] == info.protocolVersion && head[4] == 1
    && FromBig(head[5..7]) == info.sequence && head[7] == 0
  }

  /** The records are those of the events, one event after the other. */
  ghost predicate EventsAt(specs: Specs, events: seq<Event>, records: seq<Record>) {
    && |records| == Offset(events, |events|)
    && forall k :: 0 <= k < |events| ==>
         && Offset(events, k) + Size(events[k]) <= |records|
         && EventAt(specs, events[k], records[Offset(events, k)..Offset(events, k) + Size(events[k])])
  }

  /** A buffer opens with that, and read on from there it holds the records of its events and nothing else. */
  lemma BufferReads(u: Utf8, specs: Specs, info: Info)
    requires u.Lawful() && EncodeWam(u, specs, info).Some?
    ensures
      var b := EncodeWam(u, specs, info).value;
      && |b| >= 8 && Opening(info, b[..8])
      && ParseMany(u, b[8..], Offset(info.events, |info.events|)).Some?
      && var (records, rest) := ParseMany(u, b[8..], Offset(info.events, |info.events|)).value;
         EventsAt(specs, info.events, records) && rest == []
  {
    hide AllBytes, ParseMany, EventsAt, EventsRecords, Encodable, NormRecords, Writable;
    var b := EncodeWam(u, specs, info).value;
    var records := EventsRecords(u, specs, info.events);
    assert b[..8] == InfoHeader(info) && b[8..] == AllBytes(u, records);
    assert AllBytes(u, records) + [] == AllBytes(u, records);
    OpeningHolds(info);
    ManyBack(u, records, []);
    AllSeen(u, specs, info.events);
    assert |records| == |NormRecords(records)| == Offset(info.events, |info.events|) by {
      if info.events == [] { NoEvents(u, specs); } else { EventsSeen(u, specs, info.events, 0); }
    }
  }

  lemma AllSeen(u: Utf8, specs: Specs, events: seq<Event>)
    requires AllEncodable(u, specs, events)
    ensures EventsAt(specs, events, NormRecords(EventsRecords(u, specs, events)))
  {
    hide EventAt, EventRecords, NormRecords, EventsRecords, AllWritable, Size, Offset;
    var records := EventsRecords(u, specs, events);
    if events == [] {
      NoEvents(u, specs);
    }
    forall k | 0 <= k < |events|
      ensures |records| == Offset(events, |events|) && Offset(events, k) + Size(events[k]) <= |records|
      ensures EventAt(specs, events[k], NormRecords(records)[Offset(events, k)..Offset(events, k) + Size(events[k])])
    {
      var at, size := Offset(events, k), Size(events[k]);
      EventsSeen(u, specs, events, k);
      EventSeen(specs, events[k]);
      NormSlice(records, at, at + size);
    }
    assert events != [] ==> Offset(events, 0) + Size(events[0]) <= |records|;
  }

  lemma NoEvents(u: Utf8, specs: Specs)
    ensures EventsRecords(u, specs, []) == [] && Offset([], 0) == 0
  {
  }

  lemma OpeningHolds(info: Info)
    requires GoodHeader(info)
    ensures Opening(info, InfoHeader(info))
  {
    assert InfoHeader(info)[5..7] == Big2(info.sequence);
  }

  lemma NormSlice(records: seq<Record>, i: nat, j: nat)
    requires i <= j <= |records|
    ensures NormRecords(records)[i..j] == NormRecords(records[i..j])
  {
  }

  /** The weights are in the bytes: with another weight for an event that occurs, the buffer is another one. */
  lemma WeightTells(u: Utf8, specs: Specs, other: Specs, info: Info, k: nat)
    requires u.Lawful() && EncodeWam(u, specs, info).Some? && EncodeWam(u, other, info).Some?
    requires k < |info.events| && info.events[k].name in specs.events && info.events[k].name in other.events
    requires specs.events[info.events[k].name].weight != other.events[info.events[k].name].weight
    ensures EncodeWam(u, specs, info) != EncodeWam(u, other, info)
  {
    hide EncodeWam, ParseMany, Opening, Offset;
    BufferReads(u, specs, info);
    BufferReads(u, other, info);
  }

  /** A value that can be written under a key: the key fits 16 bits, text fits a length of 32 bits, and only a global
      can be null. */
  predicate Fits(u: Utf8, key: int, v: Value, isGlobal: bool) {
    0 <= key < 0x1_0000 && (v == Null ==> isGlobal) && (v.Str? ==> |u.encode(v.s)| < 0x1_0000_0000)
  }

  /** Every name of the event is known, and every value and the id can be written. */
  ghost predicate Accepted(u: Utf8, specs: Specs, e: Event) {
    && e.name in specs.events && 0 <= specs.events[e.name].id < 0x1_0000
    && (forall x :: x in e.globals ==> x.key in specs.globals && Fits(u, specs.globals[x.key], x.value, true))
    && (forall x :: x in e.props ==>
          x.key in specs.events[e.name].props && Fits(u, specs.events[e.name].props[x.key], x.value, false))
  }

  /** Encoding succeeds exactly when the version fits a byte, the sequence number two, and every event is accepted. */
  lemma EncodesExactly(u: Utf8, specs: Specs, info: Info)
    ensures EncodeWam(u, specs, info).Some?
      <==> 0 <= info.protocolVersion < 256 && 0 <= info.sequence < 0x1_0000
           && forall i :: 0 <= i < |info.events| ==> Accepted(u, specs, info.events[i])
  {
    hide Encodable, Accepted, AllBytes, EventsRecords;
    forall i | 0 <= i < |info.events|
      ensures Encodable(u, specs, info.events[i]) <==> Accepted(u, specs, info.events[i])
    {
      EventAccepted(u, specs, info.events[i]);
    }
  }

  lemma EventAccepted(u: Utf8, specs: Specs, e: Event)
    ensures Encodable(u, specs, e) <==> Accepted(u, specs, e)
  {
    hide Encodable, EventRecords, Writable, Fits, GlobalRecords, FieldRecords, EventRecord;
    NamesKnown(specs, e);
    EncodableNamed(u, specs, e);
    if Named(specs, e) {
      PartsWritable(u, specs, e);
      ItemsFit(u, specs.globals, e.globals, true);
      ItemsFit(u, specs.events[e.name].props, e.props, false);
      HeadFits(u, specs.events[e.name], e.props);
    }
  }

  lemma EncodableNamed(u: Utf8, specs: Specs, e: Event)
    ensures Encodable(u, specs, e) ==> Named(specs, e)
  {
  }

  lemma NamesKnown(specs: Specs, e: Event)
    ensures Named(specs, e)
      <==> e.name in specs.events && (forall x :: x in e.globals ==> x.key in specs.globals)
           && (forall x :: x in e.props ==> x.key in specs.events[e.name].props)
  {
    assert forall i :: 0 <= i < |e.globals| ==> e.globals[i] in e.globals;
    assert forall i :: 0 <= i < |e.props| ==> e.props[i] in e.props;
  }

  lemma ItemsFit(u: Utf8, keys: map<string, int>, items: seq<Item>, isGlobal: bool)
    requires Known(keys, items)
    ensures AllWritable(u, if isGlobal then GlobalRecords(keys, items) else FieldRecords(keys, items))
      <==> forall x :: x in items ==> x.key in keys && Fits(u, keys[x.key], x.value, isGlobal)
  {
    var records := if isGlobal then GlobalRecords(keys, items) else FieldRecords(keys, items);
    assert forall i :: 0 <= i < |items| ==> items[i] in items;
    assert forall i :: 0 <= i < |items| ==>
      (Writable(u, records[i]) <==> Fits(u, keys[items[i].key], items[i].value, isGlobal));
  }

  lemma HeadFits(u: Utf8, spec: EventSpec, props: seq<Item>)
    ensures Writable(u, EventRecord(spec, props)) <==> 0 <= spec.id < 0x1_0000
  {
  }

  /** An event with id 5, weight 1 and no properties. */
  lemma OneEvent(u: Utf8)
    ensures
      var specs := Specs(map["e" := EventSpec(5, 1, map[])], map[]);
      EncodeWam(u, specs, Info(5, 7, [Event("e", [], [])]))
      == Some([0x57, 0x41, 0x4D, 5, 1, 0, 7, 0, 0x35, 5, 0xFF])
  {
    var specs, e := Specs(map["e" := EventSpec(5, 1, map[])], map[]), Event("e", [], []);
    var r := Record(5, Int(-1), 5);
    assert EventRecords(specs, e) == [r];
    assert [e][1..] == [] && EventsRecords(u, specs, [e]) == [r];
    AllBytesOne(u, r);
    assert RecordBytes(u, r) == [0x35, 5, 0xFF];
    var info := Info(5, 7, [e]);
    assert Encodable(u, specs, e) && AllEncodable(u, specs, info.events);
    assert InfoHeader(info) == [0x57, 0x41, 0x4D, 5, 1, 0, 7, 0];
    assert EncodeWam(u, specs, info) == Some(InfoHeader(info) + AllBytes(u, [r]));
    assert InfoHeader(info) + [0x35, 5, 0xFF] == [0x57, 0x41, 0x4D, 5, 1, 0, 7, 0, 0x35, 5, 0xFF];
  }
}
