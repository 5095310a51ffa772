/** A WAM buffer determines what was encoded: how the events are told apart although their
    records share a flag with their fields. */
module WamInjective {
  import opened Common
  import opened Wam
  import opened WamRecord

  function NormRecords(records: seq<Record>): (r: seq<Record>)
    ensures |r| == |records|
    ensures forall i :: 0 <= i < |r| ==> r[i] == NormRecord(records[i])
  {
    seq(|records|, i requires 0 <= i < |records| => NormRecord(records[i]))
  }

  /** The bytes of a list of records determine the records. */
  lemma {:induction false} RecordsInjective(u: Utf8, a: seq<Record>, b: seq<Record>)
    requires u.Lawful() && AllWritable(u, a) && AllWritable(u, b)
    requires AllBytes(u, a) == AllBytes(u, b)
    ensures NormRecords(a) == NormRecords(b)
  {
    hide ParseRecord, RecordBytes, Writable;
    if a != [] && b != [] {
      RecordBack(u, a[0], AllBytes(u, a[1..]));
      RecordBack(u, b[0], AllBytes(u, b[1..]));
      RecordsInjective(u, a[1..], b[1..]);
      assert NormRecords(a) == [NormRecord(a[0])] + NormRecords(a[1..]);
      assert NormRecords(b) == [NormRecord(b[0])] + NormRecords(b[1..]);
    }
  }

  // ---- telling the events apart -------------------------------------------------------

  function NormItems(items: seq<Item>): (r: seq<Item>)
    ensures |r| == |items|
  {
    seq(|items|, i requires 0 <= i < |items| => items[i].(value := NormValue(items[i].value)))
  }

  function NormEvent(e: Event): Event {
    Event(e.name, NormItems(e.props), NormItems(e.globals))
  }

  function NormEvents(events: seq<Event>): (r: seq<Event>)
    ensures |r| == |events|
  {
    if events == [] then [] else [NormEvent(events[0])] + NormEvents(events[1..])
  }

  predicate Injective(keys: map<string, int>) {
    forall a, b :: a in keys && b in keys && keys[a] == keys[b] ==> a == b
  }

  /** Ids are distinct within the globals, within the events, and within the fields of each event. */
  predicate DistinctIds(specs: Specs) {
    && Injective(specs.globals)
    && (forall a, b :: a in specs.events && b in specs.events && specs.events[a].id == specs.events[b].id ==> a == b)
    && (forall a :: a in specs.events ==> Injective(specs.events[a].props))
  }

  /** Two lists whose fronts hold only global records, each followed by a record that is none,
      have fronts of the same length. */
  lemma SameGlobals(a: seq<Record>, b: seq<Record>, m: nat, n: nat)
    requires m < |a| && n < |b| && a == b
    requires forall i :: 0 <= i < m ==> a[i].flag == FLAG_GLOBAL
    requires forall i :: 0 <= i < n ==> b[i].flag == FLAG_GLOBAL
    requires a[m].flag != FLAG_GLOBAL && b[n].flag != FLAG_GLOBAL
    ensures m == n
  {
  }

  lemma GlobalsInjective(keys: map<string, int>, a: seq<Item>, b: seq<Item>)
    requires Injective(keys) && Known(keys, a) && Known(keys, b) && |a| == |b|
    requires NormRecords(GlobalRecords(keys, a)) == NormRecords(GlobalRecords(keys, b))
    ensures NormItems(a) == NormItems(b)
  {
    forall i | 0 <= i < |a|
      ensures NormItems(a)[i] == NormItems(b)[i]
    {
      assert NormRecord(GlobalRecords(keys, a)[i]) == NormRecord(GlobalRecords(keys, b)[i]);
    }
  }

  lemma FieldsInjective(keys: map<string, int>, a: seq<Item>, b: seq<Item>)
    requires Injective(keys) && Known(keys, a) && Known(keys, b) && |a| == |b|
    requires NormRecords(FieldRecords(keys, a)) == NormRecords(FieldRecords(keys, b))
    ensures NormItems(a) == NormItems(b)
  {
    forall i | 0 <= i < |a|
      ensures NormItems(a)[i] == NormItems(b)[i]
    {
      assert NormRecord(FieldRecords(keys, a)[i]) == NormRecord(FieldRecords(keys, b)[i]);
    }
  }

  /** The event record is an event of no fields exactly when there are none. */
  lemma EventFlag(u: Utf8, specs: Specs, e: Event)
    requires Encodable(u, specs, e)
    ensures HasValue(e.props) <==> e.props != []
  {
    var spec := specs.events[e.name];
    var records := EventRecords(specs, e);
    if e.props != [] {
      var k := |e.globals| + 1;
      assert records[k] == FieldRecords(spec.props, e.props)[0];
      assert Writable(u, records[k]);
    }
  }

  /** Where the records of an event stand in the records of a buffer. */
  lemma EventLayout(specs: Specs, e: Event, tail: seq<Record>)
    requires Named(specs, e)
    ensures var all := NormRecords(EventRecords(specs, e) + tail);
            var g, p := |e.globals|, |e.props|;
            var spec := specs.events[e.name];
            && all[..g] == NormRecords(GlobalRecords(specs.globals, e.globals))
            && all[g] == EventRecord(spec, e.props)
            && all[g + 1..g + 1 + p] == NormRecords(FieldRecords(spec.props, e.props))
            && all[g + 1 + p..] == NormRecords(tail)
  {
  }

  lemma GlobalFlags(specs: Specs, e: Event)
    requires Named(specs, e)
    ensures forall i :: 0 <= i < |e.globals| ==>
      NormRecords(GlobalRecords(specs.globals, e.globals))[i].flag == FLAG_GLOBAL
  {
  }

  lemma FieldFlags(keys: map<string, int>, props: seq<Item>)
    requires Known(keys, props)
    ensures forall i :: 0 <= i < |props| ==>
              (NormRecords(FieldRecords(keys, props))[i].flag == FLAG_FIELD + FLAG_EXTENDED <==> i + 1 == |props|)
  {
  }

  /** Where the globals of the first event end, and what they are. */
  lemma FirstGlobals(specs: Specs, a: Event, b: Event, all: seq<Record>)
    requires DistinctIds(specs) && Named(specs, a) && Named(specs, b)
    requires |a.globals| < |all| && |b.globals| < |all|
    requires all[..|a.globals|] == NormRecords(GlobalRecords(specs.globals, a.globals))
    requires all[..|b.globals|] == NormRecords(GlobalRecords(specs.globals, b.globals))
    requires all[|a.globals|].flag != FLAG_GLOBAL && all[|b.globals|].flag != FLAG_GLOBAL
    ensures |a.globals| == |b.globals| && NormItems(a.globals) == NormItems(b.globals)
  {
    GlobalFlags(specs, a);
    GlobalFlags(specs, b);
    hide NormRecords, GlobalRecords, NormItems, Injective;
    var g, h := |a.globals|, |b.globals|;
    assert forall i :: 0 <= i < g ==> all[i] == all[..g][i];
    assert forall i :: 0 <= i < h ==> all[i] == all[..h][i];
    SameGlobals(all, all, g, h);
    GlobalsInjective(specs.globals, a.globals, b.globals);
  }

  /** The first event of a buffer is determined by the records, and so are the records after it. */
  lemma FirstEvent(u: Utf8, specs: Specs, a: Event, b: Event, tailA: seq<Record>, tailB: seq<Record>)
    requires DistinctIds(specs) && Encodable(u, specs, a) && Encodable(u, specs, b)
    requires NormRecords(EventRecords(specs, a) + tailA) == NormRecords(EventRecords(specs, b) + tailB)
    ensures NormEvent(a) == NormEvent(b) && NormRecords(tailA) == NormRecords(tailB)
  {
    EventFlag(u, specs, a);
    EventFlag(u, specs, b);
    hide NormRecords, GlobalRecords, FieldRecords, EventRecords, HasValue, AllWritable, NormItems, Injective;
    var all := NormRecords(EventRecords(specs, a) + tailA);
    EventLayout(specs, a, tailA);
    EventLayout(specs, b, tailB);
    FirstGlobals(specs, a, b, all);
    var g := |a.globals|;
    assert all[g].key == specs.events[a.name].id == specs.events[b.name].id;
    var keys := specs.events[a.name].props;
    var fields := all[g + 1..];
    assert fields[..|a.props|] == all[g + 1..g + 1 + |a.props|] && fields[..|b.props|] == all[g + 1..g + 1 + |b.props|];
    SameFields(fields, keys, a.props, b.props);
    FieldsInjective(keys, a.props, b.props);
  }

  /** The flag of the last field tells how many fields there are. */
  lemma SameFields(records: seq<Record>, keys: map<string, int>, a: seq<Item>, b: seq<Item>)
    requires Known(keys, a) && Known(keys, b) && |a| <= |records| && |b| <= |records|
    requires (a == []) == (b == [])
    requires records[..|a|] == NormRecords(FieldRecords(keys, a))
    requires records[..|b|] == NormRecords(FieldRecords(keys, b))
    ensures |a| == |b|
  {
    FieldFlags(keys, a);
    FieldFlags(keys, b);
    hide FieldRecords, NormRecords;
    assert forall i :: 0 <= i < |a| ==> records[i] == records[..|a|][i];
    assert forall i :: 0 <= i < |b| ==> records[i] == records[..|b|][i];
    if a != [] {
      var i, j := |a| - 1, |b| - 1;
      assert records[i].flag == FLAG_FIELD + FLAG_EXTENDED && records[j].flag == FLAG_FIELD + FLAG_EXTENDED;
    }
  }

  lemma {:induction false} EventsInjective(u: Utf8, specs: Specs, a: seq<Event>, b: seq<Event>)
    requires DistinctIds(specs) && AllEncodable(u, specs, a) && AllEncodable(u, specs, b)
    requires NormRecords(EventsRecords(u, specs, a)) == NormRecords(EventsRecords(u, specs, b))
    ensures NormEvents(a) == NormEvents(b)
  {
    hide DistinctIds, EventRecords, NormEvent, Writable;
    if a != [] && b != [] {
      FirstEvent(u, specs, a[0], b[0], EventsRecords(u, specs, a[1..]), EventsRecords(u, specs, b[1..]));
      EventsInjective(u, specs, a[1..], b[1..]);
    }
  }

  /** Two infos that encode to the same bytes have the same header and, booleans read as 0 and 1,
      the same events, globals and properties in the same order. */
  lemma EncodingInjective(u: Utf8, specs: Specs, a: Info, b: Info)
    requires u.Lawful() && DistinctIds(specs)
    requires EncodeWam(u, specs, a).Some? && EncodeWam(u, specs, a) == EncodeWam(u, specs, b)
    ensures a.protocolVersion == b.protocolVersion && a.sequence == b.sequence
    ensures NormEvents(a.events) == NormEvents(b.events)
  {
    hide AllBytes, DistinctIds, Encodable, EventsRecords;
    var x, y := AllBytes(u, EventsRecords(u, specs, a.events)), AllBytes(u, EventsRecords(u, specs, b.events));
    var bytes := EncodeWam(u, specs, a).value;
    assert bytes[..8] == InfoHeader(a) && bytes[..8] == InfoHeader(b);
    assert bytes[8..] == x && bytes[8..] == y;
    SameHeader(a, b);
    RecordsInjective(u, EventsRecords(u, specs, a.events), EventsRecords(u, specs, b.events));
    EventsInjective(u, specs, a.events, b.events);
  }

  lemma SameHeader(a: Info, b: Info)
    requires GoodHeader(a) && GoodHeader(b) && InfoHeader(a) == InfoHeader(b)
    ensures a.protocolVersion == b.protocolVersion && a.sequence == b.sequence
  {
    assert InfoHeader(a)[3] == a.protocolVersion && InfoHeader(b)[3] == b.protocolVersion;
    assert InfoHeader(a)[5..7] == Big2(a.sequence) && InfoHeader(b)[5..7] == Big2(b.sequence);
  }

  // ---- the other direction ------------------------------------------------------------

  /** Records that are normalised alike are written alike. */
  lemma {:induction false} SameBytes(u: Utf8, a: seq<Record>, b: seq<Record>)
    requires AllWritable(u, a) && AllWritable(u, b) && NormRecords(a) == NormRecords(b)
    ensures AllBytes(u, a) == AllBytes(u, b)
  {
    hide IntBytes, StringBytes, Header;
    assert |a| == |NormRecords(a)| == |NormRecords(b)| == |b|;
    if a != [] {
      assert NormRecord(a[0]) == NormRecords(a)[0] == NormRecords(b)[0] == NormRecord(b[0]);
      assert NormRecords(a[1..]) == NormRecords(a)[1..] == NormRecords(b)[1..] == NormRecords(b[1..]);
      SameBytes(u, a[1..], b[1..]);
    }
  }

  lemma SameItems(keys: map<string, int>, a: seq<Item>, b: seq<Item>)
    requires Known(keys, a) && Known(keys, b) && NormItems(a) == NormItems(b)
    ensures NormRecords(GlobalRecords(keys, a)) == NormRecords(GlobalRecords(keys, b))
    ensures NormRecords(FieldRecords(keys, a)) == NormRecords(FieldRecords(keys, b))
    ensures HasValue(a) <==> HasValue(b)
  {
    assert |a| == |NormItems(a)| == |NormItems(b)| == |b|;
    forall i | 0 <= i < |a|
      ensures a[i].key == b[i].key && NormValue(a[i].value) == NormValue(b[i].value)
    {
      assert NormItems(a)[i] == NormItems(b)[i];
    }
  }

  lemma NormJoin(a: seq<Record>, b: seq<Record>)
    ensures NormRecords(a + b) == NormRecords(a) + NormRecords(b)
  {
  }

  lemma SameEvent(specs: Specs, a: Event, b: Event)
    requires Named(specs, a) && Named(specs, b) && NormEvent(a) == NormEvent(b)
    ensures NormRecords(EventRecords(specs, a)) == NormRecords(EventRecords(specs, b))
  {
    hide NormRecords, GlobalRecords, FieldRecords, NormItems, HasValue, Known;
    var spec := specs.events[a.name];
    SameItems(specs.globals, a.globals, b.globals);
    SameItems(spec.props, a.props, b.props);
    NormJoin(GlobalRecords(specs.globals, a.globals), [EventRecord(spec, a.props)]);
    NormJoin(GlobalRecords(specs.globals, b.globals), [EventRecord(spec, b.props)]);
    NormJoin(GlobalRecords(specs.globals, a.globals) + [EventRecord(spec, a.props)], FieldRecords(spec.props, a.props));
    NormJoin(GlobalRecords(specs.globals, b.globals) + [EventRecord(spec, b.props)], FieldRecords(spec.props, b.props));
  }

  lemma {:induction false} SameEvents(u: Utf8, specs: Specs, a: seq<Event>, b: seq<Event>)
    requires AllEncodable(u, specs, a) && AllEncodable(u, specs, b) && NormEvents(a) == NormEvents(b)
    ensures NormRecords(EventsRecords(u, specs, a)) == NormRecords(EventsRecords(u, specs, b))
  {
    hide NormRecords, EventRecords, NormEvent, Named, AllWritable;
    assert |a| == |NormEvents(a)| == |NormEvents(b)| == |b|;
    if a != [] {
      assert NormEvent(a[0]) == NormEvents(a)[0] == NormEvents(b)[0] == NormEvent(b[0]);
      assert NormEvents(a[1..]) == NormEvents(a)[1..] == NormEvents(b)[1..] == NormEvents(b[1..]);
      SameEvent(specs, a[0], b[0]);
      SameEvents(u, specs, a[1..], b[1..]);
      NormJoin(EventRecords(specs, a[0]), EventsRecords(u, specs, a[1..]));
      NormJoin(EventRecords(specs, b[0]), EventsRecords(u, specs, b[1..]));
    }
  }

  /** Two infos encode alike exactly when their headers are the same and, booleans read as 0 and 1, so
      are their events, globals and properties, in order. */
  lemma EncodingExact(u: Utf8, specs: Specs, a: Info, b: Info)
    requires u.Lawful() && DistinctIds(specs)
    requires EncodeWam(u, specs, a).Some? && EncodeWam(u, specs, b).Some?
    ensures EncodeWam(u, specs, a) == EncodeWam(u, specs, b)
      <==> a.protocolVersion == b.protocolVersion && a.sequence == b.sequence
           && NormEvents(a.events) == NormEvents(b.events)
  {
    hide AllEncodable, EventsRecords, AllBytes, DistinctIds, NormEvents;
    if EncodeWam(u, specs, a) == EncodeWam(u, specs, b) {
      EncodingInjective(u, specs, a, b);
    } else if NormEvents(a.events) == NormEvents(b.events) {
      SameEvents(u, specs, a.events, b.events);
      SameBytes(u, EventsRecords(u, specs, a.events), EventsRecords(u, specs, b.events));
    }
  }
}
