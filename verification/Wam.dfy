/** The encoder of WAM metrics buffers. */
module Wam {
  import opened Common
  import opened WamRecord

  /** The weight of an event is written negated. */
  type Weight = n: int | -0x8000_0000 < n <= 0x8000_0000 witness 1

  datatype Item = Item(key: string, value: Value)

  /** `props` and `globals` list the items of the two dictionaries in insertion order. */
  datatype Event = Event(name: string, props: seq<Item>, globals: seq<Item>)

  datatype Info = Info(protocolVersion: int, sequence: int, events: seq<Event>)

  datatype EventSpec = EventSpec(id: int, weight: Weight, props: map<string, int>)

  datatype Specs = Specs(events: map<string, EventSpec>, globals: map<string, int>)

  function AllBytes(u: Utf8, records: seq<Record>): Bytes
    requires forall i :: 0 <= i < |records| ==> Writable(u, records[i])
  {
    if records == [] then [] else RecordBytes(u, records[0]) + AllBytes(u, records[1..])
  }

  // ---- events -------------------------------------------------------------------------

  predicate Known(keys: map<string, int>, items: seq<Item>) {
    forall i :: 0 <= i < |items| ==> items[i].key in keys
  }

  function GlobalRecords(keys: map<string, int>, items: seq<Item>): (r: seq<Record>)
    requires Known(keys, items)
    ensures |r| == |items|
  {
    seq(|items|, i requires 0 <= i < |items| => Record(keys[items[i].key], items[i].value, FLAG_GLOBAL))
  }

  /** Every field but the last has the flag that starts an event. */
  function FieldFlag(i: nat, count: nat): Flag {
    if i + 1 < count then FLAG_EVENT else FLAG_FIELD + FLAG_EXTENDED
  }

  function FieldRecords(keys: map<string, int>, items: seq<Item>): (r: seq<Record>)
    requires Known(keys, items)
    ensures |r| == |items|
  {
    seq(|items|, i requires 0 <= i < |items| => Record(keys[items[i].key], items[i].value, FieldFlag(i, |items|)))
  }

  predicate HasValue(items: seq<Item>) {
    exists i :: 0 <= i < |items| && !items[i].value.Null?
  }

  function EventRecord(spec: EventSpec, props: seq<Item>): Record {
    Record(spec.id, Int(-(spec.weight as int)), if HasValue(props) then FLAG_EVENT else FLAG_EVENT + FLAG_EXTENDED)
  }

  /** Every name of the event is known. */
  predicate Named(specs: Specs, e: Event) {
    Known(specs.globals, e.globals) && e.name in specs.events && Known(specs.events[e.name].props, e.props)
  }

  function EventRecords(specs: Specs, e: Event): (r: seq<Record>)
    requires Named(specs, e)
    ensures |r| > 0
  {
    var spec := specs.events[e.name];
    GlobalRecords(specs.globals, e.globals) + [EventRecord(spec, e.props)] + FieldRecords(spec.props, e.props)
  }

  predicate AllWritable(u: Utf8, records: seq<Record>) {
    forall i :: 0 <= i < |records| ==> Writable(u, records[i])
  }

  /** The encoder raises on every other event. */
  predicate Encodable(u: Utf8, specs: Specs, e: Event) {
    Named(specs, e) && AllWritable(u, EventRecords(specs, e))
  }

  predicate AllEncodable(u: Utf8, specs: Specs, events: seq<Event>) {
    forall i :: 0 <= i < |events| ==> Encodable(u, specs, events[i])
  }

  function EventsRecords(u: Utf8, specs: Specs, events: seq<Event>): (r: seq<Record>)
    requires AllEncodable(u, specs, events)
    ensures AllWritable(u, r)
  {
    if events == [] then []
    else
      var first, others := EventRecords(specs, events[0]), EventsRecords(u, specs, events[1..]);
      assert AllWritable(u, first + others);
      first + others
  }

  predicate GoodHeader(info: Info) {
    0 <= info.protocolVersion < 256 && 0 <= info.sequence < 0x1_0000
  }

  /** `_encode_wam_header` */
  function InfoHeader(info: Info): Bytes
    requires GoodHeader(info)
  {
    [0x57, 0x41, 0x4D, info.protocolVersion, 1] + Big2(info.sequence) + [0]
  }

  /** `encode_wam`, None standing for an exception. */
  function EncodeWam(u: Utf8, specs: Specs, info: Info): Option<Bytes> {
    if GoodHeader(info) && AllEncodable(u, specs, info.events)
    then Some(InfoHeader(info) + AllBytes(u, EventsRecords(u, specs, info.events)))
    else None
  }

  // ---- the encoding loops -------------------------------------------------------------

  lemma {:induction false} AllBytesConcat(u: Utf8, a: seq<Record>, b: seq<Record>)
    requires AllWritable(u, a) && AllWritable(u, b)
    ensures AllWritable(u, a + b) && AllBytes(u, a + b) == AllBytes(u, a) + AllBytes(u, b)
  {
    hide RecordBytes, Writable;
    if a == [] {
      assert a + b == b;
    } else {
      assert (a + b)[1..] == a[1..] + b;
      AllBytesConcat(u, a[1..], b);
    }
  }

  /** One dictionary of an event: `records` says what each item becomes. */
  method SerializeItems(u: Utf8, keys: map<string, int>, items: seq<Item>, fields: bool) returns (b: Option<Bytes>)
    ensures b == if Known(keys, items) && AllWritable(u, ItemRecords(keys, items, fields))
                 then Some(AllBytes(u, ItemRecords(keys, items, fields))) else None
  {
    hide Writable, RecordBytes, AllBytes, FieldFlag;
    AllBytesNone(u);
    var parts: Bytes := [];
    ghost var done: seq<Record> := [];
    for i := 0 to |items|
      invariant Known(keys, items[..i])
      invariant |done| == i && forall j :: 0 <= j < i ==> done[j] == ItemRecord(keys, items, fields, j)
      invariant AllWritable(u, done) && parts == AllBytes(u, done)
    {
      if items[i].key !in keys { return None; }
      assert items[..i + 1] == items[..i] + [items[i]];
      var record := ItemRecord(keys, items, fields, i);
      var part := Serialize(u, record.key, record.value, record.flag);
      if part.None? {
        assert Known(keys, items) ==> ItemRecords(keys, items, fields)[i] == record;
        return None;
      }
      AllBytesConcat(u, done, [record]);
      AllBytesOne(u, record);
      done, parts := done + [record], parts + part.value;
    }
    assert items[..|items|] == items;
    assert done == ItemRecords(keys, items, fields);
    b := Some(parts);
  }

  function ItemRecord(keys: map<string, int>, items: seq<Item>, fields: bool, i: nat): Record
    requires i < |items| && items[i].key in keys
  {
    Record(keys[items[i].key], items[i].value, if fields then FieldFlag(i, |items|) else FLAG_GLOBAL)
  }

  function ItemRecords(keys: map<string, int>, items: seq<Item>, fields: bool): seq<Record>
    requires Known(keys, items)
  {
    if fields then FieldRecords(keys, items) else GlobalRecords(keys, items)
  }

  lemma AllBytesOne(u: Utf8, r: Record)
    requires Writable(u, r)
    ensures AllBytes(u, [r]) == RecordBytes(u, r)
  {
    assert [r][1..] == [];
    assert RecordBytes(u, r) + [] == RecordBytes(u, r);
  }

  method SerializeEvent(u: Utf8, specs: Specs, e: Event) returns (b: Option<Bytes>)
    ensures b == if Encodable(u, specs, e) then Some(AllBytes(u, EventRecords(specs, e))) else None
  {
    hide Writable, RecordBytes, AllBytes;
    var globals := SerializeItems(u, specs.globals, e.globals, false);
    if globals.None? {
      PartsWritable(u, specs, e);
      return None;
    }
    if e.name !in specs.events { return None; }
    var spec := specs.events[e.name];
    var record := EventRecord(spec, e.props);
    var head := Serialize(u, record.key, record.value, record.flag);
    if head.None? {
      PartsWritable(u, specs, e);
      return None;
    }
    var fields := SerializeItems(u, spec.props, e.props, true);
    PartsWritable(u, specs, e);
    if fields.None? { return None; }
    b := Some(globals.value + head.value + fields.value);
  }

  lemma PartsWritable(u: Utf8, specs: Specs, e: Event)
    ensures Named(specs, e) ==>
              var spec := specs.events[e.name];
              var globals, fields := GlobalRecords(specs.globals, e.globals), FieldRecords(spec.props, e.props);
              var head := EventRecord(spec, e.props);
              && (Encodable(u, specs, e) <==> AllWritable(u, globals) && Writable(u, head) && AllWritable(u, fields))
              && (Encodable(u, specs, e) ==>
                  AllBytes(u, EventRecords(specs, e))
                  == AllBytes(u, globals) + RecordBytes(u, head) + AllBytes(u, fields))
  {
    hide Writable, RecordBytes, EventRecord, GlobalRecords, FieldRecords;
    if Named(specs, e) {
      var spec := specs.events[e.name];
      var globals, fields := GlobalRecords(specs.globals, e.globals), FieldRecords(spec.props, e.props);
      var head := EventRecord(spec, e.props);
      var all := globals + [head] + fields;
      assert all == EventRecords(specs, e);
      if AllWritable(u, all) {
        assert forall i :: 0 <= i < |globals| ==> globals[i] == all[i];
        assert head == all[|globals|];
        assert forall i :: 0 <= i < |fields| ==> fields[i] == all[|globals| + 1 + i];
        AllBytesConcat(u, globals, [head]);
        AllBytesConcat(u, globals + [head], fields);
        AllBytesOne(u, head);
      }
    }
  }

  /** `encode_wam` */
  method Encode(u: Utf8, specs: Specs, info: Info) returns (r: Option<Bytes>)
    ensures r == EncodeWam(u, specs, info)
  {
    hide Encodable, EventRecords, AllBytes, Writable;
    if !GoodHeader(info) { return None; }
    var parts := InfoHeader(info);
    ghost var body: Bytes := [];
    AllBytesNone(u);
    for i := 0 to |info.events|
      invariant AllEncodable(u, specs, info.events[..i])
      invariant body == AllBytes(u, EventsRecords(u, specs, info.events[..i])) && parts == InfoHeader(info) + body
    {
      var part := SerializeEvent(u, specs, info.events[i]);
      if part.None? { return None; }
      MoreEvents(u, specs, info.events[..i], info.events[i]);
      assert info.events[..i + 1] == info.events[..i] + [info.events[i]];
      parts, body := parts + part.value, body + part.value;
    }
    assert info.events[..|info.events|] == info.events;
    r := Some(parts);
  }

  lemma AllBytesNone(u: Utf8)
    ensures AllBytes(u, []) == []
  {
  }

  lemma {:induction false} MoreRecords(u: Utf8, specs: Specs, events: seq<Event>, e: Event)
    requires AllEncodable(u, specs, events) && Encodable(u, specs, e)
    ensures AllEncodable(u, specs, events + [e])
    ensures EventsRecords(u, specs, events + [e]) == EventsRecords(u, specs, events) + EventRecords(specs, e)
  {
    hide EventRecords, AllWritable, Named;
    var all := events + [e];
    if events == [] {
      assert all[0] == e && all[1..] == [];
      assert EventsRecords(u, specs, all) == EventRecords(specs, e) + [];
    } else {
      assert all[0] == events[0] && all[1..] == events[1..] + [e];
      MoreRecords(u, specs, events[1..], e);
      var first, others := EventRecords(specs, events[0]), EventsRecords(u, specs, events[1..]);
      assert first + (others + EventRecords(specs, e)) == (first + others) + EventRecords(specs, e);
    }
  }

  lemma MoreEvents(u: Utf8, specs: Specs, events: seq<Event>, e: Event)
    requires AllEncodable(u, specs, events) && Encodable(u, specs, e)
    ensures AllEncodable(u, specs, events + [e])
    ensures AllWritable(u, EventRecords(specs, e))
    ensures AllBytes(u, EventsRecords(u, specs, events + [e])) ==
            AllBytes(u, EventsRecords(u, specs, events)) + AllBytes(u, EventRecords(specs, e))
  {
    hide EventRecords, EventsRecords, AllBytes, Writable;
    MoreRecords(u, specs, events, e);
    AllBytesConcat(u, EventsRecords(u, specs, events), EventRecords(specs, e));
  }
}
