/** The homomorphic hash of the app state: 64 lanes of 16 bits, each the sum modulo
    65536 of what is hashed. */
module LtHash {
  import opened Common

  const LANES: nat := 64
  const LANE_SIZE: nat := 0x1_0000

  type Block = b: Bytes | |b| == 128 witness seq(128, i => 0)

  type Lane = n: int | 0 <= n < 0x1_0000

  type Lanes = s: seq<Lane> | |s| == 64 witness seq(64, i => 0)

  /** How the blocks are laid out and derived: the byte order of the machine, and
      `hkdf(item, 128, info=PATCH_INFO)`. */
  datatype Hasher = Hasher(little: bool, derive: Bytes -> Block)

  function LaneAt(little: bool, b: Block, k: nat): Lane
    requires k < LANES
  {
    if little then b[2 * k + 1] as int * 0x100 + b[2 * k] else b[2 * k] as int * 0x100 + b[2 * k + 1]
  }

  function ToLanes(little: bool, b: Block): Lanes {
    seq(64, k requires 0 <= k < 64 => LaneAt(little, b, k))
  }

  /** The two bytes of a lane. */
  function LaneByte(little: bool, lane: Lane, second: bool): Byte {
    if second == little then lane / 0x100 else lane % 0x100
  }

  function FromLanes(little: bool, lanes: Lanes): Block {
    seq(128, i requires 0 <= i < 128 => LaneByte(little, lanes[i / 2], i % 2 == 1))
  }

  lemma LanesBack(little: bool, lanes: Lanes)
    ensures ToLanes(little, FromLanes(little, lanes)) == lanes
  {
    forall k | 0 <= k < LANES
      ensures LaneAt(little, FromLanes(little, lanes), k) == lanes[k]
    {
      assert 2 * k / 2 == k && (2 * k + 1) / 2 == k && (2 * k + 1) % 2 == 1;
    }
  }

  lemma BlockBack(little: bool, b: Block)
    ensures FromLanes(little, ToLanes(little, b)) == b
  {
    forall i | 0 <= i < 128
      ensures FromLanes(little, ToLanes(little, b))[i] == b[i]
    {
      var k := i / 2;
      assert i == 2 * k || i == 2 * k + 1;
    }
  }

  /** Blocks with the same lanes are the same block. */
  lemma SameLanes(little: bool, a: Block, b: Block)
    requires ToLanes(little, a) == ToLanes(little, b)
    ensures a == b
  {
    BlockBack(little, a);
    BlockBack(little, b);
  }

  /** The value masked to 16 bits, of a sum or a difference that may be negative. */
  function Mask(n: int): Lane {
    n % LANE_SIZE
  }

  /** Adding or subtracting lane by lane. */
  function Combine(a: Lanes, d: Lanes, subtract: bool): Lanes {
    seq(64, k requires 0 <= k < 64 => Mask(if subtract then a[k] as int - d[k] else a[k] as int + d[k]))
  }

  function Applied(little: bool, base: Block, derived: Block, subtract: bool): Block {
    FromLanes(little, Combine(ToLanes(little, base), ToLanes(little, derived), subtract))
  }

  /** Applying a list of items one after the other. */
  function AppliedAll(h: Hasher, base: Block, items: seq<Bytes>, subtract: bool): Block {
    if items == [] then base
    else Applied(h.little, AppliedAll(h, base, items[..|items| - 1], subtract), h.derive(items[|items| - 1]), subtract)
  }

  /** `lt_hash_subtract_then_add` */
  function SubtractThenAdd(h: Hasher, base: Bytes, subtract: seq<Bytes>, add: seq<Bytes>): Option<Block> {
    if |base| != 128 then None
    else Some(AppliedAll(h, AppliedAll(h, base, subtract, true), add, false))
  }

  // ---- the byte loop ------------------------------------------------------------------

  /** `_lt_hash_apply`: the buffer is overwritten two bytes at a time. */
  method ApplyInPlace(h: Hasher, base: array<Byte>, item: Bytes, subtract: bool)
    requires base.Length == 128
    modifies base
    ensures base[..] == Applied(h.little, old(base[..]), h.derive(item), subtract)
  {
    hide Applied, LaneByte, Word, Mask;
    ghost var before: Block := base[..];
    var derived := h.derive(item);
    ghost var target := Applied(h.little, before, derived, subtract);
    var offset := 0;
    while offset < 128
      invariant offset % 2 == 0 && offset <= 128
      invariant forall i :: 0 <= i < offset ==> base[i] == target[i]
      invariant forall i :: offset <= i < 128 ==> base[i] == before[i]
    {
      AppliedWord(h.little, before, derived, subtract, offset);
      ApplyWord(h.little, base, derived, offset, subtract);
      offset := offset + 2;
    }
    SameBytes(base[..], target);
  }

  lemma SameBytes(a: Block, b: Block)
    requires forall i :: 0 <= i < 128 ==> a[i] == b[i]
    ensures a == b
  {
  }

  /** One turn of the loop. */
  method ApplyWord(little: bool, base: array<Byte>, derived: Block, offset: nat, subtract: bool)
    requires base.Length == 128 && offset + 1 < 128
    modifies base
    ensures var current := Word(little, old(base[offset]), old(base[offset + 1]));
            var delta := Word(little, derived[offset], derived[offset + 1]);
            var value := Mask(if subtract then current as int - delta else current as int + delta);
            base[offset] == LaneByte(little, value, false) && base[offset + 1] == LaneByte(little, value, true)
    ensures forall i :: 0 <= i < 128 && i != offset && i != offset + 1 ==> base[i] == old(base[i])
  {
    hide LaneByte, Word, Mask;
    var current := Word(little, base[offset], base[offset + 1]);
    var delta := Word(little, derived[offset], derived[offset + 1]);
    var value := Mask(if subtract then current as int - delta else current as int + delta);
    base[offset] := LaneByte(little, value, false);
    base[offset + 1] := LaneByte(little, value, true);
  }

  lemma AppliedWord(little: bool, base: Block, derived: Block, subtract: bool, offset: nat)
    requires offset % 2 == 0 && offset < 128
    ensures var current := Word(little, base[offset], base[offset + 1]);
            var delta := Word(little, derived[offset], derived[offset + 1]);
            var value := Mask(if subtract then current as int - delta else current as int + delta);
            var target := Applied(little, base, derived, subtract);
            target[offset] == LaneByte(little, value, false) && target[offset + 1] == LaneByte(little, value, true)
  {
    var k := offset / 2;
    assert 2 * k == offset && (offset + 1) / 2 == k && (offset + 1) % 2 == 1;
  }

  /** `int.from_bytes` of two bytes in the byte order of the machine. */
  function Word(little: bool, first: Byte, second: Byte): Lane {
    if little then second as int * 0x100 + first else first as int * 0x100 + second
  }

  /** `lt_hash_subtract_then_add`, None standing for ValueError. */
  method SubtractThenAddBytes(h: Hasher, base: Bytes, subtract: seq<Bytes>, add: seq<Bytes>) returns (r: Option<Block>)
    ensures r == SubtractThenAdd(h, base, subtract, add)
  {
    if |base| != 128 { return None; }
    var output := new Byte[128](i requires 0 <= i < 128 => base[i]);
    assert output[..] == base;
    for i := 0 to |subtract|
      invariant output[..] == AppliedAll(h, base, subtract[..i], true)
    {
      assert subtract[..i + 1][..i] == subtract[..i];
      ApplyInPlace(h, output, subtract[i], true);
    }
    assert subtract[..|subtract|] == subtract;
    ghost var middle: Block := output[..];
    for i := 0 to |add|
      invariant output[..] == AppliedAll(h, middle, add[..i], false)
    {
      assert add[..i + 1][..i] == add[..i];
      ApplyInPlace(h, output, add[i], false);
    }
    assert add[..|add|] == add;
    r := Some(output[..]);
  }

  // ---- the algebra of the hash --------------------------------------------------------

  lemma AppliedLanes(little: bool, base: Block, derived: Block, subtract: bool)
    ensures ToLanes(little, Applied(little, base, derived, subtract)) ==
            Combine(ToLanes(little, base), ToLanes(little, derived), subtract)
  {
    LanesBack(little, Combine(ToLanes(little, base), ToLanes(little, derived), subtract));
  }

  /** Subtracting an item undoes adding it. */
  lemma SubtractUndoesAdd(h: Hasher, base: Block, item: Bytes)
    ensures SubtractThenAdd(h, Applied(h.little, base, h.derive(item), false), [item], []) == Some(base)
    ensures Applied(h.little, Applied(h.little, base, h.derive(item), true), h.derive(item), false) == base
  {
    hide Applied, Combine, ToLanes;
    var d := h.derive(item);
    var added, taken := Applied(h.little, base, d, false), Applied(h.little, base, d, true);
    AppliedLanes(h.little, base, d, false);
    AppliedLanes(h.little, added, d, true);
    AppliedLanes(h.little, base, d, true);
    AppliedLanes(h.little, taken, d, false);
    CombineBack(ToLanes(h.little, base), ToLanes(h.little, d));
    SameLanes(h.little, Applied(h.little, added, d, true), base);
    SameLanes(h.little, Applied(h.little, taken, d, false), base);
    AppliedOne(h, added, item, true);
  }

  lemma AppliedOne(h: Hasher, base: Block, item: Bytes, subtract: bool)
    ensures AppliedAll(h, base, [item], subtract) == Applied(h.little, base, h.derive(item), subtract)
  {
    assert [item][..0] == [];
  }

  lemma CombineBack(a: Lanes, d: Lanes)
    ensures Combine(Combine(a, d, false), d, true) == a
    ensures Combine(Combine(a, d, true), d, false) == a
  {
  }

  /** What the items of a list put into lane `k`. */
  function ListSum(h: Hasher, items: seq<Bytes>, k: nat): nat
    requires k < LANES
  {
    if items == [] then 0
    else ListSum(h, items[..|items| - 1], k) + LaneAt(h.little, h.derive(items[|items| - 1]), k)
  }

  lemma {:induction false} AppliedAllLanes(h: Hasher, base: Block, items: seq<Bytes>, subtract: bool, k: nat)
    requires k < LANES
    ensures LaneAt(h.little, AppliedAll(h, base, items, subtract), k) ==
            Mask(if subtract then LaneAt(h.little, base, k) as int - ListSum(h, items, k)
                 else LaneAt(h.little, base, k) as int + ListSum(h, items, k))
  {
    hide LaneAt, Applied;
    if items != [] {
      hide Mask;
      var front, last := items[..|items| - 1], items[|items| - 1];
      AppliedAllLanes(h, base, front, subtract, k);
      AppliedLane(h, AppliedAll(h, base, front, subtract), last, subtract, k);
      var d: int := LaneAt(h.little, h.derive(last), k);
      var start: int := LaneAt(h.little, base, k);
      var sum := ListSum(h, front, k);
      MaskMore(if subtract then start - sum else start + sum, if subtract then -d else d);
    }
  }

  lemma MaskMore(a: int, d: int)
    ensures Mask(Mask(a) as int + d) == Mask(a + d)
  {
  }

  lemma {:induction false} ListSumRemove(h: Hasher, items: seq<Bytes>, j: nat, k: nat)
    requires j < |items| && k < LANES
    ensures ListSum(h, items, k) == ListSum(h, items[..j] + items[j + 1..], k) + LaneAt(h.little, h.derive(items[j]), k)
  {
    hide LaneAt;
    var n := |items| - 1;
    if j == n {
      assert items[..j] + items[j + 1..] == items[..n];
    } else {
      var less := items[..j] + items[j + 1..];
      ListSumRemove(h, items[..n], j, k);
      assert less[..|less| - 1] == items[..n][..j] + items[..n][j + 1..] && less[|less| - 1] == items[n];
    }
  }

  lemma Without(s: seq<Bytes>, j: nat)
    requires j < |s|
    ensures multiset(s[..j] + s[j + 1..]) == multiset(s) - multiset{s[j]}
  {
    assert s == s[..j] + [s[j]] + s[j + 1..];
  }

  lemma {:induction false} ListSumOrder(h: Hasher, a: seq<Bytes>, b: seq<Bytes>, k: nat)
    requires multiset(a) == multiset(b) && k < LANES
    ensures ListSum(h, a, k) == ListSum(h, b, k)
    decreases |a|
  {
    hide LaneAt;
    if a == [] {
      assert |multiset(b)| == 0;
    } else {
      var front, x := a[..|a| - 1], a[|a| - 1];
      assert a == front + [x];
      assert x in multiset(b);
      var j :| 0 <= j < |b| && b[j] == x;
      var less := b[..j] + b[j + 1..];
      Without(a, |a| - 1);
      Without(b, j);
      assert a[..|a| - 1] + a[|a|..] == front;
      ListSumOrder(h, front, less, k);
      ListSumRemove(h, b, j, k);
    }
  }

  /** The order of the lists makes no difference. */
  lemma SubtractThenAddOrder(h: Hasher, base: Bytes, subtract: seq<Bytes>, add: seq<Bytes>, subtract': seq<Bytes>,
                             add': seq<Bytes>)
    requires multiset(subtract) == multiset(subtract') && multiset(add) == multiset(add')
    ensures SubtractThenAdd(h, base, subtract, add) == SubtractThenAdd(h, base, subtract', add')
  {
    if |base| == 128 {
      AppliedAllOrder(h, base, subtract, subtract', true);
      AppliedAllOrder(h, AppliedAll(h, base, subtract, true), add, add', false);
    }
  }

  lemma AppliedAllOrder(h: Hasher, base: Block, a: seq<Bytes>, b: seq<Bytes>, subtract: bool)
    requires multiset(a) == multiset(b)
    ensures AppliedAll(h, base, a, subtract) == AppliedAll(h, base, b, subtract)
  {
    hide AppliedAll, LaneAt, ListSum;
    var x, y := AppliedAll(h, base, a, subtract), AppliedAll(h, base, b, subtract);
    forall k | 0 <= k < LANES
      ensures ToLanes(h.little, x)[k] == ToLanes(h.little, y)[k]
    {
      AppliedAllLanes(h, base, a, subtract, k);
      AppliedAllLanes(h, base, b, subtract, k);
      ListSumOrder(h, a, b, k);
    }
    SameLanes(h.little, x, y);
  }

  // ---- the hash of an index map -------------------------------------------------------

  /** What the value MACs of an index map put into lane `k`, in no particular order. */
  ghost function MapSum(h: Hasher, m: map<string, Bytes>, k: nat): nat
    requires k < LANES
    decreases |m|
  {
    if m == map[] then 0
    else
      var key :| key in m;
      LaneAt(h.little, h.derive(m[key]), k) + MapSum(h, m - {key}, k)
  }

  lemma {:induction false} MapSumRemove(h: Hasher, m: map<string, Bytes>, key: string, k: nat)
    requires key in m && k < LANES
    ensures MapSum(h, m, k) == LaneAt(h.little, h.derive(m[key]), k) + MapSum(h, m - {key}, k)
    decreases |m|
  {
    hide LaneAt;
    var other :| other in m && MapSum(h, m, k) == LaneAt(h.little, h.derive(m[other]), k) + MapSum(h, m - {other}, k);
    if other != key {
      MapSumRemove(h, m - {other}, key, k);
      MapSumRemove(h, m - {key}, other, k);
      assert m - {other} - {key} == m - {key} - {other};
    }
  }

  /** The hash is the lane-wise sum, modulo 65536, of exactly the value MACs of the map. */
  ghost predicate HashOf(h: Hasher, hash: Bytes, m: map<string, Bytes>) {
    && |hash| == 128
    && forall k :: 0 <= k < LANES ==> LaneAt(h.little, hash, k) == Mask(MapSum(h, m, k))
  }

  /** The map fixes the hash, however it was reached. */
  lemma HashDetermined(h: Hasher, a: Bytes, b: Bytes, m: map<string, Bytes>)
    requires HashOf(h, a, m) && HashOf(h, b, m)
    ensures a == b
  {
    hide LaneAt, MapSum;
    forall k | 0 <= k < LANES
      ensures ToLanes(h.little, a)[k] == ToLanes(h.little, b)[k]
    {
      assert LaneAt(h.little, a, k) == LaneAt(h.little, b, k);
    }
    SameLanes(h.little, a, b);
  }

  lemma EmptyHash(h: Hasher)
    ensures HashOf(h, seq(128, i => 0), map[])
  {
  }

  /** Taking out a key, subtracting its value MAC. */
  lemma HashRemove(h: Hasher, hash: Bytes, m: map<string, Bytes>, key: string)
    requires HashOf(h, hash, m) && key in m
    ensures var r := SubtractThenAdd(h, hash, [m[key]], []); r.Some? && HashOf(h, r.value, m - {key})
  {
    hide LaneAt, MapSum, ToLanes;
    var r := SubtractThenAdd(h, hash, [m[key]], []).value;
    AppliedOne(h, hash, m[key], true);
    forall k | 0 <= k < LANES
      ensures LaneAt(h.little, r, k) == Mask(MapSum(h, m - {key}, k))
    {
      AppliedLane(h, hash, m[key], true, k);
      MapSumRemove(h, m, key, k);
    }
  }

  lemma AppliedLane(h: Hasher, base: Block, item: Bytes, subtract: bool, k: nat)
    requires k < LANES
    ensures LaneAt(h.little, Applied(h.little, base, h.derive(item), subtract), k) ==
            Mask(if subtract then LaneAt(h.little, base, k) as int - LaneAt(h.little, h.derive(item), k)
                 else LaneAt(h.little, base, k) as int + LaneAt(h.little, h.derive(item), k))
  {
    hide LaneAt, FromLanes;
    AppliedLanes(h.little, base, h.derive(item), subtract);
    assert LaneAt(h.little, Applied(h.little, base, h.derive(item), subtract), k) ==
           ToLanes(h.little, Applied(h.little, base, h.derive(item), subtract))[k];
  }

  /** Setting a fresh key, adding its value MAC. */
  lemma HashInsert(h: Hasher, hash: Bytes, m: map<string, Bytes>, key: string, mac: Bytes)
    requires HashOf(h, hash, m) && key !in m
    ensures HashOf(h, Applied(h.little, hash, h.derive(mac), false), m[key := mac])
  {
    hide LaneAt, MapSum, ToLanes, Applied;
    var m' := m[key := mac];
    assert m' - {key} == m;
    forall k | 0 <= k < LANES
      ensures LaneAt(h.little, Applied(h.little, hash, h.derive(mac), false), k) == Mask(MapSum(h, m', k))
    {
      AppliedLane(h, hash, mac, false, k);
      MapSumRemove(h, m', key, k);
    }
  }

  /** Setting a key, fresh or not: the previous value MAC is subtracted first. */
  lemma HashSet(h: Hasher, hash: Bytes, m: map<string, Bytes>, key: string, mac: Bytes)
    requires HashOf(h, hash, m)
    ensures var r := SubtractThenAdd(h, hash, if key in m then [m[key]] else [], [mac]);
            r.Some? && HashOf(h, r.value, m[key := mac])
  {
    assert |hash| == 128;
    hide HashOf, Applied;
    if key in m {
      HashRemove(h, hash, m, key);
      var middle := SubtractThenAdd(h, hash, [m[key]], []).value;
      AppliedOne(h, middle, mac, false);
      HashInsert(h, middle, m - {key}, key, mac);
      assert (m - {key})[key := mac] == m[key := mac];
    } else {
      AppliedOne(h, hash, mac, false);
      HashInsert(h, hash, m, key, mac);
    }
  }
}
