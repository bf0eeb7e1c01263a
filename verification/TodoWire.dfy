/** The stored form of the TODO list, as in components/smart_todo/smart_todo.c. */
module TodoWire {
  import opened Bytes
  import opened Todo
  import Crc32
  import Utf8

  const SLOT_BYTES := 120
  const HEADER_BYTES := 24
  const PAYLOAD_BYTES := 1464
  const WIRE_BYTES := 1468
  const MAGIC: seq<byte> := [86, 84, 79, 68] // "VTOD"

  function Put32(v: uint32): (s: seq<byte>)
    ensures |s| == 4
  {
    [v % 256, v / 256 % 256, v / 65536 % 256, v / 16777216]
  }

  function Get32(s: seq<byte>): uint32
    requires |s| == 4
  {
    s[0] as int + s[1] as int * 256 + s[2] as int * 65536 + s[3] as int * 16777216
  }

  lemma Get32Put32(v: uint32)
    ensures Get32(Put32(v)) == v
  {
    var b := v / 256;
    var c := b / 256;
    var d := c / 256;
    DivUnique(v, 65536, c, b % 256 * 256 + v % 256);
    DivUnique(v, 16777216, d, c % 256 * 65536 + b % 256 * 256 + v % 256);
  }

  function Zeros(n: nat): (s: seq<byte>)
    ensures |s| == n && forall i :: 0 <= i < n ==> s[i] == 0
  {
    seq(n, _ => 0)
  }

  /** The fixed-size form of one item. */
  function Slot(a: Item): (s: seq<byte>)
    ensures |s| == SLOT_BYTES
  {
    Put32(a.id) + [if a.completed then 1 else 0] + Zeros(3) + Put32(ToUint32(a.due)) + Put32(a.repeat)
    + a.title + Zeros(104 - |a.title|)
  }

  function Slots(items: seq<Item>): (s: seq<byte>)
    ensures |s| == SLOT_BYTES * |items|
  {
    if items == [] then [] else Slots(items[..|items| - 1]) + Slot(items[|items| - 1])
  }

  function Header(l: List): (s: seq<byte>)
    requires |l.items| <= CAPACITY
    ensures |s| == HEADER_BYTES
  {
    MAGIC + Put32(1) + Put32(l.revision) + Put32(l.nextId) + [|l.items|] + Zeros(7)
  }

  function Payload(l: List): (s: seq<byte>)
    requires |l.items| <= CAPACITY
    ensures |s| == PAYLOAD_BYTES
  {
    Header(l) + Slots(l.items) + Zeros(SLOT_BYTES * (CAPACITY - |l.items|))
  }

  function Wire(l: List): (s: seq<byte>)
    requires |l.items| <= CAPACITY
    ensures |s| == WIRE_BYTES
  {
    Payload(l) + Crc32.ChecksumBytes(Crc32.Checksum(Payload(l)))
  }

  // ---------------------------------------------------------------- decoding

  /** The bytes before the first zero, or all of them. */
  function CString(s: seq<byte>): (r: seq<byte>)
    ensures |r| <= |s| && r == s[..|r|] && 0 !in r
    ensures |r| < |s| ==> s[|r|] == 0
  {
    if s == [] || s[0] == 0 then [] else [s[0]] + CString(s[1..])
  }

  function Unslot(p: seq<byte>): Option<Item>
    requires |p| == SLOT_BYTES
  {
    var title := CString(p[16..113]);
    if p[4] > 1 || |title| == TITLE_BYTES then None
    else Some(Item(Get32(p[0..4]), p[4] == 1, title, Get32(p[8..12]), Get32(p[12..16])))
  }

  function SlotAt(data: seq<byte>, i: nat): (p: seq<byte>)
    requires |data| == WIRE_BYTES && i < CAPACITY
    ensures |p| == SLOT_BYTES
  {
    data[HEADER_BYTES + i * SLOT_BYTES..HEADER_BYTES + i * SLOT_BYTES + SLOT_BYTES]
  }

  /** The first `n` slots, unless one of them is malformed. */
  function Unslots(data: seq<byte>, n: nat): (r: Option<seq<Item>>)
    requires |data| == WIRE_BYTES && n <= CAPACITY
    ensures r.Some? ==> |r.value| == n
  {
    if n == 0 then Some([])
    else
      match Unslots(data, n - 1)
      case None => None
      case Some(items) =>
        match Unslot(SlotAt(data, n - 1))
        case None => None
        case Some(a) => Some(items + [a])
  }

  predicate Framed(data: seq<byte>)
  {
    && |data| == WIRE_BYTES && data[..4] == MAGIC && Get32(data[4..8]) == 1
    && data[PAYLOAD_BYTES..] == Crc32.ChecksumBytes(Crc32.Checksum(data[..PAYLOAD_BYTES]))
    && data[16] <= CAPACITY
  }

  ghost function Decoded(data: seq<byte>): Option<List>
  {
    if !Framed(data) || Unslots(data, data[16]).None? then None
    else
      var l := List(Get32(data[8..12]), Get32(data[12..16]), Unslots(data, data[16]).value);
      if ValidList(l) then Some(l) else None
  }

  // ---------------------------------------------------------------- decoding inverts encoding

  lemma {:induction false} CStringOf(s: seq<byte>, t: seq<byte>)
    requires |t| < |s| && s[..|t|] == t && s[|t|] == 0 && 0 !in t
    ensures CString(s) == t
    decreases |t|
  {
    if t != [] {
      assert s[0] == t[0] && s[0] != 0 by {
        assert s[..|t|][0] == t[0];
        assert t[0] in t;
      }
      assert s[1..][..|t[1..]|] == s[..|t|][1..] == t[1..];
      CStringOf(s[1..], t[1..]);
    }
  }

  /** The parts of a slot, at their offsets. */
  lemma SlotParts(a: Item)
    requires |a.title| < TITLE_BYTES
    ensures
      var p := Slot(a);
      && p[0..4] == Put32(a.id) && p[4] == (if a.completed then 1 else 0)
      && p[8..12] == Put32(ToUint32(a.due)) && p[12..16] == Put32(a.repeat)
      && p[16..16 + |a.title|] == a.title && p[16 + |a.title|] == 0
  {
    hide Put32, ToUint32;
  }

  lemma ValidTitleIsShort(a: Item)
    requires ValidItem(a)
    ensures |a.title| < TITLE_BYTES
  {
  }

  lemma SlotRoundTrip(a: Item)
    requires ValidItem(a)
    ensures Unslot(Slot(a)) == Some(a)
  {
    hide Slot, Put32, Get32, Utf8.IsTitle, CString;
    ValidTitleIsShort(a);
    var p := Slot(a);
    SlotParts(a);
    Get32Put32(a.id);
    Get32Put32(ToUint32(a.due));
    Get32Put32(a.repeat);
    assert p[16..113][..|a.title|] == p[16..16 + |a.title|];
    CStringOf(p[16..113], a.title);
  }

  lemma {:induction false} SlotsAt(items: seq<Item>, i: nat)
    requires i < |items|
    ensures Slots(items)[SLOT_BYTES * i..SLOT_BYTES * i + SLOT_BYTES] == Slot(items[i])
    decreases |items|
  {
    hide Slot;
    var last := |items| - 1;
    if i < last {
      SlotsAt(items[..last], i);
      assert Slots(items)[SLOT_BYTES * i..SLOT_BYTES * i + SLOT_BYTES]
          == Slots(items[..last])[SLOT_BYTES * i..SLOT_BYTES * i + SLOT_BYTES];
    }
  }

  lemma WireSlots(l: List, i: nat)
    requires i < |l.items| <= CAPACITY
    ensures SlotAt(Wire(l), i) == Slot(l.items[i])
  {
    hide Slot, Slots, Header, Crc32.Checksum, Crc32.ChecksumBytes;
    SlotsAt(l.items, i);
    var at := SLOT_BYTES * i;
    assert Wire(l)[HEADER_BYTES + at..HEADER_BYTES + at + SLOT_BYTES] == Slots(l.items)[at..at + SLOT_BYTES];
  }

  lemma WireHeader(l: List)
    requires |l.items| <= CAPACITY
    ensures
      var d := Wire(l);
      && d[..4] == MAGIC && d[4..8] == Put32(1) && d[8..12] == Put32(l.revision)
      && d[12..16] == Put32(l.nextId) && d[16] == |l.items|
      && d[..PAYLOAD_BYTES] == Payload(l)
      && d[PAYLOAD_BYTES..] == Crc32.ChecksumBytes(Crc32.Checksum(Payload(l)))
  {
    hide Put32, Slots, Crc32.Checksum, Crc32.ChecksumBytes;
    assert Wire(l)[..HEADER_BYTES] == Header(l);
  }

  lemma SliceOfSlice(data: seq<byte>, at: nat, end: nat, j: nat, k: nat)
    requires at <= end <= |data| && j <= k <= end - at
    ensures data[at..end][j..k] == data[at + j..at + k]
  {
    var s, t := data[at..end][j..k], data[at + j..at + k];
    forall x | 0 <= x < k - j
      ensures s[x] == t[x]
    {
      assert s[x] == data[at..end][j + x] == data[at + (j + x)];
    }
  }

  /** Numbers are stored least significant byte first. */
  lemma Put32IsLittleEndian(v: uint32)
    ensures
      var s := Put32(v);
      s[0] as int + 256 * s[1] as int + 65536 * s[2] as int + 16777216 * s[3] as int == v
  {
    Get32Put32(v);
  }

  lemma FieldsAt(d: seq<byte>, at: nat, a: Item)
    requires at + SLOT_BYTES <= |d| && d[at..at + SLOT_BYTES] == Slot(a) && |a.title| < TITLE_BYTES
    ensures d[at..at + 4] == Put32(a.id) && d[at + 4] == (if a.completed then 1 else 0)
    ensures d[at + 8..at + 12] == Put32(ToUint32(a.due)) && d[at + 12..at + 16] == Put32(a.repeat)
    ensures d[at + 16..at + 16 + |a.title|] == a.title && d[at + 16 + |a.title|] == 0
  {
    hide Slot, Put32, ToUint32;
    SlotParts(a);
    var n := |a.title|;
    var p := d[at..at + SLOT_BYTES];
    SliceOfSlice(d, at, at + SLOT_BYTES, 0, 4);
    SliceOfSlice(d, at, at + SLOT_BYTES, 8, 12);
    SliceOfSlice(d, at, at + SLOT_BYTES, 12, 16);
    SliceOfSlice(d, at, at + SLOT_BYTES, 16, 16 + n);
    assert p[4] == d[at + 4] && p[16 + n] == d[at + (16 + n)];
  }

  lemma DueFitsWord(a: Item)
    requires ValidItem(a)
    ensures 0 <= a.due < TWO_32 && ToUint32(a.due) == a.due
  {
    hide Utf8.IsTitle;
    CastsExact(a.due);
  }

  /** Where the fields of an item lie in the store. */
  lemma ItemLayout(l: List, i: nat)
    requires ValidList(l) && i < |l.items|
    ensures
      var (d, a, at) := (Wire(l), l.items[i], 24 + 120 * i);
      && 0 <= a.due < TWO_32
      && d[at..at + 4] == Put32(a.id) && d[at + 4] == (if a.completed then 1 else 0)
      && d[at + 8..at + 12] == Put32(a.due) && d[at + 12..at + 16] == Put32(a.repeat)
      && d[at + 16..at + 16 + |a.title|] == a.title && d[at + 16 + |a.title|] == 0
  {
    WireSlots(l, i);
    hide Wire, Slot, Put32, ValidItem, Slots, Header;
    DueFitsWord(l.items[i]);
    ValidTitleIsShort(l.items[i]);
    FieldsAt(Wire(l), 24 + 120 * i, l.items[i]);
  }

  lemma {:induction false} WireUnslots(l: List, n: nat)
    requires ValidList(l) && n <= |l.items|
    ensures Unslots(Wire(l), n) == Some(l.items[..n])
    decreases n
  {
    hide ValidItem, Wire, Unslot, Slot, SlotAt;
    if n > 0 {
      WireUnslots(l, n - 1);
      WireSlots(l, n - 1);
      SlotRoundTrip(l.items[n - 1]);
      assert l.items[..n] == l.items[..n - 1] + [l.items[n - 1]];
    }
  }

  /** Decoding an encoded valid list gives the list. */
  lemma WireRoundTrip(l: List)
    requires ValidList(l)
    ensures Framed(Wire(l)) && Decoded(Wire(l)) == Some(l)
  {
    hide ValidItem, Wire, Put32, Get32, Payload, Crc32.Checksum, Crc32.ChecksumBytes;
    WireHeader(l);
    Get32Put32(1);
    Get32Put32(l.revision);
    Get32Put32(l.nextId);
    WireUnslots(l, |l.items|);
    assert l.items[..|l.items|] == l.items;
  }

  /** Only valid lists come out of a store, and storing one again keeps it. */
  lemma DecodedIsStable(data: seq<byte>)
    ensures Decoded(data).Some? ==>
      ValidList(Decoded(data).value) && Decoded(Wire(Decoded(data).value)) == Decoded(data)
  {
    hide Framed, Unslots, Wire, ValidList;
    if Decoded(data).Some? {
      WireRoundTrip(Decoded(data).value);
    }
  }

  /** Changing at most four neighbouring payload bytes of a well-framed store makes decoding fail. */
  lemma BurstRejected(data: seq<byte>, k: nat, s: seq<byte>)
    requires |data| == WIRE_BYTES && |s| <= 4 && k + |s| <= PAYLOAD_BYTES
    ensures Framed(data) && s != data[k..k + |s|] ==> Decoded(data[..k] + s + data[k + |s|..]) == None
  {
    hide Crc32.Checksum, Crc32.ChecksumBytes, Unslots, Get32;
    var n := k + |s|;
    var changed := data[..k] + s + data[n..];
    var after := data[n..PAYLOAD_BYTES];
    assert changed[..PAYLOAD_BYTES] == data[..k] + s + after;
    assert data[..PAYLOAD_BYTES] == data[..k] + data[k..n] + after;
    assert changed[PAYLOAD_BYTES..] == data[PAYLOAD_BYTES..];
    if Framed(data) && s != data[k..n] {
      Crc32.BurstDetected(data[..k], s, data[k..n], after);
    }
    Crc32.ChecksumBytesInjective(Crc32.Checksum(changed[..PAYLOAD_BYTES]),
                                 Crc32.Checksum(data[..PAYLOAD_BYTES]));
  }

  /** Damage confined to the stored checksum is detected too. */
  lemma DamagedChecksumRejected(data: seq<byte>, s: seq<byte>)
    requires |data| == WIRE_BYTES && |s| == 4
    ensures Framed(data) && s != data[PAYLOAD_BYTES..] ==> Decoded(data[..PAYLOAD_BYTES] + s) == None
  {
    hide Crc32.Checksum, Crc32.ChecksumBytes, Unslots, Get32;
    assert (data[..PAYLOAD_BYTES] + s)[..PAYLOAD_BYTES] == data[..PAYLOAD_BYTES];
  }

  // ---------------------------------------------------------------- the buffers

  /** The bytes of `s` stand at `at`. */
  ghost predicate Holds(b: seq<byte>, at: nat, s: seq<byte>)
  {
    at + |s| <= |b| && forall k :: at <= k < at + |s| ==> b[k] == s[k - at]
  }

  /** Outside the `n` bytes at `at` nothing differs. */
  ghost predicate SameOutside(b: seq<byte>, c: seq<byte>, at: nat, n: nat)
  {
    |b| == |c| && forall k :: 0 <= k < |b| && (k < at || at + n <= k) ==> b[k] == c[k]
  }

  method PutBytes(out: array<byte>, at: nat, s: seq<byte>)
    requires at + |s| <= out.Length
    modifies out
    ensures Holds(out[..], at, s) && SameOutside(out[..], old(out[..]), at, |s|)
  {
    for j := 0 to |s|
      invariant forall k :: at <= k < at + j ==> out[k] == s[k - at]
      invariant forall k :: 0 <= k < at || at + |s| <= k < out.Length ==> out[k] == old(out[..])[k]
    {
      out[at + j] := s[j];
    }
  }

  /** `put32`: least significant byte first. */
  method PutWord(out: array<byte>, at: nat, v: uint32)
    requires at + 4 <= out.Length
    modifies out
    ensures Holds(out[..], at, Put32(v)) && SameOutside(out[..], old(out[..]), at, 4)
  {
    out[at] := v % 256;
    out[at + 1] := v / 256 % 256;
    out[at + 2] := v / 65536 % 256;
    out[at + 3] := v / 16777216;
  }

  lemma SlotFromParts(p: seq<byte>, a: Item)
    requires |p| == SLOT_BYTES && |a.title| < TITLE_BYTES
    requires Holds(p, 0, Put32(a.id)) && p[4] == (if a.completed then 1 else 0)
    requires p[5] == 0 && p[6] == 0 && p[7] == 0
    requires Holds(p, 8, Put32(ToUint32(a.due))) && Holds(p, 12, Put32(a.repeat))
    requires Holds(p, 16, a.title)
    requires forall i :: 16 + |a.title| <= i < SLOT_BYTES ==> p[i] == 0
    ensures p == Slot(a)
  {
    hide Put32, ToUint32;
    var n := 16 + |a.title|;
    assert p[0..4] == Put32(a.id) && p[5..8] == Zeros(3) && p[8..12] == Put32(ToUint32(a.due));
    assert p[12..16] == Put32(a.repeat) && p[16..n] == a.title && p[n..] == Zeros(104 - |a.title|);
    assert p == p[0..4] + [p[4]] + p[5..8] + p[8..12] + p[12..16] + p[16..n] + p[n..];
  }

  /** The body of the encoder's loop, into a cleared slot. */
  method PutSlot(out: array<byte>, at: nat, a: Item)
    requires at + SLOT_BYTES <= out.Length && |a.title| < TITLE_BYTES
    requires Holds(out[..], at, Zeros(SLOT_BYTES))
    modifies out
    ensures Holds(out[..], at, Slot(a)) && SameOutside(out[..], old(out[..]), at, SLOT_BYTES)
  {
    hide Put32, ToUint32, Slot;
    PutWord(out, at, a.id);
    out[at + 4] := if a.completed then 1 else 0;
    PutWord(out, at + 8, ToUint32(a.due));
    PutWord(out, at + 12, a.repeat);
    PutBytes(out, at + 16, a.title);
    ghost var p := out[at..at + SLOT_BYTES];
    forall i | 16 + |a.title| <= i < SLOT_BYTES
      ensures p[i] == 0
    {
      assert out[..][at + i] == 0;
    }
    SlotFromParts(p, a);
  }

  lemma HeaderFromParts(p: seq<byte>, l: List)
    requires |p| == HEADER_BYTES && |l.items| <= CAPACITY
    requires Holds(p, 0, MAGIC) && Holds(p, 4, Put32(1)) && Holds(p, 8, Put32(l.revision))
    requires Holds(p, 12, Put32(l.nextId)) && p[16] == |l.items|
    requires forall k :: 17 <= k < HEADER_BYTES ==> p[k] == 0
    ensures p == Header(l)
  {
    hide Put32;
    assert p[0..4] == MAGIC && p[4..8] == Put32(1) && p[8..12] == Put32(l.revision);
    assert p[12..16] == Put32(l.nextId) && p[17..] == Zeros(7);
    assert p == p[0..4] + p[4..8] + p[8..12] + p[12..16] + [p[16]] + p[17..];
  }

  method PutHeader(out: array<byte>, list: TodoList)
    requires list.Shaped() && out as object != list.items && list.count <= CAPACITY
    requires out.Length == WIRE_BYTES
    modifies out
    ensures Holds(out[..], 0, Header(list.Value()))
    ensures forall k :: HEADER_BYTES <= k < WIRE_BYTES ==> out[k] == 0
  {
    hide Put32, Header;
    PutBytes(out, 0, Zeros(WIRE_BYTES));
    PutBytes(out, 0, MAGIC);
    PutWord(out, 4, 1);
    PutWord(out, 8, list.revision);
    PutWord(out, 12, list.nextId);
    out[16] := list.count;
    HeaderFromParts(out[..HEADER_BYTES], list.Value());
  }

  /** The encoder's loop. */
  method PutSlots(out: array<byte>, list: TodoList)
    requires list.Shaped() && out as object != list.items && list.count <= CAPACITY
    requires ValidList(list.Value()) && out.Length == WIRE_BYTES
    requires forall k :: HEADER_BYTES <= k < WIRE_BYTES ==> out[k] == 0
    modifies out
    ensures out[..HEADER_BYTES] == old(out[..HEADER_BYTES])
    ensures Holds(out[..], HEADER_BYTES, Slots(list.Value().items))
    ensures forall k :: HEADER_BYTES + SLOT_BYTES * list.count <= k < WIRE_BYTES ==> out[k] == 0
  {
    hide ValidItem, Slot;
    ghost var l := list.Value();
    for i := 0 to list.count
      invariant forall k :: 0 <= k < HEADER_BYTES ==> out[k] == old(out[..])[k]
      invariant Holds(out[..], HEADER_BYTES, Slots(l.items[..i]))
      invariant forall k :: HEADER_BYTES + SLOT_BYTES * i <= k < WIRE_BYTES ==> out[k] == 0
    {
      var a := list.items[i];
      assert a == l.items[i];
      ValidTitleIsShort(a);
      PutSlot(out, HEADER_BYTES + SLOT_BYTES * i, a);
      assert l.items[..i + 1][..i] == l.items[..i];
    }
    assert l.items[..list.count] == l.items;
  }

  lemma PayloadFromParts(b: seq<byte>, l: List)
    requires |b| == WIRE_BYTES && |l.items| <= CAPACITY
    requires b[..HEADER_BYTES] == Header(l) && Holds(b, HEADER_BYTES, Slots(l.items))
    requires forall k :: HEADER_BYTES + SLOT_BYTES * |l.items| <= k < WIRE_BYTES ==> b[k] == 0
    ensures b[..PAYLOAD_BYTES] == Payload(l)
  {
    hide Header, Slots;
    var n := HEADER_BYTES + SLOT_BYTES * |l.items|;
    assert b[HEADER_BYTES..n] == Slots(l.items);
    assert b[n..PAYLOAD_BYTES] == Zeros(PAYLOAD_BYTES - n);
    assert b[..PAYLOAD_BYTES] == b[..HEADER_BYTES] + b[HEADER_BYTES..n] + b[n..PAYLOAD_BYTES];
  }

  /** `smart_todo_encode`. */
  method Encode(list: TodoList, out: array<byte>) returns (ok: bool)
    requires list.Shaped() && out as object != list.items
    modifies out
    ensures ok <==> list.count <= CAPACITY && ValidList(list.Value()) && out.Length == WIRE_BYTES
    ensures !ok ==> out[..] == old(out[..])
    ensures ok ==> out[..] == Wire(list.Value())
  {
    hide ValidItem, ValidList, Header, Slots, Payload, Crc32.Checksum, Crc32.ChecksumBytes;
    var valid := list.Valid();
    if !valid || out.Length != WIRE_BYTES {
      return false;
    }
    PutHeader(out, list);
    assert out[..HEADER_BYTES] == Header(list.Value());
    PutSlots(out, list);
    PayloadFromParts(out[..], list.Value());
    var crc := Crc32.Compute(out[..PAYLOAD_BYTES]);
    PutBytes(out, PAYLOAD_BYTES, Crc32.ChecksumBytes(crc));
    assert out[..] == out[..PAYLOAD_BYTES] + out[PAYLOAD_BYTES..];
    return true;
  }

  // ---------------------------------------------------------------- reading a store

  method GetWord(data: seq<byte>, at: nat) returns (v: uint32)
    requires at + 4 <= |data|
    ensures v == Get32(data[at..at + 4])
  {
    assert data[at..at + 4][0] == data[at] && data[at..at + 4][1] == data[at + 1];
    assert data[at..at + 4][2] == data[at + 2] && data[at..at + 4][3] == data[at + 3];
    return data[at] as int + data[at + 1] as int * 256 + data[at + 2] as int * 65536
           + data[at + 3] as int * 16777216;
  }

  /** The decoder's framing checks. */
  method CheckFrame(data: seq<byte>) returns (ok: bool)
    ensures ok == Framed(data)
  {
    hide Get32, Crc32.Checksum, Crc32.ChecksumBytes;
    if |data| != WIRE_BYTES || data[..4] != MAGIC {
      return false;
    }
    var version := GetWord(data, 4);
    if version != 1 {
      return false;
    }
    var crc := Crc32.Compute(data[..PAYLOAD_BYTES]);
    return data[PAYLOAD_BYTES..] == Crc32.ChecksumBytes(crc) && data[16] <= CAPACITY;
  }

  /** The body of the decoder's loop. */
  method GetSlot(data: seq<byte>, i: nat) returns (a: Option<Item>)
    requires |data| == WIRE_BYTES && i < CAPACITY
    ensures a == Unslot(SlotAt(data, i))
  {
    hide Get32;
    var at := HEADER_BYTES + i * SLOT_BYTES;
    ghost var p := SlotAt(data, i);
    SliceOfSlice(data, at, at + SLOT_BYTES, 0, 4);
    SliceOfSlice(data, at, at + SLOT_BYTES, 8, 12);
    SliceOfSlice(data, at, at + SLOT_BYTES, 12, 16);
    SliceOfSlice(data, at, at + SLOT_BYTES, 16, 113);
    assert p[4] == data[at + 4];
    var title := CString(data[at + 16..at + 113]);
    if data[at + 4] > 1 || |title| == TITLE_BYTES {
      return None;
    }
    var id := GetWord(data, at);
    var due := GetWord(data, at + 8);
    var repeat := GetWord(data, at + 12);
    return Some(Item(id, data[at + 4] == 1, title, due, repeat));
  }

  lemma {:induction false} UnslotsFail(data: seq<byte>, i: nat, n: nat)
    requires |data| == WIRE_BYTES && i < n <= CAPACITY && Unslot(SlotAt(data, i)).None?
    ensures Unslots(data, n).None?
    decreases n
  {
    hide Unslot, SlotAt;
    if i < n - 1 {
      UnslotsFail(data, i, n - 1);
    }
  }

  /** The decoder's loop, filling a fresh candidate list. */
  method GetSlots(data: seq<byte>, candidate: TodoList) returns (ok: bool)
    requires |data| == WIRE_BYTES && candidate.Shaped() && candidate.count <= CAPACITY && candidate.Tidy()
    requires forall k :: 0 <= k < CAPACITY ==> candidate.items[k] == ZERO_ITEM
    modifies candidate.items
    ensures ok <==> Unslots(data, candidate.count).Some?
    ensures ok ==> candidate.items[..candidate.count] == Unslots(data, candidate.count).value
    ensures candidate.Tidy()
  {
    hide Unslot, SlotAt;
    var n := candidate.count;
    for i := 0 to n
      invariant Unslots(data, i).Some? && candidate.items[..i] == Unslots(data, i).value
      invariant forall k :: i <= k < CAPACITY ==> candidate.items[k] == ZERO_ITEM
    {
      var a := GetSlot(data, i);
      if a.None? {
        UnslotsFail(data, i, n);
        return false;
      }
      candidate.items[i] := a.value;
    }
    return true;
  }

  /** `smart_todo_decode`: the target takes the decoded list, or is left as it was. */
  method Decode(data: seq<byte>, list: TodoList) returns (ok: bool)
    requires list.Shaped()
    modifies list, list.items
    ensures list.Shaped()
    ensures ok <==> Decoded(data).Some?
    ensures !ok ==> unchanged(list) && unchanged(list.items)
    ensures ok ==> list.count <= CAPACITY && list.Value() == Decoded(data).value
  {
    hide ValidItem, ValidList, Get32, Unslots, Crc32.Checksum, Crc32.ChecksumBytes;
    var framed := CheckFrame(data);
    if !framed {
      return false;
    }
    var candidate := new TodoList();
    candidate.revision := GetWord(data, 8);
    candidate.nextId := GetWord(data, 12);
    candidate.count := data[16];
    var filled := GetSlots(data, candidate);
    if !filled {
      return false;
    }
    var valid := candidate.Valid();
    if !valid {
      return false;
    }
    list.CopyFrom(candidate);
    return true;
  }
}
