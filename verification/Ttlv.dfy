/** The tag-type-length-value encoding of KMIP 1.0 section 9.1: what a tree of items looks like in bytes. */
module Ttlv {
  import opened Bitwise
  import opened BigEndian

  /** Items the writer can emit.  Tags carry the prefix 0x42 of the protocol's own tags. */
  datatype Item =
    | Structure(tag: int, children: seq<Item>)
    | Integer(tag: int, value: int)
    | LongInteger(tag: int, value: int)
    | Enumeration(tag: int, value: int)
    | TextString(tag: int, bytes: seq<byte>)
    | ByteString(tag: int, bytes: seq<byte>)
    | DateTime(tag: int, value: int)

  const STRUCTURE: byte := 1
  const INTEGER: byte := 2
  const LONG_INTEGER: byte := 3
  const ENUMERATION: byte := 5
  const TEXT_STRING: byte := 7
  const BYTE_STRING: byte := 8
  const DATE_TIME: byte := 9

  function TypeOf(item: Item): byte {
    match item
    case Structure(_, _) => STRUCTURE
    case Integer(_, _) => INTEGER
    case LongInteger(_, _) => LONG_INTEGER
    case Enumeration(_, _) => ENUMERATION
    case TextString(_, _) => TEXT_STRING
    case ByteString(_, _) => BYTE_STRING
    case DateTime(_, _) => DATE_TIME
  }

  /** compute_padded_length. */
  function Padded(len: nat): (r: nat)
    ensures r % 8 == 0 && len <= r < len + 8
  {
    if len % 8 == 0 then len else len + (8 - len % 8)
  }

  function Zeros(n: nat): (r: seq<byte>)
    ensures |r| == n
  {
    if n == 0 then [] else Zeros(n - 1) + [0]
  }

  /** Tag, type and length in front of a value. */
  function Header(tag: int, kind: byte, len: nat): (r: seq<byte>)
    ensures |r| == 8
  {
    [0x42] + Bytes(Low(tag, 2), 2) + [kind] + Bytes(Low(len, 4), 4)
  }

  /** The value of an item, without padding. */
  function Payload(item: Item): seq<byte>
    decreases item, 0
  {
    match item
    case Structure(_, children) => EncodeAll(children)
    case Integer(_, v) => Bytes(Low(v, 4), 4)
    case LongInteger(_, v) => Bytes(Low(v, 8), 8)
    case Enumeration(_, v) => Bytes(Low(v, 4), 4)
    case TextString(_, b) => b
    case ByteString(_, b) => b
    case DateTime(_, v) => Bytes(Low(v, 8), 8)
  }

  /** The value of an item, padded to a multiple of eight bytes. */
  function Value(item: Item): (r: seq<byte>)
    ensures |r| % 8 == 0 && |r| == Padded(|Payload(item)|)
    decreases item, 1
  {
    var p := Payload(item);
    p + Zeros(Padded(|p|) - |p|)
  }

  function Encode(item: Item): (r: seq<byte>)
    ensures |r| % 8 == 0 && |r| >= 8
    decreases item, 2
  {
    Header(item.tag, TypeOf(item), |Payload(item)|) + Value(item)
  }

  function EncodeAll(items: seq<Item>): (r: seq<byte>)
    ensures |r| % 8 == 0 && |r| >= 8 * |items|
    decreases items, 3
  {
    if items == [] then [] else Encode(items[0]) + EncodeAll(items[1..])
  }

  /** What the format can carry: protocol tags, values in range, lengths below 2^32. */
  predicate Fits(item: Item)
    decreases item, 0
  {
    && 0x42_0000 <= item.tag < 0x43_0000
    && |Payload(item)| < Pow256(4)
    && match item
       case Structure(_, children) => AllFit(children)
       case Integer(_, v) => InRange(v, 4)
       case LongInteger(_, v) => InRange(v, 8)
       case Enumeration(_, v) => 0 <= v < Pow256(4)
       case TextString(_, _) => true
       case ByteString(_, _) => true
       case DateTime(_, v) => InRange(v, 8)
  }

  predicate AllFit(items: seq<Item>)
    decreases items, 1
  {
    items != [] ==> Fits(items[0]) && AllFit(items[1..])
  }

  /** How deep structures are nested. */
  function Depth(item: Item): nat
    decreases item, 0
  {
    if item.Structure? then 1 + DepthAll(item.children) else 0
  }

  function DepthAll(items: seq<Item>): nat
    decreases items, 1
  {
    if items == [] then 0
    else if Depth(items[0]) > DepthAll(items[1..]) then Depth(items[0]) else DepthAll(items[1..])
  }

  lemma {:induction false} EncodeConcat(a: seq<Item>, b: seq<Item>)
    ensures EncodeAll(a + b) == EncodeAll(a) + EncodeAll(b)
    decreases |a|
  {
    hide Encode;
    if a == [] {
      assert a + b == b;
    } else {
      EncodeConcat(a[1..], b);
      assert (a + b)[1..] == a[1..] + b;
    }
  }

  lemma EncodeSnoc(items: seq<Item>, item: Item)
    ensures EncodeAll(items + [item]) == EncodeAll(items) + Encode(item)
  {
    hide Encode;
    EncodeConcat(items, [item]);
    assert [item][1..] == [];
    assert EncodeAll([item]) == Encode(item) + EncodeAll([]);
  }

  /** The length field of a structure is the sum of its children's sizes. */
  function Sizes(items: seq<Item>): nat {
    if items == [] then 0 else Sizes(items[..|items| - 1]) + |Encode(items[|items| - 1])|
  }

  lemma {:induction false} LengthIsSum(items: seq<Item>)
    ensures |EncodeAll(items)| == Sizes(items)
  {
    hide Encode;
    if items != [] {
      var m := |items| - 1;
      LengthIsSum(items[..m]);
      EncodeSnoc(items[..m], items[m]);
      assert items[..m] + [items[m]] == items;
    }
  }

  // ----- the examples of KMIP 1.0, section 9.1.2

  /** One more byte at the end. */
  lemma BytesNext(v: nat, b: byte, n: nat)
    ensures Bytes(0x100 * v + b, n + 1) == Bytes(v, n) + [b]
  {
    assert (0x100 * v + b) / 256 == v && (0x100 * v + b) % 256 == b;
  }

  lemma TwoBytes(a: byte, b: byte)
    ensures Bytes(0x100 * a + b, 2) == [a, b]
  {
    assert Bytes(0, 0) == [];
    BytesNext(0, a, 0);
    BytesNext(a, b, 1);
    hide Bytes;
  }

  lemma FourBytes(a: byte, b: byte, c: byte, d: byte)
    ensures Bytes(0x100 * (0x100 * (0x100 * a + b) + c) + d, 4) == [a, b, c, d]
  {
    hide Bytes;
    TwoBytes(a, b);
    BytesNext(0x100 * a + b, c, 2);
    BytesNext(0x100 * (0x100 * a + b) + c, d, 3);
  }

  lemma EightBytes(high: nat, a: byte, b: byte, c: byte, d: byte)
    ensures Bytes(0x100 * (0x100 * (0x100 * (0x100 * high + a) + b) + c) + d, 8) == Bytes(high, 4) + [a, b, c, d]
  {
    hide Bytes;
    BytesNext(high, a, 4);
    BytesNext(0x100 * high + a, b, 5);
    BytesNext(0x100 * (0x100 * high + a) + b, c, 6);
    BytesNext(0x100 * (0x100 * (0x100 * high + a) + b) + c, d, 7);
  }

  lemma LowSmall(v: nat)
    requires v < 0x1_0000_0000
    ensures Low(v, 4) == v
  {
    Pow256Values();
    hide Pow256;
    SmallMod(v, 0x1_0000_0000);
  }

  lemma LowTag(b: byte)
    ensures Low(0x42_0000 + b, 2) == b
  {
    Pow256Values();
    hide Pow256;
    ModUnique(0x42_0000 + b, 0x1_0000, 0x42, b);
  }

  /** A header with a short length. */
  lemma HeaderIs(b: byte, kind: byte, len: byte)
    ensures Header(0x42_0000 + b, kind, len) == [0x42, 0, b, kind, 0, 0, 0, len]
  {
    LowTag(b);
    LowSmall(len);
    TwoBytes(0, b);
    FourBytes(0, 0, 0, len);
    hide Bytes, Low;
  }

  /** An item is its header, its value and the padding. */
  lemma Parts(item: Item, p: seq<byte>, n: nat)
    requires Payload(item) == p && Padded(|p|) == |p| + n
    ensures Encode(item) == Header(item.tag, TypeOf(item), |p|) + p + Zeros(n)
  {
    hide Header, Payload, Zeros;
  }

  /** The value of anything but a structure, unfolded once. */
  lemma Payloads(tag: int, v: int, b: seq<byte>)
    ensures Payload(Integer(tag, v)) == Payload(Enumeration(tag, v)) == Bytes(Low(v, 4), 4)
    ensures Payload(LongInteger(tag, v)) == Payload(DateTime(tag, v)) == Bytes(Low(v, 8), 8)
    ensures Payload(TextString(tag, b)) == Payload(ByteString(tag, b)) == b
    ensures TypeOf(Integer(tag, v)) == 2 && TypeOf(Enumeration(tag, v)) == 5 && TypeOf(LongInteger(tag, v)) == 3
    ensures TypeOf(DateTime(tag, v)) == 9 && TypeOf(TextString(tag, b)) == 7 && TypeOf(ByteString(tag, b)) == 8
  {
    hide Bytes, Low;
  }

  lemma Paddings()
    ensures Padded(3) == 8 && Padded(4) == 8 && Padded(8) == 8 && Padded(11) == 16
    ensures Zeros(0) == [] && Zeros(4) == [0, 0, 0, 0] && Zeros(5) == [0, 0, 0, 0, 0]
  {
    assert Zeros(0) == [] && Zeros(1) == [0] && Zeros(2) == [0, 0];
  }

  /** A small integer. */
  lemma SmallInteger(b: byte, v: byte)
    ensures Encode(Integer(0x42_0000 + b, v)) == [0x42, 0, b, 2, 0, 0, 0, 4] + [0, 0, 0, v] + [0, 0, 0, 0]
  {
    hide *;
    Payloads(0x42_0000 + b, v, []);
    Paddings();
    HeaderIs(b, 2, 4);
    LowSmall(v);
    FourBytes(0, 0, 0, v);
    Parts(Integer(0x42_0000 + b, v), [0, 0, 0, v], 4);
  }

  /** A small value of an enumeration. */
  lemma SmallEnumeration(b: byte, v: byte)
    ensures Encode(Enumeration(0x42_0000 + b, v)) == [0x42, 0, b, 5, 0, 0, 0, 4] + [0, 0, 0, v] + [0, 0, 0, 0]
  {
    hide *;
    Payloads(0x42_0000 + b, v, []);
    Paddings();
    HeaderIs(b, 5, 4);
    LowSmall(v);
    FourBytes(0, 0, 0, v);
    Parts(Enumeration(0x42_0000 + b, v), [0, 0, 0, v], 4);
  }

  lemma LowLarge(v: nat)
    requires v < 0x1_0000_0000_0000_0000
    ensures Low(v, 8) == v
  {
    Pow256Values();
    hide Pow256;
    SmallMod(v, 0x1_0000_0000_0000_0000);
  }

  lemma LongIntegerExample()
    ensures Encode(LongInteger(0x42_0020, 123456789000000000))
         == [0x42, 0, 0x20, 3, 0, 0, 0, 8] + [0x01, 0xB6, 0x9B, 0x4B, 0xA5, 0x74, 0x92, 0]
  {
    hide *;
    var v, p: seq<byte> := 123456789000000000, [0x01, 0xB6, 0x9B, 0x4B, 0xA5, 0x74, 0x92, 0];
    Payloads(0x42_0020, v, []);
    Paddings();
    HeaderIs(0x20, 3, 8);
    LowLarge(v);
    FourBytes(0x01, 0xB6, 0x9B, 0x4B);
    EightBytes(0x01B6_9B4B, 0xA5, 0x74, 0x92, 0);
    Parts(LongInteger(0x42_0020, v), p, 0);
  }

  /** Friday, March 14, 2008, 11:56:40 GMT. */
  lemma DateTimeExample()
    ensures Encode(DateTime(0x42_0020, 0x47DA_67F8)) == [0x42, 0, 0x20, 9, 0, 0, 0, 8] + [0, 0, 0, 0, 0x47, 0xDA, 0x67, 0xF8]
  {
    hide *;
    var p: seq<byte> := [0, 0, 0, 0, 0x47, 0xDA, 0x67, 0xF8];
    Payloads(0x42_0020, 0x47DA_67F8, []);
    Paddings();
    HeaderIs(0x20, 9, 8);
    LowLarge(0x47DA_67F8);
    FourBytes(0, 0, 0, 0);
    EightBytes(0, 0x47, 0xDA, 0x67, 0xF8);
    Parts(DateTime(0x42_0020, 0x47DA_67F8), p, 0);
  }

  /** The text "Hello World". */
  lemma TextStringExample()
    ensures Encode(TextString(0x42_0020, [0x48, 0x65, 0x6C, 0x6C, 0x6F, 0x20, 0x57, 0x6F, 0x72, 0x6C, 0x64]))
         == [0x42, 0, 0x20, 7, 0, 0, 0, 0x0B] + [0x48, 0x65, 0x6C, 0x6C, 0x6F, 0x20, 0x57, 0x6F, 0x72, 0x6C, 0x64]
          + [0, 0, 0, 0, 0]
  {
    hide *;
    var p: seq<byte> := [0x48, 0x65, 0x6C, 0x6C, 0x6F, 0x20, 0x57, 0x6F, 0x72, 0x6C, 0x64];
    Payloads(0x42_0020, 0, p);
    Paddings();
    HeaderIs(0x20, 7, 11);
    Parts(TextString(0x42_0020, p), p, 5);
  }

  lemma ByteStringExample()
    ensures Encode(ByteString(0x42_0020, [1, 2, 3])) == [0x42, 0, 0x20, 8, 0, 0, 0, 3] + [1, 2, 3] + [0, 0, 0, 0, 0]
  {
    hide *;
    Payloads(0x42_0020, 0, [1, 2, 3]);
    Paddings();
    HeaderIs(0x20, 8, 3);
    Parts(ByteString(0x42_0020, [1, 2, 3]), [1, 2, 3], 5);
  }

  /** A structure with an enumeration and an integer in it. */
  lemma StructureExample()
    ensures Encode(Structure(0x42_0020, [Enumeration(0x42_0004, 254), Integer(0x42_0005, 255)]))
         == [0x42, 0, 0x20, 1, 0, 0, 0, 0x20]
          + ([0x42, 0, 4, 5, 0, 0, 0, 4] + [0, 0, 0, 0xFE] + [0, 0, 0, 0])
          + ([0x42, 0, 5, 2, 0, 0, 0, 4] + [0, 0, 0, 0xFF] + [0, 0, 0, 0])
  {
    hide *;
    var e, i := Enumeration(0x42_0004, 254), Integer(0x42_0005, 255);
    HeaderIs(0x20, 1, 32);
    SmallEnumeration(4, 254);
    SmallInteger(5, 255);
    EncodeSnoc([e], i);
    EncodeSnoc([], e);
    NothingEncoded();
    assert [] + [e] == [e] && [e] + [i] == [e, i];
    assert EncodeAll([e, i]) == Encode(e) + Encode(i);
    StructureIs(0x42_0020, [e, i]);
  }

  lemma NothingEncoded()
    ensures EncodeAll([]) == []
  {
  }

  lemma StructureIs(tag: int, children: seq<Item>)
    ensures Encode(Structure(tag, children)) == Header(tag, 1, |EncodeAll(children)|) + EncodeAll(children)
  {
    hide EncodeAll, Header;
    assert Zeros(0) == [];
  }

  /** The examples of KMIP 1.0, section 9.1.2, for each type of item that is written. */
  lemma Examples()
    ensures Encode(Integer(0x42_0020, 8)) == [0x42, 0, 0x20, 2, 0, 0, 0, 4] + [0, 0, 0, 8] + [0, 0, 0, 0]
    ensures Encode(Enumeration(0x42_0020, 255)) == [0x42, 0, 0x20, 5, 0, 0, 0, 4] + [0, 0, 0, 0xFF] + [0, 0, 0, 0]
    ensures Encode(LongInteger(0x42_0020, 123456789000000000))
         == [0x42, 0, 0x20, 3, 0, 0, 0, 8] + [0x01, 0xB6, 0x9B, 0x4B, 0xA5, 0x74, 0x92, 0]
    ensures Encode(DateTime(0x42_0020, 0x47DA_67F8))
         == [0x42, 0, 0x20, 9, 0, 0, 0, 8] + [0, 0, 0, 0, 0x47, 0xDA, 0x67, 0xF8]
    ensures Encode(ByteString(0x42_0020, [1, 2, 3])) == [0x42, 0, 0x20, 8, 0, 0, 0, 3] + [1, 2, 3] + [0, 0, 0, 0, 0]
  {
    hide *;
    SmallInteger(0x20, 8);
    SmallEnumeration(0x20, 0xFF);
    LongIntegerExample();
    DateTimeExample();
    ByteStringExample();
  }
}
