/** The TTLV writer: structures are opened with an empty length that is patched when they are closed. */
module KmipWriter {
  import opened Bitwise
  import opened BigEndian
  import opened RequestStr
  import opened Ttlv

  const MAX_POSITIONS := 10

  /** A structure being written: its tag and the items in it so far.  The first frame is the message itself. */
  datatype Frame = Frame(tag: int, items: seq<Item>)

  /** What stands in the buffer while the last structure is open. */
  ghost function Opened(tag: int): (r: seq<byte>)
    ensures |r| == 8
  {
    Header(tag, STRUCTURE, 0)
  }

  /** The buffer for a stack of open structures. */
  ghost function Layout(stack: seq<Frame>): seq<byte> {
    if stack == [] then []
    else
      var n := |stack| - 1;
      Layout(stack[..n]) + (if n == 0 then [] else Opened(stack[n].tag)) + EncodeAll(stack[n].items)
  }

  /** Where the length of the k-th open structure is. */
  ghost function LengthAt(stack: seq<Frame>, k: nat): nat
    requires 0 < k < |stack|
  {
    |Layout(stack[..k])| + 4
  }

  /** The stack with one more item in its last structure. */
  ghost function Added(stack: seq<Frame>, item: Item): (r: seq<Frame>)
    requires stack != []
    ensures |r| == |stack|
  {
    var n := |stack| - 1;
    stack[..n] + [Frame(stack[n].tag, stack[n].items + [item])]
  }

  lemma LayoutAdded(stack: seq<Frame>, item: Item)
    requires stack != []
    ensures Layout(Added(stack, item)) == Layout(stack) + Encode(item)
  {
    hide Encode, EncodeAll, Opened;
    var n := |stack| - 1;
    assert Added(stack, item)[..n] == stack[..n];
    EncodeSnoc(stack[n].items, item);
  }

  lemma LayoutOpened(stack: seq<Frame>, tag: int)
    requires stack != []
    ensures Layout(stack + [Frame(tag, [])]) == Layout(stack) + Opened(tag)
  {
    hide Encode, Opened;
    var longer := stack + [Frame(tag, [])];
    assert longer[..|stack|] == stack;
    assert EncodeAll([]) == [];
  }

  /** Closing: the last structure becomes an item of the one around it. */
  ghost function Closed(stack: seq<Frame>): seq<Frame>
    requires |stack| >= 2
  {
    var n := |stack| - 1;
    Added(stack[..n], Structure(stack[n].tag, stack[n].items))
  }

  /** The buffer after the length has been patched. */
  lemma LayoutClosed(stack: seq<Frame>)
    requires |stack| >= 2
    ensures var n := |stack| - 1;
      var b, at, len := Layout(stack), LengthAt(stack, n), |EncodeAll(stack[n].items)|;
      && len == |b| - at - 4
      && Layout(Closed(stack)) == b[..at] + Bytes(Low(len, 4), 4) + b[at + 4..]
  {
    hide Layout, EncodeAll, Encode, Header, Bytes, Low, Added;
    var n := |stack| - 1;
    var front, top := stack[..n], stack[n];
    var body := EncodeAll(top.items);
    LayoutTop(stack);
    LayoutAdded(front, Structure(top.tag, top.items));
    StructureEncodes(top.tag, top.items);
    HeaderParts(top.tag, 0);
    HeaderParts(top.tag, |body|);
    var tagAndType := [0x42] + Bytes(Low(top.tag, 2), 2) + [STRUCTURE];
    Patch(Layout(front), tagAndType, Bytes(Low(0, 4), 4), Bytes(Low(|body|, 4), 4), body);
  }

  lemma LayoutTop(stack: seq<Frame>)
    requires |stack| >= 2
    ensures var n := |stack| - 1;
      Layout(stack) == Layout(stack[..n]) + Opened(stack[n].tag) + EncodeAll(stack[n].items)
  {
  }

  lemma HeaderParts(tag: int, len: nat)
    ensures Header(tag, STRUCTURE, len) == [0x42] + Bytes(Low(tag, 2), 2) + [STRUCTURE] + Bytes(Low(len, 4), 4)
  {
  }

  lemma StructureEncodes(tag: int, items: seq<Item>)
    ensures Encode(Structure(tag, items)) == Header(tag, STRUCTURE, |EncodeAll(items)|) + EncodeAll(items)
  {
    hide Header;
    var item := Structure(tag, items);
    assert Payload(item) == EncodeAll(items);
    assert Padded(|EncodeAll(items)|) == |EncodeAll(items)|;
    assert Zeros(0) == [];
  }

  lemma Patch(a: seq<byte>, head: seq<byte>, zero: seq<byte>, len: seq<byte>, body: seq<byte>)
    requires |head| == 4 && |zero| == 4 && |len| == 4
    ensures var b := a + (head + zero) + body;
      b[..|a| + 4] + len + b[|a| + 8..] == a + ((head + len) + body)
  {
  }

  class Writer {
    const buffer: RequestStr
    const positions: array<nat>
    var curPos: nat
    ghost var stack: seq<Frame>

    ghost predicate Valid()
      reads this, buffer, buffer.str, positions
    {
      && buffer.Valid() && positions.Length == MAX_POSITIONS
      && 1 <= |stack| <= MAX_POSITIONS && curPos == |stack| - 1
      && buffer.Contents() == Layout(stack)
      && forall k :: 0 < k < |stack| ==> positions[k] == LengthAt(stack, k)
    }

    constructor ()
      ensures Valid() && stack == [Frame(0, [])] && fresh(buffer) && fresh(buffer.str) && fresh(positions)
    {
      buffer := new RequestStr.New();
      positions := new nat[MAX_POSITIONS](_ => 0);
      curPos := 0;
      stack := [Frame(0, [])];
      new;
      assert stack[..0] == [];
      assert Layout(stack) == Layout([]) + [] + EncodeAll([]);
    }

    /** kmip_writer_write_u8, _u16, _u32, _u64 with n = 1, 2, 4, 8. */
    method WriteNumber(v: int, n: nat)
      requires buffer.Valid()
      modifies buffer, buffer.str
      ensures buffer.Valid() && (buffer.str == old(buffer.str) || fresh(buffer.str))
      ensures buffer.Contents() == old(buffer.Contents()) + Bytes(Low(v, n), n)
    {
      buffer.AppendChars(Bytes(Low(v, n), n));
    }

    /** Tag, type and length. */
    method WriteHeader(tag: int, kind: byte, len: nat)
      requires buffer.Valid()
      modifies buffer, buffer.str
      ensures buffer.Valid() && (buffer.str == old(buffer.str) || fresh(buffer.str))
      ensures buffer.Contents() == old(buffer.Contents()) + Header(tag, kind, len)
    {
      hide Low;
      ghost var before := buffer.Contents();
      OneByteIs(0x42);
      OneByteIs(kind);
      hide Bytes;
      WriteNumber(0x42, 1);
      WriteNumber(tag, 2);
      WriteNumber(kind, 1);
      WriteNumber(len, 4);
      assert buffer.Contents() == before + Header(tag, kind, len);
    }

    /** Valid, but for the bytes of one more item at the end. */
    ghost predicate Holds(item: Item)
      reads this, buffer, buffer.str, positions
    {
      && buffer.Valid() && positions.Length == MAX_POSITIONS
      && 1 <= |stack| <= MAX_POSITIONS && curPos == |stack| - 1
      && buffer.Contents() == Layout(stack) + Encode(item)
      && forall k :: 0 < k < |stack| ==> positions[k] == LengthAt(stack, k)
    }

    /** The bytes written make up an item of the innermost structure. */
    ghost method Record(item: Item)
      requires Holds(item)
      modifies this`stack
      ensures Valid() && stack == Added(old(stack), item)
    {
      hide Layout, Encode;
      LayoutAdded(stack, item);
      var n := |stack| - 1;
      var added := Added(stack, item);
      forall k | 0 < k < |stack|
        ensures added[..k] == stack[..k]
      {
      }
      stack := added;
    }

    /** kmip_writer_write_string and kmip_writer_write_bytes after the type: the bytes, then zeros. */
    method WritePadded(str: seq<byte>)
      requires buffer.Valid()
      modifies buffer, buffer.str
      ensures buffer.Valid() && (buffer.str == old(buffer.str) || fresh(buffer.str))
      ensures buffer.Contents() == old(buffer.Contents()) + (str + Zeros(Padded(|str|) - |str|))
    {
      hide Padded;
      ghost var before := buffer.Contents();
      var i: nat := 0;
      while i < |str|
        invariant i <= |str| && buffer.Valid() && (buffer.str == old(buffer.str) || fresh(buffer.str))
        invariant buffer.Contents() == before + str[..i]
      {
        OneByteIs(str[i]);
        WriteNumber(str[i], 1);
        assert str[..i + 1] == str[..i] + [str[i]];
        i := i + 1;
      }
      assert str[..i] == str;
      var paddedLength := Padded(|str|);
      i := 0;
      while i < paddedLength - |str|
        invariant i <= paddedLength - |str| && buffer.Valid() && (buffer.str == old(buffer.str) || fresh(buffer.str))
        invariant buffer.Contents() == before + str + Zeros(i)
      {
        OneByteIs(0);
        WriteNumber(0, 1);
        i := i + 1;
      }
      assert before + str + Zeros(i) == before + (str + Zeros(i));
    }

    method WriteString(tag: int, str: seq<byte>)
      requires Valid()
      modifies this`stack, buffer, buffer.str
      ensures Valid() && (buffer.str == old(buffer.str) || fresh(buffer.str))
      ensures stack == Added(old(stack), TextString(tag, str))
    {
      hide Layout, Encode, Header, Padded, Zeros;
      WriteHeader(tag, TEXT_STRING, |str|);
      WritePadded(str);
      TextEncodes(TextString(tag, str), str);
      Record(TextString(tag, str));
    }

    method WriteBytes(tag: int, str: seq<byte>)
      requires Valid()
      modifies this`stack, buffer, buffer.str
      ensures Valid() && (buffer.str == old(buffer.str) || fresh(buffer.str))
      ensures stack == Added(old(stack), ByteString(tag, str))
    {
      hide Layout, Encode, Header, Padded, Zeros;
      WriteHeader(tag, BYTE_STRING, |str|);
      WritePadded(str);
      TextEncodes(ByteString(tag, str), str);
      Record(ByteString(tag, str));
    }

    method WriteInteger(tag: int, value: int)
      requires Valid()
      modifies this`stack, buffer, buffer.str
      ensures Valid() && (buffer.str == old(buffer.str) || fresh(buffer.str))
      ensures stack == Added(old(stack), Integer(tag, value))
    {
      hide Layout, Encode, Header, Bytes, Low;
      WriteHeader(tag, INTEGER, 4);
      WriteNumber(value, 4);
      WriteNumber(0, 4);
      WordEncodes(Integer(tag, value), value);
      Record(Integer(tag, value));
    }

    /** The value is signed here; it is read back unsigned. */
    method WriteEnumeration(tag: int, value: int)
      requires Valid()
      modifies this`stack, buffer, buffer.str
      ensures Valid() && (buffer.str == old(buffer.str) || fresh(buffer.str))
      ensures stack == Added(old(stack), Enumeration(tag, Low(value, 4)))
    {
      hide Layout, Encode, Header, Bytes, Low;
      WriteHeader(tag, ENUMERATION, 4);
      WriteNumber(value, 4);
      WriteNumber(0, 4);
      LowTwice(value, 4);
      WordEncodes(Enumeration(tag, Low(value, 4)), value);
      Record(Enumeration(tag, Low(value, 4)));
    }

    method WriteLongInteger(tag: int, value: int)
      requires Valid()
      modifies this`stack, buffer, buffer.str
      ensures Valid() && (buffer.str == old(buffer.str) || fresh(buffer.str))
      ensures stack == Added(old(stack), LongInteger(tag, value))
    {
      hide Layout, Encode, Header, Bytes, Low;
      WriteHeader(tag, LONG_INTEGER, 8);
      WriteNumber(value, 8);
      LongEncodes(LongInteger(tag, value), value);
      Record(LongInteger(tag, value));
    }

    method WriteDateTime(tag: int, value: int)
      requires Valid()
      modifies this`stack, buffer, buffer.str
      ensures Valid() && (buffer.str == old(buffer.str) || fresh(buffer.str))
      ensures stack == Added(old(stack), DateTime(tag, value))
    {
      hide Layout, Encode, Header, Bytes, Low;
      WriteHeader(tag, DATE_TIME, 8);
      WriteNumber(value, 8);
      LongEncodes(DateTime(tag, value), value);
      Record(DateTime(tag, value));
    }

    /** How many structures are open. */
    ghost function Open(): int
      reads this`stack
    {
      |stack| - 1
    }

    /** The assertion of kmip_writer_begin_struct. */
    predicate Guard()
      reads this`curPos
    {
      curPos < MAX_POSITIONS
    }

    /** The position is written one behind the index that the assertion looks at: it always holds, but the write is in
        bounds exactly while fewer than nine structures are open. */
    lemma GuardAndBounds()
      requires Valid()
      ensures Guard()
      ensures curPos + 1 < positions.Length <==> Open() < 9
    {
    }

    /** kmip_writer_begin_struct: `inBounds` is false when the assertion passes and the position would go behind the
        array, for a tenth open structure.  The header has been written by then. */
    method BeginStruct(tag: int) returns (inBounds: bool)
      requires Valid()
      modifies this, buffer, buffer.str, positions
      ensures buffer.Valid() && (buffer.str == old(buffer.str) || fresh(buffer.str))
      ensures inBounds <==> old(Open()) < 9
      ensures inBounds ==> Valid() && stack == old(stack) + [Frame(tag, [])]
      ensures !inBounds ==>
        && old(Guard()) && old(curPos) + 1 == positions.Length && stack == old(stack) && curPos == old(curPos)
        && buffer.Contents() == old(buffer.Contents()) + Header(tag, STRUCTURE, 0)
        && positions[..] == old(positions[..])
    {
      hide Layout, Header, Bytes, Low;
      LayoutOpened(stack, tag);
      GuardAndBounds();
      ghost var before := buffer.Contents();
      WriteHeader(tag, STRUCTURE, 0);
      var pos := buffer.len - 4;
      if curPos + 1 >= positions.Length {
        return false;
      }
      curPos := curPos + 1;
      positions[curPos] := pos;
      ghost var longer := stack + [Frame(tag, [])];
      assert longer[..|stack|] == stack;
      forall k | 0 < k < |stack|
        ensures longer[..k] == stack[..k]
      {
      }
      stack := longer;
      inBounds := true;
    }

    /** kmip_writer_close_struct: the length goes where it was left out. */
    method CloseStruct()
      requires Valid() && |stack| > 1
      modifies this, buffer.str
      ensures Valid() && buffer.str == old(buffer.str) && stack == Closed(old(stack))
    {
      hide Layout, EncodeAll, Bytes, Low, Encode;
      LayoutClosed(stack);
      var currentPos := buffer.len;
      var startPos := positions[curPos];
      curPos := curPos - 1;
      var len := currentPos - startPos - 4;
      buffer.Overwrite(startPos, Bytes(Low(len, 4), 4));
      ghost var closed := Closed(stack);
      forall k | 0 < k < |closed|
        ensures closed[..k] == stack[..k]
      {
      }
      stack := closed;
    }

    /** kmip_writer_get_buffer: with no structure open, the bytes are those of the items written. */
    method GetBuffer() returns (bytes: seq<byte>)
      requires Valid() && |stack| == 1
      ensures bytes == EncodeAll(stack[0].items)
    {
      hide EncodeAll;
      bytes := buffer.str[..buffer.len];
      assert Layout(stack[..0]) == [];
    }

    /** Any tree can be written, as long as no more than nine structures are open at once. */
    method WriteItem(item: Item)
      requires Valid() && |stack| + Depth(item) <= MAX_POSITIONS
      requires Fits(item)
      modifies this, buffer, buffer.str, positions
      ensures Valid() && (buffer.str == old(buffer.str) || fresh(buffer.str))
      ensures |old(stack)| > 0 && stack == Added(old(stack), item)
      decreases item, 0
    {
      hide Layout, Low, Valid, Added, Payload, InRange;
      StackSize();
      match item
      case Structure(tag, children) =>
        WriteStructure(tag, children);
      case Integer(tag, value) => WriteInteger(tag, value);
      case LongInteger(tag, value) => WriteLongInteger(tag, value);
      case Enumeration(tag, value) =>
        LowOfSmall(value, 4);
        WriteEnumeration(tag, value);
      case TextString(tag, bytes) => WriteString(tag, bytes);
      case ByteString(tag, bytes) => WriteBytes(tag, bytes);
      case DateTime(tag, value) => WriteDateTime(tag, value);
    }

    method WriteStructure(tag: int, children: seq<Item>)
      requires Valid() && |stack| + 1 + DepthAll(children) <= MAX_POSITIONS && AllFit(children)
      modifies this, buffer, buffer.str, positions
      ensures Valid() && (buffer.str == old(buffer.str) || fresh(buffer.str))
      ensures |old(stack)| > 0 && stack == Added(old(stack), Structure(tag, children))
      decreases children, 2
    {
      hide Layout, Valid, AllFit, DepthAll, Closed, Added, AddedAll;
      StackSize();
      ghost var outer := stack;
      var _ := BeginStruct(tag);
      WriteItems(children);
      ClosedAdds(outer, tag, children);
      CloseStruct();
    }

    lemma StackSize()
      requires Valid()
      ensures 1 <= |stack| <= MAX_POSITIONS
    {
    }

    method WriteItems(items: seq<Item>)
      requires Valid() && |stack| + DepthAll(items) <= MAX_POSITIONS && AllFit(items)
      modifies this, buffer, buffer.str, positions
      ensures Valid() && (buffer.str == old(buffer.str) || fresh(buffer.str))
      ensures |stack| == |old(stack)| > 0 && stack == AddedAll(old(stack), items)
      decreases items, 1
    {
      hide Layout, Fits, Valid, Depth, Added, AddedAll;
      StackSize();
      if items == [] {
        AddedNone(stack);
      } else {
        AddedMore(stack, items[0], items[1..]);
        WriteItem(items[0]);
        WriteItems(items[1..]);
        assert [items[0]] + items[1..] == items;
      }
    }
  }

  /** Nine structures can be open; for the tenth the assertion holds and the position has no place. */
  method OpenTen(tag: int) returns (ninth: bool, tenth: bool)
    ensures ninth && !tenth
  {
    hide Layout;
    var writer := new Writer();
    ninth := true;
    var n := 0;
    while n < 9
      invariant n <= 9 && fresh(writer) && fresh(writer.buffer) && fresh(writer.buffer.str) && fresh(writer.positions)
      invariant writer.Valid() && writer.Open() == n && ninth
    {
      ninth := writer.BeginStruct(tag);
      n := n + 1;
    }
    tenth := writer.BeginStruct(tag);
  }

  ghost function AddedAll(stack: seq<Frame>, items: seq<Item>): seq<Frame>
    requires stack != []
    ensures |AddedAll(stack, items)| == |stack|
  {
    var n := |stack| - 1;
    stack[..n] + [Frame(stack[n].tag, stack[n].items + items)]
  }

  lemma AddedNone(stack: seq<Frame>)
    requires stack != []
    ensures AddedAll(stack, []) == stack
  {
    var n := |stack| - 1;
    assert stack[n].items + [] == stack[n].items;
  }

  lemma AddedMore(stack: seq<Frame>, item: Item, items: seq<Item>)
    requires stack != []
    ensures AddedAll(Added(stack, item), items) == AddedAll(stack, [item] + items)
  {
    var n := |stack| - 1;
    assert stack[n].items + [item] + items == stack[n].items + ([item] + items);
    assert Added(stack, item)[..n] == stack[..n];
  }

  lemma ClosedAdds(outer: seq<Frame>, tag: int, children: seq<Item>)
    requires outer != []
    ensures Closed(AddedAll(outer + [Frame(tag, [])], children)) == Added(outer, Structure(tag, children))
  {
    var n := |outer|;
    assert (outer + [Frame(tag, [])])[..n] == outer;
    assert [] + children == children;
    assert AddedAll(outer + [Frame(tag, [])], children)[..n] == outer;
  }

  // ----- the bytes of single items

  lemma TextEncodes(item: Item, str: seq<byte>)
    requires (item.TextString? || item.ByteString?) && item.bytes == str
    ensures Encode(item) == Header(item.tag, TypeOf(item), |str|) + (str + Zeros(Padded(|str|) - |str|))
  {
    hide Header, Zeros, Padded;
  }

  lemma FourZeros()
    ensures Bytes(Low(0, 4), 4) == Zeros(4)
  {
    assert Low(0, 4) == 0;
    assert Bytes(0, 2) == Bytes(0, 1) + [0] && Bytes(0, 1) == Bytes(0, 0) + [0];
    assert Bytes(0, 4) == Bytes(0, 3) + [0] && Bytes(0, 3) == Bytes(0, 2) + [0];
    assert Zeros(2) == Zeros(1) + [0] && Zeros(4) == Zeros(3) + [0];
  }

  lemma WordEncodes(item: Item, value: int)
    requires (item.Integer? || item.Enumeration?) && Low(item.value, 4) == Low(value, 4)
    ensures Encode(item) == Header(item.tag, TypeOf(item), 4) + Bytes(Low(value, 4), 4) + Bytes(Low(0, 4), 4)
  {
    FourZeros();
    hide Header, Zeros, Bytes, Low;
    assert Payload(item) == Bytes(Low(value, 4), 4);
  }

  lemma LongEncodes(item: Item, value: int)
    requires (item.LongInteger? || item.DateTime?) && item.value == value
    ensures Encode(item) == Header(item.tag, TypeOf(item), 8) + Bytes(Low(value, 8), 8)
  {
    hide Header, Bytes, Low;
    assert Payload(item) == Bytes(Low(value, 8), 8);
    assert Zeros(0) == [];
  }

  lemma LowOfSmall(v: int, n: nat)
    requires 0 <= v < Pow256(n)
    ensures Low(v, n) == v
  {
    hide Pow256;
  }

  lemma LowTwice(v: int, n: nat)
    ensures Low(Low(v, n), n) == Low(v, n)
  {
    LowOfSmall(Low(v, n), n);
  }

  lemma OneByteIs(b: byte)
    ensures Bytes(Low(b, 1), 1) == [b]
  {
    assert Pow256(1) == 256;
    assert Bytes(b, 1) == Bytes(b / 256, 0) + [b % 256];
  }
}
