/** Reading TTLV: the byte-level reader, the recursive walk and the search among siblings. */
module KmipReader {
  import opened Bitwise
  import opened BigEndian
  import opened Ttlv
  import opened Wrappers

  /** What a walk finds: a value, the truth of a Boolean, an item that is stepped over, or what is in a structure. */
  datatype Found =
    | Leaf(item: Item)
    | Truth(tag: int, value: bool)
    | Passed(tag: int, kind: byte)
    | Nested(tag: int, inside: Walked)

  /** How a walk ends: at the end of the data; where there is no tag; at a broken header or an unknown type, with a
      message; or with the use of a value that no read had set, since the walk ignores reads that fail. */
  datatype End = Finished | NoTag | Malformed | Unread

  /** What a walk found, how it ended, and what it left of its data. */
  datatype Walked = Walked(found: seq<Found>, end: End, left: seq<byte>)

  datatype Head = Head(tag: int, kind: byte, len: nat)

  const BIG_INTEGER: byte := 4
  const BOOLEAN: byte := 6
  const INTERVAL: byte := 10

  function HeadOf(d: seq<byte>): Head
    requires |d| >= 8
  {
    Head(0x42_0000 + Number(d[1..3]), d[3], Number(d[4..8]))
  }

  predicate Known(h: Head) {
    STRUCTURE <= h.kind <= INTERVAL
  }

  /** How many bytes have to be left behind a header for its value to be set, when it is not a structure. */
  function Needs(h: Head): nat {
    if h.kind in {TEXT_STRING, BYTE_STRING} then Padded(h.len)
    else if h.kind in {INTEGER, ENUMERATION} then 4
    else if h.kind in {LONG_INTEGER, BOOLEAN, DATE_TIME} then 8
    else 0
  }

  /** The reader of a structure's contents: over its bytes when they are all there; else the one the walk used last, as
      that was left, if there was one. */
  function Inner(h: Head, rest: seq<byte>, last: Option<seq<byte>>): (r: Option<seq<byte>>) {
    if Padded(h.len) <= |rest| then Some(rest[..Padded(h.len)]) else last
  }

  /** How far the walk then moves; a step that does not fit is not made. */
  function Skip(h: Head, left: nat): (n: nat)
    requires Needs(h) <= left
    ensures n <= left
  {
    if h.kind in {TEXT_STRING, BYTE_STRING} then Padded(h.len)
    else if h.kind in {INTEGER, ENUMERATION} then (if left < 8 then 4 else 8)
    else if h.kind in {LONG_INTEGER, BOOLEAN, DATE_TIME} then 8
    else if Low(Padded(h.len), 4) <= left then Low(Padded(h.len), 4)
    else 0
  }

  /** What stands behind the header of anything but a structure. */
  function Content(h: Head, rest: seq<byte>): Found
    requires Needs(h) <= |rest|
  {
    if h.kind == INTEGER then Leaf(Integer(h.tag, Signed(Number(rest[..4]), 4)))
    else if h.kind == ENUMERATION then Leaf(Enumeration(h.tag, Number(rest[..4])))
    else if h.kind == LONG_INTEGER then Leaf(LongInteger(h.tag, Signed(Number(rest[..8]), 8)))
    else if h.kind == DATE_TIME then Leaf(DateTime(h.tag, Signed(Number(rest[..8]), 8)))
    else if h.kind == TEXT_STRING then Leaf(TextString(h.tag, rest[..h.len]))
    else if h.kind == BYTE_STRING then Leaf(ByteString(h.tag, rest[..h.len]))
    else if h.kind == BOOLEAN then Truth(h.tag, Number(rest[..8]) == 1)
    else Passed(h.tag, h.kind)
  }

  function Before(f: Found, rest: Walked): Walked {
    Walked([f] + rest.found, rest.end, rest.left)
  }

  /** What kmip_dump_recursive_xml does with some bytes. */
  function Walk(d: seq<byte>): (w: Walked)
    ensures |w.left| <= |d|
  {
    WalkFrom(d, None, |d|)
  }

  /** The same within one call, `last` being what is left of the structure it looked into last.  Neither the data nor
      that structure with its header is larger than n. */
  function WalkFrom(d: seq<byte>, last: Option<seq<byte>>, n: nat): (w: Walked)
    requires |d| <= n && (last.Some? ==> |last.value| + 8 <= n)
    ensures |w.left| <= |d|
    decreases n, |d|, 0
  {
    if NoHead(d) then Stop(d) else WalkItem(HeadOf(d), d[8..], last, n)
  }

  predicate NoHead(d: seq<byte>) {
    |d| < 8 || d[0] != 0x42
  }

  /** A walk that comes to its end; the bytes of a header that were read are gone. */
  function Stop(d: seq<byte>): (w: Walked)
    requires NoHead(d)
    ensures |w.left| <= |d| && w.end != Unread
  {
    if |d| < 3 || d[0] != 0x42 then Walked([], if d == [] then Finished else NoTag, d[AtMost(1, d)..])
    else Walked([], Malformed, d[AtMost(4, d)..])
  }

  function AtMost(k: nat, d: seq<byte>): (r: nat)
    ensures r <= |d|
  {
    if k <= |d| then k else |d|
  }

  function WalkItem(h: Head, rest: seq<byte>, last: Option<seq<byte>>, n: nat): (w: Walked)
    requires |rest| + 8 <= n && (last.Some? ==> |last.value| + 8 <= n)
    ensures |w.left| <= |rest|
    decreases n, |rest|, 1
  {
    if !Known(h) then Walked([], Malformed, rest)
    else if h.kind == STRUCTURE then
      match Inner(h, rest, last)
      case None => Walked([], Unread, [])
      case Some(sub) =>
        var inside := WalkFrom(sub, None, |sub|);
        if inside.end == Unread then Walked([Nested(h.tag, inside)], Unread, [])
        else Before(Nested(h.tag, inside), WalkFrom(rest[Skip(h, |rest|)..], Some(inside.left), n))
    else if Needs(h) > |rest| then Walked([], Unread, [])
    else Before(Content(h, rest), WalkFrom(rest[Skip(h, |rest|)..], last, n))
  }

  /** A scan over the headers alone: what the walk leaves, or None when it comes to a header whose value is not there -
      and for a structure, when there was none before in the same call that was. */
  function Scan(d: seq<byte>, last: Option<seq<byte>>, n: nat): (left: Option<seq<byte>>)
    requires |d| <= n && (last.Some? ==> |last.value| + 8 <= n)
    ensures left.Some? ==> |left.value| <= |d|
    decreases n, |d|
  {
    if NoHead(d) then Some(Stop(d).left)
    else
      var h, rest := HeadOf(d), d[8..];
      if !Known(h) then Some(rest)
      else if h.kind == STRUCTURE then
        match Inner(h, rest, last)
        case None => None
        case Some(sub) =>
          match Scan(sub, None, |sub|)
          case None => None
          case Some(left) => Scan(rest[Skip(h, |rest|)..], Some(left), n)
      else if Needs(h) > |rest| then None
      else Scan(rest[Skip(h, |rest|)..], last, n)
  }

  /** The walk uses a value that was never set exactly when the scan fails; else both leave the same. */
  lemma {:induction false} ScanIsWalk(d: seq<byte>, last: Option<seq<byte>>, n: nat)
    requires |d| <= n && (last.Some? ==> |last.value| + 8 <= n)
    ensures var w := WalkFrom(d, last, n);
      Scan(d, last, n) == if w.end == Unread then None else Some(w.left)
    decreases n, |d|
  {
    if !NoHead(d) && Known(HeadOf(d)) {
      hide HeadOf, Padded, Skip, Content, Needs;
      var h, rest := HeadOf(d), d[8..];
      if h.kind == STRUCTURE {
        if Inner(h, rest, last).Some? {
          var sub := Inner(h, rest, last).value;
          ScanIsWalk(sub, None, |sub|);
          var inside := WalkFrom(sub, None, |sub|);
          if inside.end != Unread {
            ScanIsWalk(rest[Skip(h, |rest|)..], Some(inside.left), n);
          }
        }
      } else if Needs(h) <= |rest| {
        ScanIsWalk(rest[Skip(h, |rest|)..], last, n);
      }
    }
  }

  lemma UnreadExactly(d: seq<byte>)
    ensures Walk(d).end == Unread <==> Scan(d, None, |d|) == None
  {
    hide WalkFrom, Scan;
    ScanIsWalk(d, None, |d|);
  }

  /** Every value the walk comes to is there. */
  predicate Covered(d: seq<byte>)
    decreases |d|
  {
    if NoHead(d) || !Known(HeadOf(d)) then true
    else
      var h, rest := HeadOf(d), d[8..];
      && Needs(h) <= |rest|
      && (h.kind == STRUCTURE ==> Padded(h.len) <= |rest| && Covered(rest[..Padded(h.len)]))
      && Covered(rest[Skip(h, |rest|)..])
  }

  /** On such data every value used was read from its own bytes. */
  lemma {:induction false} CoveredIsRead(d: seq<byte>, last: Option<seq<byte>>, n: nat)
    requires |d| <= n && (last.Some? ==> |last.value| + 8 <= n) && Covered(d)
    ensures Scan(d, last, n).Some?
    decreases n, |d|
  {
    if !NoHead(d) && Known(HeadOf(d)) {
      hide HeadOf, Padded, Skip, Content, Needs;
      var h, rest := HeadOf(d), d[8..];
      if h.kind == STRUCTURE {
        var sub := rest[..Padded(h.len)];
        CoveredIsRead(sub, None, |sub|);
        CoveredIsRead(rest[Skip(h, |rest|)..], Scan(sub, None, |sub|), n);
      } else {
        CoveredIsRead(rest[Skip(h, |rest|)..], last, n);
      }
    }
  }

  /** An integer whose value is cut short: its bytes are printed although they were never read. */
  lemma CutShort(tag: int)
    requires 0x42_0000 <= tag < 0x43_0000
    ensures Walk(Header(tag, INTEGER, 4)) == Walked([], Unread, [])
  {
    HeaderReads(tag, INTEGER, 4);
    Pow256Values();
    hide Header, HeadOf;
    var d := Header(tag, INTEGER, 4);
    assert d[8..] == [];
    assert WalkFrom(d, None, 8) == WalkItem(Head(tag, INTEGER, 4), [], None, 8);
  }

  /** A structure that does not fit, behind an empty one: the walk goes back to the reader of the first, finds nothing
      left there, and goes on behind the header. */
  lemma OldReader(tag: int)
    requires 0x42_0000 <= tag < 0x43_0000
    ensures var empty := Nested(tag, Walked([], Finished, []));
      Walk(Header(tag, STRUCTURE, 0) + Header(tag, STRUCTURE, 8)) == Walked([empty, empty], Finished, [])
    ensures !Covered(Header(tag, STRUCTURE, 0) + Header(tag, STRUCTURE, 8))
  {
    Pow256Values();
    HeaderReads(tag, STRUCTURE, 0);
    HeaderReads(tag, STRUCTURE, 8);
    PaddedEights();
    hide Header, HeadOf, Padded, Low, Pow256;
    var one, two := Header(tag, STRUCTURE, 0), Header(tag, STRUCTURE, 8);
    var d := one + two;
    HeadInFront(one, two);
    HeadInFront(two, []);
    assert two + [] == two && two[8..] == [] && d[8..] == two;
    assert two[0..] == two && two[..0] == [];
    var empty := Nested(tag, Walked([], Finished, []));
    assert WalkFrom([], None, 0) == Walked([], Finished, []);
    assert WalkFrom([], Some([]), 16) == Walked([], Finished, []);
    var h := Head(tag, STRUCTURE, 8);
    assert Inner(h, [], Some([])) == Some([]) && Skip(h, 0) == 0;
    assert WalkFrom(two, Some([]), 16) == WalkItem(h, [], Some([]), 16) == Walked([empty], Finished, []);
    var h0 := Head(tag, STRUCTURE, 0);
    assert Inner(h0, two, None) == Some([]) && Skip(h0, 8) == 0;
    assert Walk(d) == WalkItem(h0, two, None, 16) == Before(empty, WalkFrom(two, Some([]), 16));
    assert [empty] + [empty] == [empty, empty];
    assert !Covered(two);
  }

  lemma PaddedEights()
    ensures Padded(0) == 0 && Padded(8) == 8 && Low(0, 4) == 0 && Low(8, 4) == 8
  {
  }

  lemma HeadInFront(head: seq<byte>, tail: seq<byte>)
    requires |head| == 8
    ensures HeadOf(head + tail) == HeadOf(head)
  {
    hide Number;
    assert (head + tail)[1..3] == head[1..3] && (head + tail)[4..8] == head[4..8];
  }

  /** A number without its padding at the end of the data is read all the same. */
  lemma WithoutPadding(tag: int, v: int)
    requires 0x42_0000 <= tag < 0x43_0000 && BigEndian.InRange(v, 4)
    ensures Walk(Header(tag, INTEGER, 4) + Bytes(Low(v, 4), 4)) == Walked([Leaf(Integer(tag, v))], Finished, [])
  {
    Pow256Values();
    HeaderReads(tag, INTEGER, 4);
    ReadsBack(v, 4);
    hide Header, HeadOf, Low, Pow256, Number, Bytes, Signed;
    var one, two := Header(tag, INTEGER, 4), Bytes(Low(v, 4), 4);
    HeadInFront(one, two);
    var d, h := one + two, Head(tag, INTEGER, 4);
    assert d[8..] == two && two[..4] == two && two[4..] == [];
    assert Skip(h, 4) == 4;
    assert WalkFrom([], None, 12) == Walked([], Finished, []);
    assert Walk(d) == WalkItem(h, two, None, 12) == Before(Content(h, two), WalkFrom([], None, 12));
  }

  /** There are types 1 to 10 only. */
  lemma UnknownType(tag: int, kind: byte, len: nat, rest: seq<byte>)
    requires 0x42_0000 <= tag < 0x43_0000 && len < Pow256(4) && (kind == 0 || kind > 10)
    ensures Walk(Header(tag, kind, len) + rest) == Walked([], Malformed, rest)
  {
    HeaderReads(tag, kind, len);
    hide Header, HeadOf, Pow256;
    HeadInFront(Header(tag, kind, len), rest);
    var d := Header(tag, kind, len) + rest;
    assert d[8..] == rest;
    assert Walk(d) == WalkItem(Head(tag, kind, len), rest, None, |d|);
  }

  /** The types that are not written: a Boolean is true when its eight bytes are the number 1, and big integers and
      intervals of eight bytes are stepped over. */
  lemma OtherTypes(tag: int, kind: byte, v: nat)
    requires 0x42_0000 <= tag < 0x43_0000 && v < Pow256(8) && kind in {4, 6, 10}
    ensures Walk(Header(tag, kind, 8) + Bytes(v, 8))
         == Walked([if kind == 6 then Truth(tag, v == 1) else Passed(tag, kind)], Finished, [])
  {
    Pow256Values();
    HeaderReads(tag, kind, 8);
    NumberOfBytes(v, 8);
    PaddedEights();
    hide Header, HeadOf, Padded, Low, Pow256, Number, Bytes;
    var one, two := Header(tag, kind, 8), Bytes(v, 8);
    HeadInFront(one, two);
    var d, h := one + two, Head(tag, kind, 8);
    assert d[8..] == two && two[..8] == two && two[8..] == [];
    assert Skip(h, 8) == 8;
    assert WalkFrom([], None, 16) == Walked([], Finished, []);
    assert Walk(d) == WalkItem(h, two, None, 16) == Before(Content(h, two), WalkFrom([], None, 16));
  }

  /** The items of a tree as the walk finds them. */
  function FoundOf(item: Item): Found
    decreases item, 0
  {
    if item.Structure? then Nested(item.tag, Walked(FoundAll(item.children), Finished, [])) else Leaf(item)
  }

  function FoundAll(items: seq<Item>): seq<Found>
    decreases items, 1
  {
    if items == [] then [] else [FoundOf(items[0])] + FoundAll(items[1..])
  }

  /** And back: None when the walk did not find a whole tree of values. */
  function ItemOf(f: Found): Option<Item>
    decreases f, 0
  {
    match f
    case Leaf(item) => if item.Structure? then None else Some(item)
    case Nested(tag, inside) =>
      (match ItemsOf(inside)
       case Some(items) => Some(Structure(tag, items))
       case None => None)
    case Truth(_, _) => None
    case Passed(_, _) => None
  }

  function ItemsOf(w: Walked): Option<seq<Item>>
    decreases w, 2
  {
    if w.end == Finished then AllItems(w.found) else None
  }

  function AllItems(found: seq<Found>): Option<seq<Item>>
    decreases found, 1
  {
    if found == [] then Some([])
    else
      match ItemOf(found[0])
      case None => None
      case Some(item) =>
        match AllItems(found[1..])
        case None => None
        case Some(items) => Some([item] + items)
  }

  lemma {:induction false} ItemsRecovered(items: seq<Item>)
    ensures AllItems(FoundAll(items)) == Some(items)
    decreases items, 1
  {
    if items != [] {
      ItemRecovered(items[0]);
      ItemsRecovered(items[1..]);
      var f := FoundAll(items);
      assert f[0] == FoundOf(items[0]) && f[1..] == FoundAll(items[1..]);
      assert [items[0]] + items[1..] == items;
    }
  }

  lemma {:induction false} ItemRecovered(item: Item)
    ensures ItemOf(FoundOf(item)) == Some(item)
    decreases item, 0
  {
    if item.Structure? {
      ItemsRecovered(item.children);
    }
  }

  // ----- the walk undoes the encoding

  lemma HeaderReads(tag: int, kind: byte, len: nat)
    requires 0x42_0000 <= tag < 0x43_0000 && len < Pow256(4)
    ensures var h := Header(tag, kind, len);
      h[0] == 0x42 && HeadOf(h) == Head(tag, kind, len)
  {
    Pow256Values();
    var t, l := Bytes(Low(tag, 2), 2), Bytes(Low(len, 4), 4);
    NumberOfBytes(Low(tag, 2), 2);
    NumberOfBytes(Low(len, 4), 4);
    var h := Header(tag, kind, len);
    hide Number, Bytes, Pow256;
    assert h[1..3] == t && h[4..8] == l;
    assert Low(tag, 2) == tag - 0x42_0000;
    assert Low(len, 4) == len;
  }

  lemma HeadReads(item: Item, tail: seq<byte>)
    requires Fits(item)
    ensures var d := Encode(item) + tail;
      && |d| >= 8 && d[0] == 0x42 && HeadOf(d) == Head(item.tag, TypeOf(item), |Payload(item)|)
      && d[8..] == Value(item) + tail
  {
    var h := Header(item.tag, TypeOf(item), |Payload(item)|);
    HeaderReads(item.tag, TypeOf(item), |Payload(item)|);
    hide Payload, Value, Header, TypeOf;
    var d := Encode(item) + tail;
    assert d == h + (Value(item) + tail);
    assert d[1..3] == h[1..3] && d[4..8] == h[4..8];
  }

  /** The value of a fixed-size item. */
  lemma ValueStarts(item: Item, tail: seq<byte>)
    ensures var d := Value(item) + tail;
      && |d| >= Padded(|Payload(item)|) && d[..|Payload(item)|] == Payload(item)
      && d[Padded(|Payload(item)|)..] == tail
  {
    hide Payload;
  }

  lemma PaddedFits(len: nat)
    requires len < Pow256(4) && len % 8 == 0
    ensures Padded(len) == len && Low(Padded(len), 4) == len
  {
  }

  /** What is left of the structure looked into last, behind this item. */
  function LastAfter(item: Item, last: Option<seq<byte>>): Option<seq<byte>> {
    if item.Structure? then Some([]) else last
  }

  lemma {:induction false} ItemReads(item: Item, tail: seq<byte>, last: Option<seq<byte>>, n: nat)
    requires Fits(item) && |Encode(item) + tail| <= n && (last.Some? ==> |last.value| + 8 <= n)
    ensures WalkFrom(Encode(item) + tail, last, n) == Before(FoundOf(item), WalkFrom(tail, LastAfter(item, last), n))
    decreases item, 0
  {
    HeadReads(item, tail);
    ValueStarts(item, tail);
    var rest := Value(item) + tail;
    var h := Head(item.tag, TypeOf(item), |Payload(item)|);
    assert WalkFrom(Encode(item) + tail, last, n) == WalkItem(h, rest, last, n);
    hide Encode, Value, WalkFrom, Number, Low, Pow256, HeadOf;
    if item.Structure? {
      WalkBackFrom(item.children, None, |Payload(item)|);
      PaddedFits(|Payload(item)|);
    } else {
      LeafReads(item, h, rest);
    }
  }

  lemma LeafReads(item: Item, h: Head, rest: seq<byte>)
    requires Fits(item) && !item.Structure? && h == Head(item.tag, TypeOf(item), |Payload(item)|)
    requires |rest| >= Padded(|Payload(item)|) && rest[..|Payload(item)|] == Payload(item)
    ensures Known(h) && Needs(h) <= |rest| && Skip(h, |rest|) == Padded(|Payload(item)|) && Content(h, rest) == Leaf(item)
  {
    hide Number, Low, Pow256, Bytes, Signed;
    match item
    case Integer(_, v) => ReadsBack(v, 4);
    case LongInteger(_, v) => ReadsBack(v, 8);
    case Enumeration(_, v) => EnumerationReads(v);
    case TextString(_, _) =>
    case ByteString(_, _) =>
    case DateTime(_, v) => ReadsBack(v, 8);
  }

  lemma EnumerationReads(v: int)
    requires 0 <= v < Pow256(4)
    ensures Number(Bytes(Low(v, 4), 4)) == v
  {
    NumberOfBytes(v, 4);
    hide Pow256, Number, Bytes;
  }

  lemma {:induction false} WalkBackFrom(items: seq<Item>, last: Option<seq<byte>>, n: nat)
    requires AllFit(items) && |EncodeAll(items)| <= n && (last.Some? ==> |last.value| + 8 <= n)
    ensures WalkFrom(EncodeAll(items), last, n) == Walked(FoundAll(items), Finished, [])
    decreases items, 1
  {
    if items != [] {
      hide Encode, Fits;
      ItemReads(items[0], EncodeAll(items[1..]), last, n);
      WalkBackFrom(items[1..], LastAfter(items[0], last), n);
    }
  }

  /** Reading what was written gives the same items, at every level. */
  lemma WalkBack(items: seq<Item>)
    requires AllFit(items)
    ensures Walk(EncodeAll(items)) == Walked(FoundAll(items), Finished, [])
  {
    hide WalkFrom, EncodeAll, FoundAll;
    WalkBackFrom(items, None, |EncodeAll(items)|);
  }

  /** So no two trees have the same bytes. */
  lemma EncodingIsInjective(a: seq<Item>, b: seq<Item>)
    requires AllFit(a) && AllFit(b) && EncodeAll(a) == EncodeAll(b)
    ensures a == b
  {
    hide *;
    WalkBack(a);
    WalkBack(b);
    ItemsRecovered(a);
    ItemsRecovered(b);
  }

  // ----- search among siblings

  datatype Place = Place(pos: nat, len: nat)

  /** Where, from p on, the value of the first sibling with this tag and type starts, and its length. */
  function FindFrom(d: seq<byte>, p: nat, tag: int, kind: byte): Option<Place>
    decreases |d| - p
  {
    if p + 8 > |d| || d[p] != 0x42 then None
    else
      var h := HeadOf(d[p..]);
      var next := p + 8 + Padded(h.len);
      if h.tag == tag && h.kind == kind then Some(Place(p + 8, h.len))
      else if next > |d| then None
      else FindFrom(d, next, tag, kind)
  }

  ghost predicate IsFirst(items: seq<Item>, i: nat, tag: int, kind: byte) {
    && i < |items| && items[i].tag == tag && TypeOf(items[i]) == kind
    && forall j :: 0 <= j < i ==> !(items[j].tag == tag && TypeOf(items[j]) == kind)
  }

  /** The item at one place of an encoding, and what stands around it. */
  lemma AtItem(items: seq<Item>, i: nat)
    requires i < |items| && AllFit(items)
    ensures Fits(items[i])
    ensures var d, p := EncodeAll(items), |EncodeAll(items[..i])|;
      && p + |Encode(items[i])| == |EncodeAll(items[..i + 1])| <= |d|
      && d[p..] == Encode(items[i]) + EncodeAll(items[i + 1..])
  {
    hide Encode, Fits, EncodeAll;
    AllFitAt(items, i);
    assert items == items[..i] + items[i..] && items[i..][1..] == items[i + 1..];
    EncodeConcat(items[..i], items[i..]);
    assert EncodeAll(items[i..]) == Encode(items[i]) + EncodeAll(items[i + 1..]) by { EncodeCons(items[i..]); }
    EncodeSnoc(items[..i], items[i]);
    assert items[..i] + [items[i]] == items[..i + 1];
    hide *;
    var d, a, b, c := EncodeAll(items), EncodeAll(items[..i]), Encode(items[i]), EncodeAll(items[i + 1..]);
    assert d == a + (b + c);
  }

  lemma EncodeCons(items: seq<Item>)
    requires items != []
    ensures EncodeAll(items) == Encode(items[0]) + EncodeAll(items[1..])
  {
  }

  lemma {:induction false} AllFitAt(items: seq<Item>, i: nat)
    requires i < |items| && AllFit(items)
    ensures Fits(items[i])
  {
    hide Fits;
    if i > 0 {
      AllFitAt(items[1..], i - 1);
    }
  }

  lemma FindShort(d: seq<byte>, p: nat, tag: int, kind: byte)
    ensures p <= |d| && !(|d[p..]| >= 8 && d[p..][0] == 0x42) ==> FindFrom(d, p, tag, kind) == None
  {
  }

  lemma FindStep(d: seq<byte>, p: nat, tag: int, kind: byte)
    requires p + 8 <= |d| && d[p] == 0x42
    ensures var h := HeadOf(d[p..]);
      FindFrom(d, p, tag, kind) ==
        if h.tag == tag && h.kind == kind then Some(Place(p + 8, h.len))
        else if p + 8 + Padded(h.len) > |d| then None
        else FindFrom(d, p + 8 + Padded(h.len), tag, kind)
  {
  }

  lemma EncodedSize(item: Item)
    ensures |Encode(item)| == 8 + Padded(|Payload(item)|)
  {
  }

  /** The search skips one sibling without looking into it. */
  lemma SkipsOne(items: seq<Item>, i: nat, tag: int, kind: byte)
    requires i < |items| && AllFit(items)
    ensures var p, next := |EncodeAll(items[..i])|, |EncodeAll(items[..i + 1])|;
      FindFrom(EncodeAll(items), p, tag, kind) ==
        if items[i].tag == tag && TypeOf(items[i]) == kind then Some(Place(p + 8, |Payload(items[i])|))
        else FindFrom(EncodeAll(items), next, tag, kind)
  {
    hide *;
    AtItem(items, i);
    HeadReads(items[i], EncodeAll(items[i + 1..]));
    EncodedSize(items[i]);
    var d, p := EncodeAll(items), |EncodeAll(items[..i])|;
    assert d[p..][0] == d[p];
    FindStep(d, p, tag, kind);
  }

  /** Over well-formed data the search finds the first sibling of that tag and type, exactly when there is one. */
  lemma {:induction false} FindsFirst(items: seq<Item>, i: nat, tag: int, kind: byte)
    requires AllFit(items) && i <= |items|
    requires forall j :: 0 <= j < i ==> !(items[j].tag == tag && TypeOf(items[j]) == kind)
    ensures match FindFrom(EncodeAll(items), |EncodeAll(items[..i])|, tag, kind)
      case Some(at) => exists k: nat :: IsFirst(items, k, tag, kind) && at == Place(|EncodeAll(items[..k])| + 8, |Payload(items[k])|)
      case None => forall j :: 0 <= j < |items| ==> !(items[j].tag == tag && TypeOf(items[j]) == kind)
    decreases |items| - i
  {
    hide EncodeAll, Payload, TypeOf, AllFit;
    if i == |items| {
      assert items[..i] == items;
      FindNothing(EncodeAll(items), tag, kind);
    } else {
      SkipsOne(items, i, tag, kind);
      hide FindFrom;
      if items[i].tag == tag && TypeOf(items[i]) == kind {
        assert IsFirst(items, i, tag, kind);
      } else {
        FindsFirst(items, i + 1, tag, kind);
      }
    }
  }

  lemma FindNothing(d: seq<byte>, tag: int, kind: byte)
    ensures FindFrom(d, |d|, tag, kind) == None
  {
  }

  /** The value found is the item's payload. */
  lemma PlaceHoldsPayload(items: seq<Item>, i: nat)
    requires i < |items| && AllFit(items)
    ensures var d, p := EncodeAll(items), |EncodeAll(items[..i])| + 8;
      && p + |Payload(items[i])| <= p + Padded(|Payload(items[i])|) <= |d|
      && d[p..p + |Payload(items[i])|] == Payload(items[i])
  {
    hide *;
    AtItem(items, i);
    HeadReads(items[i], EncodeAll(items[i + 1..]));
    ValueStarts(items[i], EncodeAll(items[i + 1..]));
    EncodedSize(items[i]);
    var d, p, n := EncodeAll(items), |EncodeAll(items[..i])|, |Payload(items[i])|;
    var r := Padded(n);
    SliceOfSlices(d, p, n);
  }

  lemma SliceOfSlices(d: seq<byte>, p: nat, n: nat)
    requires p + 8 + n <= |d|
    ensures d[p..][8..][..n] == d[p + 8..p + 8 + n]
  {
  }

  /** What a search from the start means for well-formed data. */
  lemma SearchMeans(items: seq<Item>, tag: int, kind: byte)
    requires AllFit(items)
    ensures var d := EncodeAll(items);
      match FindFrom(d, 0, tag, kind)
      case Some(at) => exists k: nat :: IsFirst(items, k, tag, kind) && at.pos + Padded(at.len) <= |d|
                                     && d[at.pos..at.pos + at.len] == Payload(items[k])
      case None => forall j :: 0 <= j < |items| ==> !(items[j].tag == tag && TypeOf(items[j]) == kind)
  {
    hide FindFrom, Payload, TypeOf, Encode, Padded;
    assert items[..0] == [];
    FindsFirst(items, 0, tag, kind);
    var d := EncodeAll(items);
    if FindFrom(d, 0, tag, kind).Some? {
      var at := FindFrom(d, 0, tag, kind).value;
      var k: nat :| IsFirst(items, k, tag, kind) && at == Place(|EncodeAll(items[..k])| + 8, |Payload(items[k])|);
      PlaceHoldsPayload(items, k);
    }
  }

  /** Over well-formed data a search for a structure leads to the encoding of its children. */
  lemma RecursesIntoChildren(items: seq<Item>, tag: int)
    requires AllFit(items)
    ensures var d := EncodeAll(items);
      match FindFrom(d, 0, tag, STRUCTURE)
      case Some(at) => exists k: nat :: IsFirst(items, k, tag, STRUCTURE) && items[k].Structure?
                                     && at.pos + at.len <= |d| && d[at.pos..at.pos + at.len] == EncodeAll(items[k].children)
      case None => forall j :: 0 <= j < |items| ==> !(items[j].tag == tag && items[j].Structure?)
  {
    hide EncodeAll, FindFrom, Padded;
    SearchMeans(items, tag, STRUCTURE);
    var d := EncodeAll(items);
    if FindFrom(d, 0, tag, STRUCTURE).Some? {
      var at := FindFrom(d, 0, tag, STRUCTURE).value;
      var k: nat :| IsFirst(items, k, tag, STRUCTURE) && at.pos + Padded(at.len) <= |d|
                 && d[at.pos..at.pos + at.len] == Payload(items[k]);
      PaddedCovers(at.len);
      assert items[k].Structure?;
    }
  }

  lemma PaddedCovers(n: nat)
    ensures n <= Padded(n)
  {
  }

  /** A lone header that announces a structure of sixteen bytes: what is found does not fit into the data. */
  lemma EscapesParent(tag: int)
    requires 0x42_0000 <= tag < 0x43_0000
    ensures var d := Header(tag, STRUCTURE, 16);
      FindFrom(d, 0, tag, STRUCTURE) == Some(Place(8, 16)) && 8 + 16 > |d|
  {
    Pow256Values();
    HeaderReads(tag, STRUCTURE, 16);
    hide Header, HeadOf;
    var d := Header(tag, STRUCTURE, 16);
    assert d[0..] == d;
    FindStep(d, 0, tag, STRUCTURE);
  }

  // ----- the reader

  class Reader {
    const data: seq<byte>       // the memory that ptr points into
    var base: nat               // ptr
    var pos: nat
    var len: nat

    ghost predicate Valid()
      reads this
    {
      base + len <= |data| && pos <= len
    }

    /** All the bytes of this reader. */
    ghost function All(): seq<byte>
      requires Valid()
      reads this
    {
      data[base..base + len]
    }

    /** The bytes still to be read. */
    ghost function Rest(): seq<byte>
      requires Valid()
      reads this
    {
      data[base + pos..base + len]
    }

    constructor (data: seq<byte>, base: nat, len: nat)
      ensures this.data == data && this.base == base && this.len == len && pos == 0
      ensures base + len <= |data| ==> Valid() && All() == Rest() == data[base..base + len]
    {
      this.data, this.base, this.len, pos := data, base, len, 0;
    }

    /** kmip_reader_read_u8, _u16, _u32, _u64 with n = 1, 2, 4, 8. */
    method ReadNumber(n: nat) returns (ok: bool, value: nat)
      requires Valid()
      modifies this`pos
      ensures Valid() && ok == (n <= |old(Rest())|)
      ensures ok ==> value == Number(old(Rest())[..n]) && Rest() == old(Rest())[n..] && pos == old(pos) + n
      ensures !ok ==> pos == old(pos)
    {
      hide Number;
      value := 0;
      if pos + n > len {
        return false, value;
      }
      value := Number(data[base + pos..base + pos + n]);
      assert Rest()[..n] == data[base + pos..base + pos + n];
      pos := pos + n;
      ok := true;
    }

    /** kmip_reader_read_bytes and _string: the bytes, without their padding. */
    method ReadBytes(length: nat) returns (ok: bool, bytes: seq<byte>)
      requires Valid()
      modifies this`pos
      ensures Valid() && ok == (Padded(length) <= |old(Rest())|)
      ensures ok ==> bytes == old(Rest())[..length] && Rest() == old(Rest())[Padded(length)..]
      ensures ok ==> pos == old(pos) + Padded(length)
      ensures !ok ==> pos == old(pos)
    {
      bytes := [];
      var advance := Padded(length);
      if pos + advance > len {
        return false, bytes;
      }
      bytes := data[base + pos..base + pos + length];
      pos := pos + advance;
      ok := true;
    }

    method ReadTag() returns (ok: bool, tag: int)
      requires Valid()
      modifies this`pos
      ensures Valid() && ok == (|old(Rest())| >= 3 && old(Rest())[0] == 0x42)
      ensures ok ==> tag == 0x42_0000 + Number(old(Rest())[1..3]) && Rest() == old(Rest())[3..] && pos == old(pos) + 3
      ensures !ok ==> Rest() == old(Rest())[AtMost(1, old(Rest()))..]
      ensures pos >= old(pos)
    {
      tag := 0;
      ghost var d := Rest();
      var ok1, first := ReadNumber(1);
      if !ok1 {
        return false, tag;
      }
      OneByte(d);
      if first != 0x42 {
        return false, tag;
      }
      assert |d| >= 3 ==> d[1..][..2] == d[1..3];
      hide Number;
      var ok2, second := ReadNumber(2);
      if !ok2 {
        return false, tag;
      }
      ok, tag := true, 0x42_0000 + second;
    }

    /** Type and length, after the tag. */
    method ReadTypeAndLength() returns (ok: bool, kind: byte, length: nat)
      requires Valid()
      modifies this`pos
      ensures Valid() && ok == (|old(Rest())| >= 5) && pos >= old(pos)
      ensures ok ==> kind == old(Rest())[0] && length == Number(old(Rest())[1..5]) && Rest() == old(Rest())[5..]
      ensures ok ==> pos == old(pos) + 5
      ensures !ok ==> Rest() == old(Rest())[AtMost(1, old(Rest()))..]
    {
      kind, length := 0, 0;
      ghost var d := Rest();
      var ok1, k := ReadNumber(1);
      if !ok1 {
        return false, kind, length;
      }
      OneByte(d);
      kind := k;
      assert |d| >= 5 ==> d[1..][..4] == d[1..5];
      hide Number;
      var ok2, n := ReadNumber(4);
      if !ok2 {
        return false, kind, length;
      }
      ok, length := true, n;
    }

    /** Tag, type and length. */
    method ReadHead() returns (ok: bool, h: Head)
      requires Valid()
      modifies this`pos
      ensures Valid() && ok == (|old(Rest())| >= 8 && old(Rest())[0] == 0x42) && pos >= old(pos)
      ensures ok ==> h == HeadOf(old(Rest())) && Rest() == old(Rest())[8..] && pos == old(pos) + 8
    {
      hide HeadOf;
      h := Head(0, 0, 0);
      ghost var d := Rest();
      var ok1, tag := ReadTag();
      if !ok1 {
        return false, h;
      }
      var ok2, kind, length := ReadTypeAndLength();
      if !ok2 {
        return false, h;
      }
      HeadHere(d, tag, kind, length);
      ok, h := true, Head(tag, kind, length);
    }

    /** kmip_reader_next: the padded length is kept in 32 bits. */
    method Next(length: nat) returns (ok: bool)
      requires Valid()
      modifies this`pos
      ensures Valid() && ok == (Low(Padded(length), 4) <= |old(Rest())|)
      ensures ok ==> Rest() == old(Rest())[Low(Padded(length), 4)..]
      ensures pos >= old(pos) && (!ok ==> pos == old(pos))
    {
      hide Low, Padded;
      var advance := Low(Padded(length), 4);
      if pos + advance > len {
        return false;
      }
      pos := pos + advance;
      ok := true;
    }

    /** kmip_reader_find. */
    method Find(tag: int, kind: byte) returns (ok: bool, at: Place)
      requires Valid()
      modifies this`pos
      ensures Valid()
      ensures FindFrom(All(), 0, tag, kind) == if ok then Some(at) else None
      ensures ok ==> pos == at.pos
    {
      hide HeadOf, Padded, FindFrom;
      at := Place(0, 0);
      pos := 0;
      while pos < len
        invariant Valid() && FindFrom(All(), pos, tag, kind) == FindFrom(All(), 0, tag, kind)
        decreases len - pos
      {
        RestIs();
        FindShort(All(), pos, tag, kind);
        ghost var p := pos;
        var ok1, h := ReadHead();
        if !ok1 {
          return false, at;
        }
        FindStep(All(), p, tag, kind);
        if h.tag == tag && h.kind == kind {
          return true, Place(pos, h.len);
        }
        var advance := Padded(h.len);
        if pos + advance > len {
          return false, at;
        }
        pos := pos + advance;
      }
      FindShort(All(), pos, tag, kind);
      ok := false;
    }

    lemma RestIs()
      requires Valid()
      ensures Rest() == All()[pos..]
    {
    }

    /** kmip_reader_find_and_recurse: the reader becomes one over the structure that was found.  Its length is taken as
        found: the new reader stays inside the old one exactly when the structure does. */
    method FindAndRecurse(tag: int) returns (ok: bool)
      requires Valid()
      modifies this
      ensures match FindFrom(old(All()), 0, tag, STRUCTURE)
        case None => !ok && Valid() && All() == old(All())
        case Some(at) =>
          && ok && base == old(base) + at.pos && len == at.len && pos == 0
          && (Valid() <==> old(base) + at.pos + at.len <= |data|)
          && (at.pos + at.len <= |old(All())| <==> base + len <= old(base + len))
          && (at.pos + at.len <= |old(All())| ==> Valid() && All() == Rest() == old(All())[at.pos..at.pos + at.len])
    {
      hide FindFrom;
      var found, at := Find(tag, STRUCTURE);
      if !found {
        return false;
      }
      SliceInside(data, base, len, at.pos, at.len);
      pos := 0;
      base := base + at.pos;
      len := at.len;
      ok := true;
    }

    /** kmip_reader_in_place: `at` is only checked; the new reader starts where this one stands. */
    method InPlace(at: nat, length: nat) returns (ok: bool, sub: Reader)
      requires Valid()
      ensures ok == (at + Padded(length) <= len) && fresh(sub) && sub.pos == 0
      ensures ok ==> sub.data == data && sub.base == base + pos && sub.len == Padded(length)
      ensures ok && at >= pos ==> sub.Valid() && sub.All() == sub.Rest() == Rest()[..Padded(length)]
    {
      var n := Padded(length);
      if at + n > len {
        sub := new Reader(data, 0, 0);
        return false, sub;
      }
      sub := new Reader(data, base + pos, n);
      ok := true;
    }

    /** kmip_reader_find_and_read_enum. */
    method FindAndReadEnum(tag: int) returns (ok: bool, value: nat)
      requires Valid()
      modifies this`pos
      ensures Valid()
      ensures match FindFrom(All(), 0, tag, ENUMERATION)
        case None => !ok
        case Some(at) =>
          && ok == (at.pos + Padded(at.len) <= |All()| && Padded(at.len) >= 8)
          && (ok ==> value == Number(All()[at.pos..][..4]))
    {
      hide Number, FindFrom, Padded;
      value := 0;
      var found, at := Find(tag, ENUMERATION);
      if !found {
        return false, value;
      }
      RestIs();
      var fits, sub := InPlace(at.pos, at.len);
      if !fits {
        return false, value;
      }
      ghost var r := Rest();
      assert Padded(at.len) >= 4 ==> sub.Rest()[..4] == r[..4];
      ok, value := sub.ReadNumber(4);
      if !ok {
        PaddedBelow8(at.len);
        return;
      }
      var ignored;
      ok, ignored := sub.ReadNumber(4);
    }

    /** kmip_reader_find_and_read_bytes. */
    method FindAndReadBytes(tag: int) returns (ok: bool, bytes: seq<byte>)
      requires Valid()
      modifies this`pos
      ensures Valid()
      ensures match FindFrom(All(), 0, tag, BYTE_STRING)
        case None => !ok
        case Some(at) =>
          && ok == (at.pos + Padded(at.len) <= |All()|)
          && (ok ==> bytes == All()[at.pos..at.pos + at.len])
    {
      hide Number, FindFrom, Padded;
      bytes := [];
      var found, at := Find(tag, BYTE_STRING);
      if !found {
        return false, bytes;
      }
      RestIs();
      ghost var r := Rest();
      var fits, sub := InPlace(at.pos, at.len);
      if !fits {
        return false, bytes;
      }
      ok, bytes := sub.ReadBytes(at.len);
      FrontOf(All(), at.pos, Padded(at.len), at.len);
    }

    /** kmip_dump_recursive_xml without the text.  The reader for what is inside a structure is kept from one to the
        next. */
    method Items(ghost n: nat) returns (w: Walked)
      requires Valid() && |Rest()| <= n
      modifies this`pos
      ensures Valid() && w == WalkFrom(old(Rest()), None, n)
      ensures w.end != Unread ==> Rest() == w.left
      ensures pos >= old(pos) && |Rest()| <= |old(Rest())|
      decreases n, 1
    {
      hide WalkFrom, WalkItem, HeadOf, Stop, NoHead, Rest;
      var found := [];
      var sub: Reader? := null;
      ghost var d0 := Rest();
      PrefixedNone(WalkFrom(d0, None, n));
      NoneLast();
      while true
        invariant Valid() && pos >= old(pos) && |Rest()| <= |old(Rest())|
        invariant sub != null ==> fresh(sub) && sub.Valid() && |sub.Rest()| + 8 <= n
        invariant WalkFrom(d0, None, n) == Prefixed(found, WalkFrom(Rest(), Last(sub), n))
        decreases len - pos
      {
        WalkStep(Rest(), Last(sub), n);
        LastFits(sub, n);
        var go, end, h := NextHead();
        if !go {
          StopsHere(found, end, Rest());
          return Walked(found, end, Remaining());
        }
        var next;
        next, end, sub := One(h, sub, n);
        if end != Finished {
          return Walked(found + next, end, if end == Unread then [] else Remaining());
        }
        PrefixedNext(found, next[0], WalkFrom(Rest(), Last(sub), n));
        found := found + next;
      }
    }

    function Remaining(): (r: seq<byte>)
      requires Valid()
      reads this
      ensures r == Rest()
    {
      data[base + pos..base + len]
    }

    /** The next header, or how the walk ends here. */
    method NextHead() returns (go: bool, end: End, h: Head)
      requires Valid()
      modifies this`pos
      ensures Valid() && pos >= old(pos) && |Rest()| <= |old(Rest())| && go == !NoHead(old(Rest()))
      ensures go ==> h == HeadOf(old(Rest())) && Rest() == old(Rest())[8..] && |Rest()| + 8 == |old(Rest())| && pos > old(pos)
      ensures !go ==> Stop(old(Rest())) == Walked([], end, Rest())
    {
      hide HeadOf, Number;
      h := Head(0, 0, 0);
      ghost var d := Rest();
      var atEnd := pos == len;
      var ok1, tag := ReadTag();
      if !ok1 {
        return false, if atEnd then Finished else NoTag, h;
      }
      var ok2, kind, length := ReadTypeAndLength();
      if !ok2 {
        CutOff(d);
        return false, Malformed, h;
      }
      HeadHere(d, tag, kind, length);
      go, end, h := true, Finished, Head(tag, kind, length);
    }

    static lemma NoneLast()
      ensures Last(null) == None
    {
    }

    static lemma LastFits(sub: Reader?, n: nat)
      requires sub != null ==> sub.Valid() && |sub.Rest()| + 8 <= n
      ensures Last(sub).Some? ==> |Last(sub).value| + 8 <= n
    {
    }

    /** What is left of the structure looked into last. */
    static ghost function Last(sub: Reader?): Option<seq<byte>>
      requires sub != null ==> sub.Valid()
      reads sub
    {
      if sub == null then None else Some(sub.Rest())
    }

    /** One item behind its header; the results of the reads are not looked at. */
    method One(h: Head, sub0: Reader?, ghost n: nat) returns (found: seq<Found>, end: End, sub: Reader?)
      requires Valid() && |Rest()| + 8 <= n
      requires sub0 != null ==> sub0 != this && sub0.Valid() && |sub0.Rest()| + 8 <= n
      modifies this`pos, if sub0 == null then {} else {sub0}
      ensures Valid() && pos >= old(pos) && |Rest()| <= |old(Rest())|
      ensures sub != null ==> (sub == sub0 || fresh(sub)) && sub != this && sub.Valid() && |sub.Rest()| + 8 <= n
      ensures end == Finished ==>
        |found| == 1 && WalkItem(h, old(Rest()), old(Last(sub0)), n) == Before(found[0], WalkFrom(Rest(), Last(sub), n))
      ensures end != Finished ==>
        WalkItem(h, old(Rest()), old(Last(sub0)), n) == Walked(found, end, if end == Unread then [] else Rest())
      decreases n, 0, 1
    {
      hide WalkFrom, Content, Needs, Skip, Padded;
      sub := sub0;
      if h.kind == STRUCTURE {
        found, end, sub := Structured(h, sub0, n);
      } else if Known(h) {
        var ok, f := Leave(h);
        if ok {
          found, end := [f], Finished;
        } else {
          found, end := [], Unread;
        }
      } else {
        found, end := [], Malformed;
      }
    }

    /** A structure: the reader is set anew when its bytes are there, and walked over in any case. */
    method Structured(h: Head, sub0: Reader?, ghost n: nat) returns (found: seq<Found>, end: End, sub: Reader?)
      requires Valid() && |Rest()| + 8 <= n && h.kind == STRUCTURE
      requires sub0 != null ==> sub0 != this && sub0.Valid() && |sub0.Rest()| + 8 <= n
      modifies this`pos, if sub0 == null then {} else {sub0}
      ensures Valid() && pos >= old(pos) && |Rest()| <= |old(Rest())|
      ensures sub != null ==> (sub == sub0 || fresh(sub)) && sub != this && sub.Valid() && |sub.Rest()| + 8 <= n
      ensures end == Finished ==>
        |found| == 1 && WalkItem(h, old(Rest()), old(Last(sub0)), n) == Before(found[0], WalkFrom(Rest(), Last(sub), n))
      ensures end == Unread ==> WalkItem(h, old(Rest()), old(Last(sub0)), n) == Walked(found, Unread, [])
      ensures end == Finished || end == Unread
      decreases n, 0, 0
    {
      hide WalkFrom, WalkItem, Padded, Low;
      var ok;
      ghost var rest := Rest();
      StructureStep(h, rest, Last(sub0), n);
      ok, sub := InPlace(pos, h.len);
      if !ok {
        sub := sub0;
      }
      assert Last(sub) == Inner(h, rest, Last(sub0));
      hide Rest;
      if sub == null {
        return [], Unread, sub;
      }
      var inside := sub.Items(|sub.Rest()|);
      found := [Nested(h.tag, inside)];
      if inside.end == Unread {
        return found, Unread, sub;
      }
      assert Rest() == rest && Last(sub) == Some(inside.left);
      var _ := Next(h.len);
      end := Finished;
    }

    /** The value of anything but a structure. */
    method Leave(h: Head) returns (ok: bool, f: Found)
      requires Valid() && Known(h) && h.kind != STRUCTURE
      modifies this`pos
      ensures Valid() && pos >= old(pos) && ok == (Needs(h) <= |old(Rest())|)
      ensures ok ==> f == Content(h, old(Rest())) && Rest() == old(Rest())[Skip(h, |old(Rest())|)..]
    {
      hide Number, Signed, Padded, Low;
      f := Passed(h.tag, h.kind);
      if h.kind == INTEGER || h.kind == ENUMERATION {
        var v;
        ok, v := ReadNumber(4);
        if ok {
          var _, _ := ReadNumber(4);
        }
        f := Leaf(if h.kind == INTEGER then Integer(h.tag, Signed(v, 4)) else Enumeration(h.tag, v));
      } else if h.kind == LONG_INTEGER || h.kind == DATE_TIME || h.kind == BOOLEAN {
        var v;
        ok, v := ReadNumber(8);
        f := if h.kind == LONG_INTEGER then Leaf(LongInteger(h.tag, Signed(v, 8)))
             else if h.kind == DATE_TIME then Leaf(DateTime(h.tag, Signed(v, 8)))
             else Truth(h.tag, v == 1);
      } else if h.kind == TEXT_STRING || h.kind == BYTE_STRING {
        var b;
        ok, b := ReadBytes(h.len);
        f := Leaf(if h.kind == TEXT_STRING then TextString(h.tag, b) else ByteString(h.tag, b));
      } else {
        var _ := Next(h.len);
        ok := true;
      }
    }
  }

  lemma FrontOf(d: seq<byte>, p: nat, m: nat, n: nat)
    requires n <= m && p + m <= |d|
    ensures d[p..][..m][..n] == d[p..p + n]
  {
  }

  lemma SliceInside(data: seq<byte>, base: nat, len: nat, p: nat, n: nat)
    requires base + len <= |data|
    ensures p + n <= len ==> data[base..base + len][p..p + n] == data[base + p..base + p + n]
  {
    if p + n <= len {
      var a, b := data[base..base + len][p..p + n], data[base + p..base + p + n];
      assert forall k :: 0 <= k < n ==> a[k] == data[base + p + k] == b[k];
      assert a == b;
    }
  }

  lemma PaddedBelow8(n: nat)
    requires Padded(n) < 4
    ensures Padded(n) < 8
  {
  }

  lemma LowBelow(n: nat)
    ensures Low(n, 4) <= n
  {
  }

  /** What was found so far in front of what is still to come. */
  function Prefixed(found: seq<Found>, rest: Walked): Walked {
    Walked(found + rest.found, rest.end, rest.left)
  }

  lemma PrefixedNone(w: Walked)
    ensures Prefixed([], w) == w
  {
    assert [] + w.found == w.found;
  }

  lemma PrefixedNext(found: seq<Found>, f: Found, rest: Walked)
    ensures Prefixed(found, Before(f, rest)) == Prefixed(found + [f], rest)
  {
    assert found + ([f] + rest.found) == found + [f] + rest.found;
  }

  lemma StructureStep(h: Head, rest: seq<byte>, last: Option<seq<byte>>, n: nat)
    requires h.kind == STRUCTURE && |rest| + 8 <= n && (last.Some? ==> |last.value| + 8 <= n)
    ensures WalkItem(h, rest, last, n) ==
      match Inner(h, rest, last)
      case None => Walked([], Unread, [])
      case Some(sub) =>
        var inside := WalkFrom(sub, None, |sub|);
        if inside.end == Unread then Walked([Nested(h.tag, inside)], Unread, [])
        else Before(Nested(h.tag, inside), WalkFrom(rest[Skip(h, |rest|)..], Some(inside.left), n))
  {
    hide WalkFrom;
  }

  lemma WalkStep(d: seq<byte>, last: Option<seq<byte>>, n: nat)
    requires |d| <= n && (last.Some? ==> |last.value| + 8 <= n)
    ensures !NoHead(d) ==> |d| >= 8
    ensures WalkFrom(d, last, n) == if NoHead(d) then Stop(d) else WalkItem(HeadOf(d), d[8..], last, n)
  {
  }

  lemma StopsHere(found: seq<Found>, end: End, left: seq<byte>)
    ensures Prefixed(found, Walked([], end, left)) == Walked(found, end, left)
  {
    assert found + [] == found;
  }

  /** A header cut off behind its tag or its type. */
  lemma CutOff(d: seq<byte>)
    requires 3 <= |d| < 8
    ensures d[3..][AtMost(1, d[3..])..] == d[AtMost(4, d)..]
  {
  }

  lemma OneByte(d: seq<byte>)
    requires |d| >= 1
    ensures Number(d[..1]) == d[0]
  {
    assert d[..1][..0] == [];
    assert Number(d[..1]) == Number(d[..1][..0]) * 256 + d[0];
  }

  /** What the reading steps saw is the head of the bytes there. */
  lemma HeadHere(d: seq<byte>, tag: int, kind: byte, length: nat)
    requires |d| >= 8 && tag == 0x42_0000 + Number(d[1..3])
    requires kind == d[3..][0] && length == Number(d[3..][1..5])
    ensures HeadOf(d) == Head(tag, kind, length)
  {
    hide Number;
    assert d[3..][1..5] == d[4..8];
  }
}
