/** Canonical ordering of combining marks (Unicode Standard section 3.11): the reference and the swap loop. */
module CanonicalOrder {

  /** The canonical combining class of a code point. */
  type Classes = int -> nat

  /** Definition D108: an adjacent pair that has to change places. */
  predicate Reorderable(ccc: Classes, a: int, b: int) {
    ccc(a) > ccc(b) > 0
  }

  ghost predicate Ordered(ccc: Classes, s: seq<int>) {
    forall i :: 0 <= i < |s| - 1 ==> !Reorderable(ccc, s[i], s[i + 1])
  }

  /** Moves c back past every mark of a higher class. */
  function Insert(ccc: Classes, t: seq<int>, c: int): (r: seq<int>)
    ensures |r| == |t| + 1
  {
    if t != [] && Reorderable(ccc, t[|t| - 1], c) then Insert(ccc, t[..|t| - 1], c) + [t[|t| - 1]]
    else t + [c]
  }

  /** The canonically ordered form: a stable insertion sort of every run of marks. */
  function Canonical(ccc: Classes, s: seq<int>): (r: seq<int>)
    ensures |r| == |s|
  {
    if s == [] then [] else Insert(ccc, Canonical(ccc, s[..|s| - 1]), s[|s| - 1])
  }

  lemma CanonicalSnoc(ccc: Classes, s: seq<int>, c: int)
    ensures Canonical(ccc, s + [c]) == Insert(ccc, Canonical(ccc, s), c)
  {
    assert (s + [c])[..|s|] == s;
  }

  // ----- the ordered form is ordered, and nothing else changes

  lemma {:induction false} InsertOrders(ccc: Classes, t: seq<int>, c: int)
    requires Ordered(ccc, t)
    ensures Ordered(ccc, Insert(ccc, t, c))
    ensures Insert(ccc, t, c)[|t|] in {c, if t == [] then c else t[|t| - 1]}
  {
    if t != [] && Reorderable(ccc, t[|t| - 1], c) {
      var m := |t| - 1;
      InsertOrders(ccc, t[..m], c);
      var r := Insert(ccc, t[..m], c);
      if m > 0 {
        assert !Reorderable(ccc, t[m - 1], t[m]);
      }
      assert r[m] in {c, if m == 0 then c else t[m - 1]};
      assert (r + [t[m]])[..|r|] == r;
    }
  }

  lemma {:induction false} CanonicalIsOrdered(ccc: Classes, s: seq<int>)
    ensures Ordered(ccc, Canonical(ccc, s))
  {
    if s != [] {
      CanonicalIsOrdered(ccc, s[..|s| - 1]);
      InsertOrders(ccc, Canonical(ccc, s[..|s| - 1]), s[|s| - 1]);
    }
  }

  lemma {:induction false} OrderedIsCanonical(ccc: Classes, s: seq<int>)
    requires Ordered(ccc, s)
    ensures Canonical(ccc, s) == s
  {
    if s != [] {
      var m := |s| - 1;
      OrderedIsCanonical(ccc, s[..m]);
      if m > 0 {
        assert !Reorderable(ccc, s[m - 1], s[m]);
      }
      assert s[..m] + [s[m]] == s;
    }
  }

  lemma {:induction false} InsertAdds(ccc: Classes, t: seq<int>, c: int)
    ensures multiset(Insert(ccc, t, c)) == multiset(t) + multiset{c}
  {
    if t != [] && Reorderable(ccc, t[|t| - 1], c) {
      InsertAdds(ccc, t[..|t| - 1], c);
      assert t == t[..|t| - 1] + [t[|t| - 1]];
    }
  }

  lemma {:induction false} CanonicalPermutes(ccc: Classes, s: seq<int>)
    ensures multiset(Canonical(ccc, s)) == multiset(s)
  {
    if s != [] {
      hide *;
      var front, last := s[..|s| - 1], s[|s| - 1];
      CanonicalPermutes(ccc, front);
      InsertAdds(ccc, Canonical(ccc, front), last);
      CanonicalSnoc(ccc, front, last);
      assert s == front + [last];
    }
  }

  /** What has been inserted before a starter stays in front of it. */
  lemma {:induction false} InsertStops(ccc: Classes, t: seq<int>, c: int, i: nat)
    requires i < |t| && ccc(t[i]) == 0
    ensures Insert(ccc, t, c)[..i + 1] == t[..i + 1]
  {
    if Reorderable(ccc, t[|t| - 1], c) {
      assert i < |t| - 1;
      InsertStops(ccc, t[..|t| - 1], c, i);
      assert t[..|t| - 1][..i + 1] == t[..i + 1];
    }
  }

  /** A starter keeps its place, and no mark crosses it. */
  lemma {:induction false} StartersStay(ccc: Classes, s: seq<int>, i: nat)
    requires i < |s| && ccc(s[i]) == 0
    ensures Canonical(ccc, s)[i] == s[i] && Canonical(ccc, s)[..i] == Canonical(ccc, s[..i])
  {
    var m := |s| - 1;
    if i < m {
      StartersStay(ccc, s[..m], i);
      assert s[..m][..i] == s[..i];
      var t := Canonical(ccc, s[..m]);
      InsertStops(ccc, t, s[m], i);
      assert Canonical(ccc, s)[..i + 1] == t[..i + 1];
      assert Canonical(ccc, s)[..i] == t[..i + 1][..i];
      assert Canonical(ccc, s)[i] == t[..i + 1][i];
    } else {
      assert Canonical(ccc, s) == Canonical(ccc, s[..i]) + [s[i]];
    }
  }

  /** The code points of one class, in order. */
  function OfClass(ccc: Classes, s: seq<int>, k: nat): seq<int> {
    if s == [] then []
    else OfClass(ccc, s[..|s| - 1], k) + if ccc(s[|s| - 1]) == k then [s[|s| - 1]] else []
  }

  lemma {:induction false} InsertIsStable(ccc: Classes, t: seq<int>, c: int, k: nat)
    ensures OfClass(ccc, Insert(ccc, t, c), k) == OfClass(ccc, t, k) + if ccc(c) == k then [c] else []
  {
    if t != [] && Reorderable(ccc, t[|t| - 1], c) {
      var r := Insert(ccc, t[..|t| - 1], c);
      InsertIsStable(ccc, t[..|t| - 1], c, k);
      assert (r + [t[|t| - 1]])[..|r|] == r;
    } else {
      assert (t + [c])[..|t|] == t;
    }
  }

  /** Marks of one class are never exchanged. */
  lemma {:induction false} CanonicalIsStable(ccc: Classes, s: seq<int>, k: nat)
    ensures OfClass(ccc, Canonical(ccc, s), k) == OfClass(ccc, s, k)
  {
    if s != [] {
      CanonicalIsStable(ccc, s[..|s| - 1], k);
      InsertIsStable(ccc, Canonical(ccc, s[..|s| - 1]), s[|s| - 1], k);
    }
  }

  // ----- canonically equivalent orders

  lemma {:induction false} InsertsCommute(ccc: Classes, t: seq<int>, x: int, y: int)
    requires ccc(x) > ccc(y) > 0
    ensures Insert(ccc, Insert(ccc, t, x), y) == Insert(ccc, Insert(ccc, t, y), x)
  {
    hide Insert;
    if t == [] {
      Appends(ccc, t, x);
      Appends(ccc, t, y);
      PassesLast(ccc, t, x, y);
      assert t + [x] == [x] && t + [y] == [y];
      Appends(ccc, [y], x);
    } else {
      var m := |t| - 1;
      var front, l := t[..m], t[m];
      assert t == front + [l];
      InsertsCommute(ccc, front, x, y);
      if ccc(l) > ccc(x) {
        PassesLast(ccc, front, l, x);
        PassesLast(ccc, front, l, y);
        PassesLast(ccc, Insert(ccc, front, x), l, y);
        PassesLast(ccc, Insert(ccc, front, y), l, x);
      } else {
        Appends(ccc, t, x);
        PassesLast(ccc, t, x, y);
        if ccc(l) > ccc(y) {
          PassesLast(ccc, front, l, y);
        } else {
          Appends(ccc, t, y);
        }
        Appends(ccc, Insert(ccc, t, y), x);
      }
    }
  }

  lemma Appends(ccc: Classes, t: seq<int>, c: int)
    requires t == [] || !Reorderable(ccc, t[|t| - 1], c)
    ensures Insert(ccc, t, c) == t + [c]
  {
  }

  lemma PassesLast(ccc: Classes, t: seq<int>, l: int, c: int)
    requires Reorderable(ccc, l, c)
    ensures Insert(ccc, t + [l], c) == Insert(ccc, t, c) + [l]
  {
    assert (t + [l])[..|t|] == t;
  }

  /** What follows does not tell apart prefixes with the same ordered form. */
  lemma {:induction false} SameAppended(ccc: Classes, a: seq<int>, b: seq<int>, c: seq<int>)
    requires Canonical(ccc, a) == Canonical(ccc, b)
    ensures Canonical(ccc, a + c) == Canonical(ccc, b + c)
  {
    hide Canonical;
    if c == [] {
      assert a + c == a && b + c == b;
    } else {
      var m := |c| - 1;
      SameAppended(ccc, a, b, c[..m]);
      assert a + c == (a + c[..m]) + [c[m]] && b + c == (b + c[..m]) + [c[m]];
      CanonicalSnoc(ccc, a + c[..m], c[m]);
      CanonicalSnoc(ccc, b + c[..m], c[m]);
    }
  }

  /** Two texts that differ by exchanging adjacent marks of different classes have the same ordered form. */
  lemma SwapsAreEquivalent(ccc: Classes, a: seq<int>, x: int, y: int, b: seq<int>)
    requires ccc(x) > 0 && ccc(y) > 0 && ccc(x) != ccc(y)
    ensures Canonical(ccc, a + [x, y] + b) == Canonical(ccc, a + [y, x] + b)
  {
    if ccc(x) > ccc(y) {
      InsertsCommute(ccc, Canonical(ccc, a), x, y);
    } else {
      InsertsCommute(ccc, Canonical(ccc, a), y, x);
    }
    CanonicalSnoc(ccc, a, x);
    CanonicalSnoc(ccc, a + [x], y);
    CanonicalSnoc(ccc, a, y);
    CanonicalSnoc(ccc, a + [y], x);
    assert a + [x, y] == a + [x] + [y] && a + [y, x] == a + [y] + [x];
    SameAppended(ccc, a + [x, y], a + [y, x], b);
  }

  /** A mark may be moved across marks of other classes. */
  lemma {:induction false} MoveAcross(ccc: Classes, a: seq<int>, marks: seq<int>, x: int)
    requires ccc(x) > 0 && forall i :: 0 <= i < |marks| ==> 0 < ccc(marks[i]) != ccc(x)
    ensures Canonical(ccc, a + marks + [x]) == Canonical(ccc, a + [x] + marks)
  {
    hide Canonical;
    if marks == [] {
      assert a + marks + [x] == a + [x] + marks;
    } else {
      var m := |marks| - 1;
      var front, last := marks[..m], marks[m];
      assert ccc(marks[m]) > 0;
      SwapsAreEquivalent(ccc, a + front, last, x, []);
      assert a + marks + [x] == a + front + [last, x] + [];
      MoveAcross(ccc, a, front, x);
      SameAppended(ccc, a + front + [x], a + [x] + front, [last]);
      assert a + front + [x, last] + [] == a + front + [x] + [last];
      assert a + [x] + front + [last] == a + [x] + marks;
    }
  }

  // ----- the loop

  /** How many earlier marks have to come after this one. */
  function Above(ccc: Classes, s: seq<int>, k: nat): nat {
    if s == [] then 0 else Above(ccc, s[..|s| - 1], k) + if ccc(s[|s| - 1]) > k > 0 then 1 else 0
  }

  /** Pairs out of order; every swap of the loop removes one. */
  function Inversions(ccc: Classes, s: seq<int>): nat {
    if s == [] then 0 else Inversions(ccc, s[..|s| - 1]) + Above(ccc, s[..|s| - 1], ccc(s[|s| - 1]))
  }

  lemma InversionsSnoc(ccc: Classes, s: seq<int>, c: int)
    ensures Inversions(ccc, s + [c]) == Inversions(ccc, s) + Above(ccc, s, ccc(c))
  {
    assert (s + [c])[..|s|] == s;
  }

  lemma AboveSnoc(ccc: Classes, s: seq<int>, c: int, k: nat)
    ensures Above(ccc, s + [c], k) == Above(ccc, s, k) + if ccc(c) > k > 0 then 1 else 0
  {
    assert (s + [c])[..|s|] == s;
  }

  lemma {:induction false} SwapRemovesOne(ccc: Classes, a: seq<int>, x: int, y: int, b: seq<int>)
    requires Reorderable(ccc, x, y)
    ensures Inversions(ccc, a + [y, x] + b) == Inversions(ccc, a + [x, y] + b) - 1
    ensures forall k: nat :: Above(ccc, a + [y, x] + b, k) == Above(ccc, a + [x, y] + b, k)
  {
    if b == [] {
      assert a + [x, y] + b == a + [x] + [y] && a + [y, x] + b == a + [y] + [x];
      InversionsSnoc(ccc, a, x);
      InversionsSnoc(ccc, a + [x], y);
      InversionsSnoc(ccc, a, y);
      InversionsSnoc(ccc, a + [y], x);
      forall k: nat
        ensures Above(ccc, a + [y] + [x], k) == Above(ccc, a + [x] + [y], k)
      {
        AboveSnoc(ccc, a, x, k);
        AboveSnoc(ccc, a + [x], y, k);
        AboveSnoc(ccc, a, y, k);
        AboveSnoc(ccc, a + [y], x, k);
      }
      AboveSnoc(ccc, a, x, ccc(y));
      AboveSnoc(ccc, a, y, ccc(x));
    } else {
      var m := |b| - 1;
      SwapRemovesOne(ccc, a, x, y, b[..m]);
      var p, q := a + [x, y] + b[..m], a + [y, x] + b[..m];
      assert a + [x, y] + b == p + [b[m]] && a + [y, x] + b == q + [b[m]];
      InversionsSnoc(ccc, p, b[m]);
      InversionsSnoc(ccc, q, b[m]);
      forall k: nat
        ensures Above(ccc, q + [b[m]], k) == Above(ccc, p + [b[m]], k)
      {
        AboveSnoc(ccc, p, b[m], k);
        AboveSnoc(ccc, q, b[m], k);
      }
    }
  }

  /** Exchange two adjacent code points that are out of order. */
  method Swap(ccc: Classes, buffer: array<int>, pos: nat, wpos: nat)
    requires pos + 1 < wpos <= buffer.Length && Reorderable(ccc, buffer[pos], buffer[pos + 1])
    modifies buffer
    ensures buffer[..pos] == old(buffer[..pos]) && buffer[wpos..] == old(buffer[wpos..])
    ensures buffer[pos] == old(buffer[pos + 1]) && buffer[pos + 1] == old(buffer[pos])
    ensures Canonical(ccc, buffer[..wpos]) == Canonical(ccc, old(buffer[..wpos]))
    ensures Inversions(ccc, buffer[..wpos]) < Inversions(ccc, old(buffer[..wpos]))
  {
    var uc1, uc2 := buffer[pos], buffer[pos + 1];
    ghost var a, b := buffer[..pos], buffer[pos + 2..wpos];
    assert buffer[..wpos] == a + [uc1, uc2] + b;
    SwapsAreEquivalent(ccc, a, uc1, uc2, b);
    SwapRemovesOne(ccc, a, uc1, uc2, b);
    buffer[pos] := uc2;
    buffer[pos + 1] := uc1;
    assert buffer[..wpos] == a + [uc2, uc1] + b;
  }

  /** The ordering loop of utf8proc_decompose_custom. */
  method Order(ccc: Classes, buffer: array<int>, wpos: nat)
    requires wpos <= buffer.Length
    modifies buffer
    ensures buffer[..wpos] == Canonical(ccc, old(buffer[..wpos]))
    ensures buffer[wpos..] == old(buffer[wpos..])
  {
    hide Canonical, Inversions;
    var pos: nat := 0;
    while pos + 1 < wpos
      invariant pos <= wpos && Ordered(ccc, buffer[..if pos < wpos then pos + 1 else wpos])
      invariant Canonical(ccc, buffer[..wpos]) == Canonical(ccc, old(buffer[..wpos]))
      invariant buffer[wpos..] == old(buffer[wpos..])
      decreases Inversions(ccc, buffer[..wpos]), wpos - pos
    {
      if ccc(buffer[pos]) > ccc(buffer[pos + 1]) && ccc(buffer[pos + 1]) > 0 {
        ghost var before := buffer[..pos + 1];
        Swap(ccc, buffer, pos, wpos);
        assert buffer[..pos] == before[..pos];
        pos := if pos > 0 then pos - 1 else pos + 1;
      } else {
        pos := pos + 1;
      }
    }
    OrderedIsCanonical(ccc, buffer[..wpos]);
  }
}
