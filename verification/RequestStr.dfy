/** kms_request_str_t: a growing, NUL-terminated byte buffer. */
module RequestStr {
  import opened Bitwise
  import Growth

  const SLASH: byte := 47

  /** The size kept for n bytes. */
  function Grown(size: nat, n: nat): (r: nat)
    requires n > 0
    ensures r >= n && r >= size
  {
    Growth.SmearCovers(n - 1);
    if size < n then Growth.Smear(n - 1) + 1 else size
  }

  /** The position of the last slash, or -1. */
  function LastSlash(s: seq<byte>): (i: int)
    ensures -1 <= i < |s|
    ensures i >= 0 ==> s[i] == SLASH
    ensures forall k :: i < k < |s| ==> s[k] != SLASH
  {
    if s == [] then -1
    else if s[|s| - 1] == SLASH then |s| - 1
    else LastSlash(s[..|s| - 1])
  }

  /** What delete_last_segment leaves: nothing from the last slash on, but the root of an absolute path. */
  function WithoutLast(s: seq<byte>, isAbsolute: bool): (r: seq<byte>)
    ensures r <= s
  {
    var i := LastSlash(s);
    if i == 0 && isAbsolute then s[..1] else if i >= 0 then s[..i] else []
  }

  /** The end of s and t are the same up to the first zero in t, or all through. */
  ghost predicate SameUpToNul(s: seq<byte>, t: seq<byte>) {
    && |t| <= |s|
    && forall i :: 0 <= i < |t| && (forall k :: 0 <= k < i ==> t[k] != 0) ==> s[|s| - |t| + i] == t[i]
  }

  lemma WithoutNul(s: seq<byte>, t: seq<byte>)
    ensures 0 !in t ==> (SameUpToNul(s, t) <==> |t| <= |s| && s[|s| - |t|..] == t)
  {
    if 0 !in t && |t| <= |s| {
      var end := s[|s| - |t|..];
      assert forall i :: 0 <= i < |t| ==> end[i] == s[|s| - |t| + i];
      assert forall i :: 0 <= i < |t| ==> t[i] != 0;
    }
  }

  lemma LastSlashIs(s: seq<byte>, i: int)
    requires -1 <= i < |s| && (i >= 0 ==> s[i] == SLASH) && forall k :: i < k < |s| ==> s[k] != SLASH
    ensures LastSlash(s) == i
  {
  }

  class RequestStr {
    var str: array<byte>
    var len: nat
    var size: nat

    ghost predicate Valid()
      reads this, str
    {
      len < size == str.Length && str[len] == 0
    }

    /** The bytes in front of the terminator. */
    ghost function Contents(): seq<byte>
      requires Valid()
      reads this, str
    {
      str[..len]
    }

    constructor New()
      ensures Valid() && Contents() == [] && fresh(str)
    {
      str := new byte[16](_ => 0);
      len, size := 0, 16;
    }

    constructor FromChars(chars: seq<byte>)
      ensures Valid() && Contents() == chars && fresh(str)
    {
      var a := new byte[|chars| + 1](i requires i >= 0 => if i < |chars| then chars[i] else 0);
      str := a;
      len, size := |chars|, |chars| + 1;
      new;
      assert str[..len] == chars;
    }

    /** Room for `extra` more bytes and the terminator; the buffer may move. */
    method Reserve(extra: nat)
      requires Valid()
      modifies this
      ensures Valid() && Contents() == old(Contents()) && len == old(len)
      ensures size == Grown(old(size), len + extra + 1)
      ensures str == old(str) || fresh(str)
    {
      var nextSize := len + extra + 1;
      if size < nextSize {
        var grown := Grown(size, nextSize);
        var was := str;
        var moved := new byte[grown];
        forall i | 0 <= i < was.Length {
          moved[i] := was[i];
        }
        str, size := moved, grown;
        assert str[..len] == old(str[..len]);
      }
    }

    method AppendChars(appended: seq<byte>)
      requires Valid()
      modifies this, str
      ensures Valid() && Contents() == old(Contents()) + appended
      ensures str == old(str) || fresh(str)
    {
      Reserve(|appended|);
      ghost var before := str[..len];
      forall i | 0 <= i < |appended| {
        str[len + i] := appended[i];
      }
      assert str[..len] == before;
      len := len + |appended|;
      str[len] := 0;
      assert str[..len] == before + appended;
    }

    method AppendChar(c: byte)
      requires Valid()
      modifies this, str
      ensures Valid() && Contents() == old(Contents()) + [c]
      ensures str == old(str) || fresh(str)
    {
      Reserve(1);
      ghost var before := str[..len];
      str[len] := c;
      len := len + 1;
      str[len] := 0;
      assert str[..len] == before + [c];
    }

    /** memcpy over bytes that are already there. */
    method Overwrite(start: nat, bytes: seq<byte>)
      requires Valid() && start + |bytes| <= len
      modifies str
      ensures Valid()
      ensures Contents() == old(Contents()[..start]) + bytes + old(Contents()[start + |bytes|..])
    {
      ghost var before := str[..len];
      forall i | 0 <= i < |bytes| {
        str[start + i] := bytes[i];
      }
      assert str[..len] == before[..start] + bytes + before[start + |bytes|..];
    }

    /** kms_request_str_ends_with: strncmp looks no further than a zero that both have at the same place. */
    method EndsWith(suffix: RequestStr) returns (r: bool)
      requires Valid() && suffix.Valid()
      ensures r <==> SameUpToNul(Contents(), suffix.Contents())
      ensures 0 !in suffix.Contents() ==>
        (r <==> |suffix.Contents()| <= |Contents()| && Contents()[|Contents()| - |suffix.Contents()|..] == suffix.Contents())
    {
      ghost var s, t := Contents(), suffix.Contents();
      WithoutNul(s, t);
      if len < suffix.len {
        return false;
      }
      var i := 0;
      while i < suffix.len
        invariant 0 <= i <= suffix.len
        invariant forall k :: 0 <= k < i ==> s[|s| - |t| + k] == t[k] != 0
      {
        assert s[|s| - |t| + i] == str[len - suffix.len + i] && t[i] == suffix.str[i];
        if str[len - suffix.len + i] != suffix.str[i] {
          return false;
        }
        if suffix.str[i] == 0 {
          return true;
        }
        i := i + 1;
      }
      r := true;
    }

    /** delete_last_segment: back to the last slash. */
    method DeleteLastSegment(isAbsolute: bool)
      requires Valid()
      modifies this`len, str
      ensures Valid() && Contents() == WithoutLast(old(Contents()), isAbsolute)
    {
      if len == 0 {
        return;
      }
      ghost var before := Contents();
      var i: int := len - 1;
      while i >= 0
        invariant -1 <= i < len && Valid() && Contents() == before && unchanged(str)
        invariant forall k :: i < k < len ==> before[k] != SLASH
      {
        if str[i] == SLASH {
          LastSlashIs(before, i);
          len := if i == 0 && isAbsolute then 1 else i;
          str[len] := 0;
          return;
        }
        i := i - 1;
      }
      LastSlashIs(before, -1);
      len := 0;
      str[len] := 0;
    }
  }
}
