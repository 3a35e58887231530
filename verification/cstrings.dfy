/** C strings: the address reaches the decoders as a NUL-terminated `char`
    buffer, and both decoders start by measuring it with `strlen`. */
module CStrings {
  import opened Numerals

  /** `strlen`: the number of bytes before the first NUL, or the whole
      buffer when it holds none. */
  function StrLen(s: seq<byte>): (n: nat)
    ensures n <= |s|
    ensures forall i :: 0 <= i < n ==> s[i] != 0
    ensures n < |s| ==> s[n] == 0
  {
    if |s| == 0 || s[0] == 0 then 0 else 1 + StrLen(s[1..])
  }

  /** The string a NUL-terminated buffer holds. */
  function CStr(s: seq<byte>): (r: seq<byte>)
    ensures 0 !in r
    ensures r <= s
    ensures |r| == |s| || s[|r|] == 0
  {
    s[..StrLen(s)]
  }

  /** A NUL-free prefix leaves the terminator where it was. */
  lemma StrLenAfterPrefix(p: seq<byte>, s: seq<byte>)
    requires 0 !in p
    ensures StrLen(p + s) == |p| + StrLen(s)
    ensures CStr(p + s) == p + CStr(s)
  {
    var m := |p| + StrLen(s);
    assert forall i :: 0 <= i < m ==> (p + s)[i] != 0 by {
      forall i | 0 <= i < m ensures (p + s)[i] != 0 {
        if i >= |p| {
          assert (p + s)[i] == s[i - |p|];
        }
      }
    }
    if m < |p + s| {
      assert (p + s)[m] == s[StrLen(s)] == 0;
    }
    assert StrLen(p + s) == m;
    assert (p + s)[..m] == p + s[..StrLen(s)];
  }

  /** A buffer with no NUL in it is a string filling the whole buffer. */
  lemma WholeCStr(s: seq<byte>)
    requires 0 !in s
    ensures StrLen(s) == |s|
    ensures CStr(s) == s
  {
    assert s[..|s|] == s;
  }
}
