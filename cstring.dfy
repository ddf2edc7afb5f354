/**
 * The loader's own `strcmp`: walk both zero-terminated strings until the
 * bytes differ or the first string ends, and return the difference of the
 * bytes where it stopped. `char` is signed on the target compiler, so the
 * difference is taken between signed byte values.
 */
module CString {
  import opened MinixLayout

  /** The value of a byte read through a signed `char`. */
  function SChar(b: byte): (c: int)
    ensures -0x80 <= c < 0x80
    ensures c % 0x100 == b
  {
    if b < 0x80 then b else b - 0x100
  }

  /** Position of the terminating zero byte of a C string. */
  function CLen(t: seq<byte>): (n: nat)
    requires 0 in t
    ensures n < |t| && t[n] == 0
    ensures forall j :: 0 <= j < n ==> t[j] != 0
  {
    if t[0] == 0 then 0 else CLen(t[1..]) + 1
  }

  /**
   * `strcmp (s, t)` for a zero-terminated `t`: the loop stops at the first
   * mismatch or at the first zero of `s`, and both happen by the time it
   * reaches the terminator of `t`.
   */
  function CStrCmp(s: seq<byte>, t: seq<byte>): (r: int)
    requires 0 in t && CLen(t) < |s|
    ensures -0xFF <= r <= 0xFF
    ensures s[0] != t[0] ==> r != 0
    decreases |t|
  {
    if s[0] != t[0] then SChar(s[0]) - SChar(t[0])
    else if s[0] == 0 then 0
    else CStrCmp(s[1..], t[1..])
  }

  /** `strcmp` returns 0 exactly when the strings agree up to and including the terminator. */
  lemma {:induction false} StrCmpZeroIff(s: seq<byte>, t: seq<byte>)
    requires 0 in t && CLen(t) < |s|
    ensures CStrCmp(s, t) == 0 <==> s[..CLen(t) + 1] == t[..CLen(t) + 1]
    decreases |t|
  {
    if s[0] != t[0] {
      assert s[..CLen(t) + 1][0] != t[..CLen(t) + 1][0];
    } else if s[0] == 0 {
    } else {
      StrCmpZeroIff(s[1..], t[1..]);
      assert s[..CLen(t) + 1] == [s[0]] + s[1..][..CLen(t[1..]) + 1];
      assert t[..CLen(t) + 1] == [t[0]] + t[1..][..CLen(t[1..]) + 1];
    }
  }

  /**
   * Otherwise it returns the difference of the first pair of bytes that
   * differ, and that pair lies no further than the terminator of `t`.
   */
  lemma {:induction false} StrCmpMismatch(s: seq<byte>, t: seq<byte>) returns (i: nat)
    requires 0 in t && CLen(t) < |s|
    requires CStrCmp(s, t) != 0
    ensures i <= CLen(t) && s[..i] == t[..i] && s[i] != t[i]
    ensures CStrCmp(s, t) == SChar(s[i]) - SChar(t[i])
    decreases |t|
  {
    if s[0] != t[0] {
      i := 0;
    } else {
      var k := StrCmpMismatch(s[1..], t[1..]);
      i := k + 1;
      assert s[..i] == [s[0]] + s[1..][..k];
      assert t[..i] == [t[0]] + t[1..][..k];
    }
  }

  /**
   * The comparison reads no byte of `s` beyond the terminator of `t`: cutting
   * `s` right after that position does not change the result.
   */
  lemma {:induction false} StrCmpReadsPrefix(s: seq<byte>, t: seq<byte>, n: nat)
    requires 0 in t && CLen(t) < n <= |s|
    ensures CStrCmp(s[..n], t) == CStrCmp(s, t)
    decreases |t|
  {
    if s[0] == t[0] && s[0] != 0 {
      assert s[..n][1..] == s[1..][..n - 1];
      StrCmpReadsPrefix(s[1..], t[1..], n - 1);
    }
  }

  /** The pointer-walking loop of `strcmp`, comparing `a[off..]` with `t`. */
  method StrCmp(a: array<byte>, off: nat, t: seq<byte>) returns (r: int)
    requires 0 in t && off + CLen(t) < a.Length
    ensures r == CStrCmp(a[off..], t)
  {
    var i := 0;
    var c1, c2 := a[off], t[0];
    while c1 == c2 && c1 != 0
      invariant i <= CLen(t)
      invariant c1 == a[off + i] && c2 == t[i]
      invariant CStrCmp(a[off..], t) == CStrCmp(a[off + i..], t[i..])
      decreases CLen(t) - i
    {
      assert a[off + i..][1..] == a[off + i + 1..];
      assert t[i..][1..] == t[i + 1..];
      i := i + 1;
      c1, c2 := a[off + i], t[i];
    }
    r := SChar(c1) - SChar(c2);
  }
}
