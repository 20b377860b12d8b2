/** The string helpers of the kernel library that the file system and the formatter
    rely on, as loops over NUL-terminated buffers. */
module CLib {
  import opened Bytes

  method StrLen(s: seq<Byte>) returns (n: nat)
    requires 0 in s
    ensures n == |CString(s)|
  {
    n := 0;
    while s[n] != 0
      invariant n < |s| && 0 in s[n..]
      invariant |CString(s)| == n + |CString(s[n..])|
      decreases |s| - n
    {
      assert s[n..][0] == s[n] && s[n..][1..] == s[n + 1..];
      n := n + 1;
    }
    assert s[n..][0] == 0;
  }

  /** Zero exactly for equal strings, otherwise the difference of the first bytes that
      differ, the terminating NUL included. */
  method StrCmp(a: seq<Byte>, b: seq<Byte>) returns (d: int)
    requires 0 in a && 0 in b
    ensures d == 0 <==> CString(a) == CString(b)
    ensures exists k: nat :: k < |a| && k < |b| && a[..k] == b[..k] && 0 !in a[..k] && d == a[k] as int - b[k] as int
  {
    ghost var m, n := |CString(a)|, |CString(b)|;
    Terminated(a);
    Terminated(b);
    var i := 0;
    while a[i] != 0 && a[i] == b[i]
      invariant i <= m && i <= n
      invariant a[..i] == b[..i]
      decreases m - i
    {
      i := i + 1;
    }
    d := a[i] as int - b[i] as int;
    assert forall k :: 0 <= k < i ==> a[..i][k] == a[k];
    FirstDifference(a, b, i);
  }

  lemma Terminated(s: seq<Byte>)
    requires 0 in s
    ensures |CString(s)| < |s| && s[|CString(s)|] == 0
    ensures forall k :: 0 <= k < |CString(s)| ==> s[k] != 0
  {
    var r := CString(s);
    assert forall k :: 0 <= k < |r| ==> s[k] == r[k];
  }

  lemma {:induction false} FirstDifference(a: seq<Byte>, b: seq<Byte>, k: nat)
    requires k < |a| && k < |b| && a[..k] == b[..k] && 0 !in a[..k]
    requires a[k] == 0 || a[k] != b[k]
    ensures a[k] == b[k] <==> CString(a) == CString(b)
  {
    if k > 0 {
      assert a[0] == a[..k][0] && b[0] == b[..k][0];
      assert a[1..][..k - 1] == a[..k][1..] && b[1..][..k - 1] == b[..k][1..];
      FirstDifference(a[1..], b[1..], k - 1);
      assert CString(a)[1..] == CString(a[1..]) && CString(b)[1..] == CString(b[1..]);
    }
  }

  /** strncpy: the string, then NULs up to n bytes; the rest of dest is untouched. */
  method StrNCpy(dest: array<Byte>, src: seq<Byte>, n: nat)
    requires 0 in src && n <= dest.Length
    modifies dest
    ensures dest[..n] == (CString(src) + Zeros(n))[..n]
    ensures dest[n..] == old(dest[n..])
  {
    var i := 0;
    while i < n && src[i] != 0
      invariant i <= n && i < |src| && i <= |CString(src)|
      invariant dest[..i] == CString(src)[..i]
      invariant dest[n..] == old(dest[n..])
    {
      dest[i] := src[i];
      i := i + 1;
    }
    ghost var m := i;
    assert m < n ==> m == |CString(src)|;
    while i < n
      invariant m <= i <= n
      invariant forall k :: 0 <= k < i ==> dest[k] == (CString(src) + Zeros(n))[k]
      invariant dest[n..] == old(dest[n..])
    {
      dest[i] := 0;
      i := i + 1;
    }
    assert dest[..n] == (CString(src) + Zeros(n))[..n];
  }

  /** memcpy of n bytes of src, from an index on, to an index of dest. */
  method MemCpy(dest: array<Byte>, at: nat, src: seq<Byte>, from: nat, n: nat)
    requires at + n <= dest.Length && from + n <= |src|
    modifies dest
    ensures dest[..] == Patch(old(dest[..]), at, src[from..from + n])
    ensures forall k :: 0 <= k < dest.Length ==>
            dest[k] == if at <= k < at + n then src[from + (k - at)] else old(dest[k])
  {
    var i := 0;
    while i < n
      invariant 0 <= i <= n
      invariant forall k :: 0 <= k < dest.Length ==>
                dest[k] == if at <= k < at + i then src[from + (k - at)] else old(dest[k])
    {
      dest[at + i] := src[from + i];
      i := i + 1;
    }
  }
}
