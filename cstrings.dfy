/** NUL-terminated byte buffers, and the C library calls the console makes on
    them: strncpy, memset, strlen, strcasecmp and snprintf. */
module CStrings {

  newtype byte = x: int | 0 <= x < 256

  /** The bytes of a string literal written in 8-bit characters (each
      character is taken modulo 256). */
  function Bytes(s: string): seq<byte>
  {
    seq(|s|, i requires 0 <= i < |s| => (s[i] as int % 256) as byte)
  }

  /** n NUL bytes. */
  function Zeros(n: nat): seq<byte>
  {
    seq(n, _ => 0)
  }

  /** The C string a buffer holds: its bytes up to the first NUL, or the whole
      buffer when it holds no NUL (the bytes strlen counts and a write of the
      buffer as a string sends). */
  function CStr(s: seq<byte>): (r: seq<byte>)
    ensures |r| <= |s| && r == s[..|r|]
    ensures 0 !in r
    ensures |r| < |s| ==> s[|r|] == 0
  {
    if s == [] || s[0] == 0 then [] else [s[0]] + CStr(s[1..])
  }

  /** A buffer that holds one C string and nothing but NULs after it. */
  ghost predicate Padded(buf: seq<byte>)
  {
    forall k :: |CStr(buf)| <= k < |buf| ==> buf[k] == 0
  }

  /** The first n bytes of s form the C string of s exactly when they hold no
      NUL and are followed by a NUL or by the end of s. */
  lemma CStrIs(s: seq<byte>, n: nat)
    requires n <= |s| && 0 !in s[..n]
    requires n == |s| || s[n] == 0
    ensures CStr(s) == s[..n]
  {
  }

  /** Cutting a buffer anywhere after its C string leaves the C string alone. */
  lemma CStrTruncate(s: seq<byte>, n: nat)
    requires |CStr(s)| <= n <= |s|
    ensures CStr(s[..n]) == CStr(s)
  {
    var m := |CStr(s)|;
    assert s[..n][..m] == CStr(s);
    CStrIs(s[..n], m);
  }

  /** The contents of dst after strncpy(dst, src, n): the C string held by the
      first n bytes of src, padded with NULs to n bytes; dst beyond n is left
      as it was. */
  function StrNCpy(dst: seq<byte>, src: seq<byte>, n: nat): (r: seq<byte>)
    requires n <= |dst| && n <= |src|
    ensures |r| == |dst|
    ensures forall k :: 0 <= k < n ==> r[k] == if k < |CStr(src[..n])| then src[k] else 0
    ensures forall k :: n <= k < |dst| ==> r[k] == dst[k]
  {
    var t := CStr(src[..n]);
    t + Zeros(n - |t|) + dst[n..]
  }

  /** A buffer that agrees with strncpy on its first n bytes and is NUL from n
      on holds the copied C string, padded. */
  lemma PaddedCopy(r: seq<byte>, src: seq<byte>, n: nat)
    requires n <= |src| && n <= |r|
    requires forall k :: 0 <= k < n ==> r[k] == if k < |CStr(src[..n])| then src[k] else 0
    requires forall k :: n <= k < |r| ==> r[k] == 0
    ensures CStr(r) == CStr(src[..n]) && Padded(r)
  {
    var t := CStr(src[..n]);
    assert r[..|t|] == t;
    CStrIs(r, |t|);
  }

  /** Copying a padded, NUL-terminated buffer with strncpy into a cleared
      buffer of the same size, leaving the last byte alone, reproduces it. */
  lemma CopyOfPadded(buf: seq<byte>)
    requires |buf| > 0 && buf[|buf| - 1] == 0 && Padded(buf)
    ensures StrNCpy(Zeros(|buf|), buf, |buf| - 1) == buf
  {
    var n := |buf| - 1;
    CStrTruncate(buf, n);
    var r := StrNCpy(Zeros(|buf|), buf, n);
    forall k | 0 <= k < |buf|
      ensures r[k] == buf[k]
    {
    }
  }

  /** The byte tolower gives for c: upper-case ASCII letters map to lower case,
      every other byte to itself. */
  function ToLower(c: byte): (r: byte)
    ensures 65 <= c <= 90 <==> r != c
    ensures 65 <= c <= 90 ==> r == c + 32
    ensures !(65 <= r <= 90)
  {
    if 65 <= c <= 90 then c + 32 else c
  }

  /** strcasecmp(a, b) == 0, for C strings a and b: the same length, and equal
      byte by byte once both are mapped through tolower. */
  predicate EqualsIgnoringCase(a: seq<byte>, b: seq<byte>)
    ensures a == b ==> EqualsIgnoringCase(a, b)
    ensures EqualsIgnoringCase(a, b) ==> |a| == |b|
  {
    |a| == |b| && forall i :: 0 <= i < |a| ==> ToLower(a[i]) == ToLower(b[i])
  }

  /** The bytes snprintf(dst, size, fmt) stores into dst when fmt holds no
      conversion: the C string fmt, cut to size - 1 bytes, and a NUL; nothing
      when size is 0. */
  function SnPrintf(size: nat, fmt: seq<byte>): (r: seq<byte>)
    requires 0 !in fmt
    ensures size == 0 ==> r == []
    ensures size > 0 ==> 0 < |r| <= size && r[|r| - 1] == 0
    ensures size > 0 ==> |r| == |CStr(r)| + 1
    ensures size > 0 ==> CStr(r) == fmt[..if |fmt| < size then |fmt| else size - 1]
  {
    if size == 0 then []
    else
      var n := if |fmt| < size then |fmt| else size - 1;
      var r := fmt[..n] + [0];
      CStrIs(r, n);
      r
  }

  /** memset(a, 0x00, a.Length). */
  method Memset(a: array<byte>)
    modifies a
    ensures a[..] == Zeros(a.Length)
  {
    forall k | 0 <= k < a.Length {
      a[k] := 0;
    }
  }

  /** strncpy(dst, src, n). */
  method StrNCopy(dst: array<byte>, src: array<byte>, n: nat)
    requires dst != src && n <= dst.Length && n <= src.Length
    modifies dst
    ensures dst[..] == StrNCpy(old(dst[..]), src[..], n)
  {
    var t := CStr(src[..n]);
    forall k | 0 <= k < n {
      dst[k] := if k < |t| then src[k] else 0;
    }
    assert src[..][..n] == src[..n] == old(src[..n]);
    assert t == CStr(src[..][..n]);
    ghost var r := StrNCpy(old(dst[..]), src[..], n);
    forall k | 0 <= k < dst.Length
      ensures dst[k] == r[k]
    {
      if k < n {
        assert dst[k] == if k < |t| then src[k] else 0;
      } else {
        assert dst[k] == old(dst[k]);
      }
    }
  }
}
