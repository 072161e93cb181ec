/** Bounded string copy and concatenation (src/safe_string.c). A destination is a char
    buffer of `dst_size` bytes holding a NUL-terminated string; here the string is a
    `seq<char>` without the NUL and the buffer size is a separate number. One `char` stands
    for one C char, a byte, and no string holds a NUL, so `|s|` is strlen(s) and every
    size counts bytes. */
module SafeString {

  /** The status a helper returns and the string the destination buffer holds afterwards. */
  datatype StrResult = StrResult(code: int, dst: string)

  function Min(a: nat, b: nat): nat {
    if a < b then a else b
  }

  /** snprintf(buf, size, "%s", s) (or "%.*s" with `s` already cut to the precision):
      the characters that land in `buf` before its terminating NUL, and the return value,
      which is the length the output would have had without truncation. */
  function Snprintf(size: nat, s: string): (r: (string, nat))
    ensures r.1 == |s|
    ensures size > |s| ==> r.0 == s
    ensures |r.0| < size || size == 0
  {
    if size == 0 then ("", |s|) else (s[..Min(|s|, size - 1)], |s|)
  }

  /** strcat_safe: appends `src` when the result and its NUL fit in `dstSize` bytes. */
  function StrcatSafe(dst: string, src: string, dstSize: nat): (r: StrResult)
    ensures r.code == 0 || r.code == -1
    ensures r.code == -1 <==> |dst| + |src| + 1 > dstSize
    ensures r.code == -1 ==> r.dst == dst
    ensures r.code == 0 ==> r.dst == dst + src && |r.dst| + 1 <= dstSize
  {
    if |dst| + |src| + 1 > dstSize then StrResult(-1, dst)
    else
      var (written, n) := Snprintf(dstSize - |dst|, src);
      var out := dst + written;
      if n >= dstSize - |dst| then StrResult(-1, out) else StrResult(0, out)
  }

  /** strcpy_safe: replaces the contents by `src` when it and its NUL fit in `dstSize` bytes. */
  function StrcpySafe(dst: string, src: string, dstSize: nat): (r: StrResult)
    ensures r.code == 0 || r.code == -1
    ensures r.code == -1 <==> |src| + 1 > dstSize
    ensures r.code == -1 ==> r.dst == dst
    ensures r.code == 0 ==> r.dst == src && |r.dst| + 1 <= dstSize
  {
    if |src| + 1 > dstSize then StrResult(-1, dst)
    else
      var (written, n) := Snprintf(dstSize, src);
      if n >= dstSize then StrResult(-1, written) else StrResult(0, written)
  }

  /** strncat_safe: appends the first `n` characters of `src` (all of it when shorter). */
  function StrncatSafe(dst: string, src: string, dstSize: nat, n: nat): (r: StrResult)
    ensures r.code == 0 || r.code == -1
    ensures r.code == -1 <==> |dst| + Min(n, |src|) + 1 > dstSize
    ensures r.code == -1 ==> r.dst == dst
    ensures r.code == 0 ==> r.dst == dst + src[..Min(n, |src|)] && |r.dst| + 1 <= dstSize
  {
    var n' := if n > |src| then |src| else n;
    if |dst| + n' + 1 > dstSize then StrResult(-1, dst)
    else
      var (written, w) := Snprintf(dstSize - |dst|, src[..n']);
      var out := dst + written;
      if w >= dstSize - |dst| then StrResult(-1, out) else StrResult(0, out)
  }

  /** strncpy_safe(dst, src, dst_size, n): replaces the contents by the first `n`
      characters of `src` (all of it when shorter). */
  function StrncpySafe(dst: string, src: string, dstSize: nat, n: nat): (r: StrResult)
    ensures r.code == 0 || r.code == -1
    ensures r.code == -1 <==> Min(n, |src|) + 1 > dstSize
    ensures r.code == -1 ==> r.dst == dst
    ensures r.code == 0 ==> r.dst == src[..Min(n, |src|)] && |r.dst| + 1 <= dstSize
  {
    var n' := if n > |src| then |src| else n;
    if n' + 1 > dstSize then StrResult(-1, dst)
    else
      var (written, w) := Snprintf(dstSize, src[..n']);
      if w >= dstSize then StrResult(-1, written) else StrResult(0, written)
  }

  /** Copying is concatenation onto the empty string. */
  lemma CopyIsCatOntoEmpty(dst: string, src: string, dstSize: nat)
    ensures StrcpySafe(dst, src, dstSize).code == StrcatSafe("", src, dstSize).code
    ensures StrcpySafe(dst, src, dstSize).code == 0 ==>
              StrcpySafe(dst, src, dstSize).dst == StrcatSafe("", src, dstSize).dst
  {
  }

  /** The bounded forms with a bound of at least the source length are the unbounded ones. */
  lemma BoundBeyondLength(dst: string, src: string, dstSize: nat, n: nat)
    requires n >= |src|
    ensures StrncpySafe(dst, src, dstSize, n) == StrcpySafe(dst, src, dstSize)
    ensures StrncatSafe(dst, src, dstSize, n) == StrcatSafe(dst, src, dstSize)
  {
    assert src[..|src|] == src;
  }
}
