/** Path manipulation (src/path.c), POSIX branch: the separator is '/', there are no
    volume letters, and every destination is a CP_MAX_PATH-byte buffer. As in SafeString,
    one `char` is one byte and a path holds no NUL, so lengths are byte counts. */
module Path {
  import opened Wrappers
  import opened SafeString

  /** CP_MAX_PATH on POSIX is PATH_MAX, 4096 on Linux. */
  const CP_MAX_PATH: nat := 4096
  /** CP_PATH_SEP. */
  const SEP: char := '/'

  /** remove_end_sep: drops one trailing separator, if there is one. */
  function RemoveEndSep(p: string): (r: string)
    ensures r == p || (p == r + [SEP])
    ensures |p| - 1 <= |r| <= |p|
    ensures r != p <==> |p| > 0 && p[|p| - 1] == SEP
  {
    if |p| > 0 && p[|p| - 1] == SEP then p[..|p| - 1] else p
  }

  /** CPath_IsAbsolute. */
  function IsAbsolute(p: string): (r: bool)
    ensures r <==> |p| > 0 && p[0] == SEP
    ensures r ==> SEP in p
  {
    |p| > 0 && p[0] == SEP
  }

  /** The index of the last separator, scanning from the end as the C loops do. */
  function LastSep(s: string): (r: Option<nat>)
    ensures r.Some? ==> r.value < |s| && s[r.value] == SEP
    ensures r.Some? ==> forall j :: r.value < j < |s| ==> s[j] != SEP
    ensures r.None? <==> SEP !in s
  {
    if |s| == 0 then None
    else if s[|s| - 1] == SEP then Some(|s| - 1)
    else
      var r := LastSep(s[..|s| - 1]);
      assert s == s[..|s| - 1] + [s[|s| - 1]];
      r
  }

  /** CPath_Join(dst, src1, src2): `src1`, its trailing separator dropped, a separator,
      then `src2`, and again one trailing separator dropped. `dst` is the destination's
      contents before the call; a failing step leaves what was written so far. */
  function Join(dst: string, src1: string, src2: string): (r: StrResult)
    ensures r.code == 0 || r.code == -1
    ensures IsAbsolute(src2) ==> r == StrResult(-1, dst)
    ensures r.code == 0 <==>
              && !IsAbsolute(src2)
              && |src1| + 1 <= CP_MAX_PATH
              && |RemoveEndSep(src1)| + 1 + |src2| + 1 <= CP_MAX_PATH
    ensures r.code == 0 ==> r.dst == RemoveEndSep(RemoveEndSep(src1) + [SEP] + src2)
    ensures r.code == 0 ==> |r.dst| < CP_MAX_PATH
  {
    if IsAbsolute(src2) then StrResult(-1, dst)
    else
      var copied := StrcpySafe(dst, src1, CP_MAX_PATH);
      if copied.code != 0 then StrResult(-1, copied.dst)
      else
        var withSep := StrcatSafe(RemoveEndSep(copied.dst), [SEP], CP_MAX_PATH);
        if withSep.code != 0 then StrResult(-1, withSep.dst)
        else
          var joined := StrcatSafe(withSep.dst, src2, CP_MAX_PATH);
          if joined.code != 0 then StrResult(-1, joined.dst)
          else StrResult(0, RemoveEndSep(joined.dst))
  }

  /** CPath_JoinInPlace(dst, src): appends `src` to the path held in `dst`. */
  function JoinInPlace(dst: string, src: string): (r: StrResult)
    requires |dst| < CP_MAX_PATH
    ensures r.code == 0 || r.code == -1
    ensures IsAbsolute(src) ==> r == StrResult(-1, dst)
    ensures r.code == 0 <==> !IsAbsolute(src) && |RemoveEndSep(dst)| + 1 + |src| + 1 <= CP_MAX_PATH
    ensures r.code == 0 ==> r.dst == RemoveEndSep(RemoveEndSep(dst) + [SEP] + src)
  {
    if IsAbsolute(src) then StrResult(-1, dst)
    else
      var withSep := StrcatSafe(RemoveEndSep(dst), [SEP], CP_MAX_PATH);
      if withSep.code != 0 then StrResult(-1, withSep.dst)
      else
        var joined := StrcatSafe(withSep.dst, src, CP_MAX_PATH);
        if joined.code != 0 then StrResult(-1, joined.dst)
        else StrResult(0, RemoveEndSep(joined.dst))
  }

  /** Joining in place is joining the destination with itself as first source: the
      initial copy of a string that already fits the buffer changes nothing. */
  lemma JoinInPlaceIsJoin(dst: string, src: string)
    requires |dst| < CP_MAX_PATH
    ensures JoinInPlace(dst, src) == Join(dst, dst, src)
  {
  }

  /** CPath_Filename(dst, src): the part after the last separator, or all of `src`
      when it has none. */
  function Filename(dst: string, src: string): (r: StrResult)
    ensures r.code == 0 || r.code == -1
    ensures r.code == -1 ==> r.dst == dst
    ensures r.code == 0 ==> SEP !in r.dst && |r.dst| < CP_MAX_PATH
    ensures r.code == 0 ==> exists k :: 0 <= k <= |src| && src[k..] == r.dst && (k == 0 || src[k - 1] == SEP)
    ensures r.code == -1 <==> |FilenamePart(src)| + 1 > CP_MAX_PATH
  {
    match LastSep(src)
    case Some(i) =>
      var r := StrcpySafe(dst, src[i + 1..], CP_MAX_PATH);
      assert r.code == 0 ==> src[i + 1..] == r.dst && src[i + 1 - 1] == SEP;
      if r.code != 0 then StrResult(-1, r.dst) else r
    case None =>
      var r := StrcpySafe(dst, src, CP_MAX_PATH);
      assert src[0..] == src;
      if r.code != 0 then StrResult(-1, r.dst) else r
  }

  /** Reference: the suffix after the last separator. */
  function FilenamePart(src: string): string {
    match LastSep(src)
    case Some(i) => src[i + 1..]
    case None => src
  }

  /** Reference: the prefix before the last separator, "/" when that separator is the
      first character, and "" when there is none. */
  function DirnamePart(src: string): string {
    match LastSep(src)
    case Some(i) => if i == 0 then [SEP] else src[..i]
    case None => ""
  }

  /** `s[i] = '\0'`: the string ends at `i` when it was at least that long. */
  function Truncate(s: string, i: nat): (r: string)
    ensures r <= s && |r| == Min(i, |s|)
  {
    if i <= |s| then s[..i] else s
  }

  /** CPath_Dirname exactly as written: path.c line 131 passes `i` as `dst_size` and
      CP_MAX_PATH as `n`, so the copy is refused whenever the last separator is not
      the first character, up to index CP_MAX_PATH. Beyond that (a source longer than
      any path) the copy keeps CP_MAX_PATH characters, which with their NUL no longer
      fit the destination buffer. */
  function DirnameAsWritten(dst: string, src: string): (r: StrResult)
    ensures r.code == 0 || r.code == -1
    ensures LastSep(src).None? ==> r == StrResult(0, "")
    ensures LastSep(src) == Some(0) ==> r == StrResult(0, [SEP])
    ensures LastSep(src).Some? && 1 <= LastSep(src).value <= CP_MAX_PATH ==> r == StrResult(-1, dst)
    ensures LastSep(src).Some? && LastSep(src).value > CP_MAX_PATH ==> r == StrResult(0, src[..CP_MAX_PATH])
  {
    match LastSep(src)
    case Some(i) =>
      if i == 0 then StrResult(0, [src[0]])
      else
        var r := StrncpySafe(dst, src, i, CP_MAX_PATH);
        if r.code != 0 then StrResult(-1, r.dst) else StrResult(0, Truncate(r.dst, i))
    case None => StrResult(0, "")
  }

  /** CPath_Dirname with the arguments in the order the signature declares:
      strncpy_safe(dst, src, CP_MAX_PATH, i). */
  function Dirname(dst: string, src: string): (r: StrResult)
    ensures r.code == 0 || r.code == -1
    ensures r.code == -1 ==> r.dst == dst
    ensures r.code == 0 <==> |DirnamePart(src)| + 1 <= CP_MAX_PATH
    ensures r.code == 0 ==> r.dst == DirnamePart(src)
  {
    match LastSep(src)
    case Some(i) =>
      if i == 0 then StrResult(0, [src[0]])
      else
        var r := StrncpySafe(dst, src, CP_MAX_PATH, i);
        if r.code != 0 then StrResult(-1, r.dst) else StrResult(0, Truncate(r.dst, i))
    case None => StrResult(0, "")
  }

  /** The path of the running executable, "/usr/bin/cp", has no directory as written,
      and "/usr/bin" with the arguments in order. */
  lemma DirnameSwappedArguments()
    ensures DirnameAsWritten("", "/usr/bin/cp") == StrResult(-1, "")
    ensures Dirname("", "/usr/bin/cp") == StrResult(0, "/usr/bin")
  {
    var p := "/usr/bin/cp";
    assert p[..|p| - 1][..|p| - 2] == "/usr/bin/";
    assert LastSep(p[..|p| - 2]) == Some(8);
    assert LastSep(p) == Some(8);
  }

  /** Splitting a path with Dirname and Filename and joining the parts again gives the path
      back, when the last component is not empty and the directory part ends in no extra
      separator. */
  lemma {:induction false} SplitThenJoin(d: string, f: string)
    requires |f| > 0 && SEP !in f
    requires |d| == 0 || d[|d| - 1] != SEP
    requires |d| + 1 + |f| + 1 <= CP_MAX_PATH
    ensures var p := d + [SEP] + f;
            Join("", Dirname("", p).dst, Filename("", p).dst) == StrResult(0, p)
  {
    var p := d + [SEP] + f;
    LastSepOfSuffix(d, f);
    assert p[|d| + 1..] == f;
    assert p[..|d|] == d;
    if |d| == 0 {
      assert DirnamePart(p) == [SEP];
    } else {
      assert DirnamePart(p) == d;
      assert RemoveEndSep(d) == d;
    }
  }

  /** In `d + "/" + f` with no separator in `f`, the last separator is the one before `f`. */
  lemma {:induction false} LastSepOfSuffix(d: string, f: string)
    requires SEP !in f
    ensures LastSep(d + [SEP] + f) == Some(|d|)
  {
    var p := d + [SEP] + f;
    if |f| > 0 {
      var f' := f[..|f| - 1];
      assert p[|p| - 1] == f[|f| - 1];
      assert p[..|p| - 1] == d + [SEP] + f';
      assert SEP !in f' by {
        assert f == f' + [f[|f| - 1]];
      }
      LastSepOfSuffix(d, f');
    }
  }
}
