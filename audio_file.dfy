/**
 The name under which an uploaded recording is saved (`save_audio_file`):
 `saved_audio/<YYYYMMDD_HHMMSS>_<stem><suffix>`, with the clock reading passed
 in and the stem and suffix taken as `pathlib` takes them.
 */
module AudioFile {
  import opened Optional
  import opened PyStr

  /** A reading of `datetime.now()`. */
  datatype DateTime = DateTime(year: int, month: int, day: int, hour: int, minute: int, second: int)

  predicate IsLeapYear(y: int) {
    y % 4 == 0 && (y % 100 != 0 || y % 400 == 0)
  }

  function DaysInMonth(y: int, m: int): int
    requires 1 <= m <= 12
  {
    if m == 2 then (if IsLeapYear(y) then 29 else 28)
    else if m == 4 || m == 6 || m == 9 || m == 11 then 30
    else 31
  }

  /** The values a `datetime` can hold. */
  predicate ValidDateTime(t: DateTime) {
    && 1 <= t.year <= 9999
    && 1 <= t.month <= 12
    && 1 <= t.day <= DaysInMonth(t.year, t.month)
    && 0 <= t.hour < 24
    && 0 <= t.minute < 60
    && 0 <= t.second < 60
  }

  predicate IsDigit(c: char) {
    '0' <= c <= '9'
  }

  function Digit(d: int): (c: char)
    requires 0 <= d <= 9
    ensures IsDigit(c)
  {
    (48 + d) as char
  }

  function Pow10(n: nat): nat {
    if n == 0 then 1 else 10 * Pow10(n - 1)
  }

  /** The number a string of decimal digits denotes. */
  function DecimalValue(s: string): int {
    if s == [] then 0 else 10 * DecimalValue(s[..|s| - 1]) + (s[|s| - 1] as int - 48)
  }

  /** `%0<width>d`: `n` written in exactly `width` digits, zeros in front. */
  function ZeroPadded(n: nat, width: nat): (s: string)
    requires n < Pow10(width)
    ensures |s| == width
    ensures forall i :: 0 <= i < |s| ==> IsDigit(s[i])
    ensures DecimalValue(s) == n
  {
    if width == 0 then ""
    else
      var s := ZeroPadded(n / 10, width - 1) + [Digit(n % 10)];
      assert s[..|s| - 1] == ZeroPadded(n / 10, width - 1);
      s
  }

  /** `strftime("%Y%m%d_%H%M%S")`: fifteen characters, digits around one underscore,
      each field readable back from its fixed position. */
  function Timestamp(t: DateTime): (s: string)
    requires ValidDateTime(t)
    ensures |s| == 15 && s[8] == '_'
    ensures forall i :: 0 <= i < 15 && i != 8 ==> IsDigit(s[i])
    ensures DecimalValue(s[0..4]) == t.year
    ensures DecimalValue(s[4..6]) == t.month
    ensures DecimalValue(s[6..8]) == t.day
    ensures DecimalValue(s[9..11]) == t.hour
    ensures DecimalValue(s[11..13]) == t.minute
    ensures DecimalValue(s[13..15]) == t.second
  {
    assert Pow10(2) == 100 && Pow10(4) == 10000;
    var y, mo, d := ZeroPadded(t.year, 4), ZeroPadded(t.month, 2), ZeroPadded(t.day, 2);
    var h, mi, se := ZeroPadded(t.hour, 2), ZeroPadded(t.minute, 2), ZeroPadded(t.second, 2);
    var date, time := y + mo + d, h + mi + se;
    ThreeParts(y, mo, d);
    ThreeParts(h, mi, se);
    var s := date + "_" + time;
    ThreeParts(date, "_", time);
    assert s[0..4] == date[0..4] && s[4..6] == date[4..6] && s[6..8] == date[6..8];
    assert s[9..11] == time[0..2] && s[11..13] == time[2..4] && s[13..15] == time[4..6];
    s
  }

  /** Each of three joined texts sits at its own offset. */
  lemma ThreeParts(a: string, b: string, c: string)
    ensures (a + b + c)[0..|a|] == a
    ensures (a + b + c)[|a|..|a| + |b|] == b
    ensures (a + b + c)[|a| + |b|..|a| + |b| + |c|] == c
  {
  }

  /** Two readings of the clock give the same timestamp only if they are the same reading. */
  lemma TimestampInjective(t1: DateTime, t2: DateTime)
    requires ValidDateTime(t1) && ValidDateTime(t2)
    requires Timestamp(t1) == Timestamp(t2)
    ensures t1 == t2
  {
  }

  const SavedAudioDir: string := "saved_audio"

  /** The save directory is a single path component. */
  lemma DirHasNoSlash()
    ensures '/' !in SavedAudioDir && SavedAudioDir != "" && SavedAudioDir != "."
  {
    forall k | 0 <= k < |SavedAudioDir| ensures SavedAudioDir[k] != '/' {
    }
  }

  /** A piece between slashes that `pathlib` drops: empty (from `//` or an end
      slash) or `.`. */
  predicate Dropped(piece: string) {
    piece == "" || piece == "."
  }

  /** Every piece is dropped: the path names nothing. */
  predicate AllDropped(pieces: seq<string>) {
    forall k :: 0 <= k < |pieces| ==> Dropped(pieces[k])
  }

  /** The components `pathlib` keeps from the pieces between slashes, in order. */
  function Components(pieces: seq<string>): (r: seq<string>)
    ensures |r| <= |pieces|
    ensures forall k :: 0 <= k < |r| ==> r[k] in pieces && !Dropped(r[k])
    ensures forall k :: 0 <= k < |pieces| && !Dropped(pieces[k]) ==> pieces[k] in r
    ensures r == [] <==> AllDropped(pieces)
  {
    if pieces == [] then []
    else (if Dropped(pieces[0]) then [] else [pieces[0]]) + Components(pieces[1..])
  }

  /** `c` is piece `k`, and every piece after it is dropped. */
  predicate LastKeptAt(pieces: seq<string>, k: int, c: string) {
    0 <= k < |pieces| && pieces[k] == c && forall j :: k < j < |pieces| ==> Dropped(pieces[j])
  }

  /** The last kept component is the last piece that is not dropped. */
  lemma {:induction false} LastKept(pieces: seq<string>, c: string)
    requires Components(pieces) != [] && c == Components(pieces)[|Components(pieces)| - 1]
    ensures exists k :: LastKeptAt(pieces, k, c)
  {
    var r, rest := Components(pieces), pieces[1..];
    var tail := Components(rest);
    assert r == (if Dropped(pieces[0]) then [] else [pieces[0]]) + tail;
    if tail != [] {
      LastKept(rest, c);
      var k :| LastKeptAt(rest, k, c);
      assert r[|r| - 1] == tail[|tail| - 1];
      forall j | k + 1 < j < |pieces| ensures Dropped(pieces[j]) {
        assert pieces[j] == rest[j - 1];
      }
      assert LastKeptAt(pieces, k + 1, c);
    } else {
      forall j | 0 < j < |pieces| ensures Dropped(pieces[j]) {
        assert pieces[j] == rest[j - 1];
      }
      assert LastKeptAt(pieces, 0, c);
    }
  }

  /** `Path(path).name`: the last piece between slashes that is neither empty
      nor `.`, or "" when there is none. */
  function Name(path: string): (n: string)
    ensures '/' !in n
    ensures n == "" <==> AllDropped(Split(path, "/"))
    ensures n != "" ==> n != "." && exists k :: LastKeptAt(Split(path, "/"), k, n)
  {
    var pieces := Split(path, "/");
    var parts := Components(pieces);
    if parts == [] then ""
    else
      ContainsChar(parts[|parts| - 1], '/');
      LastKept(pieces, parts[|parts| - 1]);
      var n := parts[|parts| - 1];
      assert !Dropped(n);
      n
  }

  /** `Path(path).suffix`: from the last dot of the name, unless that dot opens or ends the name. */
  function Suffix(path: string): (x: string)
    ensures |x| <= |Name(path)| && x == Name(path)[|Name(path)| - |x|..]
    ensures x == [] || (2 <= |x| < |Name(path)| && x[0] == '.' && '.' !in x[1..])
  {
    NameSuffix(Name(path))
  }

  /** The suffix of a final name component. */
  function NameSuffix(n: string): (x: string)
    ensures |x| <= |n| && x == n[|n| - |x|..]
    ensures x == [] || (2 <= |x| < |n| && x[0] == '.' && '.' !in x[1..])
  {
    match RFindChar(n, '.')
    case Some(i) =>
      if 0 < i < |n| - 1 then
        LastDotTail(n, i);
        n[i..]
      else ""
    case None => ""
  }

  /** The text from the last dot on holds no dot after its first character. */
  lemma LastDotTail(n: string, i: nat)
    requires i < |n| && n[i] == '.'
    requires forall j :: i < j < |n| ==> n[j] != '.'
    ensures n[i..][0] == '.' && '.' !in n[i..][1..]
  {
    var rest := n[i..][1..];
    forall k | 0 <= k < |rest| ensures rest[k] != '.' {
      assert rest[k] == n[i + 1 + k];
    }
  }

  /** `Path(path).stem`: the name without its suffix. */
  function Stem(path: string): (st: string)
    ensures st + Suffix(path) == Name(path)
    ensures Suffix(path) != [] ==> st != []
  {
    var n, x := Name(path), Suffix(path);
    assert n == n[..|n| - |x|] + x;
    n[..|n| - |x|]
  }

  /** A bare file name is its own `Path(...).name`. */
  lemma NameOfBareName(n: string)
    requires '/' !in n && n != "" && n != "."
    ensures Name(n) == n
  {
    ContainsChar(n, '/');
    assert Split(n, "/") == [n];
    assert Components([n]) == [n] + Components([]);
  }

  /** The suffix starts at the last dot: `memo.m4a` gives `memo` and `.m4a`,
      `a.tar.gz` gives `a.tar` and `.gz`. */
  lemma SuffixAtLastDot(stem: string, ext: string)
    requires stem != [] && ext != []
    requires '.' !in ext
    requires '/' !in stem && '/' !in ext
    ensures Suffix(stem + "." + ext) == "." + ext
    ensures Stem(stem + "." + ext) == stem
  {
    var n := stem + "." + ext;
    NameOfBareName(n);
    assert n[|stem|] == '.';
    forall j | |stem| < j < |n| ensures n[j] != '.' {
      assert n[j] == ext[j - |stem| - 1];
    }
    assert RFindChar(n, '.').Some? by { assert n[|stem|] in n; }
    var i := RFindChar(n, '.').value;
    assert n[|stem|] == '.';
    assert i == |stem|;
    assert 0 < i < |n| - 1;
    assert n[i..] == "." + ext && n[..i] == stem;
  }

  /** A name whose only dot opens it (a hidden file such as `.wav`) has no suffix. */
  lemma LeadingDotIsNoSuffix(rest: string)
    requires rest != [] && '.' !in rest && '/' !in rest
    ensures Suffix("." + rest) == "" && Stem("." + rest) == "." + rest
  {
    var n := "." + rest;
    NameOfBareName(n);
    forall j | 0 < j < |n| ensures n[j] != '.' {
      assert n[j] == rest[j - 1];
    }
    assert RFindChar(n, '.') == Some(0);
  }

  /** The timestamp holds digits and one underscore, so no slash. */
  lemma TimestampHasNoSlash(t: DateTime)
    requires ValidDateTime(t)
    ensures '/' !in Timestamp(t)
  {
    var ts := Timestamp(t);
    forall i | 0 <= i < |ts| ensures ts[i] != '/' {
      if i != 8 { assert IsDigit(ts[i]); }
    }
  }

  /** Two texts without a slash, joined by `_`: each sits at its place and
      the result holds no slash. */
  lemma UnderscoreJoin(a: string, b: string)
    requires '/' !in a && '/' !in b
    ensures (a + "_" + b)[..|a|] == a && (a + "_" + b)[|a|] == '_' && (a + "_" + b)[|a| + 1..] == b
    ensures '/' !in a + "_" + b
  {
    var f := a + "_" + b;
    forall i | 0 <= i < |f| ensures f[i] != '/' {
      if i < |a| { assert f[i] == a[i]; } else if i > |a| { assert f[i] == b[i - |a| - 1]; }
    }
  }

  /** The saved file's name: timestamp, underscore, then the upload's own name unchanged. */
  function SavedFileName(t: DateTime, uploadName: string): (f: string)
    requires ValidDateTime(t)
    ensures |f| == 16 + |Name(uploadName)|
    ensures f[..15] == Timestamp(t) && f[15] == '_'
    ensures f[16..] == Name(uploadName)
    ensures '/' !in f
  {
    var ts, n := Timestamp(t), Name(uploadName);
    assert Stem(uploadName) + Suffix(uploadName) == n;
    TimestampHasNoSlash(t);
    UnderscoreJoin(ts, n);
    ts + "_" + (Stem(uploadName) + Suffix(uploadName))
  }

  /** A directory and a file name, neither holding a slash nor empty nor ".", joined
      with one slash: splitting at slashes gives the two back, and the name is the last. */
  lemma JoinedPathParts(dir: string, f: string)
    requires '/' !in dir && '/' !in f
    requires dir != "" && dir != "." && f != "" && f != "."
    ensures Split(dir + "/" + f, "/") == [dir, f]
    ensures Name(dir + "/" + f) == f
  {
    var p := dir + "/" + f;
    ContainsChar(dir, '/');
    ContainsChar(f, '/');
    assert dir + "/"[..0] == dir;
    FindAfterPrefix(dir, "/", f);
    assert p[|dir| + 1..] == f;
    assert Split(p, "/") == [dir] + Split(f, "/");
    assert Components([dir, f]) == [dir, f] by {
      assert [dir, f][1..] == [f];
      assert [f][1..] == [];
      assert Components([f]) == [f] + Components([]);
      assert Components([dir, f]) == [dir] + Components([f]);
    }
  }

  /** `str(SAVED_AUDIO_DIR / filename)`: the file sits directly in `saved_audio`,
      and its name there is the saved file name. */
  function SavedPath(t: DateTime, uploadName: string): (p: string)
    requires ValidDateTime(t)
    ensures Split(p, "/") == [SavedAudioDir, SavedFileName(t, uploadName)]
    ensures Name(p) == SavedFileName(t, uploadName)
  {
    var f := SavedFileName(t, uploadName);
    DirHasNoSlash();
    assert f != "" && f != "." by { assert |f| >= 16; }
    JoinedPathParts(SavedAudioDir, f);
    SavedAudioDir + "/" + f
  }
}
