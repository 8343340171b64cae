/**
 The path cache of fs.rs: what cache_at stores for a directory tree, and how that compares with
 walking a path component by component. The tree is given by an image of the file system: the
 inodes and the entries of each directory. FsCache ties an image to the bytes of a disk.
 */
module PathCache {
  import opened Common
  import opened MinixFile

  const S_IFDIR := 0x4000
  const ROOT: nat := 1

  predicate IsDir(ino: Inode) { ino.mode / S_IFDIR % 2 == 1 }

  /** Bit 14 of the mode: what is left above the low fourteen bits, in fifteen. */
  lemma {:induction false} IsDirIs(ino: Inode)
    ensures IsDir(ino) <==> ino.mode % 0x8000 >= 0x4000
  {
    var q, r := ino.mode / 0x4000, ino.mode % 0x4000;
    QuotientIs(ino.mode, 0x8000, q / 2, q % 2 * 0x4000 + r);
  }

  datatype DirEntry = DirEntry(inode: nat, name: string)

  /** inodes: what get_inode returns; dirs: all entries of each directory, `.` and `..` first. */
  datatype Image = Image(inodes: map<nat, Inode>, dirs: map<nat, seq<DirEntry>>)

  predicate Ascii(s: string) { forall c :: c in s ==> c < 128 as char }

  /**
   How cache_at copies the current path: byte by byte, each byte pushed as a character. A
   character from 128 to 255 is two bytes, and so becomes two characters.
   */
  function Recode(s: string): string
  {
    if s == "" then ""
    else
      var n := s[0] as int;
      (if n < 128 || n >= 256 then [s[0]] else [(0xc0 + n / 64) as char, (0x80 + n % 64) as char]) + Recode(s[1..])
  }

  /** Reading bytes as UTF-8, for characters of one or two bytes. */
  function Decoded(s: string): string
  {
    if s == "" then ""
    else if s[0] < 0x80 as char || |s| == 1 || s[0] < 0xc0 as char || s[1] < 0x80 as char then [s[0]] + Decoded(s[1..])
    else
      var n := (s[0] as int - 0xc0) * 64 + (s[1] as int - 0x80);
      (if n < 0x800 then [n as char] else [s[0]]) + Decoded(s[2..])
  }

  /** What the copy spells in bytes is the path that was copied. */
  lemma {:induction false} RecodeIsUtf8(s: string)
    requires Bytes(s)
    ensures Decoded(Recode(s)) == s
  {
    hide Decoded;
    EmptyDecodes();
    if s != "" {
      assert s[0] in s && forall c :: c in s[1..] ==> c in s;
      RecodeIsUtf8(s[1..]);
      assert s == [s[0]] + s[1..];
      if s[0] < 128 as char {
        DecodedOne(s[0], Recode(s[1..]));
      } else {
        DecodedTwo(s[0] as int, Recode(s[1..]));
      }
    }
  }

  lemma {:induction false} EmptyDecodes()
    ensures Decoded("") == ""
  {
  }

  lemma {:induction false} DecodedOne(c: char, t: string)
    requires c < 128 as char
    ensures Decoded([c] + t) == [c] + Decoded(t)
  {
    assert ([c] + t)[1..] == t;
  }

  lemma {:induction false} DecodedTwo(n: nat, t: string)
    requires 128 <= n < 256
    ensures Decoded([(0xc0 + n / 64) as char, (0x80 + n % 64) as char] + t) == [n as char] + Decoded(t)
  {
    var r := [(0xc0 + n / 64) as char, (0x80 + n % 64) as char] + t;
    assert r[2..] == t && r[0] as int == 0xc0 + n / 64 && r[1] as int == 0x80 + n % 64;
  }

  lemma {:induction false} RecodeGrows(s: string)
    ensures |Recode(s)| >= |s|
  {
    if s != "" { RecodeGrows(s[1..]); }
  }

  /** Bytes read as characters. */
  predicate Bytes(s: string) { forall c :: c in s ==> c < 256 as char }

  lemma {:induction false} RecodeBytes(s: string)
    requires Bytes(s)
    ensures Bytes(Recode(s))
  {
    if s != "" {
      assert s[0] in s && forall c :: c in s[1..] ==> c in s;
      RecodeBytes(s[1..]);
    }
  }

  /** The copy is faithful exactly for ASCII, and longer otherwise. */
  lemma {:induction false} RecodeIsCopy(s: string)
    requires Bytes(s)
    ensures Recode(s) == s <==> Ascii(s)
    ensures !Ascii(s) ==> |Recode(s)| > |s|
  {
    if s != "" {
      assert s == [s[0]] + s[1..];
      assert s[0] in s;
      assert forall c :: c in s[1..] ==> c in s;
      RecodeIsCopy(s[1..]);
      RecodeGrows(s[1..]);
      if s[0] < 128 as char {
        assert Recode(s) == [s[0]] + Recode(s[1..]);
        assert Recode(s)[1..] == Recode(s[1..]);
        assert Ascii(s) <==> Ascii(s[1..]);
      }
    }
  }

  predicate Dotted(s: string) { s == "." || s == ".." }

  predicate ValidName(s: string) { s != "" && '/' !in s && Bytes(s) && !Dotted(s) }

  /** How many entries one block holds; cache_at reads no more of a directory. */
  const PER_BLOCK := 16

  predicate Live(img: Image, n: nat, i: int)
    requires n in img.dirs
  {
    0 <= i < |img.dirs[n]| && img.dirs[n][i].inode != 0
  }

  /** The entries of n that cache_at looks at: it skips the first two by position, and reads one block. */
  predicate Counts(img: Image, n: nat, i: int)
    requires n in img.dirs
  {
    2 <= i < PER_BLOCK && Live(img, n, i)
  }

  function Seen(img: Image, n: nat): nat
    requires n in img.dirs
  {
    if |img.dirs[n]| < PER_BLOCK then |img.dirs[n]| else PER_BLOCK
  }

  /** A directory begins with `.` and `..`; behind them are entries with names of their own. */
  predicate DirOk(img: Image, rank: nat -> nat, n: nat)
    requires n in img.dirs
  {
    && |img.dirs[n]| >= 2 && img.dirs[n][0] == DirEntry(n, ".") && img.dirs[n][1].name == ".."
    && (forall i :: 2 <= i < |img.dirs[n]| && Live(img, n, i) ==>
          var e := img.dirs[n][i];
          && ValidName(e.name) && e.inode in img.inodes && e.inode != ROOT
          && (IsDir(img.inodes[e.inode]) ==> e.inode in img.dirs && rank(e.inode) < rank(n)))
    && (forall i, j :: 2 <= i < j < |img.dirs[n]| && Live(img, n, i) && Live(img, n, j) ==>
          img.dirs[n][i].name != img.dirs[n][j].name)
  }

  /** A directory tree: rank decreases from directory to subdirectory, so there is no cycle. */
  ghost predicate Tree(img: Image, rank: nat -> nat)
  {
    && ROOT in img.inodes && IsDir(img.inodes[ROOT]) && ROOT in img.dirs
    && forall n :: n in img.dirs ==> DirOk(img, rank, n)
  }

  // ---------------------------------------------------------------- what cache_at computes

  /** The string a path below directory n is continued with: no second slash after the root's. */
  function Base(cwd: string, n: nat): string { if n != ROOT then cwd + "/" else cwd }

  /** The paths and inodes cache_at adds for directory n, and for its first i entries. */
  ghost function Cached(img: Image, rank: nat -> nat, cwd: string, n: nat): map<string, Inode>
    requires Tree(img, rank) && n in img.dirs
    decreases rank(n), |img.dirs[n]| + 1
  {
    CachedBelow(img, rank, cwd, n, Seen(img, n))
  }

  ghost function CachedBelow(img: Image, rank: nat -> nat, cwd: string, n: nat, i: nat): map<string, Inode>
    requires Tree(img, rank) && n in img.dirs && i <= |img.dirs[n]|
    decreases rank(n), i
  {
    if i == 0 then map[]
    else CachedBelow(img, rank, cwd, n, i - 1) + CachedEntry(img, rank, cwd, n, i - 1)
  }

  ghost function CachedEntry(img: Image, rank: nat -> nat, cwd: string, n: nat, i: nat): map<string, Inode>
    requires Tree(img, rank) && n in img.dirs && i < |img.dirs[n]|
    decreases rank(n), i
  {
    if !Counts(img, n, i) then map[]
    else
      var e := img.dirs[n][i];
      var path := Base(Recode(cwd), n) + e.name;
      if IsDir(img.inodes[e.inode]) then Cached(img, rank, path, e.inode) else map[path := img.inodes[e.inode]]
  }

  lemma {:induction false} CachedNone(img: Image, rank: nat -> nat, cwd: string, n: nat)
    requires Tree(img, rank) && n in img.dirs
    ensures CachedBelow(img, rank, cwd, n, 0) == map[]
    ensures Cached(img, rank, cwd, n) == CachedBelow(img, rank, cwd, n, Seen(img, n))
  {
  }

  /** What one more entry adds. */
  lemma {:induction false} CachedStep(img: Image, rank: nat -> nat, cwd: string, n: nat, i: nat, b: map<string, Inode>)
    requires Tree(img, rank) && n in img.dirs && i < |img.dirs[n]|
    ensures b + CachedBelow(img, rank, cwd, n, i + 1)
         == b + CachedBelow(img, rank, cwd, n, i) + CachedEntry(img, rank, cwd, n, i)
    ensures !Counts(img, n, i) ==> CachedBelow(img, rank, cwd, n, i + 1) == CachedBelow(img, rank, cwd, n, i)
    ensures Counts(img, n, i) ==>
              var e := img.dirs[n][i];
              var path := Base(Recode(cwd), n) + e.name;
              && e.inode in img.inodes && ValidName(e.name)
              && if IsDir(img.inodes[e.inode])
                 then e.inode in img.dirs && rank(e.inode) < rank(n)
                      && CachedEntry(img, rank, cwd, n, i) == Cached(img, rank, path, e.inode)
                 else CachedEntry(img, rank, cwd, n, i) == map[path := img.inodes[e.inode]]
  {
    assert DirOk(img, rank, n);
  }

  // ---------------------------------------------------------------- walking a path

  /** The first entry in use of directory n with a name, or |entries|. */
  function Lookup(img: Image, n: nat, name: string, i: nat): (r: nat)
    requires n in img.dirs && i <= |img.dirs[n]|
    ensures i <= r <= |img.dirs[n]|
    ensures r < |img.dirs[n]| ==> Live(img, n, r) && img.dirs[n][r].name == name
    ensures forall j :: i <= j < r && Live(img, n, j) ==> img.dirs[n][j].name != name
    decreases |img.dirs[n]| - i
  {
    if i == |img.dirs[n]| then i
    else if Live(img, n, i) && img.dirs[n][i].name == name then i
    else Lookup(img, n, name, i + 1)
  }

  datatype Found = Nowhere | Reached(inode: nat)

  /** From inode n, one component after the other. */
  function Walk(img: Image, n: nat, comps: seq<string>): Found
    decreases |comps|
  {
    if comps == [] then Reached(n)
    else if n !in img.inodes || !IsDir(img.inodes[n]) || n !in img.dirs then Nowhere
    else
      var i := Lookup(img, n, comps[0], 0);
      if i == |img.dirs[n]| then Nowhere else Walk(img, img.dirs[n][i].inode, comps[1..])
  }

  /** Every step of the walk finds its name among the entries cache_at looks at. */
  predicate Near(img: Image, n: nat, comps: seq<string>)
    decreases |comps|
  {
    comps == [] ||
    (n in img.dirs &&
     var i := Lookup(img, n, comps[0], 0);
     Counts(img, n, i) && Near(img, img.dirs[n][i].inode, comps[1..]))
  }

  /** The path that continues cwd, the path of directory n, by some components. */
  function PathOf(cwd: string, n: nat, comps: seq<string>): string
    decreases |comps|
  {
    if comps == [] then cwd else PathOf(Base(cwd, n) + comps[0], 0, comps[1..])
  }

  /** Under which key cache_at stores the file at the end of these components. */
  function KeyOf(cwd: string, n: nat, comps: seq<string>): string
    decreases |comps|
  {
    if comps == [] then cwd else KeyOf(Base(Recode(cwd), n) + comps[0], 0, comps[1..])
  }

  /** The directories on the way have ASCII names. */
  predicate AsciiDirs(comps: seq<string>)
  {
    forall i :: 0 <= i < |comps| - 1 ==> Ascii(comps[i])
  }

  // ---------------------------------------------------------------- strings

  /** p is pre, or pre followed by a slash and more. */
  predicate Under(p: string, pre: string)
  {
    |pre| <= |p| && p[..|pre|] == pre && (|pre| < |p| ==> p[|pre|] == '/')
  }

  lemma {:induction false} PathUnder(cwd: string, comps: seq<string>)
    ensures Under(PathOf(cwd, 0, comps), cwd)
    decreases |comps|
  {
    if comps != [] {
      var next := cwd + "/" + comps[0];
      PathUnder(next, comps[1..]);
      var p := PathOf(cwd, 0, comps);
      assert p[..|next|] == next;
      assert p[..|cwd|] == next[..|cwd|] == cwd;
      assert p[|cwd|] == next[|cwd|] == '/';
    }
  }

  /** Below c + b one is not below c + a for a shorter a. */
  lemma {:induction false} LongerName(c: string, a: string, b: string, p: string)
    requires '/' !in b && Under(p, c + b) && |a| < |b|
    ensures !Under(p, c + a)
  {
    assert p[..|c + b|][|c| + |a|] == (c + b)[|c| + |a|] == b[|a|];
    assert b[|a|] in b;
  }

  lemma {:induction false} SameLengthName(c: string, a: string, b: string, p: string)
    requires Under(p, c + a) && Under(p, c + b) && |a| == |b|
    ensures a == b
  {
    assert c + a == c + b;
    assert a == (c + a)[|c|..] && b == (c + b)[|c|..];
  }

  /** Names without slashes keep the paths below them apart. */
  lemma {:induction false} NamesSeparate(c: string, a: string, b: string, p: string)
    requires '/' !in a && '/' !in b && Under(p, c + a) && Under(p, c + b)
    ensures a == b
  {
    if |a| < |b| {
      LongerName(c, a, b, p);
    } else if |b| < |a| {
      LongerName(c, b, a, p);
    } else {
      SameLengthName(c, a, b, p);
    }
  }

  // ---------------------------------------------------------------- the cache holds what walking finds

  predicate IsFile(img: Image, m: nat) { m in img.inodes && !IsDir(img.inodes[m]) }

  predicate IsDirectory(img: Image, n: nat) { n in img.inodes && IsDir(img.inodes[n]) && n in img.dirs }

  lemma {:induction false} LookupUnique(img: Image, rank: nat -> nat, n: nat, i: nat)
    requires Tree(img, rank) && n in img.dirs && 2 <= i < |img.dirs[n]| && Live(img, n, i)
    ensures Lookup(img, n, img.dirs[n][i].name, 0) == i
    ensures ValidName(img.dirs[n][i].name) && img.dirs[n][i].inode != ROOT && img.dirs[n][i].inode in img.inodes
    ensures IsDir(img.inodes[img.dirs[n][i].inode]) ==>
              IsDirectory(img, img.dirs[n][i].inode) && rank(img.dirs[n][i].inode) < rank(n)
  {
    assert DirOk(img, rank, n);
  }

  lemma {:induction false} WalkStep(img: Image, n: nat, i: nat, comps: seq<string>)
    requires IsDirectory(img, n) && i < |img.dirs[n]| && comps != [] && Lookup(img, n, comps[0], 0) == i
    ensures Walk(img, n, comps) == Walk(img, img.dirs[n][i].inode, comps[1..])
    ensures Near(img, n, comps) <==> Counts(img, n, i) && Near(img, img.dirs[n][i].inode, comps[1..])
  {
  }

  /** A walk that leads from n to file m, along a non-empty list of names that cache_at sees. */
  predicate Leads(img: Image, n: nat, comps: seq<string>, m: nat)
  {
    && comps != [] && (forall i :: 0 <= i < |comps| ==> ValidName(comps[i]))
    && Walk(img, n, comps) == Reached(m) && IsFile(img, m) && Near(img, n, comps)
  }

  lemma {:induction false} LeadsStep(img: Image, rank: nat -> nat, n: nat, i: nat, rest: seq<string>, m: nat)
    requires Tree(img, rank) && IsDirectory(img, n) && i < |img.dirs[n]| && Counts(img, n, i)
    requires if rest == [] then m == img.dirs[n][i].inode && IsFile(img, m) else Leads(img, img.dirs[n][i].inode, rest, m)
    ensures Leads(img, n, [img.dirs[n][i].name] + rest, m)
  {
    var comps := [img.dirs[n][i].name] + rest;
    LookupUnique(img, rank, n, i);
    assert comps[1..] == rest;
    WalkStep(img, n, i, comps);
  }

  lemma {:induction false} KeyStep(cwd: string, n: nat, name: string, a: nat, rest: seq<string>)
    requires a != ROOT
    ensures KeyOf(cwd, n, [name] + rest) == KeyOf(Base(Recode(cwd), n) + name, a, rest)
  {
    assert ([name] + rest)[1..] == rest;
  }

  lemma {:induction false} PathStep(cwd: string, n: nat, name: string, a: nat, rest: seq<string>)
    requires a != ROOT
    ensures PathOf(cwd, n, [name] + rest) == PathOf(Base(cwd, n) + name, a, rest)
  {
    assert ([name] + rest)[1..] == rest;
  }

  /** Everything in the cache was found by walking, and is stored under its key. */
  lemma {:induction false} CachedSound(img: Image, rank: nat -> nat, cwd: string, n: nat, p: string) returns (comps: seq<string>, m: nat)
    requires Tree(img, rank) && IsDirectory(img, n) && p in Cached(img, rank, cwd, n)
    ensures Leads(img, n, comps, m) && p == KeyOf(cwd, n, comps)
    ensures Cached(img, rank, cwd, n)[p] == img.inodes[m]
    decreases rank(n), |img.dirs[n]| + 1
  {
    CachedNone(img, rank, cwd, n);
    comps, m := BelowSound(img, rank, cwd, n, Seen(img, n), p);
  }

  lemma {:induction false} BelowSound(img: Image, rank: nat -> nat, cwd: string, n: nat, i: nat, p: string) returns (comps: seq<string>, m: nat)
    requires Tree(img, rank) && IsDirectory(img, n) && i <= |img.dirs[n]| && p in CachedBelow(img, rank, cwd, n, i)
    ensures Leads(img, n, comps, m) && p == KeyOf(cwd, n, comps)
    ensures CachedBelow(img, rank, cwd, n, i)[p] == img.inodes[m]
    decreases rank(n), i
  {
    hide Tree;
    if p in CachedEntry(img, rank, cwd, n, i - 1) {
      comps, m := EntrySound(img, rank, cwd, n, i - 1, p);
    } else {
      comps, m := BelowSound(img, rank, cwd, n, i - 1, p);
    }
  }

  lemma {:induction false} EntrySound(img: Image, rank: nat -> nat, cwd: string, n: nat, i: nat, p: string) returns (comps: seq<string>, m: nat)
    requires Tree(img, rank) && IsDirectory(img, n) && i < |img.dirs[n]| && p in CachedEntry(img, rank, cwd, n, i)
    ensures Counts(img, n, i) && comps != [] && comps[0] == img.dirs[n][i].name
    ensures Leads(img, n, comps, m) && p == KeyOf(cwd, n, comps)
    ensures CachedEntry(img, rank, cwd, n, i)[p] == img.inodes[m]
    decreases rank(n), i
  {
    var e := img.dirs[n][i];
    var path := Base(Recode(cwd), n) + e.name;
    LookupUnique(img, rank, n, i);
    var rest := [];
    if IsDir(img.inodes[e.inode]) {
      rest, m := CachedSound(img, rank, path, e.inode, p);
    } else {
      m := e.inode;
    }
    comps := [e.name] + rest;
    LeadsStep(img, rank, n, i, rest, m);
    KeyStep(cwd, n, e.name, e.inode, rest);
  }

  /** Every file below n, among the entries seen, has only ASCII directories on the way. */
  ghost predicate AsciiBelow(img: Image, n: nat)
  {
    forall comps, m :: Leads(img, n, comps, m) ==> AsciiDirs(comps)
  }

  lemma {:induction false} AsciiCopy(s: string)
    requires Ascii(s)
    ensures Recode(s) == s
  {
    assert Bytes(s);
    RecodeIsCopy(s);
  }

  lemma {:induction false} AsciiJoin(c: string, n: nat, a: string)
    requires Ascii(c) && Ascii(a)
    ensures Ascii(Base(c, n) + a)
  {
  }

  /** Then a file's key is its path. */
  lemma {:induction false} KeyIsPath(c: string, n: nat, comps: seq<string>)
    requires Ascii(c) && AsciiDirs(comps)
    ensures KeyOf(c, n, comps) == PathOf(c, n, comps)
    decreases |comps|
  {
    if comps != [] {
      AsciiCopy(c);
      if comps[1..] != [] {
        assert Ascii(comps[0]);
        AsciiJoin(c, n, comps[0]);
        assert forall i :: 0 <= i < |comps[1..]| - 1 ==> comps[1..][i] == comps[i + 1];
        KeyIsPath(Base(c, n) + comps[0], 0, comps[1..]);
      }
    }
  }

  lemma {:induction false} AsciiBelowEntry(img: Image, rank: nat -> nat, n: nat, i: nat)
    requires Tree(img, rank) && IsDirectory(img, n) && i < |img.dirs[n]| && Counts(img, n, i) && AsciiBelow(img, n)
    ensures AsciiBelow(img, img.dirs[n][i].inode)
  {
    var e := img.dirs[n][i];
    forall rest, m | Leads(img, e.inode, rest, m) ensures AsciiDirs(rest) {
      LeadsStep(img, rank, n, i, rest, m);
      var comps := [e.name] + rest;
      assert AsciiDirs(comps);
      assert forall j :: 0 <= j < |rest| ==> rest[j] == comps[j + 1];
    }
  }

  /** No other entry of the directory stores anything at a path below entry i. */
  lemma {:induction false} OtherEntriesApart(img: Image, rank: nat -> nat, cwd: string, n: nat, i: nat, j: nat, p: string)
    requires Tree(img, rank) && IsDirectory(img, n) && i < |img.dirs[n]| && j < |img.dirs[n]| && i != j
    requires Ascii(cwd) && AsciiBelow(img, n)
    requires Counts(img, n, i) && Under(p, Base(cwd, n) + img.dirs[n][i].name)
    ensures p !in CachedEntry(img, rank, cwd, n, j)
  {
    hide Tree, CachedEntry;
    LookupUnique(img, rank, n, i);
    if p in CachedEntry(img, rank, cwd, n, j) {
      var comps, m := EntrySound(img, rank, cwd, n, j, p);
      LookupUnique(img, rank, n, j);
      KeyIsPath(cwd, n, comps);
      assert comps == [comps[0]] + comps[1..];
      PathStep(cwd, n, comps[0], 0, comps[1..]);
      PathUnder(Base(cwd, n) + comps[0], comps[1..]);
      NamesSeparate(Base(cwd, n), img.dirs[n][i].name, img.dirs[n][j].name, p);
    }
  }

  lemma {:induction false} EntryKept(img: Image, rank: nat -> nat, cwd: string, n: nat, i: nat, j: nat, p: string)
    requires Tree(img, rank) && IsDirectory(img, n) && i < j <= |img.dirs[n]| && p in CachedEntry(img, rank, cwd, n, i)
    requires Counts(img, n, i) && Under(p, Base(cwd, n) + img.dirs[n][i].name)
    requires Ascii(cwd) && AsciiBelow(img, n)
    ensures p in CachedBelow(img, rank, cwd, n, j)
    ensures CachedBelow(img, rank, cwd, n, j)[p] == CachedEntry(img, rank, cwd, n, i)[p]
    decreases j
  {
    hide Tree, CachedEntry;
    if i < j - 1 {
      EntryKept(img, rank, cwd, n, i, j - 1, p);
      OtherEntriesApart(img, rank, cwd, n, i, j - 1, p);
    }
  }

  /** Every file that walking finds, among the entries seen, is in the cache under its path. */
  lemma {:induction false} CachedComplete(img: Image, rank: nat -> nat, cwd: string, n: nat, comps: seq<string>, m: nat)
    requires Tree(img, rank) && IsDirectory(img, n) && Leads(img, n, comps, m) && Ascii(cwd) && AsciiBelow(img, n)
    ensures PathOf(cwd, n, comps) in Cached(img, rank, cwd, n)
    ensures Cached(img, rank, cwd, n)[PathOf(cwd, n, comps)] == img.inodes[m]
    decreases |comps|
  {
    hide Tree, Cached, CachedBelow, AsciiBelow;
    var i := Lookup(img, n, comps[0], 0);
    var e, rest, p := img.dirs[n][i], comps[1..], PathOf(cwd, n, comps);
    LookupUnique(img, rank, n, i);
    WalkStep(img, n, i, comps);
    assert comps == [e.name] + rest;
    PathStep(cwd, n, e.name, e.inode, rest);
    PathStep(cwd, n, e.name, 0, rest);
    PathUnder(Base(cwd, n) + e.name, rest);
    AsciiCopy(cwd);
    CachedStep(img, rank, cwd, n, i, map[]);
    if IsDir(img.inodes[e.inode]) {
      AsciiWay(img, n, comps, m);
      AsciiJoin(cwd, n, e.name);
      AsciiBelowEntry(img, rank, n, i);
      CachedComplete(img, rank, Base(cwd, n) + e.name, e.inode, rest, m);
    }
    EntryKept(img, rank, cwd, n, i, Seen(img, n), p);
    CachedNone(img, rank, cwd, n);
  }

  lemma {:induction false} AsciiWay(img: Image, n: nat, comps: seq<string>, m: nat)
    requires AsciiBelow(img, n) && Leads(img, n, comps, m) && |comps| >= 2
    ensures Ascii(comps[0])
  {
    assert AsciiDirs(comps);
  }

  // ---------------------------------------------------------------- paths as strings

  function FirstSlash(s: string): (i: nat)
    ensures i <= |s| && (i < |s| ==> s[i] == '/') && '/' !in s[..i]
  {
    if s == "" then 0 else if s[0] == '/' then 0 else
    var i := 1 + FirstSlash(s[1..]);
    assert s[..i] == [s[0]] + s[1..][..i - 1];
    i
  }

  /** The components of a path without its leading slash. */
  function Split(s: string): (r: seq<string>)
    ensures r != []
    decreases |s|
  {
    var i := FirstSlash(s);
    if i == |s| then [s] else [s[..i]] + Split(s[i + 1..])
  }

  lemma {:induction false} SplitUnfolds(s: string)
    ensures var i := FirstSlash(s);
            if i == |s| then Split(s) == [s]
            else s == s[..i] + "/" + s[i + 1..] && Split(s) == [s[..i]] + Split(s[i + 1..])
  {
  }

  lemma {:induction false} JoinSplit(c: string, n: nat, s: string)
    ensures PathOf(c, n, Split(s)) == Base(c, n) + s
    decreases |s|
  {
    hide Split, PathOf, FirstSlash;
    var i := FirstSlash(s);
    SplitUnfolds(s);
    if i == |s| {
      PathOfOne(c, n, s);
    } else {
      var a, t := s[..i], s[i + 1..];
      PathStep(c, n, a, 0, Split(t));
      JoinSplit(Base(c, n) + a, 0, t);
      SlashNests(Base(c, n), a, t);
    }
  }

  lemma {:induction false} SlashNests(c: string, a: string, t: string)
    ensures c + a + "/" + t == c + (a + "/" + t)
  {
  }

  lemma {:induction false} PathOfOne(c: string, n: nat, a: string)
    ensures PathOf(c, n, [a]) == Base(c, n) + a
  {
    assert [a][1..] == [];
  }

  lemma {:induction false} FirstSlashAt(a: string, t: string)
    requires '/' !in a
    ensures FirstSlash(a + "/" + t) == |a|
  {
    var s := a + "/" + t;
    if a != "" {
      assert s[0] == a[0] && a[0] in a;
      assert s[1..] == a[1..] + "/" + t;
      FirstSlashAt(a[1..], t);
    }
  }

  lemma {:induction false} SplitName(a: string)
    requires '/' !in a
    ensures FirstSlash(a) == |a| && Split(a) == [a]
  {
    if a != "" {
      assert a[0] in a;
      SplitName(a[1..]);
    }
  }

  lemma {:induction false} SplitCons(a: string, t: string)
    requires '/' !in a
    ensures Split(a + "/" + t) == [a] + Split(t)
  {
    var s := a + "/" + t;
    FirstSlashAt(a, t);
    assert s[..|a|] == a && s[|a| + 1..] == t;
  }

  /** Splitting the path of some names gives the names back. */
  lemma {:induction false} SplitJoin(c: string, n: nat, comps: seq<string>) returns (s: string)
    requires comps != [] && forall i :: 0 <= i < |comps| ==> ValidName(comps[i])
    ensures PathOf(c, n, comps) == Base(c, n) + s && Split(s) == comps
    decreases |comps|
  {
    hide Split;
    var a, rest := comps[0], comps[1..];
    assert comps == [a] + rest;
    PathStep(c, n, a, 0, rest);
    if rest == [] {
      SplitName(a);
      s := a;
    } else {
      var t := SplitJoin(Base(c, n) + a, 0, rest);
      SplitCons(a, t);
      s := a + "/" + t;
      SlashNests(Base(c, n), a, t);
    }
  }

  /** The file a path leads to, component by component from the root. */
  function FileAt(img: Image, p: string): Found
  {
    if p == "" || p[0] != '/' then Nowhere
    else
      var r := Walk(img, ROOT, Split(p[1..]));
      if r.Reached? && IsFile(img, r.inode) then r else Nowhere
  }

  predicate NearPath(img: Image, p: string) { p != "" && Near(img, ROOT, Split(p[1..])) }

  /**
   With ASCII directories, the cache maps a path to an inode exactly when walking the path
   reaches that file and finds each component among the entries that cache_at sees.
   */
  lemma {:induction false} CacheIsWalk(img: Image, rank: nat -> nat, p: string)
    requires Tree(img, rank) && AsciiBelow(img, ROOT)
    ensures p in Cached(img, rank, "/", ROOT) <==> FileAt(img, p).Reached? && NearPath(img, p)
    ensures p in Cached(img, rank, "/", ROOT) ==>
              FileAt(img, p).inode in img.inodes
              && Cached(img, rank, "/", ROOT)[p] == img.inodes[FileAt(img, p).inode]
  {
    if p in Cached(img, rank, "/", ROOT) {
      var comps, m := CachedSound(img, rank, "/", ROOT, p);
      KeyIsPath("/", ROOT, comps);
      PathLeads(img, comps, m, p);
    }
    if FileAt(img, p).Reached? && NearPath(img, p) {
      JoinSplit("/", ROOT, p[1..]);
      assert "/" + p[1..] == p;
      NearNamesValid(img, rank, ROOT, Split(p[1..]));
      CachedComplete(img, rank, "/", ROOT, Split(p[1..]), FileAt(img, p).inode);
    }
  }

  /** The path of a walk to a file leads there. */
  lemma {:induction false} PathLeads(img: Image, comps: seq<string>, m: nat, p: string)
    requires Walk(img, ROOT, comps) == Reached(m) && IsFile(img, m) && p == PathOf("/", ROOT, comps)
    requires comps != [] && forall i :: 0 <= i < |comps| ==> ValidName(comps[i])
    ensures p != "" && Split(p[1..]) == comps && FileAt(img, p) == Reached(m)
  {
    hide Split, Walk;
    var s := SplitJoin("/", ROOT, comps);
    assert p == "/" + s && p[1..] == s;
  }

  lemma {:induction false} NearNamesValid(img: Image, rank: nat -> nat, n: nat, comps: seq<string>)
    requires Tree(img, rank) && Near(img, n, comps)
    ensures forall i :: 0 <= i < |comps| ==> ValidName(comps[i])
    decreases |comps|
  {
    if comps != [] {
      var i := Lookup(img, n, comps[0], 0);
      LookupUnique(img, rank, n, i);
      NearNamesValid(img, rank, img.dirs[n][i].inode, comps[1..]);
      assert forall j :: 0 < j < |comps| ==> comps[j] == comps[1..][j - 1];
    }
  }

  // ---------------------------------------------------------------- when the cache holds all files

  predicate Plain(comps: seq<string>) { forall i :: 0 <= i < |comps| ==> !Dotted(comps[i]) }

  /** No component is `.` or `..`; cache_at stores no others. */
  predicate PlainPath(p: string) { p != "" ==> Plain(Split(p[1..])) }

  /** Inode m is a file, or a directory with a file somewhere below it. */
  ghost predicate Bears(img: Image, rank: nat -> nat, m: nat)
    requires Tree(img, rank)
    decreases if m in img.inodes && IsDir(img.inodes[m]) then rank(m) + 1 else 0
  {
    && m in img.inodes
    && (IsDir(img.inodes[m]) ==>
          m in img.dirs && DirOk(img, rank, m)
          && exists i :: 2 <= i < |img.dirs[m]| && Live(img, m, i) && Bears(img, rank, img.dirs[m][i].inode))
  }

  /** Directory n, reached by comps, has an entry i past its first block with a file at or below it. */
  ghost predicate HiddenAt(img: Image, rank: nat -> nat, comps: seq<string>, n: nat, i: nat)
    requires Tree(img, rank)
  {
    && Plain(comps) && Walk(img, ROOT, comps) == Reached(n) && IsDirectory(img, n)
    && PER_BLOCK <= i < |img.dirs[n]| && Live(img, n, i) && Bears(img, rank, img.dirs[n][i].inode)
  }

  ghost predicate HidesFile(img: Image, rank: nat -> nat)
    requires Tree(img, rank)
  {
    exists comps, n: nat, i: nat :: HiddenAt(img, rank, comps, n, i)
  }

  /** A name other than `.` and `..` is looked up behind those two. */
  lemma {:induction false} PlainStep(img: Image, rank: nat -> nat, n: nat, comps: seq<string>)
    requires Tree(img, rank) && comps != [] && !Dotted(comps[0]) && Walk(img, n, comps).Reached?
    ensures IsDirectory(img, n) && n in img.dirs
    ensures var i := Lookup(img, n, comps[0], 0);
            && 2 <= i < |img.dirs[n]| && Live(img, n, i) && ValidName(comps[0]) && img.dirs[n][i].name == comps[0]
            && img.dirs[n][i].inode in img.inodes
            && Walk(img, n, comps) == Walk(img, img.dirs[n][i].inode, comps[1..])
            && (IsDir(img.inodes[img.dirs[n][i].inode]) ==> rank(img.dirs[n][i].inode) < rank(n))
  {
    assert DirOk(img, rank, n);
  }

  lemma {:induction false} PlainTail(comps: seq<string>)
    requires Plain(comps) && comps != []
    ensures Plain(comps[1..]) && !Dotted(comps[0])
  {
  }

  lemma {:induction false} WalkJoin(img: Image, n: nat, a: seq<string>, b: seq<string>, k: nat)
    requires Walk(img, n, a) == Reached(k)
    ensures Walk(img, n, a + b) == Walk(img, k, b)
    decreases |a|
  {
    if a == [] {
      assert a + b == b;
    } else {
      assert (a + b)[1..] == a[1..] + b;
      WalkJoin(img, img.dirs[n][Lookup(img, n, a[0], 0)].inode, a[1..], b, k);
    }
  }

  lemma {:induction false} NearJoin(img: Image, n: nat, a: seq<string>, b: seq<string>, k: nat)
    requires Walk(img, n, a) == Reached(k) && Near(img, n, a + b)
    ensures Near(img, k, b)
    decreases |a|
  {
    if a == [] {
      assert a + b == b;
    } else {
      assert (a + b)[1..] == a[1..] + b;
      NearJoin(img, img.dirs[n][Lookup(img, n, a[0], 0)].inode, a[1..], b, k);
    }
  }

  lemma {:induction false} WalkedNamesValid(img: Image, rank: nat -> nat, n: nat, comps: seq<string>)
    requires Tree(img, rank) && Plain(comps) && Walk(img, n, comps).Reached?
    ensures forall i :: 0 <= i < |comps| ==> ValidName(comps[i])
    decreases |comps|
  {
    if comps != [] {
      PlainTail(comps);
      PlainStep(img, rank, n, comps);
      WalkedNamesValid(img, rank, img.dirs[n][Lookup(img, n, comps[0], 0)].inode, comps[1..]);
      assert forall i :: 0 < i < |comps| ==> comps[i] == comps[1..][i - 1];
    }
  }

  lemma {:induction false} BearsByEntry(img: Image, rank: nat -> nat, n: nat, i: nat)
    requires Tree(img, rank) && IsDirectory(img, n) && 2 <= i < |img.dirs[n]| && Live(img, n, i)
    requires Bears(img, rank, img.dirs[n][i].inode)
    ensures Bears(img, rank, n)
  {
    assert DirOk(img, rank, n);
  }

  /** Who can be walked from to a file bears it. */
  lemma {:induction false} WalkBears(img: Image, rank: nat -> nat, m: nat, comps: seq<string>, f: nat)
    requires Tree(img, rank) && Plain(comps) && Walk(img, m, comps) == Reached(f) && IsFile(img, f)
    ensures Bears(img, rank, m)
    decreases |comps|
  {
    hide Bears, Tree;
    if comps == [] {
      FileBears(img, rank, m);
    } else {
      PlainTail(comps);
      PlainStep(img, rank, m, comps);
      var i := Lookup(img, m, comps[0], 0);
      WalkBears(img, rank, img.dirs[m][i].inode, comps[1..], f);
      BearsByEntry(img, rank, m, i);
    }
  }

  lemma {:induction false} FileBears(img: Image, rank: nat -> nat, m: nat)
    requires Tree(img, rank) && IsFile(img, m)
    ensures Bears(img, rank, m)
  {
  }

  /** And the other way round. */
  lemma {:induction false} BearsWalk(img: Image, rank: nat -> nat, m: nat) returns (comps: seq<string>, f: nat)
    requires Tree(img, rank) && Bears(img, rank, m)
    ensures Plain(comps) && Walk(img, m, comps) == Reached(f) && IsFile(img, f)
    decreases if m in img.inodes && IsDir(img.inodes[m]) then rank(m) + 1 else 0
  {
    if IsDir(img.inodes[m]) {
      var i :| 2 <= i < |img.dirs[m]| && Live(img, m, i) && Bears(img, rank, img.dirs[m][i].inode);
      LookupUnique(img, rank, m, i);
      var rest;
      rest, f := BearsWalk(img, rank, img.dirs[m][i].inode);
      comps := [img.dirs[m][i].name] + rest;
      assert comps[1..] == rest;
      WalkStep(img, m, i, comps);
    } else {
      comps, f := [], m;
    }
  }

  /** Without hidden files, a plain walk to a file uses only entries that cache_at sees. */
  lemma {:induction false} NothingHiddenIsNear(img: Image, rank: nat -> nat, pre: seq<string>, n: nat, comps: seq<string>, f: nat)
    requires Tree(img, rank) && !HidesFile(img, rank) && Plain(pre) && Walk(img, ROOT, pre) == Reached(n)
    requires Plain(comps) && Walk(img, n, comps) == Reached(f) && IsFile(img, f)
    ensures Near(img, n, comps)
    decreases |comps|
  {
    hide Tree, Bears;
    if comps != [] {
      PlainTail(comps);
      PlainStep(img, rank, n, comps);
      var i := Lookup(img, n, comps[0], 0);
      var m := img.dirs[n][i].inode;
      WalkBears(img, rank, m, comps[1..], f);
      assert !HiddenAt(img, rank, pre, n, i);
      WalkJoin(img, ROOT, pre, [comps[0]], n);
      WalkOne(img, n, comps[0]);
      NothingHiddenIsNear(img, rank, pre + [comps[0]], m, comps[1..], f);
    }
  }

  lemma {:induction false} WalkOne(img: Image, n: nat, name: string)
    requires IsDirectory(img, n) && Lookup(img, n, name, 0) < |img.dirs[n]|
    ensures Walk(img, n, [name]) == Reached(img.dirs[n][Lookup(img, n, name, 0)].inode)
  {
    assert [name][1..] == [];
  }

  /** Directory n, reached by comps, has a subdirectory i whose name is not ASCII, with a file below it. */
  ghost predicate GarbledAt(img: Image, rank: nat -> nat, comps: seq<string>, n: nat, i: nat)
    requires Tree(img, rank)
  {
    && Plain(comps) && Walk(img, ROOT, comps) == Reached(n) && IsDirectory(img, n)
    && 2 <= i < |img.dirs[n]| && Live(img, n, i) && !Ascii(img.dirs[n][i].name)
    && !IsFile(img, img.dirs[n][i].inode) && Bears(img, rank, img.dirs[n][i].inode)
  }

  ghost predicate GarblesFile(img: Image, rank: nat -> nat)
    requires Tree(img, rank)
  {
    exists comps, n: nat, i: nat :: GarbledAt(img, rank, comps, n, i)
  }

  /** Without such subdirectories, a plain walk to a file goes through ASCII directories. */
  lemma {:induction false} NothingGarbledIsAscii(img: Image, rank: nat -> nat, pre: seq<string>, n: nat, comps: seq<string>, f: nat)
    requires Tree(img, rank) && !GarblesFile(img, rank) && Plain(pre) && Walk(img, ROOT, pre) == Reached(n)
    requires Plain(comps) && Walk(img, n, comps) == Reached(f) && IsFile(img, f)
    ensures AsciiDirs(comps)
    decreases |comps|
  {
    hide Tree, Bears;
    if |comps| >= 2 {
      PlainTail(comps);
      PlainStep(img, rank, n, comps);
      var i := Lookup(img, n, comps[0], 0);
      var m := img.dirs[n][i].inode;
      WalkBears(img, rank, m, comps[1..], f);
      PlainTail(comps[1..]);
      PlainStep(img, rank, m, comps[1..]);
      assert !GarbledAt(img, rank, pre, n, i);
      WalkJoin(img, ROOT, pre, [comps[0]], n);
      WalkOne(img, n, comps[0]);
      NothingGarbledIsAscii(img, rank, pre + [comps[0]], m, comps[1..], f);
      assert forall j :: 0 < j < |comps| ==> comps[j] == comps[1..][j - 1];
    }
  }

  /** A walk to a file through entry i of directory n, which pre leads to. */
  lemma {:induction false} WalkThrough(img: Image, rank: nat -> nat, pre: seq<string>, n: nat, i: nat) returns (rest: seq<string>, f: nat)
    requires Tree(img, rank) && Plain(pre) && Walk(img, ROOT, pre) == Reached(n) && IsDirectory(img, n)
    requires 2 <= i < |img.dirs[n]| && Live(img, n, i) && Bears(img, rank, img.dirs[n][i].inode)
    ensures var e := img.dirs[n][i];
            var comps := pre + ([e.name] + rest);
            && Plain(comps) && Walk(img, ROOT, comps) == Reached(f) && IsFile(img, f)
            && (!IsFile(img, e.inode) ==> rest != []) && Lookup(img, n, e.name, 0) == i
  {
    hide Tree, Bears;
    var e := img.dirs[n][i];
    rest, f := BearsWalk(img, rank, e.inode);
    LookupUnique(img, rank, n, i);
    var tail := [e.name] + rest;
    assert tail[1..] == rest;
    WalkStep(img, n, i, tail);
    WalkJoin(img, ROOT, pre, tail, n);
  }

  /** The key of a file is at least as long as its path, and longer if a directory's name is not ASCII. */
  lemma {:induction false} KeyVsPath(k: string, c: string, n: nat, comps: seq<string>)
    requires |k| >= |c| && Bytes(k) && forall i :: 0 <= i < |comps| ==> Bytes(comps[i])
    ensures |KeyOf(k, n, comps)| >= |PathOf(c, n, comps)|
    ensures |k| > |c| || (comps != [] && !Ascii(k)) || !AsciiDirs(comps) ==> |KeyOf(k, n, comps)| > |PathOf(c, n, comps)|
    decreases |comps|
  {
    if comps != [] {
      var k', c' := Base(Recode(k), n) + comps[0], Base(c, n) + comps[0];
      RecodeGrows(k);
      RecodeIsCopy(k);
      RecodeBytes(k);
      assert Bytes(comps[0]) && Bytes(k');
      assert forall i :: 0 < i < |comps| ==> comps[i] == comps[1..][i - 1];
      if !Ascii(comps[0]) { NotAsciiJoin(Base(Recode(k), n), comps[0]); }
      KeyVsPath(k', c', 0, comps[1..]);
    }
  }

  lemma {:induction false} NotAsciiJoin(c: string, a: string)
    requires !Ascii(a)
    ensures !Ascii(c + a)
  {
    var x :| x in a && x >= 128 as char;
    assert x in c + a;
  }

  lemma {:induction false} ValidIsPlain(comps: seq<string>)
    requires forall i :: 0 <= i < |comps| ==> ValidName(comps[i])
    ensures Plain(comps) && forall i :: 0 <= i < |comps| ==> Bytes(comps[i])
  {
  }

  /**
   Where a file is hidden or garbled, some file's path is not in the cache. It may be that
   the path at hand is in it, as the key of another file; but then that file is garbled too,
   and its path is shorter.
   */
  lemma {:induction false} BadIsMissed(img: Image, rank: nat -> nat, comps: seq<string>, m: nat) returns (p: string)
    requires Tree(img, rank) && comps != [] && Plain(comps) && Walk(img, ROOT, comps) == Reached(m) && IsFile(img, m)
    requires !Near(img, ROOT, comps) || !AsciiDirs(comps)
    ensures PlainPath(p) && FileAt(img, p).Reached? && p !in Cached(img, rank, "/", ROOT)
    decreases |PathOf("/", ROOT, comps)|
  {
    hide Cached, Split, Walk, Near, KeyOf, PathOf;
    WalkedNamesValid(img, rank, ROOT, comps);
    p := PathOf("/", ROOT, comps);
    PathLeads(img, comps, m, p);
    if p in Cached(img, rank, "/", ROOT) {
      var other, f := CachedSound(img, rank, "/", ROOT, p);
      if AsciiDirs(other) {
        KeyIsPath("/", ROOT, other);
        PathLeads(img, other, f, p);
      }
      ValidIsPlain(other);
      KeyVsPath("/", "/", ROOT, other);
      p := BadIsMissed(img, rank, other, f);
    }
  }

  /**
   The cache agrees with walking, on all paths without `.` and `..`, exactly when no directory
   that can be reached has an entry past its first block with a file at or below it, nor a
   subdirectory with a name that is not ASCII and a file below it.
   */
  lemma {:induction false} CacheAgreesIff(img: Image, rank: nat -> nat)
    requires Tree(img, rank)
    ensures (forall p :: PlainPath(p) ==> (p in Cached(img, rank, "/", ROOT) <==> FileAt(img, p).Reached?))
            <==> !HidesFile(img, rank) && !GarblesFile(img, rank)
    ensures !GarblesFile(img, rank) ==> AsciiBelow(img, ROOT)
  {
    hide Bears, Cached, Split, Walk, Near, Leads;
    if HidesFile(img, rank) {
      var pre, n: nat, i: nat :| HiddenAt(img, rank, pre, n, i);
      var rest, f := WalkThrough(img, rank, pre, n, i);
      FarIsNotNear(img, pre, n, i, rest);
      var p := BadIsMissed(img, rank, pre + ([img.dirs[n][i].name] + rest), f);
    }
    if GarblesFile(img, rank) {
      var pre, n: nat, i: nat :| GarbledAt(img, rank, pre, n, i);
      var rest, f := WalkThrough(img, rank, pre, n, i);
      var comps := pre + ([img.dirs[n][i].name] + rest);
      assert comps[|pre|] == img.dirs[n][i].name && |pre| < |comps| - 1;
      var p := BadIsMissed(img, rank, comps, f);
    } else {
      NothingGarbledBelow(img, rank);
      if !HidesFile(img, rank) { AllIsCached(img, rank); }
    }
  }

  lemma {:induction false} FarIsNotNear(img: Image, pre: seq<string>, n: nat, i: nat, rest: seq<string>)
    requires Walk(img, ROOT, pre) == Reached(n) && n in img.dirs && PER_BLOCK <= i < |img.dirs[n]|
    requires Lookup(img, n, img.dirs[n][i].name, 0) == i
    ensures !Near(img, ROOT, pre + ([img.dirs[n][i].name] + rest))
  {
    var tail := [img.dirs[n][i].name] + rest;
    if Near(img, ROOT, pre + tail) {
      NearJoin(img, ROOT, pre, tail, n);
    }
  }

  lemma {:induction false} NothingGarbledBelow(img: Image, rank: nat -> nat)
    requires Tree(img, rank) && !GarblesFile(img, rank)
    ensures AsciiBelow(img, ROOT)
  {
    hide Tree, Bears, GarblesFile;
    forall comps, m | Leads(img, ROOT, comps, m) ensures AsciiDirs(comps) {
      ValidIsPlain(comps);
      NothingGarbledIsAscii(img, rank, [], ROOT, comps, m);
    }
  }

  lemma {:induction false} AllIsCached(img: Image, rank: nat -> nat)
    requires Tree(img, rank) && !HidesFile(img, rank) && AsciiBelow(img, ROOT)
    ensures forall p :: PlainPath(p) ==> (p in Cached(img, rank, "/", ROOT) <==> FileAt(img, p).Reached?)
  {
    hide Bears, Cached, Split, HiddenAt, AsciiBelow;
    forall p | PlainPath(p) ensures p in Cached(img, rank, "/", ROOT) <==> FileAt(img, p).Reached? {
      CacheIsWalk(img, rank, p);
      if FileAt(img, p).Reached? {
        NothingHiddenIsNear(img, rank, [], ROOT, Split(p[1..]), FileAt(img, p).inode);
      }
    }
  }

  /** Directories of one block hide nothing. */
  lemma {:induction false} OneBlockHidesNothing(img: Image, rank: nat -> nat)
    requires Tree(img, rank) && forall n :: n in img.dirs ==> |img.dirs[n]| <= PER_BLOCK
    ensures !HidesFile(img, rank)
  {
  }

  // ---------------------------------------------------------------- a directory of two blocks

  /** A root with fifteen files in it, one entry more than a block holds. */
  function TwoBlockRoot(dir: Inode, file: Inode): Image
  {
    Image(map[1 := dir, 2 := file],
          map[1 := seq(17, i requires 0 <= i < 17 => if i == 0 then DirEntry(1, ".") else if i == 1 then DirEntry(1, "..") else DirEntry(2, Letters(i)))])
  }

  function Letters(i: nat): (s: string)
    ensures |s| == i && forall c :: c in s ==> c == 'a'
  {
    seq(i, _ => 'a')
  }

  /** Its last file is found by walking but not in the cache. */
  lemma {:induction false} LastFileIsMissed(dir: Inode, file: Inode, rank: nat -> nat)
    requires IsDir(dir) && !IsDir(file)
    ensures var img, p := TwoBlockRoot(dir, file), "/" + Letters(16);
            Tree(img, rank) && FileAt(img, p) == Reached(2) && p !in Cached(img, rank, "/", ROOT)
  {
    hide Cached, Split, IsDir, Tree, TwoBlockRoot, Letters, Walk, Near, AsciiBelow;
    var img, p := TwoBlockRoot(dir, file), "/" + Letters(16);
    TwoBlockTree(dir, file, rank);
    assert p[1..] == Letters(16);
    SplitName(Letters(16));
    LastLookup(img, rank, Letters(16));
    CacheIsWalk(img, rank, p);
  }

  /** Without subdirectories there is no directory's name to garble. */
  lemma {:induction false} FlatIsAscii(img: Image)
    requires IsDirectory(img, ROOT) && forall i :: Counts(img, ROOT, i) ==> IsFile(img, img.dirs[ROOT][i].inode)
    ensures AsciiBelow(img, ROOT)
  {
    forall comps, m | Leads(img, ROOT, comps, m) ensures AsciiDirs(comps) {
      var i := Lookup(img, ROOT, comps[0], 0);
      WalkStep(img, ROOT, i, comps);
      FileEnds(img, img.dirs[ROOT][i].inode, comps[1..]);
    }
  }

  lemma {:induction false} FileEnds(img: Image, m: nat, comps: seq<string>)
    requires IsFile(img, m) && Walk(img, m, comps).Reached?
    ensures comps == []
  {
  }

  lemma {:induction false} LastLookup(img: Image, rank: nat -> nat, name: string)
    requires Tree(img, rank) && 1 in img.dirs && |img.dirs[1]| == 17 && img.dirs[1][16] == DirEntry(2, name)
    ensures Walk(img, 1, [name]) == Reached(2) && !Near(img, 1, [name])
  {
    LookupUnique(img, rank, 1, 16);
    WalkOne(img, 1, name);
  }

  lemma {:induction false} TwoBlockTree(dir: Inode, file: Inode, rank: nat -> nat)
    requires IsDir(dir) && !IsDir(file)
    ensures var img := TwoBlockRoot(dir, file);
            && Tree(img, rank) && IsFile(img, 2) && 1 in img.dirs && AsciiBelow(img, ROOT)
            && |img.dirs[1]| == 17 && img.dirs[1][16] == DirEntry(2, Letters(16))
  {
    var img := TwoBlockRoot(dir, file);
    forall i | 2 <= i < 17 ensures ValidName(img.dirs[1][i].name) {
      assert img.dirs[1][i].name == Letters(i);
      assert Letters(i)[0] == 'a';
    }
    forall i, j | 2 <= i < j < 17 ensures img.dirs[1][i].name != img.dirs[1][j].name {
      assert |Letters(i)| != |Letters(j)|;
    }
    FlatIsAscii(img);
  }

  // ---------------------------------------------------------------- a directory whose name is not ASCII

  /** One file, in a directory named with a single character. */
  function OneNamed(c: char, dir: Inode, file: Inode): Image
  {
    Image(map[1 := dir, 2 := dir, 3 := file],
          map[1 := [DirEntry(1, "."), DirEntry(1, ".."), DirEntry(2, [c])],
              2 := [DirEntry(2, "."), DirEntry(1, ".."), DirEntry(3, "f")]])
  }

  /** If that character is from 128 to 255, the file is found by walking but not in the cache. */
  lemma {:induction false} GarbledIsMissed(c: char, dir: Inode, file: Inode)
    requires 128 as char <= c < 256 as char && IsDir(dir) && !IsDir(file)
    ensures var img, p, rank := OneNamed(c, dir, file), "/" + [c] + "/f", (n: nat) => if n == 1 then 1 else 0;
            Tree(img, rank) && FileAt(img, p) == Reached(3) && p !in Cached(img, rank, "/", ROOT)
  {
    hide Cached, Split, IsDir, Tree, OneNamed, Walk, Near, KeyOf, PathOf;
    var img, p, rank := OneNamed(c, dir, file), "/" + [c] + "/f", (n: nat) => if n == 1 then 1 else 0;
    var comps := [[c], "f"];
    OneNamedTree(c, dir, file, rank);
    OneNamedPath(c);
    PathLeads(img, comps, 3, p);
    assert c in comps[0] && !Ascii(comps[0]) && !AsciiDirs(comps);
    if p in Cached(img, rank, "/", ROOT) {
      var other, f := CachedSound(img, rank, "/", ROOT, p);
      OnlyWalk(img, c, other, f);
      KeyVsPath("/", "/", ROOT, other);
    }
  }

  lemma {:induction false} OneNamedPath(c: char)
    ensures PathOf("/", ROOT, [[c], "f"]) == "/" + [c] + "/f"
  {
    PathStep("/", ROOT, [c], 0, ["f"]);
    PathOfOne("/" + [c], 0, "f");
    assert [[c]] + ["f"] == [[c], "f"];
  }

  /** What is known of that image. */
  ghost predicate OnlyOne(img: Image, c: char)
  {
    && 1 in img.dirs && 2 in img.dirs && |img.dirs[1]| == 3 && |img.dirs[2]| == 3
    && img.dirs[1][2] == DirEntry(2, [c]) && img.dirs[2][2] == DirEntry(3, "f")
    && IsDirectory(img, 1) && IsDirectory(img, 2) && IsFile(img, 3)
  }

  lemma {:induction false} OneNamedTree(c: char, dir: Inode, file: Inode, rank: nat -> nat)
    requires 128 as char <= c < 256 as char && IsDir(dir) && !IsDir(file) && rank(2) < rank(1)
    ensures var img := OneNamed(c, dir, file);
            && Tree(img, rank) && OnlyOne(img, c) && Walk(img, 1, [[c], "f"]) == Reached(3)
            && ValidName([c]) && ValidName("f")
  {
    hide IsDir;
    var img := OneNamed(c, dir, file);
    assert [c][0] == c && "f"[0] == 'f';
    assert Tree(img, rank);
    LookupUnique(img, rank, 1, 2);
    LookupUnique(img, rank, 2, 2);
    assert [[c], "f"][1..] == ["f"];
    WalkStep(img, 1, 2, [[c], "f"]);
    WalkOne(img, 2, "f");
  }

  lemma {:induction false} OnlyWalk(img: Image, c: char, comps: seq<string>, m: nat)
    requires OnlyOne(img, c) && Leads(img, 1, comps, m)
    ensures comps == [[c], "f"]
  {
    var i := Lookup(img, 1, comps[0], 0);
    WalkStep(img, 1, i, comps);
    assert i == 2;
    var rest := comps[1..];
    assert comps == [comps[0]] + rest;
    assert Walk(img, 2, []) == Reached(2);
    assert rest != [];
    var j := Lookup(img, 2, rest[0], 0);
    WalkStep(img, 2, j, rest);
    assert j == 2;
    FileEnds(img, 3, rest[1..]);
    assert rest == [rest[0]] + rest[1..];
  }
}
