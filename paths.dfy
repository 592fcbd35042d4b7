/** Which directory entries the batch loop picks up and where it writes each
    result (main.py lines 20-35). `str.lower`, `str.endswith`,
    `os.path.splitext` and `os.path.join` are written out here following the
    POSIX flavour of Python's path functions: `/` is the only separator and
    `.` the extension separator. */
module Paths {

  const InputDir: string := "in"
  const OutputDir: string := "out"

  /** The accepted suffixes, compared against the lower-cased name. */
  const Exts: seq<string> := [".png", ".jpg", ".jpeg"]

  function LowerChar(c: char): char
  {
    if 'A' <= c <= 'Z' then (c as int + 32) as char else c
  }

  /** `s.lower()` on the ASCII letters. */
  function Lower(s: string): (r: string)
    ensures |r| == |s| && forall i :: 0 <= i < |s| ==> r[i] == LowerChar(s[i])
  {
    seq(|s|, i requires 0 <= i < |s| => LowerChar(s[i]))
  }

  predicate EndsWith(s: string, suffix: string)
  {
    |suffix| <= |s| && s[|s| - |suffix|..] == suffix
  }

  /** `s.endswith(suffixes)` for a tuple of suffixes: true when any of them
      ends `s`. */
  function EndsWithAny(s: string, suffixes: seq<string>): (r: bool)
    ensures r <==> exists k :: 0 <= k < |suffixes| && EndsWith(s, suffixes[k])
  {
    if suffixes == [] then false
    else EndsWith(s, suffixes[0]) || EndsWithAny(s, suffixes[1..])
  }

  /** `file.lower().endswith((".png", ".jpg", ".jpeg"))`: some accepted
      suffix ends the lower-cased name. */
  predicate Supported(file: string)
  {
    EndsWithAny(Lower(file), Exts)
  }

  /** The filter spelled out: a name is accepted exactly when its lower-cased
      form ends in `.png`, `.jpg` or `.jpeg`. */
  lemma SupportedSuffixes(file: string)
    ensures Supported(file) <==>
      EndsWith(Lower(file), ".png") || EndsWith(Lower(file), ".jpg") || EndsWith(Lower(file), ".jpeg")
  {
    assert Exts[0] == ".png" && Exts[1] == ".jpg" && Exts[2] == ".jpeg";
  }

  /** `s.rfind(c)`: the index of the last `c` in `s`, or -1 when there is
      none. */
  function RFind(s: string, c: char): (r: int)
    ensures -1 <= r < |s|
    ensures r >= 0 ==> s[r] == c
    ensures forall k :: r < k < |s| ==> s[k] != c
  {
    LastBefore(s, c, |s|)
  }

  /** The index of the last `c` among the first `n` characters of `s`, or -1. */
  function LastBefore(s: string, c: char, n: nat): (r: int)
    requires n <= |s|
    ensures -1 <= r < n
    ensures r >= 0 ==> s[r] == c
    ensures forall k :: r < k < n ==> s[k] != c
  {
    if n == 0 then -1
    else if s[n - 1] == c then n - 1
    else LastBefore(s, c, n - 1)
  }

  /** A path has an extension when, past its last separator, some `.` comes
      after a character that is not a `.`: dots that only lead the file name
      do not count. */
  predicate HasExtension(p: string)
  {
    exists i, j :: RFind(p, '/') < i < j < |p| && p[i] != '.' && p[j] == '.'
  }

  /** `os.path.splitext(p)`: cut before the last `.` of the base name, unless
      everything before that `.` in the base name is itself dots. */
  function SplitExt(p: string): (r: (string, string))
    ensures r.0 + r.1 == p
    ensures r.1 == [] || (r.1[0] == '.' && '.' !in r.1[1..] && '/' !in r.1)
  {
    var sepIndex := RFind(p, '/');
    var dotIndex := RFind(p, '.');
    if dotIndex > sepIndex && exists k :: sepIndex < k < dotIndex && p[k] != '.'
    then (p[..dotIndex], p[dotIndex..])
    else (p, [])
  }

  /** `os.path.join(a, b)` for two components. */
  function Join(a: string, b: string): string
  {
    if |b| > 0 && b[0] == '/' then b
    else if a == [] || a[|a| - 1] == '/' then a + b
    else a + "/" + b
  }

  /** `os.path.splitext(file)[0]`. */
  function Stem(file: string): string
  {
    SplitExt(file).0
  }

  /** `os.path.join(input_dir, file)`. */
  function InputPath(file: string): string
  {
    Join(InputDir, file)
  }

  /** `os.path.join(output_dir, filename_no_ext + ".png")`: always a `.png`
      path, whatever the input name. */
  function OutputPath(file: string): (r: string)
    ensures EndsWith(r, ".png")
  {
    var name := Stem(file) + ".png";
    assert name[|name| - 4..] == ".png";
    JoinParts(OutputDir, name);
    SuffixOfSuffix(Join(OutputDir, name), name, ".png");
    Join(OutputDir, name)
  }

  /** What `os.path.join(a, b)` builds: an absolute `b` replaces `a`;
      otherwise the result starts with `a`, ends with `b`, and has a `/`
      between them unless `a` is empty or already ends in one. */
  lemma JoinParts(a: string, b: string)
    ensures EndsWith(Join(a, b), b)
    ensures |b| > 0 && b[0] == '/' ==> Join(a, b) == b
    ensures !(|b| > 0 && b[0] == '/') ==>
      var r := Join(a, b);
      a <= r && (if a == [] || a[|a| - 1] == '/' then |r| == |a| + |b| else |r| == |a| + 1 + |b| && r[|a|] == '/')
  {
  }

  /** The input path ends with the entry's name; a relative name is read
      from `in/`. */
  lemma InputPathParts(file: string)
    ensures EndsWith(InputPath(file), file)
    ensures !(|file| > 0 && file[0] == '/') ==> InputPath(file) == "in/" + file
  {
    JoinParts(InputDir, file);
  }

  /** The stem is a prefix of the name, and what `splitext` cuts off is empty
      or a single extension: one `.`, then no `.` or `/`. */
  lemma StemParts(file: string)
    ensures Stem(file) <= file
    ensures var n := |Stem(file)|;
      n < |file| ==> file[n] == '.' && '.' !in file[n + 1..] && '/' !in file[n..]
  {
    var parts := SplitExt(file);
    assert parts.1 == file[|parts.0|..];
  }

  /** A suffix of a suffix is a suffix. */
  lemma SuffixOfSuffix(s: string, t: string, u: string)
    requires EndsWith(s, t) && EndsWith(t, u)
    ensures EndsWith(s, u)
  {
    assert s[|s| - |u|..] == t[|t| - |u|..];
  }

  /** `splitext` finds an extension exactly when the path has one in the
      sense of `HasExtension`. */
  lemma {:induction false} SplitExtFindsExtension(p: string)
    ensures SplitExt(p).1 != [] <==> HasExtension(p)
  {
    var s := RFind(p, '/');
    var d := RFind(p, '.');
    if SplitExt(p).1 != [] {
      var k :| s < k < d && p[k] != '.';
      assert p[d] == '.';
    }
    if HasExtension(p) {
      var i, j :| s < i < j < |p| && p[i] != '.' && p[j] == '.';
      assert j <= d;
      assert s < i < d && p[i] != '.';
    }
  }

  /** For a directory entry (which never contains a separator) the input is
      read from `in/<file>` and the output goes to `out/<stem>.png`. */
  lemma {:induction false} ListedNamePaths(file: string)
    requires '/' !in file
    ensures InputPath(file) == "in/" + file
    ensures OutputPath(file) == "out/" + Stem(file) + ".png"
  {
    var stem := Stem(file);
    var name := stem + ".png";
    assert name[0] != '/' by {
      if stem != [] {
        StemParts(file);
        assert stem[0] == file[0];
      }
    }
    assert file != [] ==> file[0] != '/';
    assert OutputPath(file) == Join(OutputDir, name);
    assert Join(OutputDir, name) == OutputDir + "/" + name;
  }

  /** Two directory entries are written to the same output file exactly when
      their stems agree, so `a.png` and `a.jpg` overwrite each other. */
  lemma {:induction false} OutputCollision(f: string, g: string)
    requires '/' !in f && '/' !in g
    ensures OutputPath(f) == OutputPath(g) <==> Stem(f) == Stem(g)
  {
    ListedNamePaths(f);
    ListedNamePaths(g);
    if OutputPath(f) == OutputPath(g) {
      var a, b := OutputPath(f), OutputPath(g);
      assert |Stem(f)| == |Stem(g)|;
      assert Stem(f) == a[4..|a| - 4];
      assert Stem(g) == b[4..|b| - 4];
    }
  }

  /** A lower-cased `.` is a `.`, and only a `.` lowers to one. */
  lemma LowerDot(c: char)
    ensures LowerChar(c) == '.' <==> c == '.'
  {
  }

  /** If the lower-cased name ends in `e`, a `.` followed by no further dot,
      then the last `.` of the name is the first character of that suffix. */
  lemma {:induction false} LastDotOfSuffix(file: string, e: string)
    requires EndsWith(Lower(file), e)
    requires |e| > 0 && e[0] == '.' && '.' !in e[1..]
    ensures RFind(file, '.') == |file| - |e|
  {
    var n, L := |file|, Lower(file);
    var d := RFind(file, '.');
    assert L[n - |e|] == e[0];
    LowerDot(file[n - |e|]);
  }

  /** An accepted name whose extension `splitext` recognises loses exactly one
      of the accepted suffixes, in whatever case it was written; an accepted
      name made only of leading dots and a suffix, such as `.png`, keeps its
      whole name as the stem. */
  lemma {:induction false} StemOfSupported(file: string)
    requires Supported(file)
    ensures HasExtension(file) ==> Lower(SplitExt(file).1) in Exts
    ensures !HasExtension(file) ==> Stem(file) == file
  {
    SplitExtFindsExtension(file);
    if HasExtension(file) {
      var k :| 0 <= k < |Exts| && EndsWith(Lower(file), Exts[k]);
      ExtsAreExtensions(k);
      ExtensionIsSuffix(file, Exts[k]);
    }
  }

  /** Each accepted suffix is a `.` followed by letters only. */
  lemma ExtsAreExtensions(k: int)
    requires 0 <= k < |Exts|
    ensures |Exts[k]| > 0 && Exts[k][0] == '.' && '.' !in Exts[k][1..]
  {
    if k == 0 {
      assert Exts[k][1..] == "png";
    } else if k == 1 {
      assert Exts[k][1..] == "jpg";
    } else {
      assert Exts[k][1..] == "jpeg";
    }
  }

  /** When the lower-cased name ends in `e`, a `.` followed by no further dot,
      and the name has an extension, that extension is `e` up to case. */
  lemma {:induction false} ExtensionIsSuffix(file: string, e: string)
    requires EndsWith(Lower(file), e) && HasExtension(file)
    requires |e| > 0 && e[0] == '.' && '.' !in e[1..]
    ensures Lower(SplitExt(file).1) == e
  {
    LastDotOfSuffix(file, e);
    SplitExtFindsExtension(file);
    var d := |file| - |e|;
    assert SplitExt(file).1 == file[d..];
    LowerSuffix(file, d);
  }

  /** Lower-casing commutes with taking a suffix. */
  lemma LowerSuffix(s: string, d: nat)
    requires d <= |s|
    ensures Lower(s[d..]) == Lower(s)[d..]
  {
  }

  /** For a name without a separator that does not start with `.`,
      `splitext` cuts at the last `.`. */
  lemma {:induction false} StemBeforeDot(file: string, d: int)
    requires '/' !in file
    requires 0 < d < |file| && file[d] == '.' && '.' !in file[d + 1..] && file[0] != '.'
    ensures Stem(file) == file[..d]
  {
    assert RFind(file, '/') == -1;
    assert forall k :: d < k < |file| ==> file[k] in file[d + 1..];
    assert RFind(file, '.') == d;
  }

  /** A name without a separator whose only `.` is its first character has
      no extension: its stem is the whole name. */
  lemma {:induction false} NoExtension(file: string)
    requires '/' !in file && |file| > 0 && file[0] == '.' && '.' !in file[1..]
    ensures Stem(file) == file
  {
    assert RFind(file, '/') == -1;
    assert forall k :: 0 < k < |file| ==> file[k] in file[1..];
    assert RFind(file, '.') == 0;
  }

  /** A mixed-case extension is accepted: `photo.JPG` passes the filter. */
  lemma UpperCaseAccepted()
    ensures Supported("photo.JPG")
  {
    var f := "photo.JPG";
    assert Lower(f)[5..] == ".jpg";
    assert EndsWith(Lower(f), Exts[1]);
  }

  /** ... and its extension is dropped: `photo.JPG` becomes `out/photo.png`. */
  lemma UpperCaseOutput()
    ensures OutputPath("photo.JPG") == "out/photo.png"
  {
    var f := "photo.JPG";
    assert f[6..] == "JPG";
    StemBeforeDot(f, 5);
    ListedNamePaths(f);
  }

  /** `a.b.jpeg` passes the filter. */
  lemma LastExtensionAccepted()
    ensures Supported("a.b.jpeg")
  {
    var f := "a.b.jpeg";
    assert Lower(f)[3..] == ".jpeg";
    assert EndsWith(Lower(f), Exts[2]);
  }

  /** Only the last extension is removed: `a.b.jpeg` becomes `out/a.b.png`. */
  lemma LastExtensionOutput()
    ensures OutputPath("a.b.jpeg") == "out/a.b.png"
  {
    var f := "a.b.jpeg";
    assert f[4..] == "jpeg";
    StemBeforeDot(f, 3);
    ListedNamePaths(f);
  }

  /** A name that is only a suffix, `.png`, passes the filter. */
  lemma LeadingDotAccepted()
    ensures Supported(".png")
  {
    assert Lower(".png") == Exts[0];
  }

  /** ... but has no extension to drop: `.png` becomes `out/.png.png`. */
  lemma LeadingDotOutput()
    ensures OutputPath(".png") == "out/.png.png"
  {
    var f := ".png";
    assert f[1..] == "png";
    NoExtension(f);
    ListedNamePaths(f);
  }

  /** Another suffix is not accepted: `anim.gif` is skipped. */
  lemma OtherSuffixRejected()
    ensures !Supported("anim.gif")
  {
    assert Lower("anim.gif")[4..] == ".gif";
  }

  /** A bare `png` without the dot is skipped. */
  lemma BareWordRejected()
    ensures !Supported("png")
  {
    assert Lower("png") == "png";
  }

  /** An accepted suffix that is not at the end does not count:
      `photo.png.bak` is skipped. */
  lemma InnerSuffixRejected()
    ensures !Supported("photo.png.bak")
  {
    assert Lower("photo.png.bak")[9..] == ".bak";
  }
}
