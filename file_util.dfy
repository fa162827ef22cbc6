/**
 * The path helpers and the in-memory directory tree of `FileUtil`
 * (src/common/file_util.h, src/common/file_util.cpp). Only the non-Windows
 * behaviour is modelled.
 */
module FileUtil {
  import opened Wrappers
  import opened StringSearch

  type u64 = x: int | 0 <= x < 0x1_0000_0000_0000_0000

  /** A node of a scanned directory tree. */
  datatype FSTEntry = FSTEntry(
    isDirectory: bool,
    size: u64,             // file length, or number of entries beneath a directory
    physicalName: string,  // name on disk
    virtualName: string,   // name in the FST names table
    children: seq<FSTEntry>)

  datatype DirectorySeparator = ForwardSlash | BackwardSlash | PlatformDefault

  /** Both directory separators. */
  const Separators: set<char> := {'/', '\\'}

  // ---------------------------------------------------- StripTailDirSlashes

  /**
   * Removes every trailing '/' from a path longer than one character; a path
   * of length 0 or 1 is left alone (so "/" stays "/", but "//" becomes "").
   */
  method StripTailDirSlashes(fname: string) returns (r: string)
    ensures |fname| <= 1 ==> r == fname
    ensures |fname| > 1 ==> |r| <= |fname| && r == fname[..|r|]
    ensures |fname| > 1 ==> forall j :: |r| <= j < |fname| ==> fname[j] == '/'
    ensures |fname| > 1 ==> r == [] || r[|r| - 1] != '/'
  {
    if |fname| <= 1 {
      return fname;
    }
    var i := |fname|;
    while i > 0 && fname[i - 1] == '/'
      invariant 0 <= i <= |fname|
      invariant forall j :: i <= j < |fname| ==> fname[j] == '/'
    {
      i := i - 1;
    }
    r := fname[..i];
  }

  // -------------------------------------------------------- SplitFilename83

  /** The characters an 8.3 short name may not hold. */
  const Forbidden83: set<char> := {'.', '"', '/', '\\', '[', ']', ':', ';', '=', ',', ' '}

  /** `toupper` in the C locale. */
  function UpperChar(c: char): char
  {
    if 'a' <= c <= 'z' then (c as int - ('a' as int - 'A' as int)) as char else c
  }

  function Upper(s: string): (r: string)
    ensures |r| == |s| && forall i :: 0 <= i < |s| ==> r[i] == UpperChar(s[i])
  {
    seq(|s|, i requires 0 <= i < |s| => UpperChar(s[i]))
  }

  function Spaces(n: nat): (r: string)
    ensures |r| == n && forall i :: 0 <= i < n ==> r[i] == ' '
  {
    seq(n, _ => ' ')
  }

  /** The characters of `s` that may go into a short name, in order. */
  function Allowed(s: string): string
  {
    if s == [] then []
    else Allowed(s[..|s| - 1]) + (if s[|s| - 1] in Forbidden83 then [] else [s[|s| - 1]])
  }

  lemma {:induction false} AllowedChars(s: string)
    ensures forall i :: 0 <= i < |Allowed(s)| ==> Allowed(s)[i] !in Forbidden83
    ensures |Allowed(s)| <= |s|
  {
    if s != [] { AllowedChars(s[..|s| - 1]); }
  }

  /** What the allowed characters of a prefix are is a prefix of the whole's. */
  lemma {:induction false} AllowedPrefix(s: string, k: nat)
    requires k <= |s|
    decreases |s| - k
    ensures |Allowed(s[..k])| <= |Allowed(s)| && Allowed(s[..k]) == Allowed(s)[..|Allowed(s[..k])|]
  {
    if k < |s| {
      AllowedPrefix(s, k + 1);
      assert s[..k + 1][..k] == s[..k];
    } else {
      assert s[..k] == s;
    }
  }

  /**
   * Where the extension starts. The source searches for the last '.' and, when
   * it is the final character, searches again from that same position, which
   * finds the same '.' (see `SecondSearchFindsSameDot`). For an empty name the
   * comparison with `size() - 1` wraps around to `npos` and is true as well.
   */
  function Point83(filename: string): Option<nat>
  {
    var point := RFindLast(filename, '.');
    if point.Some? && point.value == |filename| - 1 then RFind(filename, '.', point.value)
    else if point.None? && |filename| == 0 then RFindLast(filename, '.')
    else point
  }

  lemma SecondSearchFindsSameDot(filename: string)
    ensures Point83(filename) == RFindLast(filename, '.')
  {
  }

  /** The text the short name is taken from: everything before the point. */
  function Stem83(filename: string): string
  {
    match Point83(filename)
    case None => filename
    case Some(p) => filename[..p]
  }

  /** The first at most three characters after the point. */
  function ExtensionText83(filename: string): string
  {
    match Point83(filename)
    case None => []
    case Some(p) => var e := filename[p + 1..]; if |e| <= 3 then e else e[..3]
  }

  /** The 9-char short-name array made from the text before the point. */
  function ShortNameOf(stem: string): string
  {
    var a := Allowed(stem);
    if |a| <= 8 then Upper(a) + Spaces(8 - |a|) + ['\0']
    else Upper(a[..6]) + "~1" + ['\0']
  }

  /** The 4-char extension array made from at most three characters. */
  function ExtensionOf(e: string): string
    requires |e| <= 3
  {
    Upper(e) + Spaces(3 - |e|) + ['\0']
  }

  /** The 9-char short-name array `SplitFilename83` leaves. */
  function ShortName83(filename: string): string
  {
    ShortNameOf(Stem83(filename))
  }

  /** The 4-char extension array `SplitFilename83` leaves. */
  function Extension83(filename: string): string
  {
    ExtensionOf(ExtensionText83(filename))
  }

  /** Splits a file name into a FAT 8.3 short name and extension, space padded. */
  method SplitFilename83(filename: string, shortName: array<char>, extension: array<char>)
    requires shortName.Length == 9 && extension.Length == 4
    modifies shortName, extension
    ensures shortName[..] == ShortName83(filename)
    ensures extension[..] == Extension83(filename)
  {
    WriteShortName(Stem83(filename), shortName);
    WriteExtension(ExtensionText83(filename), extension);
  }

  /** The short-name half of `SplitFilename83`. */
  method WriteShortName(stem: string, shortName: array<char>)
    requires shortName.Length == 9
    modifies shortName
    ensures shortName[..] == ShortNameOf(stem)
  {
    forall i | 0 <= i < 8 {
      shortName[i] := ' ';
    }
    shortName[8] := '\0';
    assert shortName[..] == Upper([]) + Spaces(8) + ['\0'];

    var j := 0;
    var k := 0;
    ghost var overflow := false;
    while k < |stem|
      invariant 0 <= k <= |stem| && 0 <= j <= 8
      invariant j == |Allowed(stem[..k])|
      invariant shortName[..] == Upper(Allowed(stem[..k])) + Spaces(8 - j) + ['\0']
    {
      var letter := stem[k];
      assert stem[..k + 1][..k] == stem[..k];
      if letter in Forbidden83 {
        k := k + 1;
        continue;
      }
      if j == 8 {
        OverflowName(stem, k);
        shortName[6] := '~';
        shortName[7] := '1';
        overflow := true;
        break;
      }
      shortName[j] := UpperChar(letter);
      j := j + 1;
      k := k + 1;
    }
    if !overflow {
      assert stem[..k] == stem;
    }
  }

  /** The extension half of `SplitFilename83`; `ext` is empty when there is no point. */
  method WriteExtension(ext: string, extension: array<char>)
    requires extension.Length == 4 && |ext| <= 3
    modifies extension
    ensures extension[..] == ExtensionOf(ext)
  {
    forall i | 0 <= i < 3 {
      extension[i] := ' ';
    }
    extension[3] := '\0';
    assert extension[..] == Upper(ext[..0]) + Spaces(3) + ['\0'];
    var j := 0;
    while j < |ext|
      invariant 0 <= j <= |ext|
      invariant extension[..] == Upper(ext[..j]) + Spaces(3 - j) + ['\0']
    {
      extension[j] := UpperChar(ext[j]);
      j := j + 1;
    }
    assert ext[..j] == ext;
  }

  /** Once a ninth allowed character is met, the first six and the "~1" mark are final. */
  lemma OverflowName(stem: string, k: nat)
    requires k < |stem| && stem[k] !in Forbidden83 && |Allowed(stem[..k])| == 8
    ensures var a, ak := Allowed(stem), Allowed(stem[..k]);
      |a| > 8 && (Upper(ak) + Spaces(0) + ['\0'])[6 := '~'][7 := '1'] == Upper(a[..6]) + "~1" + ['\0']
  {
    var a, ak := Allowed(stem), Allowed(stem[..k]);
    assert stem[..k + 1][..k] == stem[..k];
    AllowedPrefix(stem, k + 1);
    AllowedPrefix(stem, k);
    assert |a| > 8;
    assert ak == a[..8];
  }

  /** The short name's layout: padding, terminator, upper-casing and the "~1" mark. */
  lemma ShortName83Layout(filename: string)
    ensures var r, a := ShortName83(filename), Allowed(Stem83(filename));
      && |r| == 9 && r[8] == '\0'
      && (|a| <= 8 ==> r[..|a|] == Upper(a) && forall i :: 0 <= i < 8 ==> (r[i] == ' ' <==> i >= |a|))
      && (|a| > 8 ==> r[..6] == Upper(a[..6]) && r[6] == '~' && r[7] == '1')
  {
    AllowedChars(Stem83(filename));
  }

  /** No slot of the short name holds a forbidden character other than the padding. */
  lemma ShortName83HasNoForbiddenChars(filename: string)
    ensures forall i :: 0 <= i < 8 && ShortName83(filename)[i] in Forbidden83 ==> ShortName83(filename)[i] == ' '
  {
    AllowedChars(Stem83(filename));
  }

  /** The extension: at most three upper-cased characters after the last '.'. */
  lemma Extension83Layout(filename: string)
    ensures var r := Extension83(filename);
      && |r| == 4 && r[3] == '\0'
      && ('.' !in filename ==> r[..3] == "   ")
      && ('.' in filename ==> var dot := RFindLast(filename, '.').value;
            var n := if |filename| - dot - 1 <= 3 then |filename| - dot - 1 else 3;
            (forall i :: 0 <= i < n ==> r[i] == UpperChar(filename[dot + 1 + i]))
            && forall i :: n <= i < 3 ==> r[i] == ' ')
  {
    var r := Extension83(filename);
    if '.' !in filename {
      assert RFindLast(filename, '.').None?;
      assert r[..3] == Spaces(3);
    }
  }

  // ------------------------------------------- GetFilename, GetExtension, ...

  /** The text after the last separator; empty when there is no separator. */
  function GetFilename(path: string): (r: string)
    ensures NoneIn(path, Separators) ==> r == []
    ensures !NoneIn(path, Separators) ==>
      |r| < |path| && path[|path| - |r| - 1] in Separators && r == path[|path| - |r|..]
      && NoneIn(r, Separators)
  {
    match FindLastOf(path, Separators)
    case None => []
    case Some(i) =>
      path[i + 1..]
  }

  /** The text after the last '.'; empty when there is no '.'. */
  function GetExtension(f: string): (r: string)
    ensures '.' !in f ==> r == []
    ensures '.' in f ==> |r| < |f| && f[|f| - |r| - 1] == '.' && r == f[|f| - |r|..] && '.' !in r
  {
    match RFindLast(f, '.')
    case None => []
    case Some(i) =>
      f[i + 1..]
  }

  /** Removes one final '/' or '\' if there is one. */
  function RemoveTrailingSlash(path: string): (r: string)
    ensures path == [] || path[|path| - 1] !in Separators ==> r == path
    ensures path != [] && path[|path| - 1] in Separators ==> r + [path[|path| - 1]] == path
  {
    if path == [] then path
    else if path[|path| - 1] == '\\' || path[|path| - 1] == '/' then path[..|path| - 1]
    else path
  }

  /** Only the text after the last '.' is the extension. */
  lemma GetExtensionAfterLastDot()
    ensures GetExtension("archive.tar.gz") == "gz"
  {
    assert "archive.tar.gz"[11] == '.';
    assert "archive.tar.gz"[12..] == "gz";
  }

  /** Only one trailing separator is removed. */
  lemma RemoveTrailingSlashOnce()
    ensures RemoveTrailingSlash("a//") == "a/"
  {
  }

  // ----------------------------------------------------------- SanitizePath

  /** The separator that is rewritten and the one it becomes (non-Windows). */
  function SeparatorPair(sep: DirectorySeparator): (r: (char, char))
    ensures r.0 != r.1 && {r.0, r.1} == Separators
    ensures sep == BackwardSlash <==> r.1 == '\\'
  {
    if sep == BackwardSlash then ('/', '\\') else ('\\', '/')
  }

  /** `std::replace(begin, end, a, b)`. */
  function ReplaceChar(s: string, a: char, b: char): (r: string)
    ensures |r| == |s|
  {
    seq(|s|, i requires 0 <= i < |s| => if s[i] == a then b else s[i])
  }

  /**
   * `std::unique` with "both are `c`" as the predicate, followed by `erase`:
   * each run of `c` shrinks to one `c`; everything else is kept.
   */
  function Collapse(s: string, c: char): string
  {
    if s == [] then []
    else
      var prev := Collapse(s[..|s| - 1], c);
      if prev != [] && prev[|prev| - 1] == c && s[|s| - 1] == c then prev
      else prev + [s[|s| - 1]]
  }

  predicate NoAdjacent(s: string, c: char)
  {
    forall i :: 0 < i < |s| ==> !(s[i - 1] == c && s[i] == c)
  }

  /** The path `SanitizePath` returns. */
  function Sanitized(path: string, sep: DirectorySeparator := ForwardSlash): string
  {
    var (type1, type2) := SeparatorPair(sep);
    RemoveTrailingSlash(Collapse(ReplaceChar(path, type1, type2), type2))
  }

  /**
   * Rewrites the other separator into the chosen one, squeezes repeated
   * separators and drops a trailing one.
   */
  method SanitizePath(path: string, sep: DirectorySeparator := ForwardSlash) returns (r: string)
    ensures r == Sanitized(path, sep)
  {
    var (type1, type2) := SeparatorPair(sep);
    var p := Replace(path, type1, type2);
    p := Unique(p, type2);
    r := RemoveTrailingSlash(p);
  }

  /** `std::replace` over the whole string. */
  method Replace(s: string, a: char, b: char) returns (p: string)
    ensures p == ReplaceChar(s, a, b)
  {
    p := s;
    var i := 0;
    while i < |p|
      invariant 0 <= i <= |p| == |s|
      invariant forall k :: 0 <= k < i ==> p[k] == ReplaceChar(s, a, b)[k]
      invariant forall k :: i <= k < |p| ==> p[k] == s[k]
    {
      if p[i] == a {
        p := p[i := b];
      }
      i := i + 1;
    }
  }

  /**
   * `std::unique` with "both are `c`" as the predicate, working in place with
   * a write index `w` behind the read index `f`, followed by the `erase`.
   */
  method Unique(s: string, c: char) returns (p: string)
    ensures p == Collapse(s, c)
  {
    p := s;
    if |p| == 0 {
      return;
    }
    var w := 0;
    var f := 1;
    CollapseFirst(s, c);
    while f < |p|
      invariant 0 <= w < f <= |p| == |s|
      invariant p[..w + 1] == Collapse(s[..f], c)
      invariant forall k :: f <= k < |p| ==> p[k] == s[k]
    {
      p, w := UniqueStep(s, c, p, w, f);
      f := f + 1;
    }
    assert s[..f] == s;
    p := p[..w + 1];
  }

  /**
   * One iteration of `std::unique`: the character at the read index `f` is
   * kept, at the slot after `w`, unless it and the last kept one are both `c`.
   */
  method UniqueStep(s: string, c: char, p: string, w: nat, f: nat) returns (p': string, w': nat)
    requires w < f < |p| == |s|
    requires p[..w + 1] == Collapse(s[..f], c)
    requires forall k :: f <= k < |p| ==> p[k] == s[k]
    ensures w' <= f < |p'| == |s|
    ensures p'[..w' + 1] == Collapse(s[..f + 1], c)
    ensures forall k :: f + 1 <= k < |p'| ==> p'[k] == s[k]
  {
    CollapseStep(s, f, c);
    p', w' := p, w;
    if !(p[w] == c && p[f] == c) {
      var x := p[f];
      w' := w + 1;
      if w' != f {
        UpdatePrefix(p, w', x);
        p' := p[w' := x];
      } else {
        assert p[..w' + 1] == p[..w'] + [x];
      }
    }
  }

  lemma CollapseFirst(s: string, c: char)
    requires s != []
    ensures Collapse(s[..1], c) == s[..1]
  {
    assert s[..1][..0] == [];
  }

  lemma UpdatePrefix(p: string, w: nat, x: char)
    requires w < |p|
    ensures p[w := x][..w + 1] == p[..w] + [x]
  {
  }

  lemma CollapseStep(s: string, f: nat, c: char)
    requires f < |s|
    ensures var prev := Collapse(s[..f], c);
      Collapse(s[..f + 1], c)
      == if prev != [] && prev[|prev| - 1] == c && s[f] == c then prev else prev + [s[f]]
  {
    assert s[..f + 1][..f] == s[..f];
  }

  lemma {:induction false} CollapseKeepsChars(s: string, c: char)
    ensures forall x :: x in Collapse(s, c) ==> x in s
    ensures Collapse(s, c) == [] <==> s == []
    ensures s != [] ==> Collapse(s, c)[|Collapse(s, c)| - 1] == s[|s| - 1]
  {
    if s != [] {
      CollapseKeepsChars(s[..|s| - 1], c);
      assert forall x :: x in s[..|s| - 1] ==> x in s;
    }
  }

  lemma {:induction false} CollapseNoAdjacent(s: string, c: char)
    ensures NoAdjacent(Collapse(s, c), c)
  {
    if s != [] {
      CollapseNoAdjacent(s[..|s| - 1], c);
    }
  }

  lemma {:induction false} CollapseOfNoAdjacent(s: string, c: char)
    requires NoAdjacent(s, c)
    ensures Collapse(s, c) == s
  {
    if s != [] {
      var init := s[..|s| - 1];
      assert NoAdjacent(init, c) by {
        forall i | 0 < i < |init| ensures !(init[i - 1] == c && init[i] == c) {
          assert init[i - 1] == s[i - 1] && init[i] == s[i];
        }
      }
      CollapseOfNoAdjacent(init, c);
      if |s| > 1 {
        assert s[|s| - 2] == init[|init| - 1];
      }
      assert s == init + [s[|s| - 1]];
    }
  }

  /**
   * The result has no rewritten separator, no two separators in a row and
   * no separator at its end.
   */
  lemma SanitizedShape(path: string, sep: DirectorySeparator)
    ensures var (type1, type2) := SeparatorPair(sep); var r := Sanitized(path, sep);
      && type1 !in r
      && NoAdjacent(r, type2)
      && (r == [] || r[|r| - 1] !in Separators)
  {
    var (type1, type2) := SeparatorPair(sep);
    var replaced := ReplaceChar(path, type1, type2);
    var collapsed := Collapse(replaced, type2);
    CollapseKeepsChars(replaced, type2);
    CollapseNoAdjacent(replaced, type2);
    assert type1 !in replaced;
    assert type1 !in collapsed;
    var r := RemoveTrailingSlash(collapsed);
    assert r == Sanitized(path, sep);
    if collapsed != [] && collapsed[|collapsed| - 1] in Separators {
      assert r == collapsed[..|collapsed| - 1];
      if r != [] {
        assert r[|r| - 1] == collapsed[|collapsed| - 2];
      }
    }
  }

  /** Sanitizing an already sanitized path changes nothing. */
  lemma SanitizedIdempotent(path: string, sep: DirectorySeparator)
    ensures Sanitized(Sanitized(path, sep), sep) == Sanitized(path, sep)
  {
    var (type1, type2) := SeparatorPair(sep);
    var r := Sanitized(path, sep);
    SanitizedShape(path, sep);
    assert ReplaceChar(r, type1, type2) == r;
    CollapseOfNoAdjacent(r, type2);
  }

  /** The root path sanitizes to the empty string. */
  lemma SanitizedRoot()
    ensures Sanitized("/") == []
    ensures Sanitized("\\") == []
  {
    assert ReplaceChar("/", '\\', '/') == "/";
    assert ReplaceChar("\\", '\\', '/') == "/";
    assert Collapse("/", '/') == "/" by { assert "/"[..0] == []; }
  }

  // ------------------------------------------- GetAllFilesFromNestedEntries

  /** The non-directory entries beneath `entries`, depth first, in child order. */
  function FilesIn(entries: seq<FSTEntry>): seq<FSTEntry>
    decreases entries
  {
    if entries == [] then []
    else (if entries[0].isDirectory then FilesIn(entries[0].children) else [entries[0]])
         + FilesIn(entries[1..])
  }

  lemma {:induction false} FilesInAppend(a: seq<FSTEntry>, b: seq<FSTEntry>)
    decreases a
    ensures FilesIn(a + b) == FilesIn(a) + FilesIn(b)
  {
    if a == [] {
      assert a + b == b;
    } else {
      assert (a + b)[0] == a[0];
      assert (a + b)[1..] == a[1..] + b;
      FilesInAppend(a[1..], b);
    }
  }

  /** Appends the files (not directories) beneath `directory` to `output`. */
  method GetAllFilesFromNestedEntries(directory: FSTEntry, output: seq<FSTEntry>)
    returns (result: seq<FSTEntry>)
    decreases directory
    ensures result == output + FilesIn(directory.children)
  {
    result := output;
    var children := directory.children;
    for i := 0 to |children|
      invariant result == output + FilesIn(children[..i])
    {
      var entry := children[i];
      FilesInSnoc(children, i);
      if entry.isDirectory {
        result := GetAllFilesFromNestedEntries(entry, result);
      } else {
        result := result + [entry];
      }
    }
    assert children[..|children|] == children;
  }

  lemma FilesInSnoc(entries: seq<FSTEntry>, i: nat)
    requires i < |entries|
    ensures FilesIn(entries[..i + 1])
      == FilesIn(entries[..i])
         + (if entries[i].isDirectory then FilesIn(entries[i].children) else [entries[i]])
  {
    assert entries[..i + 1] == entries[..i] + [entries[i]];
    FilesInAppend(entries[..i], [entries[i]]);
    assert [entries[i]][1..] == [];
  }

  /** `f` is a file reachable from `entries` through directories only. */
  ghost predicate FileBeneath(f: FSTEntry, entries: seq<FSTEntry>)
    decreases entries
  {
    exists i :: 0 <= i < |entries| &&
      ((entries[i] == f && !f.isDirectory)
       || (entries[i].isDirectory && FileBeneath(f, entries[i].children)))
  }

  /** The collected entries are exactly the files beneath the tree. */
  lemma {:induction false} FilesInExactly(f: FSTEntry, entries: seq<FSTEntry>)
    decreases entries
    ensures f in FilesIn(entries) <==> FileBeneath(f, entries)
  {
    if entries != [] {
      var head := entries[0];
      var rest := entries[1..];
      FilesInExactly(f, rest);
      if head.isDirectory {
        FilesInExactly(f, head.children);
      }
      if FileBeneath(f, entries) {
        var i :| 0 <= i < |entries| &&
          ((entries[i] == f && !f.isDirectory)
           || (entries[i].isDirectory && FileBeneath(f, entries[i].children)));
        if i > 0 {
          assert entries[i] == rest[i - 1];
          assert FileBeneath(f, rest);
        }
      }
      if f in FilesIn(rest) {
        var i :| 0 <= i < |rest| &&
          ((rest[i] == f && !f.isDirectory)
           || (rest[i].isDirectory && FileBeneath(f, rest[i].children)));
        assert entries[i + 1] == rest[i];
      }
    }
  }

  lemma {:induction false} FilesInAreFiles(entries: seq<FSTEntry>)
    decreases entries
    ensures forall i :: 0 <= i < |FilesIn(entries)| ==> !FilesIn(entries)[i].isDirectory
  {
    if entries != [] {
      FilesInAreFiles(entries[1..]);
      if entries[0].isDirectory {
        FilesInAreFiles(entries[0].children);
      }
    }
  }
}
