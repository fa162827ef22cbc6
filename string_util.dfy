/**
 * The string helpers of `Common` (src/common/string_util.cpp), non-Windows
 * parts. Characters are Dafny `char`s; `std::tolower` is taken in the C locale.
 */
module StringUtil {
  import opened Wrappers
  import opened StringSearch

  /** The characters `StripSpaces` trims. */
  const Whitespace: set<char> := {' ', '\t', '\r', '\n'}

  // ---------------------------------------------------------------- ToLower

  /** `std::tolower` in the C locale: only 'A'..'Z' change. */
  function LowerChar(c: char): char
  {
    if 'A' <= c <= 'Z' then (c as int + ('a' as int - 'A' as int)) as char else c
  }

  lemma LowerCharChangesOnlyUpperCase(c: char)
    ensures LowerChar(c) != c <==> 'A' <= c <= 'Z'
    ensures 'A' <= c <= 'Z' ==> 'a' <= LowerChar(c) <= 'z'
    ensures LowerChar(LowerChar(c)) == LowerChar(c)
  {
  }

  /** Lower-cases a copy of `str`, character by character. */
  method ToLower(str: string) returns (r: string)
    ensures |r| == |str|
    ensures forall i :: 0 <= i < |str| ==> r[i] == LowerChar(str[i])
  {
    r := str;
    var i := 0;
    while i < |r|
      invariant 0 <= i <= |r| == |str|
      invariant forall k :: 0 <= k < i ==> r[k] == LowerChar(str[k])
      invariant forall k :: i <= k < |r| ==> r[k] == str[k]
    {
      r := r[i := LowerChar(r[i])];
      i := i + 1;
    }
  }

  // ------------------------------------------------------------ StripSpaces

  /**
   * The part of `str` from its first to its last character outside
   * `Whitespace`; empty when there is none.
   */
  function StripSpaces(str: string): (r: string)
    ensures AllIn(str, Whitespace) ==> r == []
    ensures r == [] || (r[0] !in Whitespace && r[|r| - 1] !in Whitespace)
    ensures exists k :: 0 <= k <= |str| - |r| && str[k..k + |r|] == r
                        && AllIn(str[..k], Whitespace) && AllIn(str[k + |r|..], Whitespace)
  {
    match FindFirstNotOf(str, Whitespace)
    case None =>
      assert str[..0] == [] && str[0..] == str;
      []
    case Some(s) =>
      match FindLastNotOf(str, Whitespace)
      case None => assert false; []
      case Some(e) =>
        assert s <= e;
        assert AllIn(str[..s], Whitespace) && AllIn(str[e + 1..], Whitespace);
        str[s..e + 1]
  }

  /**
   * `StripSpaces` is determined by its ends: any split of `str` into a
   * whitespace prefix, a core that is empty or has non-whitespace ends, and
   * a whitespace suffix gives that core.
   */
  lemma StripSpacesUnique(str: string, pre: string, core: string, post: string)
    requires str == pre + core + post
    requires AllIn(pre, Whitespace) && AllIn(post, Whitespace)
    requires core == [] || (core[0] !in Whitespace && core[|core| - 1] !in Whitespace)
    ensures StripSpaces(str) == core
  {
    var a, n := |pre|, |core|;
    forall j | 0 <= j < a ensures str[j] in Whitespace {
      assert str[j] == pre[j];
    }
    forall j | a + n <= j < |str| ensures str[j] in Whitespace {
      assert str[j] == post[j - a - n];
    }
    if n == 0 {
      assert AllIn(str, Whitespace);
    } else {
      assert str[a] == core[0] && str[a + n - 1] == core[n - 1];
      assert FindFirstNotOf(str, Whitespace) == Some(a);
      assert FindLastNotOf(str, Whitespace) == Some(a + n - 1);
      assert str[a..a + n] == core;
    }
  }

  lemma StripSpacesIdempotent(str: string)
    ensures StripSpaces(StripSpaces(str)) == StripSpaces(str)
  {
    var r := StripSpaces(str);
    assert r == [] + r + [];
    StripSpacesUnique(r, [], r, []);
  }

  // -------------------------------------------------------------- SplitPath

  /** The three outputs `SplitPath` writes. */
  datatype PathParts = PathParts(path: string, filename: string, extension: string)

  /** Where the directory part ends: just after the last '/', or 0. */
  function DirEnd(s: string): (d: nat)
    ensures d <= |s| && (d == 0 || s[d - 1] == '/')
    ensures forall j :: d <= j < |s| ==> s[j] != '/'
  {
    match FindLastOf(s, {'/'})
    case None => 0
    case Some(i) => i + 1
  }

  /** Where the file name ends: the last '.' if it is not before `dirEnd`, else the end. */
  function FilenameEnd(s: string, dirEnd: nat): (f: nat)
    requires dirEnd <= |s|
    ensures dirEnd <= f <= |s|
    ensures f < |s| ==> s[f] == '.' && forall j :: f < j < |s| ==> s[j] != '.'
    ensures f == |s| ==> forall j :: dirEnd <= j < |s| ==> s[j] != '.'
  {
    var dot := RFindLast(s, '.');
    if dot.None? || dot.value < dirEnd then |s| else dot.value
  }

  lemma NotInSlice(s: string, c: char, lo: nat, hi: nat)
    requires lo <= hi <= |s|
    requires forall j :: lo <= j < hi ==> s[j] != c
    ensures c !in s[lo..hi]
  {
    forall k | 0 <= k < hi - lo ensures s[lo..hi][k] != c {
      assert s[lo..hi][k] == s[lo + k];
    }
  }

  /**
   * `SplitPath`: `None` (the call returns false and writes no output) for an
   * empty path; otherwise the directory part up to and including the last
   * '/', the file name, and the extension starting at the last '.' that comes
   * after that '/'.
   */
  function SplitPath(fullPath: string): (r: Option<PathParts>)
    ensures r.None? <==> fullPath == []
    ensures r.Some? ==> r.value.path + r.value.filename + r.value.extension == fullPath
    ensures r.Some? ==> r.value.path == [] || r.value.path[|r.value.path| - 1] == '/'
    ensures r.Some? ==> '/' !in r.value.filename && '/' !in r.value.extension
    ensures r.Some? ==> r.value.extension == []
                        || (r.value.extension[0] == '.' && '.' !in r.value.extension[1..])
    ensures r.Some? && r.value.extension == [] ==> '.' !in r.value.filename
  {
    if fullPath == [] then None
    else
      var d := DirEnd(fullPath);
      var f := FilenameEnd(fullPath, d);
      SplitPathParts(fullPath);
      Some(PathParts(fullPath[..d], fullPath[d..f], fullPath[f..]))
  }

  lemma SplitPathParts(s: string)
    ensures var d := DirEnd(s); var f := FilenameEnd(s, d);
      && s[..d] + s[d..f] + s[f..] == s
      && '/' !in s[d..f] && '/' !in s[f..]
      && (f < |s| ==> s[f..][0] == '.' && '.' !in s[f..][1..])
      && (f == |s| ==> '.' !in s[d..f])
  {
    var d := DirEnd(s);
    var f := FilenameEnd(s, d);
    assert s[..d] + s[d..f] + s[f..] == s;
    NotInSlice(s, '/', d, f);
    NotInSlice(s, '/', f, |s|);
    assert s[f..] == s[f..|s|];
    if f < |s| {
      NotInSlice(s, '.', f + 1, |s|);
      assert s[f..][1..] == s[f + 1..|s|];
    } else {
      NotInSlice(s, '.', d, f);
    }
  }

  // ------------------------------------------------------------ SplitString

  /**
   * Where `std::getline` stops reading a piece that starts at `pos`: the
   * next `delim`, or the end of the input.
   */
  function NextDelim(s: string, delim: char, pos: nat): (e: nat)
    requires pos <= |s|
    decreases |s| - pos
    ensures pos <= e <= |s|
    ensures e < |s| ==> s[e] == delim
    ensures forall j :: pos <= j < e ==> s[j] != delim
  {
    if pos == |s| || s[pos] == delim then pos else NextDelim(s, delim, pos + 1)
  }

  /**
   * The pieces successive `std::getline(iss, piece, delim)` calls produce
   * from position `pos` until one fails, i.e. until the input is exhausted.
   */
  function Lines(s: string, delim: char, pos: nat): seq<string>
    requires pos <= |s|
    decreases |s| - pos
  {
    if pos == |s| then []
    else
      var e := NextDelim(s, delim, pos);
      [s[pos..e]] + Lines(s, delim, if e < |s| then e + 1 else e)
  }

  /** The pieces joined back with `delim` between them. */
  function Join(pieces: seq<string>, delim: char): string
  {
    if pieces == [] then []
    else if |pieces| == 1 then pieces[0]
    else pieces[0] + [delim] + Join(pieces[1..], delim)
  }

  /** The delimiter after the last piece, which produces no piece of its own. */
  function Trailing(s: string, delim: char): string
  {
    if s != [] && s[|s| - 1] == delim then [delim] else []
  }

  /**
   * `SplitString`: the pieces of `str` between delimiters, in order. The
   * output vector's earlier contents are discarded (`resize(1)` keeps one
   * element, which the first `getline` clears).
   */
  method SplitString(str: string, delim: char) returns (output: seq<string>)
    ensures output == Lines(str, delim, 0)
  {
    output := [""];
    var pos := 0;
    while pos < |str|
      invariant 0 <= pos <= |str|
      invariant |output| >= 1 && output[|output| - 1] == ""
      invariant output[..|output| - 1] + Lines(str, delim, pos) == Lines(str, delim, 0)
      decreases |str| - pos
    {
      var e := NextDelim(str, delim, pos);
      LinesStep(str, delim, pos, output[..|output| - 1], Lines(str, delim, 0));
      FillLast(output, str[pos..e]);
      output := output[|output| - 1 := str[pos..e]];
      pos := if e < |str| then e + 1 else e;
      output := output + [""];
    }
    output := output[..|output| - 1];
  }

  /** One `getline` moves the piece at `pos` from the rest to the pieces read. */
  lemma LinesStep(s: string, delim: char, pos: nat, done: seq<string>, total: seq<string>)
    requires pos < |s| && done + Lines(s, delim, pos) == total
    ensures var e := NextDelim(s, delim, pos);
      (done + [s[pos..e]]) + Lines(s, delim, if e < |s| then e + 1 else e) == total
  {
    var e := NextDelim(s, delim, pos);
    var rest := Lines(s, delim, if e < |s| then e + 1 else e);
    assert Lines(s, delim, pos) == [s[pos..e]] + rest;
    assert (done + [s[pos..e]]) + rest == done + ([s[pos..e]] + rest);
  }

  /** Reading into `output.back()` and then `emplace_back()`. */
  lemma FillLast(output: seq<string>, piece: string)
    requires |output| >= 1
    ensures var o := output[|output| - 1 := piece] + [""];
      o[..|o| - 1] == output[..|output| - 1] + [piece] && o[|o| - 1] == ""
  {
  }

  lemma {:induction false} LinesHaveNoDelimiter(s: string, delim: char, pos: nat)
    requires pos <= |s|
    decreases |s| - pos
    ensures forall i :: 0 <= i < |Lines(s, delim, pos)| ==> delim !in Lines(s, delim, pos)[i]
  {
    if pos < |s| {
      var e := NextDelim(s, delim, pos);
      var next := if e < |s| then e + 1 else e;
      LinesHaveNoDelimiter(s, delim, next);
      var piece := s[pos..e];
      assert delim !in piece by {
        forall j | 0 <= j < |piece| ensures piece[j] != delim { assert piece[j] == s[pos + j]; }
      }
    }
  }

  /**
   * The pieces joined with the delimiter, plus a final delimiter if the input
   * ends with one, give back the input.
   */
  lemma JoinCons(p: string, rest: seq<string>, delim: char)
    requires rest != []
    ensures Join([p] + rest, delim) == p + [delim] + Join(rest, delim)
  {
    assert ([p] + rest)[1..] == rest;
  }

  lemma {:induction false} LinesJoin(s: string, delim: char, pos: nat)
    requires pos < |s|
    decreases |s| - pos
    ensures Join(Lines(s, delim, pos), delim) + Trailing(s, delim) == s[pos..]
  {
    var e := NextDelim(s, delim, pos);
    var piece := s[pos..e];
    if e + 1 >= |s| {
      LinesJoinLast(s, delim, pos);
    } else {
      LinesJoin(s, delim, e + 1);
      LinesUnfold(s, delim, pos);
      SliceAround(s, pos, e);
      JoinPrepend(piece, Lines(s, delim, e + 1), delim, Trailing(s, delim), s[e + 1..]);
    }
  }

  /** The last piece, with or without a delimiter after it. */
  lemma LinesJoinLast(s: string, delim: char, pos: nat)
    requires pos < |s| && NextDelim(s, delim, pos) + 1 >= |s|
    ensures Join(Lines(s, delim, pos), delim) + Trailing(s, delim) == s[pos..]
  {
    var e := NextDelim(s, delim, pos);
    assert Lines(s, delim, pos) == [s[pos..e]];
    if e == |s| {
      assert s[|s| - 1] != delim;
      assert s[pos..e] == s[pos..];
    } else {
      SliceAround(s, pos, e);
    }
  }

  lemma LinesUnfold(s: string, delim: char, pos: nat)
    requires pos < |s| && NextDelim(s, delim, pos) < |s|
    ensures var e := NextDelim(s, delim, pos);
      Lines(s, delim, pos) == [s[pos..e]] + Lines(s, delim, e + 1)
  {
  }

  lemma SliceAround(s: string, pos: nat, e: nat)
    requires pos <= e < |s|
    ensures s[pos..] == s[pos..e] + [s[e]] + s[e + 1..]
  {
  }

  /** Putting one more piece in front of pieces that join to `tail`. */
  lemma JoinPrepend(piece: string, rest: seq<string>, delim: char, trailing: string, tail: string)
    requires rest != [] && Join(rest, delim) + trailing == tail
    ensures Join([piece] + rest, delim) + trailing == piece + [delim] + tail
  {
    JoinCons(piece, rest, delim);
    AppendAssoc(piece + [delim], Join(rest, delim), trailing);
  }

  lemma AppendAssoc(a: string, b: string, c: string)
    ensures (a + b) + c == a + (b + c)
  {
  }

  /** `SplitString`'s promises about its result. */
  lemma SplitStringShape(str: string, delim: char)
    ensures Lines(str, delim, 0) == [] <==> str == []
    ensures forall i :: 0 <= i < |Lines(str, delim, 0)| ==> delim !in Lines(str, delim, 0)[i]
    ensures Join(Lines(str, delim, 0), delim) + Trailing(str, delim) == str
  {
    LinesHaveNoDelimiter(str, delim, 0);
    if str != [] {
      LinesJoin(str, delim, 0);
      assert str[0..] == str;
    }
  }

  // ------------------------------------------------------------- ReplaceAll

  /**
   * Reference meaning of `ReplaceAll`: the occurrences of `src`, found left
   * to right and not overlapping, each replaced by `dest`; the text that
   * replaces an occurrence is not searched again.
   */
  function Replaced(s: string, src: string, dest: string): string
    requires src != []
    decreases |s|
  {
    if |s| < |src| then s
    else if s[..|src|] == src then dest + Replaced(s[|src|..], src, dest)
    else [s[0]] + Replaced(s[1..], src, dest)
  }

  /** Skipping a stretch with no occurrence copies it unchanged. */
  lemma {:induction false} ReplacedSkip(t: string, src: string, dest: string, pos: nat, i: nat)
    requires src != []
    requires pos <= i <= |t|
    requires forall j :: pos <= j < i ==> !IsAt(t, src, j)
    decreases i - pos
    ensures Replaced(t[pos..], src, dest) == t[pos..i] + Replaced(t[i..], src, dest)
  {
    if pos < i {
      if |t[pos..]| < |src| {
        assert |t[i..]| < |src|;
        assert t[pos..] == t[pos..i] + t[i..];
      } else {
        var u := t[pos..];
        assert u[..|src|] != src by {
          assert !IsAt(t, src, pos);
          assert u[..|src|] == t[pos..pos + |src|];
        }
        ReplacedNoMatch(u, src, dest);
        assert u[1..] == t[pos + 1..];
        ReplacedSkip(t, src, dest, pos + 1, i);
        assert t[pos..i] == [u[0]] + t[pos + 1..i];
      }
    }
  }

  /** Where `src` does not start, the first character is copied. */
  lemma ReplacedNoMatch(u: string, src: string, dest: string)
    requires src != [] && |u| >= |src| && u[..|src|] != src
    ensures Replaced(u, src, dest) == [u[0]] + Replaced(u[1..], src, dest)
  {
  }

  /** A string without `src` is left as it is. */
  lemma ReplacedNoOccurrence(s: string, src: string, dest: string)
    requires src != []
    requires forall j :: 0 <= j <= |s| ==> !IsAt(s, src, j)
    ensures Replaced(s, src, dest) == s
  {
    ReplacedSkip(s, src, dest, 0, |s|);
    assert s[0..] == s && s[..|s|] == s;
  }

  /** Replacing `src` by itself changes nothing, so the early return agrees. */
  lemma {:induction false} ReplacedBySelf(s: string, src: string)
    requires src != []
    decreases |s|
    ensures Replaced(s, src, src) == s
  {
    if |s| >= |src| {
      if s[..|src|] == src {
        ReplacedBySelf(s[|src|..], src);
        assert s == s[..|src|] + s[|src|..];
      } else {
        ReplacedBySelf(s[1..], src);
        assert s == [s[0]] + s[1..];
      }
    }
  }

  /** The inserted `dest` is not rescanned: "a" with "a" replaced by "aa" is "aa". */
  lemma ReplacedDoesNotRescan()
    ensures Replaced("a", "a", "aa") == "aa"
    ensures Replaced("aaa", "aa", "b") == "ba"
  {
    assert "a"[..1] == "a";
    assert "a"[1..] == [];
    assert "aaa"[..2] == "aa" && "aaa"[2..] == "a";
  }

  /** One replacement keeps the loop's account: done part plus meaning of the rest. */
  lemma ReplaceStep(result: string, src: string, dest: string, pos: nat, i: nat)
    requires src != [] && pos <= i && IsAt(result, src, i)
    requires forall j :: pos <= j < i ==> !IsAt(result, src, j)
    ensures var next := result[..i] + dest + result[i + |src|..];
      next[..i + |dest|] + Replaced(next[i + |dest|..], src, dest)
      == result[..pos] + Replaced(result[pos..], src, dest)
  {
    var next := result[..i] + dest + result[i + |src|..];
    assert next[..i + |dest|] == result[..i] + dest;
    assert next[i + |dest|..] == result[i + |src|..];
    assert result[..i] == result[..pos] + result[pos..i];
    ReplacedAtOccurrence(result, src, dest, i);
    ReplacedSkip(result, src, dest, pos, i);
    Regroup(result[..pos], result[pos..i], dest, Replaced(result[i + |src|..], src, dest),
            Replaced(result[i..], src, dest), Replaced(result[pos..], src, dest));
  }

  /** The bookkeeping of one replacement, with the pieces named. */
  lemma Regroup(pre: string, mid: string, dest: string, after: string, atI: string, atPos: string)
    requires atI == dest + after && atPos == mid + atI
    ensures (pre + mid) + dest + after == pre + atPos
  {
  }

  /** At an occurrence, the occurrence becomes `dest`. */
  lemma ReplacedAtOccurrence(t: string, src: string, dest: string, i: nat)
    requires src != [] && IsAt(t, src, i)
    ensures Replaced(t[i..], src, dest) == dest + Replaced(t[i + |src|..], src, dest)
  {
    assert t[i..][..|src|] == src && t[i..][|src|..] == t[i + |src|..];
  }

  /** With no occurrence left, the rest is copied and the account is the string itself. */
  lemma ReplaceDone(result: string, src: string, dest: string, pos: nat)
    requires src != [] && pos <= |result|
    requires forall j :: pos <= j ==> !IsAt(result, src, j)
    ensures result[..pos] + Replaced(result[pos..], src, dest) == result
  {
    ReplacedSkip(result, src, dest, pos, |result|);
    assert result[|result|..] == [];
    assert result[..pos] + result[pos..] == result;
  }

  /** `ReplaceAll`; an empty `src` different from `dest` would never terminate. */
  method ReplaceAll(s: string, src: string, dest: string) returns (result: string)
    requires src != dest ==> src != []
    ensures src == dest ==> result == s
    ensures src != [] ==> result == Replaced(s, src, dest)
  {
    result := s;
    if src == dest {
      if src != [] { ReplacedBySelf(s, src); }
      return;
    }
    var pos: nat := 0;
    while true
      invariant pos <= |result|
      invariant result[..pos] + Replaced(result[pos..], src, dest) == Replaced(s, src, dest)
      decreases |result| - pos
    {
      var found := Find(result, src, pos);
      if found.None? {
        ReplaceDone(result, src, dest, pos);
        return;
      }
      var i := found.value;
      ReplaceStep(result, src, dest, pos, i);
      result := result[..i] + dest + result[i + |src|..];
      pos := i + |dest|;
    }
  }

  // ------------------------------------- StringFromFixedZeroTerminatedBuffer

  /**
   * The characters of `buffer` up to its first NUL, at most `maxLen` of them.
   * The caller must make every read valid: either `maxLen` characters are
   * there, or a NUL stops the scan.
   */
  method StringFromFixedZeroTerminatedBuffer(buffer: seq<char>, maxLen: nat) returns (r: string)
    requires maxLen <= |buffer| || '\0' in buffer
    ensures |r| <= maxLen && |r| <= |buffer|
    ensures r == buffer[..|r|]
    ensures '\0' !in r
    ensures |r| == maxLen || buffer[|r|] == '\0'
  {
    var len := 0;
    while len < maxLen && buffer[len] != '\0'
      invariant len <= maxLen && len <= |buffer|
      invariant forall k :: 0 <= k < len ==> buffer[k] != '\0'
      invariant len < maxLen ==> len < |buffer|
    {
      len := len + 1;
    }
    r := buffer[..len];
  }
}
