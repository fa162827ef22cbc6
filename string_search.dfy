/**
 * The searches of the C++ standard string library that the path and string
 * utilities are written with. `std::string::npos` ("not found") is `None`.
 */
module StringSearch {
  import opened Wrappers

  /** `sub` occurs in `s` starting at index `i`. */
  predicate IsAt(s: string, sub: string, i: nat)
  {
    i + |sub| <= |s| && s[i..i + |sub|] == sub
  }

  predicate AllIn(s: string, chars: set<char>)
  {
    forall i :: 0 <= i < |s| ==> s[i] in chars
  }

  predicate NoneIn(s: string, chars: set<char>)
  {
    forall i :: 0 <= i < |s| ==> s[i] !in chars
  }

  /** `s.find(sub, pos)`: the first occurrence of `sub` starting at or after `pos`. */
  function Find(s: string, sub: string, pos: nat): (r: Option<nat>)
    decreases |s| - pos
    ensures r.Some? ==> pos <= r.value && IsAt(s, sub, r.value)
    ensures r.Some? ==> forall j :: pos <= j < r.value ==> !IsAt(s, sub, j)
    ensures r.None? ==> forall j :: pos <= j ==> !IsAt(s, sub, j)
  {
    if pos + |sub| > |s| then None
    else if s[pos..pos + |sub|] == sub then Some(pos)
    else Find(s, sub, pos + 1)
  }

  /** `s.find_last_of(chars)`: the last index holding one of `chars`. */
  function FindLastOf(s: string, chars: set<char>): (r: Option<nat>)
    ensures r.Some? ==> r.value < |s| && s[r.value] in chars
    ensures r.Some? ==> forall j :: r.value < j < |s| ==> s[j] !in chars
    ensures r.None? ==> NoneIn(s, chars)
  {
    if |s| == 0 then None
    else if s[|s| - 1] in chars then Some(|s| - 1)
    else FindLastOf(s[..|s| - 1], chars)
  }

  /** `s.rfind(c, pos)`: the last index of `c` that is at most `pos`. */
  function RFind(s: string, c: char, pos: nat): (r: Option<nat>)
    ensures r.Some? ==> r.value < |s| && r.value <= pos && s[r.value] == c
    ensures r.Some? ==> forall j :: r.value < j < |s| && j <= pos ==> s[j] != c
    ensures r.None? ==> forall j :: 0 <= j < |s| && j <= pos ==> s[j] != c
  {
    var end := if pos < |s| then pos + 1 else |s|;
    FindLastOf(s[..end], {c})
  }

  /** `s.rfind(c)`. */
  function RFindLast(s: string, c: char): (r: Option<nat>)
    ensures r.Some? ==> r.value < |s| && s[r.value] == c
    ensures r.Some? ==> forall j :: r.value < j < |s| ==> s[j] != c
    ensures r.None? ==> c !in s
  {
    RFind(s, c, |s|)
  }

  /** `s.find_first_not_of(chars)`. */
  function FindFirstNotOf(s: string, chars: set<char>): (r: Option<nat>)
    ensures r.Some? ==> r.value < |s| && s[r.value] !in chars
    ensures r.Some? ==> forall j :: 0 <= j < r.value ==> s[j] in chars
    ensures r.None? ==> AllIn(s, chars)
  {
    if |s| == 0 then None
    else if s[0] !in chars then Some(0)
    else
      var r := FindFirstNotOf(s[1..], chars);
      if r.Some? then Some(r.value + 1) else None
  }

  /** `s.find_last_not_of(chars)`. */
  function FindLastNotOf(s: string, chars: set<char>): (r: Option<nat>)
    ensures r.Some? ==> r.value < |s| && s[r.value] !in chars
    ensures r.Some? ==> forall j :: r.value < j < |s| ==> s[j] in chars
    ensures r.None? ==> AllIn(s, chars)
  {
    if |s| == 0 then None
    else if s[|s| - 1] !in chars then Some(|s| - 1)
    else FindLastNotOf(s[..|s| - 1], chars)
  }
}
