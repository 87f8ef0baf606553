/**
 * The string operations the extractors are built from, with the meaning Python gives them:
 * `str.isspace`, `strip`, `re.sub(r"\s+", " ", s)`, `find`, `in`, `startswith`, `endswith`,
 * `join`, `split`, `replace`, `lower`, `capitalize`, list slicing and order-keeping de-duplication.
 */
module Text {
  import opened Wrappers

  type String = seq<char>

  // ---------------------------------------------------------------- characters

  /** Python's `str.isspace`; `\s` and `str.strip()` use the same set. */
  predicate IsSpace(c: char) {
    || c == ' ' || ('\t' <= c <= '\r') || ('\U{1C}' <= c <= '\U{1F}')
    || c == '\U{85}' || c == '\U{A0}' || c == '\U{1680}' || ('\U{2000}' <= c <= '\U{200A}')
    || c == '\U{2028}' || c == '\U{2029}' || c == '\U{202F}' || c == '\U{205F}' || c == '\U{3000}'
  }

  predicate IsAsciiUpper(c: char) { 'A' <= c <= 'Z' }

  predicate IsAsciiLower(c: char) { 'a' <= c <= 'z' }

  /** The class `[a-zA-Z]`. */
  predicate IsAsciiLetter(c: char) { IsAsciiUpper(c) || IsAsciiLower(c) }

  /** The class `[a-zA-Z0-9_]`, which is also what `\w` is taken to mean. */
  predicate IsWordChar(c: char) { IsAsciiLetter(c) || ('0' <= c <= '9') || c == '_' }

  function LowerChar(c: char): (r: char)
    ensures !IsAsciiUpper(r)
    ensures IsAsciiLetter(c) <==> IsAsciiLetter(r)
  {
    if IsAsciiUpper(c) then (c as int + 32) as char else c
  }

  function UpperChar(c: char): (r: char)
    ensures !IsAsciiLower(r)
  {
    if IsAsciiLower(c) then (c as int - 32) as char else c
  }

  /** `s.lower()`, on ASCII letters. */
  function Lower(s: String): (r: String)
    ensures |r| == |s|
    ensures forall i :: 0 <= i < |s| ==> r[i] == LowerChar(s[i])
  {
    seq(|s|, i requires 0 <= i < |s| => LowerChar(s[i]))
  }

  /** `s.capitalize()`: the first character upper-case, the rest lower-case. */
  function Capitalize(s: String): (r: String)
    ensures |r| == |s|
    ensures s != [] ==> !IsAsciiLower(r[0])
    ensures forall i :: 0 < i < |r| ==> !IsAsciiUpper(r[i])
  {
    if s == [] then [] else [UpperChar(s[0])] + Lower(s[1..])
  }

  // ---------------------------------------------------------------- searching

  predicate StartsWith(s: String, p: String) { |p| <= |s| && s[..|p|] == p }

  predicate EndsWith(s: String, p: String) { |p| <= |s| && s[|s| - |p|..] == p }

  /** `p` occurs in `s` at position `i`. */
  predicate OccursAt(s: String, p: String, i: int) {
    0 <= i && i + |p| <= |s| && s[i..i + |p|] == p
  }

  /** `s.find(p, k)`: the first position at or after `k` where `p` occurs, or -1. */
  function FindFrom(s: String, p: String, k: nat): (r: int)
    ensures r == -1 || (k <= r && OccursAt(s, p, r))
    ensures forall i :: k <= i && (r == -1 || i < r) ==> !OccursAt(s, p, i)
    decreases |s| - k
  {
    if k + |p| > |s| then -1
    else if s[k..k + |p|] == p then k
    else FindFrom(s, p, k + 1)
  }

  function Find(s: String, p: String): int {
    FindFrom(s, p, 0)
  }

  /** `p in s`. */
  predicate Contains(s: String, p: String) {
    Find(s, p) >= 0
  }

  lemma OccursContains(s: String, p: String, i: int)
    requires OccursAt(s, p, i)
    ensures Contains(s, p)
  {
  }

  /** A pattern found inside a part of a string is found in the whole. */
  lemma ContainsSlice(s: String, p: String, a: nat, b: nat)
    requires a <= b <= |s|
    requires Contains(s[a..b], p)
    ensures Contains(s, p)
  {
    var i := Find(s[a..b], p);
    assert OccursAt(s[a..b], p, i);
    SliceOfSlice(s, a, b, i, i + |p|);
    OccursContains(s, p, a + i);
  }

  /** Concatenation associates; stated generically, it stays cheap for sequences of strings. */
  lemma AppendAssociates<T>(a: seq<T>, b: seq<T>, c: seq<T>)
    ensures (a + b) + c == a + (b + c)
  {
  }

  /** A slice of a slice is a slice of the whole. */
  lemma SliceOfSlice<T>(s: seq<T>, a: nat, b: nat, i: nat, j: nat)
    requires a <= b <= |s| && i <= j <= b - a
    ensures s[a..b][i..j] == s[a + i..a + j]
  {
    forall k | 0 <= k < j - i ensures s[a..b][i..j][k] == s[a + i..a + j][k] {
      assert s[a..b][i..j][k] == s[a..b][i + k];
    }
  }

  /** Lower-casing a slice gives the same slice of the lower-cased whole. */
  lemma LowerSliceOccurs(s: String, a: nat, b: nat)
    requires a <= b <= |s|
    ensures Contains(Lower(s), Lower(s[a..b]))
  {
    assert Lower(s)[a..b] == Lower(s[a..b]);
    OccursContains(Lower(s), Lower(s[a..b]), a);
  }

  /** Lower-casing keeps every occurrence of an already lower-case pattern. */
  lemma LowerKeepsLowerPattern(s: String, p: String, i: nat)
    requires OccursAt(s, p, i)
    requires Lower(p) == p
    ensures OccursAt(Lower(s), p, i)
  {
    forall k | 0 <= k < |p|
      ensures Lower(s)[i + k] == p[k]
    {
      assert s[i + k] == p[k];
      assert LowerChar(p[k]) == p[k];
    }
    assert Lower(s)[i..i + |p|] == p;
  }

  /** The number of characters of `s` from `k` on that satisfy `IsSpace`, before the first that does not. */
  function SpaceRun(s: String, k: nat): (n: nat)
    requires k <= |s|
    ensures k + n <= |s|
    ensures forall i :: k <= i < k + n ==> IsSpace(s[i])
    ensures k + n == |s| || !IsSpace(s[k + n])
    decreases |s| - k
  {
    if k < |s| && IsSpace(s[k]) then 1 + SpaceRun(s, k + 1) else 0
  }

  /** The length of the longest run of `IsWordChar` characters starting at `k` (the greedy `\w*`). */
  function WordRun(s: String, k: nat): (n: nat)
    requires k <= |s|
    ensures k + n <= |s|
    ensures forall i :: k <= i < k + n ==> IsWordChar(s[i])
    ensures k + n == |s| || !IsWordChar(s[k + n])
    decreases |s| - k
  {
    if k < |s| && IsWordChar(s[k]) then 1 + WordRun(s, k + 1) else 0
  }

  /** The first position at or after `k` holding `c`, or `|s|`. */
  function CharFrom(s: String, c: char, k: nat): (r: nat)
    requires k <= |s|
    ensures k <= r <= |s|
    ensures r < |s| ==> s[r] == c
    ensures forall i :: k <= i < r ==> s[i] != c
    decreases |s| - k
  {
    if k == |s| || s[k] == c then k else CharFrom(s, c, k + 1)
  }

  /** Up to the next `c`, there is no `c`. */
  lemma NoCharBeforeNext(s: String, c: char, k: nat)
    requires k <= |s|
    ensures c !in s[k..CharFrom(s, c, k)]
  {
    var r := CharFrom(s, c, k);
    forall i | 0 <= i < r - k ensures s[k..r][i] != c {
      assert s[k..r][i] == s[k + i];
    }
  }

  /** The next `c` at or after an occurrence of `w` lies past it when `w` holds no `c`. */
  lemma CharFromPastWord(s: String, c: char, k: nat, w: String)
    requires OccursAt(s, w, k) && c !in w
    ensures CharFrom(s, c, k) >= k + |w|
  {
  }

  /** The next `c` after a run free of `c` is the end of that run. */
  lemma CharFromAfterRun(s: String, c: char, a: nat, b: nat)
    requires a <= b < |s| && s[b] == c && c !in s[a..b]
    ensures CharFrom(s, c, a) == b
  {
    forall i | a <= i < b ensures s[i] != c {
      assert s[i] == s[a..b][i - a];
    }
  }

  /** With no `c` from `a` on, the next `c` is the end. */
  lemma CharFromAfterEnd(s: String, c: char, a: nat)
    requires a <= |s| && forall i :: a <= i < |s| ==> s[i] != c
    ensures CharFrom(s, c, a) == |s|
  {
  }

  /** `s.count(c)` for one character. */
  function Count(s: String, c: char): nat {
    if s == [] then 0 else (if s[0] == c then 1 else 0) + Count(s[1..], c)
  }

  /** `c` is counted zero times exactly when it does not occur. */
  lemma {:induction false} CountZeroAbsent(s: String, c: char)
    ensures Count(s, c) == 0 <==> c !in s
    decreases |s|
  {
    if s != [] {
      CountZeroAbsent(s[1..], c);
      assert s == [s[0]] + s[1..];
    }
  }

  lemma CountCons(x: char, s: String, c: char)
    ensures Count([x] + s, c) == (if x == c then 1 else 0) + Count(s, c)
  {
    assert ([x] + s)[1..] == s;
  }

  lemma {:induction false} CountConcat(a: String, b: String, c: char)
    ensures Count(a + b, c) == Count(a, c) + Count(b, c)
    decreases |a|
  {
    if a == [] {
      assert a + b == b;
    } else {
      CountConcat(a[1..], b, c);
      assert (a + b)[0] == a[0];
      assert (a + b)[1..] == a[1..] + b;
    }
  }

  // ---------------------------------------------------------------- whitespace

  /** `s.lstrip()`. */
  function TrimStart(s: String): (r: String)
    ensures |r| <= |s| && r == s[|s| - |r|..]
    ensures r == [] || !IsSpace(r[0])
    ensures forall i :: 0 <= i < |s| - |r| ==> IsSpace(s[i])
  {
    if |s| > 0 && IsSpace(s[0]) then TrimStart(s[1..]) else s
  }

  /** `s.rstrip()`. */
  function TrimEnd(s: String): (r: String)
    ensures |r| <= |s| && r == s[..|r|]
    ensures r == [] || !IsSpace(r[|r| - 1])
    ensures forall i :: |r| <= i < |s| ==> IsSpace(s[i])
  {
    if |s| > 0 && IsSpace(s[|s| - 1]) then TrimEnd(s[..|s| - 1]) else s
  }

  /** Neither end of `s` is whitespace. */
  predicate IsStripped(s: String) {
    s == [] || (!IsSpace(s[0]) && !IsSpace(s[|s| - 1]))
  }

  /** How many whitespace characters `s.strip()` removes at the front. */
  function StripOffset(s: String): nat {
    |s| - |TrimStart(s)|
  }

  /** `s.strip()`: `s` without its leading and trailing whitespace, and only that. */
  function Strip(s: String): (r: String)
    ensures IsStripped(r)
    ensures StripOffset(s) + |r| <= |s| && r == s[StripOffset(s)..StripOffset(s) + |r|]
    ensures forall i :: 0 <= i < StripOffset(s) ==> IsSpace(s[i])
    ensures forall i :: StripOffset(s) + |r| <= i < |s| ==> IsSpace(s[i])
  {
    TrimEnd(TrimStart(s))
  }

  /** Stripping the ends never removes a non-whitespace character. */
  lemma StripKeepsCount(s: String, c: char)
    requires !IsSpace(c)
    ensures Count(Strip(s), c) == Count(s, c)
  {
    TrimStartKeepsCount(s, c);
    TrimEndKeepsCount(TrimStart(s), c);
  }

  lemma {:induction false} TrimStartKeepsCount(s: String, c: char)
    requires !IsSpace(c)
    ensures Count(TrimStart(s), c) == Count(s, c)
    decreases |s|
  {
    if |s| > 0 && IsSpace(s[0]) {
      TrimStartKeepsCount(s[1..], c);
    }
  }

  lemma {:induction false} TrimEndKeepsCount(s: String, c: char)
    requires !IsSpace(c)
    ensures Count(TrimEnd(s), c) == Count(s, c)
    decreases |s|
  {
    if |s| > 0 && IsSpace(s[|s| - 1]) {
      var init := s[..|s| - 1];
      TrimEndKeepsCount(init, c);
      assert s == init + [s[|s| - 1]];
      CountConcat(init, [s[|s| - 1]], c);
    }
  }

  /** `s.strip(c)` for one character `c`. */
  function StripChar(s: String, c: char): (r: String)
    ensures r == [] || (r[0] != c && r[|r| - 1] != c)
    ensures |r| <= |s|
    decreases |s|
  {
    if |s| > 0 && s[0] == c then StripChar(s[1..], c)
    else if |s| > 0 && s[|s| - 1] == c then StripChar(s[..|s| - 1], c)
    else s
  }

  /** No whitespace except single spaces that are never followed by whitespace. */
  predicate IsCollapsed(s: String) {
    forall i :: 0 <= i < |s| && IsSpace(s[i]) ==> s[i] == ' ' && (i + 1 == |s| || !IsSpace(s[i + 1]))
  }

  /** `re.sub(r"\s+", " ", s)`: every maximal run of whitespace becomes one space. */
  function Collapse(s: String): (r: String)
    ensures |r| <= |s|
    ensures r == [] <==> s == []
    ensures s != [] ==> (IsSpace(r[0]) <==> IsSpace(s[0]))
    decreases |s|
  {
    if s == [] then []
    else if IsSpace(s[0]) then [' '] + Collapse(TrimStart(s[1..]))
    else [s[0]] + Collapse(s[1..])
  }

  /** The result of `Collapse` has no whitespace run longer than one space, and only spaces. */
  lemma {:induction false} CollapseIsCollapsed(s: String)
    ensures IsCollapsed(Collapse(s))
    decreases |s|
  {
    if s != [] {
      if IsSpace(s[0]) {
        var t := TrimStart(s[1..]);
        CollapseIsCollapsed(t);
        CollapsedCons(' ', Collapse(t));
      } else {
        CollapseIsCollapsed(s[1..]);
        CollapsedCons(s[0], Collapse(s[1..]));
      }
    }
  }

  /** A character put in front of a collapsed string keeps it collapsed unless it starts a longer whitespace run. */
  lemma CollapsedCons(c: char, r: String)
    requires IsCollapsed(r)
    requires IsSpace(c) ==> c == ' ' && (r == [] || !IsSpace(r[0]))
    ensures IsCollapsed([c] + r)
  {
    var s := [c] + r;
    forall i | 0 <= i < |s| && IsSpace(s[i]) ensures s[i] == ' ' && (i + 1 == |s| || !IsSpace(s[i + 1])) {
      if i > 0 {
        assert s[i] == r[i - 1];
        if i + 1 < |s| {
          assert s[i + 1] == r[i];
        }
      }
    }
  }

  /** Collapsing whitespace never adds or removes a non-whitespace character. */
  lemma {:induction false} CollapseKeepsCount(s: String, c: char)
    requires !IsSpace(c)
    ensures Count(Collapse(s), c) == Count(s, c)
    decreases |s|
  {
    if s != [] && IsSpace(s[0]) {
      var t := TrimStart(s[1..]);
      CollapseKeepsCount(t, c);
      TrimStartKeepsCount(s[1..], c);
      CountCons(' ', Collapse(t), c);
    } else if s != [] {
      CollapseKeepsCount(s[1..], c);
      CountCons(s[0], Collapse(s[1..]), c);
    }
  }

  /** A suffix of a collapsed string is collapsed. */
  lemma CollapsedSuffix(s: String, k: nat)
    requires IsCollapsed(s) && k <= |s|
    ensures IsCollapsed(s[k..])
  {
    forall i | 0 <= i < |s| - k && IsSpace(s[k..][i])
      ensures s[k..][i] == ' ' && (i + 1 == |s| - k || !IsSpace(s[k..][i + 1]))
    {
      assert s[k..][i] == s[k + i];
    }
  }

  /** Appending a non-whitespace character keeps a string collapsed. */
  lemma CollapsedAppend(s: String, c: char)
    requires IsCollapsed(s) && !IsSpace(c)
    ensures IsCollapsed(s + [c])
  {
    var t := s + [c];
    forall i | 0 <= i < |t| && IsSpace(t[i])
      ensures t[i] == ' ' && (i + 1 == |t| || !IsSpace(t[i + 1]))
    {
      assert i < |s| && t[i] == s[i];
    }
  }

  /** Dropping leading and trailing whitespace keeps a string collapsed. */
  lemma StripCollapsed(s: String)
    requires IsCollapsed(s)
    ensures IsCollapsed(Strip(s))
  {
    var r := Strip(s);
    var a := StripOffset(s);
    CollapsedSuffix(s, a);
    CollapsedPrefix(s[a..], |r|);
    assert r == s[a..][..|r|];
  }

  // ---------------------------------------------------------------- building and splitting

  /** The first item, in order, that contains `name` as a substring. */
  function FirstContaining(items: seq<String>, name: String): (r: Option<String>)
    ensures r.None? <==> forall i :: 0 <= i < |items| ==> !Contains(items[i], name)
    ensures r.Some? ==> exists i :: 0 <= i < |items| && items[i] == r.value
                                     && Contains(items[i], name)
                                     && forall j :: 0 <= j < i ==> !Contains(items[j], name)
  {
    if items == [] then None
    else if Contains(items[0], name) then Some(items[0])
    else
      var r := FirstContaining(items[1..], name);
      assert forall i :: 1 <= i < |items| ==> items[i] == items[1..][i - 1];
      r
  }

  /** The loop `for item in items: if name in item: return item`. */
  method FindFirstContaining(items: seq<String>, name: String) returns (found: Option<String>)
    ensures found == FirstContaining(items, name)
  {
    for i := 0 to |items|
      invariant forall j :: 0 <= j < i ==> !Contains(items[j], name)
    {
      if Contains(items[i], name) {
        assert items[i..][0] == items[i];
        return Some(items[i]);
      }
    }
    return None;
  }

  /** The position of the last `c` in `s`, or -1. */
  function LastIndexOf(s: String, c: char): (r: int)
    ensures -1 <= r < |s|
    ensures r >= 0 ==> s[r] == c
    ensures forall i :: r < i < |s| ==> s[i] != c
  {
    if s == [] then -1
    else if s[|s| - 1] == c then |s| - 1
    else LastIndexOf(s[..|s| - 1], c)
  }

  /** `s.rsplit(c, 1)[0]`: everything before the last `c`, or all of `s` without one. */
  function BeforeLast(s: String, c: char): (r: String)
    ensures c !in s ==> r == s
  {
    var i := LastIndexOf(s, c);
    if i < 0 then s else s[..i]
  }

  /** Splitting off the last separator of `a + [c] + b` gives `a` back when `b` holds no `c`. */
  lemma {:induction false} BeforeLastOfJoined(a: String, c: char, b: String)
    requires c !in b
    ensures BeforeLast(a + [c] + b, c) == a
    decreases |b|
  {
    var s := a + [c] + b;
    if b == [] {
      assert s[..|s| - 1] == a;
    } else {
      var b' := b[..|b| - 1];
      assert s[..|s| - 1] == a + [c] + b';
      BeforeLastOfJoined(a, c, b');
    }
  }

  /** Stripping keeps a final character that is not whitespace. */
  lemma StripKeepsLast(s: String)
    requires s != [] && !IsSpace(s[|s| - 1])
    ensures Strip(s) != [] && Strip(s)[|Strip(s)| - 1] == s[|s| - 1]
  {
  }

  /** Truncating a collapsed string keeps it collapsed. */
  lemma CollapsedTruncate(s: String, n: nat)
    requires IsCollapsed(s)
    ensures IsCollapsed(Truncate(s, n))
  {
    if |s| > n {
      var p := s[..n];
      CollapsedPrefix(s, n);
      CollapsedAppend(p, '.');
      CollapsedAppend(p + ['.'], '.');
      CollapsedAppend(p + ['.'] + ['.'], '.');
      assert p + ['.'] + ['.'] + ['.'] == p + "...";
    }
  }

  /** A prefix of a collapsed string is collapsed. */
  lemma CollapsedPrefix(s: String, k: nat)
    requires IsCollapsed(s) && k <= |s|
    ensures IsCollapsed(s[..k])
  {
    forall i | 0 <= i < k && IsSpace(s[..k][i])
      ensures s[..k][i] == ' ' && (i + 1 == k || !IsSpace(s[..k][i + 1]))
    {
      assert s[..k][i] == s[i];
      if i + 1 < k {
        assert s[..k][i + 1] == s[i + 1];
      }
    }
  }

  /** `re.sub(r"^[:\s]+", "", s)`: leading colons and whitespace removed. */
  function DropLeadingColons(s: String): (r: String)
    ensures |r| <= |s| && r == s[|s| - |r|..]
    ensures r == [] || (r[0] != ':' && !IsSpace(r[0]))
  {
    if s != [] && (s[0] == ':' || IsSpace(s[0])) then DropLeadingColons(s[1..]) else s
  }

  /** `re.sub(r"^[^a-zA-Z]*", "", s)`: everything before the first ASCII letter removed. */
  function DropLeadingNonLetters(s: String): (r: String)
    ensures |r| <= |s| && r == s[|s| - |r|..]
    ensures r == [] || IsAsciiLetter(r[0])
  {
    if s != [] && !IsAsciiLetter(s[0]) then DropLeadingNonLetters(s[1..]) else s
  }

  /** Dropping some leading whitespace does not change the strip. */
  lemma {:induction false} StripAfterSpaces(s: String, k: nat)
    requires k <= |s| && forall i :: 0 <= i < k ==> IsSpace(s[i])
    ensures Strip(s[k..]) == Strip(s)
    decreases k
  {
    if k > 0 {
      assert s[1..][k - 1..] == s[k..];
      StripAfterSpaces(s[1..], k - 1);
      assert TrimStart(s) == TrimStart(s[1..]);
    }
  }

  /** A string with no whitespace at either end is its own strip. */
  lemma StripStripped(s: String)
    requires IsStripped(s)
    ensures Strip(s) == s
  {
  }

  /** `[f(x) for x in s]`. */
  function Map<A, B>(f: A -> B, s: seq<A>): (r: seq<B>)
    ensures |r| == |s|
  {
    if s == [] then [] else Map(f, s[..|s| - 1]) + [f(s[|s| - 1])]
  }

  lemma {:induction false} MapAt<A, B>(f: A -> B, s: seq<A>, i: nat)
    requires i < |s|
    ensures Map(f, s)[i] == f(s[i])
    decreases |s|
  {
    if i < |s| - 1 {
      MapAt(f, s[..|s| - 1], i);
    }
  }

  /** `[f(x) for x in s if keep(x)]`. */
  function FilterMap<A, B>(keep: A -> bool, f: A -> B, s: seq<A>): (r: seq<B>)
    ensures |r| <= |s|
  {
    if s == [] then []
    else
      var init := FilterMap(keep, f, s[..|s| - 1]);
      if keep(s[|s| - 1]) then init + [f(s[|s| - 1])] else init
  }

  /** One more element: its image when kept, after the images of the elements before it. */
  lemma FilterMapSnoc<A, B>(keep: A -> bool, f: A -> B, s: seq<A>, n: nat)
    requires n < |s|
    ensures FilterMap(keep, f, s[..n + 1]) == FilterMap(keep, f, s[..n]) + (if keep(s[n]) then [f(s[n])] else [])
  {
    assert s[..n + 1][..n] == s[..n];
  }

  /** When every kept element maps to a good value, every value of `FilterMap` is good. */
  lemma {:induction false} FilterMapAll<A, B>(keep: A -> bool, f: A -> B, good: B -> bool, s: seq<A>)
    requires forall i :: 0 <= i < |s| && keep(s[i]) ==> good(f(s[i]))
    ensures forall j :: 0 <= j < |FilterMap(keep, f, s)| ==> good(FilterMap(keep, f, s)[j])
    decreases |s|
  {
    if s != [] {
      var init := s[..|s| - 1];
      assert forall i :: 0 <= i < |init| ==> init[i] == s[i];
      FilterMapAll(keep, f, good, init);
    }
  }

  /** `next((f(x) for x in s if f(x)), "")`: the first non-empty image, or "" when there is none. */
  function FirstNonEmpty<A>(f: A -> String, s: seq<A>): String
    decreases |s|
  {
    if s == [] then [] else if f(s[0]) != [] then f(s[0]) else FirstNonEmpty(f, s[1..])
  }

  /** `FirstNonEmpty` is "" exactly when every image is, and otherwise the image of an element only empty images precede. */
  lemma {:induction false} FirstNonEmptyIsFirst<A>(f: A -> String, s: seq<A>)
    ensures var r := FirstNonEmpty(f, s);
      && (r == [] <==> forall i :: 0 <= i < |s| ==> f(s[i]) == [])
      && (r != [] ==> exists i :: 0 <= i < |s| && r == f(s[i]) && forall j :: 0 <= j < i ==> f(s[j]) == [])
    decreases |s|
  {
    if s != [] && f(s[0]) == [] {
      var rest := s[1..];
      FirstNonEmptyIsFirst(f, rest);
      assert forall i :: 1 <= i < |s| ==> s[i] == rest[i - 1];
      if FirstNonEmpty(f, rest) != [] {
        var i :| 0 <= i < |rest| && FirstNonEmpty(f, rest) == f(rest[i]) && forall j :: 0 <= j < i ==> f(rest[j]) == [];
        assert FirstNonEmpty(f, s) == f(s[i + 1]);
      }
    }
  }

  /** `sep.join(parts)`. */
  function Join(parts: seq<String>, sep: String): (r: String)
    ensures parts == [] ==> r == []
    ensures |parts| == 1 ==> r == parts[0]
  {
    if parts == [] then [] else if |parts| == 1 then parts[0] else parts[0] + sep + Join(parts[1..], sep)
  }

  /** `s.split(c)` for one character `c`: the pieces between the occurrences of `c`. */
  function Split(s: String, c: char): (r: seq<String>)
    ensures |r| >= 1
    ensures forall i :: 0 <= i < |r| ==> c !in r[i]
    ensures Join(r, [c]) == s
    decreases |s|
  {
    var i := CharFrom(s, c, 0);
    if i == |s| then
      [s]
    else
      var rest := Split(s[i + 1..], c);
      assert ([s[..i]] + rest)[1..] == rest;
      assert s == s[..i] + [c] + s[i + 1..];
      [s[..i]] + rest
  }

  /** `s.replace(pat, rep)`: non-overlapping occurrences, left to right. */
  function ReplaceAll(s: String, pat: String, rep: String): (r: String)
    requires pat != []
    ensures !Contains(s, pat) ==> r == s
    decreases |s|
  {
    if |s| < |pat| then s
    else if s[..|pat|] == pat then rep + ReplaceAll(s[|pat|..], pat, rep)
    else
      var rest := ReplaceAll(s[1..], pat, rep);
      assert !Contains(s, pat) ==> !Contains(s[1..], pat) by {
        if Contains(s[1..], pat) { assert s[1..|s|] == s[1..]; ContainsSlice(s, pat, 1, |s|); }
      }
      assert s == [s[0]] + s[1..];
      [s[0]] + rest
  }

  /** The pieces `s.split(sep)` would produce are all free of `sep`; this is the last one. */
  function AfterLast(s: String, sep: String): (r: String)
    requires sep != []
    ensures !Contains(r, sep)
    ensures |r| <= |s| && r == s[|s| - |r|..]
    ensures !Contains(s, sep) ==> r == s
    decreases |s|
  {
    var i := Find(s, sep);
    if i < 0 then s else AfterLast(s[i + |sep|..], sep)
  }

  /** `s` ends with `x` followed by `y`: it is some prefix, then `x`, then `y`. */
  ghost predicate EndsWithPair<T>(s: seq<T>, x: seq<T>, y: seq<T>) {
    |x| + |y| <= |s| && s == s[..|s| - |y| - |x|] + x + y
  }

  /** When `sep` occurs, `s` is some prefix, then `sep`, then the piece after the last `sep`. */
  lemma {:induction false} AfterLastSplits(s: String, sep: String)
    requires sep != [] && Contains(s, sep)
    ensures EndsWithPair(s, sep, AfterLast(s, sep))
    decreases |s|
  {
    var t := s[Find(s, sep) + |sep|..];
    if Contains(t, sep) {
      AfterLastSplits(t, sep);
      AfterLastLater(s, sep);
    } else {
      AfterLastFirst(s, sep);
    }
  }

  /** The first `sep` is the last one: the piece is what follows it. */
  lemma AfterLastFirst(s: String, sep: String)
    requires sep != [] && Contains(s, sep) && !Contains(s[Find(s, sep) + |sep|..], sep)
    ensures EndsWithPair(s, sep, AfterLast(s, sep))
  {
    var i := Find(s, sep);
    assert AfterLast(s, sep) == s[i + |sep|..];
    SplitFirst(s, i, sep);
  }

  /** Another `sep` follows the first: the cut of the rest is a cut of `s`. */
  lemma AfterLastLater(s: String, sep: String)
    requires sep != [] && Contains(s, sep)
    requires var t := s[Find(s, sep) + |sep|..]; EndsWithPair(t, sep, AfterLast(t, sep))
    ensures EndsWithPair(s, sep, AfterLast(s, sep))
  {
    var i := Find(s, sep);
    var t := s[i + |sep|..];
    assert AfterLast(s, sep) == AfterLast(t, sep);
    SplitStep(s, i + |sep|, t, sep, AfterLast(t, sep));
  }

  /** A cut of a suffix of `s` into some text, `x` and `y` is a cut of `s` itself. */
  lemma SplitStep<T>(s: seq<T>, k: nat, t: seq<T>, x: seq<T>, y: seq<T>)
    requires k <= |s| && t == s[k..] && EndsWithPair(t, x, y)
    ensures EndsWithPair(s, x, y)
  {
    var n := |t| - |y| - |x|;
    assert s == s[..k] + t;
    assert s[..k] + t[..n] == s[..k + n];
  }

  /** An occurrence of `x` at `i` cuts `s` into what comes before, `x` and what comes after. */
  lemma SplitFirst<T>(s: seq<T>, i: nat, x: seq<T>)
    requires i + |x| <= |s| && s[i..i + |x|] == x
    ensures EndsWithPair(s, x, s[i + |x|..])
  {
    assert s == s[..i] + s[i..i + |x|] + s[i + |x|..];
  }

  function Reverse<T>(s: seq<T>): (r: seq<T>)
    ensures |r| == |s|
    ensures forall i :: 0 <= i < |s| ==> r[i] == s[|s| - 1 - i]
  {
    if s == [] then [] else Reverse(s[1..]) + [s[0]]
  }

  /** `s[:n]`. */
  function Prefix<T>(s: seq<T>, n: nat): (r: seq<T>)
    ensures |r| <= n && |r| <= |s|
    ensures |s| <= n ==> r == s
    ensures r == s[..|r|]
  {
    if |s| <= n then s else s[..n]
  }

  /** `s[:n] + "..." if len(s) > n else s`. */
  function Truncate(s: String, n: nat): (r: String)
    ensures |s| <= n ==> r == s
    ensures |s| > n ==> |r| == n + 3 && EndsWith(r, "...") && StartsWith(s, r[..n])
    ensures |r| <= n + 3
  {
    if |s| > n then s[..n] + "..." else s
  }

  // ---------------------------------------------------------------- de-duplication

  predicate NoDup<T(==)>(s: seq<T>) {
    forall i, j :: 0 <= i < j < |s| ==> s[i] != s[j]
  }

  /**
   * The elements of `s` in first-occurrence order, each once: what a loop that appends an
   * element only when it is not yet in the output builds.
   */
  function Dedup(s: seq<String>): (r: seq<String>)
    ensures NoDup(r)
    ensures forall x :: x in r <==> x in s
    ensures |r| <= |s|
    decreases |s|
  {
    if s == [] then []
    else
      var p := Dedup(s[..|s| - 1]);
      assert forall x :: x in s <==> x in s[..|s| - 1] || x == s[|s| - 1] by {
        assert s == s[..|s| - 1] + [s[|s| - 1]];
      }
      if s[|s| - 1] in p then p else p + [s[|s| - 1]]
  }

  /** One more element: appended when it is new, dropped otherwise. */
  lemma DedupSnoc(s: seq<String>, x: String)
    ensures Dedup(s + [x]) == if x in Dedup(s) then Dedup(s) else Dedup(s) + [x]
  {
    assert (s + [x])[..|s|] == s;
  }

  /** An element not seen before is appended at the end. */
  lemma DedupAppendFresh(s: seq<String>, x: String)
    requires x !in s
    ensures Dedup(s + [x]) == Dedup(s) + [x]
  {
    assert (s + [x])[..|s|] == s;
  }

  /** A sequence without duplicates is left as it is. */
  lemma {:induction false} DedupNoDup(s: seq<String>)
    requires NoDup(s)
    ensures Dedup(s) == s
    decreases |s|
  {
    if s != [] {
      var init := s[..|s| - 1];
      DedupNoDup(init);
      assert s[|s| - 1] !in init;
      assert s == init + [s[|s| - 1]];
    }
  }

  /** The position of the first occurrence of `x` in `s`. */
  function FirstIndex(s: seq<String>, x: String): (i: nat)
    requires x in s
    ensures i < |s| && s[i] == x
    ensures forall j :: 0 <= j < i ==> s[j] != x
  {
    if s[0] == x then 0 else 1 + FirstIndex(s[1..], x)
  }

  /** De-duplication keeps the order of first occurrences. */
  lemma {:induction false} DedupKeepsFirstOrder(s: seq<String>, i: nat, j: nat)
    requires i < j < |Dedup(s)|
    ensures FirstIndex(s, Dedup(s)[i]) < FirstIndex(s, Dedup(s)[j])
    decreases |s|
  {
    var init := s[..|s| - 1];
    var p := Dedup(init);
    var r := Dedup(s);
    assert s == init + [s[|s| - 1]];
    FirstIndexPrefix(s, init, r[i]);
    if j < |p| {
      DedupKeepsFirstOrder(init, i, j);
      FirstIndexPrefix(s, init, r[j]);
    } else {
      assert r[j] == s[|s| - 1] && r[j] !in init;
      assert FirstIndex(s, r[j]) == |s| - 1;
    }
  }

  lemma FirstIndexPrefix(s: seq<String>, init: seq<String>, x: String)
    requires |init| <= |s| && init == s[..|init|] && x in init
    ensures FirstIndex(s, x) == FirstIndex(init, x)
  {
    var a := FirstIndex(s, x);
    var b := FirstIndex(init, x);
    assert init[b] == s[b];
    assert a <= b;
    assert init[a] == s[a];
  }
}
