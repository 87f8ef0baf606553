/**
 * The documentation crawler: the text-block parsers for `o Func` and `o Property` blocks, the
 * readonly test, the title rule for interface names, the interface-link filter and the
 * visited-URL bookkeeping of the crawl.
 *
 * Fetching, HTML parsing and URL joining are parameters: a fetched page is the links of its
 * main content area and of the whole document, `urljoin` is a function given by the caller,
 * and parsing an interface page is a function from URL to its parsed record.
 */
module Scraper {
  import opened Wrappers
  import opened Text

  // ------------------------------------------------------------------ small searches

  /** `kw\s+(\w+)` matches at `i`: `kw`, a non-empty whitespace run, then a word character. */
  predicate WordMatchAt(s: String, kw: String, i: int) {
    OccursAt(s, kw, i) && SpaceRun(s, i + |kw|) > 0 && WordRun(s, i + |kw| + SpaceRun(s, i + |kw|)) > 0
  }

  /**
   * The group of the match at `i`. The whitespace and word classes are disjoint, so the greedy
   * `\s+` takes the whole whitespace run and the greedy `\w+` the whole word run after it.
   */
  function WordAt(s: String, kw: String, i: int): (r: String)
    requires WordMatchAt(s, kw, i)
    ensures r != [] && forall j :: 0 <= j < |r| ==> IsWordChar(r[j])
  {
    var b := i + |kw| + SpaceRun(s, i + |kw|);
    s[b..b + WordRun(s, b)]
  }

  /** The leftmost match of `kw\s+(\w+)` at or after `k`, or -1. */
  function WordMatchFrom(s: String, kw: String, k: nat): (r: int)
    requires k <= |s|
    ensures r == -1 || (k <= r && WordMatchAt(s, kw, r))
    ensures forall i :: k <= i && (r == -1 || i < r) ==> !WordMatchAt(s, kw, i)
    decreases |s| - k
  {
    var i := FindFrom(s, kw, k);
    if i < 0 then -1
    else if WordMatchAt(s, kw, i) then i
    else if i < |s| then WordMatchFrom(s, kw, i + 1)
    else -1
  }

  /**
   * `re.search(kw + r"\s+(\w+)", s)`: the group of the leftmost match, and nothing exactly when
   * there is no match anywhere.
   */
  function WordAfter(s: String, kw: String): (r: Option<String>)
    ensures r.None? <==> forall i :: 0 <= i ==> !WordMatchAt(s, kw, i)
    ensures r.Some? ==>
      exists i :: 0 <= i && WordMatchAt(s, kw, i) && r.value == WordAt(s, kw, i)
        && forall j :: 0 <= j < i ==> !WordMatchAt(s, kw, j)
    ensures r.Some? ==> r.value != [] && forall i :: 0 <= i < |r.value| ==> IsWordChar(r.value[i])
  {
    var i := WordMatchFrom(s, kw, 0);
    if i < 0 then None else Some(WordAt(s, kw, i))
  }

  /** The word after a keyword that opens the text is read back. */
  lemma WordAfterRoundTrip(kw: String, word: String, rest: String)
    requires kw != [] && word != []
    requires forall i :: 0 <= i < |word| ==> IsWordChar(word[i])
    requires rest == [] || !IsWordChar(rest[0])
    ensures WordAfter(kw + " " + word + rest, kw) == Some(word)
  {
    var s := kw + " " + word + rest;
    var a := |kw|;
    assert s[..a] == kw;
    assert s[a] == ' ';
    assert s[a + 1..a + 1 + |word|] == word;
    if rest != [] {
      assert s[a + 1 + |word|] == rest[0];
    }
    WordAtLayout(s, kw, word);
    assert WordMatchFrom(s, kw, 0) == 0;
  }

  /** A keyword at the start, one blank, then a whole word: the match at 0 captures that word. */
  lemma WordAtLayout(s: String, kw: String, word: String)
    requires word != [] && |kw| + 1 + |word| <= |s|
    requires forall i :: 0 <= i < |word| ==> IsWordChar(word[i])
    requires s[..|kw|] == kw && s[|kw|] == ' ' && s[|kw| + 1..|kw| + 1 + |word|] == word
    requires |kw| + 1 + |word| == |s| || !IsWordChar(s[|kw| + 1 + |word|])
    ensures WordMatchAt(s, kw, 0) && WordAt(s, kw, 0) == word
  {
    var b := |kw| + 1;
    assert IsSpace(s[|kw|]);
    assert SpaceRun(s, b) == 0 by { assert s[b] == word[0]; }
    forall i | b <= i < b + |word| ensures IsWordChar(s[i]) {
      assert s[i] == word[i - b];
    }
    assert WordRun(s, b) == |word|;
  }

  const LinkCall: String := "activateLink('"

  /** `activateLink\('([^']+)','[^']+'\)` matches at `i`. */
  predicate LinkCallAt(s: String, i: int) {
    OccursAt(s, LinkCall, i)
    && var a := i + |LinkCall|;
    var q := CharFrom(s, '\'', a);
    a < q && q + 3 <= |s| && s[q + 1] == ',' && s[q + 2] == '\'' && ClosesCall(s, q + 3)
  }

  /** `[^']+'\)` matches at `b`: a non-empty run without quotes, a quote, a closing parenthesis. */
  predicate ClosesCall(s: String, b: nat)
    requires b <= |s|
  {
    var q := CharFrom(s, '\'', b);
    b < q && q + 1 < |s| && s[q + 1] == ')'
  }

  /**
   * The first argument of the call at `i`. The class `[^']` stops at the next quote, so the greedy
   * group runs exactly up to it.
   */
  function LinkTypeAt(s: String, i: int): (r: String)
    requires LinkCallAt(s, i)
    ensures r != [] && forall j :: 0 <= j < |r| ==> r[j] != '\''
  {
    var a := i + |LinkCall|;
    NoCharBeforeNext(s, '\'', a);
    s[a..CharFrom(s, '\'', a)]
  }

  /** The leftmost `activateLink('…','…')` call at or after `k`, or -1. */
  function LinkCallFrom(s: String, k: nat): (r: int)
    requires k <= |s|
    ensures r == -1 || (k <= r && LinkCallAt(s, r))
    ensures forall i :: k <= i && (r == -1 || i < r) ==> !LinkCallAt(s, i)
    decreases |s| - k
  {
    var i := FindFrom(s, LinkCall, k);
    if i < 0 then -1
    else if LinkCallAt(s, i) then i
    else
      var r := LinkCallFrom(s, i + 1);
      NoCallBetween(s, k, i, r);
      r
  }

  /** No call before the first opener, none at a failed candidate, none after it before `r`: none before `r`. */
  lemma NoCallBetween(s: String, k: nat, i: nat, r: int)
    requires k <= i
    requires forall j :: k <= j < i ==> !OccursAt(s, LinkCall, j)
    requires !LinkCallAt(s, i)
    requires forall j :: i + 1 <= j && (r == -1 || j < r) ==> !LinkCallAt(s, j)
    ensures forall j :: k <= j && (r == -1 || j < r) ==> !LinkCallAt(s, j)
  {
  }

  /**
   * `re.search(r"activateLink\('([^']+)','[^']+'\)", s)`: the type argument of the leftmost call,
   * and nothing exactly when there is no call anywhere.
   */
  function ActivateLinkType(s: String): (r: Option<String>)
    ensures r.None? <==> forall i :: 0 <= i ==> !LinkCallAt(s, i)
    ensures r.Some? ==>
      exists i :: 0 <= i && LinkCallAt(s, i) && r.value == LinkTypeAt(s, i)
        && forall j :: 0 <= j < i ==> !LinkCallAt(s, j)
    ensures r.Some? ==> r.value != [] && forall i :: 0 <= i < |r.value| ==> r.value[i] != '\''
  {
    var i := LinkCallFrom(s, 0);
    if i < 0 then None else Some(LinkTypeAt(s, i))
  }

  /** The type of a call preceded by text holding no call opener is read back. */
  lemma ActivateLinkRoundTrip(p: String, t: String, a: String, q: String)
    requires !Contains(p, LinkCall)
    requires t != [] && '\'' !in t && a != [] && '\'' !in a
    ensures ActivateLinkType(p + LinkCall + t + "','" + a + "')" + q) == Some(t)
  {
    var s := p + LinkCall + t + "','" + a + "')" + q;
    var n := |p|;
    var st := n + |LinkCall|;
    var qt := st + |t|;
    var qa := qt + 3 + |a|;
    CallLayout(p, t, a, q);
    CallAtLayout(s, n, qt, qa);
    forall j | 0 <= j < n ensures !LinkCallAt(s, j) {
      NoCallOpenerBefore(p, s, j);
    }
    LeftmostCall(s, n);
  }

  /** A call whose pieces sit at the given positions matches, with the text between the first quotes as its type. */
  lemma CallAtLayout(s: String, n: nat, qt: nat, qa: nat)
    requires n + |LinkCall| < qt && qt + 3 < qa && qa + 2 <= |s|
    requires OccursAt(s, LinkCall, n)
    requires '\'' !in s[n + |LinkCall|..qt] && '\'' !in s[qt + 3..qa]
    requires s[qt] == '\'' && s[qt + 1] == ',' && s[qt + 2] == '\'' && s[qa] == '\'' && s[qa + 1] == ')'
    ensures LinkCallAt(s, n) && LinkTypeAt(s, n) == s[n + |LinkCall|..qt]
  {
    CharFromAfterRun(s, '\'', n + |LinkCall|, qt);
    CharFromAfterRun(s, '\'', qt + 3, qa);
  }

  /** The call at `n` with none before it is the one `ActivateLinkType` reads. */
  lemma LeftmostCall(s: String, n: nat)
    requires LinkCallAt(s, n)
    requires forall j :: 0 <= j < n ==> !LinkCallAt(s, j)
    ensures ActivateLinkType(s) == Some(LinkTypeAt(s, n))
  {
    assert LinkCallFrom(s, 0) == n;
  }

  /** Where the pieces of a call sit in the text built around it. */
  lemma CallLayout(p: String, t: String, a: String, q: String)
    ensures var s := p + LinkCall + t + "','" + a + "')" + q;
      var st := |p| + |LinkCall|;
      var qt := st + |t|;
      var qa := qt + 3 + |a|;
      && qa + 2 <= |s|
      && s[..|p|] == p && s[|p|..st] == LinkCall && s[st..qt] == t && s[qt + 3..qa] == a
      && s[qt] == '\'' && s[qt + 1] == ',' && s[qt + 2] == '\'' && s[qa] == '\'' && s[qa + 1] == ')'
  {
  }

  /** A call opener starting inside `p` would either lie in `p` or hold a quote inside the next opener. */
  lemma NoCallOpenerBefore(p: String, s: String, j: nat)
    requires !Contains(p, LinkCall)
    requires |p| + |LinkCall| <= |s| && s[..|p|] == p && s[|p|..|p| + |LinkCall|] == LinkCall
    requires j < |p|
    ensures !OccursAt(s, LinkCall, j)
  {
    if j + |LinkCall| <= |p| {
      assert !OccursAt(p, LinkCall, j);
      SliceOfSlice(s, 0, |p|, j, j + |LinkCall|);
    } else {
      LinkCallQuoteLast();
      var m := j + 13 - |p|;
      assert s[j + 13] == s[|p|..|p| + |LinkCall|][m];
      assert s[j + 13] != LinkCall[13];
    }
  }

  /** The only quote of the call opener is its last character. */
  lemma LinkCallQuoteLast()
    ensures |LinkCall| == 14 && LinkCall[13] == '\''
    ensures forall m :: 0 <= m < 13 ==> LinkCall[m] != '\''
  {
  }

  // ------------------------------------------------------------------ description lines

  /**
   * The description lines of the block scan. After a line starting with `marker`, every
   * stripped non-empty line is kept except those starting "- **", until a line starting "o "
   * that does not itself start with `marker`; a later `marker` line is skipped.
   */
  function DescriptionLines(lines: seq<String>, marker: String, inDescription: bool): seq<String>
    decreases |lines|
  {
    if lines == [] then []
    else
      var line := Strip(lines[0]);
      if StartsWith(line, marker) then DescriptionLines(lines[1..], marker, true)
      else if StartsWith(line, "o ") && inDescription then []
      else if inDescription && line != [] && !StartsWith(line, "- **") then
        [line] + DescriptionLines(lines[1..], marker, inDescription)
      else DescriptionLines(lines[1..], marker, inDescription)
  }

  /**
   * Every description line is stripped and non-empty, and starts neither with the marker, nor
   * with "o ", nor with "- **".
   */
  lemma {:induction false} DescriptionLinesShape(lines: seq<String>, marker: String, inDescription: bool)
    ensures forall x :: x in DescriptionLines(lines, marker, inDescription) ==>
              x != [] && IsStripped(x) && !StartsWith(x, marker) && !StartsWith(x, "o ") && !StartsWith(x, "- **")
    decreases |lines|
  {
    if lines != [] {
      DescriptionLinesShape(lines[1..], marker, true);
      DescriptionLinesShape(lines[1..], marker, inDescription);
    }
  }

  /** Without a marker line the description is empty. */
  lemma {:induction false} NoMarkerNoDescription(lines: seq<String>, marker: String)
    requires forall i :: 0 <= i < |lines| ==> !StartsWith(Strip(lines[i]), marker)
    ensures DescriptionLines(lines, marker, false) == []
    decreases |lines|
  {
    if lines != [] {
      assert forall i :: 0 <= i < |lines[1..]| ==> lines[1..][i] == lines[i + 1];
      NoMarkerNoDescription(lines[1..], marker);
    }
  }

  /** The description starts right after the first marker line: everything before it is skipped. */
  lemma {:induction false} DescriptionStartsAfterMarker(lines: seq<String>, marker: String, k: nat)
    requires k < |lines| && StartsWith(Strip(lines[k]), marker)
    requires forall i :: 0 <= i < k ==> !StartsWith(Strip(lines[i]), marker)
    ensures DescriptionLines(lines, marker, false) == DescriptionLines(lines[k + 1..], marker, true)
    decreases k
  {
    if k > 0 {
      var rest := lines[1..];
      assert forall i :: 0 <= i < k - 1 ==> rest[i] == lines[i + 1];
      assert rest[k - 1] == lines[k];
      assert rest[k..] == lines[k + 1..];
      DescriptionStartsAfterMarker(rest, marker, k - 1);
    }
  }

  /** Inside a description, the next line starting "o " that is not a marker line ends it. */
  lemma {:induction false} DescriptionStopsAtNextBlock(lines: seq<String>, marker: String, k: nat)
    requires k < |lines|
    requires StartsWith(Strip(lines[k]), "o ") && !StartsWith(Strip(lines[k]), marker)
    ensures DescriptionLines(lines, marker, true) == DescriptionLines(lines[..k], marker, true)
    decreases k
  {
    if k > 0 {
      var rest := lines[1..];
      assert lines[..k][0] == lines[0];
      assert lines[..k][1..] == rest[..k - 1];
      assert rest[k - 1] == lines[k];
      DescriptionStopsAtNextBlock(rest, marker, k - 1);
    }
  }

  /** The line loop with its `in_description` flag. */
  method CollectDescriptionLines(lines: seq<String>, marker: String) returns (descriptionLines: seq<String>)
    ensures descriptionLines == DescriptionLines(lines, marker, false)
  {
    descriptionLines := [];
    var inDescription := false;
    var i := 0;
    while i < |lines|
      invariant 0 <= i <= |lines|
      invariant descriptionLines + DescriptionLines(lines[i..], marker, inDescription)
                == DescriptionLines(lines, marker, false)
    {
      assert lines[i..][1..] == lines[i + 1..];
      var line := Strip(lines[i]);
      if StartsWith(line, marker) {
        inDescription := true;
      } else if StartsWith(line, "o ") && inDescription {
        assert descriptionLines + [] == descriptionLines;
        break;
      } else if inDescription && line != [] && !StartsWith(line, "- **") {
        descriptionLines := descriptionLines + [line];
      }
      i := i + 1;
    }
  }

  /** The description: the kept lines joined with single spaces, stripped. */
  function Description(text: String, marker: String): String {
    Strip(Join(DescriptionLines(Split(text, '\n'), marker, false), " "))
  }

  // ------------------------------------------------------------------ method blocks

  datatype Parameter = Parameter(name: String, description: String)

  datatype MethodInfo = MethodInfo(
    name: String, signature: String, description: String, returnType: String, parameters: seq<Parameter>)

  /**
   * The signature: the text from the first `o Func` up to the next newline or the end, stripped.
   * It starts with `o Func` and is a single line.
   */
  function Signature(text: String): (r: String)
    requires Contains(text, "o Func")
    ensures StartsWith(r, "o Func")
    ensures '\n' !in r
    ensures var i := Find(text, "o Func");
      exists e :: i <= e <= |text| && (e == |text| || text[e] == '\n') && '\n' !in text[i..e]
        && r == Strip(text[i..e])
  {
    var i := Find(text, "o Func");
    var e := CharFrom(text, '\n', i);
    CharFromPastWord(text, '\n', i, "o Func");
    NoCharBeforeNext(text, '\n', i);
    var s := text[i..e];
    assert s[..6] == text[i..i + 6];
    SignatureStrip(s);
    StripKeepsCharAbsence(s, '\n');
    Strip(s)
  }

  /** Stripping cannot bring in a character. */
  lemma StripKeepsCharAbsence(s: String, c: char)
    requires c !in s
    ensures c !in Strip(s)
  {
    var r := Strip(s);
    var o := StripOffset(s);
    forall j | 0 <= j < |r| ensures r[j] != c {
      assert r[j] == s[o + j];
    }
  }

  /** Stripping a line that starts with `o Func` keeps that start. */
  lemma SignatureStrip(s: String)
    requires |s| >= 6 && s[..6] == "o Func"
    ensures StartsWith(Strip(s), "o Func")
  {
    assert s[0] == s[..6][0] && s[5] == s[..6][5];
    StripKeepsStart(s, 6);
  }

  /** Stripping a string whose first `k` characters begin and end with non-whitespace keeps them. */
  lemma StripKeepsStart(s: String, k: nat)
    requires 0 < k <= |s| && !IsSpace(s[0]) && !IsSpace(s[k - 1])
    ensures |Strip(s)| >= k && Strip(s)[..k] == s[..k]
  {
    var r := Strip(s);
    assert StripOffset(s) == 0;
    assert |r| >= k;
  }

  /** One parameter record per captured `- **Name** text` pair, with the text stripped. */
  function ParameterOf(m: (String, String)): Parameter {
    Parameter(m.0, Strip(m.1))
  }

  /** `_parse_method_from_text`, with the captured parameter pairs of the text. */
  function MethodFromText(text: String, paramMatches: seq<(String, String)>): (r: Option<MethodInfo>)
    ensures r.None? <==> !Contains(text, "o Func")
  {
    if !Contains(text, "o Func") then None
    else
      var signature := Signature(text);
      Some(MethodInfo(
        WordAfter(signature, "o Func").GetOr(""),
        signature,
        Description(text, "o Func"),
        WordAfter(signature, "As").GetOr(""),
        Map(ParameterOf, paramMatches)))
  }

  /**
   * A parsed method has a signature starting with `o Func`, a name and a return type that are
   * empty or single words, and one parameter per captured pair.
   */
  lemma MethodFromTextShape(text: String, paramMatches: seq<(String, String)>)
    requires Contains(text, "o Func")
    ensures var m := MethodFromText(text, paramMatches).value;
      && StartsWith(m.signature, "o Func")
      && (forall i :: 0 <= i < |m.name| ==> IsWordChar(m.name[i]))
      && (forall i :: 0 <= i < |m.returnType| ==> IsWordChar(m.returnType[i]))
      && |m.parameters| == |paramMatches|
  {
    var signature := Signature(text);
    WordAfterOrEmpty(signature, "o Func");
    WordAfterOrEmpty(signature, "As");
  }

  /** The word after a keyword, or the empty default, holds only word characters. */
  lemma WordAfterOrEmpty(s: String, kw: String)
    ensures forall i :: 0 <= i < |WordAfter(s, kw).GetOr("")| ==> IsWordChar(WordAfter(s, kw).GetOr("")[i])
  {
  }

  /** The parameter loop of `_parse_method_from_text`. */
  method CollectParameters(paramMatches: seq<(String, String)>) returns (parameters: seq<Parameter>)
    ensures parameters == Map(ParameterOf, paramMatches)
  {
    parameters := [];
    for i := 0 to |paramMatches|
      invariant parameters == Map(ParameterOf, paramMatches[..i])
    {
      assert paramMatches[..i + 1][..i] == paramMatches[..i];
      parameters := parameters + [Parameter(paramMatches[i].0, Strip(paramMatches[i].1))];
    }
    assert paramMatches[..|paramMatches|] == paramMatches;
  }

  /** `_parse_method_from_text`. */
  method ParseMethodFromText(text: String, paramMatches: seq<(String, String)>) returns (r: Option<MethodInfo>)
    ensures r == MethodFromText(text, paramMatches)
  {
    if !Contains(text, "o Func") {
      return None;
    }
    var signature := Signature(text);
    var name := WordAfter(signature, "o Func").GetOr("");
    var returnType := WordAfter(signature, "As").GetOr("");
    var descriptionLines := CollectDescriptionLines(Split(text, '\n'), "o Func");
    var parameters := CollectParameters(paramMatches);
    r := Some(MethodInfo(name, signature, Strip(Join(descriptionLines, " ")), returnType, parameters));
  }

  // ------------------------------------------------------------------ property blocks

  datatype PropertyInfo = PropertyInfo(name: String, propertyType: String, description: String, readonly: bool)

  /** The readonly test: one of three markers occurs in the lower-cased text. */
  predicate IsReadonly(text: String) {
    var lower := Lower(text);
    Contains(lower, "readonly") || Contains(lower, "read-only") || Contains(lower, "const")
  }

  /** The test is a plain substring test: any word containing `const`, such as `constant`, counts. */
  lemma ConstMarksReadonly(text: String, i: nat)
    requires OccursAt(text, "const", i)
    ensures IsReadonly(text)
  {
    assert Lower("const") == "const";
    LowerKeepsLowerPattern(text, "const", i);
    OccursContains(Lower(text), "const", i);
  }

  /** Upper-case markers count as well: `READONLY` marks a property readonly. */
  lemma UpperReadonlyMarks(text: String, i: nat)
    requires OccursAt(text, "READONLY", i)
    ensures IsReadonly(text)
  {
    var lower := Lower(text);
    forall k | 0 <= k < 8 ensures lower[i + k] == "readonly"[k] {
      assert text[i + k] == "READONLY"[k];
    }
    assert lower[i..i + 8] == "readonly";
    OccursContains(lower, "readonly", i);
  }

  /**
   * `_parse_property_from_html` (with the script source of the block) and
   * `_parse_property_from_text` (with the text itself as script source).
   */
  function PropertyFromText(text: String, scriptSource: String): (r: Option<PropertyInfo>)
    ensures r.None? <==> !Contains(text, "o Property")
  {
    if !Contains(text, "o Property") then None
    else
      Some(PropertyInfo(
        WordAfter(text, "o Property").GetOr(""),
        ActivateLinkType(scriptSource).GetOr(""),
        Description(text, "o Property"),
        IsReadonly(text)))
  }

  /**
   * A parsed property has a name that is empty or one word, a type without quotes, and a
   * description whose lines all came after an `o Property` line.
   */
  lemma PropertyFromTextShape(text: String, scriptSource: String)
    requires Contains(text, "o Property")
    ensures var p := PropertyFromText(text, scriptSource).value;
      && (forall i :: 0 <= i < |p.name| ==> IsWordChar(p.name[i]))
      && (forall i :: 0 <= i < |p.propertyType| ==> p.propertyType[i] != '\'')
      && (p.readonly <==> IsReadonly(text))
  {
  }

  /** `_parse_property_from_html`. */
  method ParsePropertyFromHtml(text: String, htmlContent: String) returns (r: Option<PropertyInfo>)
    ensures r == PropertyFromText(text, htmlContent)
  {
    if !Contains(text, "o Property") {
      return None;
    }
    var propertyType := ActivateLinkType(htmlContent).GetOr("");
    var name := WordAfter(text, "o Property").GetOr("");
    var descriptionLines := CollectDescriptionLines(Split(text, '\n'), "o Property");
    r := Some(PropertyInfo(name, propertyType, Strip(Join(descriptionLines, " ")), IsReadonly(text)));
  }

  /** `_parse_property_from_text`: the same scan, with the type read from the text itself. */
  method ParsePropertyFromText(text: String) returns (r: Option<PropertyInfo>)
    ensures r == PropertyFromText(text, text)
  {
    if !Contains(text, "o Property") {
      return None;
    }
    var propertyType := ActivateLinkType(text).GetOr("");
    var name := WordAfter(text, "o Property").GetOr("");
    var descriptionLines := CollectDescriptionLines(Split(text, '\n'), "o Property");
    r := Some(PropertyInfo(name, propertyType, Strip(Join(descriptionLines, " ")), IsReadonly(text)));
  }

  // ------------------------------------------------------------------ title rule

  /** The interface name of a page title: the text after its last `Interface`, or the whole title. */
  function TitleName(title: String): (r: String)
    ensures !Contains(Strip(title), "Interface") ==> r == Strip(title)
    ensures IsStripped(r)
    ensures Contains(Strip(title), "Interface") ==> !Contains(r, "Interface")
    ensures Contains(Strip(title), "Interface") ==>
      exists a :: EndsWithPair(Strip(title), "Interface", a) && !Contains(a, "Interface") && r == Strip(a)
  {
    var t := Strip(title);
    if Contains(t, "Interface") then
      var after := AfterLast(t, "Interface");
      StripKeepsAbsence(after, "Interface");
      AfterLastSplits(t, "Interface");
      Strip(after)
    else t
  }

  /** Stripping cannot create an occurrence. */
  lemma StripKeepsAbsence(s: String, p: String)
    requires !Contains(s, p)
    ensures !Contains(Strip(s), p)
  {
    var r := Strip(s);
    if Contains(r, p) {
      ContainsSlice(s, p, StripOffset(s), StripOffset(s) + |r|);
    }
  }

  // ------------------------------------------------------------------ links and crawl

  datatype Link = Link(href: String, text: String)

  /** A fetched page: the links of its main content area (none without one) and of the whole document. */
  datatype Page = Page(mainContent: seq<Link>, links: seq<Link>)

  datatype ParsedInterface = ParsedInterface(name: String, url: String)

  const MainIndexUrl: String := "http://catiadoc.free.fr/online/interfaces/main.htm"
  const MaxInterfaces: nat := 20

  const MainSkipWords: seq<String> := ["index", "tree", "main", "home", "deprecated"]
  const ListSkipWords: seq<String> := MainSkipWords + ["css", "js"]

  /** Some word of `words` occurs in the lower-cased href. */
  predicate HasSkipWord(href: String, words: seq<String>) {
    exists j :: 0 <= j < |words| && Contains(Lower(href), words[j])
  }

  /** A relative `.htm` href. */
  predicate IsRelativeHtm(href: String) {
    href != [] && EndsWith(href, ".htm") && !StartsWith(href, "http")
  }

  /** The filter of the main-content loop. */
  predicate IsMainContentLink(l: Link) {
    var t := Strip(l.text);
    IsRelativeHtm(l.href) && |t| > 2 && IsAsciiUpper(t[0]) && !HasSkipWord(l.href, MainSkipWords)
  }

  /** The filter of the whole-document loop: also `::` names, and two more skip words. */
  predicate IsListLink(l: Link) {
    var t := Strip(l.text);
    IsRelativeHtm(l.href) && t != [] && |t| > 2 && (IsAsciiUpper(t[0]) || Contains(t, "::"))
    && !HasSkipWord(l.href, ListSkipWords)
  }

  /** The URLs one loop of `extract_interface_links` appends, in order; `keep` is that loop's filter. */
  function LinkUrls(links: seq<Link>, keep: Link -> bool, baseUrl: String, visited: set<String>,
                    urljoin: (String, String) -> String): seq<String>
  {
    if links == [] then []
    else
      var rest := LinkUrls(links[..|links| - 1], keep, baseUrl, visited, urljoin);
      var l := links[|links| - 1];
      var fullUrl := urljoin(baseUrl, l.href);
      if keep(l) && fullUrl !in visited then rest + [fullUrl] else rest
  }

  /** `extract_interface_links`: the main-content loop's URLs, then the whole-document loop's. */
  function InterfaceLinks(page: Page, baseUrl: String, visited: set<String>,
                          urljoin: (String, String) -> String): seq<String>
  {
    LinkUrls(page.mainContent, IsMainContentLink, baseUrl, visited, urljoin)
    + LinkUrls(page.links, IsListLink, baseUrl, visited, urljoin)
  }

  /** Every URL one loop keeps is unvisited and joins the href of a link its filter accepts. */
  lemma {:induction false} LinkUrlsSound(links: seq<Link>, keep: Link -> bool, baseUrl: String, visited: set<String>,
                                         urljoin: (String, String) -> String)
    ensures forall u :: u in LinkUrls(links, keep, baseUrl, visited, urljoin) ==>
              u !in visited && exists l :: l in links && keep(l) && urljoin(baseUrl, l.href) == u
    decreases |links|
  {
    if links != [] {
      var init := links[..|links| - 1];
      LinkUrlsSound(init, keep, baseUrl, visited, urljoin);
      forall u | u in LinkUrls(init, keep, baseUrl, visited, urljoin)
        ensures exists l :: l in links && keep(l) && urljoin(baseUrl, l.href) == u
      {
        var l :| l in init && keep(l) && urljoin(baseUrl, l.href) == u;
        assert l in links;
      }
    }
  }

  /** Either filter demands a relative `.htm` href, a text longer than 2 and no common skip word. */
  predicate LinkKept(l: Link) {
    IsRelativeHtm(l.href) && |Strip(l.text)| > 2 && !HasSkipWord(l.href, MainSkipWords)
  }

  /** The whole-document loop skips every word the main-content loop skips. */
  lemma ListSkipCoversMain(href: String)
    requires !HasSkipWord(href, ListSkipWords)
    ensures !HasSkipWord(href, MainSkipWords)
  {
    forall j | 0 <= j < |MainSkipWords| ensures !Contains(Lower(href), MainSkipWords[j]) {
      assert ListSkipWords[j] == MainSkipWords[j];
    }
  }

  /**
   * Every returned link is unvisited and joins the href of a link of the page that is relative,
   * ends in `.htm`, has a text longer than 2 characters and none of the five common skip words.
   */
  lemma InterfaceLinksSound(page: Page, baseUrl: String, visited: set<String>, urljoin: (String, String) -> String)
    ensures forall u :: u in InterfaceLinks(page, baseUrl, visited, urljoin) ==>
              u !in visited && exists l :: (l in page.mainContent || l in page.links) && LinkKept(l) && urljoin(baseUrl, l.href) == u
  {
    LinkUrlsSound(page.mainContent, IsMainContentLink, baseUrl, visited, urljoin);
    LinkUrlsSound(page.links, IsListLink, baseUrl, visited, urljoin);
    forall l | IsListLink(l) ensures LinkKept(l) {
      ListSkipCoversMain(l.href);
    }
  }

  /**
   * A link of the main content is also a link of the document: when it passes both filters its
   * URL is returned twice. `PartLinkPasses` shows such a link.
   */
  lemma LinksMayRepeat(l: Link, urljoin: (String, String) -> String, baseUrl: String)
    requires IsMainContentLink(l) && IsListLink(l)
    ensures var u := urljoin(baseUrl, l.href);
      InterfaceLinks(Page([l], [l]), baseUrl, {}, urljoin) == [u, u]
  {
    LinkUrlsOne(l, IsMainContentLink, baseUrl, {}, urljoin);
    LinkUrlsOne(l, IsListLink, baseUrl, {}, urljoin);
  }

  /** One kept, unvisited link gives its joined URL. */
  lemma LinkUrlsOne(l: Link, keep: Link -> bool, baseUrl: String, visited: set<String>,
                    urljoin: (String, String) -> String)
    requires keep(l) && urljoin(baseUrl, l.href) !in visited
    ensures LinkUrls([l], keep, baseUrl, visited, urljoin) == [urljoin(baseUrl, l.href)]
  {
    assert [l][..0] == [];
  }

  /** The link `Part` to `Part.htm` passes both filters. */
  lemma PartLinkPasses(l: Link)
    requires l == Link("Part.htm", "Part")
    ensures IsMainContentLink(l) && IsListLink(l)
  {
    PartText(l.text);
    PartHref(l.href);
    PartSkipsNone(l.href);
  }

  /** The text `Part` is stripped and capitalised. */
  lemma PartText(text: String)
    requires text == "Part"
    ensures Strip(text) == text && IsAsciiUpper(text[0])
  {
    assert |text| == 4 && text[0] == 'P' && text[3] == 't';
    StripStripped(text);
  }

  /** `Part.htm` is a relative `.htm` href. */
  lemma PartHref(href: String)
    requires href == "Part.htm"
    ensures IsRelativeHtm(href)
  {
    assert href[..4][0] == 'P';
    assert href[4..] == ".htm";
  }

  /** `Part.htm` holds no skip word. */
  lemma PartSkipsNone(href: String)
    requires href == "Part.htm"
    ensures !HasSkipWord(href, ListSkipWords) && !HasSkipWord(href, MainSkipWords)
  {
    var lower := Lower(href);
    assert lower == "part.htm";
    forall j | 0 <= j < |ListSkipWords| ensures !Contains(lower, ListSkipWords[j]) {
      var w := ListSkipWords[j];
      assert |w| >= 2;
      NoOccurrence(lower, w);
    }
    ListSkipCoversMain(href);
  }

  /** A word whose first two letters never stand side by side in `s` does not occur in it. */
  lemma NoOccurrence(s: String, w: String)
    requires |w| >= 2
    requires forall i :: 0 <= i < |s| - 1 ==> s[i] != w[0] || s[i + 1] != w[1]
    ensures !Contains(s, w)
  {
    forall i | 0 <= i && i + |w| <= |s| ensures !OccursAt(s, w, i) {
      assert s[i..i + |w|][0] == s[i];
      assert s[i..i + |w|][1] == s[i + 1];
    }
  }

  /** `parse_main_index`: no links when the page cannot be fetched. */
  function MainIndexLinks(url: String, fetch: String -> Option<Page>, visited: set<String>,
                          urljoin: (String, String) -> String): seq<String>
  {
    match fetch(url)
    case None => []
    case Some(page) => InterfaceLinks(page, url, visited, urljoin)
  }

  /** The links of every configured URL other than the main index, in order. */
  function ExtraLinks(baseUrls: seq<String>, fetch: String -> Option<Page>, visited: set<String>,
                      urljoin: (String, String) -> String): seq<String>
  {
    if baseUrls == [] then []
    else
      var rest := ExtraLinks(baseUrls[..|baseUrls| - 1], fetch, visited, urljoin);
      var b := baseUrls[|baseUrls| - 1];
      if b != MainIndexUrl then rest + MainIndexLinks(b, fetch, visited, urljoin) else rest
  }

  /** The parsed interfaces of the crawl loop: unvisited URLs whose page yields a named record. */
  function ParsedInterfaces(urls: seq<String>, visited: set<String>,
                            parse: String -> Option<ParsedInterface>): seq<ParsedInterface>
  {
    if urls == [] then []
    else
      var rest := ParsedInterfaces(urls[..|urls| - 1], visited, parse);
      var u := urls[|urls| - 1];
      if u !in visited && parse(u).Some? && parse(u).value.name != [] then rest + [parse(u).value] else rest
  }

  /**
   * The crawl keeps at most one record per URL looked at, each with a non-empty name and parsed
   * from a URL that was not visited before.
   */
  lemma {:induction false} ParsedInterfacesShape(urls: seq<String>, visited: set<String>,
                                                 parse: String -> Option<ParsedInterface>)
    ensures var r := ParsedInterfaces(urls, visited, parse);
      && |r| <= |urls|
      && forall i :: 0 <= i < |r| ==>
           (r[i].name != [] && exists j :: 0 <= j < |urls| && urls[j] !in visited && parse(urls[j]) == Some(r[i]))
    decreases |urls|
  {
    if urls != [] {
      var init := urls[..|urls| - 1];
      ParsedInterfacesShape(init, visited, parse);
      var r := ParsedInterfaces(urls, visited, parse);
      var p := ParsedInterfaces(init, visited, parse);
      forall i | 0 <= i < |p|
        ensures exists j :: 0 <= j < |urls| && urls[j] !in visited && parse(urls[j]) == Some(p[i])
      {
        var j :| 0 <= j < |init| && init[j] !in visited && parse(init[j]) == Some(p[i]);
        assert urls[j] == init[j];
      }
    }
  }

  /** A prefix of a sequence without repeats has none. */
  lemma NoDupPrefix(s: seq<String>, n: nat)
    requires NoDup(s)
    ensures NoDup(Prefix(s, n))
  {
  }

  class DocumentationScraper {
    const baseUrls: seq<String>
    var visitedUrls: set<String>
    var interfaceUrls: seq<String>

    constructor(baseUrls: seq<String>)
      ensures this.baseUrls == baseUrls && visitedUrls == {} && interfaceUrls == []
    {
      this.baseUrls := baseUrls;
      visitedUrls := {};
      interfaceUrls := [];
    }

    /** One loop of `extract_interface_links`. */
    method CollectLinks(links: seq<Link>, keep: Link -> bool, baseUrl: String, urljoin: (String, String) -> String)
      returns (urls: seq<String>)
      ensures urls == LinkUrls(links, keep, baseUrl, visitedUrls, urljoin)
    {
      urls := [];
      for i := 0 to |links|
        invariant urls == LinkUrls(links[..i], keep, baseUrl, visitedUrls, urljoin)
      {
        assert links[..i + 1][..i] == links[..i];
        var link := links[i];
        if keep(link) {
          var fullUrl := urljoin(baseUrl, link.href);
          if fullUrl !in visitedUrls {
            urls := urls + [fullUrl];
          }
        }
      }
      assert links[..|links|] == links;
    }

    /** `extract_interface_links`. */
    method ExtractInterfaceLinks(page: Page, baseUrl: String, urljoin: (String, String) -> String)
      returns (interfaceLinks: seq<String>)
      ensures interfaceLinks == InterfaceLinks(page, baseUrl, visitedUrls, urljoin)
    {
      var fromMain := CollectLinks(page.mainContent, IsMainContentLink, baseUrl, urljoin);
      var fromLists := CollectLinks(page.links, IsListLink, baseUrl, urljoin);
      interfaceLinks := fromMain + fromLists;
    }

    /** `parse_main_index`. */
    method ParseMainIndex(url: String, fetch: String -> Option<Page>, urljoin: (String, String) -> String)
      returns (interfaceLinks: seq<String>)
      ensures interfaceLinks == MainIndexLinks(url, fetch, visitedUrls, urljoin)
    {
      match fetch(url)
      case None =>
        interfaceLinks := [];
      case Some(page) =>
        interfaceLinks := ExtractInterfaceLinks(page, url, urljoin);
    }

    /**
     * `crawl_documentation`. `arrange` stands for `list(set(...))`: any order of the collected
     * URLs without repeats.
     */
    method CrawlDocumentation(fetch: String -> Option<Page>, urljoin: (String, String) -> String,
                              arrange: seq<String> -> seq<String>, parse: String -> Option<ParsedInterface>)
      returns (allInterfaces: seq<ParsedInterface>)
      modifies this
      requires forall s :: NoDup(arrange(s))
      requires forall s, x :: x in arrange(s) <==> x in s
      ensures interfaceUrls == arrange(old(interfaceUrls)
                                       + MainIndexLinks(MainIndexUrl, fetch, old(visitedUrls), urljoin)
                                       + ExtraLinks(baseUrls, fetch, old(visitedUrls), urljoin))
      ensures visitedUrls == old(visitedUrls) + set u | u in Prefix(interfaceUrls, MaxInterfaces)
      ensures allInterfaces == ParsedInterfaces(Prefix(interfaceUrls, MaxInterfaces), old(visitedUrls), parse)
      ensures |allInterfaces| <= MaxInterfaces
      ensures forall i :: 0 <= i < |allInterfaces| ==> allInterfaces[i].name != []
    {
      GatherInterfaceUrls(fetch, urljoin);
      interfaceUrls := arrange(interfaceUrls);
      allInterfaces := ParseFirstInterfaces(parse);
    }

    /** The collection part of `crawl_documentation`: the main index's links, then the other pages'. */
    method GatherInterfaceUrls(fetch: String -> Option<Page>, urljoin: (String, String) -> String)
      modifies this
      ensures visitedUrls == old(visitedUrls)
      ensures interfaceUrls == old(interfaceUrls)
                               + MainIndexLinks(MainIndexUrl, fetch, visitedUrls, urljoin)
                               + ExtraLinks(baseUrls, fetch, visitedUrls, urljoin)
    {
      ghost var visited := visitedUrls;
      ghost var start := interfaceUrls;
      var interfaceLinks := ParseMainIndex(MainIndexUrl, fetch, urljoin);
      interfaceUrls := interfaceUrls + interfaceLinks;
      for j := 0 to |baseUrls|
        invariant visitedUrls == visited
        invariant interfaceUrls == start + interfaceLinks + ExtraLinks(baseUrls[..j], fetch, visited, urljoin)
      {
        ghost var before := interfaceUrls;
        assert baseUrls[..j + 1][..j] == baseUrls[..j];
        if baseUrls[j] != MainIndexUrl {
          var additionalLinks := ParseMainIndex(baseUrls[j], fetch, urljoin);
          interfaceUrls := interfaceUrls + additionalLinks;
          AppendAssociates(start + interfaceLinks, ExtraLinks(baseUrls[..j], fetch, visited, urljoin), additionalLinks);
        }
      }
      assert baseUrls[..|baseUrls|] == baseUrls;
    }

    /** The parse loop of `crawl_documentation` over the first `MaxInterfaces` URLs. */
    method ParseFirstInterfaces(parse: String -> Option<ParsedInterface>) returns (allInterfaces: seq<ParsedInterface>)
      modifies this
      requires NoDup(interfaceUrls)
      ensures interfaceUrls == old(interfaceUrls)
      ensures visitedUrls == old(visitedUrls) + set u | u in Prefix(interfaceUrls, MaxInterfaces)
      ensures allInterfaces == ParsedInterfaces(Prefix(interfaceUrls, MaxInterfaces), old(visitedUrls), parse)
      ensures |allInterfaces| <= MaxInterfaces
      ensures forall i :: 0 <= i < |allInterfaces| ==> allInterfaces[i].name != []
    {
      var urls := Prefix(interfaceUrls, MaxInterfaces);
      NoDupPrefix(interfaceUrls, MaxInterfaces);
      allInterfaces := [];
      for i := 0 to |urls|
        invariant interfaceUrls == old(interfaceUrls)
        invariant visitedUrls == old(visitedUrls) + set u | u in urls[..i]
        invariant allInterfaces == ParsedInterfaces(urls[..i], old(visitedUrls), parse)
      {
        var url := urls[i];
        assert urls[..i + 1][..i] == urls[..i];
        assert url !in urls[..i];
        if url !in visitedUrls {
          visitedUrls := visitedUrls + {url};
          var interfaceData := parse(url);
          if interfaceData.Some? && interfaceData.value.name != [] {
            allInterfaces := allInterfaces + [interfaceData.value];
          }
        } else {
          assert url in old(visitedUrls);
        }
        assert urls[..i + 1] == urls[..i] + [url];
      }
      assert urls[..|urls|] == urls;
      ParsedInterfacesShape(urls, old(visitedUrls), parse);
    }
  }
}
