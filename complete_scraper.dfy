/**
 * The string-level extractors of the complete scraper: interface-URL discovery on the index
 * page, the interface name of a URL, the "Represents ..." and "Role: ..." sentences, the
 * inheritance chain, property and method records, and example collection.
 *
 * A fetched page enters as the strings and capture tuples its regular expressions and parser
 * would produce; the short single-pattern searches are modelled as leftmost searches on text.
 */
module CompleteScraper {
  import opened Wrappers
  import opened Text

  // ------------------------------------------------------------------ URL discovery

  const Host: String := "http://catiadoc.free.fr"
  /** The directory of the default index page, and the page itself. */
  const IndexDirectory: String := "http://catiadoc.free.fr/online/interfaces"
  const IndexFile: String := "CAAInterfaceIdx.htm"
  const DefaultIndexUrl: String := IndexDirectory + "/" + IndexFile

  /** The href filter of the discovery loop. */
  predicate IsInterfaceHref(href: String) {
    Contains(href, "interface_") && EndsWith(href, ".htm")
  }

  /** An href made absolute: host-relative, already absolute, or relative to the index page's directory. */
  function AbsoluteUrl(indexUrl: String, href: String): (r: String)
    ensures EndsWith(r, href)
  {
    if StartsWith(href, "/") then
      assert (Host + href)[|Host|..] == href;
      Host + href
    else if StartsWith(href, "http") then href
    else
      var base := BeforeLast(indexUrl, '/') + "/";
      assert (base + href)[|base|..] == href;
      base + href
  }

  /** A page-relative href is resolved against the directory of the default index page. */
  lemma RelativeHrefAgainstDefaultIndex(href: String)
    requires !StartsWith(href, "/") && !StartsWith(href, "http")
    ensures AbsoluteUrl(DefaultIndexUrl, href) == IndexDirectory + "/" + href
  {
    RelativeHrefAgainst(IndexDirectory, IndexFile, href);
  }

  /** A page-relative href replaces the file part of an index URL `dir/file`. */
  lemma RelativeHrefAgainst(dir: String, file: String, href: String)
    requires '/' !in file
    requires !StartsWith(href, "/") && !StartsWith(href, "http")
    ensures AbsoluteUrl(dir + "/" + file, href) == dir + "/" + href
  {
    assert dir + "/" + file == dir + ['/'] + file;
    BeforeLastOfJoined(dir, '/', file);
  }

  /** Every interface href of the page made absolute, in page order, repeats included. */
  function CandidateUrls(indexUrl: String, hrefs: seq<String>): seq<String>
  {
    if hrefs == [] then []
    else
      var rest := CandidateUrls(indexUrl, hrefs[..|hrefs| - 1]);
      var href := hrefs[|hrefs| - 1];
      if IsInterfaceHref(href) then rest + [AbsoluteUrl(indexUrl, href)] else rest
  }

  /** Every candidate URL resolves some interface href of the page. */
  lemma {:induction false} CandidateUrlsSound(indexUrl: String, hrefs: seq<String>)
    ensures |CandidateUrls(indexUrl, hrefs)| <= |hrefs|
    ensures forall u :: u in CandidateUrls(indexUrl, hrefs) ==>
              exists i :: 0 <= i < |hrefs| && IsInterfaceHref(hrefs[i]) && AbsoluteUrl(indexUrl, hrefs[i]) == u
    decreases |hrefs|
  {
    if hrefs != [] {
      var init := hrefs[..|hrefs| - 1];
      CandidateUrlsSound(indexUrl, init);
      forall u | u in CandidateUrls(indexUrl, init)
        ensures exists i :: 0 <= i < |hrefs| && IsInterfaceHref(hrefs[i]) && AbsoluteUrl(indexUrl, hrefs[i]) == u
      {
        var i :| 0 <= i < |init| && IsInterfaceHref(init[i]) && AbsoluteUrl(indexUrl, init[i]) == u;
        assert hrefs[i] == init[i];
      }
    }
  }

  /** Every interface href of the page yields a candidate URL. */
  lemma {:induction false} CandidateUrlsComplete(indexUrl: String, hrefs: seq<String>)
    ensures forall i :: 0 <= i < |hrefs| && IsInterfaceHref(hrefs[i]) ==>
              AbsoluteUrl(indexUrl, hrefs[i]) in CandidateUrls(indexUrl, hrefs)
    decreases |hrefs|
  {
    if hrefs != [] {
      var init := hrefs[..|hrefs| - 1];
      CandidateUrlsComplete(indexUrl, init);
      forall i | 0 <= i < |init| && IsInterfaceHref(hrefs[i])
        ensures AbsoluteUrl(indexUrl, hrefs[i]) in CandidateUrls(indexUrl, hrefs)
      {
        assert hrefs[i] == init[i];
      }
    }
  }

  /** The discovery loop: filter, resolve, and append each URL not yet in the list. */
  method DiscoverInterfaceUrls(indexUrl: String, hrefs: seq<String>) returns (interfaceUrls: seq<String>)
    ensures interfaceUrls == Dedup(CandidateUrls(indexUrl, hrefs))
  {
    interfaceUrls := [];
    for i := 0 to |hrefs|
      invariant interfaceUrls == Dedup(CandidateUrls(indexUrl, hrefs[..i]))
    {
      var href := hrefs[i];
      assert hrefs[..i + 1][..i] == hrefs[..i];
      if IsInterfaceHref(href) {
        var fullUrl := AbsoluteUrl(indexUrl, href);
        DedupSnoc(CandidateUrls(indexUrl, hrefs[..i]), fullUrl);
        if fullUrl !in interfaceUrls {
          interfaceUrls := interfaceUrls + [fullUrl];
        }
      }
    }
    assert hrefs[..|hrefs|] == hrefs;
  }

  /**
   * The discovered URLs: no repeats, at most one per href, and exactly the resolved interface
   * hrefs of the page.
   */
  lemma DiscoveredUrls(indexUrl: String, hrefs: seq<String>)
    ensures var urls := Dedup(CandidateUrls(indexUrl, hrefs));
      && NoDup(urls)
      && |urls| <= |hrefs|
      && (forall u :: u in urls ==>
            exists i :: 0 <= i < |hrefs| && IsInterfaceHref(hrefs[i]) && AbsoluteUrl(indexUrl, hrefs[i]) == u)
      && (forall i :: 0 <= i < |hrefs| && IsInterfaceHref(hrefs[i]) ==> AbsoluteUrl(indexUrl, hrefs[i]) in urls)
  {
    CandidateUrlsSound(indexUrl, hrefs);
    CandidateUrlsComplete(indexUrl, hrefs);
  }

  // ------------------------------------------------------------------ interface name

  /** A name the pattern `interface_([A-Z][a-zA-Z0-9_]+)` captures. */
  predicate IsInterfaceName(n: String) {
    |n| >= 2 && IsAsciiUpper(n[0]) && forall i :: 1 <= i < |n| ==> IsWordChar(n[i])
  }

  /** The literal part of the interface-name pattern. */
  const NamePrefix: String := "interface_"

  /** The pattern matches at `i`: `interface_`, an uppercase letter, a word character. */
  predicate NameMatchAt(s: String, i: int) {
    OccursAt(s, NamePrefix, i) && i + 11 < |s| && IsAsciiUpper(s[i + 10]) && IsWordChar(s[i + 11])
  }

  /** The leftmost match of the interface-name pattern at or after `k`, or -1. */
  function NameMatchFrom(s: String, k: nat): (r: int)
    requires k <= |s|
    ensures r == -1 || (k <= r && NameMatchAt(s, r))
    ensures forall i :: k <= i && (r == -1 || i < r) ==> !NameMatchAt(s, i)
    decreases |s| - k
  {
    var i := FindFrom(s, NamePrefix, k);
    if i < 0 then -1
    else if i + 11 < |s| && IsAsciiUpper(s[i + 10]) && IsWordChar(s[i + 11]) then i
    else
      var r := NameMatchFrom(s, i + 1);
      NoNameMatchBetween(s, k, i, r);
      r
  }

  /** No match before the first `interface_`, none at a failed candidate, none after it before `r`: none before `r`. */
  lemma NoNameMatchBetween(s: String, k: nat, i: nat, r: int)
    requires k <= i
    requires forall j :: k <= j < i ==> !OccursAt(s, NamePrefix, j)
    requires !NameMatchAt(s, i)
    requires forall j :: i + 1 <= j && (r == -1 || j < r) ==> !NameMatchAt(s, j)
    ensures forall j :: k <= j && (r == -1 || j < r) ==> !NameMatchAt(s, j)
  {
  }

  /**
   * `_extract_interface_name`: the captured name of the leftmost match, or "Unknown". The name
   * `Unknown` is itself a possible capture, so the two cases are told apart by the match only.
   */
  function ExtractInterfaceName(url: String): (r: String)
    ensures NameMatchFrom(url, 0) == -1 ==> r == "Unknown"
    ensures NameMatchFrom(url, 0) >= 0 ==> IsInterfaceName(r)
  {
    var i := NameMatchFrom(url, 0);
    if i < 0 then "Unknown"
    else url[i + 10..i + 11 + WordRun(url, i + 11)]
  }

  /** The name of an interface page's URL is read back from it. */
  lemma NameRoundTrip(n: String)
    requires IsInterfaceName(n)
    ensures ExtractInterfaceName(NamePrefix + n + ".htm") == n
  {
    var url := NamePrefix + n + ".htm";
    assert url[0..10] == NamePrefix;
    assert url[10] == n[0] && url[11] == n[1];
    assert NameMatchAt(url, 0);
    assert url[10 + |n|] == '.';
    forall i | 11 <= i < 10 + |n|
      ensures IsWordChar(url[i])
    {
      assert url[i] == n[i - 10];
    }
    assert url[10..10 + |n|] == n;
  }

  // ------------------------------------------------------------------ description and role

  /** `Represents ([^\.]+\.)` matches at `i`: the words, a non-empty run without a dot, a dot. */
  predicate RepresentsMatchAt(text: String, i: int) {
    OccursAt(text, "Represents ", i)
    && var dot := CharFrom(text, '.', i + 11);
    i + 11 < dot < |text|
  }

  /** The match at `i` is the leftmost one: no earlier position matches. */
  predicate LeftmostRepresents(text: String, i: int) {
    RepresentsMatchAt(text, i) && forall j :: 0 <= j < i ==> !RepresentsMatchAt(text, j)
  }

  /** The whole match at `i`: the words, then everything up to and including the next dot. */
  function RepresentsAt(text: String, i: int): (r: String)
    requires RepresentsMatchAt(text, i)
    ensures |r| >= 13 && StartsWith(r, "Represents ") && r[|r| - 1] == '.'
    ensures forall j :: 11 <= j < |r| - 1 ==> r[j] != '.'
    ensures OccursAt(text, r, i)
  {
    var dot := CharFrom(text, '.', i + 11);
    assert text[i..dot + 1][..11] == text[i..i + 11];
    text[i..dot + 1]
  }

  /** The leftmost match of `Represents ([^\.]+\.)` at or after `k`, or -1. */
  function RepresentsMatchFrom(text: String, k: nat): (r: int)
    requires k <= |text|
    ensures r == -1 || (k <= r && RepresentsMatchAt(text, r))
    ensures forall i :: k <= i && (r == -1 || i < r) ==> !RepresentsMatchAt(text, i)
    decreases |text| - k
  {
    var i := FindFrom(text, "Represents ", k);
    if i < 0 then -1
    else if RepresentsMatchAt(text, i) then i
    else RepresentsMatchFrom(text, i + 1)
  }

  /**
   * `re.search(r"Represents ([^\.]+\.)", text).group(0)`: the leftmost match, and nothing exactly
   * when there is no match anywhere.
   */
  function Represents(text: String): (r: Option<String>)
    ensures r.None? <==> NoRepresents(text)
    ensures r.Some? ==> IsLeftmostRepresents(text, r.value)
    ensures r.Some? ==> |r.value| >= 13 && StartsWith(r.value, "Represents ")
                        && r.value[|r.value| - 1] == '.'
                        && forall i :: 11 <= i < |r.value| - 1 ==> r.value[i] != '.'
  {
    var i := RepresentsMatchFrom(text, 0);
    if i < 0 then None
    else
      assert LeftmostRepresents(text, i);
      Some(RepresentsAt(text, i))
  }

  /** No position matches. */
  ghost predicate NoRepresents(text: String) {
    forall i :: 0 <= i ==> !RepresentsMatchAt(text, i)
  }

  /** `v` is the leftmost match. */
  ghost predicate IsLeftmostRepresents(text: String, v: String) {
    exists i :: LeftmostRepresents(text, i) && v == RepresentsAt(text, i)
  }

  /** There is at most one leftmost match. */
  lemma LeftmostRepresentsUnique(text: String, i: int, j: int)
    requires LeftmostRepresents(text, i) && LeftmostRepresents(text, j)
    ensures i == j
  {
  }

  /** `_extract_description`: the whole "Represents ..." sentence, or a fixed message. */
  function ExtractDescription(text: String): (r: String)
    ensures Represents(text).None? ==> r == "Description not found"
    ensures Represents(text).Some? ==> StartsWith(r, "Represents ") && EndsWith(r, ".")
  {
    match Represents(text)
    case Some(m) =>
      assert m[|m| - 1..] == [m[|m| - 1]];
      m
    case None => "Description not found"
  }

  /** A lone sentence is found whole. */
  lemma RepresentsSentenceFound(g: String)
    requires g != [] && '.' !in g
    ensures ExtractDescription("Represents " + g + ".") == "Represents " + g + "."
  {
    var text := "Represents " + g + ".";
    assert text[0..11] == "Represents ";
    assert text[11 + |g|] == '.';
    assert CharFrom(text, '.', 11) == 11 + |g| by {
      forall i | 11 <= i < 11 + |g| ensures text[i] != '.' {
        assert text[i] == g[i - 11];
      }
    }
    assert text[0..|text|] == text;
  }

  /**
   * Where the group of `\s*([^c]+` starts after position `after`: at the first non-space
   * character when that is not `c`; otherwise the engine gives one whitespace character back
   * to the group, if there is one; -1 when neither is possible.
   */
  function GroupStart(s: String, after: nat, c: char): (start: int)
    requires after <= |s|
    ensures start == -1 || (after <= start < |s| && s[start] != c)
  {
    var w := after + SpaceRun(s, after);
    if w < |s| && s[w] != c then w
    else if after < w && !IsSpace(c) then w - 1
    else -1
  }

  /** The group of `\s*([^\.]+\.)` matched at position `after`, if the match succeeds there. */
  function SentenceAt(text: String, after: nat): (r: Option<String>)
    requires after <= |text|
    ensures r.Some? ==> IsDotSentence(r.value)
  {
    var start := GroupStart(text, after, '.');
    if start < 0 then None
    else
      var dot := CharFrom(text, '.', start);
      if dot < |text| then
        DotSentence(text, start);
        Some(text[start..dot + 1])
      else None
  }

  /** `marker\s*([^\.]+\.)` matches at `i`. */
  predicate SentenceMatchAt(text: String, marker: String, i: int) {
    OccursAt(text, marker, i) && SentenceAt(text, i + |marker|).Some?
  }

  /** The match at `i` is the leftmost one: no earlier position matches. */
  predicate LeftmostSentence(text: String, marker: String, i: int) {
    SentenceMatchAt(text, marker, i) && forall j :: 0 <= j < i ==> !SentenceMatchAt(text, marker, j)
  }

  /** The group of the match at `i`. */
  function SentenceGroup(text: String, marker: String, i: int): (g: String)
    requires SentenceMatchAt(text, marker, i)
    ensures IsDotSentence(g)
  {
    SentenceAt(text, i + |marker|).value
  }

  /** The group of a match is the text from its start up to and including the next dot. */
  lemma SentenceGroupOccurs(text: String, marker: String, i: int)
    requires SentenceMatchAt(text, marker, i)
    ensures var start := GroupStart(text, i + |marker|, '.');
      0 <= start && OccursAt(text, SentenceGroup(text, marker, i), start)
  {
  }

  /** The leftmost match of `marker\s*([^\.]+\.)` at or after `k`, or -1. */
  function SentenceMatchFrom(text: String, marker: String, k: nat): (r: int)
    requires k <= |text|
    ensures r == -1 || (k <= r && SentenceMatchAt(text, marker, r))
    ensures forall i :: k <= i && (r == -1 || i < r) ==> !SentenceMatchAt(text, marker, i)
    decreases |text| - k
  {
    var i := FindFrom(text, marker, k);
    if i < 0 then -1
    else if SentenceMatchAt(text, marker, i) then i
    else if i < |text| then SentenceMatchFrom(text, marker, i + 1)
    else -1
  }

  /**
   * `re.search(marker + r"\s*([^\.]+\.)", text).group(1)`: the group of the leftmost match, and
   * nothing exactly when there is no match anywhere.
   */
  function SentenceAfter(text: String, marker: String): (r: Option<String>)
    ensures r.None? <==> NoSentence(text, marker)
    ensures r.Some? ==> IsLeftmostSentence(text, marker, r.value)
    ensures r.Some? ==> IsDotSentence(r.value)
  {
    var i := SentenceMatchFrom(text, marker, 0);
    if i < 0 then None
    else
      assert LeftmostSentence(text, marker, i);
      Some(SentenceGroup(text, marker, i))
  }

  /** No position matches. */
  ghost predicate NoSentence(text: String, marker: String) {
    forall i :: 0 <= i ==> !SentenceMatchAt(text, marker, i)
  }

  /** `g` is the group of the leftmost match. */
  ghost predicate IsLeftmostSentence(text: String, marker: String, g: String) {
    exists i :: LeftmostSentence(text, marker, i) && g == SentenceGroup(text, marker, i)
  }

  /** There is at most one leftmost match. */
  lemma LeftmostSentenceUnique(text: String, marker: String, i: int, j: int)
    requires LeftmostSentence(text, marker, i) && LeftmostSentence(text, marker, j)
    ensures i == j
  {
  }

  /** At least one character other than a dot, then exactly one dot, at the end. */
  predicate IsDotSentence(g: String) {
    |g| >= 2 && g[|g| - 1] == '.' && forall i :: 0 <= i < |g| - 1 ==> g[i] != '.'
  }

  /** From a character other than a dot up to the next dot is a dot sentence. */
  lemma DotSentence(text: String, start: nat)
    requires start < |text| && text[start] != '.' && CharFrom(text, '.', start) < |text|
    ensures IsDotSentence(text[start..CharFrom(text, '.', start) + 1])
  {
    var dot := CharFrom(text, '.', start);
    var g := text[start..dot + 1];
    forall i | 0 <= i < |g| - 1 ensures g[i] != '.' {
      assert g[i] == text[start + i];
    }
  }

  const RoleLabel: String := "Role:"
  const RoleMissing: String := "Role not specified"

  /** `_extract_role`: the stripped group of `Role:\s*([^\.]+\.)`, ending in a dot, or a fixed message. */
  function ExtractRole(text: String): (r: String)
    ensures SentenceAfter(text, RoleLabel).None? ==> r == RoleMissing
    ensures SentenceAfter(text, RoleLabel).Some? ==> IsStripped(r) && r != [] && r[|r| - 1] == '.'
  {
    match SentenceAfter(text, RoleLabel)
    case Some(g) =>
      DotSentenceStrip(g);
      Strip(g)
    case None => RoleMissing
  }

  /** A dot sentence strips to a non-empty text that still ends in its dot. */
  lemma DotSentenceStrip(g: String)
    requires IsDotSentence(g)
    ensures Strip(g) != [] && Strip(g)[|Strip(g)| - 1] == '.'
  {
    StripKeepsLast(g);
  }

  /** A sentence after the marker and one space is the group, whole. */
  lemma SentenceAfterFound(marker: String, g: String)
    requires g != [] && '.' !in g && !IsSpace(g[0])
    ensures SentenceAfter(marker + " " + g + ".", marker) == Some(g + ".")
  {
    var text := marker + " " + g + ".";
    SentenceLayout(text, marker, g);
    var r := SentenceAfter(text, marker);
    var i :| LeftmostSentence(text, marker, i) && r.value == SentenceGroup(text, marker, i);
    LeftmostSentenceUnique(text, marker, i, 0);
  }

  /** The marker at the start, one blank, then the sentence: the match at 0 captures the sentence. */
  lemma SentenceLayout(text: String, marker: String, g: String)
    requires text == marker + " " + g + "."
    requires g != [] && '.' !in g && !IsSpace(g[0])
    ensures LeftmostSentence(text, marker, 0) && SentenceGroup(text, marker, 0) == g + "."
  {
    var n := |marker|;
    assert OccursAt(text, marker, 0) by {
      assert text[0..n] == marker;
    }
    assert text[n] == ' ' && text[n + 1] == g[0] && text[n + 1 + |g|] == '.';
    assert SpaceRun(text, n) == 1 by {
      assert SpaceRun(text, n + 1) == 0;
    }
    assert text[n + 1..n + 1 + |g|] == g;
    CharFromAfterRun(text, '.', n + 1, n + 1 + |g|);
    assert text[n + 1..n + 2 + |g|] == g + ".";
  }

  /** A role sentence after the marker and one space is returned as it is. */
  lemma RoleSentenceFound(g: String)
    requires g != [] && '.' !in g && !IsSpace(g[0])
    ensures ExtractRole(RoleLabel + " " + g + ".") == g + "."
  {
    SentenceAfterFound(RoleLabel, g);
    StripStripped(g + ".");
  }

  // ------------------------------------------------------------------ inheritance chain

  const KnownOrder: seq<String> := ["IUnknown", "IDispatch", "CATBaseUnknown", "CATBaseDispatch", "AnyObject"]

  /** The chain used when no known base is linked from the page: every known base, `r1.`-prefixed. */
  const StandardChain: seq<String> := Prefixed(KnownOrder)

  /** Each name with the `r1.` prefix. */
  function Prefixed(names: seq<String>): seq<String> {
    seq(|names|, i requires 0 <= i < |names| => "r1." + names[i])
  }

  /** For each base of `known`, in order, the first link whose name contains it. */
  function BaseLinks(links: seq<String>, known: seq<String>): seq<Option<String>> {
    seq(|known|, p requires 0 <= p < |known| => FirstContaining(links, known[p]))
  }

  /** The found entries of `finds` from position `k` on, each paired with its position. */
  function KnownHits(finds: seq<Option<String>>, k: nat): (r: seq<(nat, String)>)
    requires k <= |finds|
    ensures |r| <= |finds| - k
    ensures forall i :: 0 <= i < |r| ==> k <= r[i].0 < |finds| && finds[r[i].0] == Some(r[i].1)
    decreases |finds| - k
  {
    if k == |finds| then []
    else
      match finds[k]
      case None => KnownHits(finds, k + 1)
      case Some(l) => [(k, l)] + KnownHits(finds, k + 1)
  }

  /** Every found entry has its hit. */
  lemma {:induction false} KnownHitsComplete(finds: seq<Option<String>>, k: nat, p: nat)
    requires k <= p < |finds| && finds[p].Some?
    ensures exists i :: 0 <= i < |KnownHits(finds, k)| && KnownHits(finds, k)[i].0 == p
    decreases p - k
  {
    var hits := KnownHits(finds, k);
    var rest := KnownHits(finds, k + 1);
    var head := if finds[k].Some? then [(k, finds[k].value)] else [];
    KnownHitsStep(finds, k);
    if p == k {
      assert hits[0] == head[0];
    } else {
      KnownHitsComplete(finds, k + 1, p);
      var i :| 0 <= i < |rest| && rest[i].0 == p;
      assert hits[|head| + i] == rest[i];
    }
  }

  /** The hits follow the positions of `finds` in order. */
  lemma {:induction false} KnownHitsOrdered(finds: seq<Option<String>>, k: nat)
    requires k <= |finds|
    ensures var r := KnownHits(finds, k);
      forall i, j :: 0 <= i < j < |r| ==> r[i].0 < r[j].0
    decreases |finds| - k
  {
    if k < |finds| {
      KnownHitsOrdered(finds, k + 1);
      if finds[k].Some? {
        KnownHitsStep(finds, k);
        ConsOrdered((k, finds[k].value), KnownHits(finds, k + 1));
      }
    }
  }

  /** Putting a smaller position in front of positions in increasing order keeps them in increasing order. */
  lemma ConsOrdered<T>(x: (nat, T), rest: seq<(nat, T)>)
    requires forall i, j :: 0 <= i < j < |rest| ==> rest[i].0 < rest[j].0
    requires forall i :: 0 <= i < |rest| ==> x.0 < rest[i].0
    ensures var r := [x] + rest;
      forall i, j :: 0 <= i < j < |r| ==> r[i].0 < r[j].0
  {
    var r := [x] + rest;
    forall i, j | 0 <= i < j < |r| ensures r[i].0 < r[j].0 {
      assert r[j] == rest[j - 1];
      if i > 0 {
        assert r[i] == rest[i - 1];
      }
    }
  }

  /** One position of `finds`: its hit, if any, then the hits after it. */
  lemma KnownHitsStep(finds: seq<Option<String>>, k: nat)
    requires k < |finds|
    ensures KnownHits(finds, k) == (if finds[k].Some? then [(k, finds[k].value)] else []) + KnownHits(finds, k + 1)
  {
    if finds[k].None? {
      assert [] + KnownHits(finds, k + 1) == KnownHits(finds, k + 1);
    }
  }

  /** The hits as chain entries, each with the `r1.` prefix. */
  function Bases(hits: seq<(nat, String)>): seq<String> {
    seq(|hits|, i requires 0 <= i < |hits| => "r1." + hits[i].1)
  }

  /** One more position of the known order: its hit, if any, comes first. */
  lemma BasesStep(finds: seq<Option<String>>, k: nat)
    requires k < |finds|
    ensures Bases(KnownHits(finds, k)) ==
              (if finds[k].Some? then ["r1." + finds[k].value] else []) + Bases(KnownHits(finds, k + 1))
  {
    var rest := KnownHits(finds, k + 1);
    if finds[k].Some? {
      assert Bases([(k, finds[k].value)] + rest) == ["r1." + finds[k].value] + Bases(rest);
    } else {
      assert [] + Bases(rest) == Bases(rest);
    }
  }

  /** Without any found entry there are no hits. */
  lemma {:induction false} NoFindsNoHits(finds: seq<Option<String>>, k: nat)
    requires k <= |finds|
    requires forall p :: 0 <= p < |finds| ==> finds[p].None?
    ensures KnownHits(finds, k) == []
    decreases |finds| - k
  {
    if k < |finds| {
      NoFindsNoHits(finds, k + 1);
    }
  }

  /** The standard chain names each known base once. */
  lemma StandardChainNoDup()
    ensures NoDup(StandardChain)
  {
    assert NoDup(KnownOrder);
    forall i, j | 0 <= i < j < |StandardChain| ensures StandardChain[i] != StandardChain[j] {
      assert StandardChain[i][3..] == KnownOrder[i] && StandardChain[j][3..] == KnownOrder[j];
    }
  }

  /** The chain before de-duplication: the found bases or the standard chain, then the page's own name. */
  function InheritanceCandidates(links: seq<String>, rawHtml: String): seq<String> {
    var found := Bases(KnownHits(BaseLinks(links, KnownOrder), 0));
    var chain := if found == [] then StandardChain else found;
    var current := ExtractInterfaceName(rawHtml);
    if current != "Unknown" then chain + [current] else chain
  }

  /** `_extract_inheritance_complete`. */
  function Inheritance(links: seq<String>, rawHtml: String): seq<String> {
    Dedup(InheritanceCandidates(links, rawHtml))
  }

  /** The chain before the page's own name has one to five entries, each starting with `r`. */
  lemma ChainPrefixed(links: seq<String>)
    ensures var found := Bases(KnownHits(BaseLinks(links, KnownOrder), 0));
      var chain := if found == [] then StandardChain else found;
      1 <= |chain| <= 5 && forall i :: 0 <= i < |chain| ==> chain[i] != [] && chain[i][0] == 'r'
  {
  }

  /**
   * The chain is never empty, has no repeats and at most six entries, and ends with the page's
   * own interface name whenever one is found.
   */
  lemma InheritanceShape(links: seq<String>, rawHtml: String)
    ensures var r := Inheritance(links, rawHtml);
      && r != [] && NoDup(r) && |r| <= 6
      && (ExtractInterfaceName(rawHtml) != "Unknown" ==> r[|r| - 1] == ExtractInterfaceName(rawHtml))
  {
    var found := Bases(KnownHits(BaseLinks(links, KnownOrder), 0));
    var chain := if found == [] then StandardChain else found;
    var current := ExtractInterfaceName(rawHtml);
    ChainPrefixed(links);
    assert chain[0] in InheritanceCandidates(links, rawHtml);
    if current != "Unknown" {
      assert current !in chain;
      DedupAppendFresh(chain, current);
    }
  }

  /** With no known base linked, the chain is the standard one followed by the page's own name. */
  lemma InheritanceFallback(links: seq<String>, rawHtml: String)
    requires forall l, b :: l in links && b in KnownOrder ==> !Contains(l, b)
    ensures var current := ExtractInterfaceName(rawHtml);
      Inheritance(links, rawHtml) == StandardChain + (if current != "Unknown" then [current] else [])
  {
    var current := ExtractInterfaceName(rawHtml);
    var finds := BaseLinks(links, KnownOrder);
    forall p | 0 <= p < |finds| ensures finds[p].None? {
      assert KnownOrder[p] in KnownOrder;
    }
    NoFindsNoHits(finds, 0);
    StandardChainNoDup();
    DedupNoDup(StandardChain);
    ChainPrefixed(links);
    if current != "Unknown" {
      assert current !in StandardChain;
      DedupAppendFresh(StandardChain, current);
    }
  }

  /** The de-duplicating loop with its `seen` set. */
  method RemoveDuplicates(items: seq<String>) returns (unique: seq<String>)
    ensures unique == Dedup(items)
  {
    unique := [];
    var seen: set<String> := {};
    for i := 0 to |items|
      invariant unique == Dedup(items[..i])
      invariant forall x :: x in seen <==> x in unique
    {
      var item := items[i];
      assert items[..i + 1] == items[..i] + [item];
      DedupSnoc(items[..i], item);
      if item !in seen {
        seen := seen + {item};
        unique := unique + [item];
      }
    }
    assert items[..|items|] == items;
  }

  /** The nested search loop: for each known base in order, the first link containing it. */
  method CollectKnownBases(interfaceLinks: seq<String>) returns (hierarchy: seq<String>)
    ensures hierarchy == Bases(KnownHits(BaseLinks(interfaceLinks, KnownOrder), 0))
  {
    ghost var finds := BaseLinks(interfaceLinks, KnownOrder);
    hierarchy := [];
    for k := 0 to |KnownOrder|
      invariant hierarchy + Bases(KnownHits(finds, k)) == Bases(KnownHits(finds, 0))
    {
      var found := FindFirstContaining(interfaceLinks, KnownOrder[k]);
      assert found == finds[k];
      BasesStep(finds, k);
      if found.Some? {
        hierarchy := hierarchy + ["r1." + found.value];
      }
    }
  }

  /** `_extract_inheritance_complete` over the captured `r1/interface_` link names of the page. */
  method ExtractInheritanceComplete(interfaceLinks: seq<String>, rawHtml: String) returns (unique: seq<String>)
    ensures unique == Inheritance(interfaceLinks, rawHtml)
  {
    var hierarchy := CollectKnownBases(interfaceLinks);
    if hierarchy == [] {
      hierarchy := StandardChain;
    }
    var current := ExtractInterfaceName(rawHtml);
    if current != "Unknown" {
      hierarchy := hierarchy + [current];
    }
    unique := RemoveDuplicates(hierarchy);
  }

  // ------------------------------------------------------------------ properties and methods

  /** The groups of one structured property match, with the text of its trailing markup. */
  datatype PropertyMatch = PropertyMatch(
    anchor: String, name: String, firstType: String, secondType: String,
    access: String, content: String, contentText: String)

  datatype Property = Property(
    name: String, propertyType: String, accessMode: String, description: String, anchor: String)

  /** `<dd>\s*([^<]+)` matches at `i`: the tag, then a group start the engine can reach. */
  predicate DdMatchAt(content: String, i: int) {
    OccursAt(content, "<dd>", i) && GroupStart(content, i + 4, '<') >= 0
  }

  /** The match at `i` is the leftmost one: no earlier position matches. */
  predicate LeftmostDd(content: String, i: int) {
    DdMatchAt(content, i) && forall j :: 0 <= j < i ==> !DdMatchAt(content, j)
  }

  /** The group of the match at `i`: from the group start up to the next `<` or the end. */
  function DdGroup(content: String, i: int): (r: String)
    requires DdMatchAt(content, i)
    ensures r != [] && forall j :: 0 <= j < |r| ==> r[j] != '<'
    ensures OccursAt(content, r, GroupStart(content, i + 4, '<'))
  {
    var start := GroupStart(content, i + 4, '<');
    content[start..CharFrom(content, '<', start)]
  }

  /** The leftmost match of `<dd>\s*([^<]+)` at or after `k`, or -1. */
  function DdMatchFrom(content: String, k: nat): (r: int)
    requires k <= |content|
    ensures r == -1 || (k <= r && DdMatchAt(content, r))
    ensures forall i :: k <= i && (r == -1 || i < r) ==> !DdMatchAt(content, i)
    decreases |content| - k
  {
    var i := FindFrom(content, "<dd>", k);
    if i < 0 then -1
    else if DdMatchAt(content, i) then i
    else DdMatchFrom(content, i + 1)
  }

  /**
   * `re.search(r"<dd>\s*([^<]+)", content).group(1)`: the group of the leftmost match, and nothing
   * exactly when there is no match anywhere.
   */
  function DdText(content: String): (r: Option<String>)
    ensures r.None? <==> NoDd(content)
    ensures r.Some? ==> IsLeftmostDd(content, r.value)
    ensures r.Some? ==> r.value != [] && forall i :: 0 <= i < |r.value| ==> r.value[i] != '<'
  {
    var i := DdMatchFrom(content, 0);
    if i < 0 then None
    else
      assert LeftmostDd(content, i);
      Some(DdGroup(content, i))
  }

  /** No position matches. */
  ghost predicate NoDd(content: String) {
    forall i :: 0 <= i ==> !DdMatchAt(content, i)
  }

  /** `g` is the group of the leftmost match. */
  ghost predicate IsLeftmostDd(content: String, g: String) {
    exists i :: LeftmostDd(content, i) && g == DdGroup(content, i)
  }

  /** There is at most one leftmost match. */
  lemma LeftmostDdUnique(content: String, i: int, j: int)
    requires LeftmostDd(content, i) && LeftmostDd(content, j)
    ensures i == j
  {
  }

  /** The first line that is not blank, stripped, or "" when every line is blank. */
  function FirstNonBlank(lines: seq<String>): (r: String)
    ensures IsStripped(r)
  {
    FirstNonEmptyIsFirst(Strip, lines);
    FirstNonEmpty(Strip, lines)
  }

  /**
   * `FirstNonBlank` is empty exactly when every line is blank, and otherwise is the stripped
   * form of a line that only blank lines precede.
   */
  lemma FirstNonBlankIsFirst(lines: seq<String>)
    ensures var r := FirstNonBlank(lines);
      && (r == [] <==> forall i :: 0 <= i < |lines| ==> Strip(lines[i]) == [])
      && (r != [] ==> exists i :: 0 <= i < |lines| && r == Strip(lines[i])
                                  && forall j :: 0 <= j < i ==> Strip(lines[j]) == [])
  {
    FirstNonEmptyIsFirst(Strip, lines);
  }

  /** The description of a property: the stripped `<dd>` text, else the first non-blank text line. */
  function PropertyDescription(content: String, contentText: String): (r: String)
    ensures IsStripped(r)
    ensures content == [] ==> r == []
  {
    if content == [] then []
    else
      var dd := match DdText(content) case Some(g) => Strip(g) case None => [];
      if dd != [] then dd else FirstNonBlank(Split(contentText, '\n'))
  }

  /** The record built from one structured match. */
  function PropertyOf(m: PropertyMatch): Property {
    var second := Strip(m.secondType);
    Property(Strip(m.name), if second != [] then second else Strip(m.firstType), Strip(m.access),
             Truncate(PropertyDescription(m.content, m.contentText), 300), Strip(m.anchor))
  }

  /** The record built from a name the simple pattern captures. */
  function FallbackProperty(name: String): Property {
    Property(name, "Unknown", "Unknown", "Property " + name, name)
  }

  /** One structured record per match, in order. */
  function PropertyRecords(ms: seq<PropertyMatch>): seq<Property> {
    Map(PropertyOf, ms)
  }

  /** One fallback record per simple-pattern name, in order. */
  function FallbackRecords(names: seq<String>): seq<Property> {
    Map(FallbackProperty, names)
  }

  /** `_extract_properties_complete`: the structured records, or the fallback ones when there are none. */
  function Properties(matches: seq<PropertyMatch>, simpleNames: seq<String>): seq<Property> {
    if matches != [] then PropertyRecords(matches) else FallbackRecords(simpleNames)
  }

  /**
   * Each structured record takes the second `activateLink` argument when it is not blank, else
   * the first, and keeps a description of at most 300 characters, else cuts it to 300 and
   * marks the cut with "...".
   */
  lemma StructuredProperty(matches: seq<PropertyMatch>, simpleNames: seq<String>, i: nat)
    requires i < |matches|
    ensures var ps := Properties(matches, simpleNames);
      var m := matches[i];
      var d := PropertyDescription(m.content, m.contentText);
      && |ps| == |matches| && ps[i].name == Strip(m.name) && ps[i].anchor == Strip(m.anchor)
      && (Strip(m.secondType) != [] ==> ps[i].propertyType == Strip(m.secondType))
      && (Strip(m.secondType) == [] ==> ps[i].propertyType == Strip(m.firstType))
      && (|d| <= 300 ==> ps[i].description == d)
      && (|d| > 300 ==> ps[i].description == d[..300] + "...")
  {
    MapAt(PropertyOf, matches, i);
  }

  /**
   * Fallback records appear only when no structured match exists; each has type and access
   * "Unknown", a generated description, and the name as anchor.
   */
  lemma FallbackPropertyRecord(simpleNames: seq<String>, i: nat)
    requires i < |simpleNames|
    ensures var ps := Properties([], simpleNames);
      var n := simpleNames[i];
      && |ps| == |simpleNames| && ps[i].name == n && ps[i].anchor == n
      && ps[i].propertyType == "Unknown" && ps[i].accessMode == "Unknown"
      && ps[i].description == "Property " + n
  {
    MapAt(FallbackProperty, simpleNames, i);
  }

  /** The structured loop of `_extract_properties_complete`. */
  method CollectStructuredProperties(matches: seq<PropertyMatch>) returns (properties: seq<Property>)
    ensures properties == PropertyRecords(matches)
  {
    properties := [];
    for i := 0 to |matches|
      invariant properties == PropertyRecords(matches[..i])
    {
      assert matches[..i + 1][..i] == matches[..i];
      properties := properties + [PropertyOf(matches[i])];
    }
    assert matches[..|matches|] == matches;
  }

  /** The fallback loop of `_extract_properties_complete`. */
  method CollectFallbackProperties(simpleNames: seq<String>) returns (properties: seq<Property>)
    ensures properties == FallbackRecords(simpleNames)
  {
    properties := [];
    for i := 0 to |simpleNames|
      invariant properties == FallbackRecords(simpleNames[..i])
    {
      assert simpleNames[..i + 1][..i] == simpleNames[..i];
      properties := properties + [FallbackProperty(simpleNames[i])];
    }
    assert simpleNames[..|simpleNames|] == simpleNames;
  }

  /** `_extract_properties_complete` over the structured matches and the simple-pattern names. */
  method ExtractPropertiesComplete(matches: seq<PropertyMatch>, simpleNames: seq<String>)
    returns (properties: seq<Property>)
    ensures properties == Properties(matches, simpleNames)
  {
    properties := CollectStructuredProperties(matches);
    if properties == [] {
      properties := CollectFallbackProperties(simpleNames);
    }
  }

  /** The groups of one method match. */
  datatype MethodMatch = MethodMatch(anchor: String, name: String, content: String)

  datatype MethodRecord = MethodRecord(name: String, description: String, anchor: String)

  /** The description of a method: the stripped `<dd>` text, or "". */
  function MethodDescription(content: String): (r: String)
    ensures IsStripped(r)
    ensures content == [] ==> r == []
  {
    if content == [] then []
    else match DdText(content) case Some(g) => Strip(g) case None => []
  }

  /**
   * A `<dd>` followed by text without `<` describes the method with that text, stripped. A blank
   * text gives "" as well: the engine gives one blank back to the group, which strips to nothing.
   */
  lemma MethodDescriptionRoundTrip(g: String)
    requires '<' !in g
    ensures MethodDescription("<dd>" + g) == Strip(g)
  {
    var content := "<dd>" + g;
    if g == [] {
      assert NoDd(content) by {
        forall i | 0 <= i
          ensures !DdMatchAt(content, i)
        {
        }
      }
    } else {
      var m := DdLayout(content, g);
      LeftmostDdText(content, 0);
      StripAfterSpaces(g, m);
    }
  }

  /** The text is the group of the leftmost match. */
  lemma LeftmostDdText(content: String, i: int)
    requires LeftmostDd(content, i)
    ensures DdText(content) == Some(DdGroup(content, i))
  {
    var r := DdText(content);
    var j :| LeftmostDd(content, j) && r.value == DdGroup(content, j);
    LeftmostDdUnique(content, i, j);
  }

  /** After `<dd>` and a non-empty text without `<`, the match at 0 captures that text less some leading blanks. */
  lemma DdLayout(content: String, g: String) returns (m: nat)
    requires content == "<dd>" + g
    requires g != [] && '<' !in g
    ensures LeftmostDd(content, 0)
    ensures m <= |g| && DdGroup(content, 0) == g[m..]
    ensures forall j :: 0 <= j < m ==> IsSpace(g[j])
  {
    assert content[..4] == "<dd>";
    assert content[4..] == g;
    forall j | 4 <= j < |content|
      ensures content[j] != '<'
    {
      assert content[j] == g[j - 4];
    }
    var start := GroupStart(content, 4, '<');
    m := start - 4;
    CharFromAfterEnd(content, '<', start);
    forall j | 0 <= j < m
      ensures IsSpace(g[j])
    {
      assert g[j] == content[4 + j];
    }
    assert content[start..] == g[m..];
  }

  function MethodOf(m: MethodMatch): MethodRecord {
    MethodRecord(Strip(m.name), Truncate(MethodDescription(m.content), 200), Strip(m.anchor))
  }

  /** `_extract_methods_complete`: one record per method match, in order. */
  function MethodRecords(ms: seq<MethodMatch>): seq<MethodRecord> {
    Map(MethodOf, ms)
  }

  /**
   * One record per match; a method description is kept up to 200 characters, else cut to 200
   * and marked with "...".
   */
  lemma MethodRecordRules(matches: seq<MethodMatch>, i: nat)
    requires i < |matches|
    ensures var ms := MethodRecords(matches);
      var d := MethodDescription(matches[i].content);
      && |ms| == |matches| && ms[i].name == Strip(matches[i].name) && ms[i].anchor == Strip(matches[i].anchor)
      && (|d| <= 200 ==> ms[i].description == d)
      && (|d| > 200 ==> ms[i].description == d[..200] + "...")
  {
    MapAt(MethodOf, matches, i);
  }

  /** The collecting loop of `_extract_methods_complete`. */
  method ExtractMethodsComplete(matches: seq<MethodMatch>) returns (methods: seq<MethodRecord>)
    ensures methods == MethodRecords(matches)
  {
    methods := [];
    for i := 0 to |matches|
      invariant methods == MethodRecords(matches[..i])
    {
      assert matches[..i + 1][..i] == matches[..i];
      methods := methods + [MethodOf(matches[i])];
    }
    assert matches[..|matches|] == matches;
  }

  // ------------------------------------------------------------------ examples

  /** The stripped texts of the `<pre>` blocks longer than 20 characters, in page order. */
  function PreExamples(pres: seq<String>): (r: seq<String>)
    ensures forall i :: 0 <= i < |r| ==> |r[i]| > 20 && IsStripped(r[i])
  {
    if pres == [] then []
    else
      var rest := PreExamples(pres[..|pres| - 1]);
      var t := Strip(pres[|pres| - 1]);
      if |t| > 20 then rest + [t] else rest
  }

  /** One `Example:` section: collapsed and stripped, kept when long and not yet listed. */
  function AddExample(examples: seq<String>, section: String): seq<String> {
    var clean := Strip(Collapse(section));
    if |clean| > 50 && clean !in examples then examples + [Truncate(clean, 500)] else examples
  }

  /** `_extract_examples` over the `<pre>` texts and the `Example:` sections of the page text. */
  function Examples(pres: seq<String>, sections: seq<String>): seq<String> {
    if sections == [] then PreExamples(pres)
    else AddExample(Examples(pres, sections[..|sections| - 1]), sections[|sections| - 1])
  }

  /** What a kept `Example:` section becomes: collapsed, more than 50 and at most 503 characters. */
  predicate IsSectionExample(e: String) {
    50 < |e| <= 503 && IsCollapsed(e)
  }

  /** A kept section example is collapsed and stripped, longer than 50 and at most 503 characters. */
  lemma SectionExampleShape(section: String)
    requires |Strip(Collapse(section))| > 50
    ensures IsSectionExample(Truncate(Strip(Collapse(section)), 500))
  {
    var clean := Strip(Collapse(section));
    CollapseIsCollapsed(section);
    StripCollapsed(Collapse(section));
    CollapsedTruncate(clean, 500);
  }

  /**
   * The examples start with the `<pre>` examples; every later entry is a collapsed section
   * example of more than 50 and at most 503 characters.
   */
  lemma {:induction false} ExamplesShape(pres: seq<String>, sections: seq<String>)
    ensures var r := Examples(pres, sections);
      && |PreExamples(pres)| <= |r|
      && r[..|PreExamples(pres)|] == PreExamples(pres)
      && forall i :: |PreExamples(pres)| <= i < |r| ==> IsSectionExample(r[i])
    decreases |sections|
  {
    if sections != [] {
      var init := sections[..|sections| - 1];
      var last := sections[|sections| - 1];
      ExamplesShape(pres, init);
      var prev := Examples(pres, init);
      AddExampleCases(prev, last);
      if AddExample(prev, last) != prev {
        SectionExampleShape(last);
        AppendKeepsTail(prev, Truncate(Strip(Collapse(last)), 500), |PreExamples(pres)|, IsSectionExample);
      }
    }
  }

  /**
   * A section leaves the examples alone when its clean text is short or already listed, and
   * appends the truncated clean text otherwise.
   */
  lemma AddExampleCases(examples: seq<String>, section: String)
    ensures var clean := Strip(Collapse(section)); var r := AddExample(examples, section);
      && (|clean| <= 50 || clean in examples ==> r == examples)
      && (|clean| > 50 && clean !in examples ==> r == examples + [Truncate(clean, 500)])
  {
  }

  /**
   * The duplicate test compares the untruncated text with the stored, truncated entries: a
   * section longer than 503 characters that occurs twice is appended twice.
   */
  lemma LongSectionListedTwice(pres: seq<String>, section: String)
    requires |Strip(Collapse(section))| > 503
    requires Strip(Collapse(section)) !in PreExamples(pres)
    ensures var e := Truncate(Strip(Collapse(section)), 500);
      Examples(pres, [section, section]) == PreExamples(pres) + [e, e]
  {
    var clean := Strip(Collapse(section));
    var e := Truncate(clean, 500);
    var pre := PreExamples(pres);
    ExamplesOfTwo(pres, section, section);
    AddExampleCases(pre, section);
    AppendedNotIn(pre, clean, e);
    AddExampleCases(pre + [e], section);
    AppendTwice(pre, e);
  }

  lemma ExamplesOfTwo(pres: seq<String>, a: String, b: String)
    ensures Examples(pres, [a, b]) == AddExample(AddExample(PreExamples(pres), a), b)
  {
    ExamplesSnoc(pres, [], a);
    ExamplesSnoc(pres, [a], b);
    assert [] + [a] == [a] && [a] + [b] == [a, b];
  }

  lemma ExamplesSnoc(pres: seq<String>, sections: seq<String>, last: String)
    ensures Examples(pres, sections + [last]) == AddExample(Examples(pres, sections), last)
  {
    assert (sections + [last])[..|sections|] == sections;
  }

  lemma AppendTwice<T>(s: seq<T>, x: T)
    ensures s + [x] + [x] == s + [x, x]
  {
  }

  lemma AppendedNotIn(s: seq<String>, x: String, y: String)
    requires x !in s && |x| > 503 && |y| == 503
    ensures x !in s + [y]
  {
  }

  /** Appending an element that satisfies `good` keeps the first `n` elements and `good` beyond them. */
  lemma AppendKeepsTail<T>(s: seq<T>, x: T, n: nat, good: T -> bool)
    requires n <= |s| && good(x)
    requires forall i :: n <= i < |s| ==> good(s[i])
    ensures (s + [x])[..n] == s[..n]
    ensures forall i :: n <= i < |s| + 1 ==> good((s + [x])[i])
  {
    forall i | n <= i < |s| + 1 ensures good((s + [x])[i]) {
      if i < |s| {
        assert (s + [x])[i] == s[i];
      }
    }
  }

  /** The two collecting loops of `_extract_examples`. */
  method ExtractExamples(pres: seq<String>, sections: seq<String>) returns (examples: seq<String>)
    ensures examples == Examples(pres, sections)
  {
    examples := [];
    for i := 0 to |pres|
      invariant examples == PreExamples(pres[..i])
    {
      assert pres[..i + 1][..i] == pres[..i];
      var exampleText := Strip(pres[i]);
      if |exampleText| > 20 {
        examples := examples + [exampleText];
      }
    }
    assert pres[..|pres|] == pres;
    for i := 0 to |sections|
      invariant examples == Examples(pres, sections[..i])
    {
      assert sections[..i + 1][..i] == sections[..i];
      var cleanExample := Strip(Collapse(sections[i]));
      if |cleanExample| > 50 && cleanExample !in examples {
        examples := examples + [Truncate(cleanExample, 500)];
      }
    }
    assert sections[..|sections|] == sections;
  }
}
