/**
 * The inheritance lookup tables of the interface index scraper and the walk that turns them into
 * a base-first ancestor chain (`_load_hierarchy_tables` and `extract_hierarchy`).
 *
 * The script resource assigns `fatherLink[child] = parent;` (child key to parent key) and
 * `father[child] = "<a ...>Name</a>";` (child key to the parent's display name). The two
 * `re.findall` results are the loader's input; everything after them is modelled.
 */
module Hierarchy {
  import opened Wrappers
  import opened Text

  // ---------------------------------------------------------------- dictionaries

  /** A Python dict from strings to strings: entries in first-insertion order. */
  type Dict = seq<(String, String)>

  /** `d.keys()`, in iteration order. */
  function Keys(d: Dict): (r: seq<String>)
    ensures |r| == |d|
    ensures forall i :: 0 <= i < |d| ==> r[i] == d[i].0
  {
    seq(|d|, i requires 0 <= i < |d| => d[i].0)
  }

  /** `d.get(k)`. */
  function Get(d: Dict, k: String): Option<String> {
    if d == [] then None else if d[0].0 == k then Some(d[0].1) else Get(d[1..], k)
  }

  /** `d.get(k)` finds a value exactly for the keys of `d`. */
  lemma {:induction false} GetFindsKeys(d: Dict, k: String)
    ensures Get(d, k).Some? <==> k in Keys(d)
  {
    if d != [] {
      GetFindsKeys(d[1..], k);
      assert Keys(d) == [d[0].0] + Keys(d[1..]);
    }
  }

  /** The values of `d`. */
  predicate IsValue(d: Dict, v: String) {
    exists i :: 0 <= i < |d| && d[i].1 == v
  }

  /** `d[k] = v`: an existing key keeps its place and takes the new value; a new key goes last. */
  function Put(d: Dict, k: String, v: String): (r: Dict)
    ensures |r| == if k in Keys(d) then |d| else |d| + 1
  {
    if d == [] then [(k, v)]
    else if d[0].0 == k then [(k, v)] + d[1..]
    else [d[0]] + Put(d[1..], k, v)
  }

  /** After `d[k] = v`, `d.get(k)` is `v` and every other key reads as before. */
  lemma {:induction false} PutGet(d: Dict, k: String, v: String, k': String)
    ensures Get(Put(d, k, v), k') == if k' == k then Some(v) else Get(d, k')
  {
    if d != [] && d[0].0 != k {
      PutGet(d[1..], k, v, k');
    }
  }

  /** `d[k] = v` keeps the key order and appends a new key. */
  lemma {:induction false} PutKeys(d: Dict, k: String, v: String)
    ensures Keys(Put(d, k, v)) == if k in Keys(d) then Keys(d) else Keys(d) + [k]
  {
    if d != [] && d[0].0 != k {
      PutKeys(d[1..], k, v);
      assert Keys(d) == [d[0].0] + Keys(d[1..]);
    }
  }

  /** A value read from a dict is one of its values. */
  lemma {:induction false} GetIsValue(d: Dict, k: String)
    requires Get(d, k).Some?
    ensures IsValue(d, Get(d, k).value)
  {
    if d[0].0 != k {
      GetIsValue(d[1..], k);
      var i :| 0 <= i < |d[1..]| && d[1..][i].1 == Get(d, k).value;
      assert d[i + 1].1 == Get(d, k).value;
    } else {
      assert d[0].1 == Get(d, k).value;
    }
  }

  // ---------------------------------------------------------------- the loader

  /** The two `re.findall` results over the script: (child, parent) and (child, parent markup). */
  datatype ScriptMatches = ScriptMatches(fatherLinkMatches: seq<(String, String)>, fatherMatches: seq<(String, String)>)

  /** The loaded tables: child key to parent key, child key to parent display name. */
  datatype Tables = Tables(fatherLink: Dict, father: Dict)

  /** `>([^<]+)</a>` matches at `i`: `>`, a non-empty run without `<`, then `</a>`. */
  predicate LinkMatchAt(s: String, i: int) {
    0 <= i < |s| && s[i] == '>'
    && var lt := CharFrom(s, '<', i + 1);
    lt > i + 1 && StartsWith(s[lt..], "</a>")
  }

  /** The match at `i` is the leftmost one: no earlier position matches. */
  predicate LeftmostLink(s: String, i: int) {
    LinkMatchAt(s, i) && forall j :: 0 <= j < i ==> !LinkMatchAt(s, j)
  }

  /**
   * The group of the match at `i`. The class `[^<]` stops at the next `<`, so the greedy group
   * runs exactly up to it, and a shorter run could not be followed by `</a>`.
   */
  function LinkTextAt(s: String, i: int): (r: String)
    requires LinkMatchAt(s, i)
    ensures r != [] && '<' !in r
    ensures Contains(s, ">" + r + "</a>")
  {
    var lt := CharFrom(s, '<', i + 1);
    assert s[i..lt + 4] == ">" + s[i + 1..lt] + "</a>";
    OccursContains(s, ">" + s[i + 1..lt] + "</a>", i);
    s[i + 1..lt]
  }

  /** The leftmost match of `>([^<]+)</a>` at or after `k`, or -1. */
  function LinkMatchFrom(s: String, k: nat): (r: int)
    requires k <= |s|
    ensures r == -1 || (k <= r && LinkMatchAt(s, r))
    ensures forall i :: k <= i && (r == -1 || i < r) ==> !LinkMatchAt(s, i)
    decreases |s| - k
  {
    var gt := CharFrom(s, '>', k);
    if gt == |s| then -1
    else if LinkMatchAt(s, gt) then gt
    else LinkMatchFrom(s, gt + 1)
  }

  /**
   * `re.search(r">([^<]+)</a>", s).group(1)`: the group of the leftmost match, and nothing exactly
   * when there is no match anywhere.
   */
  function LinkText(s: String): (r: Option<String>)
    ensures r.None? <==> forall i :: 0 <= i ==> !LinkMatchAt(s, i)
    ensures r.Some? ==> exists i :: LeftmostLink(s, i) && r.value == LinkTextAt(s, i)
    ensures r.Some? ==> r.value != [] && '<' !in r.value && Contains(s, ">" + r.value + "</a>")
  {
    var i := LinkMatchFrom(s, 0);
    if i < 0 then None
    else
      assert LeftmostLink(s, i);
      Some(LinkTextAt(s, i))
  }

  /** There is at most one leftmost match. */
  lemma LeftmostLinkUnique(s: String, i: int, j: int)
    requires LeftmostLink(s, i) && LeftmostLink(s, j)
    ensures i == j
  {
  }

  /** Link text after markup without `>` is read back whole. */
  lemma LinkTextRoundTrip(p: String, t: String, q: String)
    requires '>' !in p && t != [] && '<' !in t
    ensures LinkText(p + ">" + t + "</a>" + q) == Some(t)
  {
    var s := p + ">" + t + "</a>" + q;
    LinkLayout(s, p, t, q);
    forall j | 0 <= j < |p|
      ensures !LinkMatchAt(s, j)
    {
      assert s[j] == p[j];
    }
    var r := LinkText(s);
    var i :| LeftmostLink(s, i) && r.value == LinkTextAt(s, i);
    LeftmostLinkUnique(s, i, |p|);
  }

  /** The `>` after `p` opens a match whose group is `t`. */
  lemma LinkLayout(s: String, p: String, t: String, q: String)
    requires s == p + ">" + t + "</a>" + q
    requires t != [] && '<' !in t
    ensures LinkMatchAt(s, |p|) && LinkTextAt(s, |p|) == t
  {
    var n := |p|;
    var lt := n + 1 + |t|;
    assert s[n] == '>';
    assert s[n + 1..lt] == t;
    assert s[lt..][..4] == "</a>";
    CharFromAfterRun(s, '<', n + 1, lt);
  }

  /** The display name in one `father` value: the link text with `r1.` removed, stripped. */
  function DisplayName(parentHtml: String): (r: Option<String>)
    ensures r.Some? ==> IsStripped(r.value)
  {
    match LinkText(StripChar(parentHtml, '"'))
    case None => None
    case Some(t) => Some(Strip(ReplaceAll(t, "r1.", "")))
  }

  /** Neither end of `s` is a double quote. */
  predicate Unquoted(s: String) {
    s == [] || (s[0] != '"' && s[|s| - 1] != '"')
  }

  /** The `fatherLink` dict after the first `|ms|` assignments. */
  function FatherLinkTable(ms: seq<(String, String)>): Dict
    decreases |ms|
  {
    if ms == [] then []
    else Put(FatherLinkTable(ms[..|ms| - 1]), StripChar(ms[|ms| - 1].0, '"'), StripChar(ms[|ms| - 1].1, '"'))
  }

  /** The `father` dict after the first `|ms|` assignments; entries without a link are skipped. */
  function FatherTable(ms: seq<(String, String)>): Dict
    decreases |ms|
  {
    if ms == [] then []
    else AssignFather(FatherTable(ms[..|ms| - 1]), ms[|ms| - 1])
  }

  /** One `father` assignment: stored under the unquoted key when the value holds a link. */
  function AssignFather(father: Dict, m: (String, String)): Dict {
    match DisplayName(m.1)
    case None => father
    case Some(name) => Put(father, StripChar(m.0, '"'), name)
  }

  /** What a load produces: the two tables, or two empty ones when the script could not be fetched. */
  function LoadedTables(fetched: Option<ScriptMatches>): Tables {
    match fetched
    case None => Tables([], [])
    case Some(m) => Tables(FatherLinkTable(m.fatherLinkMatches), FatherTable(m.fatherMatches))
  }

  /** The value of the LAST assignment whose stripped key is `k`: an independent reading of "later assignments win". */
  function LastAssigned(ms: seq<(String, String)>, k: String): Option<String>
    decreases |ms|
  {
    if ms == [] then None
    else if StripChar(ms[|ms| - 1].0, '"') == k then Some(StripChar(ms[|ms| - 1].1, '"'))
    else LastAssigned(ms[..|ms| - 1], k)
  }

  /** The display name of the LAST `father` assignment to `k` whose value holds a link. */
  function LastNamed(ms: seq<(String, String)>, k: String): Option<String>
    decreases |ms|
  {
    if ms == [] then None
    else if StripChar(ms[|ms| - 1].0, '"') == k && DisplayName(ms[|ms| - 1].1).Some? then DisplayName(ms[|ms| - 1].1)
    else LastNamed(ms[..|ms| - 1], k)
  }

  /** The stripped child keys, in assignment order. */
  function AssignedKeys(ms: seq<(String, String)>): (r: seq<String>)
    ensures |r| == |ms|
    decreases |ms|
  {
    if ms == [] then [] else AssignedKeys(ms[..|ms| - 1]) + [StripChar(ms[|ms| - 1].0, '"')]
  }

  /** `fatherLink[k]` is the value of the last assignment to `k`: a later assignment overwrites an earlier one. */
  lemma {:induction false} FatherLinkLastWriteWins(ms: seq<(String, String)>, k: String)
    ensures Get(FatherLinkTable(ms), k) == LastAssigned(ms, k)
    decreases |ms|
  {
    if ms != [] {
      FatherLinkLastWriteWins(ms[..|ms| - 1], k);
      PutGet(FatherLinkTable(ms[..|ms| - 1]), StripChar(ms[|ms| - 1].0, '"'), StripChar(ms[|ms| - 1].1, '"'), k);
    }
  }

  /** The keys of `fatherLink` are the assigned keys in first-assignment order, each once. */
  lemma {:induction false} FatherLinkKeyOrder(ms: seq<(String, String)>)
    ensures Keys(FatherLinkTable(ms)) == Dedup(AssignedKeys(ms))
    decreases |ms|
  {
    if ms != [] {
      var init := ms[..|ms| - 1];
      var k := StripChar(ms[|ms| - 1].0, '"');
      FatherLinkKeyOrder(init);
      PutKeys(FatherLinkTable(init), k, StripChar(ms[|ms| - 1].1, '"'));
      DedupSnoc(AssignedKeys(init), k);
    }
  }

  /** Every key and value of `fatherLink` has its surrounding quotes removed. */
  lemma {:induction false} FatherLinkUnquoted(ms: seq<(String, String)>, k: String)
    requires Get(FatherLinkTable(ms), k).Some?
    ensures Unquoted(k) && Unquoted(Get(FatherLinkTable(ms), k).value)
    decreases |ms|
  {
    PutGet(FatherLinkTable(ms[..|ms| - 1]), StripChar(ms[|ms| - 1].0, '"'), StripChar(ms[|ms| - 1].1, '"'), k);
    if StripChar(ms[|ms| - 1].0, '"') != k {
      FatherLinkUnquoted(ms[..|ms| - 1], k);
    }
  }

  /** A `father` entry is stored only for a value holding a link, and the last such assignment wins. */
  lemma {:induction false} FatherLastLinkWins(ms: seq<(String, String)>, k: String)
    ensures Get(FatherTable(ms), k) == LastNamed(ms, k)
    decreases |ms|
  {
    if ms != [] {
      var (child, parentHtml) := ms[|ms| - 1];
      FatherLastLinkWins(ms[..|ms| - 1], k);
      if DisplayName(parentHtml).Some? {
        PutGet(FatherTable(ms[..|ms| - 1]), StripChar(child, '"'), DisplayName(parentHtml).value, k);
      }
    }
  }

  /** Every `father` display name is stripped and every key unquoted. */
  lemma {:induction false} FatherNamesClean(ms: seq<(String, String)>, k: String)
    requires Get(FatherTable(ms), k).Some?
    ensures Unquoted(k) && IsStripped(Get(FatherTable(ms), k).value)
    decreases |ms|
  {
    var (child, parentHtml) := ms[|ms| - 1];
    if DisplayName(parentHtml).Some? {
      PutGet(FatherTable(ms[..|ms| - 1]), StripChar(child, '"'), DisplayName(parentHtml).value, k);
    }
    if DisplayName(parentHtml).None? || StripChar(child, '"') != k {
      FatherNamesClean(ms[..|ms| - 1], k);
    }
  }

  // ---------------------------------------------------------------- the resolver

  /** The walk's bound (`max_depth`). */
  const MaxDepth: nat := 15

  /**
   * The cycle test as the source writes it: is `parentKey` among `fatherLink.get(h, "")` for the
   * names `h` recorded so far? It looks up display names, not visited keys.
   */
  predicate SeenParent(fatherLink: Dict, names: seq<String>, parentKey: String) {
    parentKey in ParentKeys(fatherLink, names)
  }

  /** `[fatherLink.get(h, "") for h in names]`. */
  function ParentKeys(fatherLink: Dict, names: seq<String>): (r: seq<String>)
    ensures |r| == |names|
    ensures forall i :: 0 <= i < |names| ==> r[i] == Get(fatherLink, names[i]).GetOr("")
  {
    seq(|names|, i requires 0 <= i < |names| => Get(fatherLink, names[i]).GetOr(""))
  }

  /**
   * The names the walk records (child first), from `names` at key `current` after `depth` steps:
   * follow `fatherLink` while the key has a parent and fewer than 15 steps were taken, recording the
   * key's `father` name when there is one, and stop after a step whose parent passes the cycle test.
   */
  function Walk(t: Tables, names: seq<String>, current: String, depth: nat): seq<String>
    decreases MaxDepth - depth
  {
    if Get(t.fatherLink, current).None? || depth >= MaxDepth then names
    else
      var parentKey := Get(t.fatherLink, current).value;
      var names' := Step(t, names, current);
      if SeenParent(t.fatherLink, names', parentKey) then names'
      else Walk(t, names', parentKey, depth + 1)
  }

  /** One step of the walk, unfolded. */
  lemma WalkStep(t: Tables, names: seq<String>, current: String, depth: nat)
    requires Get(t.fatherLink, current).Some? && depth < MaxDepth
    ensures var parentKey := Get(t.fatherLink, current).value;
      var names' := Step(t, names, current);
      Walk(t, names, current, depth) ==
        if SeenParent(t.fatherLink, names', parentKey) then names' else Walk(t, names', parentKey, depth + 1)
  {
  }

  /** `extract_hierarchy` over loaded tables. */
  function Resolve(t: Tables, name: String): seq<String> {
    if t.fatherLink == [] then []
    else
      match FirstContaining(Keys(t.fatherLink), name)
      case None => []
      case Some(key) => if key == "" then [] else Reverse(Walk(t, [name], key, 0))
  }

  /** The names one step records: the current key's `father` name, when it has one. */
  function Step(t: Tables, names: seq<String>, current: String): (r: seq<String>)
    ensures r == names || (|r| == |names| + 1 && r == names + [r[|names|]] && IsValue(t.father, r[|names|]))
  {
    match Get(t.father, current)
    case Some(n) =>
      GetIsValue(t.father, current);
      names + [n]
    case None => names
  }

  /** `c` is `a` followed by `father` display names only. */
  predicate ExtendsWithFathers(t: Tables, a: seq<String>, c: seq<String>) {
    |a| <= |c| && c[..|a|] == a && forall i :: |a| <= i < |c| ==> IsValue(t.father, c[i])
  }

  /** Extending by `father` names twice is extending by `father` names. */
  lemma ExtendsTransitive(t: Tables, a: seq<String>, b: seq<String>, c: seq<String>)
    requires ExtendsWithFathers(t, a, b) && ExtendsWithFathers(t, b, c)
    ensures ExtendsWithFathers(t, a, c)
  {
    assert c[..|a|] == c[..|b|][..|a|];
    forall i | |a| <= i < |c| ensures IsValue(t.father, c[i]) {
      if i < |b| {
        assert c[i] == c[..|b|][i];
      }
    }
  }

  /** One step keeps the names and adds at most one `father` name. */
  lemma StepExtends(t: Tables, names: seq<String>, current: String)
    ensures ExtendsWithFathers(t, names, Step(t, names, current))
  {
    var r := Step(t, names, current);
    assert r[..|names|] == names;
  }

  /** The walk keeps what it started with, adds at most one `father` name per remaining step. */
  lemma {:induction false} WalkShape(t: Tables, names: seq<String>, current: String, depth: nat)
    requires depth <= MaxDepth
    ensures var w := Walk(t, names, current, depth);
      |w| <= |names| + (MaxDepth - depth) && ExtendsWithFathers(t, names, w)
    decreases MaxDepth - depth
  {
    if Get(t.fatherLink, current).Some? && depth < MaxDepth {
      var parentKey := Get(t.fatherLink, current).value;
      var names' := Step(t, names, current);
      StepExtends(t, names, current);
      if !SeenParent(t.fatherLink, names', parentKey) {
        WalkShape(t, names', parentKey, depth + 1);
        ExtendsTransitive(t, names, names', Walk(t, names', parentKey, depth + 1));
      }
    } else {
      assert names[..|names|] == names;
    }
  }

  /**
   * The resolver finds nothing exactly when `fatherLink` is empty, no key contains the name, or the
   * key it finds is the empty string (only possible for an empty name, which every key contains).
   */
  lemma ResolveEmptyIff(t: Tables, name: String)
    ensures Resolve(t, name) == [] <==>
      || t.fatherLink == []
      || (forall i :: 0 <= i < |t.fatherLink| ==> !Contains(t.fatherLink[i].0, name))
      || (name == [] && t.fatherLink[0].0 == [])
  {
    var keys := Keys(t.fatherLink);
    if t.fatherLink != [] {
      match FirstContaining(keys, name)
      case None =>
      case Some(key) =>
        WalkShape(t, [name], key, 0);
        if name == [] {
          assert OccursAt(keys[0], name, 0);
        }
        if key == [] {
          assert OccursAt(name, key, 0) by { assert Contains(key, name); }
          assert name == [];
        }
    }
  }

  /**
   * A resolved chain ends with the interface's own name, has at most 16 elements, and every other
   * element is a `father` display name (in reverse visit order, so the most distant ancestor first).
   */
  lemma ResolveShape(t: Tables, name: String)
    requires Resolve(t, name) != []
    ensures var r := Resolve(t, name);
      && r[|r| - 1] == name
      && |r| <= MaxDepth + 1
      && forall i :: 0 <= i < |r| - 1 ==> IsValue(t.father, r[i])
  {
    var key := FirstContaining(Keys(t.fatherLink), name).value;
    var w := Walk(t, [name], key, 0);
    WalkShape(t, [name], key, 0);
    assert Resolve(t, name) == Reverse(w);
    assert w[0] == w[..1][0];
  }

  /**
   * When the key found for a name is the name itself, the cycle test fires after the first step:
   * `fatherLink.get(name)` is that step's parent key. The chain then has at most two elements.
   */
  lemma SelfKeyStopsAfterOneStep(t: Tables, name: String)
    requires FirstContaining(Keys(t.fatherLink), name) == Some(name)
    ensures |Resolve(t, name)| <= 2
  {
    GetFindsKeys(t.fatherLink, name);
    if name != [] {
      var names' := Step(t, [name], name);
      assert ParentKeys(t.fatherLink, names')[0] == Get(t.fatherLink, name).value;
      WalkStep(t, [name], name, 0);
    }
  }

  // ---------------------------------------------------------------- the scraper object

  /** The part of `InterfaceIndexScraper` that owns the tables: the `_hierarchy_cache` field. */
  class InterfaceIndexScraper {
    var hierarchyCache: Option<Tables>

    constructor ()
      ensures hierarchyCache == None
    {
      hierarchyCache := None;
    }

    /**
     * `_load_hierarchy_tables`. `fetched` is what fetching and pattern-matching the script yields
     * (`None` when the fetch fails); once the cache is set it is not consulted again.
     */
    method LoadHierarchyTables(fetched: Option<ScriptMatches>) returns (t: Tables)
      modifies this
      ensures old(hierarchyCache).Some? ==> t == old(hierarchyCache).value
      ensures old(hierarchyCache).None? ==> t == LoadedTables(fetched)
      ensures hierarchyCache == Some(t)
    {
      if hierarchyCache.Some? {
        return hierarchyCache.value;
      }
      if fetched.None? {
        t := Tables([], []);
        hierarchyCache := Some(t);
        return;
      }
      var fatherLink := BuildFatherLink(fetched.value.fatherLinkMatches);
      var father := BuildFather(fetched.value.fatherMatches);
      t := Tables(fatherLink, father);
      hierarchyCache := Some(t);
    }

    /** `extract_hierarchy`: load the tables (or reuse the cached ones) and resolve the name. */
    method ExtractHierarchy(name: String, fetched: Option<ScriptMatches>) returns (hierarchy: seq<String>)
      modifies this
      ensures hierarchyCache.Some? && hierarchy == Resolve(hierarchyCache.value, name)
      ensures old(hierarchyCache).Some? ==> hierarchyCache == old(hierarchyCache)
      ensures old(hierarchyCache).None? ==> hierarchyCache == Some(LoadedTables(fetched))
    {
      var t := LoadHierarchyTables(fetched);
      hierarchy := ResolveHierarchy(t, name);
    }
  }

  /** The first loop of `_load_hierarchy_tables`: one `fatherLink` assignment per match. */
  method BuildFatherLink(links: seq<(String, String)>) returns (fatherLink: Dict)
    ensures fatherLink == FatherLinkTable(links)
  {
    fatherLink := [];
    for i := 0 to |links|
      invariant fatherLink == FatherLinkTable(links[..i])
    {
      var (child, parent) := links[i];
      fatherLink := Put(fatherLink, StripChar(child, '"'), StripChar(parent, '"'));
      assert links[..i + 1][..i] == links[..i];
    }
    assert links[..|links|] == links;
  }

  /** The second loop of `_load_hierarchy_tables`: one `father` assignment per match whose value holds a link. */
  method BuildFather(names: seq<(String, String)>) returns (father: Dict)
    ensures father == FatherTable(names)
  {
    father := [];
    for i := 0 to |names|
      invariant father == FatherTable(names[..i])
    {
      father := AssignOneFather(father, names[i]);
      assert names[..i + 1][..i] == names[..i];
    }
    assert names[..|names|] == names;
  }

  /** The body of the `father` loop: store the display name under the unquoted key when there is one. */
  method AssignOneFather(father: Dict, m: (String, String)) returns (father': Dict)
    ensures father' == AssignFather(father, m)
  {
    father' := father;
    var (child, parentHtml) := m;
    var displayName := DisplayName(parentHtml);
    if displayName.Some? {
      father' := Put(father, StripChar(child, '"'), displayName.value);
    }
  }

  /** Two loads in a row give the same tables, and the second ignores what it would have fetched. */
  method LoadTwice(s: InterfaceIndexScraper, first: Option<ScriptMatches>, second: Option<ScriptMatches>)
    returns (t1: Tables, t2: Tables)
    modifies s
    ensures t1 == t2
    ensures old(s.hierarchyCache).None? ==> t2 == LoadedTables(first)
  {
    t1 := s.LoadHierarchyTables(first);
    t2 := s.LoadHierarchyTables(second);
  }

  /** The walk loop of `extract_hierarchy`: the recorded names, child first. */
  method WalkChain(t: Tables, name: String, key: String) returns (names: seq<String>)
    ensures names == Walk(t, [name], key, 0)
  {
    ghost var chain := Walk(t, [name], key, 0);
    names := [name];
    var current := key;
    var depth := 0;
    while Get(t.fatherLink, current).Some? && depth < MaxDepth
      invariant 0 <= depth <= MaxDepth
      invariant Walk(t, names, current, depth) == chain
      decreases MaxDepth - depth
    {
      var parentKey := Get(t.fatherLink, current).value;
      WalkStep(t, names, current, depth);
      names := RecordFather(t, names, current);
      current := parentKey;
      depth := depth + 1;
      if SeenParent(t.fatherLink, names, parentKey) {
        break;
      }
    }
  }

  /** The body of the walk loop that records the current key's `father` name, when it has one. */
  method RecordFather(t: Tables, names: seq<String>, current: String) returns (names': seq<String>)
    ensures names' == Step(t, names, current)
  {
    names' := names;
    var father := Get(t.father, current);
    if father.Some? {
      names' := names + [father.value];
    }
  }

  /**
   * `extract_hierarchy` once the tables are loaded: find the key, walk at most 15 steps, then
   * reverse the recorded names.
   */
  method ResolveHierarchy(t: Tables, name: String) returns (hierarchy: seq<String>)
    ensures hierarchy == Resolve(t, name)
    ensures hierarchy == [] <==>
      || t.fatherLink == []
      || (forall i :: 0 <= i < |t.fatherLink| ==> !Contains(t.fatherLink[i].0, name))
      || (name == [] && t.fatherLink[0].0 == [])
    ensures hierarchy != [] ==> hierarchy[|hierarchy| - 1] == name && |hierarchy| <= MaxDepth + 1
  {
    ResolveEmptyIff(t, name);
    if Resolve(t, name) != [] {
      ResolveShape(t, name);
    }
    if t.fatherLink == [] {
      return [];
    }
    var interfaceKey := FindFirstContaining(Keys(t.fatherLink), name);
    if interfaceKey.None? || interfaceKey.value == [] {
      return [];
    }
    var names := WalkChain(t, name, interfaceKey.value);
    hierarchy := Reverse(names);
  }

  // ---------------------------------------------------------------- worked examples

  /**
   * fatherLink = {X: Y, Y: Z}, father = {X: ParentOfX, Y: ParentOfY}: the walk stops after one step,
   * because the parent key "Y" equals fatherLink.get("X"), the lookup of the recorded name "X".
   */
  lemma TwoStepTableStopsEarly()
    ensures Resolve(Tables([("X", "Y"), ("Y", "Z")], [("X", "ParentOfX"), ("Y", "ParentOfY")]), "X")
            == ["ParentOfX", "X"]
  {
    var t := Tables([("X", "Y"), ("Y", "Z")], [("X", "ParentOfX"), ("Y", "ParentOfY")]);
    assert OccursAt("X", "X", 0);
    assert Keys(t.fatherLink) == ["X", "Y"];
    assert Step(t, ["X"], "X") == ["X", "ParentOfX"];
    assert ParentKeys(t.fatherLink, ["X", "ParentOfX"])[0] == "Y";
    WalkStep(t, ["X"], "X", 0);
  }

  /**
   * A key that merely contains the name: fatherLink = {xC: xB, xB: xA}, father = {xC: B, xB: A}.
   * The walk follows both links and the result runs base first.
   */
  lemma ChainResolvesBaseFirst()
    ensures Resolve(Tables([("xC", "xB"), ("xB", "xA")], [("xC", "B"), ("xB", "A")]), "C") == ["A", "B", "C"]
  {
    var t := Tables([("xC", "xB"), ("xB", "xA")], [("xC", "B"), ("xB", "A")]);
    assert OccursAt("xC", "C", 1);
    assert Keys(t.fatherLink) == ["xC", "xB"];
    assert Step(t, ["C"], "xC") == ["C", "B"];
    assert ParentKeys(t.fatherLink, ["C", "B"]) == ["", ""];
    WalkStep(t, ["C"], "xC", 0);
    assert Step(t, ["C", "B"], "xB") == ["C", "B", "A"];
    assert ParentKeys(t.fatherLink, ["C", "B", "A"]) == ["", "", ""];
    WalkStep(t, ["C", "B"], "xB", 1);
    assert Get(t.fatherLink, "xA") == None;
  }

  /**
   * The result can repeat a name: two keys with the same display name, fatherLink = {xA: B, B: C},
   * father = {xA: P, B: P}. The cycle test looks up the recorded names "A" and "P", which are not
   * keys, so it never fires.
   */
  lemma ResolveMayRepeatNames()
    ensures Resolve(Tables([("xA", "B"), ("B", "C")], [("xA", "P"), ("B", "P")]), "A") == ["P", "P", "A"]
  {
    var t := Tables([("xA", "B"), ("B", "C")], [("xA", "P"), ("B", "P")]);
    assert OccursAt("xA", "A", 1);
    assert Keys(t.fatherLink) == ["xA", "B"];
    assert Step(t, ["A"], "xA") == ["A", "P"];
    assert ParentKeys(t.fatherLink, ["A", "P"]) == ["", ""];
    WalkStep(t, ["A"], "xA", 0);
    assert Step(t, ["A", "P"], "B") == ["A", "P", "P"];
    assert ParentKeys(t.fatherLink, ["A", "P", "P"]) == ["", "", ""];
    WalkStep(t, ["A", "P"], "B", 1);
    assert Get(t.fatherLink, "C") == None;
  }
}
