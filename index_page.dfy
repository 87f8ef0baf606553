/**
 * The page normalisers of the interface index scraper: role and description text from the block
 * between the first two `<hr>` rules, the interface type, the collection rule, the property and
 * method indexes, and the href filter of the index page.
 *
 * A parsed page is a sequence of sibling nodes. `Elem` carries what the scraper reads from an
 * element: its tag name, `get_text(strip=True)`, `str(element)` and, for a definition-term block,
 * its links already paired with the text of the `<dd>` chosen for each.
 */
module IndexPage {
  import opened Wrappers
  import opened Text

  /** One link inside a `<dt>` block and the text of the `<dd>` description found for it. */
  datatype IndexLink = IndexLink(name: String, ddText: String)

  datatype Node =
    | Text(s: String)
    | Elem(tag: String, text: String, markup: String, links: seq<IndexLink>)

  /** A sibling walk `while current:` goes on past every element and every non-empty text node. */
  predicate Truthy(n: Node) {
    !(n.Text? && n.s == [])
  }

  /** A `<b>` element whose text, lower-cased, is `role:` or `role`. */
  predicate IsRoleLabel(n: Node) {
    n.Elem? && n.tag == "b" && n.text != [] && (Lower(n.text) == "role:" || Lower(n.text) == "role")
  }

  // ---------------------------------------------------------------- role

  /**
   * The role parts collected from `nodes` (the siblings after the first `<hr>`, ending before the
   * second), `found` telling whether a Role label was passed: text nodes contribute their stripped
   * text, links their text, other elements their text, and an `<hr>` ends the walk.
   */
  function RoleParts(nodes: seq<Node>, found: bool): seq<String>
    decreases |nodes|
  {
    if nodes == [] || !Truthy(nodes[0]) then []
    else if IsRoleLabel(nodes[0]) then RoleParts(nodes[1..], true)
    else if !found then RoleParts(nodes[1..], false)
    else if nodes[0].Elem? && nodes[0].tag == "hr" then []
    else RolePart(nodes[0]) + RoleParts(nodes[1..], true)
  }

  /** What one node after the label adds: a text node its stripped text, a link its text, another element its text. */
  function RolePart(n: Node): seq<String> {
    match n
    case Text(s) => if |Strip(s)| > 1 then [Strip(s)] else []
    case Elem(tag, text, _, _) =>
      if tag == "a" then (if text != [] then [text] else [])
      else if |text| > 1 then [text] else []
  }

  /**
   * The role parts as the walk collects them when every node passes the `hasattr(current, "strip")`
   * test, which an element does too: every node after the label contributes its stripped string
   * form, an element its markup, and neither the `<hr>` stop nor the link case is reached.
   */
  function RolePartsAsWritten(nodes: seq<Node>, found: bool): (r: seq<String>)
    ensures forall p :: p in r ==> |p| > 1 && IsStripped(p)
    decreases |nodes|
  {
    if nodes == [] || !Truthy(nodes[0]) then []
    else if IsRoleLabel(nodes[0]) then RolePartsAsWritten(nodes[1..], true)
    else if !found then RolePartsAsWritten(nodes[1..], false)
    else
      var raw := Strip(match nodes[0] case Text(s) => s case Elem(_, _, markup, _) => markup);
      (if |raw| > 1 then [raw] else []) + RolePartsAsWritten(nodes[1..], true)
  }

  /** Where only text nodes follow the first rule, the walk as written and the intended walk collect the same parts. */
  lemma {:induction false} RoleWalksAgreeOnText(nodes: seq<Node>, found: bool)
    requires forall i :: 0 <= i < |nodes| ==> nodes[i].Text?
    ensures RolePartsAsWritten(nodes, found) == RoleParts(nodes, found)
    decreases |nodes|
  {
    if nodes != [] && Truthy(nodes[0]) {
      RoleWalksAgreeOnText(nodes[1..], found || IsRoleLabel(nodes[0]));
      if !IsRoleLabel(nodes[0]) && !found {
        RoleWalksAgreeOnText(nodes[1..], false);
      }
    }
  }

  /** Join, strip, collapse whitespace, drop leading colons; keep only more than 15 characters, ending in a period. */
  function FinishRole(parts: seq<String>): String {
    var r := DropLeadingColons(Collapse(Strip(Join(parts, " "))));
    if |r| > 15 then WithPeriod(r) else ""
  }

  /** `extract_role` for a page with `hrCount` rules whose first rule is followed by `region`. */
  function Role(hrCount: nat, region: seq<Node>): String {
    if hrCount < 2 then "" else FinishRole(RoleParts(region, false))
  }

  /** A role is empty, or a collapsed sentence of more than 15 characters ending in a period that does not start with a colon or whitespace. */
  lemma RoleShape(parts: seq<String>)
    ensures var r := FinishRole(parts);
      r == [] || (|r| > 15 && IsCollapsed(r) && r[0] != ':' && !IsSpace(r[0]) && EndsWith(r, "."))
  {
    var c := Collapse(Strip(Join(parts, " ")));
    var r := DropLeadingColons(c);
    CollapseIsCollapsed(Strip(Join(parts, " ")));
    CollapsedSuffix(c, |c| - |r|);
    if |r| > 15 {
      WithPeriodShape(r);
    }
  }

  /** `s` with a period appended, unless it is empty or already ends in one. */
  function WithPeriod(s: String): String {
    if s != [] && !EndsWith(s, ".") then s + "." else s
  }

  /** Closing a collapsed text with a period keeps it collapsed and keeps its first character. */
  lemma WithPeriodShape(s: String)
    requires IsCollapsed(s)
    ensures var r := WithPeriod(s);
      && (r == [] <==> s == [])
      && (r != [] ==> IsCollapsed(r) && r[0] == s[0] && EndsWith(r, "."))
  {
    if s != [] && !EndsWith(s, ".") {
      CollapsedAppend(s, '.');
      assert (s + ".")[0] == s[0];
    }
  }

  /** Closing with a period adds no character other than the period. */
  lemma WithPeriodKeepsCount(s: String, c: char)
    requires c != '.'
    ensures Count(WithPeriod(s), c) == Count(s, c)
  {
    if s != [] && !EndsWith(s, ".") {
      CountConcat(s, ".", c);
      assert Count(".", c) == 0 by { assert "."[1..] == []; }
    }
  }

  /** Without a Role label before the walk ends, nothing is collected. */
  lemma {:induction false} NoLabelNoParts(nodes: seq<Node>)
    requires forall i :: 0 <= i < |nodes| ==> !IsRoleLabel(nodes[i])
    ensures RoleParts(nodes, false) == []
    decreases |nodes|
  {
    if nodes != [] && Truthy(nodes[0]) {
      NoLabelNoParts(nodes[1..]);
    }
  }

  /** Fewer than two rules, or no Role label between them, give the empty role. */
  lemma RoleNeedsTwoRulesAndLabel(hrCount: nat, region: seq<Node>)
    requires hrCount < 2 || forall i :: 0 <= i < |region| ==> !IsRoleLabel(region[i])
    ensures Role(hrCount, region) == ""
  {
    if hrCount >= 2 {
      NoLabelNoParts(region);
    }
  }

  /** `extract_role`: the sibling walk, then the clean-up. */
  method ExtractRole(hrCount: nat, region: seq<Node>) returns (role: String)
    ensures role == Role(hrCount, region)
    ensures role == [] || (|role| > 15 && IsCollapsed(role) && role[0] != ':' && !IsSpace(role[0]) && EndsWith(role, "."))
  {
    if hrCount < 2 {
      return "";
    }
    var parts := CollectRoleParts(region);
    role := FinishRole(parts);
    RoleShape(parts);
  }

  /** The sibling walk of `extract_role` with its `role_found` flag, accumulating `role_parts`. */
  method CollectRoleParts(region: seq<Node>) returns (parts: seq<String>)
    ensures parts == RoleParts(region, false)
  {
    var found := false;
    parts := [];
    var i := 0;
    while i < |region| && Truthy(region[i])
      invariant 0 <= i <= |region|
      invariant parts + RoleParts(region[i..], found) == RoleParts(region, false)
    {
      assert region[i..][1..] == region[i + 1..];
      var node := region[i];
      if IsRoleLabel(node) {
        found := true;
        i := i + 1;
        continue;
      }
      if found {
        if node.Elem? && node.tag == "hr" {
          break;
        }
        var part := RoleNodeText(node);
        AppendAssociates(parts, part, RoleParts(region[i + 1..], true));
        parts := parts + part;
      }
      i := i + 1;
    }
    assert parts == RoleParts(region, false);
  }

  /** The text-node and element branches of the walk for one node after the label. */
  method RoleNodeText(node: Node) returns (part: seq<String>)
    ensures part == RolePart(node)
  {
    part := [];
    match node
    case Text(s) =>
      var t := Strip(s);
      if |t| > 1 {
        part := [t];
      }
    case Elem(tag, text, _, _) =>
      if tag == "a" {
        if text != [] {
          part := [text];
        }
      } else if |text| > 1 {
        part := [text];
      }
  }

  /**
   * With a label followed by a link, `<b>Role:</b><a href="a.htm">AnyObject</a>`, the walk as
   * written collects the link's markup where the link text is meant.
   */
  lemma RoleCollectsMarkup()
    ensures RolePartsAsWritten([RoleLabel(), AnyObjectLink()], false) == [AnyObjectMarkup]
  {
    RoleLabelIsLabel();
    MarkupAfterLabel(RoleLabel(), AnyObjectLink());
  }

  /** As written, an element right after the label contributes its stripped markup. */
  lemma MarkupAfterLabel(b: Node, n: Node)
    requires IsRoleLabel(b) && n.Elem? && !IsRoleLabel(n)
    requires IsStripped(n.markup) && |n.markup| > 1
    ensures RolePartsAsWritten([b, n], false) == [n.markup]
  {
    assert [b, n][1..] == [n];
    assert [n][1..] == [];
    StripStripped(n.markup);
    assert RolePartsAsWritten([n], true) == [n.markup] + RolePartsAsWritten([], true);
  }

  /** On the same nodes the intended walk collects the link text. */
  lemma RoleCollectsLinkText()
    ensures RoleParts([RoleLabel(), AnyObjectLink()], false) == ["AnyObject"]
  {
    RoleLabelIsLabel();
    assert [RoleLabel(), AnyObjectLink()][1..] == [AnyObjectLink()];
  }

  function RoleLabel(): Node {
    Elem("b", "Role:", "<b>Role:</b>", [])
  }

  const AnyObjectMarkup: String := "<a href=\"a.htm\">AnyObject</a>"

  function AnyObjectLink(): Node {
    Elem("a", "AnyObject", AnyObjectMarkup, [])
  }

  lemma RoleLabelIsLabel()
    ensures IsRoleLabel(RoleLabel()) && !IsRoleLabel(AnyObjectLink())
  {
    var l := Lower("Role:");
    assert l[0] == 'r' && l[1] == 'o' && l[2] == 'l' && l[3] == 'e' && l[4] == ':';
  }

  // ---------------------------------------------------------------- description

  /** A `<b>` or `<i>` element with more than three characters of text that is not the Role label. */
  predicate IsDescriptionText(n: Node) {
    n.Elem? && (n.tag == "b" || n.tag == "i") && |n.text| > 3 && !IsRoleLabel(n)
  }

  /** The description parts: the text of every bold or italic element before the walk ends. */
  function DescriptionParts(nodes: seq<Node>): seq<String>
    decreases |nodes|
  {
    if nodes == [] || !Truthy(nodes[0]) then []
    else (if IsDescriptionText(nodes[0]) then [nodes[0].text] else []) + DescriptionParts(nodes[1..])
  }

  /** No `(` is followed later by a `)`. */
  predicate NoGroup(s: String) {
    forall i :: 0 <= i < |s| && s[i] == '(' ==> ')' !in s[i + 1..]
  }

  /**
   * `re.sub(r"\s*\([^)]*\)\s*", " ", s)`: scanning left to right, every parenthesised group together
   * with the whitespace around it becomes one space.
   */
  function RemoveParenGroups(s: String): String
    decreases |s|
  {
    if s == [] then []
    else
      var open := SpaceRun(s, 0);
      if open < |s| && s[open] == '(' && CharFrom(s, ')', open + 1) < |s| then
        var close := CharFrom(s, ')', open + 1);
        [' '] + RemoveParenGroups(s[close + 1 + SpaceRun(s, close + 1)..])
      else
        [s[0]] + RemoveParenGroups(s[1..])
  }

  /** Removal only copies characters or writes spaces, so it adds no `)`. */
  lemma {:induction false} RemovalAddsNoClose(s: String)
    requires ')' !in s
    ensures ')' !in RemoveParenGroups(s)
    decreases |s|
  {
    if s != [] {
      var open := SpaceRun(s, 0);
      assert !(open < |s| && CharFrom(s, ')', open + 1) < |s|);
      RemovalAddsNoClose(s[1..]);
    }
  }

  /** After removal no group is left: no `(` is followed by a `)`. */
  lemma {:induction false} RemovalLeavesNoGroup(s: String)
    ensures NoGroup(RemoveParenGroups(s))
    decreases |s|
  {
    if s != [] {
      var open := SpaceRun(s, 0);
      if open < |s| && s[open] == '(' && CharFrom(s, ')', open + 1) < |s| {
        var close := CharFrom(s, ')', open + 1);
        var rest := RemoveParenGroups(s[close + 1 + SpaceRun(s, close + 1)..]);
        RemovalLeavesNoGroup(s[close + 1 + SpaceRun(s, close + 1)..]);
        NoGroupCons(' ', rest);
      } else {
        var rest := RemoveParenGroups(s[1..]);
        RemovalLeavesNoGroup(s[1..]);
        if s[0] == '(' {
          assert open == 0;
          assert ')' !in s[1..] by {
            forall i | 0 <= i < |s| - 1
              ensures s[1..][i] != ')'
            {
              assert s[1..][i] == s[i + 1];
            }
          }
          RemovalAddsNoClose(s[1..]);
        }
        NoGroupCons(s[0], rest);
      }
    }
  }

  lemma NoGroupCons(c: char, t: String)
    requires NoGroup(t) && (c == '(' ==> ')' !in t)
    ensures NoGroup([c] + t)
  {
    var r := [c] + t;
    forall i | 0 <= i < |r| && r[i] == '('
      ensures ')' !in r[i + 1..]
    {
      if i > 0 {
        assert r[i + 1..] == t[i..];
        assert t[i - 1] == '(';
      } else {
        assert r[1..] == t;
      }
    }
  }

  /** `description_parts` joined and stripped; groups removed when `(` occurs and the counts balance; collapsed, stripped, ending in a period. */
  function FinishDescription(parts: seq<String>): String {
    var d := Strip(Join(parts, " "));
    var d1 := if Contains(d, "(") && Count(d, '(') == Count(d, ')') then RemoveParenGroups(d) else d;
    WithPeriod(Strip(Collapse(d1)))
  }

  /** `extract_description` for a page with `hrCount` rules whose first rule is followed by `region`. */
  function Description(hrCount: nat, region: seq<Node>): String {
    if hrCount < 2 then "" else FinishDescription(DescriptionParts(region))
  }

  /** A description is empty, or a collapsed text that does not start with whitespace and ends in a period. */
  lemma DescriptionShape(parts: seq<String>)
    ensures var r := FinishDescription(parts);
      r == [] || (IsCollapsed(r) && !IsSpace(r[0]) && EndsWith(r, "."))
  {
    var d := Strip(Join(parts, " "));
    var d1 := if Contains(d, "(") && Count(d, '(') == Count(d, ')') then RemoveParenGroups(d) else d;
    CollapseIsCollapsed(d1);
    StripCollapsed(Collapse(d1));
    WithPeriodShape(Strip(Collapse(d1)));
  }

  /** When `(` does not occur or the counts differ, every parenthesis is kept. */
  lemma UnbalancedParensKept(parts: seq<String>, c: char)
    requires c == '(' || c == ')'
    requires var d := Strip(Join(parts, " "));
      !Contains(d, "(") || Count(d, '(') != Count(d, ')')
    ensures Count(FinishDescription(parts), c) == Count(Strip(Join(parts, " ")), c)
  {
    var d := Strip(Join(parts, " "));
    CollapseKeepsCount(d, c);
    StripKeepsCount(Collapse(d), c);
    WithPeriodKeepsCount(Strip(Collapse(d)), c);
  }

  /**
   * When `(` occurs and the counts balance, no group is left after the removal, nor in the finished
   * description: collapsing, stripping and the closing period add no parenthesis.
   */
  lemma BalancedGroupsRemoved(parts: seq<String>)
    requires var d := Strip(Join(parts, " "));
      Contains(d, "(") && Count(d, '(') == Count(d, ')')
    ensures NoGroup(RemoveParenGroups(Strip(Join(parts, " "))))
    ensures NoGroup(FinishDescription(parts))
  {
    var d := Strip(Join(parts, " "));
    RemovalLeavesNoGroup(d);
    CleanUpKeepsNoGroup(RemoveParenGroups(d));
  }

  /** Collapsing, stripping and closing with a period create no group. */
  lemma CleanUpKeepsNoGroup(s: String)
    requires NoGroup(s)
    ensures NoGroup(WithPeriod(Strip(Collapse(s))))
  {
    CollapseKeepsNoGroup(s);
    var c := Collapse(s);
    NoGroupSlice(c, StripOffset(c), StripOffset(c) + |Strip(c)|);
    WithPeriodKeepsNoGroup(Strip(c));
  }

  /** A piece of a text without a group has none. */
  lemma NoGroupSlice(s: String, a: nat, b: nat)
    requires NoGroup(s) && a <= b <= |s|
    ensures NoGroup(s[a..b])
  {
    var t := s[a..b];
    forall i | 0 <= i < |t| && t[i] == '('
      ensures ')' !in t[i + 1..]
    {
      assert s[a + i] == '(';
      forall j | i + 1 <= j < |t| ensures t[j] != ')' {
        assert t[j] == s[a + i + 1..][j - i - 1];
      }
    }
  }

  /** Collapsing whitespace creates no group. */
  lemma {:induction false} CollapseKeepsNoGroup(s: String)
    requires NoGroup(s)
    ensures NoGroup(Collapse(s))
    decreases |s|
  {
    if s != [] && IsSpace(s[0]) {
      var t := TrimStart(s[1..]);
      assert t == s[|s| - |t|..];
      NoGroupSlice(s, |s| - |t|, |s|);
      assert s[|s| - |t|..|s|] == t;
      CollapseKeepsNoGroup(t);
      NoGroupCons(' ', Collapse(t));
    } else if s != [] {
      NoGroupSlice(s, 1, |s|);
      assert s[1..|s|] == s[1..];
      CollapseKeepsNoGroup(s[1..]);
      if s[0] == '(' {
        assert ')' !in s[1..];
        CountZeroAbsent(s[1..], ')');
        CollapseKeepsCount(s[1..], ')');
        CountZeroAbsent(Collapse(s[1..]), ')');
      }
      NoGroupCons(s[0], Collapse(s[1..]));
    }
  }

  /** The closing period creates no group. */
  lemma WithPeriodKeepsNoGroup(s: String)
    requires NoGroup(s)
    ensures NoGroup(WithPeriod(s))
  {
    if s != [] && !EndsWith(s, ".") {
      var r := s + ".";
      forall i | 0 <= i < |r| && r[i] == '('
        ensures ')' !in r[i + 1..]
      {
        assert r[i + 1..] == s[i + 1..] + ".";
      }
    }
  }

  /** `extract_description`: the sibling walk over bold and italic text, then the clean-up. */
  method ExtractDescription(hrCount: nat, region: seq<Node>) returns (description: String)
    ensures description == Description(hrCount, region)
    ensures description == [] || (IsCollapsed(description) && !IsSpace(description[0]) && EndsWith(description, "."))
  {
    if hrCount < 2 {
      return "";
    }
    var parts := CollectDescriptionParts(region);
    description := FinishDescription(parts);
    DescriptionShape(parts);
  }

  /** The sibling walk of `extract_description`, accumulating `description_parts`. */
  method CollectDescriptionParts(region: seq<Node>) returns (parts: seq<String>)
    ensures parts == DescriptionParts(region)
  {
    parts := [];
    var i := 0;
    while i < |region| && Truthy(region[i])
      invariant 0 <= i <= |region|
      invariant parts + DescriptionParts(region[i..]) == DescriptionParts(region)
    {
      assert region[i..][1..] == region[i + 1..];
      assert DescriptionParts(region[i..]) ==
        (if IsDescriptionText(region[i]) then [region[i].text] else []) + DescriptionParts(region[i + 1..]);
      if IsDescriptionText(region[i]) {
        parts := parts + [region[i].text];
      }
      i := i + 1;
    }
    assert parts == DescriptionParts(region);
  }

  // ---------------------------------------------------------------- type and collection rule

  /** `<name>\s+\(([^)]+)\)` matches at `i`, the name compared case-insensitively. */
  predicate AnnotationMatchAt(text: String, name: String, i: int) {
    OccursAt(Lower(text), Lower(name), i) && AnnotationAt(text, i + |name|).Some?
  }

  /** The match at `i` is the leftmost one: no earlier position matches. */
  predicate LeftmostAnnotation(text: String, name: String, i: int) {
    AnnotationMatchAt(text, name, i) && forall j :: 0 <= j < i ==> !AnnotationMatchAt(text, name, j)
  }

  /** The leftmost match of the annotation pattern at or after `k`, or -1. */
  function AnnotationMatchFrom(text: String, name: String, k: nat): (r: int)
    requires k <= |text|
    ensures r == -1 || (k <= r && AnnotationMatchAt(text, name, r))
    ensures forall i :: k <= i && (r == -1 || i < r) ==> !AnnotationMatchAt(text, name, i)
    decreases |text| - k
  {
    var i := FindFrom(Lower(text), Lower(name), k);
    if i < 0 then -1
    else if AnnotationMatchAt(text, name, i) then i
    else if i < |text| then
      var r := AnnotationMatchFrom(text, name, i + 1);
      NoAnnotationBetween(text, name, k, i, r);
      r
    else
      NoAnnotationBetween(text, name, k, i, -1);
      -1
  }

  /**
   * No occurrence of the name before the first one, no match at that one, none after it before
   * `r`: no match before `r`. Past the end of the text the name cannot occur.
   */
  lemma NoAnnotationBetween(text: String, name: String, k: nat, i: nat, r: int)
    requires k <= i
    requires forall j :: k <= j < i ==> !OccursAt(Lower(text), Lower(name), j)
    requires !AnnotationMatchAt(text, name, i)
    requires i < |text| ==> forall j :: i + 1 <= j && (r == -1 || j < r) ==> !AnnotationMatchAt(text, name, j)
    requires i >= |text| ==> r == -1
    ensures forall j :: k <= j && (r == -1 || j < r) ==> !AnnotationMatchAt(text, name, j)
  {
    forall j | k <= j && (r == -1 || j < r)
      ensures !AnnotationMatchAt(text, name, j)
    {
      if j > i && i >= |text| {
        assert |Lower(text)| == |text|;
      }
    }
  }

  /** The group of the match at `i`: the run between the parentheses. */
  function AnnotationGroup(text: String, name: String, i: int): (g: String)
    requires AnnotationMatchAt(text, name, i)
    ensures IsAnnotationOf(text, g)
  {
    AnnotationAt(text, i + |name|).value
  }

  /**
   * `re.search(type_pattern, page_text, re.IGNORECASE)`: the group of the leftmost match, and
   * nothing exactly when there is no match anywhere.
   */
  function TypeAnnotation(text: String, name: String): (r: Option<String>)
    ensures r.None? <==> forall i :: 0 <= i ==> !AnnotationMatchAt(text, name, i)
    ensures r.Some? ==> exists i :: LeftmostAnnotation(text, name, i) && r.value == AnnotationGroup(text, name, i)
    ensures r.Some? ==> IsAnnotationOf(text, r.value)
  {
    var i := AnnotationMatchFrom(text, name, 0);
    if i < 0 then None
    else
      assert LeftmostAnnotation(text, name, i);
      Some(AnnotationGroup(text, name, i))
  }

  /** There is at most one leftmost match. */
  lemma LeftmostAnnotationUnique(text: String, name: String, i: int, j: int)
    requires LeftmostAnnotation(text, name, i) && LeftmostAnnotation(text, name, j)
    ensures i == j
  {
  }

  /** A capture of the annotation pattern: non-empty, without `)`, and occurring, lower-cased, in the lower-cased text. */
  predicate IsAnnotationOf(text: String, g: String) {
    g != [] && ')' !in g && Contains(Lower(text), Lower(g))
  }

  /** The `\s+\(([^)]+)\)` part of the pattern matched at `j`: its capture, if the match succeeds there. */
  function AnnotationAt(text: String, j: nat): (r: Option<String>)
    ensures r.Some? ==> IsAnnotationOf(text, r.value)
  {
    if j > |text| then None
    else
      var open := j + SpaceRun(text, j);
      if open > j && open < |text| && text[open] == '(' then
        var close := CharFrom(text, ')', open + 1);
        if close > open + 1 && close < |text| then Some(Capture(text, open + 1)) else None
      else None
  }

  /** The run from `a` up to the next `)`: when non-empty, a capture of the annotation pattern. */
  function Capture(text: String, a: nat): (g: String)
    requires a < |text| && a < CharFrom(text, ')', a)
    ensures IsAnnotationOf(text, g)
  {
    LowerSliceOccurs(text, a, CharFrom(text, ')', a));
    NoCharBeforeNext(text, ')', a);
    text[a..CharFrom(text, ')', a)]
  }

  /**
   * `determine_interface_type` over the page text: "Collection" when the text mentions
   * `collection` in any case; otherwise the capitalised group of the leftmost annotation after the
   * name, unless there is none or it is blank after stripping, which give "Object".
   */
  function InterfaceType(pageText: String, name: String): (r: String)
    ensures Contains(Lower(pageText), "collection") ==> r == "Collection"
    ensures !Contains(Lower(pageText), "collection") && (forall i :: 0 <= i ==> !AnnotationMatchAt(pageText, name, i))
      ==> r == "Object"
    ensures forall i :: !Contains(Lower(pageText), "collection") && LeftmostAnnotation(pageText, name, i) ==>
      && (Strip(AnnotationGroup(pageText, name, i)) == [] ==> r == "Object")
      && (Strip(AnnotationGroup(pageText, name, i)) != [] ==> r == Capitalize(AnnotationGroup(pageText, name, i)))
    ensures !Contains(Lower(pageText), "collection") ==>
      r == "Object" || exists g :: IsAnnotationOf(pageText, g) && Strip(g) != [] && r == Capitalize(g)
  {
    if Contains(Lower(pageText), "collection") then "Collection"
    else
      match TypeAnnotation(pageText, name)
      case Some(g) => if Strip(g) != [] then Capitalize(g) else "Object"
      case None => "Object"
  }

  /** A page whose text is the name, a blank and a parenthesised type gets that type, capitalised. */
  lemma InterfaceTypeRoundTrip(name: String, g: String)
    requires ')' !in g && Strip(g) != []
    requires !Contains(Lower(name + " (" + g + ")"), "collection")
    ensures InterfaceType(name + " (" + g + ")", name) == Capitalize(g)
  {
    var text := name + " (" + g + ")";
    AnnotationLayout(text, name, g);
    assert LeftmostAnnotation(text, name, 0);
  }

  /** The name at the start, one blank, `(`, a run without `)`, `)`: the match at 0 captures that run. */
  lemma AnnotationLayout(text: String, name: String, g: String)
    requires text == name + " (" + g + ")"
    requires ')' !in g && g != []
    ensures AnnotationMatchAt(text, name, 0) && AnnotationGroup(text, name, 0) == g
  {
    var n := |name|;
    assert text[..n] == name;
    assert Lower(text)[..n] == Lower(name);
    assert text[n] == ' ' && text[n + 1] == '(';
    assert SpaceRun(text, n) == 1 by {
      assert !IsSpace(text[n + 1]);
    }
    assert text[n + 2..n + 2 + |g|] == g;
    assert text[n + 2 + |g|] == ')';
    CharFromAfterRun(text, ')', n + 2, n + 2 + |g|);
  }

  lemma LowerCapitalize(s: String)
    ensures Lower(Capitalize(s)) == Lower(s)
  {
    if s != [] {
      assert Lower(Capitalize(s))[0] == LowerChar(UpperChar(s[0])) == LowerChar(s[0]);
    }
  }

  lemma LowerCollection()
    ensures Lower("Collection") == "collection"
  {
    var l := Lower("Collection");
    assert l[0] == 'c' && l[1] == 'o' && l[2] == 'l' && l[3] == 'l' && l[4] == 'e';
    assert l[5] == 'c' && l[6] == 't' && l[7] == 'i' && l[8] == 'o' && l[9] == 'n';
  }

  /** The type is "Collection" exactly when the page text mentions "collection" in any case. */
  lemma CollectionTypeIff(pageText: String, name: String)
    ensures InterfaceType(pageText, name) == "Collection" <==> Contains(Lower(pageText), "collection")
  {
    var a := TypeAnnotation(pageText, name);
    if !Contains(Lower(pageText), "collection") && a.Some? && Capitalize(a.value) == "Collection" {
      LowerCapitalize(a.value);
      LowerCollection();
      assert false;
    }
  }

  /** The `is_collection` rule: the type is "Collection" or the lower-cased name ends in "s". */
  predicate IsCollection(interfaceType: String, name: String) {
    interfaceType == "Collection" || EndsWith(Lower(name), "s")
  }

  /** A page is a collection exactly when its text mentions "collection" or the name ends in `s` or `S`. */
  lemma CollectionRule(pageText: String, name: String)
    ensures IsCollection(InterfaceType(pageText, name), name)
            <==> Contains(Lower(pageText), "collection") || EndsWith(Lower(name), "s")
  {
    CollectionTypeIff(pageText, name);
  }

  // ---------------------------------------------------------------- property and method indexes

  datatype IndexItem = IndexItem(name: String, description: String)

  /** What `extract_properties` and `extract_methods` return. */
  datatype IndexSummary = IndexSummary(items: seq<IndexItem>, count: nat, names: seq<String>, index: Option<String>)

  /** The description clean-up: collapse whitespace, strip, drop everything before the first letter. */
  function CleanDescription(ddText: String): (r: String)
    ensures r == [] || IsAsciiLetter(r[0])
  {
    DropLeadingNonLetters(Strip(Collapse(ddText)))
  }

  /** The entries `_extract_*_from_html_structure` keeps: names of at least two characters, descriptions cleaned. */
  function StructureItems(links: seq<IndexLink>): seq<IndexItem> {
    FilterMap(HasLongName, ItemOf, links)
  }

  /** A link whose name has at least two characters. */
  predicate HasLongName(link: IndexLink) {
    |link.name| >= 2
  }

  /** The entry built from one link. */
  function ItemOf(link: IndexLink): IndexItem {
    IndexItem(link.name, CleanDescription(link.ddText))
  }

  /** Every kept entry has a name of at least two characters and a description that is empty or starts with a letter. */
  lemma StructureItemsClean(links: seq<IndexLink>)
    ensures forall i :: 0 <= i < |StructureItems(links)| ==> IsCleanItem(StructureItems(links)[i])
  {
    forall i | 0 <= i < |links| && HasLongName(links[i]) ensures IsCleanItem(ItemOf(links[i])) {
    }
    FilterMapAll(HasLongName, ItemOf, IsCleanItem, links);
  }

  /** A kept entry: a name of at least two characters, a description that is empty or starts with a letter. */
  predicate IsCleanItem(item: IndexItem) {
    |item.name| >= 2 && (item.description == [] || IsAsciiLetter(item.description[0]))
  }

  /** The loop of `_extract_*_from_html_structure` over the links of one `<dt>` block. */
  method ItemsFromStructure(links: seq<IndexLink>) returns (items: seq<IndexItem>)
    ensures items == StructureItems(links)
  {
    items := [];
    for i := 0 to |links|
      invariant items == FilterMap(HasLongName, ItemOf, links[..i])
    {
      FilterMapSnoc(HasLongName, ItemOf, links, i);
      var item := ReadItem(links[i]);
      if |links[i].name| >= 2 {
        items := items + [item];
      }
    }
    assert links[..|links|] == links;
  }

  /** The name and the cleaned `<dd>` text of one link. */
  method ReadItem(link: IndexLink) returns (item: IndexItem)
    ensures item == ItemOf(link)
  {
    var description := CleanDescription(link.ddText);
    item := IndexItem(link.name, description);
  }

  /**
   * The links of the first `<dt>` sibling after the anchor's parent, or nothing when the walk ends,
   * or an `<h2>`/`<h3>` heading whose text holds one of `stopWords` comes first.
   */
  function DefinitionLinks(siblings: seq<Node>, stopWords: seq<String>): Option<seq<IndexLink>>
    decreases |siblings|
  {
    if siblings == [] || !Truthy(siblings[0]) then None
    else if siblings[0].Elem? && siblings[0].tag == "dt" then Some(siblings[0].links)
    else if siblings[0].Elem? && (siblings[0].tag == "h2" || siblings[0].tag == "h3")
            && exists w :: w in stopWords && Contains(siblings[0].text, w) then None
    else DefinitionLinks(siblings[1..], stopWords)
  }

  /** The entries an index walk yields before the cap. */
  function IndexItems(anchorSiblings: Option<seq<Node>>, stopWords: seq<String>): seq<IndexItem> {
    if anchorSiblings.None? then []
    else
      match DefinitionLinks(anchorSiblings.value, stopWords)
      case None => []
      case Some(links) => StructureItems(links)
  }

  function ItemNames(items: seq<IndexItem>): (r: seq<String>)
    ensures |r| == |items| && forall i :: 0 <= i < |items| ==> r[i] == items[i].name
  {
    seq(|items|, i requires 0 <= i < |items| => items[i].name)
  }

  /**
   * An index extraction: at most `cap` entries, taken in order from the front of the kept entries;
   * the count is their number; the index string joins the names with ", " and is absent for none.
   */
  lemma SummaryShape(anchorSiblings: Option<seq<Node>>, stopWords: seq<String>, cap: nat, s: IndexSummary)
    requires s == Summarise(Prefix(IndexItems(anchorSiblings, stopWords), cap))
    ensures |s.items| <= cap && s.items == IndexItems(anchorSiblings, stopWords)[..|s.items|]
    ensures s.count == |s.items| && s.names == ItemNames(s.items)
    ensures s.index.None? <==> s.items == []
    ensures s.index.Some? ==> s.index.value == Join(s.names, ", ")
    ensures forall i :: 0 <= i < |s.items| ==> IsCleanItem(s.items[i])
  {
    var all := IndexItems(anchorSiblings, stopWords);
    if anchorSiblings.Some? && DefinitionLinks(anchorSiblings.value, stopWords).Some? {
      StructureItemsClean(DefinitionLinks(anchorSiblings.value, stopWords).value);
    }
    assert forall i :: 0 <= i < |s.items| ==> s.items[i] == all[i];
  }

  /** The result dictionary built from the capped list. */
  function Summarise(items: seq<IndexItem>): IndexSummary {
    IndexSummary(items, |items|, ItemNames(items), if items == [] then None else Some(Join(ItemNames(items), ", ")))
  }

  /**
   * The walk shared by `extract_properties` and `extract_methods`: `anchorSiblings` are the siblings
   * after the anchor's parent (`None` without the anchor).
   */
  method ExtractIndex(anchorSiblings: Option<seq<Node>>, stopWords: seq<String>, cap: nat) returns (s: IndexSummary)
    ensures s == Summarise(Prefix(IndexItems(anchorSiblings, stopWords), cap))
  {
    var items: seq<IndexItem> := [];
    if anchorSiblings.Some? {
      var siblings := anchorSiblings.value;
      var i := 0;
      while i < |siblings| && Truthy(siblings[i])
        invariant 0 <= i <= |siblings|
        invariant DefinitionLinks(siblings[i..], stopWords) == DefinitionLinks(siblings, stopWords)
        invariant items == []
      {
        assert siblings[i..][1..] == siblings[i + 1..];
        var sibling := siblings[i];
        if sibling.Elem? && sibling.tag == "dt" {
          items := ItemsFromStructure(sibling.links);
          break;
        } else if sibling.Elem? && (sibling.tag == "h2" || sibling.tag == "h3") {
          var stop := false;
          for w := 0 to |stopWords|
            invariant stop <==> exists v :: v in stopWords[..w] && Contains(sibling.text, v)
          {
            if Contains(sibling.text, stopWords[w]) {
              stop := true;
            }
            assert stopWords[..w + 1] == stopWords[..w] + [stopWords[w]];
          }
          assert stopWords[..|stopWords|] == stopWords;
          if stop {
            break;
          }
        }
        i := i + 1;
      }
      assert items == IndexItems(anchorSiblings, stopWords);
    }
    items := Prefix(items, cap);
    s := Summarise(items);
  }

  /** `extract_properties`: the `PropertyIndex` walk, capped at 15. */
  method ExtractProperties(anchorSiblings: Option<seq<Node>>) returns (s: IndexSummary)
    ensures s == Summarise(Prefix(IndexItems(anchorSiblings, ["Method Index", "Example", "Returns"]), 15))
    ensures s.count == |s.items| <= 15
  {
    s := ExtractIndex(anchorSiblings, ["Method Index", "Example", "Returns"], 15);
  }

  /** `extract_methods`: the `MethodIndex` walk, capped at 20. */
  method ExtractMethods(anchorSiblings: Option<seq<Node>>) returns (s: IndexSummary)
    ensures s == Summarise(Prefix(IndexItems(anchorSiblings, ["Property Index", "Example", "Returns"]), 20))
    ensures s.count == |s.items| <= 20
  {
    s := ExtractIndex(anchorSiblings, ["Property Index", "Example", "Returns"], 20);
  }

  // ---------------------------------------------------------------- index page links

  /** One `<a href>` of the index page and the stripped text of its parent. */
  datatype IndexAnchor = IndexAnchor(href: String, parentText: String)

  datatype InterfaceInfo = InterfaceInfo(name: String, url: String, description: String)

  const BaseUrl: String := "http://catiadoc.free.fr/online/interfaces/"

  /** An href this scraper follows: it starts with `interface_` and ends with `.htm`. */
  predicate IsInterfaceHref(href: String) {
    href != [] && StartsWith(href, "interface_") && EndsWith(href, ".htm")
  }

  const ObjectWord: String := "object"

  /**
   * The description read from the parent's text: tested with `object` in any case, but split at the
   * first `object` as written, so it is the stripped text after that first occurrence, and empty
   * when `object` does not occur as written.
   */
  function IndexDescription(text: String): (r: String)
    ensures !Contains(text, ObjectWord) ==> r == []
    ensures Contains(text, ObjectWord) ==> IsAfterFirst(text, ObjectWord, r)
  {
    if Contains(Lower(text), ObjectWord) then
      if Contains(text, ObjectWord) then AfterFirst(text, ObjectWord) else ""
    else
      ObjectLowered(text);
      ""
  }

  /** `r` is the stripped text after the first occurrence of `w`. */
  ghost predicate IsAfterFirst(text: String, w: String, r: String) {
    exists k :: OccursAt(text, w, k) && (forall j :: 0 <= j < k ==> !OccursAt(text, w, j)) && r == Strip(text[k + |w|..])
  }

  /** `text.split(w, 1)[1].strip()`. */
  function AfterFirst(text: String, w: String): (r: String)
    requires Contains(text, w)
    ensures IsAfterFirst(text, w, r)
  {
    var k := Find(text, w);
    FirstOccurrenceWitness(text, w, k);
    Strip(text[k + |w|..])
  }

  lemma FirstOccurrenceWitness(text: String, w: String, k: nat)
    requires OccursAt(text, w, k) && forall j :: 0 <= j < k ==> !OccursAt(text, w, j)
    ensures IsAfterFirst(text, w, Strip(text[k + |w|..]))
  {
  }

  /** An `object` in the text is an `object` in the lower-cased text. */
  lemma ObjectLowered(text: String)
    ensures Contains(text, ObjectWord) ==> Contains(Lower(text), ObjectWord)
  {
    if Contains(text, ObjectWord) {
      var l := Lower(ObjectWord);
      assert l[0] == 'o' && l[1] == 'b' && l[2] == 'j' && l[3] == 'e' && l[4] == 'c' && l[5] == 't';
      LowerKeepsLowerPattern(text, ObjectWord, Find(text, ObjectWord));
      OccursContains(Lower(text), ObjectWord, Find(text, ObjectWord));
    }
  }

  function InterfaceInfoOf(href: String, parentText: String): InterfaceInfo {
    InterfaceInfo(ReplaceAll(ReplaceAll(href, "interface_", ""), ".htm", ""), BaseUrl + href, IndexDescription(parentText))
  }

  /** The hrefs the scraper follows, in page order. */
  function InterfaceHrefs(anchors: seq<IndexAnchor>): (r: seq<String>)
    ensures forall i :: 0 <= i < |r| ==> IsInterfaceHref(r[i])
    ensures |r| <= |anchors|
    decreases |anchors|
  {
    if anchors == [] then []
    else
      var init := InterfaceHrefs(anchors[..|anchors| - 1]);
      if IsInterfaceHref(anchors[|anchors| - 1].href) then init + [anchors[|anchors| - 1].href] else init
  }

  /** The records `discover_interface_urls` builds, in page order. */
  function InterfaceInfos(anchors: seq<IndexAnchor>): seq<InterfaceInfo>
    decreases |anchors|
  {
    if anchors == [] then []
    else
      var init := InterfaceInfos(anchors[..|anchors| - 1]);
      var a := anchors[|anchors| - 1];
      if IsInterfaceHref(a.href) then init + [InterfaceInfoOf(a.href, a.parentText)] else init
  }

  /** One record per followed href, in the same order, with the URL formed from the base and the href. */
  lemma {:induction false} InterfaceInfosFollowHrefs(anchors: seq<IndexAnchor>)
    ensures |InterfaceInfos(anchors)| == |InterfaceHrefs(anchors)|
    ensures forall i :: 0 <= i < |InterfaceInfos(anchors)| ==>
      InterfaceInfos(anchors)[i].url == BaseUrl + InterfaceHrefs(anchors)[i]
    decreases |anchors|
  {
    if anchors != [] {
      InterfaceInfosFollowHrefs(anchors[..|anchors| - 1]);
    }
  }

  /** `discover_interface_urls` of the index scraper: the loop over the page's links. */
  method DiscoverInterfaceInfos(anchors: seq<IndexAnchor>) returns (infos: seq<InterfaceInfo>)
    ensures infos == InterfaceInfos(anchors)
  {
    infos := [];
    for i := 0 to |anchors|
      invariant infos == InterfaceInfos(anchors[..i])
    {
      var href := anchors[i].href;
      if href != [] && StartsWith(href, "interface_") && EndsWith(href, ".htm") {
        var name := ReplaceAll(ReplaceAll(href, "interface_", ""), ".htm", "");
        var description := IndexDescription(anchors[i].parentText);
        infos := infos + [InterfaceInfo(name, BaseUrl + href, description)];
      }
      assert anchors[..i + 1][..i] == anchors[..i];
    }
    assert anchors[..|anchors|] == anchors;
  }
}
