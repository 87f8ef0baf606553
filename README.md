# CATIA documentation scraper: extraction core in Dafny

This project models the extraction layer of a scraper for the CATIA V5 automation documentation.
That layer turns fetched documentation pages and the site's inheritance script into plain records.
Three source files make it up:

- `scraping/interface_index_scraper.py`: the `InterfaceIndexScraper`. It has:
  - a cached loader of the two script tables `fatherLink` (child key to parent key) and `father` (child key to parent display name);
  - the bounded walk that turns those tables into a base-first ancestor chain;
  - the page normalisers for role, description, interface type, `is_collection`, and the property and method indexes;
  - the href filter of its own discovery step.
- `scraping/complete_scraper.py`: the string-level extractors of the `CompleteCATIAScraper`. They cover:
  - URL discovery with de-duplication;
  - the interface name read from a URL;
  - description and role sentences;
  - the inheritance chain built from a fixed list of known bases;
  - structured and fallback property records;
  - method records;
  - examples.
- `scraping/scraper.py`: part of the `CATIADocumentationScraper`. It has:
  - the line-oriented parsers for method and property text blocks;
  - the readonly test;
  - the title-name rule;
  - `extract_interface_links`;
  - the visited-URL bookkeeping of `crawl_documentation`.

How the source maps onto Dafny:

- Imperative code keeps its form:
  - The loaders, sibling walks, list-building loops and the crawl are `method`s with loops.
  - Each is proved equal to a specification function, and the properties are proved as lemmas about that function.
  - The two objects whose fields change become classes: `Hierarchy.InterfaceIndexScraper` has the `_hierarchy_cache` field, and `Scraper.DocumentationScraper` has `visited_urls` and `interface_urls`.
- Pure code stays pure: single regular-expression extractions and the type rule are functions.
- A Python `dict` is a sequence of key/value pairs (`Hierarchy.Dict`):
  - assignment overwrites a key in place and appends a new key;
  - so iteration order is first-insertion order and the last write wins.

Files:

| file | module | contents |
|---|---|---|
| `wrappers.dfy` | `Wrappers` | `Option` |
| `text.dfy` | `Text` | the string operations the source uses (see below) |
| `hierarchy.dfy` | `Hierarchy` | script tables, loader, cache and resolver |
| `index_page.dfy` | `IndexPage` | role, description, type and index normalisers, plus index-page discovery |
| `complete_scraper.dfy` | `CompleteScraper` | the `complete_scraper.py` extractors |
| `doc_scraper.dfy` | `Scraper` | the `scraper.py` parsers, link filter and crawl bookkeeping |

The string operations in `Text` are:

- `str.strip` and `str.lstrip`;
- the whitespace collapse `re.sub(r"\s+", " ", s)`;
- substring search, `find`, `rsplit`, `split`, `join`, `replace` and slicing truncation;
- order-preserving de-duplication.

## Model

| member | source | states |
|---|---|---|
| Hierarchy.Put | scraping/interface_index_scraper.py:69 | A dict assignment adds one entry exactly when the key is new. |
| Hierarchy.PutGet | scraping/interface_index_scraper.py:69 | After `d[k] = v`, `d.get(k)` is `v` and every other key reads as before. |
| Hierarchy.PutKeys | scraping/interface_index_scraper.py:69 | After `d[k] = v`, the key order is unchanged, or the new key is appended. |
| Hierarchy.GetFindsKeys | scraping/interface_index_scraper.py:158 | `current_key in fatherlink_dict` holds exactly when a lookup finds a value. |
| Hierarchy.LinkMatchFrom | scraping/interface_index_scraper.py:77 | The leftmost position at or after `k` where `>([^<]+)</a>` matches; -1 exactly when no position there matches. |
| Hierarchy.LinkTextAt | scraping/interface_index_scraper.py:77-79 | The group of a match is non-empty, holds no `<`, and occurs in the markup as `>text</a>`. |
| Hierarchy.LinkText | scraping/interface_index_scraper.py:77-79 | `re.search`: nothing exactly when no position matches; otherwise the group of the leftmost match, which is non-empty, holds no `<` and occurs as `>text</a>`. |
| Hierarchy.LinkTextRoundTrip | scraping/interface_index_scraper.py:77-79 | Markup without `>`, then `>t</a>` with `t` non-empty and free of `<`, gives back `t`, whatever follows. |
| Hierarchy.DisplayName | scraping/interface_index_scraper.py:74-80 | A `father` display name (link text without `r1.`, stripped) has no whitespace at either end. |
| Hierarchy.FatherLinkLastWriteWins | scraping/interface_index_scraper.py:65-69 | `fatherLink[k]` is the unquoted value of the last assignment whose unquoted key is `k`. |
| Hierarchy.FatherLinkKeyOrder | scraping/interface_index_scraper.py:65-69 | The `fatherLink` keys are the assigned keys in first-assignment order, each once. |
| Hierarchy.FatherLinkUnquoted | scraping/interface_index_scraper.py:66-69 | Every stored key and value has its surrounding double quotes removed. |
| Hierarchy.FatherLastLinkWins | scraping/interface_index_scraper.py:71-80 | A `father` entry is stored only from a value holding a link, and the last such assignment to a key wins. |
| Hierarchy.FatherNamesClean | scraping/interface_index_scraper.py:72-80 | Every stored `father` key is unquoted and every display name is stripped. |
| Hierarchy.BuildFatherLink | scraping/interface_index_scraper.py:65-69 | The `fatherLink` loop builds the last-write-wins table of its matches. |
| Hierarchy.BuildFather | scraping/interface_index_scraper.py:71-80 | The `father` loop builds the table of the matches that hold a link. |
| Hierarchy.AssignOneFather | scraping/interface_index_scraper.py:72-80 | One `father` match stores its display name under the unquoted key, or changes nothing without a link. |
| Hierarchy.InterfaceIndexScraper.constructor | scraping/interface_index_scraper.py:43 | A new scraper has no cached tables. |
| Hierarchy.InterfaceIndexScraper.LoadHierarchyTables | scraping/interface_index_scraper.py:45-89 | Once the cache is set it is returned unchanged and nothing is fetched. Otherwise the loaded tables, or two empty ones after a failed fetch, are cached and returned. |
| Hierarchy.LoadTwice | scraping/interface_index_scraper.py:47-48 | Two loads in a row return the same tables; the second ignores what it would have fetched. |
| Hierarchy.InterfaceIndexScraper.ExtractHierarchy | scraping/interface_index_scraper.py:134-180 | The chain is the resolution of the name against the cached tables, and the cache is filled at most once. |
| Hierarchy.ResolveHierarchy | scraping/interface_index_scraper.py:138-180 | The chain is empty exactly when `fatherLink` is empty, no key contains the name, or the key found is the empty string. Otherwise it ends with the name and has at most 16 elements. |
| Hierarchy.ResolveEmptyIff | scraping/interface_index_scraper.py:138-150 | Both directions of the empty-result condition above. |
| Hierarchy.ResolveShape | scraping/interface_index_scraper.py:153-175 | A non-empty chain ends with the name, has at most 16 elements, and every earlier element is a `father` display name. |
| Hierarchy.WalkShape | scraping/interface_index_scraper.py:158-172 | The walk keeps the names it started with and appends at most one `father` name per remaining step, so at most 15. |
| Hierarchy.Step | scraping/interface_index_scraper.py:160-162 | One step leaves the names alone or appends a single `father` value. |
| Hierarchy.WalkChain | scraping/interface_index_scraper.py:153-172 | The while loop, with its `depth` bound and its cycle test, records exactly the specified walk. |
| Hierarchy.RecordFather | scraping/interface_index_scraper.py:160-162 | The loop body appends the current key's `father` name when it has one. |
| Hierarchy.SelfKeyStopsAfterOneStep | scraping/interface_index_scraper.py:171-172 | When the key found is the name itself, the cycle test fires after the first step, so the chain has at most two elements. |
| Hierarchy.TwoStepTableStopsEarly | scraping/interface_index_scraper.py:158-175 | With `{X: Y, Y: Z}` and `{X: ParentOfX, Y: ParentOfY}`, resolving `X` gives `["ParentOfX", "X"]`. |
| Hierarchy.ChainResolvesBaseFirst | scraping/interface_index_scraper.py:143-175 | A key that only contains the name is followed through two links, and the result is base first: `["A", "B", "C"]`. |
| Hierarchy.ResolveMayRepeatNames | scraping/interface_index_scraper.py:171-175 | The cycle test looks up display names, so a chain can repeat a name: `["P", "P", "A"]`. |
| Text.FirstContaining | scraping/interface_index_scraper.py:143-146 | The key chosen is the first, in key order, that contains the name. None is chosen exactly when no key does. |
| Text.FindFirstContaining | scraping/interface_index_scraper.py:143-146 | The key-search loop finds that first key. |
| IndexPage.RoleShape | scraping/interface_index_scraper.py:259-269 | A role is empty, or it is collapsed, longer than 15 characters, does not start with `:` or whitespace, and ends in `.`. |
| IndexPage.WithPeriodShape | scraping/interface_index_scraper.py:264-266 | Adding the final period keeps the text collapsed and keeps its first character; only the empty text stays empty. |
| IndexPage.WithPeriodKeepsCount | scraping/interface_index_scraper.py:324-325 | Adding the final period adds no character other than `.`. |
| IndexPage.NoLabelNoParts | scraping/interface_index_scraper.py:222-238 | Without a Role label the walk collects nothing. |
| IndexPage.RoleNeedsTwoRulesAndLabel | scraping/interface_index_scraper.py:208-211 | With fewer than two `<hr>` rules, or no Role label between them, the role is `""`. |
| IndexPage.ExtractRole | scraping/interface_index_scraper.py:202-269 | Corrected reading (see Findings): `extract_role` is the intended walk and the clean-up, with the role shape above. |
| IndexPage.CollectRoleParts | scraping/interface_index_scraper.py:218-256 | Corrected reading (see Findings): the sibling walk with its `role_found` flag collects exactly the intended parts, stopping at an `<hr>` or an empty text node. |
| IndexPage.RoleNodeText | scraping/interface_index_scraper.py:235-254 | Corrected reading (see Findings): one node after the label contributes its stripped text, its link text, or its element text. |
| IndexPage.RolePartsAsWritten | scraping/interface_index_scraper.py:218-238 | The walk as written: every part it collects is stripped and longer than one character. |
| IndexPage.RoleWalksAgreeOnText | scraping/interface_index_scraper.py:218-256 | Where only text nodes follow the first rule, the walk as written and the intended walk collect the same parts. |
| IndexPage.MarkupAfterLabel | scraping/interface_index_scraper.py:233-238 | As written, an element right after the label contributes its whole stripped markup. |
| IndexPage.RoleLabelIsLabel | scraping/interface_index_scraper.py:224-226 | `<b>Role:</b>` is a Role label and a link is not. |
| IndexPage.RoleCollectsMarkup | scraping/interface_index_scraper.py:235-238 | As written, a link after the label contributes its markup `<a href="a.htm">AnyObject</a>`. |
| IndexPage.RoleCollectsLinkText | scraping/interface_index_scraper.py:241-250 | As intended, the same link contributes its text `AnyObject`. |
| IndexPage.RemovalAddsNoClose | scraping/interface_index_scraper.py:318 | Removing parenthesised groups adds no `)`. |
| IndexPage.RemovalLeavesNoGroup | scraping/interface_index_scraper.py:318 | After removal, no `(` is followed by a `)`. |
| IndexPage.DescriptionShape | scraping/interface_index_scraper.py:310-327 | A description is empty, or collapsed with no leading whitespace and ends in `.`. |
| IndexPage.UnbalancedParensKept | scraping/interface_index_scraper.py:314-321 | Without `(`, or with unequal counts of `(` and `)`, the numbers of `(` and of `)` in the description equal those of the joined text. |
| IndexPage.BalancedGroupsRemoved | scraping/interface_index_scraper.py:314-325 | With a `(` and balanced counts, no `(` is followed by a `)`, both after the removal and in the finished description. |
| IndexPage.CleanUpKeepsNoGroup | scraping/interface_index_scraper.py:319-325 | Collapsing whitespace, stripping and adding the final period create no group. |
| IndexPage.ExtractDescription | scraping/interface_index_scraper.py:275-329 | `extract_description` is the specified walk and clean-up, with the description shape above. |
| IndexPage.CollectDescriptionParts | scraping/interface_index_scraper.py:292-308 | The walk collects the text of every `<b>`/`<i>` element longer than 3 characters that is not the Role label. |
| IndexPage.AnnotationMatchFrom | scraping/interface_index_scraper.py:191-192 | The leftmost position at or after `k` where the name occurs, compared case-insensitively, followed by `\s+\(([^)]+)\)`; -1 exactly when no position there matches. |
| IndexPage.AnnotationGroup | scraping/interface_index_scraper.py:191-196 | The group of a match is non-empty, holds no `)`, and occurs, case-insensitively, in the page text. |
| IndexPage.TypeAnnotation | scraping/interface_index_scraper.py:191-196 | `re.search(..., re.IGNORECASE)`: nothing exactly when no position matches; otherwise the group of the leftmost match. |
| IndexPage.AnnotationAt | scraping/interface_index_scraper.py:191 | A match of `\s+\(([^)]+)\)` at a position yields a capture: non-empty, free of `)`, occurring in the page text. |
| IndexPage.Capture | scraping/interface_index_scraper.py:191 | The run up to the next `)` is a capture of that shape. |
| IndexPage.LowerCapitalize | scraping/interface_index_scraper.py:197 | Capitalising changes no letter's lower-case form. |
| IndexPage.InterfaceType | scraping/interface_index_scraper.py:182-200 | `"Collection"` when the page text mentions `collection` in any case. Otherwise `"Object"` when nothing matches, `"Object"` when the leftmost group is blank after stripping, and the capitalised leftmost group in every other case. |
| IndexPage.InterfaceTypeRoundTrip | scraping/interface_index_scraper.py:191-197 | A page reading `<name> (<g>)`, with `g` free of `)`, not blank and no mention of `collection`, gets `Capitalize(g)`. |
| IndexPage.CollectionTypeIff | scraping/interface_index_scraper.py:182-200 | The type is `"Collection"` exactly when the page text mentions `collection` in any case. A capitalised annotation never produces it. |
| IndexPage.CollectionRule | scraping/interface_index_scraper.py:560-562 | `is_collection` holds exactly when the text mentions `collection` or the lower-cased name ends in `s`. |
| IndexPage.CleanDescription | scraping/interface_index_scraper.py:520-522 | A cleaned description is empty or starts with an ASCII letter. |
| IndexPage.StructureItemsClean | scraping/interface_index_scraper.py:520-528 | Every kept entry has a name of at least 2 characters and a description that is empty or starts with a letter. |
| IndexPage.ItemsFromStructure | scraping/interface_index_scraper.py:485-533 | The link loop keeps, in order, the cleaned entry of every link whose name has at least 2 characters. |
| IndexPage.ReadItem | scraping/interface_index_scraper.py:492-522 | One link gives its name and its cleaned `<dd>` text. |
| IndexPage.ItemNames | scraping/interface_index_scraper.py:374 | The name list has one name per entry, in order. |
| IndexPage.SummaryShape | scraping/interface_index_scraper.py:364-378 | The summary has at most `cap` entries from the front of the kept entries, and `count` is their number. The index string joins the names with `", "` and is absent exactly when there are none. Every entry is clean. |
| IndexPage.ExtractIndex | scraping/interface_index_scraper.py:340-378 | The anchor walk to the first `<dt>` block, stopping at a heading with a stop word, gives the capped summary. |
| IndexPage.ExtractProperties | scraping/interface_index_scraper.py:335-378 | `extract_properties` holds at most 15 entries, with `count` equal to their number. |
| IndexPage.ExtractMethods | scraping/interface_index_scraper.py:380-423 | `extract_methods` holds at most 20 entries, with `count` equal to their number. |
| IndexPage.InterfaceHrefs | scraping/interface_index_scraper.py:102-104 | Every followed href starts with `interface_` and ends with `.htm`; there are at most as many as links. |
| IndexPage.InterfaceInfosFollowHrefs | scraping/interface_index_scraper.py:102-125 | There is one record per followed href, in page order. Its URL is the base URL plus the href. |
| IndexPage.IndexDescription | scraping/interface_index_scraper.py:109-117 | The description is empty when `object` does not occur as written. Otherwise it is the stripped text after its first occurrence. |
| IndexPage.AfterFirst | scraping/interface_index_scraper.py:115-117 | `split(w, 1)[1].strip()`: the stripped text after a first occurrence of `w`, one with no occurrence before it. |
| IndexPage.DiscoverInterfaceInfos | scraping/interface_index_scraper.py:91-132 | The discovery loop builds exactly those records. |
| CompleteScraper.AbsoluteUrl | scraping/complete_scraper.py:49-56 | A resolved URL ends with its href. |
| CompleteScraper.RelativeHrefAgainst | scraping/complete_scraper.py:53-56 | A page-relative href replaces the file part of an index URL `dir/file`. |
| CompleteScraper.RelativeHrefAgainstDefaultIndex | scraping/complete_scraper.py:32-56 | Against the default index URL, a page-relative href resolves inside `.../online/interfaces/`. |
| CompleteScraper.CandidateUrlsSound | scraping/complete_scraper.py:45-56 | Every candidate URL resolves some href containing `interface_` and ending in `.htm`; there are no more candidates than hrefs. |
| CompleteScraper.CandidateUrlsComplete | scraping/complete_scraper.py:45-56 | Every such href yields its resolved URL. |
| CompleteScraper.DiscoverInterfaceUrls | scraping/complete_scraper.py:30-62 | The discovery loop returns the resolved interface hrefs with repeats dropped, in first-occurrence order. |
| CompleteScraper.DiscoveredUrls | scraping/complete_scraper.py:42-59 | The discovered URLs have no repeats, at most one per href, and are exactly the resolved interface hrefs. |
| Text.Dedup | scraping/complete_scraper.py:58-59 | Appending only unseen items gives no repeats, the same elements, and no more items than the input. |
| Text.DedupKeepsFirstOrder | scraping/complete_scraper.py:170-176 | De-duplication keeps the order of first occurrences. |
| CompleteScraper.NameMatchFrom | scraping/complete_scraper.py:107 | The position found is a match of `interface_([A-Z][a-zA-Z0-9_]+)` and no earlier position matches. -1 means there is none. |
| CompleteScraper.ExtractInterfaceName | scraping/complete_scraper.py:105-108 | Without a match the name is `"Unknown"`. With one, it is at least 2 characters, starts with an ASCII upper-case letter, and continues with word characters. |
| CompleteScraper.NameRoundTrip | scraping/complete_scraper.py:105-108 | The name of `interface_<n>.htm` is `n` for every name the pattern can capture. |
| CompleteScraper.RepresentsMatchFrom | scraping/complete_scraper.py:113 | The leftmost position at or after `k` where `Represents ([^\.]+\.)` matches; -1 exactly when no position there matches. |
| CompleteScraper.RepresentsAt | scraping/complete_scraper.py:113-115 | The match at a position occurs there, starts with `Represents `, has at least 13 characters, and ends in its only dot after the words. |
| CompleteScraper.Represents | scraping/complete_scraper.py:113-115 | `re.search(...).group(0)`: nothing exactly when no position matches; otherwise the leftmost match. |
| CompleteScraper.ExtractDescription | scraping/complete_scraper.py:110-116 | The description is the `Represents ...` sentence ending in `.`, or `"Description not found"` without a match. |
| CompleteScraper.RepresentsSentenceFound | scraping/complete_scraper.py:113-115 | A lone `Represents` sentence is returned whole. |
| CompleteScraper.GroupStart | scraping/complete_scraper.py:121 | The group of `\s*([^.]+` starts at a character other than `.`, including after the engine backtracks one whitespace character. |
| CompleteScraper.SentenceAt | scraping/complete_scraper.py:121 | A group matched at a position is a sentence: at least one non-dot character, then exactly one dot. |
| CompleteScraper.SentenceMatchFrom | scraping/complete_scraper.py:121 | The leftmost position at or after `k` where `marker\s*([^\.]+\.)` matches; -1 exactly when no position there matches. |
| CompleteScraper.SentenceGroup | scraping/complete_scraper.py:121-123 | The group of a match is a dot sentence. |
| CompleteScraper.SentenceGroupOccurs | scraping/complete_scraper.py:121-123 | The group of a match occurs in the text where the group starts. |
| CompleteScraper.SentenceAfter | scraping/complete_scraper.py:121-123 | `re.search(...).group(1)`: nothing exactly when no position matches; otherwise the group of the leftmost match. |
| CompleteScraper.ExtractRole | scraping/complete_scraper.py:118-124 | Without a match the role is `"Role not specified"`. With one, it is stripped, non-empty and ends in `.`. |
| CompleteScraper.SentenceAfterFound | scraping/complete_scraper.py:121-123 | After the marker and one space, a sentence is captured whole. |
| CompleteScraper.RoleSentenceFound | scraping/complete_scraper.py:118-124 | `Role: <g>.` gives back `<g>.`. |
| CompleteScraper.KnownHits | scraping/complete_scraper.py:145-149 | Every hit names a known base that has a linked interface, with the link found for it. |
| CompleteScraper.KnownHitsComplete | scraping/complete_scraper.py:145-149 | Every known base with a linked interface has its hit. |
| CompleteScraper.KnownHitsOrdered | scraping/complete_scraper.py:145-149 | Hits follow the known order `IUnknown`, `IDispatch`, `CATBaseUnknown`, `CATBaseDispatch`, `AnyObject`. |
| CompleteScraper.NoFindsNoHits | scraping/complete_scraper.py:145-155 | With no known base linked, there are no hits. |
| CompleteScraper.StandardChainNoDup | scraping/complete_scraper.py:157-163 | The standard chain names each known base once. |
| CompleteScraper.ChainPrefixed | scraping/complete_scraper.py:144-163 | The chain before the page's own name has 1 to 5 entries, each starting with `r` (from `r1.`). |
| CompleteScraper.InheritanceShape | scraping/complete_scraper.py:126-178 | The chain is never empty, has no repeats and at most 6 entries, and ends with the page's interface name whenever that is not `"Unknown"`. |
| CompleteScraper.InheritanceFallback | scraping/complete_scraper.py:155-168 | With no known base linked, the chain is the 5-entry standard chain followed by the page's name. |
| CompleteScraper.RemoveDuplicates | scraping/complete_scraper.py:170-176 | The `seen`-set loop de-duplicates in first-occurrence order. |
| CompleteScraper.CollectKnownBases | scraping/complete_scraper.py:145-149 | The nested loop yields, for each known base in order, the first link containing it, prefixed `r1.`. |
| CompleteScraper.ExtractInheritanceComplete | scraping/complete_scraper.py:126-178 | The method builds exactly the specified chain. |
| CompleteScraper.DdMatchFrom | scraping/complete_scraper.py:238 | The leftmost position at or after `k` where `<dd>\s*([^<]+)` matches; -1 exactly when no position there matches. |
| CompleteScraper.DdGroup | scraping/complete_scraper.py:238-240 | The group of a match is non-empty, holds no `<`, and occurs in the content where the group starts. |
| CompleteScraper.DdText | scraping/complete_scraper.py:238-240 | `re.search(...).group(1)`: nothing exactly when no position matches; otherwise the group of the leftmost match. |
| CompleteScraper.FirstNonBlank | scraping/complete_scraper.py:244-251 | The first non-blank line is stripped. |
| CompleteScraper.FirstNonBlankIsFirst | scraping/complete_scraper.py:245-251 | It is empty exactly when every line is blank. Otherwise it is the stripped form of a line that only blank lines precede. |
| CompleteScraper.PropertyDescription | scraping/complete_scraper.py:234-251 | A property description is stripped, and empty when the trailing content is empty. |
| CompleteScraper.StructuredProperty | scraping/complete_scraper.py:223-265 | One record per match, with stripped name and anchor. The type is the second `activateLink` argument unless it is blank, else the first. The description is kept up to 300 characters, else cut to 300 plus `...`. |
| CompleteScraper.FallbackPropertyRecord | scraping/complete_scraper.py:267-279 | Without structured matches, each simple-pattern name gives a record with type and access `"Unknown"`, description `Property <name>` and anchor `<name>`. |
| CompleteScraper.CollectStructuredProperties | scraping/complete_scraper.py:223-265 | The structured loop builds one record per match, in order. |
| CompleteScraper.CollectFallbackProperties | scraping/complete_scraper.py:268-279 | The fallback loop builds one record per name, in order. |
| CompleteScraper.ExtractPropertiesComplete | scraping/complete_scraper.py:208-285 | The structured records are returned, or the fallback records when there are none. |
| CompleteScraper.MethodDescription | scraping/complete_scraper.py:303-308 | A method description is stripped, and empty for empty content. |
| CompleteScraper.MethodDescriptionRoundTrip | scraping/complete_scraper.py:303-308 | `<dd>` followed by any text `g` without `<` gives `g` stripped. A blank `g` gives `""` too: the engine gives one blank back to the group, and it strips to nothing. |
| CompleteScraper.MethodRecordRules | scraping/complete_scraper.py:298-320 | One record per match with stripped name and anchor. The description is kept up to 200 characters, else cut to 200 plus `...`. |
| CompleteScraper.ExtractMethodsComplete | scraping/complete_scraper.py:287-322 | The loop builds exactly those records. |
| Text.Truncate | scraping/complete_scraper.py:254-255 | A text up to the bound is unchanged. A longer one becomes its first `n` characters plus `...`, exactly `n + 3` long. |
| CompleteScraper.PreExamples | scraping/complete_scraper.py:329-332 | Every `<pre>` example is stripped and longer than 20 characters. |
| CompleteScraper.SectionExampleShape | scraping/complete_scraper.py:340-347 | A kept section example is collapsed, longer than 50 and at most 503 characters. |
| CompleteScraper.AddExampleCases | scraping/complete_scraper.py:340-347 | A clean text of at most 50 characters, or one already listed, leaves the list alone. A longer, unlisted one appends its truncated form. |
| CompleteScraper.LongSectionListedTwice | scraping/complete_scraper.py:340-347 | The duplicate test compares the untruncated text with the truncated entries, so a section longer than 503 characters that occurs twice is listed twice. |
| CompleteScraper.ExamplesShape | scraping/complete_scraper.py:324-349 | The examples start with the `<pre>` examples, and every later entry is a section example of the shape above. |
| CompleteScraper.ExtractExamples | scraping/complete_scraper.py:324-349 | The two loops build exactly the specified list. |
| Scraper.WordMatchFrom | scraping/scraper.py:490 | The position found is a match of `kw\s+(\w+)` and no earlier position matches. -1 means there is none. |
| Scraper.WordAt | scraping/scraper.py:490-492 | The group of a match is non-empty and holds only word characters. |
| Scraper.WordAfter | scraping/scraper.py:490-497 | `re.search` finds nothing exactly when no position matches. Otherwise it returns the group of a match with no match before it. |
| Scraper.WordAfterRoundTrip | scraping/scraper.py:490-492 | A word written after the keyword and a space is read back. |
| Scraper.WordAfterOrEmpty | scraping/scraper.py:490-497 | The name or return type, defaulting to `""`, holds only word characters. |
| Scraper.LinkCallFrom | scraping/scraper.py:548 | The position found is a match of `activateLink\('([^']+)','[^']+'\)` and no earlier position matches. -1 means there is none. |
| Scraper.LinkTypeAt | scraping/scraper.py:548-550 | The type argument of a call is non-empty and holds no `'`. |
| Scraper.ActivateLinkType | scraping/scraper.py:548-550 | Nothing is found exactly when no position holds a call. Otherwise it returns the type argument of a call with no call before it. |
| Scraper.ActivateLinkRoundTrip | scraping/scraper.py:548-550 | `activateLink('t','a')`, after text holding no `activateLink('`, gives back `t`. |
| Scraper.DescriptionLinesShape | scraping/scraper.py:500-512 | Every description line is stripped and non-empty. None starts with the marker, with `o ` or with `- **`. |
| Scraper.NoMarkerNoDescription | scraping/scraper.py:500-514 | Without a marker line the description is empty. |
| Scraper.DescriptionStartsAfterMarker | scraping/scraper.py:504-508 | The description starts right after the first marker line. |
| Scraper.DescriptionStopsAtNextBlock | scraping/scraper.py:509-510 | Inside a description, the next line starting `o ` that is not a marker line ends it. |
| Scraper.CollectDescriptionLines | scraping/scraper.py:500-514 | The line loop with its `in_description` flag collects exactly the specified lines. |
| Scraper.Signature | scraping/scraper.py:480-485 | The signature is the text from the first `o Func` up to the next newline or the end, stripped. It starts with `o Func` and holds no newline. |
| Scraper.SignatureStrip | scraping/scraper.py:484 | Stripping that line keeps its `o Func` start. |
| Scraper.MethodFromText | scraping/scraper.py:464-525 | The parse fails exactly when the text lacks `o Func`. |
| Scraper.MethodFromTextShape | scraping/scraper.py:484-523 | A parsed method's signature starts with `o Func`, its name and return type are empty or single words, and it has one parameter per captured pair. |
| Scraper.CollectParameters | scraping/scraper.py:517-523 | The parameter loop builds one stripped record per captured pair, in order. |
| Scraper.ParseMethodFromText | scraping/scraper.py:464-529 | The method parser computes the specified result. |
| Scraper.ConstMarksReadonly | scraping/scraper.py:575-579 | Any occurrence of `const`, for example inside `constant`, makes a property readonly. |
| Scraper.UpperReadonlyMarks | scraping/scraper.py:575-579 | `READONLY` in capitals makes a property readonly, because the test is case-insensitive. |
| Scraper.PropertyFromText | scraping/scraper.py:531-585 | The parse fails exactly when the text lacks `o Property`. |
| Scraper.PropertyFromTextShape | scraping/scraper.py:548-579 | A parsed property's name is empty or one word and its type holds no `'`. Readonly holds exactly when a marker occurs. |
| Scraper.ParsePropertyFromHtml | scraping/scraper.py:531-585 | `_parse_property_from_html` reads the type from the block's markup and the rest from its text. |
| Scraper.ParsePropertyFromText | scraping/scraper.py:587-641 | `_parse_property_from_text` reads everything from the text. |
| Scraper.TitleName | scraping/scraper.py:134-141 | Without `Interface` the name is the stripped title. With it, the title is some text, `Interface` and a rest without `Interface`, and the name is that rest stripped. |
| Text.AfterLast | scraping/scraper.py:139 | The last piece of `split(sep)` is a suffix without `sep`, and the whole text when `sep` does not occur. |
| Text.AfterLastSplits | scraping/scraper.py:139 | When `sep` occurs, the text is some prefix, then `sep`, then the last piece. |
| Scraper.LinkUrlsSound | scraping/scraper.py:60-75 | Every URL a link loop appends is unvisited and joins the href of a link its filter accepts. |
| Scraper.ListSkipCoversMain | scraping/scraper.py:68-98 | The second loop skips every word the first loop skips. |
| Scraper.InterfaceLinksSound | scraping/scraper.py:53-104 | Every returned URL is unvisited and joins an href that is relative, ends in `.htm`, has link text longer than 2 characters, and contains none of the five common skip words. |
| Scraper.LinksMayRepeat | scraping/scraper.py:53-104 | A link that passes both filters is returned twice. |
| Scraper.LinkUrlsOne | scraping/scraper.py:73-75 | One kept, unvisited link yields its joined URL. |
| Scraper.PartLinkPasses | scraping/scraper.py:62-98 | The link `Part` to `Part.htm` passes both filters. |
| Scraper.ParsedInterfacesShape | scraping/scraper.py:670-680 | The crawl keeps at most one record per URL looked at, each with a non-empty name and parsed from an unvisited URL. |
| Scraper.DocumentationScraper.constructor | scraping/scraper.py:22-39 | A new scraper has the given base URLs and no visited or collected URLs. |
| Scraper.DocumentationScraper.CollectLinks | scraping/scraper.py:60-75 | One link loop appends, in order, the joined URL of every accepted, unvisited link. |
| Scraper.DocumentationScraper.ExtractInterfaceLinks | scraping/scraper.py:53-104 | `extract_interface_links` is the main-content loop's URLs followed by the whole-document loop's. |
| Scraper.DocumentationScraper.ParseMainIndex | scraping/scraper.py:106-114 | A page that cannot be fetched gives no links; otherwise the page's interface links. |
| Scraper.DocumentationScraper.GatherInterfaceUrls | scraping/scraper.py:653-661 | The collected URLs grow by the main index's links, then each other base URL's links, and the visited set is unchanged. |
| Scraper.DocumentationScraper.ParseFirstInterfaces | scraping/scraper.py:668-680 | Each of the first 20 URLs is added to the visited set, and the named records of the ones not visited before are kept: at most 20, each named. |
| Scraper.DocumentationScraper.CrawlDocumentation | scraping/scraper.py:643-689 | The collected URLs are de-duplicated and at most 20 are looked at. Each is marked visited before parsing, already-visited URLs are skipped, and only records with a non-empty name are kept. |

## Left out

- Fetching: network access, `raise_for_status`, timeouts, `time.sleep` throttling and logging are not modelled.
  - What a fetch yields is a parameter: `Option<ScriptMatches>` for the script, `fetch: String -> Option<Page>` for pages, and `parse` for an interface page.
  - `None` stands for a failed fetch, which the source catches.
- Python exceptions: the `try`/`except` blocks are not modelled as such. Every modelled operation is total, and the error paths the source takes are modelled as `None` or as empty results.
- BeautifulSoup and the `re` engine are not re-verified:
  - A parsed page is the input: a sequence of sibling nodes for the `<hr>` region, and links paired with their chosen `<dd>` text for index blocks. The `<dd>` search itself (`find_next("dd")` up the parents) is not modelled.
  - Multi-line DOTALL `finditer` patterns are inputs given as their capture tuples. This covers the property, method and fallback-property blocks, the `fatherLink`/`father` assignments, `Example:` sections, `r1/interface_` links and the `- **Name**` parameter pattern.
  - Short, local patterns are modelled as leftmost-match search functions.
- `urljoin` is a parameter of `Scraper`.
- Character classes are ASCII only: `str.lower`, `str.capitalize`, `str.isupper` and `\w` cover ASCII letters, digits and `_`. Non-ASCII case mapping is not modelled.
- Whitespace is Python's full Unicode `str.isspace` set: ASCII space, `\t` to `\r`, `\x1c` to `\x1f`, `\x85`, `\xa0`, `\u1680`, `\u2000` to `\u200a`, `\u2028`, `\u2029`, `\u202f`, `\u205f` and `\u3000`.
- `IndexPage.ExtractRole` follows the corrected walk of the Findings table. The walk as written is `IndexPage.RolePartsAsWritten`.
- `IndexPage.CollectRoleParts` follows the corrected walk of the Findings table, so it is proved against `RoleParts`, not against the walk as written.
- `IndexPage.RoleNodeText` gives the corrected per-node contribution of the Findings table. As written, every node contributes its stripped string form.
- `Scraper.DocumentationScraper.CrawlDocumentation`: the order `list(set(...))` produces is unspecified in the source. It is a parameter `arrange`, required to give a repeat-free sequence with the same elements.
- `Scraper`: `parse_interface_page` is modelled only by its title rule. The h1/h2 fallback and the DOM searches for methods, properties and inheritance are not modelled.
- `_parse_method` and `_parse_property` are not modelled. `_parse_method` reads an undefined `signature_text` (scraping/scraper.py:369), so it always ends in its `except` and returns `None`.
- `IndexPage.DiscoverInterfaceInfos`: the description the index scraper reads after `object` in the parent's text is computed (`IndexDescription`), but `get_text(strip=True)` itself is taken as input.
- `CompleteScraper.ExtractInterfaceName`: the contract does not rule out `"Unknown"` as a real capture. A URL `interface_Unknown.htm` captures `Unknown`, so the result alone cannot tell a miss from that interface.
- `_extract_property_index`, `scrape_interface` and the `scrape_interface_details` record assembly are not modelled beyond the fields listed above. `json.dumps` serialisation, the float averages and printing in `main` are not modelled either.
- `scraping/db_handler.py`, `scraping/models.py`, `scraping/query_interface.py`, `scraping/crawler.py`, `scraping/demo.py`, `setup.py` and every `main` function are not part of this model. They are persistence, command-line orchestration and packaging around the extraction layer.

Three behaviours are modelled as the code has them, although a comment or the shape of the code suggests otherwise:

- **Cycle detection.** The comment at scraping/interface_index_scraper.py:170 says the walk stops at a key seen before. The code does not:
  - its cycle test compares the parent key with `fatherLink.get(h, "")` for the display names recorded so far, not with the keys visited;
  - with `fatherLink = {X: Y, Y: Z}` and `father = {X: ParentOfX, Y: ParentOfY}`, resolving `X` stops after one step and gives `["ParentOfX", "X"]`, not a three-element chain (`Hierarchy.TwoStepTableStopsEarly`);
  - a chain can repeat a display name (`Hierarchy.ResolveMayRepeatNames`).
- **Discovery returns lists.** Both discovery steps return lists:
  - `complete_scraper.py` de-duplicates in first-occurrence order;
  - the index scraper's discovery does not de-duplicate at all.
- **`extract_interface_links` can repeat a link.** It appends from two loops, so a link can be returned twice (`Scraper.LinksMayRepeat`). Only the crawl's `list(set(...))` at scraping/scraper.py:663-664 removes repeats.

## Findings

| source | as written | input that shows it | evidently intended | confidence | as-written member | corrected member |
|---|---|---|---|---|---|---|
| scraping/interface_index_scraper.py:235-254 | Tests `hasattr(current, "strip")` first. A BeautifulSoup `Tag` answers it too (attribute lookup falls back to a child search), so every element after the Role label contributes `str(tag)` markup. The `<hr>` stop and the link branch are never reached. | `<b>Role:</b><a href="a.htm">AnyObject</a>` between the first two rules | text nodes contribute their text; links contribute their link text; other elements contribute `get_text(strip=True)`; an `<hr>` ends the walk | medium, not executed | IndexPage.RoleCollectsMarkup | IndexPage.RoleCollectsLinkText |
