# F95 thread-post parser, modelled in Dafny

This project models the post parser of the F95 API library
(`src/scripts/scrape-data/post-parse.ts`) and the parameter checks of its
API error classes (`src/scripts/classes/errors.ts`).

The post parser turns the markup of a forum post into `IPostElement` trees
and then into title/value records, in four stages:

- **Parsing.** Each markup node becomes one element (`parseCheerioNode`):
  - text nodes become Text elements;
  - `<a>` becomes a Link and `<img>` an Image;
  - spoiler blocks become Spoiler elements holding their parsed body;
  - `<b>`/`<i>` become Generic elements holding their non-empty parsed children,
    except that a `<b>`/`<i>` that is also a spoiler block becomes a Spoiler
    holding its body followed by its non-empty parsed children;
  - everything else becomes an empty Generic element.
- **Reduction.** `reducePostElement` collapses every unlabeled element that
  has a single child into that child.
- **Pruning.** `removeEmptyContentFromElement` drops empty children at every
  depth.
- **Grouping.** `associateNameToElements` first calls `pairUp`, which finds
  the "title" elements (`Label:`). `parseGroupData` then rewrites each title
  in place with the members that follow it. Finally a loop over the
  rewritten list builds the records.

The model is written in value semantics:

- **Files.**
  - `dom.dfy`: the markup tree.
  - `elements.dfy`: `IPostElement`.
  - `parse_node.dfy`: node parsing.
  - `tree.dfy`: reduction and pruning.
  - `grouping.dfy`: `pairUp`, `parseGroupData` and `associateNameToElements`.
  - `post_parse.dfy`: `parseF95ThreadPost`.
  - `scenarios.dfy`: two posts worked through end to end.
  - `errors.dfy`: the error classes.
- **Functions and methods.** `parseCheerioNode`, the spoiler parser,
  `parseF95ThreadPost`, `pairUp`, `parseGroupData` and
  `associateNameToElements` are `method`s that build their results step by
  step, with loops where the source loops. Each is proved equal to a
  specification function, and the properties are lemmas about those
  functions. `reducePostElement`, `removeEmptyContentFromElement` and the
  overview helpers build fresh copies with `map` and `filter` and are
  functions.
- **In-place mutation.** `pairUp` changes objects in place and its own
  return value is thrown away by its caller. The model makes that effect
  explicit:
  - `PairUpEffect` is the list as the records loop sees it afterwards;
  - `PairUpData` is the discarded return value.
- **Aliasing.** The value model matches the source's shared-object
  behaviour because Text, Link and Image elements never have children in
  the trees the parser builds (`Elements.WellFormed`, proved for every
  parsed, reduced and pruned tree).

The grouping code is modelled as written, including two behaviours that
`Scenarios` works out:

- **The label is lost.** The records loop visits the rewritten title again.
  A title `Version:` followed by `1.2.3` therefore yields two records, both
  named `1.2.3` with an empty text: the label `Version` is lost and the value
  appears twice (`Scenarios.VersionField`).
- **A linked member is pushed twice.** A non-Text member is added to its
  title's children by `parseGroupData` and then again by the records loop.
  A link after `Developer:` ends up twice among the children of one record,
  whose name and text are both empty (`Scenarios.LinkField`).

`pairUp` also collects the groups found inside Generic containers into its
return value, which `associateNameToElements` discards (post-parse.ts:383,
449-454); the model follows the code.

## Model

| member | source | states |
|---|---|---|
| Strings.TrimSpec | src/scripts/scrape-data/post-parse.ts:219 | `trim` removes white space at both ends and nothing else. The result is a contiguous slice of the input with only white space before and after it. It starts and ends with a non-space character, is empty exactly when the input is all white space, and keeps every other character in order. |
| Strings.TrimIsSlice | src/scripts/scrape-data/post-parse.ts:219 | The trimmed string is the input with a white-space-only prefix and a white-space-only suffix removed. |
| Strings.TrimStartBlank | src/scripts/scrape-data/post-parse.ts:219 | The leading half of the `Trim` model (the source calls only `trim()`): removing leading white space yields "" exactly when the string is all white space. |
| Strings.TrimEndBlank | src/scripts/scrape-data/post-parse.ts:219 | The trailing half of the `Trim` model (the source calls only `trim()`): removing trailing white space yields "" exactly when the string is all white space. |
| Strings.CollapseSpaces | src/scripts/scrape-data/post-parse.ts:189 | `replace(/\s\s+/g, " ")` leaves no two adjacent white-space characters, keeps every other character in order, and starts with white space exactly when the input does. |
| Strings.CollapseSpacesSqueeze | src/scripts/scrape-data/post-parse.ts:189 | The collapse keeps the word structure: replacing each white-space run by one space gives the same string before and after it, so words stay separated exactly where they were. |
| Strings.CollapseSpacesIdle | src/scripts/scrape-data/post-parse.ts:189 | A string without two adjacent white-space characters is left unchanged. |
| Strings.SqueezeTrim | src/scripts/scrape-data/post-parse.ts:219 | `trim` keeps the word structure: squeezing white-space runs and trimming can be done in either order. |
| Strings.Clean | src/scripts/scrape-data/post-parse.ts:299 | The collapse followed by `trim`: no white space at either end, no double white space, the same non-space characters in the same order, and the same word boundaries (its squeezed form is the trimmed squeezed input). |
| Dom.Contents | src/scripts/scrape-data/post-parse.ts:62-65 | `.contents()` of an element gives its children, each smaller than the element. |
| Dom.Find | src/scripts/scrape-data/post-parse.ts:155 | `.find(selector)` gives element nodes strictly below the node that the selector matches. |
| Dom.ContentsOf | src/scripts/scrape-data/post-parse.ts:159-161 | `.contents()` of a multi-element selection gives the children of each selected element, each smaller than the bound. |
| Elements.UnknownIffBlank | src/scripts/scrape-data/post-parse.ts:216-228 | An element is unknown exactly when its name and text are all white space, whatever its children. It is empty exactly when, in addition, it has no children. |
| Elements.KeepNonEmpty | src/scripts/scrape-data/post-parse.ts:334 | The filter keeps every non-empty element and only those, in their original order. |
| Elements.KeepNonEmptyAppend | src/scripts/scrape-data/post-parse.ts:366 | Filtering a concatenation is concatenating the filtered parts, so filtering child by child equals filtering at the end. |
| Elements.KeepNonEmptyOfNonEmpty | src/scripts/scrape-data/post-parse.ts:334 | A list without empty elements passes the filter unchanged. |
| NodeParser.NonChildrenText | src/scripts/scrape-data/post-parse.ts:281-300 | The text of a node without its children's text is cleaned: no white space at either end and no double white space. Its words, with their boundaries, are those of the node's own data for a text node, of all its text for an element with one child node, and of its direct text nodes otherwise. |
| NodeParser.ParseSpoiler | src/scripts/scrape-data/post-parse.ts:140-168 | A spoiler element is labelled with the trimmed text of its first label (or ""), has no text, and has one child per node of its body. |
| NodeParser.ParseSpoilerAt | src/scripts/scrape-data/post-parse.ts:159-166 | The spoiler's i-th child is the parse of the i-th node of its body. |
| NodeParser.SpoilerBody | src/scripts/scrape-data/post-parse.ts:159-163 | The spoiler body's nodes are all smaller than the spoiler, so parsing them terminates. |
| NodeParser.ParseForest | src/scripts/scrape-data/post-parse.ts:62-65 | Mapping `parseCheerioNode` over nodes gives one element per node, each one well formed. |
| NodeParser.ParseForestAt | src/scripts/scrape-data/post-parse.ts:62-65 | The i-th element of the mapped list is the parse of the i-th node. |
| NodeParser.ParseNode | src/scripts/scrape-data/post-parse.ts:345-372 | A parsed node is well formed. A `<b>`/`<i>` node that is not a spoiler block gets at most as many children as it has nodes, none of them empty. |
| NodeParser.ParseRules | src/scripts/scrape-data/post-parse.ts:345-372 | The classification rules of `parseCheerioNode`, using the predicates of lines 90-130 and the parsers of lines 173-207. `noscript` and unhandled tags give an empty Generic element. A text node gives a Text element with its cleaned text. `<img>` gives an Image with its `alt` and `data-src`. `<a>` gives a Link with its cleaned text and `href`. A spoiler that is not `<b>`/`<i>` gives exactly the parsed spoiler (label and body), and a `<b>`/`<i>` spoiler gets its body followed by its non-empty parsed children. Only `<b>`/`<i>` and spoilers get children, and a `<b>`/`<i>` that is not a spoiler gets exactly its non-empty parsed children. |
| NodeParser.ParseCheerioNode | src/scripts/scrape-data/post-parse.ts:345-372 | The step-by-step parse of one node equals `ParseNode`. |
| NodeParser.ParseCheerioChildren | src/scripts/scrape-data/post-parse.ts:359-368 | The children loop of a `<b>`/`<i>` node gives exactly the non-empty parses of its children, in order. |
| NodeParser.ParseCheerioSpoilerNode | src/scripts/scrape-data/post-parse.ts:140-168 | The spoiler parse loop equals `ParseSpoiler`. |
| PostTree.Reduce | src/scripts/scrape-data/post-parse.ts:306-319 | The reduced element is never itself an unknown element with exactly one child, and it is no deeper than the input. |
| PostTree.ReduceCollapses | src/scripts/scrape-data/post-parse.ts:308-313 | An unknown element with exactly one child becomes the reduction of that child, which is strictly shallower than the element. |
| PostTree.ReduceKeepsShape | src/scripts/scrape-data/post-parse.ts:315-318 | An element that is not collapsed keeps its kind, name, text, link and number of children, and each child is reduced in place. |
| PostTree.ReduceIsReduced | src/scripts/scrape-data/post-parse.ts:306-319 | After reduction no element at any depth can be collapsed. |
| PostTree.ReducedIsFixpoint | src/scripts/scrape-data/post-parse.ts:306-319 | A tree with nothing to collapse is left unchanged. |
| PostTree.ReduceIdempotent | src/scripts/scrape-data/post-parse.ts:306-319 | Reducing twice is reducing once. |
| PostTree.ReduceWellFormed | src/scripts/scrape-data/post-parse.ts:306-319 | Reduction keeps Text, Link and Image elements childless. |
| PostTree.Prune | src/scripts/scrape-data/post-parse.ts:324-340 | The pruned element keeps its kind, name, text and link. None of its remaining children is empty, and it has no more children than before. |
| PostTree.PruneKeepsOrder | src/scripts/scrape-data/post-parse.ts:329-337 | The surviving children are the pruned children in their original order. Every child whose pruned form is not empty survives. |
| PostTree.PruneIsPruned | src/scripts/scrape-data/post-parse.ts:324-340 | After pruning no element at any depth has an empty child. |
| PostTree.PrunedIsFixpoint | src/scripts/scrape-data/post-parse.ts:324-340 | A tree without empty children is left unchanged. |
| PostTree.PruneIdempotent | src/scripts/scrape-data/post-parse.ts:324-340 | Pruning twice is pruning once. |
| PostTree.PruneWellFormed | src/scripts/scrape-data/post-parse.ts:324-340 | Pruning keeps Text, Link and Image elements childless. |
| Grouping.NonGenericMembers | src/scripts/scrape-data/post-parse.ts:429 | The filter keeps exactly the elements that are not Generic. |
| Grouping.NonGenericAt | src/scripts/scrape-data/post-parse.ts:429 | The filter keeps order: a non-Generic element at position i sits in the filtered list at the position equal to the number of non-Generic elements before i. |
| Grouping.TitlesBelowSpec | src/scripts/scrape-data/post-parse.ts:434-441 | The title positions below `n` increase strictly. Each one is a title: a Text element ending with ":" (other than ":") or followed by an element whose text starts with ":". No title is missed. |
| Grouping.TitleIndexesValid | src/scripts/scrape-data/post-parse.ts:434-441 | `indexes` lie inside the list and increase strictly. |
| Grouping.TitleIndexesSpec | src/scripts/scrape-data/post-parse.ts:434-441 | `indexes` holds exactly the title positions. |
| Grouping.NextTitleSpec | src/scripts/scrape-data/post-parse.ts:470 | The next title at or after a position is a title, or the end of the list, and no title is skipped. |
| Grouping.GroupEndIsNextTitle | src/scripts/scrape-data/post-parse.ts:470-471 | `indexes[index + 1] ?? elements.length` is the first title after the group's own title, or the end of the list. |
| Grouping.GroupTitleShape | src/scripts/scrape-data/post-parse.ts:473-497 | The rewritten title keeps its kind and link. It is named after its own former text and has no white space at either end of its text. Its children are its former children followed by what the members contribute. |
| Grouping.TitleNameDropsColon | src/scripts/scrape-data/post-parse.ts:477 | A title written `Label:` is named `Label`, trimmed. |
| Grouping.ContributionsWithoutSpoiler | src/scripts/scrape-data/post-parse.ts:489-497 | Without spoiler members the title gains exactly its non-Text members, in order. |
| Grouping.MemberTextsCount | src/scripts/scrape-data/post-parse.ts:478-497 | The number of Text members plus the number of other members is the number of members: each member is counted once, either as a part of the title's text or as a non-Text member. |
| Grouping.ParseGroupData | src/scripts/scrape-data/post-parse.ts:459-500 | `parseGroupData` returns its title rewritten with the slice up to the next title index (or the end) as members. |
| Grouping.NonTextContributions | src/scripts/scrape-data/post-parse.ts:489-497 | The `forEach` pushes add, member after member, the spoilers' children and the other non-Text members. |
| Grouping.RewriteValidAt | src/scripts/scrape-data/post-parse.ts:434-445 | After the `parseGroupData` calls, each title position holds its title rewritten with the members up to the next title or the end. Every other position is unchanged. |
| Grouping.MergeBackAtGeneric | src/scripts/scrape-data/post-parse.ts:449-451 | After `pairUp`, a Generic element keeps everything but its children, which `pairUp` rewrites in turn. |
| Grouping.MergeBackAtOther | src/scripts/scrape-data/post-parse.ts:429-445 | After `pairUp`, any other element is the rewritten element at its rank among the non-Generic ones. |
| Grouping.PairUpEffectAt | src/scripts/scrape-data/post-parse.ts:425-457 | Position by position after `pairUp`: a Generic element has its children rewritten in turn; a title keeps its place and is rewritten with the members up to the next title among the non-Generic elements; every other element is unchanged. |
| Grouping.MapGroups | src/scripts/scrape-data/post-parse.ts:445 | Mapping `parseGroupData` over `indexes` returns one rewritten title per group, in order, and leaves the list rewritten as `RewriteValid` says. |
| Grouping.PairUpGenerics | src/scripts/scrape-data/post-parse.ts:449-454 | The recursion into Generic elements gives their `pairUp` results, flattened. The rewritten titles return to their places among the Generic elements, whose children are rewritten. |
| Grouping.PairUp | src/scripts/scrape-data/post-parse.ts:425-457 | `pairUp` returns the title records followed by the Generic results. Its in-place effect on the list is `PairUpEffect`. |
| Grouping.OverviewParts | src/scripts/scrape-data/post-parse.ts:256-273 | The overview keeps at most one text per child. |
| Grouping.AssociateStepKeepsPrefix | src/scripts/scrape-data/post-parse.ts:385-420 | One loop iteration changes at most the last record, and adds at most one. |
| Grouping.AssociateNames | src/scripts/scrape-data/post-parse.ts:378-423 | There are never more records than elements, and there are none exactly when the list is empty. |
| Grouping.DataMerges | src/scripts/scrape-data/post-parse.ts:394-399 | A Text element starting with a special character, met once a record exists, adds no record. It fills the last record's text only if that text is empty, and hands over its children. Earlier records are unchanged. |
| Grouping.OverviewRecord | src/scripts/scrape-data/post-parse.ts:401-407 | An overview element that is not merged becomes a new Text record named "Overview" whose text is the overview text. |
| Grouping.MemberJoinsLast | src/scripts/scrape-data/post-parse.ts:409-412 | A non-Text element that is neither merged nor an overview is appended to the last record's children. |
| Grouping.TitleOpensRecord | src/scripts/scrape-data/post-parse.ts:413-419 | Any other element opens a record named after its text, with an empty text. |
| Grouping.RecordsStable | src/scripts/scrape-data/post-parse.ts:385-420 | A record, once followed by another, is never changed again. |
| Grouping.AssociateNameToElements | src/scripts/scrape-data/post-parse.ts:378-423 | The records loop, run over the list as `pairUp` left it, equals `AssociateNames`. |
| PostParse.Supernode | src/scripts/scrape-data/post-parse.ts:62-69 | The supernode is a blank Generic element with one well-formed child per top-level node. |
| PostParse.SupernodeAt | src/scripts/scrape-data/post-parse.ts:62-69 | The supernode's i-th child is the parse of the i-th top-level node. |
| PostParse.GroupingInputShape | src/scripts/scrape-data/post-parse.ts:53-79 | The list handed to the grouping pass is well formed and pruned at every depth, with no empty element. There are at most as many records as elements in it, and none exactly when it is empty. |
| PostParse.EmptyPost | src/scripts/scrape-data/post-parse.ts:53-79 | A post without nodes yields no records. |
| PostParse.SingleNodePost | src/scripts/scrape-data/post-parse.ts:68-78 | With one top-level node, the supernode collapses into that node's element, and the records are built from that element's children. |
| PostParse.SingleTextPost | src/scripts/scrape-data/post-parse.ts:68-78 | A post that is a single text node yields no records. |
| PostParse.ParseF95ThreadPost | src/scripts/scrape-data/post-parse.ts:53-79 | The step-by-step pipeline (parse, supernode, reduce, prune, group) equals `ThreadPost`. |
| Scenarios.NoGenericMerge | src/scripts/scrape-data/post-parse.ts:429 | Without Generic elements the filter keeps the whole list, and the rewritten list is the result. |
| Scenarios.OneTitle | src/scripts/scrape-data/post-parse.ts:434-441 | A title followed by one element that is not a title gives `indexes == [0]`. |
| Scenarios.RewriteOneGroup | src/scripts/scrape-data/post-parse.ts:445 | That title is rewritten with the element as its only member, and the element stays in place. |
| Scenarios.PairUpOneGroup | src/scripts/scrape-data/post-parse.ts:425-500 | `pairUp` on `[title, member]` leaves `[rewritten title, member]`. |
| Scenarios.VersionGroup | src/scripts/scrape-data/post-parse.ts:473-497 | `Version:` with the member `1.2.3` becomes the Text element named `Version` with text `1.2.3`. |
| Scenarios.VersionField | src/scripts/scrape-data/post-parse.ts:378-423 | `Version:` then `1.2.3` yields two records, both named `1.2.3` with an empty text. |
| Scenarios.DeveloperGroup | src/scripts/scrape-data/post-parse.ts:473-497 | `Developer:` with a link becomes the Text element named `Developer`, with an empty text and the link as its child. |
| Scenarios.LinkField | src/scripts/scrape-data/post-parse.ts:378-423 | `Developer:` then a link yields one record with empty name and text whose children are the link twice. |
| Errors.CheckArgs | src/scripts/classes/errors.ts:41-44 | The checks run in order: id, then message, then error. The id check fails exactly when the id is not greater than zero (absent, zero, `NaN`, negative, `-Infinity`). The message check fails exactly when the message is absent or empty. The error check fails exactly when the error is absent. Otherwise there is no failure. |
| Errors.NewApiError | src/scripts/classes/errors.ts:38-63 | Construction fails exactly when a check fails, with that check's `ParameterError`. Otherwise the new object holds the three arguments. The outcome is the same for `BaseAPIError`, `GenericAxiosError` and `UnexpectedResponseContentType`. |
| Errors.ApiError.constructor | src/scripts/classes/errors.ts:46-49 | The fields are set to the three arguments. |
| Errors.IdBoundaries | src/scripts/classes/errors.ts:10-11 | The documented "greater than zero" is what the check enforces. 0.5 and `+Infinity` are accepted. 0, `NaN`, `-Infinity` and every negative id are refused with `INVALID_ERROR_ID`. |

## Left out

- Markup parsing, network access and the HTML library's internals are not modelled. A post is given as a tree of text and element nodes.
- `POST.SPOILER_NAME` and `POST.SPOILER_CONTENT` are CSS selectors defined in `src/scripts/constants/css-selector.ts`, which is not part of this model. They are parameters: predicates on element nodes.
- Dom.Find: the contract states only that every result is a matching element below the node, not that every match is found in document order; the body (pre-order `Descendants`, then `Select`) fixes that.
- Dom.Contents: the contract states only that the children are smaller than the node; the body returns them in document order.
- Script and comment nodes are not modelled. Only text nodes and element nodes are.
- `getCheerioNonChildrenText` follows the HTML library version the source targets: `contents()` of a text node has one (undefined) entry, so a text node's own text is used.
- `NodeParser.NonChildrenText`: the contract states the words and their boundaries, not the exact white-space characters kept between them; the function body fixes those.
- Dom.ContentsOf: the contract states only the size bound; the body concatenates the children of each selected element, in order.
- Grouping.TitleIndexes: `elements.indexOf(el)` compares objects by identity. The model uses the position of the element itself, which is what `indexOf` returns because each element object occurs once in the list.
- `toUpperCase` is modelled for ASCII letters only. Other characters are left unchanged, although JavaScript would map some of them, which could affect the "OVERVIEW" test on non-ASCII text.
- `removeEmptyContentFromElement` is only called with `recursive = true`. Its `recursive = false` branch is not modelled.
- The value model assumes Text, Link and Image elements have no children. This is proved for every tree the parser builds (`Elements.WellFormed`), and on such trees the shared-object mutations of `pairUp` and `associateNameToElements` coincide with the value semantics. Trees outside this shape are not covered.
- `Grouping.PairUp`: `pairUp`'s return value (`PairUpData`) is computed, but `associateNameToElements` discards it, so no property of it beyond its definition is proved.
- `Grouping.OverviewParts`: the contract states only the length bound; `OverviewPart` and the body state which texts are kept.
- The numeric identifier of `BaseAPIError` is a real number, or `NaN`, or one of the infinities. Double-precision rounding is not modelled.
- `InvalidF95Token`, `UserNotLogged`, `InvalidID` and `ParameterError` have no logic of their own. Only `ParameterError`'s message is modelled.
- `USER_NOT_LOGGED`, `INVALID_USER_ID`, `INVALID_POST_ID` and `INVALID_THREAD_ID` are declared as constants but are not used by the error classes.
