# Genealogy browser core, modelled in Dafny

This project models the logic of the Masssly genealogy browser, a JavaScript
application that reads people from a Wikibase SPARQL endpoint and shows them
as a searchable list, profile pages and a family tree. The model covers five
parts of the application:

- The data layer (`processSparqlResults`, `loadSampleData`). Binding rows are
  grouped into one person record per Wikibase item id. The first row of an id
  supplies the record's fields, and later rows only add aliases. The records
  come out in JavaScript's `Object.values` key order.
- The tree builder (`_buildTreeAsync`, `_getMaxDepth`, `_extractYear`, and the
  layout sizes). It does a depth-first expansion from a root person in which a
  person's parents become the children of its node; with `descendants`, the
  person's own children follow them. One visited set is shared by the whole
  traversal, and the expansion stops beyond a depth bound.
- The derived fields of the person view: `extractYear`, `calculateAge`,
  `formatBirthOrder` and `qidFromUrl`.
- The two image resolvers.
  - `ImageService.getAllPersonImages` probes `assets/<id><ext>` and then
    `assets/<id>_<i><ext>`. It memoises both per-file tests and per-person
    lists.
  - `getBestImageUrl` of the application class tries a Commons-derived URL
    first, then local assets, and memoises the result per person and size.
- The people list: the case-insensitive search filter, the "N filtered"
  badge, the empty state, and the counts shown in the profile header.

Everything is a pure function over immutable values.

- Caches are explicit state values passed in and returned.
- Whether an image loads is an oracle parameter `loads: string -> bool`.
- The tree builder's image lookup is a parameter `image: string -> Option<string>`.
- The current year used by `calculateAge` is a parameter.
- `encodeURIComponent` is a parameter `encode: string -> string`.
- JavaScript `null`/`undefined` text fields are the empty string. Every
  consumer tests them for truthiness, which treats the three alike.

Modules:

| file | module | models |
|---|---|---|
| common.dfy | Common | `Option`, duplicate-free sequences, subsequences, first-seen order |
| strings.dfy | Strings | digits, `String(n)`, `split('/').pop()`, `indexOf`/`includes`, `replace`, ASCII `toLowerCase` |
| js.dfy | Js | `trim`, truncating `%`, `parseInt` |
| dates.dfy | Dates | `extractYear`, `_extractYear`, `calculateAge`, `formatBirthOrder` |
| qid.dfy | Qid | `qidFromUrl` |
| people.dfy | People | the person record |
| objectorder.dfy | ObjectOrder | the key order of `Object.values` |
| sparql.dfy | Sparql | `processSparqlResults` and `loadSampleData` (module and application versions) |
| familytree.dfy | FamilyTree | `_buildTreeAsync`, `_getMaxDepth`, SVG sizes |
| images.dfy | Images | `ImageService` probing, caches, gallery navigation, profile counts |
| appimages.dfy | AppImages | the application's `getBestImageUrl` |
| views.dfy | Views | search filter, list badges, profile header badges |

Behaviour of the code worth noting:

- A configured tree depth of `0` is falsy in `parseInt(cfg.depth || 5)`, so it
  means depth 5, not a single node (`FamilyTree.MaxDepth`).
- The mother is always a candidate, after the father; no option leaves her
  out. She becomes a child unless she is unknown, lies beyond the depth
  bound, or was already reached, possibly through the father's subtree
  (`FamilyTree.Parents`, `FamilyTree.MotherFollows`).
- The `descendants` flag appends a person's children after the parents, at
  every level of the same traversal (`FamilyTree.Candidates`).
- `build` returns no node for a depth beyond the bound, so the nodes at the
  bound have no children (`FamilyTree.BuildTree`: the height is at most
  `MaxDepth`).

## Model

| member | source | states |
|---|---|---|
| Strings.LastSegment | modules/DataService.js:134 | `split('/').pop()` is the slash-free suffix after the last `/`, or the whole string when it has no `/` |
| Strings.Includes | modules/UIRenderer.js:152-154 | `includes` holds exactly when the pattern occurs at some position |
| Strings.ToLower | modules/UIRenderer.js:150 | lower-casing keeps the length and maps each character, leaving no upper-case ASCII letter |
| Strings.ToLowerIdempotent | modules/UIRenderer.js:150-155 | lower-casing a lower-cased string changes nothing |
| Js.Trim | app.js:267 | `trim` returns the slice left after cutting only white space from both ends, and it neither starts nor ends with white space |
| Js.Rem | modules/utils.js:141-142 | JavaScript `%` takes the sign of the dividend and has the magnitude of the remainder of the magnitudes |
| Js.ParseInt | modules/utils.js:137 | `parseInt` without radix gives `NaN` for text that is empty after white space or starts with anything but a digit or sign, and a negative number only after a `-` |
| Js.ParseIntOfNumeral | modules/utils.js:137 | `parseInt` reads back the number `String(n)` printed, whatever non-digit text follows |
| Js.ParseIntOfDigits | modules/utils.js:128 | `parseInt` of a run of decimal digits is its decimal value |
| Dates.WordYear | modules/FamilyTreeService.js:272-276 | the result is the leftmost stand-alone four-digit run, and there is none exactly when no position matches `\b\d{4}\b` |
| Dates.ExtractYear | modules/utils.js:86-96 | an empty date has no year; a `+` date yields the four characters after the sign exactly when they are digits; any other date yields the leftmost stand-alone four-digit run; the application's copy at `app.js:887-897` is the same function |
| Dates.ExtractYearMatchesTreeYear | modules/utils.js:94-95 | for dates without a leading `+`, the person view and the tree builder read the same year |
| Dates.WikibaseDateYear | modules/utils.js:89-92 | on a Wikibase time value `+YYYY-…` both readings give `YYYY` |
| Dates.SignedLongYearDiffers | modules/FamilyTreeService.js:272-276 | on `+12345` the person view reads `1234` and the tree builder reads no year |
| Dates.YearValue | modules/utils.js:128 | the number of a four-digit year is what `parseInt` returns for it |
| Dates.CalculateAge | modules/utils.js:121-132 | no birth year gives no age; otherwise birth year plus age equals the death year, or the current year when there is no death year; the age exists exactly when that difference is not negative; the application's copy at `app.js:922-933` is the same function |
| Dates.Suffix | modules/utils.js:140-142 | the suffix is always one of `st`, `nd`, `rd`, `th`, and `th` for every negative number |
| Dates.EnglishOrdinalSuffix | modules/utils.js:140-142 | the suffix table lookup gives English ordinals: `st`/`nd`/`rd` for a last digit 1/2/3 outside 11–13, otherwise `th`; a negative number always gets `th` |
| Dates.FormatBirthOrder | modules/utils.js:134-144 | the empty order stays empty, text `parseInt` cannot read is returned unchanged, and a number `n` becomes `n`, its suffix and ` born`; the application's copy at `app.js:312-322` is the same function |
| Dates.FormatBirthOrderIdempotent | modules/utils.js:134-144 | formatting an already formatted birth order changes nothing |
| Dates.FormatBirthOrderReadsBack | modules/utils.js:137-143 | `parseInt` of a formatted birth order gives back the number |
| Qid.QidFromUrl | js/utils.js:62-66 | an empty URL gives `null`; a URL ending in `/Q<digits>` gives the `Q<digits>` part; any other URL is returned unchanged |
| Qid.QidFromUrlIdempotent | js/utils.js:62-66 | applying `qidFromUrl` to its own result changes nothing |
| Qid.LastSegmentOfEntityUri | js/utils.js:64 | on an entity URI, `qidFromUrl` agrees with the data layer's `split('/').pop()` |
| ObjectOrder.KeyOrder | modules/DataService.js:159 | `Object.values` lists each key once: canonical array-index keys first in ascending numeric order, then the other keys in insertion order |
| ObjectOrder.KeyOrderWithoutIndices | modules/DataService.js:159 | without array-index keys, `Object.values` keeps insertion order |
| Sparql.SegmentOf | modules/DataService.js:140-141 | an unbound parent gives no id; a bound one gives the last URI segment |
| Sparql.NewPerson | modules/DataService.js:137-151 | the first row of an id creates the record: label or `Person <id>`, parent ids from URI segments, Wikibase URL from the id, no aliases, no image fields; the application's copy at `app.js:193-209` also carries the image and wall-photo values of that row |
| Sparql.Step | modules/DataService.js:133-157 | one row: a row without an id changes nothing; a new id is appended to the key order with a fresh record; an existing record gets the row's alias appended when it is non-empty and new; no other record changes |
| Sparql.Group | modules/DataService.js:133-157 | the grouping of the rows lists each id once, never the empty id, and holds exactly the listed ids, each under a record with that id |
| Sparql.GroupMembers | modules/DataService.js:133-136 | the grouped ids are exactly the non-empty ids of the rows |
| Sparql.GroupFirstSeen | modules/DataService.js:137-152 | the grouped ids are in the order of their first row |
| Sparql.GroupRecords | modules/DataService.js:133-157 | every record equals a reference: created from the id's first row, with aliases the distinct non-empty alias values of its rows in first-seen order |
| Sparql.FirstRowWins | modules/DataService.js:137-152 | later rows never change a record's fields other than its aliases |
| Sparql.ExpectedWellFormed | modules/DataService.js:138-151 | every record has a non-empty id and name, the Wikibase URL of its id, and distinct non-empty aliases |
| Sparql.Values | modules/DataService.js:159 | the output lists the records in `Object.values` key order, each the record stored under its id |
| Sparql.ValuesCover | modules/DataService.js:159 | every grouped record appears in the output, and no id appears twice |
| Sparql.PeopleOf | modules/DataService.js:131-161 | the output people are exactly the reference records of the rows' ids, each once, and all well formed |
| Sparql.ProcessResults | modules/DataService.js:125-162 | without bindings the two sample people are returned; otherwise the grouped people; ids are distinct and records well formed |
| Sparql.SampleData | modules/DataService.js:164-194 | the sample data are the two people `Q1` and `Q2`, without parent links, each with the Wikibase URL of its id |
| Sparql.SampleWellFormed | modules/DataService.js:164-194 | the sample people are well formed and have distinct ids |
| Sparql.ProcessedInFirstSeenOrder | modules/DataService.js:133-159 | when ids are Wikibase item ids, the people come out in the order their ids first appear |
| Sparql.VariantsAgree | app.js:180-224 | the module and application versions return the same people, apart from the application's image fields |
| Sparql.GroupOrderVariants | app.js:187-217 | both versions produce the same key order |
| Sparql.AppProcessResults | app.js:180-224 | the application stores the people and selects the first person exactly when there is one; without bindings it loads the sample and selects `Q1` |
| FamilyTree.MaxDepth | modules/FamilyTreeService.js:214 | a missing depth and depth `0` both mean 5; any other depth is kept, or raised to 0 when negative |
| FamilyTree.Lookup | modules/FamilyTreeService.js:212 | the lookup map finds a person with the id when there is one, and it is the last such person in the list |
| FamilyTree.DisplayName | modules/FamilyTreeService.js:227 | a node's name is the person's name, or the id when the name is empty |
| FamilyTree.NodeImage | modules/FamilyTreeService.js:232-239 | a node has an image exactly when images are requested and the lookup gives a non-empty URL |
| FamilyTree.Parents | modules/FamilyTreeService.js:242-245 | the parent candidates are the non-empty father and mother ids, father first |
| FamilyTree.ChildrenOf | modules/FamilyTreeService.js:254-261 | a person's children are the people naming it as father or mother, in list order |
| FamilyTree.Build | modules/FamilyTreeService.js:216-266 | no node exactly for an empty id, a visited id, a depth beyond the bound or an unknown id, and then the visited set is unchanged; otherwise a node for that id, which is now visited |
| FamilyTree.BuildFresh | modules/FamilyTreeService.js:216-266 | the ids of a built subtree were not visited before, occur once each, and are exactly what the call adds to the visited set; the subtree fits within the depth bound |
| FamilyTree.BuildWellBuilt | modules/FamilyTreeService.js:216-266 | every node of a built subtree carries its person's id, name, years and image, and its children are built in order from that person's father and mother and, with descendants, its children |
| FamilyTree.BuildList | modules/FamilyTreeService.js:248-251 | building a list of candidates only ever adds to the visited set and yields at most one node per candidate |
| FamilyTree.BuildListFresh | modules/FamilyTreeService.js:248-251 | the ids of the subtrees built for a list are new and distinct and are exactly what the loop adds to the visited set, each subtree within the bound |
| FamilyTree.BuildListWellBuilt | modules/FamilyTreeService.js:248-251 | the subtrees built for a list keep the candidates' order and are each well built |
| FamilyTree.BuildListConcat | modules/FamilyTreeService.js:247-263 | building the concatenation of two candidate lists is building the first, then the second from the visited set the first left, with the nodes in that order |
| FamilyTree.BuildListTurn | modules/FamilyTreeService.js:247-250 | a candidate that is a known person within the depth bound and not yet visited when its turn comes becomes a node of the list |
| FamilyTree.BuildChildren | modules/FamilyTreeService.js:241-265 | the children of a built node are exactly the list built from its person's candidates (father, mother, then with descendants the children) one generation deeper, after the node's own id was marked visited |
| FamilyTree.CandidateBecomesChild | modules/FamilyTreeService.js:241-265 | a candidate of a node's person that can be built one generation deeper and is not visited when its turn comes becomes a child of the node |
| FamilyTree.FatherFirst | modules/FamilyTreeService.js:243-250 | a known father within the bound that is neither the person nor already visited becomes the node's first child |
| FamilyTree.MotherFollows | modules/FamilyTreeService.js:244-250 | a known mother within the bound that is neither the person, nor visited, nor reached through the father's subtree becomes a child of the node |
| FamilyTree.DescendantFollows | modules/FamilyTreeService.js:253-263 | with descendants, a person naming the node's person as parent who can be built and is not visited when its turn comes becomes a child of the node |
| FamilyTree.BuildCloses | modules/FamilyTreeService.js:216-266 | in a built subtree, every node less deep than the bound has each of its person's known candidates in the visited set the call leaves |
| FamilyTree.BuildListCovers | modules/FamilyTreeService.js:247-263 | after building a list, every candidate that is a known person within the depth bound is in the visited set: either it was built here or it was reached before |
| FamilyTree.BuildListCloses | modules/FamilyTreeService.js:247-263 | every subtree built for a list is closed in the sense of `BuildCloses`, with respect to the visited set the list leaves |
| FamilyTree.BuildTree | modules/FamilyTreeService.js:210-269 | there is no tree exactly when the root id is empty or unknown; otherwise the root is that person, no person appears twice, the height is at most the configured depth, every node is well built, and every father, mother or (with descendants) child of a node less deep than the bound who is a known person appears somewhere in the tree |
| FamilyTree.AncestorEdges | modules/FamilyTreeService.js:242-251 | without descendants, a node has at most two children, each the father or mother of its person; with two, the father comes first |
| FamilyTree.ChildEdges | modules/FamilyTreeService.js:242-265 | every child of a node is a parent of its person or, with descendants, a person naming it as parent |
| FamilyTree.Height | modules/FamilyTreeService.js:278-282 | `_getMaxDepth` is 0 exactly for a node without children (the relation to the children's heights is `FamilyTree.HeightIsMax`) |
| FamilyTree.HeightIsMax | modules/FamilyTreeService.js:278-282 | a leaf has height 0, and an inner node is one more than its highest child |
| FamilyTree.MaxHeightIsMax | modules/FamilyTreeService.js:281 | the maximum over the children bounds each child's height and is attained by one of them |
| FamilyTree.HeightWithin | modules/FamilyTreeService.js:278-282 | the height is at most `k` exactly when no path from the root has more than `k` edges |
| FamilyTree.SvgHeight | modules/FamilyTreeService.js:37-40 | the SVG is at least 420 high and at least 120 per generation plus 40, and equals one of the two |
| FamilyTree.SvgHeightGrowth | modules/FamilyTreeService.js:40 | trees of height up to 2 get the minimum height, and from height 3 on each generation adds 120 |
| FamilyTree.ContainerWidth | modules/FamilyTreeService.js:36 | the width is at least 720, and 900 when the container reports no width |
| Images.AssetUrls | modules/ImageService.js:29-30 | the URLs tried for a file are `assets/<file><ext>` in extension order |
| Images.TestKeyInjective | modules/ImageService.js:21 | distinct file names have distinct test keys |
| Images.ProbeFrom | modules/ImageService.js:29-62 | the probe tries a prefix of the URLs, returns the last tried one when it loads, has found nothing exactly when no URL loads, and never skips one |
| Images.ProbeFindsFirst | modules/ImageService.js:29-58 | the probe's answer is the first URL that loads |
| Images.TestImage | modules/ImageService.js:20-62 | a memoised test answers without loading anything; otherwise the answer is the first existing extension, and it is memoised whether positive or negative |
| Images.TestMemoised | modules/ImageService.js:24-27 | testing the same file again loads nothing and gives the same answer |
| Images.Extras | modules/ImageService.js:75-84 | the extra-image loop leaves the person cache alone and finds at most one image per remaining index |
| Images.AllPersonImages | modules/ImageService.js:10-90 | a cached person is answered from the cache without loading; otherwise the list is computed and cached under that person only, starting with a load of `assets/<id>.jpg` |
| Images.RunContiguous | modules/ImageService.js:75-84 | the extra images are those of indices `1..k`, all existing, and index `k+1` has none unless the bound 10 is reached |
| Images.ExtrasContiguous | modules/ImageService.js:75-84 | at most 10 extra images, those of consecutive file names `<id>_1`, `<id>_2`, …, stopping at the first missing one |
| Images.AtMostElevenImages | modules/ImageService.js:65-84 | a person has at most 11 images |
| Images.MainImageOptional | modules/ImageService.js:65-72 | a missing main image does not stop the extra images from being found |
| Images.AllPersonImagesCoherent | modules/ImageService.js:10-90 | when the memoised answers agree with the assets, the result is the unmemoised image list and the caches still agree |
| Images.SecondCallProbesNothing | modules/ImageService.js:12-14 | asking again for the same person loads nothing and changes nothing |
| Images.BestImageUrl | modules/ImageService.js:93-98 | the best image is the first image, and `null` exactly when there is none |
| Images.BestIsMainOrFirstExtra | modules/ImageService.js:93-98 | the best image is the main image when it exists, else the first extra image |
| Images.ClearCache | modules/ImageService.js:249-253 | clearing leaves both caches empty |
| Images.ClearedCoherent | modules/ImageService.js:249-253 | after clearing, every answer follows the current assets |
| Images.ClearThenReprobe | modules/ImageService.js:249-253 | after clearing, the next request loads again, starting with the main `.jpg` |
| Images.GalleryNext | modules/ImageService.js:200-203 | "next" stays within the gallery and wraps from the last image to the first |
| Images.GalleryPrev | modules/ImageService.js:195-198 | "previous" stays within the gallery and wraps from the first image to the last |
| Images.GalleryPrevNextInverse | modules/ImageService.js:195-203 | "previous" undoes "next" and "next" undoes "previous" |
| Images.NextPressesWrap | modules/ImageService.js:200-203 | `k ≤ n` presses of "next" advance by `k` with wrap-around, and `n` presses return to the start |
| Images.ProfileImages | modules/UIRenderer.js:240-242 | the profile image is the first image, or `null` when there is none, and the extra count is one less than the number of images |
| Images.ProfileAgreesWithBest | modules/UIRenderer.js:240-242 | the profile image is the best image, and the extra count is the number of images after it |
| AppImages.CommonsCandidate | app.js:264-279 | a `File:` value becomes the FilePath URL of its encoded, trimmed name; otherwise a Commons URL becomes the FilePath URL of its last segment; the candidate is missing exactly for an empty value or one with no `File:`, no Commons host and no `http` prefix |
| AppImages.FileValueCandidate | app.js:267-269 | `File:<name>` becomes the FilePath URL of the encoded, trimmed `<name>` |
| AppImages.CacheKeyInjective | app.js:255 | for item ids, the cache key determines both the person and the size |
| AppImages.BestImageUrl | app.js:253-309 | a memoised answer, `null` included, is returned without loading; otherwise the answer is computed and memoised under that key only, and a URL returned actually loads |
| AppImages.CandidatePriority | app.js:280-302 | a loading candidate wins over every local asset; otherwise the first loading local asset in extension order wins |
| AppImages.NothingLoads | app.js:304-308 | when nothing loads, the answer is `null` and `null` is memoised |
| AppImages.SecondCallUsesCache | app.js:255-262 | a second request for the same person and size loads nothing and repeats the first answer, even if the image value or the assets changed |
| AppImages.BestImageUrlCoherent | app.js:253-309 | while each person's image value and the assets stay fixed, memoisation never changes an answer |
| Views.SomeAliasMatches | modules/UIRenderer.js:154 | true exactly when some alias contains the query, ignoring case |
| Views.FilterPeople | modules/UIRenderer.js:149-156 | the filtered list keeps the order of the people, contains only matching people, and contains every matching person; the application's copy at `app.js:585-592` is the same function |
| Views.FilterEmptyQuery | modules/UIRenderer.js:149-156 | an empty query lists everybody, in order |
| Views.FilterIdempotent | modules/UIRenderer.js:149-156 | filtering the filtered list again changes nothing |
| Views.FilterNarrowing | modules/UIRenderer.js:149-156 | a query that contains another gives a sub-list of the other's result |
| Views.MatchesIgnoresCase | modules/UIRenderer.js:150 | a query and its lower-cased form find the same people |
| Views.PeopleList | modules/UIRenderer.js:149-183 | the list shows the filtered people; the "N filtered" badge shows exactly when the query is non-empty and fewer than all people are listed; the empty state shows exactly when nobody is listed, and the search hint only with a non-empty query |
| Views.BadgeMeansSomeoneHidden | modules/UIRenderer.js:158-166 | an empty query never shows the badge, and a shown badge means some person does not match |
| Views.EmptyStateWithoutQuery | modules/UIRenderer.js:173-183 | with an empty query, the empty state shows exactly when there are no people, and never with the hint |
| Views.InterpolateAnd | modules/UIRenderer.js:269-271 | `${c && s}` renders `s` when `c` holds and the text `false` otherwise |
| Views.PhotosBadgeAsWritten | modules/UIRenderer.js:271 | the photo badge as written shows the count when it is positive and the text `false` for every count that is not |
| Views.PhotosBadgeAsWrittenShowsFalse | modules/UIRenderer.js:271 | with no image or a single image, the written badge renders `false` |
| Views.PhotosBadge | modules/UIRenderer.js:271 | the corrected badge is non-empty exactly when the count is positive |
| Views.PhotosBadgeForImages | modules/UIRenderer.js:240-242 | the corrected badge appears exactly for two or more images and shows the number of extra images |
| Views.AgeBadgeAsWritten | modules/UIRenderer.js:269 | the age badge as written shows the age when there is one and the text `false` whenever there is none |
| Views.AgeBadgeAsWrittenShowsFalse | modules/UIRenderer.js:269 | for a person without a birth date, the written badge renders `false` |
| Views.AgeBadge | modules/UIRenderer.js:269 | the corrected badge is non-empty exactly when there is an age |
| Views.AgeBadgeForDates | modules/UIRenderer.js:269 | the corrected badge is empty exactly when no age can be computed, in particular without a birth year |

## Left out

- Network access: the SPARQL fetch, the connection test and their error screens. Binding rows are the model's input, and a missing `results`/`bindings` is `None`.
- The DOM, d3 and the tree layout coordinates (`d3.tree`, zoom, links, labels). Only the SVG height and container width arithmetic are modelled.
- Real image loading with `new Image()`, its timeouts and the `?t=` cache-busting suffix. These are replaced by the oracle `loads`, fixed within one call.
- Asynchrony. The awaits in the tree builder and the image services run one after another, so the model is sequential. Overlapping calls that share a cache are not modelled.
- `formatDate`, which depends on the host's `Date` parser and locale.
- `encodeURIComponent`, modelled as the uninterpreted parameter `encode`.
- The "With Images" statistic, which filters on promises (always truthy).
- The birth-order badge of the profile header, which prints `undefined` for a missing birth order. The model does not distinguish `undefined` from the empty string.
- Inherited properties of plain objects (`constructor`, `__proto__`, …) in the grouping map. Keys are treated as fresh own properties.
- Strings.ToLower: lower-cases ASCII letters only, not the full Unicode case mapping of `toLowerCase`.
- Js.ParseInt: reads unbounded integers. It does not model the loss of precision of JavaScript numbers beyond 2^53.
- FamilyTree.BuildWellBuilt: states that every node is built from its person and its candidates in order, not that every candidate that can be built is present. That direction is stated by `FamilyTree.CandidateBecomesChild`, `FamilyTree.FatherFirst`, `FamilyTree.MotherFollows`, `FamilyTree.DescendantFollows` and, for the whole tree, `FamilyTree.BuildCloses`.
- FamilyTree.BuildListWellBuilt: states that the nodes follow the candidates in order, not that no buildable candidate is dropped. That direction is `FamilyTree.BuildListTurn`, `FamilyTree.BuildListCovers` and `FamilyTree.BuildListCloses`.
- FamilyTree.MaxDepth: covers integer depths only. A fractional or non-numeric `cfg.depth` (where `parseInt` gives `NaN` and the bound disappears) is not modelled.
- FamilyTree.NodeImage: a lookup that throws is modelled as returning no image, as the builder swallows the error.
- Images.GalleryNext, Images.GalleryPrev: require a valid current index. The gallery wires its buttons only for two or more images and starts from an index of an existing image.
- AppImages.CacheKeyInjective: holds for item ids. For arbitrary ids containing `_`, two person/size pairs can share a cache key.

## Findings

| source | as written | input that shows it | evidently intended | confidence | as-written member | corrected member |
|---|---|---|---|---|---|---|
| modules/UIRenderer.js:271 | the photo badge is interpolated as `count > 0 && badge`, which renders the word `false` in the header when the count is not positive | a person with no image or exactly one image | no photo badge at all | high (not executed) | Views.PhotosBadgeAsWritten | Views.PhotosBadge |
| modules/UIRenderer.js:269 | the age badge is interpolated as `age !== null && badge` (also at app.js line 706), which renders the word `false` when the age is unknown | a person without a birth date | no age badge at all | high (not executed) | Views.AgeBadgeAsWritten | Views.AgeBadge |
