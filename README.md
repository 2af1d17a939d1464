# Nearby suburbs and page helpers, modelled in Dafny

This project models the data-processing core of a static real-estate site generator.

- **Cache builder** (`nearby-cacher.js`). For every location record `{nme, lat, lng}` it ranks every other record by distance and keeps the names of the nearest `length`. It emits one `{name: [nearby names]}` entry per record, in record order.
- **Older selection variant** (`nearby.js`). It builds the same kind of list by repeatedly taking the smallest remaining distance. It then maps the chosen distances back to positions and the positions to suburb names.
- **Geocoder name handling** (`geocoder.js`). This covers the line and word splitting of the address file, the part of an address before its first comma, and the record built from a geocoding answer.
- **Page-generator string helpers** (`page-gen/gen.js`):
  - file names, title case and `{{tag}}` templating;
  - the removal of a leading "the" from suburb names;
  - footer link lists and breadcrumbs;
  - the lookup of a suburb's nearby list in the cache.

Modules:

- `Wrappers`: `Option`.
- `Seqs`: Ramda's `reject(equals(x))`, filtering by a set of values, and `take`.
- `Geo`: the geolib coordinate object and the distance function's type.
- `JsStrings`: the JavaScript string operations the helpers rely on:
  - ASCII case maps, the `\s` class and the line terminators;
  - `split`/`join`;
  - a global replace of a literal pattern;
  - Ramda's `reduce(concat, "")`.
- `NearbyCacher`, `Nearby`, `Geocoder`, `PageGen`: one module per source file.

The distance (`geolib.getDistance`) is a function parameter of type `(LatLng, LatLng) -> nat`. Nothing is assumed about it. The suburb table that `nearby.js` loads with `require` is a parameter too.

In `nearby.js`, `Math.min` of an empty list is `Infinity`. It is modelled by the datatype `Num = Fin(val) | Infinity`, and `indexOf` of `Infinity` gives `-1`.

The loops of the source (`otherSuburbsArr`, `cacher`, `distToAll`, `arrMinsArr`, `indexMinsArr`, `suburbsMinsArr`) are methods with loop invariants. Each is proved against a specification function or predicate. The Ramda pipelines and string helpers are functions with lemmas.

## Model

| member | source | states |
|---|---|---|
| Seqs.Without | nearby-cacher.js:47-49 | `reject(equals(item))` removes every copy of `item`. Each other value keeps its multiplicity, the length drops by the number of copies, and membership is exactly "in the input and not `item`" |
| Seqs.WithoutConcat | nearby-cacher.js:47-49 | filtering distributes over concatenation, so the kept elements stay in input order |
| Seqs.WithoutAbsent | nearby-cacher.js:47-49 | nothing is removed from a list that does not hold `item` |
| Seqs.Take | nearby-cacher.js:87 | `take(n)` has length `min(n, s.length)` and is a prefix of `s` |
| NearbyCacher.InsertPermutes | nearby-cacher.js:52 | one insertion step of the sort adds exactly the inserted pair to the multiset |
| NearbyCacher.InsertSorted | nearby-cacher.js:52 | insertion keeps a list sorted by distance |
| NearbyCacher.PairsSecondSort | nearby-cacher.js:52 | `sortBy(x => x[1])` returns a permutation of its input that is sorted by the second component |
| NearbyCacher.PairsToFirst | nearby-cacher.js:55 | the projection keeps length and order and returns each pair's name |
| NearbyCacher.OtherSuburbs | nearby-cacher.js:70-80 | one `[nme, dist(other, item)]` pair per record of `Without(item, obj)`, in order |
| NearbyCacher.OtherSuburbsArr | nearby-cacher.js:70-80 | the `forEach`/`push` loop returns `obj.length - #copies of item` pairs, the k-th being the name and distance of the k-th other record |
| NearbyCacher.NearbyLength | nearby-cacher.js:83-89 | `nearbySuburbsArr` has length `min(length, obj.length - #copies of item)` |
| NearbyCacher.NearestFirst | nearby-cacher.js:83-89 | the names are the first ones of a ranking whose distances never decrease. Every pair left out is at least as far as every name returned |
| NearbyCacher.RankedRecords | nearby-cacher.js:70-89 | the ranking holds a pair for every record not structurally equal to `item`, and only such pairs |
| NearbyCacher.SelfExcluded | nearby-cacher.js:47-49 | when no other record shares `item`'s name, that name is never returned |
| NearbyCacher.SameNameKept | nearby-cacher.js:47-49 | a different record with the same name is not excluded and, when the list is long enough, its name is returned |
| NearbyCacher.CacheOf | nearby-cacher.js:92-101 | one entry per record, in record order, keyed by the record's name and holding its nearby list |
| NearbyCacher.Cacher | nearby-cacher.js:92-101 | the loop emits exactly `obj.length` entries. Entry i is `{obj[i].nme: nearbySuburbsArr(obj[i], length, obj)}` |
| Nearby.GetSuburbFromName | nearby.js:36-41 | `filter(propEq('text', name))[0]`: nothing iff no record has that text, otherwise the first record with it |
| Nearby.Distances | nearby.js:69-78 | one distance per element of `data`, in order, measured from the origin |
| Nearby.DistToAll | nearby.js:69-78 | the loop returns one distance per element of `data`, the i-th from the named suburb to `data[i]` |
| Nearby.OtherSuburbsData | nearby.js:59-66 | the table without every copy of the named suburb's record, or the whole table when the name is unknown (`reject(equals(undefined))`) |
| Nearby.DistancesToOthers | nearby.js:81-83 | `distToOthers` ignores its `data` argument and measures from the named suburb to every other record |
| Nearby.DistToOthers | nearby.js:81-83 | the method computes `DistancesToOthers` |
| Nearby.ArrMin | nearby.js:86-88 | `Math.min`: `Infinity` iff the list is empty, otherwise a member of the list that no element undercuts |
| Nearby.ArrWithoutItem | nearby.js:96-98 | every occurrence of the value is removed and every other value keeps its multiplicity |
| Nearby.IndexOf | nearby.js:137 | `indexOf` is -1 iff the value is absent (or `Infinity`), otherwise the first position holding it |
| Nearby.TakenStep | nearby.js:109-118 | one loop round takes a fresh value larger than all taken ones and removes all its copies |
| Nearby.MinsStep | nearby.js:109-118 | pushing the new minimum keeps the pushed values strictly increasing and equal to the taken set |
| Nearby.SelectionStep | nearby.js:109-118 | each round of the selection loop preserves the loop invariant, including rounds on an exhausted list that push `Infinity` |
| Nearby.SelectedMinima | nearby.js:109-118 | from any state satisfying the invariant, the remaining rounds produce increasing distinct minima |
| Nearby.SelectionLoop | nearby.js:106-120 | the seeded run starts with the overall minimum, pushes it again, then strictly increasing distinct distances; `Infinity` appears only once the distinct values are used up |
| Nearby.ArrMinsArr | nearby.js:106-120 | returns `length + 1` values. The first is the minimum of `distToOthers`, and the second equals it. From index 1 on, each value is a member of the distances, the values strictly increase, and no unlisted distance lies below a listed one. Once the distinct distances run out, the values are `Infinity` |
| Nearby.IndexesOfMinima | nearby.js:131-141 | `indexOf` of increasing distinct minima gives pairwise-distinct first positions whose values are those minima |
| Nearby.IndexMinsArr | nearby.js:131-141 | the loop from index 1 returns `length` indices. Each is the first position in `distToOthers` of the matching minimum, and the found positions are pairwise distinct. Once the distinct distances run out, `indexOf(Infinity)` gives -1, possibly more than once |
| Nearby.SuburbsMinsArr | nearby.js:144-152 | one name per index, in order, namely `suburbsData[idx].text` |
| Nearby.NearbySuburbsArr | nearby.js:155-160 | given at least `length` distinct distances, `length` names, each the full table's entry at an index chosen in the list without the suburb |
| Nearby.OthersShift | nearby.js:64-66 | removing the suburb's only record shifts every later record down by one position |
| Nearby.NearbyListsItself | nearby.js:144-160 | on a three-record table whose nearest other record is the first after the suburb, the as-written code lists the suburb itself |
| Nearby.NearbySuburbsArrFixed | nearby.js:144-160 | with names taken from the list the indices were computed on, every name belongs to a record other than the suburb, at the nearest-first indices |
| Geocoder.Lines | geocoder.js:31 | `split("\n")` gives at least one piece and no piece holds a newline |
| Geocoder.Words | geocoder.js:34 | `split(" ")` gives at least one piece and no piece holds a space |
| Geocoder.LinesRoundTrip | geocoder.js:31 | joining the lines with newlines gives the string back, and there is one more line than newlines. Splitting a join of newline-free lines gives those lines |
| Geocoder.WordsRoundTrip | geocoder.js:34 | the same round trip and count for words and spaces |
| Geocoder.BeforeComma | geocoder.js:37 | the result is a comma-free prefix that stops at the end or at a comma |
| Geocoder.BeforeCommaFixed | geocoder.js:37 | a comma-free string is returned whole, and `beforeComma` is idempotent |
| Geocoder.HandleResponse | geocoder.js:60-70 | no record on an error, otherwise exactly one |
| Geocoder.RecordNamesQuery | geocoder.js:58-70 | the whole line is sent as the address. The record's `nme` is `beforeComma` of the line: a comma-free prefix that stops at the end of the line or at its first comma (the whole line when it has no comma). The coordinates are the service's |
| JsStrings.LowerStr | page-gen/gen.js:153 | `toLowerCase` maps each character and keeps the length |
| JsStrings.LowerStrConcat | page-gen/gen.js:153 | lower-casing distributes over concatenation |
| JsStrings.LowerStrLower | page-gen/gen.js:153 | a lower-cased string holds no capital, and lower-casing is idempotent |
| JsStrings.JoinSplit | geocoder.js:31-34 | `split(sep)` followed by `join(sep)` is the identity |
| JsStrings.SplitJoin | geocoder.js:31-34 | `join(sep)` of separator-free pieces followed by `split(sep)` gives the pieces back |
| JsStrings.SplitConcat | page-gen/gen.js:163 | splitting `a + sep + b` gives the pieces of `a` followed by the pieces of `b` |
| JsStrings.SplitCount | geocoder.js:31-34 | `split` gives one more piece than there are separators |
| JsStrings.ArrToStrAppend | page-gen/gen.js:193 | `reduce(concat, "")` of a concatenation is the concatenation of the two reductions |
| JsStrings.ReplaceAbsent | page-gen/gen.js:212 | a global replace leaves a string without the pattern unchanged |
| JsStrings.ReplaceFirst | page-gen/gen.js:212 | the leftmost occurrence is replaced and the scan resumes after it |
| JsStrings.ReplaceLength | page-gen/gen.js:505-511 | a replacement no longer than the pattern never lengthens the string, and one of equal length keeps it |
| JsStrings.ReplaceKeepsTail | page-gen/gen.js:505-511 | a tail without the pattern's last character is kept as it is |
| PageGen.SpacesToHyphens | page-gen/gen.js:137 | each white-space character becomes `-` and every other character is kept |
| PageGen.SpacesToHyphensNoSpace | page-gen/gen.js:137 | the result holds no white space, and hyphenating again changes nothing |
| PageGen.Capitalize | page-gen/gen.js:140-144 | the regex replace keeps the length and changes each character at most to its upper case. Which characters it upper-cases is stated by `CapitalizeAt`. A run of separators is consumed two characters at a time, so `"a  b"` gives `"A  b"` and `"a   b"` gives `"A   B"` |
| PageGen.CapitalizeAt | page-gen/gen.js:141-143 | past the first position, a character after a non-separator is copied. A character that is not a line terminator is upper-cased when it follows a separator that itself follows a non-separator, or a separator at the start of a scan not at the beginning of the string |
| PageGen.TitleCase | page-gen/gen.js:140-144 | `toTitleCase`: the lower-cased string passed to the replacement scan. Its properties are stated by `TitleCaseShape`, `TitleCaseAt` and `TitleCaseIdempotent` |
| PageGen.TitleCaseAt | page-gen/gen.js:140-144 | the character after a white space or hyphen that follows a non-separator is upper-cased unless it is a line terminator, and every character after a non-separator is lower-cased |
| PageGen.TitleCaseShape | page-gen/gen.js:140-144 | `toTitleCase` keeps the length, changes letters only in case, and upper-cases the first character unless it is a line terminator |
| PageGen.TitleCaseIdempotent | page-gen/gen.js:140-144 | `toTitleCase` is idempotent |
| PageGen.FilenameShape | page-gen/gen.js:153 | `filenameMake(n)` is the lower-cased hyphenated name followed by `.html`, is `n.length + 5` long, and holds no capital and no white space |
| PageGen.StrToArr | page-gen/gen.js:161-170 | no element is empty or holds a newline |
| PageGen.StrToArrRoundTrip | page-gen/gen.js:161-170 | the elements concatenate to the string without its newlines. Joining any newline-free lines with newlines and converting back gives exactly the non-empty ones, in order and with their multiplicity (all of them when none is empty). Since every string is such a join (`JoinSplit`), this fixes the result on every input, a trailing newline included |
| PageGen.StrToArrConcat | page-gen/gen.js:161-170 | the lines of `a + "\n" + b` are the lines of `a` followed by the lines of `b`, so `"a\nb\n"` gives `["a", "b"]` |
| PageGen.DropEmptyConcat | page-gen/gen.js:164-169 | the filter distributes over concatenation, so the kept strings keep their order and multiplicity |
| PageGen.FilterTags | page-gen/gen.js:212 | a template without `{{a}}` is unchanged. The first `{{a}}` is replaced and the rest is filled after it. Filling in the tag itself changes nothing, a sanity property of the replace that no call of `filter` exercises |
| PageGen.TheToLowerAt | page-gen/gen.js:502 | exactly the `T` that starts a `The` becomes `t`, and the length is kept |
| PageGen.TheToLowerNoThe | page-gen/gen.js:502 | no `The` is left and the length is kept |
| PageGen.NoTheShape | page-gen/gen.js:505-511 | `noThe` never lengthens a string and returns unchanged one with none of its four patterns |
| PageGen.NoTheKeepsTail | page-gen/gen.js:505-511 | a tail without spaces or hyphens passes through `noThe` unchanged |
| PageGen.HrefShape | page-gen/gen.js:357-366 | every link target is lower case and ends with `.html` |
| PageGen.Links | page-gen/gen.js:357-366 | one list item per area, in order |
| PageGen.ArrToLinksShape | page-gen/gen.js:357-366 | the items are joined with single spaces, and no areas give the empty string |
| PageGen.AddUlIgnoresId | page-gen/gen.js:369-370 | as written, every id gives `<ul >` with no id attribute |
| PageGen.AddUlFixedKeepsId | page-gen/gen.js:369-370 | the corrected list starts with `<ul id="…"` for a non-empty id, and different ids give different lists |
| PageGen.Intersperse | page-gen/gen.js:542-543 | `intersperse` of n > 0 elements has 2n - 1 entries |
| PageGen.IntersperseAt | page-gen/gen.js:542-543 | the elements sit at the even positions in order, and the separator at every odd position |
| PageGen.IntersperseConcat | page-gen/gen.js:542-551 | concatenating an interspersed list gives the head, then each later element preceded by the separator |
| PageGen.FooterBreadcrumbsShape | page-gen/gen.js:524-551 | `footerBreadcrumbsMake(cs)` is the opening tag and home link, then the separator and crumb for each crumb, then the closing tag. The interspersed list, before the closing tag is appended, has `2 * cs.length + 1` entries |
| PageGen.GetNearbyArr | page-gen/gen.js:495-497 | nothing iff no cache entry has the key, otherwise the value of the first entry that has it |
| PageGen.LookupByName | page-gen/gen.js:495-497 | on a cache keyed by the records' names in record order, a name is found iff a record has it, and the first such record's entry is returned |
| PageGen.NearbyArrOfCache | nearby-cacher.js:92-101 | on the cacher's output, looking a name up gives `nearbySuburbsArr` of the first record with that name, and nothing for a name no record has |
| NearbyCacher.CoordObj | nearby-cacher.js:60-62 | `coordObj`: the geolib `{latitude, longitude}` object of a coordinate pair; used by `Dist` |
| NearbyCacher.Dist | nearby-cacher.js:65-67 | `dist`: the distance function applied to the two coordinate objects; its use is stated by `OtherSuburbs` |
| NearbyCacher.DistTo | nearby-cacher.js:76 | the distance from another record to `item`, in the argument order of line 76; used by `OtherSuburbs` and `RankedRecords` |
| NearbyCacher.Insert | nearby-cacher.js:52 | one insertion step of the stable sort; stated by `InsertPermutes` and `InsertSorted` |
| NearbyCacher.Ranked | nearby-cacher.js:84-86 | the other suburbs' pairs sorted by distance; stated by `RankedRecords` and `NearestFirst` |
| NearbyCacher.NearbySuburbsArr | nearby-cacher.js:83-89 | `nearbySuburbsArr`: the names of the ranking, the first `length` of them; stated by `NearbyLength`, `NearestFirst`, `SelfExcluded` and `SameNameKept` |
| Nearby.GetCoords | nearby.js:44-46 | `getCoords`: the geolib object of a suburb's `lat` and `long`; used by `Distances` |
| JsStrings.Lower | page-gen/gen.js:141 | ASCII `toLowerCase` of one character; stated by `LowerStr` and `LowerStrLower` |
| JsStrings.Upper | page-gen/gen.js:142 | ASCII `toUpperCase` of one character; used by `CapitalizeAt` and `TitleCaseAt` |
| JsStrings.IsSpace | page-gen/gen.js:137 | the regular-expression class `\s`; used by `SpacesToHyphens` and `CapitalizeAt` |
| JsStrings.IsLineTerminator | page-gen/gen.js:141 | the characters the regular-expression `.` does not match; used by `CapitalizeAt` |
| JsStrings.Split | geocoder.js:31-34 | `split(sep)` on one character: at least one piece and no piece holds the separator; round trips in `JoinSplit` and `SplitJoin` |
| JsStrings.Join | geocoder.js:31-34 | `join(sep)`, the inverse of `Split` by `JoinSplit` and `SplitJoin` |
| JsStrings.ArrToStr | page-gen/gen.js:193 | `arrToStr`, `reduce(concat, "")`; stated by `ArrToStrAppend` |
| JsStrings.ReplaceAll | page-gen/gen.js:212 | a global replace of a literal pattern, scanning from the left; stated by `ReplaceAbsent`, `ReplaceFirst`, `ReplaceLength` and `ReplaceKeepsTail` |
| PageGen.FilenameMake | page-gen/gen.js:153 | `filenameMake`; stated by `FilenameShape` |
| PageGen.DropEmpty | page-gen/gen.js:164-169 | `filter(compose(not, isEmpty))`: the non-empty strings; no element is empty and membership is kept for non-empty strings. Order and multiplicity are stated by `DropEmptyConcat` |
| PageGen.Tag | page-gen/gen.js:212 | the template tag `{{key}}` |
| PageGen.Filter | page-gen/gen.js:212 | `filter(a, b)`: every `{{a}}` replaced by `b`; stated by `FilterTags` |
| PageGen.TheToLower | page-gen/gen.js:502 | `theToLower`; stated by `TheToLowerAt` and `TheToLowerNoThe` |
| PageGen.NoThe | page-gen/gen.js:505-511 | `noThe`, the four replacements in order; stated by `NoTheShape` and `NoTheKeepsTail` |
| PageGen.Href | page-gen/gen.js:361 | the link target `toLower(path + noThe(filenameMake(x)))`; stated by `HrefShape` |
| PageGen.LinkOf | page-gen/gen.js:359-364 | one list item of `arrToLinks`; used by `Links` |
| PageGen.ArrToLinks | page-gen/gen.js:357-366 | `arrToLinks`: the list items joined with spaces; stated by `ArrToLinksShape` |
| PageGen.AddUl | page-gen/gen.js:369-370 | `addUl` as written, with `id === true` false for every string id; stated by `AddUlIgnoresId` |
| PageGen.AddUlFixed | page-gen/gen.js:369-370 | `addUl` with an id attribute for a non-empty id; stated by `AddUlFixedKeepsId` |
| PageGen.FooterUl | page-gen/gen.js:373 | `footerUl`: `addUl` of the links |
| PageGen.Opener | page-gen/gen.js:538-539 | `footerBreadcrumbsOpener`: the opening tag and home link prepended; used by `FooterBreadcrumbsShape` |
| PageGen.Closer | page-gen/gen.js:540 | `footerBreadcrumbsCloser`: the closing tag appended; used by `FooterBreadcrumbsShape` |
| PageGen.FooterBreadcrumbsMake | page-gen/gen.js:545-551 | `footerBreadcrumbsMake`; stated by `FooterBreadcrumbsShape` |
| Geocoder.RequestFor | geocoder.js:58-59 | the request `{address: item}`; stated by `RecordNamesQuery` |

## Left out

- `geolib.getDistance` is a foreign library doing floating-point great-circle arithmetic. It is a parameter with no assumed properties, not even symmetry or zero distance to oneself.
- Coordinates are `real`. NaN, negative zero and floating-point rounding are not modelled.
- `suburbCoords` and `dist` in `nearby.js` (lines 49-56) are inlined into `Distances`. `getCoords` is the `GetCoords` function; its contract is its record shape.
- `indexOfMin`, `getSuburbFromIndex` and `getIndex` in `nearby.js` are never called by the modelled pipeline and are not modelled.
- `output` and `distFromSuburbs` in `nearby.js` (lines 19-31) are console and test helpers that nothing in the pipeline calls. They are not modelled.
- `Nearby.NearbySuburbsArr`: it requires at least `length` distinct distances. With fewer, `indexOf(Infinity)` is -1 and `suburbsData[-1].text` throws a TypeError, which the model does not reproduce.
- `Nearby.DistToAll`: it requires the named suburb to exist when `data` is non-empty. Otherwise `getCoords(undefined)` throws.
- `Geocoder.HandleResponse`: the Google Maps client, the request callbacks, their completion gate and the order in which answers arrive are network I/O and concurrency. Each answer is modelled as a value, and a successful answer is assumed to hold at least one result.
- File reads and writes, `JSON.parse`/`JSON.stringify` text, command-line flags, timers and console logging are left out. The cache is modelled as the list of entries it encodes.
- `PageGen.GetNearbyArr`: `R.prop` also finds names inherited through the object prototype (such as `constructor`). The model only sees the entries' own keys. A missing name, where the source yields `undefined`, is `None`.
- `JsStrings.LowerStr`: `toLowerCase`/`toUpperCase` are modelled on ASCII letters only. Characters outside ASCII keep their case.
- `PageGen.Filter`: the key is assumed to be a plain identifier, because it is spliced unescaped into a regular expression. The value is assumed to hold no `$` replacement patterns.
- The page-emitting main loop of `page-gen/gen.js` is I/O over templates and the file system and is not part of this model. The same holds for `ranItem`/`ranArr`, `keyArrShuffle`, `dateFormat`, `arrToList`/`arrToCommas`, `templateGet` and the breadcrumb makers.
- `page-gen/contexts.js`, `contexts2.js`, `generators.js`, `gen2.js`, `data-paths.js`, `gen-config.js` and `utilities.js` are not part of this model.

## Findings

| source | as written | input that shows it | evidently intended | confidence | as-written member | corrected member |
|---|---|---|---|---|---|---|
| nearby.js:144-160 | the indices come from the distance list without the suburb but are used on the full table, so every record after the suburb's own position is read one place too early | table `A(0,0), B(1,0), C(2,0)` where `B` is nearest to `A`: the nearby list of `A` is `["A"]` | read the names from the same list the indices were computed on (`otherSuburbsData`) | not executed | Nearby.NearbyListsItself | Nearby.NearbySuburbsArrFixed |
| page-gen/gen.js:369-370 | `id === true` is false for every string id, so no list gets an `id` attribute | `addUl("footer-buy", h)` and `addUl("footer-sell", h)` are both `"<ul >" + h + "</ul>"` | emit `id="…"` for a non-empty id | not executed | PageGen.AddUlIgnoresId | PageGen.AddUlFixedKeepsId |
