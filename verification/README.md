# Duty catalog: list logic of the FFXIV duty guide

This project models the list logic of a small catalog of game duties
(dungeons, trials and raids). It covers three parts.

- **Editor** (`src/app/edit/page.tsx`). The editor's list operations:
  - sorting by id and filtering by type;
  - editing one field of a record;
  - adding a blank record with the next id;
  - removing a record and renumbering the rest;
  - the id lookup that maps a displayed record back to its position;
  - the tag text box, which shows tags joined by `", "` and reads them back
    by splitting on `,` and trimming.
- **Browse page** (`src/app/page.tsx`). The browse page combines the three
  per-type sources, sorts them by id, applies the `?type=` query filter, and
  passes the list through unchanged when the search text is blank.
- **Loaders** (`src/lib/dutylogic.ts` and `src/lib/dutydetaillogic.ts`). The two
  library loaders of dungeons and trials, and the slug lookup built on the
  second one.

Every operation is a pure Dafny function of its inputs. A fetched source is a
`Fetched` value: `Loaded(records)` or `Unavailable`. The fuzzy search is a
function parameter.

Layout, one module per file:

- `wrappers.dfy`: `Option`.
- `seqs.dfy`: `Filter`, `FirstIndex`, `DropAt` and their algebra. These are
  JavaScript's `filter`, `findIndex`/`find`, and filter-by-position.
- `text.dfy`: ECMAScript `trim`, `split` on one character, `join`, and
  `toLowerCase`.
- `duties.dfy`: the record type `IDuty` as `Duty`.
- `sorting.dfy`: sorting by id.
  - `IsStableSortOf` is the specification: the result is sorted by id and
    keeps, for every id, the relative order of the records with that id.
    `Array.prototype.sort` has been stable since ECMAScript 2019.
  - `SortDutiesById` is an insertion sort that meets the specification.
  - `StableSortUnique` shows that every list meeting the specification equals
    `SortDutiesById`. So the model does not depend on the engine's sorting
    algorithm.
- `editor.dfy`, `browse.dfy`, `dutylogic.dfy`, `dutydetail.dfy`: the three parts
  described above.

Two behaviours of the code are worth stating plainly:

- **Renumbering after a removal is global.** `removeDuty` gives every
  surviving record the id of its position in the whole list plus one,
  whatever its type (src/app/edit/page.tsx:130-133;
  `Editor.RemoveRenumbersAcrossTypes`).
- **Each loader handles a failed source in its own way:**
  - the browse page catches the error and keeps its previous list
    (src/app/page.tsx:37-39; `Browse.LoadData`);
  - `dutylogic.ts` catches it and returns an empty list
    (src/lib/dutylogic.ts:18-20; `DutyLogic.LoadDuties`);
  - `dutydetaillogic.ts` has no catch, so its promise rejects
    (`DutyDetail.GetDutyBySlug` gives `LoadFailed`).

## Model

| member | source | states |
|---|---|---|
| Duties.TypeName | src/types/IDuty.ts:6 | each duty type is spelled by a non-empty string |
| Duties.TypeNameInjective | src/types/IDuty.ts:6 | two duty types have the same spelling exactly when they are the same type |
| Seqs.Filter | src/app/edit/page.tsx:49 | `filter` keeps exactly the elements that pass the test and never lengthens the list |
| Seqs.FilterCount | src/app/edit/page.tsx:49 | `filter` keeps every occurrence of an element that passes and none of one that fails |
| Seqs.FilterConcat | src/app/edit/page.tsx:49 | filtering a concatenation is the concatenation of the filtered parts, so order is kept |
| Seqs.FirstIndex | src/app/edit/page.tsx:162 | `findIndex`: -1 exactly when nothing matches; otherwise the position of a match with no earlier match |
| Seqs.FirstIndexConcat | src/lib/dutydetaillogic.ts:9-14 | the first match in `a + b` is the first match in `a`, or else `a`'s length plus the first match in `b` |
| Seqs.DropAt | src/app/edit/page.tsx:127 | dropping by position removes exactly that element, and removes nothing when the index is outside the list |
| Text.TrimFacts | src/app/edit/page.tsx:180 | `trim` never lengthens a string, keeps only its characters, leaves no white space at either end, and is empty exactly when the string is all white space |
| Text.TrimStripsPadding | src/app/edit/page.tsx:180 | `trim` removes any white space around a text that has none at its ends and returns that text |
| Text.Split | src/app/edit/page.tsx:180 | `split(",")` always gives at least one piece, and no piece holds the separator |
| Text.SplitCount | src/app/edit/page.tsx:180 | `split` gives one more piece than there are separators |
| Text.JoinSplit | src/app/edit/page.tsx:178-180 | joining the pieces of a split with the separator gives back the text |
| Text.SplitJoin | src/app/edit/page.tsx:178-180 | splitting a join of separator-free pieces gives back the pieces |
| Text.Lower | src/app/page.tsx:46 | lower-casing keeps the length and lower-cases each capital letter, leaving every other character as is |
| Sorting.SortDutiesById | src/app/edit/page.tsx:41-43 | the sort returns a permutation of its input (same length, same multiset) ordered by non-decreasing id |
| Sorting.SortIsStable | src/app/edit/page.tsx:41-43 | the sort is stable: records with equal ids keep their relative order |
| Sorting.SameOrderPerIdPermutes | src/app/edit/page.tsx:41-43 | keeping the per-id order of a list makes the result a permutation of it |
| Sorting.StableSortUnique | src/app/edit/page.tsx:41-43 | every stable sort of a list by id is the same list, whatever algorithm produced it |
| Sorting.SortSorted | src/app/edit/page.tsx:41-43 | sorting a list already sorted by id changes nothing |
| Sorting.SortIdempotent | src/lib/dutylogic.ts:10-17 | sorting a sorted result again changes nothing |
| Sorting.SortAppendGreatest | src/app/edit/page.tsx:119-120 | appending a record whose id is above every other id and then sorting gives the sorted list with that record last |
| Editor.FilterDutiesByType | src/app/edit/page.tsx:47-50 | "All" shows the list unchanged; any other selector shows exactly the records whose type is spelled like it |
| Editor.FilterDutiesByTypeExact | src/app/edit/page.tsx:47-50 | a type filter keeps list order and keeps every occurrence of a matching record |
| Editor.FilterDutiesByUnknownType | src/app/edit/page.tsx:47-50 | a selector naming no type shows nothing |
| Editor.FilterDutiesByTypeSnoc | src/app/edit/page.tsx:47-50 | one more record appends it to the view exactly when the selector shows it |
| Editor.SetField | src/app/edit/page.tsx:57-65 | the spread-and-set gives the named field the new value and keeps every other field |
| Editor.HandleDutyChange | src/app/edit/page.tsx:53-71 | an edit keeps the length and yields a stable sort by id of the list with the one record changed; the multiset loses the old record and gains the new one |
| Editor.HandleDutyChangeInPlace | src/app/edit/page.tsx:53-71 | on a list sorted by id, an edit changes that one record in place and moves nothing |
| Editor.HandleDutyChangeKeepsIds | src/app/edit/page.tsx:53-71 | an edit keeps the number of records carrying each id |
| Editor.MathMax | src/app/edit/page.tsx:108 | `Math.max` of no numbers is -Infinity; otherwise it is one of the numbers and none exceeds it |
| Editor.NewIdAsWritten | src/app/edit/page.tsx:108 | the id as written is -Infinity exactly on an empty list, and otherwise exceeds every id |
| Editor.AddDutyOnEmptyAsWritten | src/app/edit/page.tsx:107-108 | adding to an empty list gives the new record -Infinity as its id |
| Editor.NewId | src/app/edit/page.tsx:108 | the new id exceeds every id, is one above some existing id, is 1 on an empty list, and agrees with the as-written id whenever that one is finite |
| Editor.AddDuty | src/app/edit/page.tsx:107-123 | adding gives one more record: the blank Dungeon with the new id comes last, after the old list sorted by id, and the result is a stable sort of the old list plus the new record |
| Editor.AddDutyAppends | src/app/edit/page.tsx:107-123 | on a list sorted by id, adding appends the blank record and moves nothing else |
| Editor.AddDutyKeepsDistinct | src/app/edit/page.tsx:107-123 | adding keeps ids distinct |
| Editor.Renumber | src/app/edit/page.tsx:130-133 | renumbering gives the record at each position the id position + 1 and keeps everything else |
| Editor.RenumberFacts | src/app/edit/page.tsx:130-133 | renumbered records are sorted by id, have distinct ids, and differ from the originals only in their id |
| Editor.RemoveDuty | src/app/edit/page.tsx:126-138 | removing shortens the list by one exactly when the index is in range; the survivors keep their order and all fields but the id, and get ids 1, 2, 3, … |
| Editor.RemoveRenumbersAcrossTypes | src/app/edit/page.tsx:130-133 | renumbering ignores types: from Dungeon 1, Trial 1 and Dungeon 2, removing Dungeon 1 leaves Trial 1 and Dungeon 2 |
| Editor.FindIndexById | src/app/edit/page.tsx:162 | the lookup finds the first record with the id, or -1 when no record has it |
| Editor.RealIndexFindsDisplayed | src/app/edit/page.tsx:160-162 | with distinct ids, the lookup for a displayed record finds that very record |
| Editor.RealIndexMisdirected | src/app/edit/page.tsx:160-173 | with Dungeon 1 and Trial 1, the lookup for the displayed Trial lands on the Dungeon, and a title edit through it changes the Dungeon and leaves the Trial unchanged |
| Editor.DisplayedPositions | src/app/edit/page.tsx:160-162 | for each displayed record in display order, its position in the full list; the positions rise |
| Editor.RealIndexMatchesPositions | src/app/edit/page.tsx:160-162 | with distinct ids, the id lookup returns exactly the display positions |
| Editor.TrimEach | src/app/edit/page.tsx:180 | mapping `trim` over the pieces trims each piece |
| Editor.ParseTags | src/app/edit/page.tsx:180 | the tag text gives one tag more than it has commas, and each tag is trimmed and holds no comma |
| Editor.DisplayParseRoundTrip | src/app/edit/page.tsx:178-180 | a non-empty tag list with no commas and no outer white space comes back unchanged after showing and reading |
| Editor.EmptyTagsComeBackAsOneEmptyTag | src/app/edit/page.tsx:178-180 | an empty tag list shows as "" and reads back as one empty tag |
| Browse.LoadData | src/app/page.tsx:18-39 | when all three sources load, the list becomes a stable sort by id of dungeons, trials and raids in that order, with the same multiset; when any source fails, the list stays as it was |
| Browse.LoadDataSourceOrder | src/app/page.tsx:24-34 | among records with the same id, dungeons come first, then trials, then raids |
| Browse.FilterByTypeParam | src/app/page.tsx:46-54 | a missing, empty or "all" (any case) parameter leaves the list as is; any other keeps exactly the records whose type matches it ignoring case |
| Browse.LowerTypeNames | src/app/page.tsx:52 | the lower-cased type names are "dungeon", "trial" and "raid" |
| Browse.TypeParamIsCaseInsensitive | src/app/page.tsx:46-54 | a parameter naming a type in any case selects what the editor's selector of that type selects, in the same order |
| Browse.UnknownTypeParamEmpty | src/app/page.tsx:50-53 | a parameter naming no type, other than "all", yields an empty list |
| Browse.Results | src/app/page.tsx:46-65 | a blank (all white space) search shows the type-filtered list itself; any other search gives the fuzzy search of that list |
| DutyLogic.LoadDuties | src/lib/dutylogic.ts:3-22 | a failed source gives an empty list; otherwise the result is a stable sort by id of dungeons then trials, of their combined length |
| DutyLogic.LoadDutiesOnlyDungeonsAndTrials | src/lib/dutylogic.ts:5-10 | the result is exactly the dungeons and trials with their multiplicities, and never a raid |
| DutyLogic.LoadDutiesSortsOnce | src/lib/dutylogic.ts:10-17 | the second sort changes nothing: the result is one sort of the concatenation |
| DutyLogic.LoadDutiesDungeonsFirst | src/lib/dutylogic.ts:10 | among records with the same id, dungeons come before trials |
| DutyDetail.LoadDuties | src/lib/dutydetaillogic.ts:3-10 | the loader succeeds exactly when both sources do, and gives the dungeons followed by the trials, unsorted |
| DutyDetail.GetDutyBySlug | src/lib/dutydetaillogic.ts:12-15 | the lookup fails exactly when a source fails; it is null exactly when both load and no record has the slug; a found record is the first record with the slug in dungeons-then-trials order |
| DutyDetail.GetDutyBySlugPrefersDungeons | src/lib/dutydetaillogic.ts:9-14 | when a dungeon has the slug, the first such dungeon is returned, whatever the trials hold |
| DutyDetail.GetDutyBySlugThenTrials | src/lib/dutydetaillogic.ts:9-14 | when no dungeon has the slug, the first trial with it is returned |

## Left out

- Fuse.js: the fuzzy search is the parameter `fuzzy` of `Browse.Results`. Its threshold and its title/tags keys are not modelled.
- Side effects are not modelled: `fetch`, `response.json()`, `localStorage`, `JSON.stringify`, the `Blob` download (`downloadJSON`), React state and rendering, and `console.error`. Each operation is the list it computes before storing it.
- `resetToServerData` and the editor's initial load are not modelled separately. Apart from I/O, they only call `sortDutiesById` on the fetched list, which `Sorting.SortDutiesById` models.
- Concurrency is not modelled. The `Promise.all` fetches become independent `Fetched` arguments, and any rejection among them is one failure.
- Iterable JSON values that are not arrays are not modelled. A parsed source is either an array of well-formed records or `Unavailable`; a value that is not iterable makes the spread throw, and is `Unavailable`. A string source, which the spread would split into characters instead of throwing, is not modelled.
- Text.Lower: lower-cases ASCII letters only, while `toLowerCase` also maps other Unicode letters. Every comparison the page makes is against "all", "dungeon", "trial", "raid" or the empty string. No non-ASCII character lower-cases to one of the letters used there, so each comparison decides the same.
- Text.TrimFacts: strings are sequences of Unicode scalar values, not UTF-16 code units. Lone surrogates are not modelled.
- Editor.HandleDutyChange: requires an index inside the list, a value of the field's declared type, and a key other than `id`. The page only edits `title`, `tags` (always an array), `description` and `type`, at the index of a displayed record. Writing a string into `id`, or `tags` given as a string, is not modelled.
- Record ids are modelled as unbounded integers. NaN, fractional and missing ids are not modelled, and neither is the sort comparator's behaviour on them. Ids above 2^53 are not modelled either: there `Math.max(...ids) + 1` rounds and can equal the largest id, so the program's `addDuty` could repeat an id, which `Editor.AddDutyKeepsDistinct` rules out for the model.
- Editor.AddDuty: on an empty list it gives the new record the corrected id 1 (`Editor.NewId`), where the code gives -Infinity; the code's id is modelled by `Editor.NewIdAsWritten` and `Editor.AddDutyOnEmptyAsWritten`.

## Findings

| source | as written | input that shows it | evidently intended | confidence | as-written member | corrected member |
|---|---|---|---|---|---|---|
| src/app/edit/page.tsx:108 | the new id is `Math.max(...ids) + 1` | "Add New Duty" on an empty list: `Math.max()` is -Infinity, so the new record's id is -Infinity, which `JSON.stringify` stores as null | one more than the largest id, and 1 when there is none | not executed; high | Editor.AddDutyOnEmptyAsWritten | Editor.NewId |
| src/app/edit/page.tsx:162 | the displayed record's position is looked up by id with `findIndex` | the list [Dungeon id 1, Trial id 1] with the "Trial" selector: editing the shown Trial's title changes the Dungeon, and the Trial keeps its old title | the position of the displayed record itself | not executed; medium (needs a freshly loaded `/data/duties.json`, from page.tsx:20 or 88, holding repeated ids; that file is not part of this model, the list's `key={duty.id}` at line 165 suggests ids are meant to be distinct, and any `removeDuty` renumbers them apart) | Editor.RealIndexMisdirected | Editor.DisplayedPositions |
