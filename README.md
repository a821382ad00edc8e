# searchneu scrapers in Dafny

This project models the scrape-and-normalise core of the searchneu course
catalogue backend. That core lives in `backend/scrapers/classes/parsersxe`
(the registration system's parser) and `backend/scrapers/majors` (the
degree-requirement pages). The model has one module per concern:

- `Strings`, `Js`, `Wrappers`: the JavaScript operations and values the
  scrapers rely on (`trim`, `toLowerCase`, `includes`, number to text,
  truthiness, `o[k]`), and a mutable object class `Js.JsObject`.
- `TableDecoder` (util.js): `parseTable`. The header cells are read and
  uniquified with `uniquify`, then each body row is zipped into an
  object keyed by the header keys.
- `Subjects`: `createSubjectsAbbreviationTable` and `subjectLookup`.
- `Prereqs`: `serializePrereqs`, a class whose shared row index drives
  the recursive `parsePrereqs`, and `serializeCoreqs`.
- `SectionDetails`: what is done to one section record.
  - `stripSectionDetails`, `containsHonors` and `spreadPromisedObjects`.
  - `serializeSeats` with `extractSeatsFromDom`, and `extractTextFromDom`.
  - `copySectionAsClass`.
- `Aggregator`: `collapseSameCourses`, the in-place deduplication of
  sections into course records by content hash.
- `BannerRequests`: the page requests of `requestsSectionsForTerm`, the
  merge of their answers, and `processSubjectListResponse`.
- `Terms`: `renameKey`, `determineSubCollegeName` and
  `serializeTermsList`, which edit the term objects in place.
- `MeetingRetry`: the decision logic of `retryMeetingTimes`.
- `CourseTable` (parseCourseTable.js): the two course regular expressions
  and the row parser.
- `Requirements` (parseRequirements.js): the section guesser, the
  section splitter at each `h2`, and `parseSection`.

The parts that change objects in place are imperative:

- `serializeTermsList`, `renameKey`, `stripSectionDetails` and
  `collapseSameCourses` are methods over `Js.JsObject`, with `modifies`
  frames.
- The loops are `while`/`for` loops with invariants.

Each method is proved against a function of its inputs and of the old
state. The properties the code promises are lemmas about those functions.

JavaScript numbers are modelled as integers. Where the code and its own
comments or messages disagree, the model follows the code:

- The meeting-time retry looks at up to seven responses: the first one,
  then one more for each try counter 0 to 5. The comment above
  `retryMeetingTimes` (searchResultsParser.js:231) says it tries again "up
  to 5 times", and the message it logs (searchResultsParser.js:242) speaks
  of "5 failed attempts".
- The retry delay is `1 + Math.round(Math.random() * 500)`, and
  `setTimeout` reads it as milliseconds. The log message calls it seconds.
- `prereqs` and `coreqs` are set on a class whenever the value is truthy
  (searchResultsParser.js:159-164). A requisite group is an object, and an
  object is always truthy, so an empty group is set as well.
- `doesNthElementMatch(n, …)` holds only when element n is the FIRST
  element that matches.
- The seat map of `serializeSeats` starts out holding the label texts.
  A failed lookup that is not a `NotFoundError` leaves the label in place.
  The model has no such failure.

## Model

| member | source | states |
|---|---|---|
| Strings.Trim | backend/scrapers/classes/parsersxe/util.js:47 | `trim` never lengthens the text; what it cuts and keeps is stated by Strings.TrimSpec |
| Strings.TrimSpec | backend/scrapers/classes/parsersxe/util.js:47 | `trim` removes only white space from either end, and the result neither starts nor ends with white space |
| Strings.StripWhitespace | backend/scrapers/classes/parsersxe/util.js:47-48 | `replace(/\s/gi, '')` leaves no white space, and an all-white-space text becomes empty |
| Strings.ToLower | backend/scrapers/classes/parsersxe/util.js:47 | lower-casing keeps the length and maps each character on its own |
| Strings.Contains | backend/scrapers/classes/parsersxe/bannerv9Parser.js:273 | `includes` holds exactly when the pattern occurs at some position |
| Strings.NatToStringInjective | backend/scrapers/classes/parsersxe/util.js:18-21 | different numbers append different texts (`value + append`) |
| Js.Get | backend/scrapers/classes/parsersxe/bannerv9Parser.js:260 | reading a missing property gives `undefined`, and a present one gives its value |
| TableDecoder.CellTexts | backend/scrapers/classes/parsersxe/util.js:58-60 | a row's cell texts are no more than its child nodes |
| TableDecoder.CellTextsIgnoresNonCells | backend/scrapers/classes/parsersxe/util.js:5-7 | a node that is not a `th`/`td` tag adds nothing wherever it stands, and a cell adds exactly its text |
| TableDecoder.TakenBound | backend/scrapers/classes/parsersxe/util.js:16-21 | the suffix search of `uniquify` cannot pass \|set\| + 1, so its loop ends |
| TableDecoder.FirstFreeSuffix | backend/scrapers/classes/parsersxe/util.js:17-20 | the `append` the loop stops at is free, every smaller one is taken, and it is at most \|set\| + 1 |
| TableDecoder.Uniquified | backend/scrapers/classes/parsersxe/util.js:15-24 | the result of `uniquify` is never in the set, and a free value is returned unchanged |
| TableDecoder.UniquifiedSmallestSuffix | backend/scrapers/classes/parsersxe/util.js:16-21 | a taken value gets the smallest positive number that makes it free |
| TableDecoder.Uniquify | backend/scrapers/classes/parsersxe/util.js:15-24 | the `while` loop of `uniquify` computes exactly that value |
| TableDecoder.UniqueKeys | backend/scrapers/classes/parsersxe/util.js:46-52 | the reduce gives one key per header; distinctness is TableDecoder.UniqueKeysDistinct and key i is TableDecoder.UniqueKeyAt |
| TableDecoder.UniqueKeysDistinct | backend/scrapers/classes/parsersxe/util.js:46-52 | after the reduce, no two header keys are equal |
| TableDecoder.UniqueKeyAt | backend/scrapers/classes/parsersxe/util.js:49-50 | key i is header i uniquified against the keys pushed before it |
| TableDecoder.UniquifyTakenOnce | backend/scrapers/classes/parsersxe/util.js:16-21 | a value taken once gets the suffix 1 |
| TableDecoder.RepeatedKey | backend/scrapers/classes/parsersxe/util.js:46-52 | a repeated header becomes the header, then the header followed by 1 |
| TableDecoder.HeaderKeys | backend/scrapers/classes/parsersxe/util.js:44-52 | one key per header cell; distinctness is TableDecoder.HeaderKeysDistinct |
| TableDecoder.HeaderKeysDistinct | backend/scrapers/classes/parsersxe/util.js:44-52 | the header keys of any header row are pairwise distinct |
| TableDecoder.TwoBlankHeaders | backend/scrapers/classes/parsersxe/util.js:47-49 | two blank header cells give the keys '' and '1', the two parenthesis columns of the prerequisite table |
| TableDecoder.ZipObject | backend/scrapers/classes/parsersxe/util.js:65 | a zipped row has no key outside the header keys; all of them are present by TableDecoder.ZipObjectKeys and key i's value is TableDecoder.ZipObjectAt |
| TableDecoder.ZipObjectKeys | backend/scrapers/classes/parsersxe/util.js:65 | a zipped row has exactly the header keys |
| TableDecoder.ZipObjectAt | backend/scrapers/classes/parsersxe/util.js:65 | with distinct keys, key i maps to value i, or to `undefined` when the row is short |
| TableDecoder.HeaderRowKeys | backend/scrapers/classes/parsersxe/util.js:44-52 | the reduce over the header cells yields the header keys |
| TableDecoder.ParseTable | backend/scrapers/classes/parsersxe/util.js:31-68 | anything but one `table` gives [], a table without rows gives [], otherwise one object per body row, in order, keyed by the first row |
| TableDecoder.DecodedRowAt | backend/scrapers/classes/parsersxe/util.js:58-65 | in every decoded row, header key i holds the row's i-th cell text, or `undefined` |
| Subjects.AbbreviationTable | backend/scrapers/classes/parsersxe/searchResultsParser.js:534-547 | the last subject's description always has an entry; the key set is Subjects.AbbreviationTableKeys and the codes are Subjects.FirstCodeWins and Subjects.NoCodeYet |
| Subjects.AbbreviationTableKeys | backend/scrapers/classes/parsersxe/searchResultsParser.js:532-549 | the table has an entry for each decoded description and for no other |
| Subjects.CreateSubjectsAbbreviationTable | backend/scrapers/classes/parsersxe/searchResultsParser.js:532-549 | the forEach builds exactly the abbreviation table |
| Subjects.FirstCodeWins | backend/scrapers/classes/parsersxe/searchResultsParser.js:538-546 | a description maps to the first non-empty code given for it, and later codes only warn |
| Subjects.NoCodeYet | backend/scrapers/classes/parsersxe/searchResultsParser.js:538-546 | a description that never got a non-empty code holds an empty code or nothing |
| Subjects.SubjectLookup | backend/scrapers/classes/parsersxe/searchResultsParser.js:507-513 | a lookup succeeds exactly when the stored code is truthy, and then returns that code |
| Subjects.LookupFindsFirstCode | backend/scrapers/classes/parsersxe/searchResultsParser.js:507-549 | a description resolves exactly when some subject gave it a non-empty code, and it resolves to the first such code |
| Prereqs.Field | backend/scrapers/classes/parsersxe/searchResultsParser.js:461-462 | a missing column reads as `undefined` |
| Prereqs.RowLeaf | backend/scrapers/classes/parsersxe/searchResultsParser.js:474-476 | a row with a test stands for the test, and any other row for its course with the resolved subject code |
| Prereqs.ParseLoop | backend/scrapers/classes/parsersxe/searchResultsParser.js:456-503 | the loop always yields a group and moves the row index forward, never past the end |
| Prereqs.Nested | backend/scrapers/classes/parsersxe/searchResultsParser.js:479-485 | the nested group keeps its connective and has the opening row's requisite in front |
| Prereqs.PrereqParser.ParsePrereqs | backend/scrapers/classes/parsersxe/searchResultsParser.js:456-503 | the `while` loop with its recursive calls returns the group of `ParseLoop` and leaves the shared row index where `ParseLoop` ends |
| Prereqs.PrereqParser.ReadRow | backend/scrapers/classes/parsersxe/searchResultsParser.js:460-490 | one row read updates the connective, the parsed values and the shared index, and reports a right parenthesis |
| Prereqs.SerializePrereqs | backend/scrapers/classes/parsersxe/searchResultsParser.js:450-505 | the prerequisite tree is the parse from row 0 with connective "and" |
| Prereqs.ParseKeepsLeaves | backend/scrapers/classes/parsersxe/searchResultsParser.js:456-503 | the leaves of a parsed group are the values before it followed by the content rows it read, in row order: none lost, none repeated |
| Prereqs.PrereqLeaves | backend/scrapers/classes/parsersxe/searchResultsParser.js:450-505 | the whole tree holds exactly the requisites of the content rows it read, in order |
| Prereqs.ParseCountsGroups | backend/scrapers/classes/parsersxe/searchResultsParser.js:479-485 | each row that opens a parenthesis yields exactly one nested group |
| Prereqs.NoClosingReadsAll | backend/scrapers/classes/parsersxe/searchResultsParser.js:491-502 | without a right parenthesis the parse reads to the last row |
| Prereqs.NoParensIsFlat | backend/scrapers/classes/parsersxe/searchResultsParser.js:486-489 | a table without parentheses gives one flat group of the content rows' requisites |
| Prereqs.NextOwnRow | backend/scrapers/classes/parsersxe/searchResultsParser.js:478-485 | the next row of a group lies after the current one, past any nested group it opens, and never past the end |
| Prereqs.OwnRows | backend/scrapers/classes/parsersxe/searchResultsParser.js:459-497 | the rows a group's own loop reads lie between its first row and the end |
| Prereqs.ParseKind | backend/scrapers/classes/parsersxe/searchResultsParser.js:458-468 | a group's connective is decided by its own rows alone, read in order from the connective it starts with; nested groups do not change it |
| Prereqs.KindAfterNone | backend/scrapers/classes/parsersxe/searchResultsParser.js:466-468 | rows without an `and/or` cell leave the connective as it was |
| Prereqs.KindAfterLast | backend/scrapers/classes/parsersxe/searchResultsParser.js:466-468 | the connective is the lower-cased `and/or` cell of the last row that has one |
| Prereqs.PrereqKind | backend/scrapers/classes/parsersxe/searchResultsParser.js:456-504 | the tree's connective is the lower-cased `and/or` of the last of its own rows that has one, and "and" when none has |
| Prereqs.NestedExample | backend/scrapers/classes/parsersxe/searchResultsParser.js:479-485 | rows A, (And B, Or C) give {and, [A, {or, [B, C]}]} |
| Prereqs.CoreqValues | backend/scrapers/classes/parsersxe/searchResultsParser.js:430-442 | there are at most as many corequisites as rows |
| Prereqs.SerializeCoreqs | backend/scrapers/classes/parsersxe/searchResultsParser.js:415-448 | the corequisites form an "and" group of the resolving rows' courses |
| Prereqs.CoreqValuesMembers | backend/scrapers/classes/parsersxe/searchResultsParser.js:431-442 | a value is a corequisite exactly when it is the course of a resolving row, and each has a non-empty code from the table |
| Prereqs.CoreqsAreFlat | backend/scrapers/classes/parsersxe/searchResultsParser.js:444-447 | no corequisite is itself a group |
| SectionDetails.ContainsHonors | backend/scrapers/classes/parsersxe/searchResultsParser.js:168-175 | true exactly when some attribute contains "honors", ignoring case |
| SectionDetails.SectionUrl | backend/scrapers/classes/parsersxe/searchResultsParser.js:119-120 | the URL starts with the schedule system's detail page and the term |
| SectionDetails.SectionUrlDeterminesCrn | backend/scrapers/classes/parsersxe/searchResultsParser.js:119-120 | within a term, two sections with the same URL show the same CRN text |
| SectionDetails.Stripped | backend/scrapers/classes/parsersxe/searchResultsParser.js:118-127 | the record gets `url` and `honors` and loses the four class-level keys, and every other key is kept |
| SectionDetails.StrippedHasNoClassKeys | backend/scrapers/classes/parsersxe/searchResultsParser.js:122-125 | none of the deleted keys is left |
| SectionDetails.StripSectionDetails | backend/scrapers/classes/parsersxe/searchResultsParser.js:118-127 | the record is changed in place into the stripped record |
| SectionDetails.MergeAll | backend/scrapers/classes/parsersxe/searchResultsParser.js:95-98 | the last object's keys all hold its values; the full key set is SectionDetails.MergeAllKeys and each value is SectionDetails.MergeAllLastWins |
| SectionDetails.MergeAllKeys | backend/scrapers/classes/parsersxe/searchResultsParser.js:95-98 | the merged object has exactly the keys of the detail objects |
| SectionDetails.MergeAllLastWins | backend/scrapers/classes/parsersxe/searchResultsParser.js:96-98 | `Object.assign` in order: a key holds its value from the last object that has it |
| SectionDetails.SpreadPromisedObjects | backend/scrapers/classes/parsersxe/searchResultsParser.js:94-111 | the details merged, then the update time, CRN, term, subject and host of the search result |
| SectionDetails.FirstMatch | backend/scrapers/classes/parsersxe/searchResultsParser.js:372-377 | the index found lies in the DOM array; that it is the first labelled node is SectionDetails.FirstMatchSpec |
| SectionDetails.FirstMatchSpec | backend/scrapers/classes/parsersxe/searchResultsParser.js:372-377 | the lookup finds the first node labelled with the key, or reports that none is |
| SectionDetails.FirstMatchIsFirst | backend/scrapers/classes/parsersxe/searchResultsParser.js:372-376 | the first labelled node is the one found |
| SectionDetails.FirstMatchNone | backend/scrapers/classes/parsersxe/searchResultsParser.js:378 | with no labelled node, nothing is found |
| SectionDetails.ExtractSeatsFromDom | backend/scrapers/classes/parsersxe/searchResultsParser.js:370-379 | `NotFoundError` exactly when no node has the trimmed key, and otherwise `parseInt` of the trimmed next text after the first such node |
| SectionDetails.SeatFieldsDistinct | backend/scrapers/classes/parsersxe/searchResultsParser.js:316-323 | the four seat fields have distinct names |
| SectionDetails.SerializeSeats | backend/scrapers/classes/parsersxe/searchResultsParser.js:314-341 | the seat map has exactly the four fields, each the count for its label, and 0 when the label is missing |
| SectionDetails.SeatMapFields | backend/scrapers/classes/parsersxe/searchResultsParser.js:324-339 | the map filled field by field holds each field's count under its name |
| SectionDetails.ReadSeatFields | backend/scrapers/classes/parsersxe/searchResultsParser.js:324-339 | the `for … of` loop fills every field with its count |
| SectionDetails.ExtractTextFromDom | backend/scrapers/classes/parsersxe/searchResultsParser.js:387-404 | `null` exactly when no node has the key, and otherwise what follows the first such node |
| SectionDetails.ReqToJson | backend/scrapers/classes/parsersxe/searchResultsParser.js:474-501 | a test becomes a string, and a course or group an object |
| SectionDetails.SetIfTruthy | backend/scrapers/classes/parsersxe/searchResultsParser.js:159-164 | a value is set exactly when it is truthy |
| SectionDetails.CopySectionAsClass | backend/scrapers/classes/parsersxe/searchResultsParser.js:138-166 | the class starts with no CRNs and takes the description; `classAttributes`, `classId`, `name`, `lastUpdateTime`, `maxCredits`, `minCredits`, `termId`, `host` and `subject` are the section's values under those keys; `url` and `prettyUrl` are the catalogue URLs of its term, subject and course number; prereqs/coreqs are set exactly when they are truthy |
| SectionDetails.ClassUrl | backend/scrapers/classes/parsersxe/searchResultsParser.js:150-151 | the class-listing URL starts with the catalogue prefix and ends with `&schd_in=%` |
| SectionDetails.PrettyUrl | backend/scrapers/classes/parsersxe/searchResultsParser.js:147-148 | the course-detail URL starts with the catalogue's detail prefix |
| SectionDetails.ClassUrlsDetermineClassId | backend/scrapers/classes/parsersxe/searchResultsParser.js:147-151 | for one term and subject, equal class URLs, or equal detail URLs, show equal course numbers |
| SectionDetails.ClassIgnoresSection | backend/scrapers/classes/parsersxe/searchResultsParser.js:142-158 | two sections that agree on the copied keys give the same class, whatever their CRNs |
| Aggregator.FirstSeen | backend/scrapers/classes/parsersxe/bannerv9Parser.js:231-238 | the indices of first occurrences are in range and increasing |
| Aggregator.FirstSeenExactly | backend/scrapers/classes/parsersxe/bannerv9Parser.js:233 | section i is copied exactly when its hash was not seen before it |
| Aggregator.FirstSeenDistinct | backend/scrapers/classes/parsersxe/bannerv9Parser.js:233-237 | no two copied sections share a hash |
| Aggregator.FirstSeenCovers | backend/scrapers/classes/parsersxe/bannerv9Parser.js:231-238 | every section's hash is the hash of some copied section |
| Aggregator.FirstSeenOnePerHash | backend/scrapers/classes/parsersxe/bannerv9Parser.js:231-238 | the description is fetched at most once per hash and at least once for each hash present |
| Aggregator.IndicesWith | backend/scrapers/classes/parsersxe/bannerv9Parser.js:245-247 | the sections with a given hash, in order |
| Aggregator.CrnsAtIndices | backend/scrapers/classes/parsersxe/bannerv9Parser.js:245-247 | the CRNs pushed to a class are those of its sections, in section order |
| Aggregator.ClassOfSection | backend/scrapers/classes/parsersxe/bannerv9Parser.js:245-247 | every section belongs to exactly one class |
| Aggregator.Tagged | backend/scrapers/classes/parsersxe/bannerv9Parser.js:232 | each section gets its hash under `hash` |
| Aggregator.Picks | backend/scrapers/classes/parsersxe/bannerv9Parser.js:235 | the promised hashes are the hashes of the copied sections |
| Aggregator.Copies | backend/scrapers/classes/parsersxe/bannerv9Parser.js:236 | the promised descriptions are copies of the copied sections |
| Aggregator.WithCrns | backend/scrapers/classes/parsersxe/bannerv9Parser.js:246 | pushing CRNs appends them and leaves the rest of the class alone |
| Aggregator.WithCrnsTwice | backend/scrapers/classes/parsersxe/bannerv9Parser.js:246 | pushing in two rounds is pushing once |
| Aggregator.CollapsedClass | backend/scrapers/classes/parsersxe/bannerv9Parser.js:225-250 | class c is the copy of the first section with that hash and holds the CRNs of all its sections, in order |
| Aggregator.CollapseSameCourses | backend/scrapers/classes/parsersxe/bannerv9Parser.js:225-250 | the sections are tagged in place, one description is fetched per first occurrence, and the classes are the collapsed classes |
| Aggregator.FirstHashesDistinct | backend/scrapers/classes/parsersxe/bannerv9Parser.js:233-235 | the promised hashes are pairwise distinct |
| Aggregator.TaggedHashes | backend/scrapers/classes/parsersxe/bannerv9Parser.js:232-235 | every tagged section carries its hash and CRN, and its hash is among the promised ones |
| Aggregator.ValuesGathered | backend/scrapers/classes/parsersxe/bannerv9Parser.js:249 | `Object.values` of the table, in insertion order, are the gathered classes |
| Aggregator.CopyOncePerHash | backend/scrapers/classes/parsersxe/bannerv9Parser.js:231-238 | the first forEach tags every section and copies exactly the first section of each hash |
| Aggregator.TagSection | backend/scrapers/classes/parsersxe/bannerv9Parser.js:232 | `details.hash = …` changes only that section |
| Aggregator.CopyStep | backend/scrapers/classes/parsersxe/bannerv9Parser.js:233-237 | one turn of the forEach keeps the seen set, the copied indices and both promise lists in step |
| Aggregator.IndexByHash | backend/scrapers/classes/parsersxe/bannerv9Parser.js:241-243 | the table maps each promised hash to its description and holds nothing else |
| Aggregator.PushCrns | backend/scrapers/classes/parsersxe/bannerv9Parser.js:245-247 | each class gets the CRNs of its sections appended, and no key is added |
| BannerRequests.PageCount | backend/scrapers/classes/parsersxe/bannerv9Parser.js:158-163 | the fewest pages of 500 that hold `totalCount` results, and 0 for a count of 0 or less |
| BannerRequests.PageRequests | backend/scrapers/classes/parsersxe/bannerv9Parser.js:162-180 | one request per page, page i at offset 500·i with size 500 |
| BannerRequests.PagesCoverOnce | backend/scrapers/classes/parsersxe/bannerv9Parser.js:163 | every result index below the total is on exactly one page |
| BannerRequests.Spread | backend/scrapers/classes/parsersxe/bannerv9Parser.js:189 | `concat` spreads an array and adds any other value as one element |
| BannerRequests.MergeChunks | backend/scrapers/classes/parsersxe/bannerv9Parser.js:184-191 | the forEach concatenates the pages' data in page order |
| BannerRequests.AllSectionsAppend | backend/scrapers/classes/parsersxe/bannerv9Parser.js:185-190 | merging two runs of pages is concatenating their merges |
| BannerRequests.SuccessIgnored | backend/scrapers/classes/parsersxe/bannerv9Parser.js:186-189 | an unsuccessful page is reported but still merged |
| BannerRequests.ProcessSubjectListResponse | backend/scrapers/classes/parsersxe/bannerv9Parser.js:205-217 | one subject per entry, in order, with the entry's code and name and the term's id and host |
| BannerRequests.StatusIgnored | backend/scrapers/classes/parsersxe/bannerv9Parser.js:206-208 | a bad status code does not change the subjects |
| Terms.DetermineSubCollegeName | backend/scrapers/classes/parsersxe/bannerv9Parser.js:272-280 | "CPS" exactly when the text has CPS, "LAW" when it has Law but not CPS, and otherwise "undergraduate" |
| Terms.StripTermKind | backend/scrapers/classes/parsersxe/bannerv9Parser.js:98 | the result is as long as the text, or shorter by the length of " Semester" or of " Quarter"; which part is cut is Terms.StripTermKindAt and Terms.StripTermKindNone |
| Terms.StripTermKindNone | backend/scrapers/classes/parsersxe/bannerv9Parser.js:98 | a text without " Semester" or " Quarter" is unchanged |
| Terms.StripTermKindAt | backend/scrapers/classes/parsersxe/bannerv9Parser.js:98 | the leftmost " Semester"/" Quarter" is the one cut out |
| Terms.StripTrailingSemester | backend/scrapers/classes/parsersxe/bannerv9Parser.js:98 | "Fall 2019 Semester" becomes "Fall 2019" |
| Terms.Renamed | backend/scrapers/classes/parsersxe/bannerv9Parser.js:259-262 | the new key holds the old key's value, the old key is gone, and the other keys are kept |
| Terms.RenameRoundTrip | backend/scrapers/classes/parsersxe/bannerv9Parser.js:259-262 | renaming there and back restores the object |
| Terms.RenameKey | backend/scrapers/classes/parsersxe/bannerv9Parser.js:259-262 | the object is renamed in place |
| Terms.NormalizedTerm | backend/scrapers/classes/parsersxe/bannerv9Parser.js:92-103 | `code` and `description` become `termId` and `text`, and the host is neu.edu |
| Terms.NormalizedTermKeys | backend/scrapers/classes/parsersxe/bannerv9Parser.js:92-103 | the normalised term has the old keys less `code` and `description`, plus `termId`, `text` and `host`, plus `subCollegeName` exactly when it is not undergraduate |
| Terms.NormalizedTermText | backend/scrapers/classes/parsersxe/bannerv9Parser.js:96-101 | an undergraduate term loses its kind word, and any other keeps its text and gets its sub-college |
| Terms.NormalizedTermKeepsOthers | backend/scrapers/classes/parsersxe/bannerv9Parser.js:93-95 | every other key of the term is kept |
| Terms.SerializeTermsList | backend/scrapers/classes/parsersxe/bannerv9Parser.js:91-104 | each term object is normalised in place, and the same objects are returned in order |
| Terms.NormalizeTerm | backend/scrapers/classes/parsersxe/bannerv9Parser.js:92-103 | the map callback turns one term into its normalised record |
| MeetingRetry.RetryDelay | backend/scrapers/classes/parsersxe/searchResultsParser.js:247 | the delay lies between 1 and 501 milliseconds; it decides only when the next request is sent, and how the attempts end (MeetingRetry.Run) does not depend on it |
| MeetingRetry.Run | backend/scrapers/classes/parsersxe/searchResultsParser.js:236-264 | a run looks at between 1 and 7 responses |
| MeetingRetry.RunDelivers | backend/scrapers/classes/parsersxe/searchResultsParser.js:237-240 | the first accepted response is delivered after looking at the responses up to it, and a 200 with no body throws |
| MeetingRetry.RunGivesUp | backend/scrapers/classes/parsersxe/searchResultsParser.js:241-246 | an endpoint that never answers properly is asked seven times, then the callback gets `null` |
| MeetingRetry.RunOutcomes | backend/scrapers/classes/parsersxe/searchResultsParser.js:236-264 | a delivered body came from an accepted response, and the run gives up exactly when all seven failed |
| MeetingRetry.MeetingTimes | backend/scrapers/classes/parsersxe/searchResultsParser.js:236-264 | with every retry awaited, the meeting times come from at most seven responses |
| MeetingRetry.RecoversAfterRedirect | backend/scrapers/classes/parsersxe/searchResultsParser.js:248-263 | a 302 followed by a good answer delivers that answer |
| MeetingRetry.RetryAsWritten | backend/scrapers/classes/parsersxe/searchResultsParser.js:260-262 | the retry as written also looks at 1 to 7 responses |
| MeetingRetry.AsWrittenNeverRecovers | backend/scrapers/classes/parsersxe/searchResultsParser.js:260-262 | as written, a first response that is not accepted always ends in `null` |
| MeetingRetry.RedirectThenAnswer | backend/scrapers/classes/parsersxe/searchResultsParser.js:260-262 | on a 302 and then a good answer, the corrected retry delivers and the code as written gives up |
| CourseTable.SingleEndingAt | backend/scrapers/majors/parseCourseTable.js:11-14 | a match has a non-empty subject and course number that fit before the end |
| CourseTable.ExtractSingleCourse | backend/scrapers/majors/parseCourseTable.js:10-17 | a match has a non-empty subject and course number that fit in the text; its meaning is CourseTable.SingleSound, CourseTable.SingleComplete and CourseTable.SingleRoundTrip |
| CourseTable.SingleSound | backend/scrapers/majors/parseCourseTable.js:11-14 | a match is a maximal run of capitals, a space and digits ending the text, and its groups are those parts |
| CourseTable.SingleComplete | backend/scrapers/majors/parseCourseTable.js:11-14 | whenever the pattern matches the end of the text, the function finds it, with the longest subject |
| CourseTable.SingleRoundTrip | backend/scrapers/majors/parseCourseTable.js:10-17 | "… MATH 1341" gives back subject MATH and number 1341 |
| CourseTable.ExtractCourseRange | backend/scrapers/majors/parseCourseTable.js:19-29 | a range match has a non-empty subject and two numbers that fit in the text; its meaning is CourseTable.RangeSound, CourseTable.RangeComplete and CourseTable.RangeRoundTrip |
| CourseTable.RangeSound | backend/scrapers/majors/parseCourseTable.js:20-26 | a range match is two course codes joined by " to " at the end of the text, and its fields are the first subject and both numbers |
| CourseTable.RangeComplete | backend/scrapers/majors/parseCourseTable.js:20-26 | whenever the range pattern matches, the function finds it |
| CourseTable.RangeRoundTrip | backend/scrapers/majors/parseCourseTable.js:19-29 | "… CS 1000 to CS 1999" gives back CS, 1000 and 1999 |
| CourseTable.ParseCourseRow | backend/scrapers/majors/parseCourseTable.js:31-34 | a row is its course when the pattern matches, and otherwise "couldn't parse " and its text |
| CourseTable.ParseCourseTable | backend/scrapers/majors/parseCourseTable.js:37-39 | one result per row, in order |
| CourseTable.UnparsedKeepsText | backend/scrapers/majors/parseCourseTable.js:33 | the message of an unparsed row determines its text |
| Requirements.FirstMatch | backend/scrapers/majors/parseRequirements.js:14 | the first element that matches the selector, or the length when none does |
| Requirements.DoesNthElementMatch | backend/scrapers/majors/parseRequirements.js:13-15 | true exactly when element n matches and no earlier one does |
| Requirements.SecondMatchesAfterHeader | backend/scrapers/majors/parseRequirements.js:34 | after a header that is not a course list, the second element is checked on its own |
| Requirements.GuessSectionType | backend/scrapers/majors/parseRequirements.js:23-45 | ignored or course list when exactly one guess holds, and unknown when none or both hold |
| Requirements.ElementText | backend/scrapers/majors/parseRequirements.js:64-70 | the text of an h2, h3, p or ul element in any case, and "unknown tag" otherwise |
| Requirements.ParseSection | backend/scrapers/majors/parseRequirements.js:63-71 | one text per element, in order |
| Requirements.TagCaseIgnored | backend/scrapers/majors/parseRequirements.js:66 | an "H2" is kept and a "TABLE" is unknown |
| Requirements.ParseSectionAppend | backend/scrapers/majors/parseRequirements.js:63-71 | parsing distributes over concatenation |
| Requirements.ReplaceNbsp | backend/scrapers/majors/parseRequirements.js:75 | every no-break space becomes a space and every other character is kept |
| Requirements.ReplaceNbspClean | backend/scrapers/majors/parseRequirements.js:75 | no no-break space is left, and a second replacement changes nothing |
| Requirements.ReplaceNbspKeepsClean | backend/scrapers/majors/parseRequirements.js:75 | a body without no-break spaces is unchanged |
| Requirements.IsH2Lower | backend/scrapers/majors/parseRequirements.js:80 | an element is an h2 exactly when its lower-cased tag is "h2" |
| Requirements.H2Positions | backend/scrapers/majors/parseRequirements.js:80 | the h2 positions are increasing, each is an h2, and every h2 is among them |
| Requirements.Sections | backend/scrapers/majors/parseRequirements.js:80-82 | one section per h2; their shape is Requirements.SectionsShape and Requirements.SectionOf |
| Requirements.SectionsShape | backend/scrapers/majors/parseRequirements.js:80-82 | each section starts with its h2 and holds no other h2 |
| Requirements.SectionOf | backend/scrapers/majors/parseRequirements.js:80-82 | every element after the first h2 is in the section of the last h2 before it, at its offset |
| Requirements.ParseRequirements | backend/scrapers/majors/parseRequirements.js:74-86 | one parsed section per h2 of the cleaned body, in order |
| Requirements.ParsedSectionsOpenWithHeader | backend/scrapers/majors/parseRequirements.js:80-85 | each parsed section is non-empty and opens with its h2's text |

## Left out

- HTTP requests, cookies and caching are not modelled. Responses and page
  answers are parameters.
- `promiseMap` (util.js:70-97) is not modelled. Neither is the concurrency
  of `Promise.all` or `setTimeout`. Everything runs in order, and the
  resolved values are parameters.
- `serializeClassDetails` and `serializeAttributes` are not modelled: they
  read the page through cheerio selectors. The attribute list is assumed to
  be a list of strings.
- The orchestration methods (`main`, `mostDetails`, `getSeats` and the
  other request wrappers, `requestSubject`) only send requests and combine
  their answers.
- HTML parsing is a parameter. This covers `cheerio.load(text).text()`
  (the `decode` of `Subjects`), `he.decode`, the requirement container's
  elements, and the DOM arrays as lists of labelled nodes. The
  `find('h2')` search is modelled on a flat element list, so h2 elements
  nested inside other elements are not.
- `Keys.getClassHash` is a parameter (`hashOf`), and so is the fetch of a
  class description and its requisites (`fetch`).
- `Date.now()`, `Math.random()` and `parseInt` are parameters.
- JavaScript objects are modelled as unordered maps from string keys
  (`Js.JsObject.props` and the `map` values). Key order is not modelled.
  The one place the code reads that order is `Object.values` in
  `collapseSameCourses`. There the order is carried by the list of promised
  hashes, and `Aggregator.ValuesGathered` takes the values in that list's
  order. This relies on hashes not being array-index-like keys, which
  JavaScript would enumerate first. There are no prototype keys.
- Numbers are integers, so floating point is not modelled. The NaN that
  `parseInt` gives for a text without digits is modelled
  (`SectionDetails.Parsed.NotANumber`) and ends up in the seat map.
- ToLower changes only the ASCII letters: Unicode case mapping is not
  modelled.
- Aliasing: the section and term methods require distinct objects in their
  lists.
- Logging through `macros.error`, `macros.warn` and `macros.log` is left
  out. That includes the range subject mismatch in `extractCourseRange`
  and the seats error that is not a `NotFoundError`.
- A `totalCount` that is `undefined` is not modelled: the count is an
  integer (a comparison with `undefined` is false, which matches a count
  of 0).
- `SectionDetails.StripSectionDetails` requires the attribute list to be a
  list of strings. `containsHonors` would throw on any other value.
- Terms.NormalizedTerm, Terms.NormalizeTerm and Terms.SerializeTermsList
  require a string description. For a term without one, `renameKey` sets
  `text` to `undefined` (bannerv9Parser.js:259-262), and
  `determineSubCollegeName` then throws a TypeError at `termDesc.includes`
  (bannerv9Parser.js:273). The model does not model that throw.
- The numeric values of `sectionTypes` are not modelled: the section type
  is a datatype, and nothing in the core reads it as a number.
- CourseTable.ExtractSingleCourse: its own ensures only bounds the match.
  The regular-expression meaning is in `CourseTable.SingleSound`,
  `CourseTable.SingleComplete` and `CourseTable.SingleRoundTrip`.
- CourseTable.ExtractCourseRange: its own ensures only bounds the match.
  The meaning is in `CourseTable.RangeSound`, `CourseTable.RangeComplete`
  and `CourseTable.RangeRoundTrip`.
- Terms.StripTermKind: its own ensures only gives the possible lengths.
  What is cut out is in `Terms.StripTermKindAt` and
  `Terms.StripTermKindNone`.
- Strings.Trim: its own ensures only bounds the length. The meaning is in
  `Strings.TrimSpec`.
- SectionDetails.FirstMatch: its own ensures only bounds the index. The
  meaning is in `SectionDetails.FirstMatchSpec`.
- SectionDetails.MergeAll: its own ensures covers only the last object. Its keys and values are in
  `SectionDetails.MergeAllKeys` and `SectionDetails.MergeAllLastWins`.
- Subjects.AbbreviationTable: its own ensures covers only the last subject. Its keys and values are
  in `Subjects.AbbreviationTableKeys`, `Subjects.FirstCodeWins` and
  `Subjects.NoCodeYet`.
- TableDecoder.UniqueKeys: its own ensures only gives the length.
  Distinctness is in `TableDecoder.UniqueKeysDistinct`.
- TableDecoder.HeaderKeys: its own ensures only gives the length.
  Distinctness is in `TableDecoder.HeaderKeysDistinct`.
- TableDecoder.ZipObject: its own ensures bounds only the keys. Its keys and values are in
  `TableDecoder.ZipObjectKeys` and `TableDecoder.ZipObjectAt`.
- Requirements.Sections: its own ensures only gives the number of
  sections. Their shape is in `Requirements.SectionsShape` and
  `Requirements.SectionOf`.

## Findings

| source | as written | input that shows it | evidently intended | confidence | as-written member | corrected member |
|---|---|---|---|---|---|---|
| backend/scrapers/classes/parsersxe/searchResultsParser.js:261 | the retry stores the promise `request.get(requestConfig)` as the previous response, so every retry sees a value with no status code | a first response with status 302, then a good 200 answer | the retry awaits the request and checks its response | not executed | MeetingRetry.RetryAsWritten | MeetingRetry.MeetingTimes |
