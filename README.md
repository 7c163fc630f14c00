# A verified model of NOMAD's reference, upload, normalisation and GUI state logic

NOMAD collects materials-science data: uploads of raw files are parsed into entry
archives, normalised, published, and browsed through a web GUI. This project models the
parts of NOMAD whose behaviour is decision and string logic, and proves what they
promise:

- `context.dfy` (module `MetainfoContext`) models `nomad/datamodel/context.py`. It covers
  the two reference URL forms `parse_path` accepts, the normalised installation URL of a
  `Context`, `_normalize_fragment`, `normalize_reference`, the choice of reference string
  in `create_reference`, and the two-way archive/URL cache of `resolve_archive_url` and
  `cache_archive`.
- `urls.dfy` (module `Urls`) models the part of `urllib.parse.urlsplit`/`urlunsplit`
  those functions use.
- `uploads.dfy` (module `UploadRules`) models the rules of
  `nomad/app/v1/routers/uploads.py`: order-by validation, sort keys, read and write
  access, upload creation and raw-file range checks, the publish guards, the bundle
  settings filter and the byte counting of a streamed upload. Every rule returns an HTTP
  status or success.
- `resources.dfy` (module `Resources`) models the space-group table, `_update_dict`,
  `_components` and `_normalize_formula` of `nomad/app/resources/routers/resources.py`.
- `resource_requests.dfy` (module `ResourceRequests`) models the aflow prototype URL
  filter, the OPTIMADE query URLs, `convert_resources_to_models` and the refresh
  decision of `get_resources` from the same file.
- `system.dfy` (module `SystemNormalizer`) models `nomad/normalizing/system.py`:
  atom-label normalisation against ase's chemical-symbol table, the percentage formula,
  `atom_label_to_num`, the system type of a classification, the early returns of
  `normalize_system` and the prototype label.
- `parser.dfy` (module `Parsing`) models `nomad/parsing/parser.py`: the guard chain of
  `MatchingParser.is_mainfile` with its sibling rule, `BrokenParser.is_mainfile`, and the
  archives `Parser.main` prepares.
- `browser.dfy` (module `ArchiveBrowser`) models the archive browser lanes of
  `gui/src/components/archive/Browser.js`. `Lane` and `Browser` are classes whose fields
  the lane loop updates in place (`next`, the adaptor cache). The loop is proved against
  a pure specification `Build`.
- `filepreview.dfy` (module `FilePreview`) models viewer selection, `encodedPath`, the
  fallback states and the chunked text paging of `FilePreview.js`.
- `periodictable.dfy` (module `PeriodicTable`) models the element filter of
  `InputPeriodicTable.js`. JavaScript `Set`s are objects mutated in place, and so are the
  element buttons and the table's local copy of the filter; the grid is a 10 x 18 array.
- `searchcontext.dfy` (module `SearchState`) models `SearchContext.js`. JavaScript
  objects are modelled as ordered property lists, and the component as a class whose
  state fields the handlers replace.
- `aitoolkit.dfy` (module `AIToolkit`) models the tutorial filter, the section and label
  index, the tutorial keys and the toggles of `AIToolkitPage.js`.
- `definitioncard.dfy` (module `DefinitionCard`) models `renderName`, `isClosable` and
  the identifier marking of `renderDescription` in `DefinitionCard.js`.
- `wrappers.dfy`, `strings.dfy` and `numbers.dfy` hold shared definitions: `Option` and
  `Result`, string helpers with code-point order and a stable sort, and exact
  half-to-even rounding.

Some behaviour is modelled as the code has it, although the code may not mean it:

- `domains.js` exports no `domains`, so `domains[domain]` in `handleDomainChange` throws.
  The table is a parameter, and an absent one gives a `TypeError`.
- In `FilePreview.js` the size guard of the viewer loop compares against the preview
  limit of the viewer selected so far (the text viewer), not the candidate's.
- `Browser.js` memoises the root lane on the adaptor and url only. When the pathname
  returns to the route url, the root lane keeps the `next` of the previous render, so
  the item of the lane that is no longer shown stays selected. `Browser.Render` states
  this. It holds while the caller passes the same adaptor object: `useMemo` compares
  by identity, so a newly constructed adaptor rebuilds the root lane with no `next`.
- `Browser.js` escapes no segments and resolves adaptors synchronously: a lane's
  adaptor is the cached one or the left lane's `itemAdaptor` of the segment.

Nothing here was executed. The claims are the proved contracts listed below.

## Model

| member | source | states |
|---|---|---|
| MetainfoContext.ParsePath | nomad/datamodel/context.py:41-92 | form b is tried first and decides the result; form a is tried only when b fails and gives no installation and the caller's upload id; neither form matching gives None; a returned installation is never `''` or `..` |
| MetainfoContext.FromFormB | nomad/datamodel/context.py:73-92 | installation `''` and `..` become None; an empty upload group falls back to the caller's upload id; an archive entry starting `mainfile/` is replaced by the generated entry id; None exactly for an archive entry with `/` that does not start `mainfile/` |
| MetainfoContext.LazyToEnd | nomad/datamodel/context.py:33 | the lazy `([^?]+?)$` group ends at the end of the string or before a final newline |
| MetainfoContext.UploadIdRunEnd | nomad/datamodel/context.py:38 | the greedy `[\w=-]*` run is maximal and holds only those characters |
| MetainfoContext.FormBGroup4At | nomad/datamodel/context.py:38 | group 4 ends at the first `#` that leaves a non-empty group 5 |
| MetainfoContext.FormBUploadsShape | nomad/datamodel/context.py:38 | an `<installation>/uploads/<upload>/<kind>/<entry>#<fragment>` string matches form b with every group as written |
| MetainfoContext.FormBUploadRelativeShape | nomad/datamodel/context.py:38 | `../upload/archive/<entry>#<fragment>` matches form b with installation `..` and an empty upload group |
| MetainfoContext.ParseAbsolute | nomad/datamodel/context.py:59-92 | parse_path of an absolute reference gives back its installation, upload, entry and path |
| MetainfoContext.ParseRelativeUploads | nomad/datamodel/context.py:73-92 | `../uploads/<upload>/archive/<entry>#<path>` parses as a local reference into that upload |
| MetainfoContext.ParseRelativeUpload | nomad/datamodel/context.py:73-92 | `../upload/archive/<entry>#<path>` parses as a local reference into the caller's upload |
| MetainfoContext.StripTrailingSlash | nomad/datamodel/context.py:101-107 | no URL given means the configured API URL; otherwise at most one trailing `/` is removed |
| MetainfoContext.NormalizeInstallationUrl | nomad/datamodel/context.py:100-111 | the stored installation URL always ends with `/api/v1`; a URL already ending so, with or without one `/`, is kept; otherwise `/v1` or `/api/v1` is appended |
| MetainfoContext.NormalizeInstallationUrlIdempotent | nomad/datamodel/context.py:100-111 | normalising an already normalised installation URL changes nothing |
| MetainfoContext.Context.constructor | nomad/datamodel/context.py:100-114 | installation_url is normalised and ends with `/api/v1`; both caches start empty |
| MetainfoContext.GetIds | nomad/datamodel/context.py:120-125 | an entry archive with metadata gives its upload and entry id, anything else (None, None) |
| MetainfoContext.NormalizeFragment | nomad/datamodel/context.py:127-131 | a non-empty fragment is made to start with `/`; the empty fragment and one already starting with `/` are unchanged |
| MetainfoContext.NormalizeFragmentIdempotent | nomad/datamodel/context.py:127-131 | normalising a fragment twice is normalising it once |
| MetainfoContext.Context.CreateReference | nomad/datamodel/context.py:133-167 | within one archive `#fragment`; a cached target uses its cached URL; no metadata gives no reference; a failed assertion needs missing ids or a foreign context; every reference ends with `#fragment` |
| MetainfoContext.CreateReferenceRoundTrip | nomad/datamodel/context.py:133-167 | every reference create_reference writes to another archive parses back to the target's installation, upload, entry and fragment |
| MetainfoContext.CreateReferenceIntraArchive | tests/datamodel/test_context.py:68-95 | a reference inside one archive is `#/run/0/system/0` |
| MetainfoContext.CreateReferenceIntraUpload | tests/datamodel/test_context.py:68-95 | a reference to another entry of the same upload is `../upload/archive/<entry>#<fragment>` |
| MetainfoContext.MainfileSearch | nomad/datamodel/context.py:176 | finds the first `/archive/mainfile/` in the path and returns the rest of the path after it; None exactly when there is none |
| MetainfoContext.Context.NormalizeReference | nomad/datamodel/context.py:169-188 | an unsplittable URL fails; without a mainfile part only the fragment is normalised; an assertion can fail only on a mainfile path |
| MetainfoContext.NormalizeReferencePlain | nomad/datamodel/context.py:173-178 | a relative reference without a mainfile part changes only in its fragment |
| MetainfoContext.ReplaceMainfile | nomad/datamodel/context.py:187 | the replace of the mainfile part happens exactly once, at the end of the path |
| MetainfoContext.NormalizeReferenceMainfile | nomad/datamodel/context.py:173-188 | for a plain relative reference (no scheme, host or query), `<pre>/archive/mainfile/<m>` becomes `<pre>/archive/<generated id>`, taking the context's upload id, else the source metadata's; absolute URLs are not covered by this lemma |
| MetainfoContext.Context.ParseUrl | nomad/datamodel/context.py:198-208 | parse_path of the URL with `#/placeholder`; None raises an invalid-reference error; a local reference resolves against this installation |
| MetainfoContext.ParseUrlRelativeUpload | nomad/datamodel/context.py:198-208 | a same-upload archive reference resolves to this installation and this context's upload |
| MetainfoContext.ParseUrlRelativeUploads | nomad/datamodel/context.py:198-208 | a reference into another upload resolves to this installation and that upload |
| MetainfoContext.Context.LoadUrl | nomad/datamodel/context.py:210-219 | a parse failure propagates; an archive reference goes to the archive loader, a raw one to the raw-file loader |
| MetainfoContext.Context.CacheArchive | nomad/datamodel/context.py:227-229 | both maps are updated, url to archive and archive to url, and nothing else changes |
| MetainfoContext.Context.ResolveArchiveUrl | nomad/datamodel/context.py:221-225 | a cached URL returns its archive without loading; otherwise the loader runs and a loaded archive is cached in both directions; the caches stay coherent |
| Urls.UrlSplit | nomad/datamodel/context.py:173 | the split URL that normalize_reference works on never keeps a tab, CR or LF in its path or fragment |
| Urls.SplitPlainRelative | nomad/datamodel/context.py:173-174 | a plain relative path with a fragment splits into exactly that path and that fragment |
| Urls.UnsplitRelative | nomad/datamodel/context.py:178 | putting back a relative path and a fragment writes `path#fragment`, or `path` alone when the fragment is empty |
| UploadRules.ValidateUploadOrderBy | nomad/app/v1/routers/uploads.py:136-141 | no order means `upload_create_time`; one of the four upload attributes is kept; anything else is rejected as invalid input |
| UploadRules.ValidateEntryOrderBy | nomad/app/v1/routers/uploads.py:154-159 | no order means `mainfile`; one of the four entry attributes is kept; anything else is rejected as invalid input |
| UploadRules.UploadSortKeys | nomad/app/v1/routers/uploads.py:408-413 | the key comes first, with `-` when descending; `upload_id` always comes last; `upload_create_time` is a tie-breaker for every other key |
| UploadRules.SortKeySign | nomad/app/v1/routers/uploads.py:409 | for a validated key, the first sort key is signed exactly when the order is descending |
| UploadRules.SortKeysDistinct | nomad/app/v1/routers/uploads.py:410-413 | for a validated key, no sort key repeats |
| UploadRules.ReadAccess | nomad/app/v1/routers/uploads.py:1488-1518 | a missing upload is 404; viewers and admins get it; with include_others anybody gets a published upload without embargo; everything else is 401 |
| UploadRules.WriteAccess | nomad/app/v1/routers/uploads.py:1521-1548 | succeeds exactly for an author or admin, where a published upload also needs include_published and, when so configured, an admin; 404 only for a signed-in user and a missing upload, else 401 |
| UploadRules.WriteAccessNotWeakerThanRead | nomad/app/v1/routers/uploads.py:99-104 | on an upload whose viewers include the main author and the coauthors, as the field documents them, any write access (with any flags) implies read access to the same upload |
| UploadRules.CheckCreateUpload | nomad/app/v1/routers/uploads.py:929-938 | a non-admin at the unpublished-upload limit gets 400 before the embargo check; the embargo must lie between 0 and 36 months |
| UploadRules.CheckRawFileRange | nomad/app/v1/routers/uploads.py:610-625 | a compressed download skips the checks; otherwise a negative offset is 400, and so is a length that is neither positive nor -1 |
| UploadRules.Publish | nomad/app/v1/routers/uploads.py:1091-1137 | succeeds exactly when write access (published uploads allowed) is granted and every guard passes: not already published by a non-admin, no running process, no failed processing, some entries, a valid embargo, and for central an OASIS with the upload published there, else an unpublished upload; a write-access failure passes through |
| UploadRules.PublishOutcomes | nomad/app/v1/routers/uploads.py:1094-1112 | with write access, passing every guard publishes to the requested target with the requested embargo; each failing guard gives its own 400 when the guards before it pass, in the order already-published, processing, failed, no entries, embargo |
| UploadRules.PublishTargetOutcomes | nomad/app/v1/routers/uploads.py:1114-1135 | after the common guards, central publishing fails with 400 off an OASIS and 401 for an upload not published there; local publishing fails with 401 for a published upload |
| UploadRules.PublishChecksRunningFirst | nomad/app/v1/routers/uploads.py:1099-1108 | a running process is reported before failed processing or missing entries |
| UploadRules.PublishTwiceRejected | nomad/app/v1/routers/uploads.py:1094-1097 | a non-admin cannot publish an already published upload locally |
| UploadRules.FilterBundleSettings | nomad/app/v1/routers/uploads.py:1355-1361 | None values are deleted; any other value makes a non-admin fail with 400, naming the first such key; an admin keeps exactly the keys that have values |
| UploadRules.StreamLength | nomad/app/v1/routers/uploads.py:1436-1439 | the stream is read up to its first empty chunk |
| UploadRules.StreamBytesIsSum | nomad/app/v1/routers/uploads.py:1436-1440 | the bytes received are the sum of the chunks before the first empty one |
| UploadRules.ReceiveStream | nomad/app/v1/routers/uploads.py:1432-1446 | the loop counts exactly those bytes; progress is logged at most once per chunk and only after a full interval |
| UploadRules.NoStreamedFile | nomad/app/v1/routers/uploads.py:1430-1459 | for the bytes the receive loop counts, no file is provided exactly when the body was streamed (method 2) and its first chunk was empty; a form upload always provides one |
| Resources.SpaceGroupsTable | nomad/app/resources/routers/resources.py:128-129 | the table has 230 entries, and space group n lies in the crystal system of its range in the International Tables |
| Resources.LookupKeys | nomad/app/resources/routers/resources.py:229 | a key is found exactly when it is among the dictionary's keys |
| Resources.PutLookup | nomad/app/resources/routers/resources.py:230-232 | after `d[k] = v`, k maps to v and every other key is unchanged |
| Resources.UpdateDict | nomad/app/resources/routers/resources.py:227-232 | every key of source is added in, summed where target has it; target's keys keep their order and new keys follow in source order |
| Resources.FindAll | nomad/app/resources/routers/resources.py:237 | findall of the formula pattern returns only element matches (a symbol and an amount of digits and dots) and bracketed groups with a count |
| Resources.ParseDecimal | nomad/app/resources/routers/resources.py:245 | float() of a digit string is its decimal value; other texts of digits and dots are read or rejected as Python does |
| Resources.ElementAmount | nomad/app/resources/routers/resources.py:243-244 | an element without an amount counts 1.0 |
| Resources.InvalidPrefix | nomad/app/resources/routers/resources.py:240-252 | a match whose amount float() rejects makes the whole formula fail |
| Resources.AmountUnmentioned | nomad/app/resources/routers/resources.py:235-252 | a symbol the formula never mentions counts zero |
| Resources.SymbolsShape | nomad/app/resources/routers/resources.py:134 | every key of the component dictionary has the shape of the pattern's symbol group |
| Resources.SymbolsDistinct | nomad/app/resources/routers/resources.py:235-252 | the component dictionary lists each symbol once |
| Resources.ComponentsOf | nomad/app/resources/routers/resources.py:240-252 | the loop over the matches keeps the dictionary equal to the reference counts of the matches seen, or fails where float() fails |
| Resources.Components | nomad/app/resources/routers/resources.py:235-252 | each element symbol, in order of first appearance, maps to its count, with nested groups multiplied by their counts; fails exactly where some amount cannot be read |
| Resources.FormulaString | nomad/app/resources/routers/resources.py:258-261 | an empty dictionary gives the empty string, as no division happens; a non-empty one with zero total gives undefined, where the division raises |
| Resources.PercentEntries | nomad/app/resources/routers/resources.py:259-261 | one entry per sorted symbol, in that order |
| Resources.ReadRender | nomad/app/resources/routers/resources.py:261 | the rendered formula reads back as exactly its entries: symbols and numbers never run together |
| Resources.NormalizeFormula | nomad/app/resources/routers/resources.py:255-261 | the formula of percentages reads back as the normalised entries of the reference counts, and fails exactly where they are undefined |
| Resources.NormalizedEntriesOrdered | nomad/app/resources/routers/resources.py:255-261 | every symbol of the formula appears once, in strictly ascending order, with the nearest integer to its share of the total in percent |
| ResourceRequests.SpaceGroupAt | nomad/app/resources/routers/resources.py:335 | `space_groups[n - 1]` exists exactly for n from -229 to 230 other than 0, with Python's negative indexing; 1 to 230 give the crystal system |
| ResourceRequests.MatchEndAt | nomad/app/resources/routers/resources.py:341 | a match of `_(\d+)_` at a position ends after the greedy digit run, and there is none otherwise |
| ResourceRequests.SearchGroup | nomad/app/resources/routers/resources.py:341 | re.search finds the leftmost match of `_(\d+)_`, and None means there is no match at all |
| ResourceRequests.PrototypeUrlsMembers | nomad/app/resources/routers/resources.py:340-345 | a URL is returned exactly when some prototype path on the page names the requested space group |
| ResourceRequests.AflowPrototypeUrls | nomad/app/resources/routers/resources.py:331-346 | no space group or group 0 gives no URLs; a number outside the table raises IndexError; a failed download gives no URLs; otherwise the matching paths in page order |
| ResourceRequests.SelectedProvidersSpec | nomad/app/resources/routers/resources.py:442-445 | all providers for None, else exactly those whose name was requested, in table order |
| ResourceRequests.QueryUrlsMembers | nomad/app/resources/routers/resources.py:448-452 | a query URL exists exactly for each selected base that has a filter for its kind |
| ResourceRequests.HillOnlyQueries | nomad/app/resources/routers/resources.py:439-452 | with only a Hill formula, the two crystallography.net servers are the only ones queried |
| ResourceRequests.OptimadeUrls | nomad/app/resources/routers/resources.py:438-453 | the loop builds one structures query per selected provider, Hill filter on crystallography.net and the reduced filter elsewhere, skipping absent filters |
| ResourceRequests.ConvertResourcesToModels | nomad/app/resources/routers/resources.py:567-586 | the models of the shown resources, the first five of each database first and the rest after |
| ResourceRequests.PartsArePermutation | nomad/app/resources/routers/resources.py:567-586 | every shown resource is in exactly one of the two parts |
| ResourceRequests.PartsKeepOrder | nomad/app/resources/routers/resources.py:581-586 | each part keeps the order the resources came in |
| ResourceRequests.FirstFivePerDatabase | nomad/app/resources/routers/resources.py:574-584 | the first part holds min(5, n) models of a database with n shown resources; the rest are in the overflow |
| ResourceRequests.GetResources | nomad/app/resources/routers/resources.py:597-641 | a missing status, or a stale status not being updated, triggers a refresh; resources older than max_time_in_mongo are deleted and the rest are shown; is_retrieving_more is the refresh or an update already running |
| SystemNormalizer.ChemicalSymbolsShape | nomad/normalizing/system.py:40-41 | the table of chemical symbols has 119 entries, the placeholder `X` first and `Br` at 35, and each entry is an upper-case letter followed by at most one lower-case letter |
| SystemNormalizer.AlternativesSorted | nomad/normalizing/system.py:40-41 | the alternation is a permutation of the symbol table, holds the same symbols and is ordered longest first |
| SystemNormalizer.SearchLabel | nomad/normalizing/system.py:52 | `re.search` finds the leftmost position where some alternative occurs and, there, the first alternative that occurs; None means no alternative occurs anywhere from the start position on |
| SystemNormalizer.PickSymbolSpec | nomad/normalizing/system.py:50-52 | the picked symbol is in the table; without any occurrence it is the placeholder; otherwise it occurs at the leftmost occurrence position and no symbol occurring there is longer |
| SystemNormalizer.NormalizedLabelSpec | nomad/normalizing/system.py:50-52 | the same three facts for a label normalised against a symbol table with the placeholder first |
| SystemNormalizer.NormalizedAtomLabelsSpec | nomad/normalizing/system.py:44-52 | normalisation keeps one entry per label, each the symbol its label stands for, and each a member of the chemical-symbol table |
| SystemNormalizer.BromineBeforeBoron | nomad/normalizing/system.py:38-41 | because longer symbols are tried first, any label starting with `Br` stands for bromine, not boron, in every symbol table that holds `Br` |
| SystemNormalizer.BromineLabel | nomad/normalizing/system.py:38-41 | a label starting with `Br` normalises to `Br` in the chemical-symbol table |
| SystemNormalizer.CounterSpec | nomad/normalizing/system.py:63-64 | the counter gives each symbol its number of occurrences, its counts add up to the number of symbols, its keys are exactly the symbols present, distinct, with positive counts |
| SystemNormalizer.Percents | nomad/normalizing/system.py:67-69 | one (symbol, rounded percentage) pair per counter entry, in counter order |
| SystemNormalizer.FormulaNormalizer | nomad/normalizing/system.py:55-72 | the loop over the counter, sort and join return the normalised formula of the symbols |
| SystemNormalizer.FormulaReadsBack | nomad/normalizing/system.py:55-72 | for element-shaped symbols the formula reads back as one entry per distinct symbol present, each with the rounded percentage of its occurrences, in sorted order of the rendered entries |
| SystemNormalizer.FormulaExamples | nomad/normalizing/system.py:59 | the documented examples: `Tc` gives `Tc100`, `SZn` gives `S50Zn50`, `Co2Nb` gives `Co67Nb33` |
| SystemNormalizer.TitleChars | nomad/normalizing/system.py:83 | `str.title` upper-cases each character at a word start and lower-cases a character that follows a letter |
| SystemNormalizer.TitleIdempotent | nomad/normalizing/system.py:83 | title-casing twice is title-casing once |
| SystemNormalizer.Prefix | nomad/normalizing/system.py:83-86 | `s[:n]` is the first n characters, or all of s when it is shorter |
| SystemNormalizer.IndexOf | nomad/normalizing/system.py:88 | `list.index` gives the first position holding the symbol |
| SystemNormalizer.PrefixNumber | nomad/normalizing/system.py:85-90 | the loop returns the table position of the longest of the prefixes of length 3, 2 and 1 the table holds, and 0 when it holds none |
| SystemNormalizer.AtomLabelToNum | nomad/normalizing/system.py:80-90 | the atomic number of the longest known symbol among the prefixes of the title-cased first three characters, 0 without one; always a position in the table |
| SystemNormalizer.ClassName | nomad/normalizing/system.py:266-278 | every class of the classifier has a system type name except a class outside the six named ones |
| SystemNormalizer.ClassNameInverse | nomad/normalizing/system.py:266-278 | the name of a named class gives that class back, so distinct classes get distinct names |
| SystemNormalizer.SystemTypeAnalysis | nomad/normalizing/system.py:257-282 | the system type is the unavailable value or the name of a class |
| SystemNormalizer.SystemTypeSpec | nomad/normalizing/system.py:257-282 | a system type other than the unavailable value is written exactly when the system is within the size threshold, the classifier did not raise and the class is one of the six named ones, and then it names that class |
| SystemNormalizer.PyIndex | nomad/normalizing/system.py:133 | a list index succeeds exactly for indices from minus the length up to the length, negative ones counting from the end |
| SystemNormalizer.LabelsOfSpeciesSpec | nomad/normalizing/system.py:131-136 | labels from species succeed exactly when every species indexes the table, and then give one label per species, the table entry at that index |
| SystemNormalizer.AtomicNumbers | nomad/normalizing/system.py:153-154 | each label gets the table position that holds it |
| SystemNormalizer.SystemLabels | nomad/normalizing/system.py:120-146 | the labels the normaliser works with are all symbols of the table |
| SystemNormalizer.NormalizeSystem | nomad/normalizing/system.py:117-247 | rejection for neither labels nor species is exactly that case; a position count that differs from the number of labels is rejected; a normalised system has one species per label, each the label's table position, accepted periodicity, positions and cell, the periodicity defaulting to three times false, and given labels normalised; conversely, a system that passes every guard is normalised, as the docstring's "True, iff the normalization was successful" promises |
| SystemNormalizer.NormalizeSystemOutcomes | nomad/normalizing/system.py:130-247 | with labels or species present, each guard's own rejection once the guards before it pass: species out of range, periodicity refused, no positions, positions refused, cell refused; True exactly when every guard passes |
| SystemNormalizer.SpeciesOutOfRangeSpec | nomad/normalizing/system.py:131-136 | the species-out-of-range rejection happens exactly when labels are missing and some species lies outside -119..118 |
| SystemNormalizer.NormalizedFromSpecies | nomad/normalizing/system.py:131-138 | without labels, each label of a normalised system is the table entry at its species index |
| SystemNormalizer.PrototypeLabelSplit | nomad/normalizing/system.py:431-435 | for a name and Pearson symbol without `-`, the prototype label splits at `-` back into the space group number, the name and the Pearson symbol (or the two empty parts of the `-` default), and the number reads back |
| SystemNormalizer.PrototypeOf | nomad/normalizing/system.py:423-444 | a prototype section is added exactly when a prototype matched; it caches notes and name, caches the strukturbericht designation exactly when it is not the string `None`, and carries the prototype label |
| Parsing.LastSlash | nomad/parsing/parser.py:238 | the position found holds the last `/` of the path; None means the path has no `/` |
| Parsing.StripSlashes | nomad/parsing/parser.py:238 | stripping trailing slashes leaves a prefix of the head that does not end in `/` |
| Parsing.DirName | nomad/parsing/parser.py:238 | the directory of a path is a prefix of it |
| Parsing.DirNameJoin | nomad/parsing/parser.py:238-240 | a file in a directory that is not only slashes has that directory as its dirname, and joining the directory with the name gives the path back |
| Parsing.DefaultMimeMatch | nomad/parsing/parser.py:178 | with the default mime pattern `text/.*` a mime type is accepted exactly when it starts with `text/` |
| Parsing.SomeSiblingSpec | nomad/parsing/parser.py:239-245 | the loop over the directory listing returns early exactly when some listed entry is another mainfile candidate |
| Parsing.IsMainfileSpec | nomad/parsing/parser.py:206-247 | is_mainfile returns True exactly when every guard passes (binary header contained, binary header pattern and contents pattern found, mime matched, compression supported, and the name matched or the alternative rule holds); it raises exactly for a configured binary header with no buffer |
| Parsing.SiblingRule | nomad/parsing/parser.py:234-247 | a file whose name does not fully match is a mainfile exactly when the parser is an alternative one and no other file of its directory matches the name pattern and is a file |
| Parsing.NotOwnSibling | nomad/parsing/parser.py:240-243 | the file itself, listed in its own directory, never counts as its own sibling |
| Parsing.LibraryFromSpec | nomad/parsing/parser.py:139 | the `.* library:` part matches exactly when ` library:` occurs later without a newline in between |
| Parsing.BrokenIsMainfileSpec | nomad/parsing/parser.py:137-151 | a file is a broken mainfile exactly when its decoded text starts with `pid=` and a digit, or with `Can't open ` followed on the same line by ` library:`; no decoded text gives False |
| Parsing.PrepareArchives | nomad/parsing/parser.py:110-122 | a fresh archive with its metadata section; child archives exactly for a non-empty key list, one per distinct key, each fresh with its metadata section and distinct from the main archive and from each other |
| ArchiveBrowser.NewAdaptor | gui/src/components/archive/Browser.js:35-41 | constructing an adaptor fails with a TypeError exactly when the class is the abstract base itself; otherwise the adaptor is a new object holding the given value |
| ArchiveBrowser.BaseAdaptorLanes | gui/src/components/archive/Browser.js:43-49 | with the base adaptor's `itemAdaptor` and `render` alone and an empty cache, the root pane is empty, the first segment's lane gets a null adaptor, so that lane's render throws a TypeError which its own ErrorHandler cannot catch, and a second segment makes the lane loop throw |
| ArchiveBrowser.RootPath | gui/src/components/archive/Browser.js:98 | the root path is the route url without its one trailing `/`, or the url itself when it has none |
| ArchiveBrowser.Substring | gui/src/components/archive/Browser.js:94 | `substring(n)` is the suffix after the first n characters, or empty past the end |
| ArchiveBrowser.NonEmpty | gui/src/components/archive/Browser.js:106 | filtering keeps only non-empty segments, each taken from the pieces, and keeps all of them when none is empty |
| ArchiveBrowser.Segments | gui/src/components/archive/Browser.js:94-106 | the segments below the route url are non-empty and contain no `/` |
| ArchiveBrowser.SplitSlashed | gui/src/components/archive/Browser.js:94 | splitting a path built from segments without `/` gives back those segments |
| ArchiveBrowser.SegmentsOfSlashed | gui/src/components/archive/Browser.js:94-108 | the pathname built from the root path and some segments leads back to exactly those segments |
| ArchiveBrowser.BuildShape | gui/src/components/archive/Browser.js:104-120 | lane 0 is the root lane; every segment gets a lane unless an adaptor lookup threw |
| ArchiveBrowser.BuildPaths | gui/src/components/archive/Browser.js:108 | lane j's path is the root path followed by `/` and each of the first j segments |
| ArchiveBrowser.BuildPathsGrow | gui/src/components/archive/Browser.js:108 | the lane paths grow strictly, so no two lanes share a path |
| ArchiveBrowser.BuildCache | gui/src/components/archive/Browser.js:109-110 | after the loop every lane's path caches that lane's adaptor, no cached path is dropped, and entries for other paths are unchanged |
| ArchiveBrowser.BuildNewPath | gui/src/components/archive/Browser.js:109-110 | a path longer than every lane's keeps its earlier cache entry, or its absence |
| ArchiveBrowser.BuildFailed | gui/src/components/archive/Browser.js:109 | once a lookup threw, later segments change nothing |
| ArchiveBrowser.BuildAdaptors | gui/src/components/archive/Browser.js:109 | each lane's adaptor is the one cached for its path when the cache held a non-null adaptor, else the item adaptor of the lane to its left; the loop throws exactly where a lane's adaptor is null and the next path is not cached |
| ArchiveBrowser.BuildCalls | gui/src/components/archive/Browser.js:109 | itemAdaptor is called exactly for the lanes whose path was not cached with a non-null adaptor, once each, in order of growing paths |
| ArchiveBrowser.Lane.constructor | gui/src/components/archive/Browser.js:111-115 | a new lane holds its key, path and adaptor and has no next lane |
| ArchiveBrowser.Item | gui/src/components/archive/Browser.js:216-233 | a disabled item is shown without a link; otherwise it is selected exactly when the lane to the right is keyed by the item, and links to the lane's path plus `/` and the key |
| ArchiveBrowser.ItemLinkSegments | gui/src/components/archive/Browser.js:94-228 | following an item's link leads to the segments of its lane plus the item key, so the item's lane comes next |
| ArchiveBrowser.Browser.constructor | gui/src/components/archive/Browser.js:96-103 | the first render builds a fresh root lane for the adaptor and url with no next lane, and the cache starts empty |
| ArchiveBrowser.Browser.Advance | gui/src/components/archive/Browser.js:106-118 | one loop iteration is one step of the specification: the cache and call record become the step's, and when no lookup threw a fresh lane with the segment as key is appended and linked from the previous lane |
| ArchiveBrowser.Browser.Lanes | gui/src/components/archive/Browser.js:104-120 | the lane loop agrees with the specification: it fails with a TypeError exactly when a lookup threw, leaves the specified cache, and otherwise returns linked lanes starting at the given one that show the specified paths and adaptors, each later lane fresh |
| ArchiveBrowser.Browser.Render | gui/src/components/archive/Browser.js:92-120 | the root lane is kept exactly when the adaptor is the same object and the url is unchanged, and rebuilt otherwise, also for a new adaptor object with the same class and element; the lanes are those the specification builds from the root path and the segments of the pathname |
| FilePreview.SplitLast | gui/src/components/archive/FilePreview.js:116 | the last piece of a split is the longest suffix without the separator: it ends the string and, unless it is all of it, follows a separator |
| FilePreview.FileExtension | gui/src/components/archive/FilePreview.js:116 | the extension is the lower-cased suffix after the last `.`, or all of the path without one |
| FilePreview.ExtensionOf | gui/src/components/archive/FilePreview.js:116 | a path ending in `.` and a part without `.` has that part, lower-cased, as its extension; a path without `.` is its own extension |
| FilePreview.FirstListing | gui/src/components/archive/FilePreview.js:119-120 | the first viewer whose extensions include the file's, or None when no viewer lists it |
| FilePreview.SelectViewer | gui/src/components/archive/FilePreview.js:115-127 | the loop picks the first viewer listing the extension when the size is below the text viewer's preview limit, with automatic preview below that viewer's auto-preview size; otherwise the text viewer without automatic preview |
| FilePreview.FirstListingAt | gui/src/components/archive/FilePreview.js:119-120 | a listing viewer with no listing viewer before it is the one found |
| FilePreview.ListingsDisjoint | gui/src/components/archive/FilePreview.js:57-108 | no extension is listed by two of the four viewers, so any viewer listing the extension is the one chosen |
| FilePreview.Utf8 | gui/src/components/archive/FilePreview.js:136 | a code point is encoded as one to four bytes, ASCII as itself |
| FilePreview.Percent | gui/src/components/archive/FilePreview.js:136 | every byte becomes three characters, `%` and upper-case hex digits |
| FilePreview.EncodeURIComponent | gui/src/components/archive/FilePreview.js:136 | the encoding is no shorter than its input, holds only unreserved characters, `%` and hex digits, and never a `/` |
| FilePreview.EncodeUnreserved | gui/src/components/archive/FilePreview.js:136 | a string of unreserved characters is its own encoding |
| FilePreview.EncodeAll | gui/src/components/archive/FilePreview.js:136 | mapping the encoding over the segments encodes each one |
| FilePreview.EncodedPathSegments | gui/src/components/archive/FilePreview.js:136 | the encoded path splits at `/` into exactly as many segments as the path, each the encoding of the path's segment |
| FilePreview.EncodedPathPlain | gui/src/components/archive/FilePreview.js:136 | a path of unreserved characters and `/` is left unchanged |
| FilePreview.SplitChars | gui/src/components/archive/FilePreview.js:136 | every character of a split piece occurs in the string and is not the separator |
| FilePreview.Initial | gui/src/components/archive/FilePreview.js:129-141 | the first render previews exactly when automatic preview is on, with nothing failed, no fallback and no signed url yet |
| FilePreview.ViewOf | gui/src/components/archive/FilePreview.js:166-201 | the preview button shows exactly while not previewing; loading shows exactly while the viewer lacks its url or data; the viewer is shown only when nothing failed and its render did not raise; the text fallback only after it was accepted |
| FilePreview.FallbackFlow | gui/src/components/archive/FilePreview.js:182-201 | a ready viewer that failed, or whose render raises, shows the failure prompt; after accepting it the text viewer is shown |
| FilePreview.ClickLeavesButton | gui/src/components/archive/FilePreview.js:169 | after the preview button is clicked it is not shown again, and a failed viewer is not shown |
| FilePreview.TextViewerReady | gui/src/components/archive/FilePreview.js:57-65 | the text viewer needs no url and no data, so it never shows loading while previewing |
| FilePreview.TextPreview.constructor | gui/src/components/archive/FilePreview.js:231-233 | the text preview starts with no contents, more to load and not loading |
| FilePreview.TextPreview.LoadMore | gui/src/components/archive/FilePreview.js:238-261 | as written: a request is issued exactly while more is expected and nothing is loading, at the JavaScript length (UTF-16 units) of the text shown; loading is not set |
| FilePreview.TextPreview.LoadMoreIntended | gui/src/components/archive/FilePreview.js:242-244 | as intended: the same request, with loading set when it is issued, and nothing else changed |
| FilePreview.TextPreview.Receive | gui/src/components/archive/FilePreview.js:254-259 | a response (possibly none) is appended to the text; more is expected exactly after a response of 16384 UTF-16 units; loading ends |
| FilePreview.TextPreview.RequestFailed | gui/src/components/archive/FilePreview.js:258-259 | a failed request only ends loading |
| FilePreview.Respond | nomad/app/v1/routers/uploads.py:566-628 | the raw endpoint answers the file's bytes from the byte offset on, at most the requested number of bytes |
| FilePreview.Utf8TextAppend | gui/src/components/archive/FilePreview.js:248-256 | the UTF-8 bytes of two texts one after the other are the bytes of the first followed by those of the second |
| FilePreview.AsciiLengths | gui/src/components/archive/FilePreview.js:248-256 | an ASCII text has as many bytes and UTF-16 units as characters |
| FilePreview.Utf16NotLonger | gui/src/components/archive/FilePreview.js:248-256 | a text's JavaScript length never exceeds its UTF-8 byte count, and is smaller once it holds a character beyond ASCII |
| FilePreview.AppendAtOffset | nomad/app/v1/routers/uploads.py:566-577 | appending the endpoint's answer to a request at the number of bytes received keeps them a prefix of the file's bytes, and a short answer completes them |
| FilePreview.StopsEarly | gui/src/components/archive/FilePreview.js:248-256 | as written, on a text whose first chunk of bytes ends on a character boundary and holds a non-ASCII character, the first answer is shorter than a chunk in UTF-16 units, so no further request is made although the file goes on |
| FilePreview.StopsEarlyInput | gui/src/components/archive/FilePreview.js:248-256 | an `é` followed by 16382 ASCII letters and more text is such an input: 16383 characters fill the first 16384 bytes |
| FilePreview.BytePreview.LoadMore | gui/src/components/archive/FilePreview.js:242-253 | corrected: a request at the number of bytes received, issued exactly while more is expected and nothing is loading, with loading set |
| FilePreview.BytePreview.Receive | gui/src/components/archive/FilePreview.js:254-259 | corrected: the answer's bytes are appended; more is expected exactly after a full chunk of bytes; loading ends |
| FilePreview.LoadRound | gui/src/components/archive/FilePreview.js:242-259 | corrected: one round keeps the bytes received the start of the file, all of it once no more is expected, and adds a full chunk or completes the file |
| FilePreview.LoadAll | gui/src/components/archive/FilePreview.js:242-259 | corrected: scrolling on loads exactly the whole file, whatever its text |
| FilePreview.DoubleLoad | gui/src/components/archive/FilePreview.js:243-259 | as written, two scroller calls before the first answer both request the first chunk, both answers are appended, and for a non-empty file shorter than two chunks of bytes the bytes of the text shown are not the start of the file |
| FilePreview.SingleLoad | gui/src/components/archive/FilePreview.js:243-259 | with loading set before the request, the second call issues nothing and the text shown is the first chunk, whose bytes start the file |
| PeriodicTable.JsSet.constructor | gui/src/components/search/input/InputPeriodicTable.js:251 | `new Set(init)` holds exactly the given elements |
| PeriodicTable.JsSet.Add | gui/src/components/search/input/InputPeriodicTable.js:152 | `add` puts the element into the set and keeps the rest |
| PeriodicTable.JsSet.Delete | gui/src/components/search/input/InputPeriodicTable.js:154 | `delete` removes the element and keeps the rest |
| PeriodicTable.EqSet | gui/src/components/search/input/InputPeriodicTable.js:225-230 | eqSet holds exactly when both sets are present and have the same elements |
| PeriodicTable.SubsetOfSameSize | gui/src/components/search/input/InputPeriodicTable.js:227-228 | for two sets of one size, every member of the first lying in the second is the same as equality |
| PeriodicTable.Toggle | gui/src/components/search/input/InputPeriodicTable.js:260-261 | the element's membership flips and no other element's changes |
| PeriodicTable.ToggleTwice | gui/src/components/search/input/InputPeriodicTable.js:260-261 | flipping the same element twice gives the set back |
| PeriodicTable.OnElementClicked | gui/src/components/search/input/InputPeriodicTable.js:256-268 | a present old filter has the element flipped in place and the new value is a fresh copy of it; a missing old filter gives a fresh set of just the element |
| PeriodicTable.ElementButton.constructor | gui/src/components/search/input/InputPeriodicTable.js:142 | a button starts with its own selection equal to the selected prop |
| PeriodicTable.ClickableElement | gui/src/components/search/input/InputPeriodicTable.js:146-284 | a button built from the local copy and the aggregation can be clicked exactly when its element is selected or has a non-zero count; an element without a count is disabled exactly when it is not selected |
| PeriodicTable.ElementButton.SelectedChanged | gui/src/components/search/input/InputPeriodicTable.js:143-145 | a changed selected prop becomes the button's own selection |
| PeriodicTable.ElementButton.HandleClick | gui/src/components/search/input/InputPeriodicTable.js:148-157 | the button's selection flips, and its symbol is added to the local filter when it became selected and removed otherwise |
| PeriodicTable.Table.constructor | gui/src/components/search/input/InputPeriodicTable.js:235-236 | the table starts with an empty local filter and the counter at 0 |
| PeriodicTable.Table.SyncFilter | gui/src/components/search/input/InputPeriodicTable.js:249-254 | when eqSet says filter and local copy agree nothing changes; otherwise the local copy becomes a fresh set of the filter (empty for none) and the counter goes up by one; afterwards they agree |
| PeriodicTable.Table.Click | gui/src/components/search/input/InputPeriodicTable.js:148-159 | after a click on a button that mirrors the local copy, the button still mirrors it and the new filter equals the local copy, so the following sync re-renders nothing |
| PeriodicTable.IndexOf | gui/src/components/search/input/InputPeriodicTable.js:43 | the first position of the character, or None when it does not occur |
| PeriodicTable.RemoveFirst | gui/src/components/search/input/InputPeriodicTable.js:43 | `replace` with a string pattern removes only the first occurrence |
| PeriodicTable.LastAt | gui/src/components/search/input/InputPeriodicTable.js:41-44 | a grid cell holds an element placed at that row and column |
| PeriodicTable.BuildGrid | gui/src/components/search/input/InputPeriodicTable.js:36-44 | the loop builds a fresh 10 by 18 grid whose every cell holds the last element placed there, with its category cleaned, or nothing |
| PeriodicTable.PlacedAtPosition | gui/src/components/search/input/InputPeriodicTable.js:41-44 | with no two elements at one position, every element is found, cleaned, at its own position |
| PeriodicTable.EmptyCell | gui/src/components/search/input/InputPeriodicTable.js:37-40 | a cell no element names stays empty |
| SearchState.Keys | gui/src/components/search/SearchContext.js:106 | `Object.keys` lists one key per property, in property order |
| SearchState.Lookup | gui/src/components/search/SearchContext.js:104-110 | a property lookup finds a value exactly when the object has the key |
| SearchState.Rebind | gui/src/components/search/SearchContext.js:67-70 | rebinding keeps every property in place and gives the key's bindings the new value |
| SearchState.LookupRebind | gui/src/components/search/SearchContext.js:67-70 | after rebinding, the key gives the new value when it was present, and every other key gives what it gave before |
| SearchState.Put | gui/src/components/search/SearchContext.js:67-70 | an assignment makes the key give the new value, leaves every other key alone, keeps the old keys first in their order, and adds no property for an existing key |
| SearchState.SpreadLookup | gui/src/components/search/SearchContext.js:62-75 | in `{...a, ...b}` the value of b wins, and a's value shows through for keys b lacks |
| SearchState.SpreadKeysPrefix | gui/src/components/search/SearchContext.js:62-75 | a spread keeps a's keys first, in a's order |
| SearchState.SpreadTwice | gui/src/components/search/SearchContext.js:62 | spreading the same changes twice gives the same values as spreading them once |
| SearchState.JsObject.constructor | gui/src/components/search/SearchContext.js:62 | an object literal holds exactly its properties |
| SearchState.ClearEmpty | gui/src/components/search/SearchContext.js:66-71 | a truthy value of length 0 under the key (an empty array, or an object whose `length` is 0) becomes undefined; anything else leaves the changes as they are; other keys and the key order are unchanged |
| SearchState.ClearEmptyClears | gui/src/components/search/SearchContext.js:66-71 | after clearing, the key holds no truthy value of length 0, and any other value is kept |
| SearchState.ChosenDomain | gui/src/components/search/SearchContext.js:86 | as written: without a `domains` table the lookup throws, and when the table has no `[object Object]` key the default domain is chosen |
| SearchState.ChosenDomainIntended | gui/src/components/search/SearchContext.js:86 | as intended: without a table the lookup throws; a listed requested key gives its domain; otherwise the default domain |
| SearchState.DomainLookupByObject | gui/src/components/search/SearchContext.js:86 | switching to a listed domain other than the default lands on the default domain as written, and on the requested domain as intended, so the two differ |
| SearchState.SearchObjectLookup | gui/src/components/search/SearchContext.js:94-99 | in the search object the query prop wins, then `metrics` (empty for the default metric) and `domain`, then the query state, then the request |
| SearchState.FindOther | gui/src/components/search/SearchContext.js:106-111 | `find` with `!== x` gives the first element other than x, or nothing when all are x |
| SearchState.KeysOf | gui/src/components/search/SearchContext.js:106-110 | the keys of an object are its keys; keys of undefined or null throw |
| SearchState.UsedMetricDefault | gui/src/components/search/SearchContext.js:105-107 | without a statistic other than `total` the default metric is used |
| SearchState.UsedMetricFirst | gui/src/components/search/SearchContext.js:106-113 | when the first statistic other than `total` has a non-empty key and a first value with metrics, the first metric other than the default is used, and the default when there is none or it is the empty string |
| SearchState.UsedMetricEmptyKey | gui/src/components/search/SearchContext.js:106-107 | a first statistic other than `total` keyed by the empty string is falsy, so the default metric is used whatever it holds |
| SearchState.FindOtherAt | gui/src/components/search/SearchContext.js:106 | an element other than x with only x before it is what find returns |
| SearchState.LookupAfter | gui/src/components/search/SearchContext.js:106 | properties with other keys after the key do not hide it |
| SearchState.AnswerMetric | gui/src/components/search/SearchContext.js:104-113 | an answer that is not an object, or whose statistics are undefined or null, makes the answer handler throw; statistics that are another non-object have no keys and give the default metric; object statistics give the metric UsedMetric finds |
| SearchState.SearchContext.constructor | gui/src/components/search/SearchContext.js:32-59 | the initial state: the default domain and its default metric as metric and used metric, the empty response, the initial query object itself or a fresh empty one, and a fresh request of the defaults overridden by the initial request |
| SearchState.SearchContext.HandleRequestChange | gui/src/components/search/SearchContext.js:61-63 | the request becomes a fresh object of the changes spread over the current request; nothing else changes |
| SearchState.SearchContext.HandleQueryChange | gui/src/components/search/SearchContext.js:65-77 | truthy `dft.atoms` and `dft.only_atoms` values of length 0 in the changes become undefined in place; the query becomes the changes object when replacing, else a fresh spread of the changes over the query; nothing else changes |
| SearchState.SearchContext.HandleMetricChange | gui/src/components/search/SearchContext.js:79-81 | the metric becomes the one given; request, query, domain, used metric and response stay |
| SearchState.SearchContext.HandleDomainChange | gui/src/components/search/SearchContext.js:83-89 | as written: a domain with the current key changes nothing and searches nothing; another one takes the domain the as-written lookup chooses and searches, or throws without a table |
| SearchState.SearchContext.HandleDomainChangeIntended | gui/src/components/search/SearchContext.js:83-89 | the same with the intended lookup by the requested domain's key |
| SearchState.SearchContext.SearchAnswered | gui/src/components/search/SearchContext.js:101-118 | a readable answer becomes the response with the metric its statistics use and raises nothing; an answer that throws on the way resets the response to the empty one, keeps the used metric and passes the error to `raiseError` |
| SearchState.SearchContext.ShouldSearch | gui/src/components/search/SearchContext.js:125-135 | a new search follows every change of the query, request or metric state; without a search these and the update prop are unchanged |
| SearchState.RequestChangeSearches | gui/src/components/search/SearchContext.js:61-135 | every request change makes a new request object, so a search always follows, even when no value changed |
| SearchState.SameDomainNoSearch | gui/src/components/search/SearchContext.js:83-135 | a change to the current domain key changes no state, so no search follows while the props stay the same (isEquivalent taken as equality) |
| AIToolkit.Filter | gui/src/components/aitoolkit/AIToolkitPage.js:57-69 | a tutorial is enabled exactly when each set author, keyword and method parameter is among its own |
| AIToolkit.FilterNarrowing | gui/src/components/aitoolkit/AIToolkitPage.js:57-69 | the empty query enables every tutorial, and setting a parameter only disables more |
| AIToolkit.FilterParams | gui/src/components/aitoolkit/AIToolkitPage.js:57-69 | the filter is the conjunction of one test per parameter |
| AIToolkit.TutorialKey | gui/src/components/aitoolkit/AIToolkitPage.js:78 | the key has the title's JavaScript length in UTF-16 code units and holds only lower-case word characters; for a title without characters beyond U+FFFF, each word character is lower-cased and every other character becomes `_` |
| AIToolkit.WideCharKey | gui/src/components/aitoolkit/AIToolkitPage.js:78 | a character beyond U+FFFF is two code units for `/\W/g` without the unicode flag, so `A` followed by U+1F600 gives `a__` |
| AIToolkit.KeyIsKey | gui/src/components/aitoolkit/AIToolkitPage.js:78 | a key holds only lower-case word characters and is its own key |
| AIToolkit.Titles | gui/src/components/aitoolkit/AIToolkitPage.js:77 | the titles of the sections, position by position |
| AIToolkit.UniqueDistinct | gui/src/components/aitoolkit/AIToolkitPage.js:77 | among unique keys different positions hold different keys |
| AIToolkit.UniquePermutation | gui/src/components/aitoolkit/AIToolkitPage.js:87-90 | a permutation of unique keys is unique |
| AIToolkit.FindTitle | gui/src/components/aitoolkit/AIToolkitPage.js:77 | the dictionary lookup finds the section with the title, or None when there is no such section |
| AIToolkit.AddKeys | gui/src/components/aitoolkit/AIToolkitPage.js:80-82 | `dict[i] = i` over the labels keeps the existing keys first in their order, holds exactly the old keys and the labels, and keeps the keys unique |
| AIToolkit.UniqueSnoc | gui/src/components/aitoolkit/AIToolkitPage.js:80-82 | a key not yet present keeps the keys unique when appended |
| AIToolkit.CountAbsent | gui/src/components/aitoolkit/AIToolkitPage.js:76 | a tutorial names a section a positive number of times exactly when it names it |
| AIToolkit.MembersOf | gui/src/components/aitoolkit/AIToolkitPage.js:75-85 | a section lists something exactly when some tutorial names it, and it lists only tutorials, with their keys, that name it |
| AIToolkit.NamedIsMember | gui/src/components/aitoolkit/AIToolkitPage.js:76-79 | a tutorial naming a section is listed, with its key, in that section |
| AIToolkit.AddToSection | gui/src/components/aitoolkit/AIToolkitPage.js:77-79 | the tutorial is pushed into the section with the title, which is added at the end when there is none; no other section changes and titles stay unique |
| AIToolkit.OnlyTitled | gui/src/components/aitoolkit/AIToolkitPage.js:77 | with unique titles, a section is the only one with its title |
| AIToolkit.AppendedTitle | gui/src/components/aitoolkit/AIToolkitPage.js:77 | a section with a new title appended keeps the titles unique and adds only that title |
| AIToolkit.PartialStep | gui/src/components/aitoolkit/AIToolkitPage.js:76-79 | pushing the tutorial under its next section title keeps the dictionary of the tutorials so far plus the sections of this one handled |
| AIToolkit.AddTutorial | gui/src/components/aitoolkit/AIToolkitPage.js:75-85 | one step of the reducer takes the section dictionary and the author, keyword and method dictionaries of the earlier tutorials to those of the earlier tutorials and this one |
| AIToolkit.SortedSections | gui/src/components/aitoolkit/AIToolkitPage.js:87 | sorting the sections by title keeps one section per title with its tutorials, and orders them |
| AIToolkit.SortedLabels | gui/src/components/aitoolkit/AIToolkitPage.js:88-90 | sorting a value list keeps its keys and their uniqueness |
| AIToolkit.Index | gui/src/components/aitoolkit/AIToolkitPage.js:71-92 | the sections are ordered by title, one per title some tutorial names, each listing every tutorial naming it in order; the authors, keywords and methods are sorted lists of the labels of tutorials with a section, once each |
| AIToolkit.ExpandToggle | gui/src/components/aitoolkit/AIToolkitPage.js:119-120 | a panel's change expands it exactly when it was not expanded, and otherwise collapses everything |
| AIToolkit.ExpandTwice | gui/src/components/aitoolkit/AIToolkitPage.js:120 | two clicks on a panel give back the state when no other panel was expanded |
| AIToolkit.Selected | gui/src/components/aitoolkit/AIToolkitPage.js:204-225 | choosing a value in an autocomplete sets that parameter and clears all others |
| AIToolkit.LinkClick | gui/src/components/aitoolkit/AIToolkitPage.js:134-172 | a link click selects its value alone, or clears the parameter when that value was selected; all other parameters are cleared |
| AIToolkit.LinkKeepsTutorial | gui/src/components/aitoolkit/AIToolkitPage.js:134-172 | clicking a link shown on a tutorial never disables that tutorial |
| AIToolkit.LinkTwice | gui/src/components/aitoolkit/AIToolkitPage.js:134-172 | a second click on the same link clears every parameter, unless the first click cleared it, in which case it selects the value alone |
| DefinitionCard.Definition.constructor | gui/src/components/metaInfoBrowser/DefinitionCard.js:10-16 | a definition holds its name and whether it is a section |
| DefinitionCard.StripSectionPrefix | gui/src/components/metaInfoBrowser/DefinitionCard.js:12-14 | a leading `section_` in any case is removed; another name is kept |
| DefinitionCard.RenderName | gui/src/components/metaInfoBrowser/DefinitionCard.js:10-16 | a missing element renders as `<unknown>`; a section loses its prefix; every `_` becomes a space, so none is left |
| DefinitionCard.SectionPrefixOnce | gui/src/components/metaInfoBrowser/DefinitionCard.js:12-14 | the prefix is removed once, in any spelling, even when the rest starts with `section_` again |
| DefinitionCard.SectionWithoutPrefix | gui/src/components/metaInfoBrowser/DefinitionCard.js:12-15 | a section without the prefix renders like any other name |
| DefinitionCard.OnlyCurrentUnclosable | gui/src/components/metaInfoBrowser/DefinitionCard.js:79-81 | among open cards showing distinct definitions, at most one lacks a close button, and one does exactly when the current definition is shown |
| DefinitionCard.RunEnd | gui/src/components/metaInfoBrowser/DefinitionCard.js:127 | a word run is maximal |
| DefinitionCard.Extend | gui/src/components/metaInfoBrowser/DefinitionCard.js:127 | the greedy repetition stops where no `_` followed by a word character follows, and what it matched is word runs joined by single `_` |
| DefinitionCard.MatchLength | gui/src/components/metaInfoBrowser/DefinitionCard.js:127 | a match at the start is an identifier of word runs joined by single `_`, and it cannot be extended |
| DefinitionCard.Tokens | gui/src/components/metaInfoBrowser/DefinitionCard.js:127 | every marked piece is an identifier, and a character is kept as plain text only where no identifier starts |
| DefinitionCard.TokensSource | gui/src/components/metaInfoBrowser/DefinitionCard.js:127 | the pieces put together give the description back |
| DefinitionCard.RenderDescriptionRoundTrip | gui/src/components/metaInfoBrowser/DefinitionCard.js:127 | the marking only adds backticks: for a description without them, dropping them from the rendered text gives it back |
| DefinitionCard.NoPlainIdentifier | gui/src/components/metaInfoBrowser/DefinitionCard.js:127 | no identifier is left unmarked: no word character, `_` and word character follow one another as plain text |

## Left out

- HTTP, MongoDB, Elasticsearch and file-system plumbing of the upload and resource routers (`StreamingResponse`, `Upload.objects`, `search(...)`, temporary directories): they are I/O. The rules take their results as inputs.
- `retrieve_resources` and its asyncio `gather`, and `_download` with its retries and sleeps: concurrency and network. A download is a function parameter that may fail.
- BeautifulSoup parsing of Springer and aflow pages, ase CIF reading, matid's `Classifier` and `SymmetryAnalyzer`, and the numpy position and cell handling in `normalize_system`: foreign libraries. Their outcomes (a classification, accepted periodicity, positions and cell) are inputs.
- `utils.generate_entry_id` and `utils.hash`: hashes, modelled as uninterpreted function parameters.
- The `ServerContext` and `ClientContext` loaders and `requests.get`: network. The archive and raw-file loaders are function parameters.
- Floating point: percentages and amounts are exact rationals, and Python's `round` is exact half-to-even rounding on them. Float rounding before the call is not modelled.
- Regular expressions that are configuration (the mime, name, contents and binary-header patterns of a `MatchingParser`) are abstract predicates: `match` means some prefix is in the pattern's language, `search` some slice. The fixed patterns (reference URLs, formulas, `_(\d+)_`, `^pid=[0-9]+`, `^Can't open .* library:.*`, `\W`, the identifier pattern) are modelled concretely, with ASCII-only character classes.
- `lru_cache` around `os.listdir`, `os.path.isfile`: the directory listing is an input sequence and `isfile` a predicate.
- Logging, timers and the backend writes of `normalize_system` other than the values it returns.
- React rendering, styling, DOM measurement and the resize handler of `Browser.js`: rendering. What a component shows is modelled as a small view value where the decision matters.
- What `render()` of a concrete adaptor shows, and the viewers' own rendering (image, JSON, PDF): rendering.
- The signature-token request and the data fetch of `FilePreview.js`: network effects. Their results are state fields (`signedUrl`, `dataLoaded`).
- The aggregation behind `availableValues` in `InputPeriodicTable.js`: a search-API call. It is an input map of counts.
- `isEquivalent` in `componentDidUpdate` is a function parameter. `utils.js` is not part of this model.
- JavaScript objects are ordered property lists without the integer-like key reordering of real objects. `Object.keys` of arrays and strings is taken as empty.
- `localeCompare` and the default `Array.prototype.sort` are modelled as code-point order; the default sort compares UTF-16 code units, which orders characters beyond U+FFFF before those from U+E000 to U+FFFF, and such titles are outside the model.
- Section titles or labels that name `Object.prototype` members (such as `constructor` or `__proto__`) would behave differently in the real dictionaries. The model treats them as ordinary keys.
- The author label `name.split(',').reverse().join(' ')` in `AIToolkitPage.js`: rendering only.
- `schema.isSection` and `schema.isParent`: `MetaInfoRepository.js` is not part of this model. Whether a definition is a section is a field, and a missing element is taken as not a section. The parent-toggle button is rendering.
- `window.location.origin` and `apiBase` in the full URL of `FilePreview.js`: environment. Only the encoded path is modelled.
- React's batching of `setState` in `SearchContext.js`: the model applies each handler's update at once. The handlers read `this.state.request` and `this.state.query` when called, while React applies the updates of one event handler together, so two `handleQueryChange` calls in one event both spread over the old query and the first change is lost; in the model, calls in sequence keep both.
- PeriodicTable.BuildGrid: assumes every element's position lies in the 10 x 18 grid, as the element data does; the data file is not part of this model.
- MetainfoContext.Context.ResolveArchiveUrl: for a url already cached, it states only that the result's url is recorded, not that it equals this url, because `cache_archive` under another url may have rebound it.
- FilePreview.StopsEarly: a chunk of bytes that ends inside a character, which the browser decodes with replacement characters, is not modelled; the text the client gets is the one whose UTF-8 bytes the answer is.
- FilePreview.FileExtension: lower-cases ASCII letters only, while `toLowerCase` also lower-cases other letters; the viewers' extension lists are ASCII.
- SystemNormalizer.TitleChars: title-casing is ASCII-only, while Python's `str.title` is Unicode-aware (`'ß'.title()` is `'Ss'`, `'ı'.title()` is `'I'`); atom labels with non-ASCII letters are outside the model.
- Parsing.IsMainfileSpec: `Match` and `Search` treat a configured pattern as the set of texts it fully matches, so a slice matches regardless of the text around it. Patterns with `$`, `\b` or lookarounds, whose outcome depends on the surrounding text, are not captured.
- SystemNormalizer.NormalizeSystem: the chemical formulas, configuration hash, system-type and symmetry analysis after the position checks are not modelled; the result records only what the guard chain decided. A scalar `atom_species` without labels is not modelled either: the species are a list, while system.py:133 iterates the scalar and raises an uncaught TypeError (only the later comparison with the atomic numbers wraps a scalar into a list, system.py:156-157).

## Findings

| source | as written | input that shows it | evidently intended | confidence | as-written member | corrected member |
|---|---|---|---|---|---|---|
| gui/src/components/archive/FilePreview.js:243 | `setLoading(true)` sits at the end of a comment line, so `loading` is never set before a request | two `loadMore` calls from the scroller before the first answer, on a non-empty file shorter than two chunks: both request offset 0 and the text shows the first chunk twice | set `loading` before the request, so that a second call issues nothing until the answer arrives | not executed | FilePreview.DoubleLoad | FilePreview.SingleLoad |
| gui/src/components/archive/FilePreview.js:248 | the offset `contents?.length` and the test `contents?.length === 16 * 1024` count UTF-16 units of the decoded text, while the raw endpoint seeks and reads bytes (nomad/app/v1/routers/uploads.py:566-577) | a UTF-8 file starting with `é` and 16382 ASCII letters, then more text (`FilePreview.StopsEarlyInput`): the first answer is 16383 units long, `hasMore` becomes false and the rest is never requested | count the bytes received, request at that count and compare the answer's byte length with the chunk size | not executed | FilePreview.StopsEarly | FilePreview.LoadAll |
| gui/src/components/search/SearchContext.js:86 | `domains[domain]` uses the domain object as the key, which is the key `[object Object]` | a table with no such key and a requested listed domain other than the default: the default domain is chosen (`SearchState.DomainLookupByObject`) | `domains[domain.key]`, which chooses the requested domain | not executed | SearchState.ChosenDomain | SearchState.ChosenDomainIntended |
