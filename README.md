# didtheyghostme README job-table sync, modelled in Dafny

didtheyghostme keeps a public GitHub README in step with its database. The
README holds a Markdown table of verified Singapore internship tech jobs
between two HTML-comment anchors, `<!-- JOBS_TABLE_START -->` and
`<!-- JOBS_TABLE_END -->`. The sync job does four things:

- It exports the verified jobs: the rows of the job-posting query are kept when
  they carry the Singapore, Internship and Tech tags, and are ordered newest
  first.
- It builds one table row per job:
  - a company link;
  - the title with its pipes escaped;
  - a track button that links to the job's page;
  - an apply button, or `-` when there is no application URL;
  - the formatted creation date.
- It reads the README and cuts it at the anchors. Each line between them is
  filed as a header or separator line, a data row, or another line. A data row
  yields the job id of its third cell when it has one. The table is then
  rebuilt from three parts:
  - the old header lines, or a default header when fewer than two survive;
  - the database rows, in export order;
  - the "community" rows, the data rows without a job id, copied from the old
    table.
- It writes the README back only when the text changed, against the sha it
  read.

Alongside the sync, the model covers four small pure pieces of the web
application:

- the search, sort and paging arithmetic of the companies table, and the page
  resets of its handlers;
- the client-address lookup from proxy headers;
- the classification of clicks on table rows;
- the classification of thrown errors by message.

Modules:

| file | module | what it holds |
|---|---|---|
| `wrappers.dfy` | `Wrappers` | `Option` and `Result` |
| `text.dfy` | `Text` | JavaScript string operations the code uses: `trim`, `split`, `join`, `indexOf`/`includes`, `startsWith`/`endsWith`, the `<` order on strings, ASCII lower-casing and number printing |
| `readme_jobs_table.dfy` | `ReadmeJobsTable` | anchors, line classification, id extraction, parsing, rendering and the merge |
| `readme_idempotence.dfy` | `ReadmeIdempotence` | the proof that merging the merged README again changes nothing |
| `export_jobs.dfy` | `ExportJobs` | the tag filters, the newest-first sort and the export mapping |
| `sync_readme.dfy` | `SyncReadme` | pipe escaping, button images, row building, the README file on GitHub and the sync itself |
| `company_table.dfy` | `CompanyTable` | the companies table: filter, sort, pages and the table state |
| `client_ip.dfy` | `ClientIp` | `getClientIp` |
| `click_type.dfy` | `ClickType` | `getClickType` and `isMiddleClick` |
| `error_handling.dfy` | `ErrorHandling` | the error messages and the error predicates |

All files form one program and are verified together, from this directory:

    dafny verify *.dfy

Where a loop in the source fills lists or a map, the model is a method with
that loop. The loops are: parsing the block into three lists, selecting the
database rows, and filling the desired order and row map. Each such method
`ensures` that its result equals a recursive specification function, and the
properties are proved about that function. The README file on GitHub is a
class whose `content`, `sha` and log of `writes` the sync changes. The
companies table keeps its search value, page and sort key in a class whose
handlers update them.

### Behaviour of the code worth knowing

The code behaves as follows:

- The merge does not sort. Database rows come first, in export order, and
  community rows follow in their old order.
- A community row is kept as its trimmed line, not re-rendered.
- Cells are split on every `|`, including the `\|` that the row builder writes
  for a pipe in a title or a company name.
- Only `company`, `role`, `track`, `apply` and `added` count as header words,
  matched on a whole cell regardless of case.

### When a second sync changes nothing

`SyncReadme.SecondSyncWritesNothing` proves that after one merge, a merge with
the same jobs reports no change. It needs every job to satisfy
`SyncReadme.RendersStably`. That predicate asks for these things:

- The job id is 36 hex digits or hyphens.
- The site URL holds no `/job/`, so that the track cell gives the id back.
- The company name, company id, title, application URL, formatted date and
  site URL hold no `|` and no line break.
  - A pipe, even escaped, shifts the cells. The row is then read back without
    an id and kept as a community row, next to the freshly rendered copy.
  - A line break splits the row into lines that are filed separately.
- Neither the title nor the date trims to a header word. Otherwise the row is
  read back as a header line.
- The rendered line does not contain the end anchor.

## Model

| member | source | states |
|---|---|---|
| ReadmeJobsTable.ExtractAnchoredBlock | lib/readme-sync/readmeJobsTable.ts:17-30 | On failure the error carries the missing-anchors message. On success `before + block + after` is the README, `before` ends with the start anchor, `after` starts with the end anchor, and the cuts sit at the first start anchor and the first end anchor. |
| ReadmeJobsTable.ExtractAnchoredBlockFails | lib/readme-sync/readmeJobsTable.ts:17-23 | Extraction fails exactly when there is no start anchor, or no end anchor, or some end anchor precedes every start anchor. |
| ReadmeJobsTable.ExtractAnchoredBlockUnique | lib/readme-sync/readmeJobsTable.ts:25-29 | Any split with the anchored-split properties is the one extraction returns. |
| ReadmeJobsTable.AnchoredBlockHasNoEnd | lib/readme-sync/readmeJobsTable.ts:19-26 | The block between the anchors never contains the end anchor. |
| ReadmeJobsTable.SplitTableCells | lib/readme-sync/readmeJobsTable.ts:42-49 | Every cell is trimmed and holds no pipe. |
| ReadmeJobsTable.TableRowCellCount | lib/readme-sync/readmeJobsTable.ts:36-49 | On a table row line the number of cells is the number of pipes minus one, so at least one. |
| ReadmeJobsTable.LooksLikeHeaderSome | lib/readme-sync/readmeJobsTable.ts:73 | A cell list looks like a header exactly when some cell is a header word. |
| ReadmeJobsTable.LooksLikeSeparatorEvery | lib/readme-sync/readmeJobsTable.ts:77 | A cell list looks like a separator exactly when every cell is a separator cell. |
| ReadmeJobsTable.KindOfTrim | lib/readme-sync/readmeJobsTable.ts:58-87 | A line's kind and the row read from it depend only on the trimmed line. |
| ReadmeJobsTable.FirstJobIdMatch | lib/readme-sync/readmeJobsTable.ts:96 | A found index holds `/job/` followed by 36 hex digits or hyphens, and no earlier index from the start holds such a match. |
| ReadmeJobsTable.ExtractJobPostingIdFromTrackCell | lib/readme-sync/readmeJobsTable.ts:93-99 | There is no id with fewer than three cells. Otherwise there is no id exactly when the third cell has no match. A found id is the 36 characters after the leftmost `/job/` match in the third cell. |
| ReadmeJobsTable.ParseExistingRowsFromBlock | lib/readme-sync/readmeJobsTable.ts:51-91 | The loop yields the buckets of `ParseLines` on the lines of the block. |
| ReadmeJobsTable.ParseLinesCount | lib/readme-sync/readmeJobsTable.ts:58-88 | Every line lands in exactly one of the three buckets. |
| ReadmeJobsTable.ParseLinesAppend | lib/readme-sync/readmeJobsTable.ts:58-88 | Parsing is line by line and keeps order: the buckets of `a + b` are those of `a` followed by those of `b`. |
| ReadmeJobsTable.ParseLinesSound | lib/readme-sync/readmeJobsTable.ts:61-87 | Header lines are trimmed lines classified as headers. Each row is the row of its own trimmed line, classified as data. Other lines are classified as other. |
| ReadmeJobsTable.CommunityLinesSound | lib/readme-sync/readmeJobsTable.ts:122 | Every community line is the raw line of an existing row without an id. |
| ReadmeJobsTable.CommunityLineSource | lib/readme-sync/readmeJobsTable.ts:122 | For each community line, names the existing row without an id whose raw line it is. |
| ReadmeJobsTable.CommunityLinesAppend | lib/readme-sync/readmeJobsTable.ts:122 | Community lines keep document order: those of `a + b` are those of `a` followed by those of `b`. |
| ReadmeJobsTable.KnownIds | lib/readme-sync/readmeJobsTable.ts:126-129 | An id is among the known ids exactly when it is in the order and in the map. |
| ReadmeJobsTable.SelectDbRowsFollowKnownIds | lib/readme-sync/readmeJobsTable.ts:124-130 | The selected rows are, one for one and in order, the map's rows for the known ids of the order, with ids missing from the map skipped and repeated ids repeated. |
| ReadmeJobsTable.SelectDbRowsAllKnown | lib/readme-sync/readmeJobsTable.ts:124-130 | When the map knows every id, there is exactly one row per id of the order, in that order. |
| ReadmeJobsTable.RowLineText | lib/readme-sync/readmeJobsTable.ts:104 | A rendered row is the five fields in column order, each with one space on either side, with a pipe before, between and after them. |
| ReadmeJobsTable.RenderJobsTable | lib/readme-sync/readmeJobsTable.ts:101-115 | The rendered block starts and ends with a line break. |
| ReadmeJobsTable.RenderedTableLines | lib/readme-sync/readmeJobsTable.ts:101-115 | The rendered block splits back into these lines: an empty line, the header lines (the given ones when there are at least two, else the default pair), one line per database row in order, the community lines in order, and an empty line. |
| ReadmeJobsTable.Merge | lib/readme-sync/readmeJobsTable.ts:117-140 | The merge fails exactly when extraction fails. The new README starts with `before` and ends with `after`. `changed` holds exactly when the text differs from the old one. |
| ReadmeJobsTable.MergedBlock | lib/readme-sync/readmeJobsTable.ts:120-136 | The new block starts and ends with a line break. |
| ReadmeJobsTable.MergeReadmeJobsTable | lib/readme-sync/readmeJobsTable.ts:117-161 | The method, with its selection loop, returns `Merge`. |
| ReadmeJobsTable.MergedBlockLines | lib/readme-sync/readmeJobsTable.ts:118-138 | After a merge, the text between the kept `before` and `after` splits into the old header lines (or the default), the selected database rows, then the id-less rows of the old block. |
| ReadmeIdempotence.PipeFramedCells | lib/readme-sync/readmeJobsTable.ts:36-49 | A pipe-framed join of pipe-free parts is a table row line whose cells are the trimmed parts. |
| ReadmeIdempotence.StableRowLine | lib/readme-sync/readmeJobsTable.ts:73-87 | A stable database row renders to a clean data line whose parsed row carries a job id. |
| ReadmeIdempotence.DefaultHeadersKept | lib/readme-sync/readmeJobsTable.ts:102 | Both default header lines are read back as header lines, unchanged. |
| ReadmeIdempotence.ReanchorRewrite | lib/readme-sync/readmeJobsTable.ts:17-29 | Putting a block that starts and ends with a line break and holds no end anchor between the anchors leaves the anchors where they were. |
| ReadmeIdempotence.ParsedBlockKept | lib/readme-sync/readmeJobsTable.ts:51-91 | The header and community lines parsed from a block are read back as the same headers and community rows. |
| ReadmeIdempotence.SelectedRowsStable | lib/readme-sync/readmeJobsTable.ts:124-130 | Every selected row is a row of the map, so it is stable when the map's rows are. |
| ReadmeIdempotence.RenderIsStable | lib/readme-sync/readmeJobsTable.ts:101-115 | Parsing a rendered block and rendering it again with the same database rows gives the same block. |
| ReadmeIdempotence.MergedBlockStable | lib/readme-sync/readmeJobsTable.ts:120-136 | The merged block is a fixed point of the block rewrite. |
| ReadmeIdempotence.MergeOfStableBlock | lib/readme-sync/readmeJobsTable.ts:117-140 | A README whose block is a fixed point of the rewrite merges to itself, with `changed` false. |
| ReadmeIdempotence.MergeIsIdempotent | lib/readme-sync/readmeJobsTable.ts:117-140 | Merging the merged README again with the same stable rows yields the same text and reports no change. |
| ExportJobs.KeepIf | lib/readme-sync/exportSgInternTechVerifiedJobs.ts:80-83 | Filtering keeps only passing rows and never grows the list. |
| ExportJobs.KeepIfCounts | lib/readme-sync/exportSgInternTechVerifiedJobs.ts:80-83 | Every passing row is kept as often as it occurs, and nothing else is kept. |
| ExportJobs.KeepIfTwice | lib/readme-sync/exportSgInternTechVerifiedJobs.ts:80-83 | Two filters in a row are one filter by both tests. |
| ExportJobs.FilterSgInternTechKeeps | lib/readme-sync/exportSgInternTechVerifiedJobs.ts:80-83 | The three chained filters keep exactly the rows with the Singapore, Internship and Tech tags. |
| ExportJobs.SortNewestFirstSorts | lib/readme-sync/exportSgInternTechVerifiedJobs.ts:84 | The sort yields a permutation of its input with non-increasing creation times. |
| ExportJobs.SortNewestFirstStable | lib/readme-sync/exportSgInternTechVerifiedJobs.ts:84 | Rows created at the same time keep their query order. |
| ExportJobs.ExportSgInternTechVerifiedJobs | lib/readme-sync/exportSgInternTechVerifiedJobs.ts:78-93 | A query error is passed on. Missing data counts as no rows. Otherwise there is one job per kept row, in order, each with the row's fields copied. |
| ExportJobs.ExportedRowsSpec | lib/readme-sync/exportSgInternTechVerifiedJobs.ts:80-86 | The exported rows are exactly the rows with all three tags, each as often as the query returned it, newest first, with equal times in query order. |
| ExportJobs.MissingTagsExcluded | lib/readme-sync/exportSgInternTechVerifiedJobs.ts:17-27 | A row whose country, experience-level or category array is missing is never exported. |
| SyncReadme.StripTrailingSlash | lib/readme-sync/syncReadmeSgInternTech.ts:45 | A URL ending in `/` loses exactly that slash; any other URL is unchanged. |
| SyncReadme.StripTrailingSlashOnce | lib/readme-sync/syncReadmeSgInternTech.ts:45 | Stripping undoes exactly one appended slash. |
| SyncReadme.ButtonImgAlt | lib/readme-sync/syncReadmeSgInternTech.ts:22 | The image starts with alt `Apply` exactly for the apply button, and with alt `Track` exactly for the track button. |
| SyncReadme.ButtonImgSource | lib/readme-sync/syncReadmeSgInternTech.ts:19-22 | The image's `src` attribute, `readme-buttons/<type>.svg`, comes right after the `alt` attribute. |
| SyncReadme.ButtonImgWidth | lib/readme-sync/syncReadmeSgInternTech.ts:20-22 | A width attribute is present exactly when a non-zero width is given, and then carries that width. |
| SyncReadme.ButtonImgPlain | lib/readme-sync/syncReadmeSgInternTech.ts:18-23 | A button image holds no pipe and no line break. |
| SyncReadme.EscapePipes | lib/readme-sync/syncReadmeSgInternTech.ts:33-36 | The escaped text is as long as the input plus its number of pipes. |
| SyncReadme.EscapedPipesFollowBackslash | lib/readme-sync/syncReadmeSgInternTech.ts:33-36 | Every pipe of the escaped text comes right after a backslash. |
| SyncReadme.UnescapeEscapePipes | lib/readme-sync/syncReadmeSgInternTech.ts:33-36 | Dropping the backslash before each pipe gives the input back. |
| SyncReadme.EscapePipesChars | lib/readme-sync/syncReadmeSgInternTech.ts:33-36 | The escaped text holds the input's characters, plus a backslash exactly when the input has a pipe. |
| SyncReadme.EscapeWithoutPipes | lib/readme-sync/syncReadmeSgInternTech.ts:33-36 | Text without a pipe is unchanged. |
| SyncReadme.ApplyCellPlaceholder | lib/readme-sync/syncReadmeSgInternTech.ts:62 | The apply cell is `-` exactly when the URL is missing or empty; otherwise it is a link on that URL. |
| SyncReadme.TrackMarkdownParts | lib/readme-sync/syncReadmeSgInternTech.ts:53-61 | The track cell is an `<a href="<base>/job/<id>?<campaign>">` around the track image. |
| SyncReadme.TrackCellGivesId | lib/readme-sync/syncReadmeSgInternTech.ts:53-61 | For an id of 36 hex digits or hyphens and a site URL without `/job/`, the parser reads the id back from the track cell. |
| SyncReadme.BuiltRowGivesIdBack | lib/readme-sync/syncReadmeSgInternTech.ts:58-64 | The rendered row of a stably rendering job is a data line carrying the job's own id. |
| SyncReadme.BuiltRowStable | lib/readme-sync/syncReadmeSgInternTech.ts:58-64 | The row built for a stably rendering job is a stable database row. |
| SyncReadme.DesiredRowsKeys | lib/readme-sync/syncReadmeSgInternTech.ts:57-58 | The map holds exactly the exported ids. |
| SyncReadme.DesiredRowsLastWins | lib/readme-sync/syncReadmeSgInternTech.ts:58-64 | An id shared by several jobs maps to the row of the last of them. |
| SyncReadme.DesiredRowsStable | lib/readme-sync/syncReadmeSgInternTech.ts:52-65 | When every job renders stably, every row of the map is stable. |
| SyncReadme.BuildDesiredRows | lib/readme-sync/syncReadmeSgInternTech.ts:49-65 | The loop yields the export-order id list and the id-to-row map. |
| SyncReadme.ReadmeRepository.GetReadmeFile | lib/readme-sync/githubContents.ts:40-68 | The read returns the file's current sha and text. |
| SyncReadme.ReadmeRepository.PutReadmeFile | lib/readme-sync/githubContents.ts:70-97 | The write is logged with its text, sha and message, and the file holds the new text. |
| SyncReadme.SyncReadmeSgInternTechVerifiedJobs | lib/readme-sync/syncReadmeSgInternTech.ts:44-88 | An export or anchor failure writes nothing. An unchanged merge writes nothing and reports no change and no commit message. A changed merge writes once, with the new text, the sha it read and the commit message, and reports the change, the job count and the message. |
| SyncReadme.SecondSyncWritesNothing | lib/readme-sync/syncReadmeSgInternTech.ts:69-77 | When every job renders stably, merging the merged README again with the same jobs reports no change, so a second sync writes nothing. |
| CompanyTable.KeepMatching | app/companies/TableCompany.tsx:51 | A company is kept exactly when it is in the list and its lower-cased name contains the lower-cased search. |
| CompanyTable.EmptyFilterKeepsAll | app/companies/TableCompany.tsx:47-52 | An empty search keeps every company, in order. |
| CompanyTable.FilterKeepsMatching | app/companies/TableCompany.tsx:47-52 | The filtered list holds exactly the matching companies, each as many times as the input does; an empty search keeps every company. |
| CompanyTable.KeepMatchingCounts | app/companies/TableCompany.tsx:51 | The name filter keeps every occurrence of a matching company and drops every occurrence of the others. |
| CompanyTable.FindOption | app/companies/TableCompany.tsx:55 | A found option is in the list and has the key; with none found, no option has the key. |
| CompanyTable.SelectedDirection | app/companies/TableCompany.tsx:55-63 | The sort is descending exactly for `name_desc`; `name_asc` and unknown keys sort ascending. |
| CompanyTable.CompareInOrder | app/companies/TableCompany.tsx:61-63 | The comparator is non-positive exactly when the pair is in order, and swapping the pair negates it. |
| CompanyTable.InOrderTotal | app/companies/TableCompany.tsx:61-63 | Any two companies are in order one way round. |
| CompanyTable.InOrderTransitive | app/companies/TableCompany.tsx:61-63 | Being in order is transitive. |
| CompanyTable.SortCompaniesCorrect | app/companies/TableCompany.tsx:57-64 | The sorted list is a permutation of its input, in order for the chosen direction. |
| CompanyTable.SortedAndFilteredCorrect | app/companies/TableCompany.tsx:47-65 | The shown list is a permutation of the filtered list, holds each matching company as many times as the input and no other company, and is sorted by lower-cased name, descending exactly for `name_desc`. |
| CompanyTable.Pages | app/companies/TableCompany.tsx:67 | There is at least one page, the pages hold every row, and no page but the first is empty. |
| CompanyTable.SliceIndex | app/companies/TableCompany.tsx:73 | A slice index is clamped to the list. |
| CompanyTable.PaginatedItems | app/companies/TableCompany.tsx:69-74 | A page holds at most ten rows. |
| CompanyTable.PageHoldsRow | app/companies/TableCompany.tsx:67-74 | Row `i` is at position `i % 10` of page `i / 10 + 1`, and that page is not past the last. |
| CompanyTable.PageContents | app/companies/TableCompany.tsx:69-74 | A page holds the rows from `(page - 1) * 10` on. Pages past the last are empty, and a full page holds ten rows. |
| CompanyTable.CompanyTableState.constructor | app/companies/TableCompany.tsx:39-42 | A fresh table has no search, is on page 1, and uses the URL's sort key or `name_asc`, so the sort key is one of the menu's keys. |
| CompanyTable.CompanyTableState.OnSearchChange | app/companies/TableCompany.tsx:76-89 | A non-empty search is stored and resets the page to 1. An empty one clears the search and keeps the page. The sort is kept, and stays one of the menu's keys. |
| CompanyTable.CompanyTableState.OnClear | app/companies/TableCompany.tsx:91-100 | Clearing empties the search and resets the page to 1, keeping the sort, which stays one of the menu's keys. |
| CompanyTable.CompanyTableState.HandleSortChange | app/companies/TableCompany.tsx:102-112 | Choosing one of the menu's sort keys stores it and resets the page to 1, keeping the search. |
| CompanyTable.CompanyTableState.HandlePageChange | app/companies/TableCompany.tsx:128-138 | The page becomes the chosen page; search and sort are kept, and the sort stays one of the menu's keys. |
| ClientIp.GetClientIp | lib/getClientIp.ts:28-33 | The address is never empty. |
| ClientIp.FirstPartBeforeComma | lib/getClientIp.ts:32 | The first part of a comma split is the text before the first comma, or all of it. |
| ClientIp.ClientIpChoice | lib/getClientIp.ts:28-33 | A non-empty trimmed first forwarded hop is returned, and it holds no comma and no surrounding space. Else a non-empty trimmed real-ip value is returned. Else the result is `unknown`. |
| ClickType.GetClickType | lib/getClickType.ts:13-18 | Shift gives a shift click whatever else is held. Without shift, command or control gives a command click. No modifier gives a row click. The result is never a right or middle click. |
| ClickType.IsMiddleClick | lib/getClickType.ts:21-23 | A middle click is exactly button 1, the auxiliary button. |
| ErrorHandling.GetErrorMessage | lib/errorHandling.ts:12-16 | An `Error` gives its message, and any other value gives its string form. |
| ErrorHandling.MessagesDiffer | lib/errorHandling.ts:5-10 | The duplicate-URL, duplicate-name and too-many-requests messages are pairwise distinct. |
| ErrorHandling.DuplicatesExclusive | lib/errorHandling.ts:18-24 | No value is both a duplicate-URL error and a duplicate-name error. |
| ErrorHandling.RateLimitIsNotDuplicate | lib/errorHandling.ts:26-36 | A rate-limit error is an `Error` with the too-many-requests message, and it is neither duplicate error. |

## Left out

- Transport: the GitHub contents API, its token, the base64 coding and its HTTP errors are not modelled. The README file is the `ReadmeRepository` class: a read returns its sha and text, and a write logs the request and replaces the text.
- SyncReadme.ReadmeRepository.PutReadmeFile: the sha after a write is unspecified (GitHub assigns a new one, which is not modelled), and a stale sha is never rejected, as GitHub would reject it.
- The database: the Supabase query and `buildSelectString` are not modelled. The query's outcome is an input: rows, no data, or an error.
- Time: parsing `created_at` into a time is the parameter `timeOf`. An unparsable date (`NaN` in JavaScript) is not modelled.
- Date formatting: the Singapore date formatter is the parameter `formatDate`. Its `""` for an invalid date falls under that parameter.
- Logging: the debug `console.log` diff in the merge is not modelled, as it has no effect on the result.
- Analytics and UI: the mixpanel events of the companies table and the table's rendering are not modelled.
- Headers and events: `headers.get` becomes two optional header values. A mouse event becomes its button number. A thrown value becomes an `Error` with its message and whether it has a `cause`, or another value with its `String` form.
- Strings: strings are sequences of Unicode scalar values, not UTF-16 code units. The `<` order on names and slice positions follow from that. `toLowerCase` is modelled as ASCII lower-casing, so non-ASCII case mapping is left out. The header regular expression's `/i` flag is exactly ASCII case folding.
- CompanyTable.SortCompaniesCorrect: does not state stability. Companies whose lower-cased names are equal keep their input order in the model, but no lemma says so.
- CompanyTable.CompanyTableState.constructor: takes the sort key the URL parser produced, `None` when the URL has no valid key. The parser itself is not modelled.
- Environment: the site URL setting is an optional parameter, and the default site is used only when it is absent.
- Server actions, API routes, rate limiting, schemas and the rest of the web application are not part of this model.
