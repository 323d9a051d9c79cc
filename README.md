# A verified model of the am_searchbot search engine core

The search engine crawls the configured sites and stores:

- their pages;
- the lemmas of each page, with a per-site frequency;
- one index row per (page, lemma), whose rank is the lemma's count in the page.

It answers four kinds of request over HTTP:

- statistics;
- starting and stopping indexing;
- reindexing one page;
- searching.

This project models that core in Dafny, one module per source class.

- `Util`: `Option`, the `java.lang.String` queries the code relies on, and iteration over a hash-based collection (every key once, in an order the program does not control).
- `Store`: the four repositories.
  - As an immutable snapshot `Db`, used by the functions and lemmas.
  - As a mutable `class Store`, used by the methods.
  - The invariant `Consistent`:
    - every index row joins an existing page and an existing lemma of the same site, with a positive rank;
    - a page has at most one row per lemma;
    - a lemma's frequency is the number of its index rows.
  - `FrequencyIsPageCount` turns the last point into "number of distinct pages". Every store operation keeps the invariant.
- `LemmasAndIndexes`: `collectLemmas` (tokenising, dropping particles, counting normal forms) and `creatingLemmasAndIndexes`. The second writes one lemma row and one index row per counted lemma, and swallows a store failure midway.
- `CreatingSiteMap`: the crawler task `CreatingSiteMap`, modelled as `class SiteMapTask`.
  - Status-code test and `getHref`.
  - Link validity: the `findByPath` check sees the pages saved by earlier links.
  - One page saved and indexed per accepted link, and the cancellation check.
  - The recursive crawl.
- `IndexingService`: each indexing job does four steps.
  1. Delete the old site row. The cascade removes its pages, lemmas and index rows.
  2. Save a fresh INDEXING row.
  3. Crawl.
  4. Mark the row INDEXED, only if the flag is still set.
- `StatisticsService`: one item per configured site, and totals. `TotalPagesCountsConfiguredPages` proves that the page total counts every stored page of the configured sites exactly once.
- `SearchRanking`, `SearchSnippet`, `SearchService`: the search pipeline, in order:
  1. The query's lemmas.
  2. The per-site lemma rows below frequency 50, sorted by frequency.
  3. The pages of the rarest lemma that have a row for every other one.
  4. Absolute relevance (a sum of ranks), divided by the maximum.
  5. Sorting, offset and limit.
  6. Title, and snippet. The snippet is a window of at most 270 characters with the query words in `<b>..</b>`.
- `ApiController`: the `/api` endpoints over one store, one `indexingProcessing` flag and the configured sites.

Asynchrony and outside services are handled like this:

- Indexing jobs and crawl tasks run one after the other.
- The network is the parameter `Web`. It gives:
  - the status code, links and HTML of a url;
  - the entry at which the store throws while a page is indexed, if it does;
  - whether a stop request lands after a page is indexed.
- The morphological analyser is the parameter `Morphology`.
- A page's visible text and title are function parameters.

The flag is set when indexing starts and is cleared only by `/stopIndexing`. After a run that no stop request reached, the flag is still set, so `/startIndexing` is refused until `/stopIndexing` is called; `Controller.StartIndexing` states this.

The pipeline in `SearchService` uses the corrected forms of the two defects listed under "## Findings".

## Model

Paths are relative to the repository root.

| member | source | states |
|---|---|---|
| Util.IndexOf | src/main/java/searchengine/services/Impl/SearchServiceImpl.java:103 | indexOf gives the first occurrence of the text, and -1 exactly when it does not occur |
| Util.LastIndexOf | src/main/java/searchengine/services/Impl/SearchServiceImpl.java:111 | lastIndexOf(char) gives a position holding the character with none after it, or -1 |
| Util.ReplaceAllUnchangedWhenAbsent | src/main/java/searchengine/services/Impl/SearchServiceImpl.java:150 | String.replace leaves a text that does not contain the target unchanged |
| Util.Enumerate | src/main/java/searchengine/utils/LemmasAndIndexes.java:38 | iterating a hash map's entries visits every key exactly once, without repetition |
| Store.DeleteSiteKeepsConsistent | src/main/java/searchengine/services/Impl/IndexingServiceImpl.java:55-56 | deleteById with its cascade keeps the store invariant and leaves no row, page or lemma of the site |
| Store.AddPageKeepsConsistent | src/main/java/searchengine/utils/CreatingSiteMap.java:81-85 | saving a page of a stored site under a path no page has keeps the invariant |
| Store.AddEdgeKeepsConsistent | src/main/java/searchengine/utils/LemmasAndIndexes.java:39-49 | creating the lemma with frequency 1 or raising it by 1, and appending the page's first index row for it, keeps frequency equal to the number of rows |
| Store.SaveSiteKeepsConsistent | src/main/java/searchengine/utils/LemmasAndIndexes.java:50-51 | saving a site row under its own url keeps the invariant |
| Store.PathsOfAddPage | src/main/java/searchengine/utils/CreatingSiteMap.java:85 | saving a page adds exactly its path to the paths findByPath can find |
| Store.FreshPageHasNoEdges | src/main/java/searchengine/utils/CreatingSiteMap.java:85-92 | a page just saved has no index row yet |
| Store.FrequencyIsPageCount | src/main/java/searchengine/utils/LemmasAndIndexes.java:39-49 | in a consistent store, a lemma's frequency is the number of distinct pages that have an index row for it |
| Store.RowCountIsPageCount | src/main/java/searchengine/utils/LemmasAndIndexes.java:46-49 | with at most one row per (page, lemma), counting rows is counting pages |
| Store.AppendCounts | src/main/java/searchengine/utils/LemmasAndIndexes.java:87-93 | appending an index row raises its lemma's row count and its (page, lemma) count by one and no other |
| Store.EdgeCountDropOther | src/main/java/searchengine/services/Impl/IndexingServiceImpl.java:56 | the cascade delete of a site leaves the (page, lemma) row counts of every other site as they were |
| Store.EdgesKept | src/main/java/searchengine/utils/LemmasAndIndexes.java:49 | index rows appended for other pages leave the row counts of a page as they were |
| Store.Store.constructor | src/main/java/searchengine/repositories/SiteRepository.java:1-14 | the repositories start empty and consistent |
| Store.Store.Now | src/main/java/searchengine/utils/LemmasAndIndexes.java:50 | Instant.now() returns the current time, and later readings are later |
| Store.Store.SaveSite | src/main/java/searchengine/utils/LemmasAndIndexes.java:51 | siteRepository.save upserts the row under its url and keeps the invariant |
| Store.Store.DeleteSiteByUrl | src/main/java/searchengine/services/Impl/IndexingServiceImpl.java:56 | deleteById leaves the store as the cascade delete of the site |
| Store.Store.SavePage | src/main/java/searchengine/utils/CreatingSiteMap.java:85 | pageRepository.save stores the page under a fresh id and keeps the invariant |
| Store.Store.SaveLemmaAndIndexRows | src/main/java/searchengine/utils/LemmasAndIndexes.java:41-49 | the lemma row with its new frequency and the index row are saved, and the invariant holds again |
| LemmasAndIndexes.NormalForms | src/main/java/searchengine/utils/LemmasAndIndexes.java:67 | getNormalForms never returns an empty list, so get(0) is safe |
| LemmasAndIndexes.KeepLettersAndSpaces | src/main/java/searchengine/utils/LemmasAndIndexes.java:60 | replaceAll("[^А-я\\s]", "") leaves only letters of А-я and whitespace |
| LemmasAndIndexes.TokensAreTheLetters | src/main/java/searchengine/utils/LemmasAndIndexes.java:60 | the words are non-empty runs of letters that together spell the text's letters in order; a text without letters gives the single word "" |
| LemmasAndIndexes.SplitOnSpacesWords | src/main/java/searchengine/utils/LemmasAndIndexes.java:60 | split("\\s+") gives non-empty runs of non-space characters of the text |
| LemmasAndIndexes.SplitOnSpacesConcat | src/main/java/searchengine/utils/LemmasAndIndexes.java:60 | the pieces of split("\\s+") together are the text without its whitespace |
| LemmasAndIndexes.NonSpaceSplit | src/main/java/searchengine/utils/LemmasAndIndexes.java:60 | removing whitespace commutes with cutting the text in two |
| LemmasAndIndexes.NonSpaceAppend | src/main/java/searchengine/utils/LemmasAndIndexes.java:60 | removing whitespace commutes with concatenation |
| LemmasAndIndexes.NonSpaceOfWord | src/main/java/searchengine/utils/LemmasAndIndexes.java:60 | a word without whitespace is unchanged by removing whitespace |
| LemmasAndIndexes.NonSpaceOfFiltered | src/main/java/searchengine/utils/LemmasAndIndexes.java:60 | the filtered text without whitespace is exactly the letters of the text |
| LemmasAndIndexes.TrimKeepsNonSpace | src/main/java/searchengine/utils/LemmasAndIndexes.java:60 | on the filtered text, trim() removes only whitespace |
| LemmasAndIndexes.TrimStartKeepsNonSpace | src/main/java/searchengine/utils/LemmasAndIndexes.java:60 | the leading part of trim() removes only whitespace |
| LemmasAndIndexes.TrimEndKeepsNonSpace | src/main/java/searchengine/utils/LemmasAndIndexes.java:60 | the trailing part of trim() removes only whitespace |
| LemmasAndIndexes.TrimEndOnlyDrops | src/main/java/searchengine/utils/LemmasAndIndexes.java:60 | trim() adds no character |
| LemmasAndIndexes.TrimStartOfSpacesIsEmpty | src/main/java/searchengine/utils/LemmasAndIndexes.java:60 | a filtered text without letters trims to the empty string |
| LemmasAndIndexes.NoLettersMeansOnlySpaces | src/main/java/searchengine/utils/LemmasAndIndexes.java:60 | a filtered text without letters is all whitespace |
| LemmasAndIndexes.SpacesTrimAway | src/main/java/searchengine/utils/LemmasAndIndexes.java:60 | trim() of whitespace only is empty |
| LemmasAndIndexes.ToLower | src/main/java/searchengine/utils/LemmasAndIndexes.java:63 | toLowerCase keeps the length of the word |
| LemmasAndIndexes.HasMarkMeans | src/main/java/searchengine/utils/LemmasAndIndexes.java:76 | the inner anyMatch holds exactly when the morph info contains one of the marks |
| LemmasAndIndexes.IsParticleMeans | src/main/java/searchengine/utils/LemmasAndIndexes.java:74-77 | a word is skipped exactly when one of its morph infos contains МЕЖД, ПРЕДЛ, СОЮЗ or ЧАСТ |
| LemmasAndIndexes.CountFormsIsMultiset | src/main/java/searchengine/utils/LemmasAndIndexes.java:68-69 | the count map is the multiset of kept normal forms: a key exactly when it occurs, valued by its number of occurrences (so at least 1) |
| LemmasAndIndexes.KeptFormsComplete | src/main/java/searchengine/utils/LemmasAndIndexes.java:61-67 | every word that is not a particle contributes its first normal form |
| LemmasAndIndexes.KeptFormsSound | src/main/java/searchengine/utils/LemmasAndIndexes.java:61-67 | every counted form is the first normal form of some word that is not a particle |
| LemmasAndIndexes.ParticlesAreNotCounted | src/main/java/searchengine/utils/LemmasAndIndexes.java:64-66 | a particle changes nothing, whatever the rest of the text |
| LemmasAndIndexes.CountStep | src/main/java/searchengine/utils/LemmasAndIndexes.java:63-69 | one more word leaves the counts alone if it is a particle, and otherwise adds one to the count of its normal form |
| LemmasAndIndexes.CollectLemmas | src/main/java/searchengine/utils/LemmasAndIndexes.java:58-72 | collectLemmas returns the count map of the first normal forms of the non-particle words of the text |
| LemmasAndIndexes.NewRowsShape | src/main/java/searchengine/utils/LemmasAndIndexes.java:87-93 | the j-th index row written is (page, j-th lemma, its count) |
| LemmasAndIndexes.NewRowsSnoc | src/main/java/searchengine/utils/LemmasAndIndexes.java:49 | writing one more lemma appends exactly its index row |
| LemmasAndIndexes.NothingWritten | src/main/java/searchengine/utils/LemmasAndIndexes.java:37-38 | before the loop the page has no rows and nothing is written |
| LemmasAndIndexes.RowsStep | src/main/java/searchengine/utils/LemmasAndIndexes.java:49 | the rows written so far grow by the row of the next lemma |
| LemmasAndIndexes.FreqStep | src/main/java/searchengine/utils/LemmasAndIndexes.java:41-48 | the frequency of the next lemma, and of no other, rises by one |
| LemmasAndIndexes.EdgesStep | src/main/java/searchengine/utils/LemmasAndIndexes.java:49 | the page gains an edge to the next lemma and to no other |
| LemmasAndIndexes.WriteStep | src/main/java/searchengine/utils/LemmasAndIndexes.java:39-51 | one pass of the loop extends what was written by exactly one lemma |
| LemmasAndIndexes.SaveLemmaAndIndex | src/main/java/searchengine/utils/LemmasAndIndexes.java:39-51 | one lemma: created with frequency 1 or raised by 1, its index row appended with rank = count, only the site's status time touched, invariant kept |
| LemmasAndIndexes.CreatingLemmasAndIndexes | src/main/java/searchengine/utils/LemmasAndIndexes.java:34-56 | the page's lemmas are collected; for those written before the store failed (if it did), frequencies rose by one and one row per lemma ranks it by its count; pages untouched; invariant kept |
| LemmasAndIndexes.WriteEntries | src/main/java/searchengine/utils/LemmasAndIndexes.java:36-55 | a store failure at an entry ends the loop and keeps the rows written before it |
| LemmasAndIndexes.WritePrefix | src/main/java/searchengine/utils/LemmasAndIndexes.java:38-52 | the loop over the entries writes each of them in turn |
| LemmasAndIndexes.WriteEntry | src/main/java/searchengine/utils/LemmasAndIndexes.java:39-51 | one entry written after the earlier ones |
| LemmasAndIndexes.IndexedMeans | src/main/java/searchengine/utils/LemmasAndIndexes.java:34-56 | an indexed page has at most one row per lemma, only for lemmas of its text on its site, and, when the store did not throw, a row for every lemma of its text |
| LemmasAndIndexes.IndexedKept | src/main/java/searchengine/utils/LemmasAndIndexes.java:34-56 | a page stays indexed while its row counts are unchanged |
| CreatingSiteMap.NatToString | src/main/java/searchengine/utils/CreatingSiteMap.java:119 | String.valueOf of a number is not empty |
| CreatingSiteMap.IntToString | src/main/java/searchengine/utils/CreatingSiteMap.java:119 | String.valueOf of an int is not empty, so charAt(0) is safe |
| CreatingSiteMap.FirstCharIsLeadingDigit | src/main/java/searchengine/utils/CreatingSiteMap.java:119-120 | the first character of the decimal form is the leading digit |
| CreatingSiteMap.FirstDigitTest | src/main/java/searchengine/utils/CreatingSiteMap.java:118-122 | a status is rejected exactly when it is non-negative and its leading digit is 4 or 5 |
| CreatingSiteMap.HttpErrorClasses | src/main/java/searchengine/utils/CreatingSiteMap.java:118-122 | for three-digit codes, the crawl stops exactly on the 4xx and 5xx classes |
| CreatingSiteMap.NextSemi | src/main/java/searchengine/utils/CreatingSiteMap.java:105 | ([^;]*) ends at the first ';' or at the end of the text |
| CreatingSiteMap.HrefScanNone | src/main/java/searchengine/utils/CreatingSiteMap.java:108-113 | without a lookbehind match the href stays "" |
| CreatingSiteMap.HrefScanResult | src/main/java/searchengine/utils/CreatingSiteMap.java:110-113 | with a match, the href is the last match found, made to end with '/' |
| CreatingSiteMap.HrefShape | src/main/java/searchengine/utils/CreatingSiteMap.java:104-116 | getHref is "" exactly when no ".ru"/".com" lookbehind matches; otherwise it is the last match up to ';', ending in '/' |
| CreatingSiteMap.GetHref | src/main/java/searchengine/utils/CreatingSiteMap.java:104-116 | the while (matcher.find()) loop computes that href: empty exactly when nothing matches, ending in '/' otherwise |
| CreatingSiteMap.AcceptedAreFreshAndDistinct | src/main/java/searchengine/utils/CreatingSiteMap.java:68-82 | every accepted link is one of the page's links, passes the shape test, has a path not yet stored, and no two accepted links share a path |
| CreatingSiteMap.SavedRows | src/main/java/searchengine/utils/CreatingSiteMap.java:137-144 | one page row per saved link |
| CreatingSiteMap.SavedRowsShape | src/main/java/searchengine/utils/CreatingSiteMap.java:83-85 | the i-th saved page has the site, the link's path, the parent's status code and the link's HTML |
| CreatingSiteMap.AddPagesShape | src/main/java/searchengine/utils/CreatingSiteMap.java:85 | saving rows keeps the old pages and puts the i-th row under the i-th fresh id |
| CreatingSiteMap.IndexedOfOldPage | src/main/java/searchengine/utils/CreatingSiteMap.java:85-92 | indexing the pages saved later leaves an earlier page indexed as it was |
| CreatingSiteMap.SavedIndexedKept | src/main/java/searchengine/utils/CreatingSiteMap.java:85-92 | indexing the pages saved later leaves the pages saved earlier indexed |
| CreatingSiteMap.UpdateStatusFailed | src/main/java/searchengine/utils/CreatingSiteMap.java:146-151 | the site row turns FAILED with error "Индексация прервана пользователем" and a new time; nothing else changes |
| CreatingSiteMap.NewPagesCompose | src/main/java/searchengine/utils/CreatingSiteMap.java:68-98 | the pages saved by consecutive passes add up |
| CreatingSiteMap.RowsOfNewPagesCompose | src/main/java/searchengine/utils/CreatingSiteMap.java:92 | the index rows written by consecutive passes add up |
| CreatingSiteMap.ProgressStep | src/main/java/searchengine/utils/CreatingSiteMap.java:68-98 | a pass of the link loop extends the progress of the node |
| CreatingSiteMap.PagesStep | src/main/java/searchengine/utils/CreatingSiteMap.java:83-92 | the pages and rows of one more pass extend those saved so far, in order |
| CreatingSiteMap.SavedIndexedStep | src/main/java/searchengine/utils/CreatingSiteMap.java:92 | the page one more pass indexed joins the pages indexed so far, each under its own id |
| CreatingSiteMap.SavedIndexedAppend | src/main/java/searchengine/utils/CreatingSiteMap.java:92 | two runs of indexed pages numbered one after the other are one run |
| CreatingSiteMap.SitesAfterCompose | src/main/java/searchengine/utils/CreatingSiteMap.java:94-97 | the site rows stay untouched but for status times until the node fails |
| CreatingSiteMap.FailAfterTouched | src/main/java/searchengine/utils/CreatingSiteMap.java:94-97 | failing after only status times moved is the one allowed change |
| CreatingSiteMap.AcceptedStep | src/main/java/searchengine/utils/CreatingSiteMap.java:72-82 | the loop accepts a link exactly when the accepted-links list starts with it |
| CreatingSiteMap.AcceptedPass | src/main/java/searchengine/utils/CreatingSiteMap.java:68-89 | after each pass, the queued tasks followed by the links still to be accepted are all the accepted links |
| CreatingSiteMap.AcceptedShape | src/main/java/searchengine/utils/CreatingSiteMap.java:72-82 | every link the loop accepts contains the root and passes the shape test of linkIsValid |
| CreatingSiteMap.CrawledOfProgress | src/main/java/searchengine/utils/CreatingSiteMap.java:60-99 | a node's link loop is a crawl: old pages kept; new pages of the site, each fetched from a link that contains the root and passes the shape test; rows ranking lemmas by count |
| CreatingSiteMap.PageFromWebSame | src/main/java/searchengine/utils/CreatingSiteMap.java:83-92 | a page fetched from a link stays so while pages and rows stay |
| CreatingSiteMap.PageFromWebKept | src/main/java/searchengine/utils/CreatingSiteMap.java:83-92 | a page fetched from a link stays so while only later pages gain rows |
| CreatingSiteMap.SavedAreRootPages | src/main/java/searchengine/utils/CreatingSiteMap.java:83-92 | the i-th page a node saved is stored under the i-th fresh id, with the site, the node's status code, the i-th link's path and HTML, and indexed |
| CreatingSiteMap.RootPageFromWeb | src/main/java/searchengine/utils/CreatingSiteMap.java:83-92 | a page a node saved for a link was fetched from that link and indexed |
| CreatingSiteMap.CrawledCompose | src/main/java/searchengine/utils/CreatingSiteMap.java:100-101 | a crawl followed by the crawls of the children is a crawl, and stays stopped once stopped |
| CreatingSiteMap.NoProgress | src/main/java/searchengine/utils/CreatingSiteMap.java:63-65 | a node rejected by its status code changes nothing |
| CreatingSiteMap.LoopStart | src/main/java/searchengine/utils/CreatingSiteMap.java:66-68 | before the first link the loop has queued nothing, saved nothing and left the flag alone |
| CreatingSiteMap.NothingComputed | src/main/java/searchengine/utils/CreatingSiteMap.java:62-65 | on a status code starting with 4 or 5 compute returns having changed nothing |
| CreatingSiteMap.LoopedComputed | src/main/java/searchengine/utils/CreatingSiteMap.java:68-99 | when the link loop ends, at its last link or at a stop, compute has done what it promises |
| CreatingSiteMap.RootCrawlOfComputed | src/main/java/searchengine/utils/CreatingSiteMap.java:60-99 | the link loop of the first node stores the accepted links' pages under consecutive fresh ids, indexed, and queues those links, all of them unless a stop came |
| CreatingSiteMap.ChildStep | src/main/java/searchengine/utils/CreatingSiteMap.java:100-101 | the node followed by one more child crawl still crawls the site and keeps the node's first pages; the flag is only cleared, and only by a stop |
| CreatingSiteMap.RootCrawlKept | src/main/java/searchengine/utils/CreatingSiteMap.java:100-101 | child crawls, which add pages and rows only for new pages, keep what the first node saved and indexed |
| CreatingSiteMap.SiteMapTask.constructor | src/main/java/searchengine/utils/CreatingSiteMap.java:39-56 | a task holds its site, url, root, store and flag, with no child tasks |
| CreatingSiteMap.SiteMapTask.SaveAndIndex | src/main/java/searchengine/utils/CreatingSiteMap.java:83-92 | the page is saved, its child task queued, and its lemmas indexed with rank = count |
| CreatingSiteMap.SiteMapTask.CheckFlag | src/main/java/searchengine/utils/CreatingSiteMap.java:94-97 | a cleared flag turns the site FAILED and stops the node; otherwise nothing changes |
| CreatingSiteMap.SiteMapTask.SaveIndexAndCheck | src/main/java/searchengine/utils/CreatingSiteMap.java:83-97 | a valid link adds its path, its page, its task and the page's index rows; a stop during that indexing clears the flag, and then the site turns FAILED and the node stops |
| CreatingSiteMap.SiteMapTask.VisitLink | src/main/java/searchengine/utils/CreatingSiteMap.java:69-98 | an accepted link adds its path, page, task and index rows; a rejected one changes nothing; stopped exactly when an accepted link found the flag cleared |
| CreatingSiteMap.SiteMapTask.LinkPass | src/main/java/searchengine/utils/CreatingSiteMap.java:68-98 | a pass of the link loop keeps the loop's state description |
| CreatingSiteMap.SiteMapTask.LinkLoop | src/main/java/searchengine/utils/CreatingSiteMap.java:68-99 | the for loop over the links, from an empty task list, ends having done what compute promises |
| CreatingSiteMap.SiteMapTask.Compute | src/main/java/searchengine/utils/CreatingSiteMap.java:60-99 | a 4xx/5xx status changes nothing; otherwise the queued links are the links the loop accepts, in order, or a prefix of them when stopped; their pages are saved with the status code and indexed; the flag is cleared exactly when a stop came during one of their indexings, and the node stops at the last queued link |
| CreatingSiteMap.NodeComputed | src/main/java/searchengine/utils/CreatingSiteMap.java:60-99 | what compute leaves before the fork is the first node of a crawl; the node stopped exactly when a task's indexing met a stop or the flag was already cleared, and it saved one page per task |
| CreatingSiteMap.SiteMapTask.Run | src/main/java/searchengine/utils/CreatingSiteMap.java:60-102 | the whole crawl from this node keeps the stored pages, adds only pages of the site, each fetched from a link and indexed, ranks their lemmas by count; the node's own links are stored first, under consecutive ids; the flag is only cleared, and only by a stop request; a 4xx/5xx status changes nothing; a node stopped in its own link loop forks no child, so the store gains exactly the node's own pages |
| CreatingSiteMap.SiteMapTask.ForkChildren | src/main/java/searchengine/utils/CreatingSiteMap.java:100-101 | forking and joining every child task keeps what the crawl so far promises |
| CreatingSiteMap.SiteMapTask.ForkChild | src/main/java/searchengine/utils/CreatingSiteMap.java:100-101 | one child task crawls from its link into the same store and flag, and the crawl so far stays a crawl |
| IndexingService.MapAndSaveSiteEntityWithIndexingStatus | src/main/java/searchengine/services/Impl/IndexingServiceImpl.java:69-77 | a fresh INDEXING row with url, name, the current time and no error is saved; nothing else changes |
| IndexingService.UpdateStatusIndexed | src/main/java/searchengine/services/Impl/IndexingServiceImpl.java:79-83 | the row turns INDEXED with a new time; nothing else changes |
| IndexingService.ClearedByDelete | src/main/java/searchengine/services/Impl/IndexingServiceImpl.java:55-56 | deleting the old row leaves nothing of the site and keeps everything of the others |
| IndexingService.ClearedWhenAbsent | src/main/java/searchengine/services/Impl/IndexingServiceImpl.java:55-56 | a site without a row has nothing to clear |
| IndexingService.PathsOfCleared | src/main/java/searchengine/services/Impl/IndexingServiceImpl.java:55-57 | after the clear, findByPath finds exactly the paths of the other sites |
| IndexingService.RowsOfSiteAfterCrawl | src/main/java/searchengine/services/Impl/IndexingServiceImpl.java:55-60 | after the clear and the crawl, every index row of the site belongs to a new page and ranks by count |
| IndexingService.SitesOfJob | src/main/java/searchengine/services/Impl/IndexingServiceImpl.java:55-64 | a job leaves the site's row fresh, INDEXED while the flag held, and INDEXING or FAILED otherwise |
| IndexingService.ContentOfJob | src/main/java/searchengine/services/Impl/IndexingServiceImpl.java:55-64 | a job keeps the other sites' pages and rows, and every page and row of the site comes from the new crawl |
| IndexingService.PagesOfJob | src/main/java/searchengine/services/Impl/IndexingServiceImpl.java:55-64 | the other sites' pages are kept and the site's pages are new |
| IndexingService.RowsOfOthersAfterCrawl | src/main/java/searchengine/services/Impl/IndexingServiceImpl.java:55-60 | after a job every index row of another site is one it had before |
| IndexingService.EdgesOfJob | src/main/java/searchengine/services/Impl/IndexingServiceImpl.java:55-60 | the pages stored before a job lose exactly their rows of the job's site |
| IndexingService.GeneralMethod | src/main/java/searchengine/services/Impl/IndexingServiceImpl.java:51-67 | one indexing job: the site gets a fresh row, INDEXED while the flag held; the other sites keep their pages and rows; every page of the site comes from the crawl from link, fetched and indexed, the link's own links stored first; the flag is only cleared, and stays set without a stop request |
| IndexingService.JobOutcome | src/main/java/searchengine/services/Impl/IndexingServiceImpl.java:55-64 | the clear, the fresh row, the crawl and the final status together reindex the site from link |
| IndexingService.JobCrawledAt | src/main/java/searchengine/services/Impl/IndexingServiceImpl.java:62-64 | marking the row INDEXED leaves the crawl's first pages in place |
| IndexingService.JobsStep | src/main/java/searchengine/services/Impl/IndexingServiceImpl.java:40-42 | each job extends the jobs before it |
| IndexingService.StartIndexing | src/main/java/searchengine/services/Impl/IndexingServiceImpl.java:37-43 | the jobs run one per configured site, in the order of the configuration: the trace holds the store each job found, each job reindexes its site and crawls from its url, starting on the store the job before it left; after them every configured site has a fresh row, all INDEXED unless a stop came; the other sites keep their pages and rows; every page of a configured site is new, fetched from a link under the site's url and indexed; each site holds the first pages of the last crawl from its url, over the paths the other sites had and under the ids that were next when that job started; without a stop request the flag stays set |
| IndexingService.JobsStart | src/main/java/searchengine/services/Impl/IndexingServiceImpl.java:39-40 | before the first job nothing is done and the flag is set |
| IndexingService.RunJob | src/main/java/searchengine/services/Impl/IndexingServiceImpl.java:41 | the job for the i-th configured site appends the store it leaves to the trace and extends what the jobs before it did |
| IndexingService.JobStep | src/main/java/searchengine/services/Impl/IndexingServiceImpl.java:40-42 | one more job extends the trace and keeps the statuses, the content and the crawls of all jobs so far |
| IndexingService.JobsTraceStep | src/main/java/searchengine/services/Impl/IndexingServiceImpl.java:40-42 | one more job extends the trace: the store it left is a reindexing of its site, crawled from the site's url, of the store it found |
| IndexingService.JobsPagesStep | src/main/java/searchengine/services/Impl/IndexingServiceImpl.java:40-42 | after one more job the unconfigured sites keep their pages and every page of a configured site is new and fetched |
| IndexingService.PageOfEarlierJob | src/main/java/searchengine/services/Impl/IndexingServiceImpl.java:40-42 | a page an earlier job crawled for another site survives a later job, still fetched and indexed |
| IndexingService.JobsRowsStep | src/main/java/searchengine/services/Impl/IndexingServiceImpl.java:40-42 | after one more job the unconfigured sites keep their rows and every row of a configured site is new and ranks by count |
| IndexingService.JobsContentStep | src/main/java/searchengine/services/Impl/IndexingServiceImpl.java:40-42 | one more job keeps the content promise of the jobs so far |
| IndexingService.JobsCrawledStep | src/main/java/searchengine/services/Impl/IndexingServiceImpl.java:40-42 | one more job adds its own crawl from its url, pinned to the store it started on, and keeps the first pages of the earlier jobs' crawls of other sites |
| IndexingService.IndexedAcrossJob | src/main/java/searchengine/services/Impl/IndexingServiceImpl.java:55-60 | a job for another site leaves a page indexed as it was |
| IndexingService.PageFromWebAcrossJob | src/main/java/searchengine/services/Impl/IndexingServiceImpl.java:55-60 | a job for another site leaves a fetched page fetched |
| IndexingService.RootCrawlAcrossJob | src/main/java/searchengine/services/Impl/IndexingServiceImpl.java:55-60 | a job for another site keeps the first pages of a crawl |
| IndexingService.RootPageAcrossJob | src/main/java/searchengine/services/Impl/IndexingServiceImpl.java:55-60 | a job for another site keeps a page a crawl saved for a link |
| IndexingService.IndexPage | src/main/java/searchengine/services/Impl/IndexingServiceImpl.java:45-49 | the flag is set and the site reindexed from the link: fresh row, other sites kept, every page of the site fetched and indexed, the link's own links stored first; without a stop request the flag stays set |
| StatisticsService.ItemFor | src/main/java/searchengine/services/Impl/StatisticsServiceImpl.java:37-48 | a site with a row reports status, time, the counts of its pages and lemmas, and "" for a null error; one without a row reports NOT INDEXED with name and url swapped |
| StatisticsService.GetStatistics | src/main/java/searchengine/services/Impl/StatisticsServiceImpl.java:28-62 | result true, indexing true, one item per configured site in order, totals that add the items up |
| StatisticsService.ItemCountsSitePages | src/main/java/searchengine/services/Impl/StatisticsServiceImpl.java:37-48 | an item's page count is the number of stored pages of its site, also for a site without a row |
| StatisticsService.ConfiguredPagesSnoc | src/main/java/searchengine/services/Impl/StatisticsServiceImpl.java:36-50 | the pages of one more site are disjoint from those of the others |
| StatisticsService.TotalPagesCountsConfiguredPages | src/main/java/searchengine/services/Impl/StatisticsServiceImpl.java:36-50 | with distinct site urls, total.pages counts every stored page of the configured sites exactly once |
| SearchRanking.CreateSearchList | src/main/java/searchengine/services/Impl/SearchServiceImpl.java:219-223 | a given site alone, or the urls of all configured sites in order |
| SearchRanking.SitesExistWithStatusIndexed | src/main/java/searchengine/services/Impl/SearchServiceImpl.java:230-234 | true exactly when every url has a row with status INDEXED |
| SearchRanking.FoundLemmas | src/main/java/searchengine/services/Impl/SearchServiceImpl.java:210-214 | at most one lemma row per query lemma |
| SearchRanking.FoundLemmasMembership | src/main/java/searchengine/services/Impl/SearchServiceImpl.java:210-214 | the rows found are exactly the site's rows of query lemmas below frequency 50; all lemmas are found exactly when each has such a row |
| SearchRanking.InsertByFrequencyKeeps | src/main/java/searchengine/services/Impl/SearchServiceImpl.java:215 | insertion keeps the elements |
| SearchRanking.InsertByFrequencyBound | src/main/java/searchengine/services/Impl/SearchServiceImpl.java:215 | insertion keeps a lower bound on frequencies |
| SearchRanking.InsertByFrequencySpec | src/main/java/searchengine/services/Impl/SearchServiceImpl.java:215 | insertion into a list ordered by frequency keeps it ordered |
| SearchRanking.SortByFrequencySpec | src/main/java/searchengine/services/Impl/SearchServiceImpl.java:215 | sorting by frequency is a permutation in ascending frequency |
| SearchRanking.SearchLemmasOnSitesSpec | src/main/java/searchengine/services/Impl/SearchServiceImpl.java:208-217 | searchLemmasOnSites gives the query's rows below frequency 50, ascending by frequency; full length exactly when every query lemma has one |
| SearchRanking.RowsOf | src/main/java/searchengine/services/Impl/SearchServiceImpl.java:167 | findAllByLemmaEntity gives exactly the index rows of the lemma |
| SearchRanking.RankOf | src/main/java/searchengine/services/Impl/SearchServiceImpl.java:182 | findByPageEntityAndLemmaEntity finds a row exactly when one exists, with that row's rank |
| SearchRanking.SeedOfRows | src/main/java/searchengine/services/Impl/SearchServiceImpl.java:167-171 | the seed map holds exactly the pages with a row for the rarest lemma, each with that row's rank |
| SearchRanking.HasRowsUpToMeans | src/main/java/searchengine/services/Impl/SearchServiceImpl.java:181-186 | a page passes the scan exactly when it has a row for every lemma after the first |
| SearchRanking.VisitPage | src/main/java/searchengine/services/Impl/SearchServiceImpl.java:181-189 | the inner loop as written: the page survives exactly when it has a row for the last lemma, scored by its seed rank plus that row's rank; other pages untouched |
| SearchRanking.SettledStep | src/main/java/searchengine/services/Impl/SearchServiceImpl.java:180 | visiting one more page of the entry set settles it |
| SearchRanking.SettledAll | src/main/java/searchengine/services/Impl/SearchServiceImpl.java:180-191 | once every page is visited the map is the goal |
| SearchRanking.GetRelevantPagesForTheQuery | src/main/java/searchengine/services/Impl/SearchServiceImpl.java:178-192 | the method as written computes the as-written scores |
| SearchRanking.ScorePage | src/main/java/searchengine/services/Impl/SearchServiceImpl.java:181-189 | corrected inner loop: present exactly when every later lemma has a row, scored by the seed rank plus their ranks |
| SearchRanking.RelevantPages | src/main/java/searchengine/services/Impl/SearchServiceImpl.java:178-192 | the corrected method computes the intended scores |
| SearchRanking.AsWrittenAgreesUpToTwoLemmas | src/main/java/searchengine/services/Impl/SearchServiceImpl.java:181-189 | with at most two lemmas, the loop as written does what is intended |
| SearchRanking.AsWrittenKeepsPageMissingMiddleLemma | src/main/java/searchengine/services/Impl/SearchServiceImpl.java:183-188 | with three lemmas, the loop as written keeps a page that lacks the middle one |
| SearchRanking.IntendedScoresSpec | src/main/java/searchengine/services/Impl/SearchServiceImpl.java:178-192 | a scored page has a row for every lemma and a score at least its seed rank; a page without the last lemma is dropped by both versions |
| SearchSnippet.GetReplaceWord | src/main/java/searchengine/services/Impl/SearchServiceImpl.java:139-154 | the loop over the query lemmas and the matcher loop compute the replacement function |
| SearchSnippet.InsertTags | src/main/java/searchengine/services/Impl/SearchServiceImpl.java:123-137 | insertingTags runs getReplaceWord for every word and each of its normal forms |
| SearchSnippet.ReplaceWordIsOneScan | src/main/java/searchengine/services/Impl/SearchServiceImpl.java:141-152 | with distinct query lemmas, getReplaceWord scans once when the normal form is a query lemma, and otherwise changes nothing |
| SearchSnippet.ReplaceFromWithoutMatch | src/main/java/searchengine/services/Impl/SearchServiceImpl.java:148-151 | without a regex match the text is unchanged |
| SearchSnippet.ReplaceFromTagsOnce | src/main/java/searchengine/services/Impl/SearchServiceImpl.java:145-151 | when one replacement leaves no " word", the loop tags every " word" exactly once if the regex matched, and otherwise changes nothing |
| SearchSnippet.SnippetStartAsWritten | src/main/java/searchengine/services/Impl/SearchServiceImpl.java:107-114 | the scan as written starts the window at 0 or at a position of the text before the tag |
| SearchSnippet.SnippetStart | src/main/java/searchengine/services/Impl/SearchServiceImpl.java:107-114 | the corrected scan starts the window at 0 or at a position of the text before the tag |
| SearchSnippet.GetSnippet | src/main/java/searchengine/services/Impl/SearchServiceImpl.java:97-121 | the corrected getSnippet computes the snippet function |
| SearchSnippet.SnippetShape | src/main/java/searchengine/services/Impl/SearchServiceImpl.java:97-121 | a snippet exists exactly when the text has a tag; it is a window of at most 270 characters starting no later than the first tag, followed by "..." |
| SearchSnippet.SnippetStartAgrees | src/main/java/searchengine/services/Impl/SearchServiceImpl.java:107-114 | where the scan as written does not throw, it agrees with the corrected scan |
| SearchSnippet.SnippetAsWrittenThrowsWithoutCapital | src/main/java/searchengine/services/Impl/SearchServiceImpl.java:106-114 | "abc <b>x</b>" makes getSnippet as written throw at charAt(-1) |
| SearchSnippet.SnippetWithoutCapital | src/main/java/searchengine/services/Impl/SearchServiceImpl.java:106-120 | on "abc <b>x</b>" the corrected getSnippet gives "abc <b>x</b>..." |
| SearchSnippet.ScanOfExample | src/main/java/searchengine/services/Impl/SearchServiceImpl.java:107-114 | the backward scan of "abc " throws as written and starts at 0 when corrected |
| SearchService.GetPagesAndAbsRelevanceMap | src/main/java/searchengine/services/Impl/SearchServiceImpl.java:156-176 | the loop over the sites computes the absolute scores, a later site's putAll winning (corrected pipeline; see "## Left out") |
| SearchService.SeedMap | src/main/java/searchengine/services/Impl/SearchServiceImpl.java:168-171 | the loop over the index rows builds the seed map |
| SearchService.MatchedAreTheQuery | src/main/java/searchengine/services/Impl/SearchServiceImpl.java:161-163 | when all lemmas matched, the matched rows are exactly the rows of the query lemmas |
| SearchService.AllRowsMeansMatch | src/main/java/searchengine/services/Impl/SearchServiceImpl.java:180-189 | a page has a row for every matched lemma exactly when it holds every query lemma on the site |
| SearchService.SiteScoresSpec | src/main/java/searchengine/services/Impl/SearchServiceImpl.java:159-173 | a site scores exactly the pages holding every query lemma below frequency 50, each stored with a score of at least 1 (corrected pipeline; see "## Left out") |
| SearchService.InScopeSnoc | src/main/java/searchengine/services/Impl/SearchServiceImpl.java:159 | a page is in scope of one more site exactly when it was, or matches that site |
| SearchService.AbsScoresSpec | src/main/java/searchengine/services/Impl/SearchServiceImpl.java:156-176 | the scored pages are exactly the stored pages holding all query lemmas on some site in scope, each scored at least 1; an empty query scores nothing (corrected pipeline; see "## Left out") |
| SearchService.MaxAbsRelevance | src/main/java/searchengine/services/Impl/SearchServiceImpl.java:58 | Collections.max gives a value of the map that no value exceeds |
| SearchService.NormaliseRelevance | src/main/java/searchengine/services/Impl/SearchServiceImpl.java:60-63 | every page's relative relevance is its absolute one divided by the maximum |
| SearchService.QuotientInUnit | src/main/java/searchengine/services/Impl/SearchServiceImpl.java:62 | a positive value divided by a value no smaller lies in (0, 1], and is 1 when they are equal |
| SearchService.RelevanceBounds | src/main/java/searchengine/services/Impl/SearchServiceImpl.java:58-63 | every relative relevance lies in (0, 1], and the best page has 1 |
| SearchService.LargestExists | src/main/java/searchengine/services/Impl/SearchServiceImpl.java:58 | Collections.max of a non-empty map is a value of the map that no value exceeds |
| SearchService.InsertDescendingKeeps | src/main/java/searchengine/services/Impl/SearchServiceImpl.java:66 | insertion keeps the entries |
| SearchService.InsertDescendingSpec | src/main/java/searchengine/services/Impl/SearchServiceImpl.java:66 | insertion into a list sorted by descending relevance keeps it sorted |
| SearchService.SortDescendingSpec | src/main/java/searchengine/services/Impl/SearchServiceImpl.java:65-66 | sorting by reverse relevance is a permutation in descending order |
| SearchService.SkipLimit | src/main/java/searchengine/services/Impl/SearchServiceImpl.java:67-68 | skip(offset).limit(limit): the entries from offset on, at most limit of them (as many as remain when fewer), and an exception for a negative offset or limit |
| SearchService.TitleUrl | src/main/java/searchengine/services/Impl/SearchServiceImpl.java:196-198 | a path starting with "/" is prefixed with the site url; otherwise it is used as is |
| SearchService.PageData | src/main/java/searchengine/services/Impl/SearchServiceImpl.java:80-86 | the search data of one page, failing where getSnippet throws |
| SearchService.Describe | src/main/java/searchengine/services/Impl/SearchServiceImpl.java:76-95 | the response is found with count = number of pages = number of data items, or an exception |
| SearchService.DescribeData | src/main/java/searchengine/services/Impl/SearchServiceImpl.java:78-88 | the i-th data item describes the i-th page |
| SearchService.DescribeCrash | src/main/java/searchengine/services/Impl/SearchServiceImpl.java:84-85 | getSearchResponse throws exactly when getSnippet throws on one of the pages |
| SearchService.GetSearchResponse | src/main/java/searchengine/services/Impl/SearchServiceImpl.java:76-95 | the loop over the pages builds that response |
| SearchService.CrashPersists | src/main/java/searchengine/services/Impl/SearchServiceImpl.java:78-88 | an exception on an earlier page ends the whole response |
| SearchService.CutIsGood | src/main/java/searchengine/services/Impl/SearchServiceImpl.java:67-68 | offset and limit keep the order and the good entries; with offset 0 the first entry stays first |
| SearchService.OutcomeOfRanked | src/main/java/searchengine/services/Impl/SearchServiceImpl.java:71 | the response lists hits of the query in descending relevance, or fails |
| SearchService.RelativeRelevance | src/main/java/searchengine/services/Impl/SearchServiceImpl.java:58-65 | each scored page once, with its score divided by the largest, so a stored page in scope with relevance in (0, 1], one of them 1 |
| SearchService.MapEntries | src/main/java/searchengine/services/Impl/SearchServiceImpl.java:65 | entrySet().stream() lists each page once with its value |
| SearchService.RankPages | src/main/java/searchengine/services/Impl/SearchServiceImpl.java:58-66 | those entries, each scored page once, in descending relevance, the first with relevance 1 |
| SearchService.EntriesAreNormalised | src/main/java/searchengine/services/Impl/SearchServiceImpl.java:60-65 | the entries of the map dividing each score by the maximum are each scored page once with its quotient |
| SearchService.PermutationNormalised | src/main/java/searchengine/services/Impl/SearchServiceImpl.java:65-66 | sorting those entries keeps each scored page once with its quotient |
| SearchService.NormalisedIsGood | src/main/java/searchengine/services/Impl/SearchServiceImpl.java:58-63 | those entries are stored pages in scope with relevance in (0, 1], one of them 1 |
| SearchService.RankingIsGood | src/main/java/searchengine/services/Impl/SearchServiceImpl.java:58-66 | a ranking of them starts with relevance 1 |
| SearchService.StoredWindow | src/main/java/searchengine/services/Impl/SearchServiceImpl.java:67-68 | skip and limit keep only stored pages |
| SearchService.RankAndDescribe | src/main/java/searchengine/services/Impl/SearchServiceImpl.java:58-73 | the response is the outcome of some ranking of the scored pages: each once, in descending relevance, cut by offset and limit; a negative offset or limit throws |
| SearchService.SnippetOfIsSnippet | src/main/java/searchengine/services/Impl/SearchServiceImpl.java:85 | the snippet function used for the response is getSnippet of the tagged text (corrected pipeline; see "## Left out") |
| SearchService.ScorePages | src/main/java/searchengine/services/Impl/SearchServiceImpl.java:51-53 | the lemma set is enumerated once each; every page in scope is scored, each scored page is a stored match with score at least 1; an empty query scores nothing (corrected pipeline; see "## Left out") |
| SearchService.AbsScoresSnoc | src/main/java/searchengine/services/Impl/SearchServiceImpl.java:159-173 | one more site in scope adds its scores over those of the earlier ones |
| SearchService.ScoredAreHits | src/main/java/searchengine/services/Impl/SearchServiceImpl.java:51-53 | whatever the order of the lemmas, the scored pages are exactly the hits, each stored, in scope and scored at least 1 (corrected pipeline; see "## Left out") |
| SearchService.NothingScoredAnswered | src/main/java/searchengine/services/Impl/SearchServiceImpl.java:54-56 | with nothing scored, the empty response is the answer |
| SearchService.RankingAnswered | src/main/java/searchengine/services/Impl/SearchServiceImpl.java:58-73 | the outcome of a ranking of the scored pages is the answer |
| SearchService.WindowSpec | src/main/java/searchengine/services/Impl/SearchServiceImpl.java:67-71 | the window of a good ranking counts min(limit, max(0, n - offset)) results, all hits in descending relevance starting at 1 on the first page; a negative offset or limit throws |
| SearchService.WindowComplete | src/main/java/searchengine/services/Impl/SearchServiceImpl.java:67-71 | with offset 0 and a limit of at least the ranking's length, a found response lists every ranked page |
| SearchService.WindowCrash | src/main/java/searchengine/services/Impl/SearchServiceImpl.java:67-85 | a window that throws with valid offset and limit holds a page whose snippet throws |
| SearchService.CoveredAreListed | src/main/java/searchengine/services/Impl/SearchServiceImpl.java:65-88 | when every ranked page is listed, every scored page is |
| SearchService.ThrowingPageIsScored | src/main/java/searchengine/services/Impl/SearchServiceImpl.java:85 | a ranked page whose snippet throws is a scored page whose snippet throws |
| SearchService.RankedWindow | src/main/java/searchengine/services/Impl/SearchServiceImpl.java:58-71 | the window of a ranking counts against the number of hits and lists hits in order |
| SearchService.RankedComplete | src/main/java/searchengine/services/Impl/SearchServiceImpl.java:58-71 | with offset 0 and a limit of at least the number of hits, a found response lists every hit |
| SearchService.RankedCrash | src/main/java/searchengine/services/Impl/SearchServiceImpl.java:58-85 | a ranking's window throws exactly on a negative offset or limit with a hit, or on a hit whose snippet throws |
| SearchService.OrderedCount | src/main/java/searchengine/services/Impl/SearchServiceImpl.java:51-73 | for one lemma order: no hit gives the empty response, and the count is min(limit, max(0, hits - offset)) |
| SearchService.OrderedInOrder | src/main/java/searchengine/services/Impl/SearchServiceImpl.java:51-73 | for one lemma order: every result is a hit, in descending relevance, starting at 1 on the first page |
| SearchService.OrderedComplete | src/main/java/searchengine/services/Impl/SearchServiceImpl.java:51-73 | for one lemma order: with offset 0 and a limit of at least the number of hits, every hit is listed |
| SearchService.OrderedCrash | src/main/java/searchengine/services/Impl/SearchServiceImpl.java:51-85 | for one lemma order: an exception comes exactly from a negative offset or limit with a hit, or from a hit whose snippet throws |
| SearchService.OrderedSpec | src/main/java/searchengine/services/Impl/SearchServiceImpl.java:51-85 | for one lemma order, all four of the above |
| SearchService.AnswerSpec | src/main/java/searchengine/services/Impl/SearchServiceImpl.java:51-85 | the answer of search: no hit gives the empty response; the count is min(limit, max(0, hits - offset)); results are hits in descending relevance, starting at 1 on the first page; offset 0 with a large enough limit lists every hit; an exception comes exactly from a negative offset or limit with a hit, or from a hit whose snippet throws (corrected pipeline; see "## Left out") |
| SearchService.SearchLemmas | src/main/java/searchengine/services/Impl/SearchServiceImpl.java:51-73 | an answer as above; a query without lemmas gives the empty response (corrected pipeline; see "## Left out") |
| SearchService.SearchIn | src/main/java/searchengine/services/Impl/SearchServiceImpl.java:45-73 | CONFLICT "Не все сайты проиндексированы" exactly when a site in scope is missing or not INDEXED; otherwise the answer as above (corrected pipeline; see "## Left out") |
| SearchService.Search | src/main/java/searchengine/services/Impl/SearchServiceImpl.java:43-74 | search over the given site or all configured sites: the conflict exactly when one is not indexed, otherwise the pages holding all query lemmas in descending relevance, cut by offset and limit (corrected pipeline; see "## Left out") |
| ApiController.IsBlankMeansAllWhitespace | src/main/java/searchengine/controllers/ApiController.java:77 | isBlank holds exactly when every character is whitespace |
| ApiController.FirstSiteFor | src/main/java/searchengine/controllers/ApiController.java:62-67 | the first configured site the url starts with, and none exactly when it starts with none |
| ApiController.Controller.constructor | src/main/java/searchengine/controllers/ApiController.java:24 | the flag starts cleared |
| ApiController.Controller.Statistics | src/main/java/searchengine/controllers/ApiController.java:30-33 | /statistics returns the statistics of the configured sites |
| ApiController.Controller.StartIndexing | src/main/java/searchengine/controllers/ApiController.java:36-47 | CONFLICT "Индексация уже запущена" with nothing changed while the flag is set; otherwise the jobs run for every configured site in order, as IndexingService.StartIndexing states, and without a stop request the flag stays set, so a later /startIndexing is refused |
| ApiController.Controller.StopIndexing | src/main/java/searchengine/controllers/ApiController.java:49-57 | the flag ends cleared; CONFLICT "Индексация не запущена" exactly when it was not set |
| ApiController.Controller.IndexPage | src/main/java/searchengine/controllers/ApiController.java:59-70 | NOT_FOUND with nothing changed when the url is under no configured site; otherwise the first site it starts with is reindexed |
| ApiController.Controller.Search | src/main/java/searchengine/controllers/ApiController.java:72-82 | BAD_REQUEST "Задан пустой поисковый запрос" exactly for a blank query; otherwise the search answer, with offset 0 and limit 20 by default (corrected pipeline; see "## Left out") |

## Left out

- Concurrency. Indexing jobs run on an executor, and crawl tasks fork and join in a ForkJoinPool. Here the jobs run one after the other, and so do a node's children. A stop request lands only between pages, through `Web.stopAt`.
- The asynchronous return of generalMethod. /startIndexing and /indexPage reply once the job has run. The reply itself is the same.
- The InterruptedException wrapped in RuntimeException at ApiController lines 43-45. Nothing in the model interrupts a job.
- Network access through Jsoup: status codes, links, HTML, page titles and Thread.sleep. These come from the parameter `Web`. Failures of the fetch are left out: getResponse's IOException at CreatingSiteMap line 62; a 4xx/5xx status or an IOException of the page fetch at line 83, which Jsoup throws and the @SneakyThrows compute lets through, so the crawl ends, generalMethod's job ends before updateStatusIndexed (IndexingServiceImpl lines 62-64) and the site stays INDEXING; and the title fetch of getTitlePageEntity (SearchServiceImpl lines 199-204), whose failure throws from search. Here every fetch succeeds.
- Jsoup.parse(text).body().text(). This is the parameter `textOf`.
- RussianLuceneMorphology. It is the parameter `Morphology`, whose normal-form list is never empty. Its exception on words that are not Russian, including the empty word that a letterless text yields, is not modelled.
- Character classes are covered only for the characters the program can meet.
  - `IsUpperCase` covers the Latin, Latin-1 and Cyrillic capitals.
  - `\b` treats Latin and Cyrillic letters, digits and '_' as word characters.
  - `ToLower` lowers А-Я, which is all a token can hold after the `[А-я]` filter. That range excludes Ё and ё, as in the source.
- The float rank and relevance columns. Ranks and absolute scores are counts (`nat`), and relative relevance is an exact `real`. So float rounding and ties between rounded values are not modelled.
- The order of HashMap and HashSet iteration. It is arbitrary (`Util.Enumerate`), so results are proved for every order.
- CreatingSiteMap.SiteMapTask.Run: the `depth` parameter bounds the depth of the recursive crawl. A site deeper than `depth` levels is cut off there.
- The ConcurrentHashMap of the ranking loop, as a concurrent structure. It is modelled as a map that the loop updates while visiting a fixed list of its entries, taken when the loop starts.
- GetRelevantPagesForTheQuery: the revisit of a page by the live entry set of the ConcurrentHashMap. A page removed for a missing middle row is put back as a new node at the tail of its hash bin, so the iterator can meet it a second time, and it then ends with its seed rank plus twice the last lemma's rank. The model visits every page exactly once, so its as-written scores leave that outcome out.
- A store failure between the lemma save and the index save of one entry. Only a failure before an entry's lemma save is modelled, through `Web.fault`.
- SearchSnippet.ReplaceFromTagsOnce: it is stated only for texts where one replacement leaves no " word". Text where the replacement re-creates the pattern is not covered.
- SearchService.Search: it scores pages as corrected under "## Findings": a page needs a row for every query lemma, whereas the source (SearchServiceImpl.java:181-189) keeps a page that lacks a middle lemma of three or more; and its snippets use the corrected getSnippet, whereas the source (SearchServiceImpl.java:107-114) throws at charAt(-1) when no capital follows a space before the first tag. Offset and limit are `int`, and Java's exception for a negative value is the outcome `Crashed`. A result with no page returns before skip and limit, as in the source.
- SearchService.GetPagesAndAbsRelevanceMap: it scores pages as corrected under "## Findings": a page needs a row for every query lemma, whereas the source (SearchServiceImpl.java:181-189) keeps a page that lacks a middle lemma of three or more; the snippet defect does not arise in this loop.
- SearchService.SiteScoresSpec: it scores pages as corrected under "## Findings": a page needs a row for every query lemma, whereas the source (SearchServiceImpl.java:181-189) keeps a page that lacks a middle lemma of three or more; the snippet defect does not arise here.
- SearchService.AbsScoresSpec: it scores pages as corrected under "## Findings": a page needs a row for every query lemma, whereas the source (SearchServiceImpl.java:181-189) keeps a page that lacks a middle lemma of three or more; the snippet defect does not arise here.
- SearchService.ScorePages: it scores pages as corrected under "## Findings": a page needs a row for every query lemma, whereas the source (SearchServiceImpl.java:181-189) keeps a page that lacks a middle lemma of three or more; the snippet defect does not arise here.
- SearchService.ScoredAreHits: it scores pages as corrected under "## Findings": a page needs a row for every query lemma, whereas the source (SearchServiceImpl.java:181-189) keeps a page that lacks a middle lemma of three or more; the snippet defect does not arise here.
- SearchService.SnippetOfIsSnippet: its snippets use the corrected getSnippet, whereas the source (SearchServiceImpl.java:107-114) throws at charAt(-1) when no capital follows a space before the first tag; the scores it is applied to are the corrected ones.
- SearchService.AnswerSpec: it scores pages as corrected under "## Findings": a page needs a row for every query lemma, whereas the source (SearchServiceImpl.java:181-189) keeps a page that lacks a middle lemma of three or more; and its snippets use the corrected getSnippet, whereas the source (SearchServiceImpl.java:107-114) throws at charAt(-1) when no capital follows a space before the first tag.
- SearchService.SearchLemmas: it scores pages as corrected under "## Findings": a page needs a row for every query lemma, whereas the source (SearchServiceImpl.java:181-189) keeps a page that lacks a middle lemma of three or more; and its snippets use the corrected getSnippet, whereas the source (SearchServiceImpl.java:107-114) throws at charAt(-1) when no capital follows a space before the first tag.
- SearchService.SearchIn: it scores pages as corrected under "## Findings": a page needs a row for every query lemma, whereas the source (SearchServiceImpl.java:181-189) keeps a page that lacks a middle lemma of three or more; and its snippets use the corrected getSnippet, whereas the source (SearchServiceImpl.java:107-114) throws at charAt(-1) when no capital follows a space before the first tag.
- ApiController.Controller.Search: it scores pages as corrected under "## Findings": a page needs a row for every query lemma, whereas the source (SearchServiceImpl.java:181-189) keeps a page that lacks a middle lemma of three or more; and its snippets use the corrected getSnippet, whereas the source (SearchServiceImpl.java:107-114) throws at charAt(-1) when no capital follows a space before the first tag.
- The getReplaceWord loop over `lemmasSet` reads the field the last search stored. Concurrent searches sharing that field are not modelled; each search passes its own lemma list.

## Findings

| source | as written | input that shows it | evidently intended | confidence | as-written member | corrected member |
|---|---|---|---|---|---|---|
| src/main/java/searchengine/services/Impl/SearchServiceImpl.java:181-189 | for a missing row the page is removed and the loop continues; the next found lemma puts it back with the seed rank plus that lemma's rank | lemmas a, b, c, and page 0 with rows for a and c only: page 0 is kept with score 2 | a page is kept only with a row for every lemma, scored by the sum of all ranks | not executed | SearchRanking.AsWrittenKeepsPageMissingMiddleLemma | SearchRanking.RelevantPages |
| src/main/java/searchengine/services/Impl/SearchServiceImpl.java:107-114 | the backward scan reads charAt(i - 1) at i = 0 when no capital after a space was found, and throws | the tagged text "abc <b>x</b>" | the scan stops at 1, and the window starts at 0 | not executed | SearchSnippet.SnippetAsWrittenThrowsWithoutCapital | SearchSnippet.SnippetShape |
