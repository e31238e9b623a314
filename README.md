# ler-mangas-reader downloader, modelled in Dafny

`index.js` defines a `Downloader` that copies a manga series from an image host
to the local disk. It walks the host's URL pattern
`https://img.lermanga.org/S/{{MANGA}}/capitulo-{{CHAPTER}}/{{PICTURE}}.jpg` and
never reads an index. `run()` first creates `<cwd>/mangas/<manga>`. Then
`downloadManga()` probes chapters 0, 1, 2, … with a HEAD request for the
chapter's picture 1, and stops at the first 404. For each chapter that exists,
`downloadChapter()` creates the chapter directory and calls `downloadPicture()`
on pictures 1, 2, 3, … until one is a 404. A picture already on disk is skipped
without a request. Any reply other than a 2xx or a 404 aborts the whole run, and
so does a failing recursive `mkdir` or a failing picture write. A failing `stat`
never aborts: the path is then treated as absent. `this.chapters[chapter]` records
`{ pages, chapterDir }`, where `pages` is one past the picture whose 404 ended the
chapter's loop.

The model is split into modules:

- `Decimal`: `Number#toString` for chapter and picture numbers.
- `Template`: `String.prototype.replace` with a string pattern. Only the first
  occurrence is replaced, and the replacement is expanded by GetSubstitution
  (section 22.1.3.19.1 of ECMA-262).
- `Urls`: the page URL and the probe URL.
- `Layout`: the paths `path.join` builds.
- `Store`: the file system. It is a map from paths to files and directories. The
  functions are `stat`, `rm`, `mkdir` with `{ recursive: true }`, and
  `createWriteStream` followed by `finished`. The `FileStore` class performs
  those calls.
- `Remote`: the image host as axios sees it, and the promise both request sites
  build from the reply. The `Server` class sends the requests.
- `Machine`: a small-step state machine. Each step is one action of a run: create
  the manga directory, probe a chapter, create a chapter directory, attempt one
  picture, or store a chapter record.
- `Invariant`: what every reachable state satisfies, and what a finished run or an
  aborted run has done.
- `Termination`: every run ends on a host whose chapters and pictures are finite.
- `MangaDownloader`: the `Downloader` class itself. Its loops are `while` loops,
  and each method is proved to perform exactly the machine's steps.
- `Demo`: two complete runs on an empty disk, one that finishes and one that
  aborts.

The image host is a pair of total functions from URLs to replies, for HEAD and
for GET. A reply is a status code, or no response at all. The local disk is the
`FileStore` object's map. Both are parameters of the model.

## Model

| member | source | states |
|---|---|---|
| Decimal.Dec | index.js:70-72 | the rendering of a chapter or picture number is a non-empty string of decimal digits, of length at least 2 from 10 on |
| Decimal.DecInjective | index.js:128-129 | different numbers render differently, so chapter directories and picture names identify their number |
| Decimal.DecLength | index.js:55-58 | a number of at least 10^k renders with more than k digits, so a finite disk holds picture files for finitely many numbers only |
| Template.IndexFrom | index.js:70-72 | `indexOf` from position k only reports a position where the pattern occurs |
| Template.IndexFromFirst | index.js:70-72 | `indexOf` reports the first occurrence at or after k, and reports none only when the pattern occurs nowhere from k on |
| Template.ReplaceAbsent | index.js:70-72 | `replace` leaves a string that lacks the pattern unchanged |
| Template.ReplaceFirstAt | index.js:70-72 | `replace` substitutes exactly the first occurrence, expanded by GetSubstitution, and keeps every later occurrence |
| Template.ExpandPlain | index.js:70 | a replacement without `$` is inserted verbatim |
| Template.ReplaceChain3 | index.js:70-72 | three chained `replace` calls apply their patterns in order, each to the previous result |
| Urls.PageUrlOf | index.js:70-72 | the page URL is the host, GetSubstitution's expansion of the series name, `/capitulo-`, the chapter number, `/`, the picture number and `.jpg`, whenever that expansion has no `{` |
| Urls.PageUrlShape | index.js:11-12 | for a name without `{` or `$`, the page URL is the template with the three values written in |
| Urls.ProbeIsFirstPicture | index.js:104-106 | the probe URL of a chapter is the page URL of its picture 1 |
| Urls.PageUrlInjective | index.js:70-72 | for such a name, different (chapter, picture) pairs get different URLs |
| Urls.DollarsCollapse | index.js:70 | the name is not always used verbatim: `$$` in it becomes a single `$` |
| Urls.BacktickRepeatsHost | index.js:70 | a name `` $` `` puts the host a second time where the name should be |
| Layout.PicturePathInjective | index.js:55-58 | every (chapter, picture) pair has its own file `<mangaDir>/<chapter>/<picture>.jpg` |
| Layout.PictureBelowChapters | index.js:55-58 | a picture path is never the manga directory, a chapter directory or one of their ancestors |
| Store.Lookup | index.js:24-31 | `stat` fails exactly for a missing path, and reports a directory exactly where there is one |
| Store.MkdirFromResult | index.js:42 | recursive `mkdir` after the first k components succeeds exactly when no later prefix is a file, names the first such file when it fails, and otherwise makes every prefix a directory and changes nothing else |
| Store.MkdirAllResult | index.js:42 | recursive `mkdir` succeeds exactly when no prefix of the path is a file; on failure it names the first prefix that is a file; on success every prefix is a directory and every other path is unchanged |
| Store.EnsureDirFails | index.js:33-44 | `createDirIfNotExists` fails only when a proper ancestor is a file, and then names that ancestor |
| Store.EnsureDirSucceeds | index.js:33-44 | on a well-formed disk it fails exactly then |
| Store.EnsureDirEffect | index.js:33-44 | afterwards the path and all its ancestors are directories, the disk is still well formed, and everything else is untouched |
| Store.EnsureDirFrame | index.js:33-44 | on any disk, only the path and its ancestors can change |
| Store.EnsureDirKeepsDir | index.js:35-40 | an existing directory is left as it is |
| Store.EnsureDirReplacesFile | index.js:37-42 | a file at the path is removed and replaced by a directory |
| Store.EnsureDirFailsAbsent | index.js:33-44 | on a well-formed disk a failing call had nothing at the path to remove |
| Store.EnsureDirIdempotent | index.js:33-44 | a second call changes nothing |
| Store.WrittenEffect | index.js:81-85 | writing a picture succeeds exactly when its directory exists and no directory is at its path; it adds exactly that file and keeps the disk well formed |
| Store.FileStore.Stat | index.js:26 | `stat` reports what is at the path |
| Store.FileStore.Rm | index.js:38 | `rm` removes exactly the file |
| Store.FileStore.Mkdir | index.js:42 | `mkdir(p, { recursive: true })` leaves the disk as recursive mkdir does, or unchanged when it fails |
| Store.FileStore.CreateFile | index.js:82-84 | `createWriteStream`, the piped body and `finished` leave the disk as the write does, or unchanged when it fails |
| Remote.Verdict | index.js:94-98 | a request's promise gives false exactly for a 2xx reply and true exactly for a 404; every other reply, no response included, is an abort that carries the request and the reply |
| Remote.Server.Send | index.js:75-80 | the reply is the host's answer to the request, and the request is appended to the log |
| Machine.StepFollows | index.js:128-164 | the order of actions: chapter c's probe, then its directory, then pictures 1, 2, … of c, then its record, then the probe of c + 1; a record has pages one past the last picture attempted and the chapter's directory |
| Machine.StepEntries | index.js:33-101 | what each step does to the disk: it makes the manga or a chapter directory, or adds one picture file after a 2xx reply; nothing else is ever written |
| Machine.TerminalStays | index.js:94-98 | once a chapter is reported absent or a failure aborts the run, nothing else happens: no request, no write, no record |
| Machine.RunAdd | index.js:128-157 | n + m steps are m steps after the first n |
| Machine.RunNext | index.js:128-157 | step n + 1 is one step from the state after n |
| Machine.ProbeAt | index.js:149-151 | the step from a probe sends one HEAD request and, from its verdict, ends the run (404), enters the chapter (2xx) or aborts |
| Machine.EnterAt | index.js:129-130 | the step into a chapter creates its directory, then goes on to picture 1 or aborts |
| Machine.PageAt | index.js:135-140 | the step from picture p performs one download: a 404 ends the chapter with pages p + 1, a skip or a download moves on to p + 1, a failure aborts |
| Machine.RecordAt | index.js:152-154 | storing a chapter's record under its number comes before the probe of the next chapter |
| Machine.Before | index.js:143-157 | a state that is not over comes before the step at which the run is known to be over |
| Invariant.RecordsExtend | index.js:152-154 | adding chapter c's record to a map that holds exactly chapters 0 .. c-1 gives one that holds exactly chapters 0 .. c |
| Invariant.StepInv | index.js:128-164 | every step keeps the run's invariant: chapters before the current one are recorded with their directory and their true page count, and pictures of later chapters are untouched |
| Invariant.StepValid | index.js:33-101 | every step keeps the disk well formed |
| Invariant.PictureCases | index.js:54-101 | downloadPicture's four outcomes: already there and skipped, written after a 2xx, a 404 that ends the chapter, anything else an abort |
| Invariant.ChapterDirClear | index.js:129-130 | once the manga directory exists, creating a chapter directory cannot fail |
| Invariant.RunInv | index.js:159-164 | every state of a run from a well-formed disk satisfies the invariant and has a well-formed disk |
| Invariant.EndsAtUnique | index.js:135-139 | a chapter's loop stops at one picture only |
| Invariant.CompletedRun | index.js:143-164 | a finished run has recorded exactly chapters 0 .. k-1, each present on the host, with its directory and with pages one past the first picture that was neither on disk nor downloadable; chapter k's probe was a 404 |
| Invariant.AbortedRun | index.js:94-98 | a run aborts only on a reply that is neither a 2xx nor a 404, or on a file where an ancestor of the manga directory should be |
| Termination.LocalBoundExists | index.js:60 | a finite disk holds no picture file beyond some picture number |
| Termination.StepProgress | index.js:135-157 | on a host with finitely many chapters and pictures, every step decreases the measure (chapters left to probe, then steps left in the chapter) |
| Termination.RunTerminates | index.js:128-157 | on such a host every run reaches a finished or an aborted state |
| MangaDownloader.Downloader.constructor | index.js:17-22 | the manga directory is `<cwd>/mangas/<manga>` and the chapters map starts empty |
| MangaDownloader.Downloader.FileExists | index.js:24-31 | true exactly when `stat` finds something at the path |
| MangaDownloader.Downloader.CreateDirIfNotExists | index.js:33-44 | leaves the disk as `createDirIfNotExists` does; when it fails, only a file at the path has gone |
| MangaDownloader.Downloader.DownloadPicture | index.js:54-101 | the result, the disk afterwards and the requests sent are those of one picture attempt |
| MangaDownloader.Downloader.CheckChapterNotExists | index.js:103-122 | one HEAD request for the chapter's picture 1, with its verdict |
| MangaDownloader.Downloader.DownloadChapter | index.js:128-141 | performs exactly the machine's steps from entering the chapter to its record (pages one past the picture that was a 404) or to the abort |
| MangaDownloader.Downloader.DownloadManga | index.js:143-157 | performs exactly the machine's steps from the probe of chapter 0 to the 404 probe or to the abort, adding each chapter's record to `this.chapters` |
| MangaDownloader.Downloader.Run | index.js:159-164 | the disk, the requests and `this.chapters` are those of the machine's finished or aborted run; on a well-formed disk the result is a complete run as CompletedRun states, or an abort for one of AbortedRun's reasons |
| Demo.DemoCompleted | index.js:143-157 | on the example host a finished run stops at chapter 2 with records {0: pages 5, 1: pages 3} |
| Demo.BrokenNeverCompletes | index.js:94-98 | on the host with a 500 for picture 2 of chapter 0, no run finishes |
| Demo.CompleteExample | index.js:159-164 | `run()` on the example host resolves with the name and records {0: pages 5, 1: pages 3} |
| Demo.AbortExample | index.js:94-98 | `run()` on the broken host aborts with the GET of picture 2 of chapter 0 and its 500 |

## Left out

- The wait before each probe and each picture (index.js:136 and 148) is not modelled; it is timing only. `setTimeout` from `timers/promises` takes the delay as its first argument, and there it is the function `() => {}`, which becomes NaN, so the wait is about 1 ms. `Math.random() * 1000` is only the value the promise resolves with.
- Console output (everything `console.log` prints) and the `colors` decoration are not modelled.
- MangaDownloader.Downloader.Run: resolves with the series name itself. index.js:19 and 163 return it wrapped in the `inverse`/`underline` terminal escape codes, which are console decoration only.
- The command line wrapper (index.js:167-182) is not modelled. It reads the name from `process.argv` and prints a summary of the chapters.
- An abort is the model's `Fatal` outcome, whatever its cause. In index.js the two kinds end differently. After a bad reply to the GET or the HEAD, or a failed picture write (index.js:94-98 and 114-119), the error is rethrown inside a promise whose `resolve` is never called, so the process ends on an unhandled rejection. A failing `mkdir` in `createDirIfNotExists` (index.js:42) rejects `run()` itself, and `.catch(console.error)` at index.js:182 handles it. Which of the two ends the process is not modelled.
- MangaDownloader.Downloader.Run: requires a bound past which every probe and every picture request is a 404 (`RemoteBound`). On a host without such a bound index.js never stops, and a Dafny method must.
- MangaDownloader.Downloader.DownloadChapter and MangaDownloader.Downloader.DownloadManga take ghost parameters: the run's initial state, the step they start at and a step by which the run is over. `Run` supplies them from the termination proof. They add no requirement that the source does not make.
- Response bodies are not modelled: a 2xx reply writes the picture file, and a failing write aborts the run.
- The `Server` log of requests is ghost. axios keeps no log; the model keeps one so that the contracts can state which requests are sent.
- `path.join` normalisation is not modelled: a path is its list of components, so a series name containing `/` or `..` is not resolved. `stat` errors other than a missing path are treated as a missing path.
- The series name is not inserted verbatim into the URL. `String.prototype.replace` expands `$$`, `$&`, `` $` `` and `$'` in it, and the model does the same (`Urls.DollarsCollapse`, `Urls.BacktickRepeatsHost`).
- `pages` counts the attempt that ended the chapter. `downloadChapter` increments `page` after the terminating attempt too, so with pictures 1-3 present and a 404 on picture 4 the record has `pages: 5` (`Demo`).
- Chapter and picture numbers are unbounded `nat`. In JavaScript they are doubles: `page++` is exact only up to 2^53, and `Number#toString` switches to exponent notation from 10^21. `Decimal.Dec` matches `Number#toString` only below 10^21, and the counter is exact only below 2^53; no real run gets near either bound.
