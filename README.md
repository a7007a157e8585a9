# JFK Archives 2025 release downloader — a Dafny model

The downloader reads the index page of the JFK Archives 2025 release and collects the document links it finds there. It then downloads each document into a local folder, with one sub-folder per release date. This project models the script's logic and proves properties of it:

- **Destination path.** `Paths` models the path a document is stored under: the URL's basename, placed under the first four-digit segment of the URL path, if there is one.
- **Link extraction.** `Links` models the filter over anchors (`.pdf` in the href, `http` prefix or `urljoin`, `archives.gov` in the result) and the fallback to iframes when the direct scan finds nothing.
- **Counters.** `Session` models the per-link bookkeeping of `total_downloaded`, `total_failed` and `downloaded_files`, and the run over all links, as specification functions.
- **Downloader object.** `Downloader` is `JFKPDFDownloader` as a class. Its three fields are updated in place by `DownloadPdf` and `Run`. Its methods contain the loops of the source, and each is proved equal to the matching specification function.
- **Helpers.** `Strings` holds the Python string operations the script uses (`startswith`, substring `in`, `split`). `Wrappers` holds `Option`.

What the script gets from outside is a parameter of the model:

- `join` is `urljoin`; `None` means it raised.
- `urlPath` is `urlparse(url).path`; `None` means it raised.
- `fetch` is what requesting a page gives: a status code and the parsed page (its anchor hrefs and iframe srcs in document order), or an exception.
- `answer(i)` is what the download request for the i-th link gives:
  - a status code;
  - an exception before any file is opened;
  - an exception after a 200 answer, once the file has been opened (`Interrupted`).
- `disk` is the set of paths that exist.

Where the code is looser than its evident intent, the model follows the code:

- The filename is the basename of the whole URL string, so a query string stays in the filename. It is not the basename of the URL path.
- `^\d{4}$` also accepts four digits followed by a single `'\n'`, because Python's `$` matches before a final newline.
- The domain test looks for `archives.gov` anywhere in the URL, not only in its host.
- A download that raises after the file was opened leaves a file behind. A later occurrence in the same run (`InterruptedNotRetried`) and any later run skip that file as already present, so it is never fetched again.
- A second run downloads nothing when the first had no failures (`SecondRunIdle`). Failed links that left no file are requested again; a failure that left a partial file is not.
- In a sequential run the "already handled in this session" skip never fires. A handled URL's file is always on disk already, and the existence test comes first (`RunStaysCoherent`). Only the concurrent script can reach that skip.

## Model

| member | source | states |
|---|---|---|
| Strings.StartsWith | jfk_archive_downloader.py:139 | Python's `s.startswith(p)`: `p` is a prefix of `s`; no contract of its own, it is the definition the `http` tests of `Absolute`, `Judge` and `HttpPrefixNotJoined` use |
| Strings.Contains | jfk_archive_downloader.py:137 | Python's substring test `t in s`; its partner `ContainsIffOccurs` characterises it |
| Strings.ContainsIffOccurs | jfk_archive_downloader.py:137 | Python's substring test `t in s` holds exactly when `t` occurs at some position of `s` |
| Strings.Split | jfk_archive_downloader.py:66 | `split('/')` yields at least one piece and no piece contains the separator |
| Strings.SplitJoinRoundTrip | jfk_archive_downloader.py:66 | joining the pieces of `split` with the separator gives back the original string |
| Strings.JoinSplitRoundTrip | jfk_archive_downloader.py:66 | splitting a join of separator-free pieces gives back exactly those pieces |
| Strings.SplitAppendPiece | jfk_archive_downloader.py:66 | splitting `s`, a separator and a separator-free piece gives the pieces of `s` followed by that piece |
| Paths.Basename | jfk_archive_downloader.py:62 | the basename is a suffix of the URL that contains no '/' and is preceded by '/' whenever it is not the whole URL, i.e. the text after the last '/' |
| Paths.PathJoin | jfk_archive_downloader.py:76-83 | `os.path.join(a, b)` ends with `b`, and starts with `a` unless `b` is absolute |
| Paths.JoinRelative | jfk_archive_downloader.py:76-83 | joining a relative name onto a folder puts it after the folder and exactly one '/' (none added when the folder already ends in '/' or is empty) |
| Paths.IsDateSegment | jfk_archive_downloader.py:71 | `re.match(r'^\d{4}$', part)`: four ASCII digits, optionally followed by one final newline; `DateSegmentShapes` pins down accepted and refused shapes |
| Paths.DateSegmentShapes | jfk_archive_downloader.py:71 | `0318` and `0318\n` are date segments; `318`, `03180`, `0318\n\n`, the empty string, `03a8` and `0318x` are not |
| Paths.DateIndex | jfk_archive_downloader.py:69-73 | the index found is the first path segment that is four digits, or the number of segments when there is none |
| Paths.DateFolder | jfk_archive_downloader.py:69-73 | the sub-folder the for/break scan picks: the segment at `DateIndex`, or none; `FindDateFolder` is proved equal to it |
| Paths.Destination | jfk_archive_downloader.py:62-83 | the file path of a URL, `None` when `urlparse` raises; its layout is stated by `DestinationLayout`, `DestinationEndsWithBasename` and `NoPathNoDestination` |
| Paths.DestinationLayout | jfk_archive_downloader.py:62-83 | for every folder, the destination is `folder/D/basename(url)` with D the first four-digit segment of the URL path, else `folder/basename(url)`; a folder given with a trailing '/' gets no second '/' |
| Paths.NoPathNoDestination | jfk_archive_downloader.py:65 | when `urlparse` raises, no destination is computed |
| Paths.DestinationEndsWithBasename | jfk_archive_downloader.py:62-83 | every destination ends with the basename of the whole URL string |
| Paths.BasenameAfterSlash | jfk_archive_downloader.py:62 | for `dir/name` with no '/' in `name`, the basename is `name` |
| Paths.QueryStaysInFilename | jfk_archive_downloader.py:62 | a query string is kept in the filename (`a.pdf?v=2`) |
| Paths.ReleaseSegments | jfk_archive_downloader.py:66 | the path `/research/jfk/docs/0318/104-10009-10022.pdf` splits into its six segments, the first one empty |
| Paths.ReleaseDateIndex | jfk_archive_downloader.py:69-73 | of those segments the first date segment is the fifth, `0318` |
| Paths.ReleaseExample | jfk_archive_downloader.py:62-83 | the release document `.../docs/0318/104-10009-10022.pdf` lands at `folder/0318/104-10009-10022.pdf`, for every folder |
| Links.Absolute | jfk_archive_downloader.py:139-142 | a reference starting with `http` is taken verbatim, any other goes through `urljoin`; `HttpPrefixNotJoined` and `Judge` state its use |
| Links.Judge | jfk_archive_downloader.py:137-146 | an href without `.pdf` is skipped; a kept link contains `archives.gov` and is the href itself when it starts with `http`, else `urljoin(base, href)`; conversely an href with `.pdf` whose resolved URL contains `archives.gov` is kept; the scan stops exactly when the href has `.pdf`, does not start with `http` and `urljoin` raises |
| Links.Scan | jfk_archive_downloader.py:133-146 | the anchor loop keeps at most one link per href, and every kept link contains `archives.gov` |
| Links.FirstRaise | jfk_archive_downloader.py:139-140 | the position found is the first href on which `urljoin` raises, or the number of hrefs |
| Links.ScanSelects | jfk_archive_downloader.py:133-146 | the direct scan's links are exactly the accepted hrefs before the first raising `urljoin`, resolved, in document order, with repeats; the scan is complete exactly when no `urljoin` raises |
| Links.ScanStopped | jfk_archive_downloader.py:187-189 | once `urljoin` has raised, later anchors change nothing: the links gathered so far are the result |
| Links.FrameLinks | jfk_archive_downloader.py:163-183 | an iframe yields only links containing `archives.gov` |
| Links.FromIframes | jfk_archive_downloader.py:154-183 | the iframe loop; `IframeLinksOnDomain`, `IframesInOrder`, `FromIframesStopped` and `FailingFrameAddsNothing` state what it yields |
| Links.AddFrame | jfk_archive_downloader.py:154-178 | an iframe leaves an extraction that a raising `urljoin` stopped unchanged, and never restarts it |
| Links.IframeLinksOnDomain | jfk_archive_downloader.py:154-183 | every link gathered from iframes contains `archives.gov` |
| Links.FromIframesStopped | jfk_archive_downloader.py:157-189 | once `urljoin` has raised on an iframe `src`, later iframes change nothing |
| Links.IframesInOrder | jfk_archive_downloader.py:154-178 | the links of the iframes `a` then `b` are the links of `a` followed by those of `b`: iframes contribute in document order |
| Links.Extract | jfk_archive_downloader.py:119-189 | every extracted link contains `archives.gov`; a page answering other than 200, or raising, yields no links |
| Links.DirectScanDecides | jfk_archive_downloader.py:151 | when the direct scan finds a link or stops on a raise, the result is the direct scan's and no iframe is consulted |
| Links.DirectLinksExactly | jfk_archive_downloader.py:133-146 | with no raising `urljoin`, a page whose anchors yield links gives exactly the accepted hrefs in document order |
| Links.FailingFrameAddsNothing | jfk_archive_downloader.py:163-183 | an iframe answering other than 200, or raising, contributes nothing and does not stop the iframes after it |
| Links.SingleFrameFallback | jfk_archive_downloader.py:151-178 | a page with no direct link and one iframe, absolute or joined against the page, yields exactly that iframe's accepted links, joined against the iframe URL |
| Links.LookalikeHostAccepted | jfk_archive_downloader.py:145 | a look-alike host such as `https://archives.gov.example.net/a.pdf` is accepted |
| Links.HttpPrefixNotJoined | jfk_archive_downloader.py:139 | an href starting with `http` (such as `http-a.pdf`) is taken verbatim and never joined |
| Session.Step | jfk_archive_downloader.py:85-115 | existing file: skip, nothing changes; else URL already handled: skip, nothing changes; else 200: downloaded + 1, URL recorded, file written; else failed + 1 and nothing remembered; the existence test comes first |
| Session.CountsCover | jfk_archive_downloader.py:85-115 | every step ends in exactly one of the four outcomes |
| Session.RunAll | jfk_archive_downloader.py:207-208 | the run reaches exactly one outcome per link |
| Session.RunCounts | jfk_archive_downloader.py:104-115 | over a run, `total_downloaded` grows by the number of downloaded outcomes and `total_failed` by the number of failed ones |
| Session.RunGrows | jfk_archive_downloader.py:98-105 | a run only adds files to the disk and URLs to the session set |
| Session.RunAccountsEveryLink | jfk_archive_downloader.py:42-44 | from zero counters, downloaded + failed + skipped equals the number of links, and so does downloaded + failed + already-existed |
| Session.RunStaysCoherent | jfk_archive_downloader.py:90-92 | the downloaded count equals the number of remembered URLs, each remembered URL's file exists, and the session-set skip never fires in a sequential run |
| Session.RunPrefix | jfk_archive_downloader.py:207-208 | the run over a prefix of the links is the beginning of the run over all of them |
| Session.RunExtends | jfk_archive_downloader.py:207-208 | the run over k + 1 links is the run over k links followed by one step |
| Session.PresentStaysPresent | jfk_archive_downloader.py:86-88 | a file present after some step makes every later link with that destination skip |
| Session.DownloadedOnce | jfk_archive_downloader.py:86-106 | a URL is downloaded at most once per session |
| Session.InterruptedNotRetried | jfk_archive_downloader.py:97-115 | a download that raised after opening its file is never requested again in the session |
| Session.FailureLeavesNoTrace | jfk_archive_downloader.py:107-115 | after a failure that left no file, the URL stays unremembered and its file absent until a link with the same destination comes |
| Session.RetriedAfterFailure | jfk_archive_downloader.py:107-115 | a URL that failed without leaving a file is requested again when it recurs, unless a link in between wrote the same destination |
| Session.SucceededStepPresent | jfk_archive_downloader.py:86-106 | a step that does not fail leaves the link's file on disk |
| Session.NoFailureAllPresent | jfk_archive_downloader.py:198-208 | after a run without failures every link's file is on disk |
| Session.AllPresentAllSkipped | jfk_archive_downloader.py:86-88 | when every link's file exists, a run makes no request, skips every link and changes nothing |
| Session.SecondRunIdle | jfk_archive_downloader.py:198-208 | a second run after a run without failures downloads nothing, fails nothing and leaves the disk unchanged |
| Downloader.FindDateFolder | jfk_archive_downloader.py:69-73 | the loop with `break` returns the first four-digit segment, or none |
| Downloader.CollectPdfLinks | jfk_archive_downloader.py:133-146 | the anchor loop appends exactly the direct scan's links and reports whether it ran to the end |
| Downloader.JfkPdfDownloader.constructor | jfk_archive_downloader.py:38-44 | a missing or empty base URL becomes the release page; a missing folder becomes `jfk_2025_release` and a missing worker count 5; both counters start at 0 and the session set starts empty |
| Downloader.JfkPdfDownloader.FilePathFor | jfk_archive_downloader.py:62-83 | the path computed is the destination of the URL under the download folder |
| Downloader.JfkPdfDownloader.DownloadPdf | jfk_archive_downloader.py:58-115 | the fields and the disk change as one step prescribes: a skip changes nothing; a 200 adds one download, the URL and the file; a failure adds one failure and nothing else; it returns False exactly on failure |
| Downloader.JfkPdfDownloader.ExtractAllPdfLinks | jfk_archive_downloader.py:117-189 | the nested loops return exactly the extraction: direct links, else the iframes' links |
| Downloader.JfkPdfDownloader.Run | jfk_archive_downloader.py:191-208 | the fields end as the run over the extracted links prescribes; with no links nothing changes; with links and a worker count below 1 the thread pool raises `ValueError` before any download and nothing changes |

## Left out

- Concurrency: the `ThreadPoolExecutor` fan-out, the non-atomic `+=` on the counters and the race on `downloaded_files` are left out. `Run` downloads the links one after the other, in list order. `max_workers` has no effect in the model beyond the `ValueError` a value below 1 causes.
- Directory creation is left out:
  - the folder `__init__` creates;
  - the date sub-folder `download_pdf` creates (with its check-then-create race, which can raise and so count a failure);
  - the disk is modelled only as the set of existing file paths.
- HTTP: request headers and the 30-second timeout are left out. Requests become the parameters `fetch` and `answer`. Every request for a page URL is taken to give the same answer.
- HTML parsing is left out: a page is its hrefs and iframe srcs in document order.
- Session.Step: the existence test of line 86 sees only files. `os.path.exists` is also true for a directory, and a link whose URL ends in '/' has an empty basename, so its destination is the download folder or its date sub-folder, which exist; the script skips such a link, while the model requests it and can count a download.
- Paths.PathJoin: `os.path` is modelled as POSIX `posixpath`; on Windows `ntpath.join` inserts '\\' and the layout differs.
- `urljoin` and `urlparse` are opaque parameters, so the model does not resolve URLs as RFC 3986 section 5.2 describes.
- The chunked write loop is left out. Its only observable effects are the file existing afterwards and, when it raises, a partial file.
- `print` logging, `argparse` and `main` are left out.
- Paths.IsDateSegment: `\d` is modelled as the ASCII digits only, while Python also accepts other Unicode decimal digits.
