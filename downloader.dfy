/**
 * The downloader object: its configuration, the counters it updates in place, and its
 * three operations (download one document, extract the links of the index page, run both).
 */
module Downloader {
  import opened Wrappers
  import opened Strings
  import opened Paths
  import opened Links
  import opened Session

  const DefaultBaseUrl: string := "https://www.archives.gov/research/jfk/release-2025"
  const DefaultFolder: string := "jfk_2025_release"
  const DefaultWorkers: int := 5

  /** The scan of the URL path's segments that stops at the first date segment. */
  method FindDateFolder(pathParts: seq<string>) returns (dateFolder: Option<string>)
    ensures dateFolder == DateFolder(pathParts)
  {
    dateFolder := None;
    var i := 0;
    while i < |pathParts|
      invariant 0 <= i <= |pathParts|
      invariant forall k :: 0 <= k < i ==> !IsDateSegment(pathParts[k])
    {
      if IsDateSegment(pathParts[i]) {
        dateFolder := Some(pathParts[i]);
        break;
      }
      i := i + 1;
    }
  }

  /**
   * The anchor loop: appends to `found` every href that mentions `.pdf`, made absolute
   * against `base`, that mentions `archives.gov`; stops early (`complete` false) when `urljoin` raises.
   */
  method CollectPdfLinks(base: string, hrefs: seq<string>, join: Joiner, found: seq<string>)
    returns (links: seq<string>, complete: bool)
    ensures links == found + Scan(base, hrefs, join).links
    ensures complete == Scan(base, hrefs, join).complete
  {
    links := found;
    for i := 0 to |hrefs|
      invariant Scan(base, hrefs[..i], join).complete
      invariant links == found + Scan(base, hrefs[..i], join).links
    {
      assert hrefs[..i + 1][..i] == hrefs[..i];
      var href := hrefs[i];
      if Contains(href, PdfMarker) {
        var pdfUrl: string;
        if !StartsWith(href, "http") {
          var joined := join(base, href);
          if joined.None? {
            ScanStopped(base, hrefs, join, i + 1);
            return links, false;
          }
          pdfUrl := joined.value;
        } else {
          pdfUrl := href;
        }
        if Contains(pdfUrl, Domain) {
          links := links + [pdfUrl];
        }
      }
    }
    assert hrefs[..|hrefs|] == hrefs;
    complete := true;
  }

  class JfkPdfDownloader {
    const baseUrl: string
    const downloadFolder: string
    const maxWorkers: int
    var totalDownloaded: nat
    var totalFailed: nat
    var downloadedFiles: set<string>

    /** The three session fields as one value. */
    function Counters(): Tally
      reads this
    {
      Tally(totalDownloaded, totalFailed, downloadedFiles)
    }

    /**
     * A missing or empty base URL falls back to the release page; a missing folder or worker
     * count takes its default; the session starts empty.
     */
    constructor (baseUrl: Option<string>, downloadFolder: Option<string>, maxWorkers: Option<int>)
      ensures this.baseUrl == if baseUrl.Some? && baseUrl.value != "" then baseUrl.value else DefaultBaseUrl
      ensures this.downloadFolder == if downloadFolder.Some? then downloadFolder.value else DefaultFolder
      ensures this.maxWorkers == if maxWorkers.Some? then maxWorkers.value else DefaultWorkers
      ensures Counters() == Tally(0, 0, {})
    {
      this.baseUrl := if baseUrl.Some? && baseUrl.value != "" then baseUrl.value else DefaultBaseUrl;
      this.downloadFolder := if downloadFolder.Some? then downloadFolder.value else DefaultFolder;
      this.maxWorkers := if maxWorkers.Some? then maxWorkers.value else DefaultWorkers;
      totalDownloaded := 0;
      totalFailed := 0;
      downloadedFiles := {};
    }

    /**
     * The first half of a download: the file path of `pdfUrl` under the download folder,
     * `None` when `urlparse` raises.
     */
    method FilePathFor(pdfUrl: string, urlPath: string -> Option<string>) returns (filePath: Option<string>)
      ensures filePath == Destination(downloadFolder, pdfUrl, urlPath)
    {
      var filename := Basename(pdfUrl);
      var path := urlPath(pdfUrl);
      if path.None? {
        return None;
      }
      var pathParts := Split(path.value, '/');
      var dateFolder := FindDateFolder(pathParts);
      var subfolder := if dateFolder.Some? then PathJoin(downloadFolder, dateFolder.value) else downloadFolder;
      filePath := Some(PathJoin(subfolder, filename));
    }

    /**
     * Download one document. `urlPath` is `urlparse(url).path` (`None` when it raises),
     * `disk` the files that exist, `fetch` what the request gives if it is made; `disk'`
     * is the files that exist afterwards.
     */
    method DownloadPdf(pdfUrl: string, urlPath: string -> Option<string>, disk: set<string>, fetch: Fetch)
      returns (ok: bool, disk': set<string>)
      modifies this
      ensures var s := Step(old(Counters()), disk, pdfUrl, Destination(downloadFolder, pdfUrl, urlPath), fetch);
        Counters() == s.tally && disk' == s.disk && ok == (s.outcome != Failed)
      ensures var dest := Destination(downloadFolder, pdfUrl, urlPath);
        dest.Some? && dest.value in disk ==> ok && Counters() == old(Counters()) && disk' == disk
      ensures var dest := Destination(downloadFolder, pdfUrl, urlPath);
        dest.Some? && dest.value !in disk && pdfUrl in old(downloadedFiles) ==>
          ok && Counters() == old(Counters()) && disk' == disk
      ensures var dest := Destination(downloadFolder, pdfUrl, urlPath);
        dest.Some? && dest.value !in disk && pdfUrl !in old(downloadedFiles) && fetch == Status(200) ==>
          ok && totalDownloaded == old(totalDownloaded) + 1 && totalFailed == old(totalFailed)
          && downloadedFiles == old(downloadedFiles) + {pdfUrl} && disk' == disk + {dest.value}
      ensures !ok ==>
        totalFailed == old(totalFailed) + 1 && totalDownloaded == old(totalDownloaded)
        && downloadedFiles == old(downloadedFiles)
    {
      var dest := FilePathFor(pdfUrl, urlPath);
      if dest.None? {
        totalFailed := totalFailed + 1;
        return false, disk;
      }
      var filePath := dest.value;
      if filePath in disk {
        return true, disk;
      }
      if pdfUrl in downloadedFiles {
        return true, disk;
      }
      match fetch {
        case Status(code) =>
          if code == 200 {
            totalDownloaded := totalDownloaded + 1;
            downloadedFiles := downloadedFiles + {pdfUrl};
            return true, disk + {filePath};
          } else {
            totalFailed := totalFailed + 1;
            return false, disk;
          }
        case Interrupted =>
          totalFailed := totalFailed + 1;
          return false, disk + {filePath};
        case Raised =>
          totalFailed := totalFailed + 1;
          return false, disk;
      }
    }

    /**
     * Extract the document links of `pageUrl`. `fetch` gives what requesting a URL answers,
     * `join` is `urljoin`.
     */
    method ExtractAllPdfLinks(pageUrl: string, fetch: string -> PageFetch, join: Joiner)
      returns (pdfLinks: seq<string>)
      ensures pdfLinks == Extract(pageUrl, fetch, join)
    {
      pdfLinks := [];
      var response := fetch(pageUrl);
      if response.Unreachable? || response.status != 200 {
        return;
      }
      var complete;
      pdfLinks, complete := CollectPdfLinks(pageUrl, response.page.hrefs, join, pdfLinks);
      if !complete {
        return;
      }
      if pdfLinks == [] {
        var srcs := response.page.iframeSrcs;
        for j := 0 to |srcs|
          invariant FromIframes(pageUrl, srcs[..j], fetch, join) == Harvest(pdfLinks, true)
        {
          assert srcs[..j + 1][..j] == srcs[..j];
          var iframeSrc := srcs[j];
          var iframeUrl: string;
          if !StartsWith(iframeSrc, "http") {
            var joined := join(pageUrl, iframeSrc);
            if joined.None? {
              FromIframesStopped(pageUrl, srcs, fetch, join, j + 1);
              return;
            }
            iframeUrl := joined.value;
          } else {
            iframeUrl := iframeSrc;
          }
          var iframeResponse := fetch(iframeUrl);
          if iframeResponse.Answered? && iframeResponse.status == 200 {
            pdfLinks, complete := CollectPdfLinks(iframeUrl, iframeResponse.page.hrefs, join, pdfLinks);
          }
        }
        assert srcs[..|srcs|] == srcs;
      }
    }

    /**
     * Extract the links of the base page and download them one after the other; `answer(i)`
     * is what requesting the i-th link gives. Returns the files that exist afterwards, and
     * whether the thread pool refused a worker count below 1 (`ValueError`, which leaves
     * `run` before any download).
     */
    method Run(fetch: string -> PageFetch, join: Joiner, urlPath: string -> Option<string>,
               disk: set<string>, answer: nat -> Fetch)
      returns (disk': set<string>, raised: bool)
      modifies this
      ensures raised <==> Extract(baseUrl, fetch, join) != [] && maxWorkers <= 0
      ensures raised ==> Counters() == old(Counters()) && disk' == disk
      ensures !raised ==>
        var r := RunAll(old(Counters()), disk, Extract(baseUrl, fetch, join),
                        Placement(downloadFolder, urlPath), answer);
        Counters() == r.tally && disk' == r.disk
      ensures Extract(baseUrl, fetch, join) == [] ==> Counters() == old(Counters()) && disk' == disk
    {
      var pdfLinks := ExtractAllPdfLinks(baseUrl, fetch, join);
      if pdfLinks == [] {
        return disk, false;
      }
      if maxWorkers <= 0 {
        return disk, true;
      }
      raised := false;
      ghost var place := Placement(downloadFolder, urlPath);
      ghost var start := Counters();
      disk' := disk;
      for i := 0 to |pdfLinks|
        invariant RunAll(start, disk, pdfLinks[..i], place, answer).tally == Counters()
        invariant RunAll(start, disk, pdfLinks[..i], place, answer).disk == disk'
      {
        assert pdfLinks[..i + 1][..i] == pdfLinks[..i];
        var ok;
        ok, disk' := DownloadPdf(pdfLinks[i], urlPath, disk', answer(i));
      }
      assert pdfLinks[..|pdfLinks|] == pdfLinks;
    }
  }
}
