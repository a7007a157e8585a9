/**
 * Link extraction from the release index page: keep the anchors whose href mentions
 * `.pdf`, make them absolute, keep those that mention `archives.gov`, and only when that
 * finds nothing, look inside the page's iframes the same way.
 */
module Links {
  import opened Wrappers
  import opened Strings

  /** A parsed page: the `href` of every anchor that has one and the `src` of every iframe that has one, in document order. */
  datatype Page = Page(hrefs: seq<string>, iframeSrcs: seq<string>)

  /** What `requests.get` gave for a page: a status code with the parsed body, or an exception. */
  datatype PageFetch = Answered(status: int, page: Page) | Unreachable

  /** `urljoin(base, ref)`; `None` stands for the exception it may raise. */
  type Joiner = (string, string) -> Option<string>

  /** The accepted domain, tested as a substring of the whole URL. */
  const Domain: string := "archives.gov"

  /** The marker of a document link, tested as a substring of the raw href. */
  const PdfMarker: string := ".pdf"

  /** A reference is taken as absolute when it starts with "http"; anything else is joined to the base. */
  function Absolute(base: string, ref: string, join: Joiner): Option<string> {
    if StartsWith(ref, "http") then Some(ref) else join(base, ref)
  }

  /** What the scan does with one href: append a link, skip it, or stop because `urljoin` raised. */
  datatype Verdict = Keep(url: string) | Skip | JoinRaised

  function Judge(base: string, href: string, join: Joiner): (v: Verdict)
    ensures !Contains(href, PdfMarker) ==> v == Skip
    ensures v.Keep? ==> Contains(href, PdfMarker) && Contains(v.url, Domain)
    ensures v.Keep? && StartsWith(href, "http") ==> v.url == href
    ensures v.Keep? && !StartsWith(href, "http") ==> join(base, href) == Some(v.url)
    ensures v.JoinRaised? <==> Contains(href, PdfMarker) && !StartsWith(href, "http") && join(base, href).None?
    ensures Contains(href, PdfMarker) && Absolute(base, href, join).Some?
      && Contains(Absolute(base, href, join).value, Domain)
      ==> v == Keep(Absolute(base, href, join).value)
  {
    if !Contains(href, PdfMarker) then Skip
    else match Absolute(base, href, join)
      case None => JoinRaised
      case Some(u) => if Contains(u, Domain) then Keep(u) else Skip
  }

  /** Links gathered so far, and whether the scan ran to the end (false: `urljoin` raised). */
  datatype Harvest = Harvest(links: seq<string>, complete: bool)

  /** The anchor loop over `hrefs`, joining relative hrefs against `base`. */
  function Scan(base: string, hrefs: seq<string>, join: Joiner): (h: Harvest)
    ensures |h.links| <= |hrefs|
    ensures forall k :: 0 <= k < |h.links| ==> Contains(h.links[k], Domain)
    decreases |hrefs|
  {
    if hrefs == [] then Harvest([], true)
    else
      var h := Scan(base, hrefs[..|hrefs| - 1], join);
      if !h.complete then h
      else match Judge(base, hrefs[|hrefs| - 1], join)
        case Keep(u) => Harvest(h.links + [u], true)
        case Skip => h
        case JoinRaised => Harvest(h.links, false)
  }

  /** Position of the first href on which `urljoin` raises, or `|hrefs|`. */
  function FirstRaise(base: string, hrefs: seq<string>, join: Joiner): (i: nat)
    ensures i <= |hrefs|
    ensures i < |hrefs| ==> Judge(base, hrefs[i], join).JoinRaised?
    ensures forall k :: 0 <= k < i ==> !Judge(base, hrefs[k], join).JoinRaised?
    decreases |hrefs|
  {
    if hrefs == [] || Judge(base, hrefs[0], join).JoinRaised? then 0
    else
      var j := FirstRaise(base, hrefs[1..], join);
      assert forall k :: 1 <= k < 1 + j ==> hrefs[k] == hrefs[1..][k - 1];
      1 + j
  }

  /**
   * `links` is the subsequence of the hrefs before `upto` that are kept, in document order
   * and with repeats: `idx` gives, for each link, the increasing position of its href,
   * and every kept href before `upto` has its position in `idx`.
   */
  ghost predicate Selects(base: string, hrefs: seq<string>, join: Joiner, upto: nat, links: seq<string>, idx: seq<nat>) {
    && upto <= |hrefs|
    && |idx| == |links|
    && (forall k :: 0 <= k < |idx| ==> idx[k] < upto && Judge(base, hrefs[idx[k]], join) == Keep(links[k]))
    && (forall k, l :: 0 <= k < l < |idx| ==> idx[k] < idx[l])
    && (forall i :: 0 <= i < upto && Judge(base, hrefs[i], join).Keep? ==> i in idx)
  }

  /** Selection up to `upto` only looks at hrefs before `upto`, so it survives appending hrefs. */
  lemma SelectsExtends(base: string, pre: seq<string>, hrefs: seq<string>, join: Joiner, upto: nat, links: seq<string>, idx: seq<nat>)
    requires |pre| <= |hrefs| && pre == hrefs[..|pre|]
    requires Selects(base, pre, join, upto, links, idx)
    ensures Selects(base, hrefs, join, upto, links, idx)
  {
    assert forall i :: 0 <= i < upto ==> hrefs[i] == pre[i];
  }

  /** How the position of the first raising href moves when one href is appended. */
  lemma FirstRaiseAppend(base: string, hrefs: seq<string>, join: Joiner)
    requires hrefs != []
    ensures var n := |hrefs| - 1;
      var j := FirstRaise(base, hrefs[..n], join);
      FirstRaise(base, hrefs, join)
        == if j < n then j else if Judge(base, hrefs[n], join).JoinRaised? then n else n + 1
  {
    var n := |hrefs| - 1;
    assert forall k :: 0 <= k < n ==> hrefs[k] == hrefs[..n][k];
  }

  /** A kept href extends the selection by its own position. */
  lemma SelectsKeep(base: string, hrefs: seq<string>, join: Joiner, links: seq<string>, idx: seq<nat>, u: string)
    requires hrefs != []
    requires Selects(base, hrefs, join, |hrefs| - 1, links, idx)
    requires Judge(base, hrefs[|hrefs| - 1], join) == Keep(u)
    ensures Selects(base, hrefs, join, |hrefs|, links + [u], idx + [|hrefs| - 1])
  {
  }

  /** A skipped href leaves the selection as it is. */
  lemma SelectsSkip(base: string, hrefs: seq<string>, join: Joiner, links: seq<string>, idx: seq<nat>)
    requires hrefs != []
    requires Selects(base, hrefs, join, |hrefs| - 1, links, idx)
    requires Judge(base, hrefs[|hrefs| - 1], join) == Skip
    ensures Selects(base, hrefs, join, |hrefs|, links, idx)
  {
  }

  /** One more href after a complete scan: the selection grows by it exactly when it is kept. */
  lemma ScanStep(base: string, hrefs: seq<string>, join: Joiner, idx: seq<nat>)
    requires hrefs != []
    requires var pre := hrefs[..|hrefs| - 1];
      Scan(base, pre, join).complete && Selects(base, hrefs, join, |hrefs| - 1, Scan(base, pre, join).links, idx)
    ensures var v := Judge(base, hrefs[|hrefs| - 1], join);
      var upto := if v.JoinRaised? then |hrefs| - 1 else |hrefs|;
      Selects(base, hrefs, join, upto, Scan(base, hrefs, join).links, if v.Keep? then idx + [|hrefs| - 1] else idx)
  {
    var pre := hrefs[..|hrefs| - 1];
    match Judge(base, hrefs[|hrefs| - 1], join)
    case Keep(u) => SelectsKeep(base, hrefs, join, Scan(base, pre, join).links, idx, u);
    case Skip => SelectsSkip(base, hrefs, join, Scan(base, pre, join).links, idx);
    case JoinRaised =>
  }

  /**
   * The direct scan keeps exactly the hrefs it should, in document order and with repeats,
   * up to the first href on which `urljoin` raises, and it is complete exactly when no href raises.
   */
  lemma {:induction false} ScanSelects(base: string, hrefs: seq<string>, join: Joiner)
    ensures Scan(base, hrefs, join).complete <==> FirstRaise(base, hrefs, join) == |hrefs|
    ensures exists idx :: Selects(base, hrefs, join, FirstRaise(base, hrefs, join), Scan(base, hrefs, join).links, idx)
    decreases |hrefs|
  {
    var h := Scan(base, hrefs, join);
    var upto := FirstRaise(base, hrefs, join);
    if hrefs == [] {
      assert Selects(base, hrefs, join, upto, h.links, []);
    } else {
      var n := |hrefs| - 1;
      var pre := hrefs[..n];
      ScanSelects(base, pre, join);
      FirstRaiseAppend(base, hrefs, join);
      var hp := Scan(base, pre, join);
      var j := FirstRaise(base, pre, join);
      var idx: seq<nat> :| Selects(base, pre, join, j, hp.links, idx);
      SelectsExtends(base, pre, hrefs, join, j, hp.links, idx);
      if j == n {
        ScanStep(base, hrefs, join, idx);
      } else {
        assert Selects(base, hrefs, join, upto, h.links, idx);
      }
    }
  }

  /** Once the scan has stopped on a raising href, later hrefs change nothing. */
  lemma {:induction false} ScanStopped(base: string, hrefs: seq<string>, join: Joiner, m: nat)
    requires m <= |hrefs|
    requires !Scan(base, hrefs[..m], join).complete
    ensures Scan(base, hrefs, join) == Scan(base, hrefs[..m], join)
    decreases |hrefs|
  {
    if m < |hrefs| {
      var n := |hrefs| - 1;
      assert hrefs[..n][..m] == hrefs[..m];
      ScanStopped(base, hrefs[..n], join, m);
    } else {
      assert hrefs[..m] == hrefs;
    }
  }

  /** What one iframe adds: the links of its page when it answers 200, nothing otherwise. */
  function FrameLinks(frameUrl: string, fetch: string -> PageFetch, join: Joiner): (links: seq<string>)
    ensures forall k :: 0 <= k < |links| ==> Contains(links[k], Domain)
  {
    match fetch(frameUrl)
    case Unreachable => []
    case Answered(status, page) =>
      if status == 200 then Scan(frameUrl, page.hrefs, join).links else []
  }

  /** One iframe of the loop: while no `urljoin` has raised, the links of the iframe at `src` are appended. */
  function AddFrame(h: Harvest, pageUrl: string, src: string, fetch: string -> PageFetch, join: Joiner): (r: Harvest)
    ensures !h.complete ==> r == h
    ensures r.complete ==> h.complete
  {
    if !h.complete then h
    else match Absolute(pageUrl, src, join)
      case None => Harvest(h.links, false)
      case Some(frameUrl) => Harvest(h.links + FrameLinks(frameUrl, fetch, join), true)
  }

  /**
   * The iframe loop: each `src` is made absolute against the page URL and its page's links
   * are appended; a `urljoin` that raises on a `src` ends the whole extraction.
   */
  function FromIframes(pageUrl: string, srcs: seq<string>, fetch: string -> PageFetch, join: Joiner): (h: Harvest)
    decreases |srcs|
  {
    if srcs == [] then Harvest([], true)
    else AddFrame(FromIframes(pageUrl, srcs[..|srcs| - 1], fetch, join), pageUrl, srcs[|srcs| - 1], fetch, join)
  }

  /** Every link the iframes yield contains the accepted domain. */
  lemma {:induction false} IframeLinksOnDomain(pageUrl: string, srcs: seq<string>, fetch: string -> PageFetch, join: Joiner)
    ensures forall k :: 0 <= k < |FromIframes(pageUrl, srcs, fetch, join).links| ==>
      Contains(FromIframes(pageUrl, srcs, fetch, join).links[k], Domain)
    decreases |srcs|
  {
    if srcs != [] {
      var pre := srcs[..|srcs| - 1];
      IframeLinksOnDomain(pageUrl, pre, fetch, join);
      var h := FromIframes(pageUrl, pre, fetch, join);
      var r := AddFrame(h, pageUrl, srcs[|srcs| - 1], fetch, join);
      assert FromIframes(pageUrl, srcs, fetch, join) == r;
      if h.complete && Absolute(pageUrl, srcs[|srcs| - 1], join).Some? {
        var more := FrameLinks(Absolute(pageUrl, srcs[|srcs| - 1], join).value, fetch, join);
        assert r.links == h.links + more;
        forall k | 0 <= k < |r.links|
          ensures Contains(r.links[k], Domain)
        {
          if k < |h.links| {
            assert r.links[k] == h.links[k];
          } else {
            assert r.links[k] == more[k - |h.links|];
          }
        }
      }
    }
  }

  /** Once the iframe loop has stopped, later iframes change nothing. */
  lemma {:induction false} FromIframesStopped(pageUrl: string, srcs: seq<string>, fetch: string -> PageFetch, join: Joiner, m: nat)
    requires m <= |srcs|
    requires !FromIframes(pageUrl, srcs[..m], fetch, join).complete
    ensures FromIframes(pageUrl, srcs, fetch, join) == FromIframes(pageUrl, srcs[..m], fetch, join)
    decreases |srcs|
  {
    if m < |srcs| {
      var n := |srcs| - 1;
      assert srcs[..n][..m] == srcs[..m];
      FromIframesStopped(pageUrl, srcs[..n], fetch, join, m);
    } else {
      assert srcs[..m] == srcs;
    }
  }

  /** The iframes `pre` followed by one more iframe `src`. */
  lemma FromIframesSnoc(pageUrl: string, pre: seq<string>, src: string, fetch: string -> PageFetch, join: Joiner)
    ensures FromIframes(pageUrl, pre + [src], fetch, join)
         == AddFrame(FromIframes(pageUrl, pre, fetch, join), pageUrl, src, fetch, join)
  {
    assert (pre + [src])[..|pre|] == pre;
  }

  /**
   * Iframes contribute in document order: the iframes `a` followed by the iframes `b` give
   * the links of `a` followed by the links of `b`, as long as no `src` of `a` made `urljoin` raise.
   */
  lemma {:induction false} IframesInOrder(pageUrl: string, a: seq<string>, b: seq<string>,
                                          fetch: string -> PageFetch, join: Joiner)
    requires FromIframes(pageUrl, a, fetch, join).complete
    ensures var hb := FromIframes(pageUrl, b, fetch, join);
      FromIframes(pageUrl, a + b, fetch, join)
        == Harvest(FromIframes(pageUrl, a, fetch, join).links + hb.links, hb.complete)
    decreases |b|
  {
    if b == [] {
      assert a + b == a;
    } else {
      var c, x := b[..|b| - 1], b[|b| - 1];
      assert b == c + [x];
      assert a + b == (a + c) + [x];
      IframesInOrder(pageUrl, a, c, fetch, join);
      FromIframesSnoc(pageUrl, a + c, x, fetch, join);
      FromIframesSnoc(pageUrl, c, x, fetch, join);
      AddFrameAfter(FromIframes(pageUrl, a, fetch, join).links, FromIframes(pageUrl, c, fetch, join), pageUrl, x, fetch, join);
    }
  }

  /** Adding an iframe after links gathered earlier keeps those links in front. */
  lemma AddFrameAfter(front: seq<string>, h: Harvest, pageUrl: string, src: string, fetch: string -> PageFetch, join: Joiner)
    ensures var r := AddFrame(h, pageUrl, src, fetch, join);
      AddFrame(Harvest(front + h.links, h.complete), pageUrl, src, fetch, join) == Harvest(front + r.links, r.complete)
  {
    if h.complete {
      match Absolute(pageUrl, src, join)
      case None =>
      case Some(frameUrl) =>
        var more := FrameLinks(frameUrl, fetch, join);
        assert (front + h.links) + more == front + (h.links + more);
    }
  }

  /** `extract_all_pdf_links(page_url)`: the whole extraction as one value. */
  function Extract(pageUrl: string, fetch: string -> PageFetch, join: Joiner): (links: seq<string>)
    ensures forall k :: 0 <= k < |links| ==> Contains(links[k], Domain)
    ensures !(fetch(pageUrl).Answered? && fetch(pageUrl).status == 200) ==> links == []
  {
    match fetch(pageUrl)
    case Unreachable => []
    case Answered(status, page) =>
      if status != 200 then []
      else
        var direct := Scan(pageUrl, page.hrefs, join);
        if !direct.complete || direct.links != [] then direct.links
        else
          IframeLinksOnDomain(pageUrl, page.iframeSrcs, fetch, join);
          FromIframes(pageUrl, page.iframeSrcs, fetch, join).links
  }

  /**
   * When the direct scan finds a link, or stops on a raising `urljoin`, the result is the
   * direct scan's and no iframe is fetched: the result does not depend on what any other URL answers.
   */
  lemma DirectScanDecides(pageUrl: string, fetch: string -> PageFetch, other: string -> PageFetch, join: Joiner)
    requires fetch(pageUrl).Answered? && fetch(pageUrl).status == 200
    requires var direct := Scan(pageUrl, fetch(pageUrl).page.hrefs, join); !direct.complete || direct.links != []
    requires other(pageUrl) == fetch(pageUrl)
    ensures Extract(pageUrl, fetch, join) == Scan(pageUrl, fetch(pageUrl).page.hrefs, join).links
    ensures Extract(pageUrl, other, join) == Extract(pageUrl, fetch, join)
  {
  }

  /**
   * With no raising `urljoin`, a page answering 200 whose anchors yield links gives exactly the
   * kept hrefs, in document order and with repeats.
   */
  lemma DirectLinksExactly(pageUrl: string, fetch: string -> PageFetch, join: Joiner)
    requires fetch(pageUrl).Answered? && fetch(pageUrl).status == 200
    requires FirstRaise(pageUrl, fetch(pageUrl).page.hrefs, join) == |fetch(pageUrl).page.hrefs|
    requires Scan(pageUrl, fetch(pageUrl).page.hrefs, join).links != []
    ensures exists idx :: Selects(pageUrl, fetch(pageUrl).page.hrefs, join, |fetch(pageUrl).page.hrefs|,
                                  Extract(pageUrl, fetch, join), idx)
  {
    ScanSelects(pageUrl, fetch(pageUrl).page.hrefs, join);
    assert Extract(pageUrl, fetch, join) == Scan(pageUrl, fetch(pageUrl).page.hrefs, join).links;
  }

  /**
   * An iframe whose absolute URL answers something other than 200, or raises, contributes
   * nothing and does not stop the iframes after it.
   */
  lemma {:induction false} FailingFrameAddsNothing(pageUrl: string, before: seq<string>, src: string, after: seq<string>,
                                                   fetch: string -> PageFetch, join: Joiner)
    requires Absolute(pageUrl, src, join).Some?
    requires var f := fetch(Absolute(pageUrl, src, join).value); !(f.Answered? && f.status == 200)
    ensures FromIframes(pageUrl, before + [src] + after, fetch, join) == FromIframes(pageUrl, before + after, fetch, join)
    decreases |after|
  {
    if after == [] {
      FromIframesSnoc(pageUrl, before, src, fetch, join);
      var h := FromIframes(pageUrl, before, fetch, join);
      assert h.links + FrameLinks(Absolute(pageUrl, src, join).value, fetch, join) == h.links;
      assert before + [src] + after == before + [src] && before + after == before;
    } else {
      var rest, x := after[..|after| - 1], after[|after| - 1];
      FailingFrameAddsNothing(pageUrl, before, src, rest, fetch, join);
      assert before + [src] + after == (before + [src] + rest) + [x];
      assert before + after == (before + rest) + [x];
      FromIframesSnoc(pageUrl, before + [src] + rest, x, fetch, join);
      FromIframesSnoc(pageUrl, before + rest, x, fetch, join);
    }
  }

  /**
   * A page with no direct document link and a single iframe yields exactly that iframe's
   * links, joined against the iframe's URL (the `src` itself, or the `src` joined against
   * the page) rather than the page's.
   */
  lemma SingleFrameFallback(pageUrl: string, hrefs: seq<string>, src: string, frameUrl: string,
                            fetch: string -> PageFetch, join: Joiner)
    requires fetch(pageUrl) == Answered(200, Page(hrefs, [src]))
    requires Scan(pageUrl, hrefs, join) == Harvest([], true)
    requires Absolute(pageUrl, src, join) == Some(frameUrl)
    requires fetch(frameUrl).Answered? && fetch(frameUrl).status == 200
    ensures Extract(pageUrl, fetch, join) == Scan(frameUrl, fetch(frameUrl).page.hrefs, join).links
    ensures exists idx :: Selects(frameUrl, fetch(frameUrl).page.hrefs, join,
                                  FirstRaise(frameUrl, fetch(frameUrl).page.hrefs, join),
                                  Extract(pageUrl, fetch, join), idx)
  {
    assert [src][..0] == [];
    var frames := FromIframes(pageUrl, [src], fetch, join);
    assert FromIframes(pageUrl, [], fetch, join) == Harvest([], true);
    assert [] + FrameLinks(frameUrl, fetch, join) == FrameLinks(frameUrl, fetch, join);
    assert frames == Harvest(FrameLinks(frameUrl, fetch, join), true);
    assert Extract(pageUrl, fetch, join) == frames.links;
    ScanSelects(frameUrl, fetch(frameUrl).page.hrefs, join);
  }

  /**
   * The domain test looks at the whole URL, not the host: a look-alike host that merely
   * contains `archives.gov` is accepted.
   */
  lemma LookalikeHostAccepted(base: string, href: string, join: Joiner)
    requires href == "https://" + Domain + ".example.net/a" + PdfMarker
    ensures Judge(base, href, join) == Keep(href)
  {
    assert href[..4] == "http";
    ContainsMiddle("https://", Domain, ".example.net/a" + PdfMarker);
    assert "https://" + Domain + (".example.net/a" + PdfMarker) == href;
    ContainsMiddle("https://" + Domain + ".example.net/a", PdfMarker, "");
    assert "https://" + Domain + ".example.net/a" + PdfMarker + "" == href;
  }

  /**
   * The absolute test is a prefix test on "http": a relative href such as `http-a.pdf` is
   * taken verbatim, never joined, and dropped even when joining it would give an archive URL.
   */
  lemma HttpPrefixNotJoined(base: string, href: string, join: Joiner)
    requires href == "http-a.pdf"
    ensures Absolute(base, href, join) == Some(href)
    ensures Judge(base, href, join) == Skip
  {
    assert StartsWith(href, "http") by {
      assert href == "http" + "-a.pdf";
      assert href[..4] == "http";
    }
    assert Contains(href, PdfMarker) by {
      assert href == "http-a" + PdfMarker + "";
      ContainsMiddle("http-a", PdfMarker, "");
    }
    ContainsIffOccurs(href, Domain);
  }
}
