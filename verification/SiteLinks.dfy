/** The link check of the built site: a worklist crawl from the homepage. */
module SiteLinks {
  import opened Text

  /** A parsed page: the links in it, the anchors it offers, and its base, if it sets one. */
  datatype Page = Page(links: seq<string>, ids: set<string>, base: Option<string>)

  /** Where a link found on a page leads. */
  datatype Resolution = External | Broken(why: string) | Leads(file: string)

  /** The files of the site that parse as pages, and the reading of URLs. */
  datatype Site = Site(
    pages: map<string, Page>,
    resolve: (string, string) -> Resolution,
    fragment: string -> string,
    unquote: string -> string)

  datatype Problem = Problem(page: string, url: string, why: string)

  const HOME := "index.html"

  predicate EndsWith(s: string, suffix: string) {
    |suffix| <= |s| && s[|s| - |suffix|..] == suffix
  }

  predicate IsHtml(file: string) {
    EndsWith(file, ".html") || EndsWith(file, ".htm")
  }

  /** A fragment every browser accepts. */
  predicate IsTop(fragment: string) {
    |fragment| == 3 && fragment[0] in "tT" && fragment[1] in "oO" && fragment[2] in "pP"
  }

  /** A link only ever leads to a file that exists. */
  ghost predicate FilesExist(site: Site) {
    forall url, page {:trigger site.resolve(url, page)} ::
      site.resolve(url, page).Leads? && IsHtml(site.resolve(url, page).file) ==> site.resolve(url, page).file in site.pages
  }

  // ----- What should be found -----

  predicate LinksTo(site: Site, page: string, i: nat, target: string)
    requires page in site.pages && i < |site.pages[page].links|
  {
    site.resolve(site.pages[page].links[i], page) == Leads(target) && IsHtml(target)
  }

  ghost predicate Edge(site: Site, page: string, target: string) {
    page in site.pages && exists i :: 0 <= i < |site.pages[page].links| && LinksTo(site, page, i, target)
  }

  ghost predicate IsTrail(site: Site, trail: seq<string>) {
    && trail != [] && trail[0] == HOME
    && forall i :: 1 <= i < |trail| ==> Edge(site, trail[i - 1], trail[i])
  }

  /** A reader can get to the page from the homepage. */
  ghost predicate Reachable(site: Site, page: string) {
    exists trail :: IsTrail(site, trail) && trail[|trail| - 1] == page
  }

  function BaseProblems(site: Site, page: string): set<Problem>
    requires page in site.pages
  {
    match site.pages[page].base
    case None => {}
    case Some(base) => {Problem(page, "<base href=\"" + base + "\">", "sets <base href>, which this check does not model")}
  }

  predicate MissesAnchor(site: Site, fragment: string, target: string) {
    fragment != "" && !IsTop(fragment) && target in site.pages && site.unquote(fragment) !in site.pages[target].ids
  }

  function LinkProblem(site: Site, page: string, url: string): Option<Problem> {
    match site.resolve(url, page)
    case External => None
    case Broken(why) => Some(Problem(page, url, why))
    case Leads(target) =>
      if IsHtml(target) && MissesAnchor(site, site.fragment(url), target)
      then Some(Problem(page, url, "has no #" + site.fragment(url) + " anchor on " + target))
      else None
  }

  function LinkProblems(site: Site, page: string, n: nat): set<Problem>
    requires page in site.pages && n <= |site.pages[page].links|
  {
    if n == 0 then {}
    else
      var p := LinkProblem(site, page, site.pages[page].links[n - 1]);
      LinkProblems(site, page, n - 1) + if p.Some? then {p.value} else {}
  }

  function ProblemsOf(site: Site, page: string): set<Problem> {
    if page in site.pages then BaseProblems(site, page) + LinkProblems(site, page, |site.pages[page].links|) else {}
  }

  function ProblemsOn(site: Site, pages: set<string>): set<Problem> {
    set page, p | page in pages && p in ProblemsOf(site, page) :: p
  }

  function Elements(problems: seq<Problem>): set<Problem> {
    set p | p in problems
  }

  /** A link a reader can follow: it leaves the site, or leads to a file that is no page, or to a
      page, at its top or at an anchor that the page has. */
  predicate LinkIsFine(site: Site, page: string, url: string) {
    match site.resolve(url, page)
    case External => true
    case Broken(_) => false
    case Leads(target) =>
      var fragment := site.fragment(url);
      || !(EndsWith(target, ".html") || EndsWith(target, ".htm"))
      || fragment in {"", "top", "Top", "tOp", "toP", "TOp", "ToP", "tOP", "TOP"}
      || target !in site.pages || site.unquote(fragment) in site.pages[target].ids
  }

  lemma TopSpellings(fragment: string)
    ensures IsTop(fragment) <==> fragment in {"top", "Top", "tOp", "toP", "TOp", "ToP", "tOP", "TOP"}
  {
    if IsTop(fragment) {
      assert fragment == [fragment[0], fragment[1], fragment[2]];
    }
  }

  lemma FineLinksHaveNoProblem(site: Site, page: string, url: string)
    ensures LinkProblem(site, page, url).None? <==> LinkIsFine(site, page, url)
    ensures LinkProblem(site, page, url).Some? ==>
              LinkProblem(site, page, url).value.page == page && LinkProblem(site, page, url).value.url == url
  {
    hide EndsWith, IsTop;
    TopSpellings(site.fragment(url));
  }

  lemma {:induction false} ProblemsOfLinks(site: Site, page: string, n: nat, p: Problem)
    requires page in site.pages && n <= |site.pages[page].links|
    ensures p in LinkProblems(site, page, n) <==>
              exists i :: 0 <= i < n && LinkProblem(site, page, site.pages[page].links[i]) == Some(p)
  {
    hide LinkProblem;
    if n > 0 {
      ProblemsOfLinks(site, page, n - 1, p);
    }
  }

  /** A page has no problem exactly when it sets no base and all its links are fine; and each
      problem names the page and a link that is not, or the base. */
  lemma PagesWithoutProblems(site: Site, page: string)
    requires page in site.pages
    ensures ProblemsOf(site, page) == {} <==>
              && site.pages[page].base.None?
              && forall i :: 0 <= i < |site.pages[page].links| ==> LinkIsFine(site, page, site.pages[page].links[i])
    ensures forall p :: p in ProblemsOf(site, page) ==>
              && p.page == page
              && (site.pages[page].base.Some? || (p.url in site.pages[page].links && !LinkIsFine(site, page, p.url)))
  {
    hide LinkProblem, LinkIsFine, LinkProblems;
    var links := site.pages[page].links;
    forall i | 0 <= i < |links|
      ensures !LinkIsFine(site, page, links[i]) ==> ProblemsOf(site, page) != {}
    {
      FineLinksHaveNoProblem(site, page, links[i]);
      if LinkProblem(site, page, links[i]).Some? {
        ProblemsOfLinks(site, page, |links|, LinkProblem(site, page, links[i]).value);
      }
    }
    forall p | p in LinkProblems(site, page, |links|)
      ensures p.page == page && p.url in links && !LinkIsFine(site, page, p.url)
    {
      ProblemsOfLinks(site, page, |links|, p);
      var i :| 0 <= i < |links| && LinkProblem(site, page, links[i]) == Some(p);
      FineLinksHaveNoProblem(site, page, links[i]);
    }
    if ProblemsOf(site, page) != {} {
      var p :| p in ProblemsOf(site, page);
    }
  }

  // ----- Reachability -----

  lemma HomeIsReachable(site: Site)
    ensures Reachable(site, HOME)
  {
    assert IsTrail(site, [HOME]);
  }

  lemma EdgeExtendsReach(site: Site, page: string, target: string)
    requires Reachable(site, page) && Edge(site, page, target)
    ensures Reachable(site, target)
  {
    hide Edge;
    var trail :| IsTrail(site, trail) && trail[|trail| - 1] == page;
    var longer := trail + [target];
    assert IsTrail(site, longer);
    assert longer[|longer| - 1] == target;
  }

  lemma {:induction false} ClosedHoldsTrail(site: Site, seen: set<string>, trail: seq<string>)
    requires HOME in seen && (forall p, q :: p in seen && Edge(site, p, q) ==> q in seen) && IsTrail(site, trail)
    ensures trail[|trail| - 1] in seen
    decreases |trail|
  {
    hide Edge;
    var n := |trail| - 1;
    if n > 0 {
      assert IsTrail(site, trail[..n]);
      ClosedHoldsTrail(site, seen, trail[..n]);
      assert Edge(site, trail[n - 1], trail[n]);
    }
  }

  // ----- The crawl -----

  /** What holds between two pages: everything known is reachable, every edge out of a
      crawled page is crawled or queued, and a page parsed early, for its anchors, is too. */
  ghost predicate Progress(site: Site, seen: set<string>, queue: seq<string>, parsed: map<string, Page>) {
    && (forall p :: p in seen || p in queue ==> p in site.pages && Reachable(site, p))
    && (forall p :: p in parsed ==> p in site.pages && parsed[p] == site.pages[p] && (p in seen || p in queue))
    && (HOME in seen || HOME in queue)
  }

  ghost predicate Closed(site: Site, from: set<string>, seen: set<string>, queue: seq<string>) {
    forall p, q :: p in from && Edge(site, p, q) ==> q in seen || q in queue
  }

  /** The edges out of the first `n` links of a page. */
  ghost predicate ClosedUpTo(site: Site, page: string, n: nat, seen: set<string>, queue: seq<string>)
    requires page in site.pages && n <= |site.pages[page].links|
  {
    forall i, q :: 0 <= i < n && LinksTo(site, page, i, q) ==> q in seen || q in queue
  }

  method Crawl(site: Site) returns (seen: set<string>, problems: seq<Problem>)
    requires FilesExist(site) && HOME in site.pages
    ensures forall p :: p in seen <==> Reachable(site, p)
    ensures Elements(problems) == ProblemsOn(site, seen)
  {
    hide Reachable, Edge, LinkProblems, BaseProblems, FilesExist;
    problems, seen := [], {};
    var queue := [HOME];
    var parsed: map<string, Page> := map[];
    HomeIsReachable(site);
    while queue != []
      invariant Progress(site, seen, queue, parsed)
      invariant Closed(site, seen, seen, queue)
      invariant Elements(problems) == ProblemsOn(site, seen)
      decreases site.pages.Keys - seen, |queue|
    {
      var page := queue[0];
      ghost var before, all := seen, queue;
      assert page in queue && page in site.pages;
      queue := queue[1..];
      assert forall p :: p in all ==> p == page || p in queue;
      if page in seen {
        continue;
      }
      seen := seen + {page};
      var found;
      queue, parsed, found := CrawlPage(site, page, seen, queue, parsed, before);
      CrawledPage(site, before, page, problems, found);
      problems := problems + found;
    }
    forall p | Reachable(site, p) ensures p in seen {
      ReachableIsSeen(site, seen, p);
    }
  }

  lemma ReachableIsSeen(site: Site, seen: set<string>, page: string)
    requires HOME in seen && (forall p, q :: p in seen && Edge(site, p, q) ==> q in seen) && Reachable(site, page)
    ensures page in seen
  {
    var trail :| IsTrail(site, trail) && trail[|trail| - 1] == page;
    ClosedHoldsTrail(site, seen, trail);
  }

  lemma CrawledPage(site: Site, before: set<string>, page: string, problems: seq<Problem>, found: seq<Problem>)
    requires Elements(problems) == ProblemsOn(site, before) && Elements(found) == ProblemsOf(site, page)
    ensures Elements(problems + found) == ProblemsOn(site, before + {page})
  {
    hide ProblemsOf;
    assert Elements(problems + found) == Elements(problems) + Elements(found);
    assert ProblemsOn(site, before + {page}) == ProblemsOn(site, before) + ProblemsOf(site, page);
  }

  /** One page: its links are followed, and what is wrong with them recorded. */
  method CrawlPage(site: Site, page: string, seen: set<string>, queue0: seq<string>, parsed0: map<string, Page>,
                   ghost before: set<string>)
    returns (queue: seq<string>, parsed: map<string, Page>, problems: seq<Problem>)
    requires FilesExist(site) && page in site.pages && seen == before + {page} && Reachable(site, page)
    requires Progress(site, seen, queue0, parsed0) && Closed(site, before, seen, queue0)
    ensures Progress(site, seen, queue, parsed) && Closed(site, seen, seen, queue)
    ensures Elements(problems) == ProblemsOf(site, page)
  {
    hide Reachable, Edge, LinksTo, BaseProblems, LinkProblems, Elements, FilesExist, Closed, ClosedUpTo, IsHtml, IsTop;
    queue, parsed, problems := queue0, parsed0, [];
    var info := site.pages[page];
    parsed := parsed[page := info];
    if info.base.Some? {
      problems := [Problem(page, "<base href=\"" + info.base.value + "\">", "sets <base href>, which this check does not model")];
    }
    BaseFound(site, page, problems);
    assert ClosedUpTo(site, page, 0, seen, queue) by { NothingFollowed(site, page, seen, queue); }
    for i := 0 to |info.links|
      invariant Progress(site, seen, queue, parsed)
      invariant Closed(site, before, seen, queue) && ClosedUpTo(site, page, i, seen, queue)
      invariant Elements(problems) == BaseProblems(site, page) + LinkProblems(site, page, i)
    {
      var url := info.links[i];
      ghost var queued := queue;
      ghost var recorded := problems;
      match site.resolve(url, page) {
      case External =>
      case Broken(why) =>
        problems := problems + [Problem(page, url, why)];
      case Leads(target) =>
        if IsHtml(target) {
          LedTo(site, page, i, target);
          if target !in parsed && target !in seen {
            queue := queue + [target];
          }
          assert target in seen || target in queue;
          var frag := site.fragment(url);
          if frag != "" && !IsTop(frag) {
            var info' := if target in parsed then parsed[target] else site.pages[target];
            parsed := parsed[target := info'];
            if site.unquote(frag) !in info'.ids {
              problems := problems + [Problem(page, url, "has no #" + frag + " anchor on " + target)];
            }
          }
        }
      }
      Followed(site, page, i, before, seen, queued, queue);
      Recorded(site, page, i, recorded, problems);
    }
    PageFollowed(site, page, before, seen, queue);
  }

  lemma BaseFound(site: Site, page: string, problems: seq<Problem>)
    requires page in site.pages
    requires problems == match site.pages[page].base
                         case None => []
                         case Some(base) => [Problem(page, "<base href=\"" + base + "\">", "sets <base href>, which this check does not model")]
    ensures Elements(problems) == BaseProblems(site, page) + LinkProblems(site, page, 0)
  {
  }

  lemma Recorded(site: Site, page: string, i: nat, before: seq<Problem>, after: seq<Problem>)
    requires page in site.pages && i < |site.pages[page].links|
    requires var p := LinkProblem(site, page, site.pages[page].links[i]);
             after == if p.Some? then before + [p.value] else before
    requires Elements(before) == BaseProblems(site, page) + LinkProblems(site, page, i)
    ensures Elements(after) == BaseProblems(site, page) + LinkProblems(site, page, i + 1)
  {
    hide LinkProblem, BaseProblems;
    var p := LinkProblem(site, page, site.pages[page].links[i]);
    if p.Some? {
      assert Elements(before + [p.value]) == Elements(before) + {p.value};
    }
  }

  lemma NothingFollowed(site: Site, page: string, seen: set<string>, queue: seq<string>)
    requires page in site.pages
    ensures ClosedUpTo(site, page, 0, seen, queue)
  {
  }

  lemma LedTo(site: Site, page: string, i: nat, target: string)
    requires FilesExist(site) && page in site.pages && i < |site.pages[page].links| && Reachable(site, page)
    requires site.resolve(site.pages[page].links[i], page) == Leads(target) && IsHtml(target)
    ensures target in site.pages && Reachable(site, target)
  {
    hide IsHtml, Reachable;
    assert LinksTo(site, page, i, target);
    EdgeExtendsReach(site, page, target);
  }

  lemma Followed(site: Site, page: string, i: nat, before: set<string>, seen: set<string>, queue: seq<string>, queue': seq<string>)
    requires page in site.pages && i < |site.pages[page].links| && queue <= queue'
    requires Closed(site, before, seen, queue) && ClosedUpTo(site, page, i, seen, queue)
    requires var r := site.resolve(site.pages[page].links[i], page);
             r.Leads? && IsHtml(r.file) ==> r.file in seen || r.file in queue'
    ensures Closed(site, before, seen, queue') && ClosedUpTo(site, page, i + 1, seen, queue')
  {
    hide Edge, IsHtml;
    assert forall q :: q in queue ==> q in queue';
  }

  lemma PageFollowed(site: Site, page: string, before: set<string>, seen: set<string>, queue: seq<string>)
    requires page in site.pages && seen == before + {page}
    requires Closed(site, before, seen, queue) && ClosedUpTo(site, page, |site.pages[page].links|, seen, queue)
    ensures Closed(site, seen, seen, queue)
  {
    hide LinksTo;
  }

  /** The check passes exactly when no page a reader can reach has a problem. */
  method CheckSite(site: Site) returns (status: nat, seen: set<string>, problems: seq<Problem>)
    requires FilesExist(site) && HOME in site.pages
    ensures status == 0 <==> forall page :: Reachable(site, page) ==> ProblemsOf(site, page) == {}
    ensures forall p :: p in problems <==> exists page :: Reachable(site, page) && p in ProblemsOf(site, page)
  {
    hide Reachable, ProblemsOf;
    seen, problems := Crawl(site);
    forall p ensures p in problems <==> exists page :: Reachable(site, page) && p in ProblemsOf(site, page) {
      assert p in problems <==> p in Elements(problems);
    }
    if problems == [] {
      status := 0;
      forall page | Reachable(site, page) ensures ProblemsOf(site, page) == {} {
        assert forall p :: p in ProblemsOf(site, page) ==> p in problems;
      }
    } else {
      status := 1;
      assert problems[0] in problems;
    }
  }
}
