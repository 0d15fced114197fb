/**
 * The breadth-first crawl of main.c: `filter_links`, the link loop of `explore` and the
 * do/while loop of `main`, run on the concrete hash set and linked queue. Fetching and
 * parsing a page is a parameter `web`, applied to the page's full URL.
 */
module Crawl {
  import opened Bytes
  import opened Links
  import opened Graph
  import Hashset
  import Fifo

  /** What the HTTP fetch and the HTML parse give for a URL: the `href` of each `<a>` node, `None` for a node without one. */
  datatype Page = FetchFailed | Fetched(hrefs: seq<Option<CString>>)

  /** The hrefs actually present, in document order. */
  function Present(hrefs: seq<Option<CString>>): (r: seq<CString>)
    ensures |r| <= |hrefs|
    ensures forall x :: x in r <==> Some(x) in hrefs
  {
    if hrefs == [] then []
    else
      var prefix := Present(hrefs[..|hrefs| - 1]);
      assert hrefs == hrefs[..|hrefs| - 1] + [hrefs[|hrefs| - 1]];
      match hrefs[|hrefs| - 1]
      case None => prefix
      case Some(link) => prefix + [link]
  }

  /** The canonical names a page yields; none when the fetch fails. */
  function PageLinks(page: Page): seq<CString>
  {
    match page
    case FetchFailed => []
    case Fetched(hrefs) => Canonicals(Present(hrefs))
  }

  /** The global state of the crawler: `seen`, `to_explore` and the lines written to the graph file. */
  datatype Crawler = Crawler(seen: Hashset.HashSet, toExplore: Fifo.Queue<CString>, edges: seq<Edge>)

  predicate Valid(c: Crawler)
  {
    Hashset.Valid(c.seen) && Fifo.Valid(c.toExplore)
  }

  /** The sets and sequences the crawler's structures stand for. */
  ghost function ViewOf(c: Crawler): View
    requires Valid(c)
  {
    View(Hashset.Contents(c.seen), Fifo.Elements(c.toExplore), c.edges)
  }

  /**
   * `filter_links`: enqueue the article name of every accepted href, skipping nodes
   * without one.
   */
  method FilterHrefs(hrefs: seq<Option<CString>>) returns (result: Fifo.Queue<CString>)
    ensures Fifo.Valid(result)
    ensures Fifo.Elements(result) == FilterLinks(Present(hrefs))
  {
    result := Fifo.NewQueue();
    var i := 0;
    FilterNone(hrefs);
    while i < |hrefs|
      invariant 0 <= i <= |hrefs|
      invariant Fifo.Valid(result)
      invariant Fifo.Elements(result) == FilterLinks(Present(hrefs[..i]))
    {
      result := FilterHref(result, hrefs, i);
      i := i + 1;
    }
    assert hrefs[..i] == hrefs;
  }

  /** Before the walk has looked at any node, nothing is collected. */
  lemma FilterNone(hrefs: seq<Option<CString>>)
    ensures FilterLinks(Present(hrefs[..0])) == []
  {
    assert hrefs[..0] == [];
  }

  /** One node of the `filter_links` walk: enqueue its article name if it has an accepted href. */
  method FilterHref(q: Fifo.Queue<CString>, hrefs: seq<Option<CString>>, i: nat) returns (r: Fifo.Queue<CString>)
    requires i < |hrefs|
    requires Fifo.Valid(q) && Fifo.Elements(q) == FilterLinks(Present(hrefs[..i]))
    ensures Fifo.Valid(r)
    ensures Fifo.Elements(r) == FilterLinks(Present(hrefs[..i + 1]))
  {
    FilterSnoc(hrefs, i);
    match hrefs[i] {
      case None =>
        r := q;
      case Some(link) =>
        if ShouldExplore(link) {
          r := Fifo.Enqueue(q, ArticleName(link));
        } else {
          r := q;
        }
    }
  }

  /** The article names one node contributes: one if it has an accepted href, none otherwise. */
  function Accepted(href: Option<CString>): seq<CString>
  {
    match href
    case Some(link) => if ShouldExplore(link) then [ArticleName(link)] else []
    case None => []
  }

  /** Walking one more node appends that node's contribution. */
  lemma FilterSnoc(hrefs: seq<Option<CString>>, i: nat)
    requires i < |hrefs|
    ensures FilterLinks(Present(hrefs[..i + 1])) == FilterLinks(Present(hrefs[..i])) + Accepted(hrefs[i])
  {
    assert hrefs[..i + 1] == hrefs[..i] + [hrefs[i]];
    PresentSnoc(hrefs[..i], hrefs[i]);
    if hrefs[i].Some? {
      FilterLinksSnoc(Present(hrefs[..i]), hrefs[i].value);
    }
  }

  /** One more node adds its href, if it has one. */
  lemma PresentSnoc(hrefs: seq<Option<CString>>, h: Option<CString>)
    ensures Present(hrefs + [h]) == Present(hrefs) + (if h.Some? then [h.value] else [])
  {
    var all := hrefs + [h];
    assert all[..|all| - 1] == hrefs && all[|all| - 1] == h;
  }

  /** One more raw link adds its article name when `should_explore` accepts it. */
  lemma FilterLinksSnoc(raws: seq<CString>, link: CString)
    ensures FilterLinks(raws + [link]) == FilterLinks(raws) + (if ShouldExplore(link) then [ArticleName(link)] else [])
  {
    var all := raws + [link];
    assert all[..|all| - 1] == raws && all[|all| - 1] == link;
  }

  /**
   * One iteration of the link loop of `explore`: write the edge unless the name is the
   * page itself, and on a miss in `seen` insert the name and queue it for exploration.
   */
  method Visit(current: CString, c: Crawler, name: CString) returns (r: Crawler)
    requires Valid(c)
    ensures Valid(r)
    ensures ViewOf(r) == Record(current, ViewOf(c), name)
  {
    var edges := if name != current then c.edges + [Edge(current, name)] else c.edges;
    var found := Hashset.Search(c.seen, name);
    if !found {
      r := Crawler(Hashset.Insert(c.seen, name), Fifo.Enqueue(c.toExplore, name), edges);
    } else {
      r := c.(edges := edges);
    }
  }

  /** The names a page's drain loop records: each collected article name, URL-decoded and read up to its first NUL. */
  function Decoded(raw: seq<CString>): (r: seq<CString>)
    ensures |r| == |raw|
  {
    seq(|raw|, k requires 0 <= k < |raw| => CStringView(UrlDecode(raw[k])))
  }

  lemma DecodedCons(raw: seq<CString>)
    requires raw != []
    ensures Decoded(raw) == [CStringView(UrlDecode(raw[0]))] + Decoded(raw[1..])
  {
    var whole, rest := Decoded(raw), Decoded(raw[1..]);
    forall k | 1 <= k < |whole| ensures whole[k] == rest[k - 1] {
      assert raw[1..][k - 1] == raw[k];
    }
  }

  /**
   * `explore`: fetch the page, collect its accepted links into a new queue, then
   * drain that queue. A failed fetch changes nothing.
   */
  method Explore(current: CString, web: CString -> Page, c: Crawler) returns (r: Crawler)
    requires Valid(c)
    ensures Valid(r)
    ensures ViewOf(r) == RecordAll(current, ViewOf(c), PageLinks(web(FullUrl(current))))
  {
    r := c;
    var page := web(FullUrl(current));
    if page.FetchFailed? {
      return;
    }
    var newLinks := FilterHrefs(page.hrefs);
    assert Decoded(FilterLinks(Present(page.hrefs))) == Canonicals(Present(page.hrefs));
    r := Drain(current, c, newLinks);
  }

  /**
   * The link loop of `explore`: dequeue a collected name, decode it in place, record
   * it, and go on until `dequeue` answers NULL.
   */
  method Drain(current: CString, c: Crawler, newLinks: Fifo.Queue<CString>) returns (r: Crawler)
    requires Valid(c) && Fifo.Valid(newLinks)
    ensures Valid(r)
    ensures ViewOf(r) == RecordAll(current, ViewOf(c), Decoded(Fifo.Elements(newLinks)))
    decreases newLinks.length
  {
    var next := Fifo.Dequeue(newLinks);
    if next.0.None? {
      return c;
    }
    var node := next.0.value;
    ghost var names := Decoded(Fifo.Elements(newLinks));
    ghost var rest := Decoded(Fifo.Elements(next.1));
    var buf := UrlDecodeInPlace(node);
    var name := CStringView(buf);
    CStringViewPrefix(buf, UrlDecode(node));
    DecodedCons(Fifo.Elements(newLinks));
    var visited := Visit(current, c, name);
    r := Drain(current, visited, next.1);
    assert RecordAll(current, ViewOf(c), names) == RecordAll(current, Record(current, ViewOf(c), name), rest);
  }

  /** The names found on the given pages: the union of their links. */
  function SeenBy(links: CString -> seq<CString>, pages: seq<CString>): set<CString>
  {
    if pages == [] then {} else SeenBy(links, pages[..|pages| - 1]) + AsSet(links(pages[|pages| - 1]))
  }

  /** A name is among those found exactly when one of the pages links to it. */
  lemma {:induction false} SeenByMember(links: CString -> seq<CString>, pages: seq<CString>, x: CString)
    ensures x in SeenBy(links, pages) <==> exists k :: 0 <= k < |pages| && x in links(pages[k])
  {
    if pages != [] {
      var init := pages[..|pages| - 1];
      SeenByMember(links, init, x);
      if exists k :: 0 <= k < |pages| && x in links(pages[k]) {
        var k :| 0 <= k < |pages| && x in links(pages[k]);
        if k < |init| {
          assert init[k] == pages[k];
        }
      }
      if exists k :: 0 <= k < |init| && x in links(init[k]) {
        var k :| 0 <= k < |init| && x in links(init[k]);
        assert init[k] == pages[k];
      }
    }
  }

  /**
   * The graph lines written while visiting the given pages in order: each page's edges
   * in document order. Every line joins a page to a different name that page links to.
   */
  function EdgesBy(links: CString -> seq<CString>, pages: seq<CString>): (r: seq<Edge>)
    ensures forall e :: e in r ==> e.source in pages && e.source != e.target && e.target in links(e.source)
  {
    if pages == [] then []
    else
      var init, last := pages[..|pages| - 1], pages[|pages| - 1];
      var r := EdgesBy(links, init) + EdgesFrom(last, links(last));
      assert forall e :: e in EdgesBy(links, init) ==> e.source in pages by {
        forall e | e in EdgesBy(links, init) ensures e.source in pages {
          var k :| 0 <= k < |init| && init[k] == e.source;
          assert pages[k] == init[k];
        }
      }
      r
  }

  /** A visit adds the page's links to `seen` and its edges to the graph. */
  lemma ExploreTotals(links: CString -> seq<CString>, visited: seq<CString>, url: CString, v: View)
    requires v.seen == SeenBy(links, visited) && v.edges == EdgesBy(links, visited)
    ensures var v1 := RecordAll(url, v, links(url));
            v1.seen == SeenBy(links, visited + [url]) && v1.edges == EdgesBy(links, visited + [url])
  {
    RecordAllEffect(url, v, links(url));
    var vis := visited + [url];
    assert vis[..|vis| - 1] == visited && vis[|vis| - 1] == url;
  }

  /**
   * What holds before each visit of `main`'s loop, over the views: `visited` are the
   * pages explored so far, `url` the one about to be. Every name ever queued is a
   * visited page after the first, `url`, or still in the frontier; together they are
   * exactly `seen`, each once. `seen` is the union of the visited pages' links and the
   * graph is their edges, page after page; each edge leaves a visited page for a seen
   * name, and every visited page has all its links recorded.
   */
  ghost predicate Inv(start: CString, links: CString -> seq<CString>, visited: seq<CString>, url: CString, v: View)
  {
    && (visited == [] ==> url == start && v == View({}, [], []))
    && (visited != [] ==> visited[0] == start)
    && NoDup((visited + [url])[1..] + v.frontier)
    && AsSet((visited + [url])[1..] + v.frontier) == v.seen
    && v.seen == SeenBy(links, visited) && v.edges == EdgesBy(links, visited)
    && (forall e :: e in v.edges ==> e.source in visited && e.source != e.target && e.target in v.seen)
    && (forall k :: 0 <= k < |visited| ==> Explored(v, visited[k], links(visited[k])))
  }

  /** What holds when the loop stops, with the frontier left in `v`. */
  ghost predicate Post(start: CString, links: CString -> seq<CString>, visited: seq<CString>, v: View)
  {
    && visited != [] && visited[0] == start
    && NoDup(visited[1..] + v.frontier)
    && AsSet(visited[1..] + v.frontier) <= v.seen
    && v.seen == SeenBy(links, visited) && v.edges == EdgesBy(links, visited)
    && (forall e :: e in v.edges ==> e.source in visited && e.source != e.target && e.target in v.seen)
    && (forall k :: 0 <= k < |visited| ==> Explored(v, visited[k], links(visited[k])))
  }

  /** Joining two duplicate-free sequences with nothing in common gives a duplicate-free one. */
  lemma NoDupConcat<T>(a: seq<T>, b: seq<T>)
    requires NoDup(a) && NoDup(b) && forall x :: x in b ==> x !in a
    ensures NoDup(a + b)
  {
    forall i, j | 0 <= i < j < |a + b| ensures (a + b)[i] != (a + b)[j] {
      if i < |a| <= j {
        assert (a + b)[i] == a[i] && a[i] in a;
        assert (a + b)[j] == b[j - |a|] && b[j - |a|] in b;
      } else if |a| <= i {
        assert (a + b)[i] == b[i - |a|] && (a + b)[j] == b[j - |a|];
      }
    }
  }

  /** Leaving out one element keeps a sequence duplicate-free. */
  lemma NoDupDrop<T>(a: seq<T>, x: T, b: seq<T>)
    requires NoDup(a + [x] + b)
    ensures NoDup(a + b)
  {
    var s := a + [x] + b;
    forall i, j | 0 <= i < j < |a + b| ensures (a + b)[i] != (a + b)[j] {
      var i' := if i < |a| then i else i + 1;
      var j' := if j < |a| then j else j + 1;
      assert (a + b)[i] == s[i'] && (a + b)[j] == s[j'];
    }
  }

  /**
   * What holds right after a visit, before the next name is dequeued: as `Inv`, with
   * `visited` now including the page just explored.
   */
  ghost predicate Visited(start: CString, links: CString -> seq<CString>, visited: seq<CString>, v: View)
  {
    && visited != [] && visited[0] == start
    && NoDup(visited[1..] + v.frontier)
    && AsSet(visited[1..] + v.frontier) == v.seen
    && v.seen == SeenBy(links, visited) && v.edges == EdgesBy(links, visited)
    && (forall e :: e in v.edges ==> e.source in visited && e.source != e.target && e.target in v.seen)
    && (forall k :: 0 <= k < |visited| ==> Explored(v, visited[k], links(visited[k])))
  }

  /** Exploring `url` from a state satisfying `Inv` records it as visited. */
  lemma ExploreStep(start: CString, links: CString -> seq<CString>, visited: seq<CString>, url: CString, v: View)
    requires Inv(start, links, visited, url, v)
    ensures Visited(start, links, visited + [url], RecordAll(url, v, links(url)))
  {
    var names := links(url);
    var v1 := RecordAll(url, v, names);
    var vis := visited + [url];
    assert (visited + [url])[1..] == vis[1..];
    ExploreQueued(vis[1..], url, v, names);
    ExploreTotals(links, visited, url, v);
    ExploreEdges(start, links, visited, url, v);
    ExploreExplored(start, links, visited, url, v);
  }

  /** After a visit every visited page, the new one included, has its links recorded. */
  lemma ExploreExplored(start: CString, links: CString -> seq<CString>, visited: seq<CString>, url: CString, v: View)
    requires forall k :: 0 <= k < |visited| ==> Explored(v, visited[k], links(visited[k]))
    ensures var v1 := RecordAll(url, v, links(url));
            var vis := visited + [url];
            forall k :: 0 <= k < |vis| ==> Explored(v1, vis[k], links(vis[k]))
  {
    var names := links(url);
    var v1 := RecordAll(url, v, names);
    var vis := visited + [url];
    RecordAllExplores(url, v, names);
    forall k | 0 <= k < |vis| ensures Explored(v1, vis[k], links(vis[k])) {
      if k < |visited| {
        assert vis[k] == visited[k];
      }
    }
  }

  /** The names queued by a visit are new, so the queued names stay distinct and are still exactly `seen`. */
  lemma ExploreQueued(queued: seq<CString>, url: CString, v: View, names: seq<CString>)
    requires NoDup(queued + v.frontier) && AsSet(queued + v.frontier) == v.seen
    ensures var v1 := RecordAll(url, v, names);
            NoDup(queued + v1.frontier) && AsSet(queued + v1.frontier) == v1.seen
  {
    var v1 := RecordAll(url, v, names);
    var added := Fresh(v.seen, names);
    RecordAllEffect(url, v, names);
    assert v1.frontier == v.frontier + added && v1.seen == v.seen + AsSet(names);
    QueuedGrow(queued, v.frontier, added, names, v.seen);
  }

  /** Appending names that are distinct and new keeps a distinct sequence whose strings are `seen` and those names. */
  lemma QueuedGrow(queued: seq<CString>, front: seq<CString>, added: seq<CString>, names: seq<CString>, seen: set<CString>)
    requires NoDup(queued + front) && AsSet(queued + front) == seen
    requires NoDup(added) && forall x :: x in added <==> x in names && x !in seen
    ensures NoDup(queued + (front + added)) && AsSet(queued + (front + added)) == seen + AsSet(names)
  {
    var before := queued + front;
    assert queued + (front + added) == before + added;
    NoDupConcat(before, added);
    AsSetConcat(before, added);
  }

  /** The strings of a concatenation are those of either part. */
  lemma AsSetConcat(a: seq<CString>, b: seq<CString>)
    ensures AsSet(a + b) == AsSet(a) + AsSet(b)
  {
  }

  /** The edges written by a visit leave the visited page for a seen name other than itself. */
  lemma ExploreEdges(start: CString, links: CString -> seq<CString>, visited: seq<CString>, url: CString, v: View)
    requires Inv(start, links, visited, url, v)
    ensures var v1 := RecordAll(url, v, links(url));
            forall e :: e in v1.edges ==> e.source in visited + [url] && e.source != e.target && e.target in v1.seen
  {
    var names := links(url);
    var v1 := RecordAll(url, v, names);
    RecordAllEffect(url, v, names);
    forall e | e in v1.edges ensures e.source in visited + [url] && e.source != e.target && e.target in v1.seen {
      if e !in v.edges {
        assert e in EdgesFrom(url, names);
      }
    }
  }

  /**
   * Dequeuing after a visit: the invariant holds for the dequeued name; if the budget
   * stops the loop there, that name is dropped unexplored and `Post` holds; if the
   * frontier is empty, `Post` holds and every name ever seen has been visited.
   */
  lemma DequeueStep(start: CString, links: CString -> seq<CString>, visited: seq<CString>, v: View)
    requires Visited(start, links, visited, v)
    ensures v.frontier != [] ==> Inv(start, links, visited, v.frontier[0], v.(frontier := v.frontier[1..]))
    ensures v.frontier != [] ==> Post(start, links, visited, v.(frontier := v.frontier[1..]))
    ensures v.frontier == [] ==> Post(start, links, visited, v) && v.seen == AsSet(visited[1..])
  {
    if v.frontier != [] {
      DequeueNext(start, links, visited, v);
    } else {
      assert visited[1..] + v.frontier == visited[1..];
    }
  }

  /** The non-empty case of `DequeueStep`. */
  lemma DequeueNext(start: CString, links: CString -> seq<CString>, visited: seq<CString>, v: View)
    requires Visited(start, links, visited, v) && v.frontier != []
    ensures Inv(start, links, visited, v.frontier[0], v.(frontier := v.frontier[1..]))
    ensures Post(start, links, visited, v.(frontier := v.frontier[1..]))
  {
    var p, u := visited[1..], v.frontier[0];
    assert (visited + [u])[1..] == p + [u];
    PopFront(p, v.frontier);
  }

  /** Moving the front of `f` to the end of `p` keeps the sequence; dropping it keeps distinctness and loses no other name. */
  lemma PopFront(p: seq<CString>, f: seq<CString>)
    requires f != []
    ensures (p + [f[0]]) + f[1..] == p + f
    ensures AsSet(p + f[1..]) <= AsSet(p + f)
    ensures NoDup(p + f) ==> NoDup(p + f[1..])
  {
    assert f == [f[0]] + f[1..];
    assert p + [f[0]] + f[1..] == p + f;
    if NoDup(p + f) {
      NoDupDrop(p, f[0], f[1..]);
    }
  }

  /** The links of each page as the crawler reads them: fetch its full URL, parse, canonicalise. */
  function LinksOf(web: CString -> Page): CString -> seq<CString>
  {
    u => PageLinks(web(FullUrl(u)))
  }

  /**
   * `main`'s loop: explore the start page, then repeatedly dequeue the next name and
   * explore it, `steps` visits at most (100 when no count is given, which `steps == 0`
   * stands for), stopping early when the queue is empty. The start page is never put in
   * `seen`. The name dequeued when the budget runs out is dropped unexplored.
   */
  method Crawl(start: CString, steps: nat, web: CString -> Page) returns (visited: seq<CString>, last: Option<CString>, c: Crawler)
    ensures Valid(c)
    ensures Crawled(start, LinksOf(web), if steps == 0 then 100 else steps, visited, last, ViewOf(c))
  {
    var budget := if steps == 0 then 100 else steps;
    c := Crawler(Hashset.NewHashSet(), Fifo.NewQueue(), []);
    visited := [];
    var url := start;
    var left := budget;
    while true
      invariant Valid(c)
      invariant 1 <= left <= budget && |visited| == budget - left
      invariant Inv(start, LinksOf(web), visited, url, ViewOf(c))
      decreases left
    {
      var next;
      visited, next, left, c := Round(start, web, budget, visited, url, left, c);
      if next.None? || left == 0 {
        last := next;
        break;
      }
      url := next.value;
    }
  }

  /**
   * One turn of `main`'s do-while loop: explore `url`, dequeue the next name and count
   * the step down. The loop goes on with the dequeued name while there is one and the
   * budget is not spent; otherwise it stops, and `next` is what `url` holds then.
   */
  method Round(start: CString, web: CString -> Page, budget: nat, visited: seq<CString>, url: CString, left: nat, c: Crawler)
    returns (visited': seq<CString>, next: Option<CString>, left': nat, c': Crawler)
    requires Valid(c) && 1 <= left <= budget && |visited| == budget - left
    requires Inv(start, LinksOf(web), visited, url, ViewOf(c))
    ensures Valid(c') && left' == left - 1 && |visited'| == budget - left'
    ensures next.None? || left' == 0 ==> Crawled(start, LinksOf(web), budget, visited', next, ViewOf(c'))
    ensures next.Some? ==> Inv(start, LinksOf(web), visited', next.value, ViewOf(c'))
  {
    ghost var links := LinksOf(web);
    ghost var v := ViewOf(c);
    var explored := Explore(url, web, c);
    ExploreStep(start, links, visited, url, v);
    visited' := visited + [url];
    DequeueStep(start, links, visited', ViewOf(explored));
    next, c' := NextUrl(explored);
    left' := left - 1;
    if next.None? || left' == 0 {
      Finish(start, links, budget, visited', next, ViewOf(c'));
    }
  }

  /** `url = dequeue(&to_explore)`: take the oldest queued name, if there is one. */
  method NextUrl(c: Crawler) returns (next: Option<CString>, r: Crawler)
    requires Valid(c)
    ensures Valid(r)
    ensures ViewOf(c).frontier == [] ==> next.None? && ViewOf(r) == ViewOf(c)
    ensures ViewOf(c).frontier != [] ==>
              next == Some(ViewOf(c).frontier[0]) && ViewOf(r) == ViewOf(c).(frontier := ViewOf(c).frontier[1..])
  {
    var popped := Fifo.Dequeue(c.toExplore);
    next, r := popped.0, c.(toExplore := popped.1);
  }

  /**
   * What `main`'s loop leaves, over the views, with `last` the value of `url` after it.
   * Between 1 and `budget` pages were visited, the start first. The loop stopped early
   * only on an empty queue. When `url` is NULL the queue is empty and every seen name
   * was visited; otherwise the budget is spent and `url` is the name dequeued last and
   * dropped, so the visited pages after the start, that name and the queue, in this
   * order, hold every seen name exactly once. `seen` is exactly the union of the visited
   * pages' links, and the graph is exactly their edges, page after page. Each visited
   * page has all its links recorded, and each page after the start is a link of some
   * visited page.
   */
  ghost predicate Crawled(start: CString, links: CString -> seq<CString>, budget: nat, visited: seq<CString>, last: Option<CString>, v: View)
  {
    && 1 <= |visited| <= budget && visited[0] == start
    && (|visited| < budget ==> last.None?)
    && (last.None? ==> v.frontier == [] && v.seen == AsSet(visited[1..]))
    && (last.Some? ==> NoDup(visited[1..] + [last.value] + v.frontier)
                       && AsSet(visited[1..] + [last.value] + v.frontier) == v.seen)
    && NoDup(visited[1..] + v.frontier)
    && AsSet(visited[1..] + v.frontier) <= v.seen
    && v.seen == SeenBy(links, visited)
    && v.edges == EdgesBy(links, visited)
    && (forall k :: 0 <= k < |visited| ==> Explored(v, visited[k], links(visited[k])))
    && (forall k :: 1 <= k < |visited| ==> exists j :: 0 <= j < |visited| && visited[k] in links(visited[j]))
  }

  /** When the loop stops, `Post`, the stopping reason and the dropped name give `Crawled`. */
  lemma Finish(start: CString, links: CString -> seq<CString>, budget: nat, visited: seq<CString>, last: Option<CString>, v: View)
    requires Post(start, links, visited, v) && |visited| <= budget
    requires |visited| < budget ==> last.None?
    requires last.None? ==> v.frontier == [] && v.seen == AsSet(visited[1..])
    requires last.Some? ==> Inv(start, links, visited, last.value, v)
    ensures Crawled(start, links, budget, visited, last, v)
  {
    VisitedWereLinked(links, visited, v.frontier, v.seen);
    if last.Some? {
      assert (visited + [last.value])[1..] == visited[1..] + [last.value];
    }
  }

  /**
   * How many names the crawl leaves queued, from the stopping facts of `Crawled`: every
   * seen name not visited after the start is still queued, except the one name a budget
   * stop dequeued and dropped.
   */
  lemma CrawledCounts(budget: nat, visited: seq<CString>, last: Option<CString>, v: View)
    requires 1 <= |visited| <= budget && (|visited| < budget ==> last.None?)
    requires NoDup(visited[1..] + v.frontier)
    requires last.None? ==> v.frontier == [] && v.seen == AsSet(visited[1..])
    requires last.Some? ==> NoDup(visited[1..] + [last.value] + v.frontier)
                            && AsSet(visited[1..] + [last.value] + v.frontier) == v.seen
    ensures last.None? ==> |v.frontier| == 0 && |v.seen| == |visited| - 1
    ensures last.Some? ==> |v.frontier| == |v.seen| - |visited| && |visited| == budget
  {
    if last.None? {
      assert visited[1..] + v.frontier == visited[1..];
      NoDupSize(visited[1..]);
    } else {
      NoDupSize(visited[1..] + [last.value] + v.frontier);
    }
  }

  /** Every page visited after the start is a link of some visited page. */
  lemma VisitedWereLinked(links: CString -> seq<CString>, visited: seq<CString>, frontier: seq<CString>, seen: set<CString>)
    requires visited != [] && AsSet(visited[1..] + frontier) <= seen && seen == SeenBy(links, visited)
    ensures forall k :: 1 <= k < |visited| ==> exists j :: 0 <= j < |visited| && visited[k] in links(visited[j])
  {
    forall k | 1 <= k < |visited| ensures exists j :: 0 <= j < |visited| && visited[k] in links(visited[j]) {
      assert visited[k] == (visited[1..] + frontier)[k - 1];
      SeenByMember(links, visited, visited[k]);
    }
  }
}
