# Wikipedia crawler frontier engine, in Dafny

This project models the core of a breadth-first crawler of French Wikipedia written in C. It starts from one article, fetches it, and picks out the links to other articles. Each such link becomes a canonical article name. Every name not seen before goes into a visited hash set and onto a FIFO queue. Every link from the page to another name is written as an edge of a DOT graph. The crawl then continues with the next queued name until the queue is empty or the step budget is spent.

The model has six modules:

- `Bytes` (bytes.dfy) covers bytes, C strings and `Option`. A `CString` is a byte sequence without NUL. `CStringView` is what C string functions read from a buffer: everything before its first NUL.
- `Links` (links.dfy) is the link canonicaliser of main.c:
  - `startswith`, `should_explore` and `article_name`;
  - the lenient, in-place `url_decode`;
  - `full_url`.
- `Hashset` (hashset.dfy) is the visited set of hashset.c. It has the 32-bit multiplicative/xor-shift hash, 10000 chained buckets whose arrays double when full, exact-match search and the collision count. The concrete buckets are tied to a ghost `Contents` set.
- `Fifo` (queue.c, queue.dfy) is the singly linked queue. Nodes live in an explicit heap of addresses, so the inverted `head`/`tail` discipline is modelled as written: `enqueue` links after `head`, and `dequeue` unlinks `tail`. `Elements` is the sequence of values the structure stands for.
- `Graph` (graph.dfy) states what one visit does over plain sets and sequences (`Record`, `RecordAll`). It also gives independent reference definitions of the names a visit queues (`Fresh`) and the edges it writes (`EdgesFrom`).
- `Crawl` (crawl.dfy) covers `filter_links`, the link loop of `explore` and the do/while loop of `main`, run on the concrete hash set and queue. Fetching and parsing are a function parameter `web` from a full URL to a `Page`. A `Page` is either a failed fetch or the sequence of `href`s of its `<a>` nodes, where `None` is a node without an `href`.

Choices made when modelling the C:

- Integers are unbounded. The 32-bit arithmetic of `hash` uses `bv32`, and the `uint32_t` running total of `num_collisions` is reduced modulo 2^32.
- `url_decode` can produce a NUL byte from `%00`. Every later string function (`strcmp`, `hash`, the graph output) then sees only the bytes before it, and the model keeps exactly that view (`CStringView`).
- The start URL is never inserted into `seen`. So a page reachable from the start page that links back to the start is queued and explored a second time. `Crawl` promises that no name is visited twice *after the first visit*, and `Graph.SelfLinkQueued` shows the start page queuing itself.
- Canonicalisation is not idempotent: `%2B` decodes to `+`, and a `+` read as a raw link decodes to a space (`Links.CanonicalNotIdempotent`).
- The namespace filter looks for `:` in the raw link, before decoding. So `/wiki/A%3AB` is accepted and enters the crawl as `A:B` (`Links.EscapedColonAccepted`).

## Model

| member | source | states |
|---|---|---|
| Links.UrlBaseLength | main.c:17-18 | the hard-coded `url_base_len` (30) is the length of `url_base`, so `full_url` copies the whole base and nothing more |
| Links.StartsWith | main.c:87-89 | `startswith(s, p)` holds iff `p` is no longer than `s` and is its prefix |
| Links.ShouldExplore | main.c:133-146 | rejects every link starting with `#` or `/w/`; accepts exactly the links that start with `/wiki/` and contain no `:` |
| Links.FirstIndex | main.c:158-161 | the `strchr` used for the anchor: absent iff the byte does not occur, otherwise its first position |
| Links.LastIndex | main.c:149-154 | the `strrchr` used for the last `/`: absent iff the byte does not occur, otherwise its last position |
| Links.ArticleName | main.c:148-169 | the result has no `/` and no `#`; it is the text that starts just after the last `/` (or at the start when there is none) and ends at the first `#` or at the end |
| Links.ArticleNameIdempotent | main.c:148-169 | taking the article name of an article name changes nothing |
| Links.HexValue | main.c:185-200 | the case-folding arithmetic maps each hex digit, in either case, to its value below 16 |
| Links.UrlDecode | main.c:180-212 | the reference decoding: each output byte comes from at least one input byte, so the result is no longer than the input; its cases are spelled out in `UrlDecodeAt` |
| Links.UrlDecodeLength | main.c:183-208 | each output byte consumes at most three input bytes, so the input is at most three times as long as its decoding |
| Links.UrlDecodeFromSuffix | main.c:182-210 | the loop's index-based reading of the decoding from a read position on agrees with the reference decoding of the rest of the input |
| Links.UrlDecodeInPlace | main.c:180-212 | decoding into the source buffer, with the write index never passing the read index, leaves the bytes of the reference decoding `UrlDecode` followed by a NUL, inside the buffer of the input's length plus its NUL |
| Links.CStringViewPrefix | main.c:317-323 | every later string function reads such a buffer exactly as it reads the decoded bytes: up to their first NUL |
| Links.DecodeStep | main.c:183-210 | one turn of the loop writes one byte, advances the read index by at least one, keeps the write index at or behind it, and keeps the written prefix followed by the decoding of the unread rest equal to the whole decoding |
| Links.ReadAhead | main.c:183-184 | while the unread bytes of the buffer are intact, `src[1]` and `src[2]` are the input's bytes or, past its end, the NUL that stops the short-circuit test |
| Links.WriteFrame | main.c:202-210 | a write at the write index, which is behind the read index, leaves every unread byte and the final NUL unchanged |
| Links.ReadEscape | main.c:183-208 | one step of the loop, read from the buffer with C's short-circuit NUL checks: the byte it emits and the bytes it consumes (at least one) are the first byte and the remainder of the reference decoding at that position |
| Links.UrlDecodeAt | main.c:183-208 | the same three cases stated on the reference decoding at any position, with the escape condition spelled out byte by byte |
| Links.UrlDecodePlain | main.c:180-212 | a name without `%` and `+` decodes to itself |
| Links.UrlDecodePercentEncode | main.c:183-201 | every byte string survives percent-encoding followed by `url_decode` |
| Links.FullUrl | main.c:171-178 | `full_url(link)` is `url_base` followed by `link`, of length `url_base_len + |link|` |
| Links.Canonical | main.c:254-256 | a link yields a canonical name iff `should_explore` accepts it; that link has no `:`, and the name (its `article_name`, decoded in place at main.c:317) is no longer than the link minus `/wiki/` |
| Links.FilterLinks | main.c:234-259 | the collected article names number at most the links, and none contains `/` or `#` |
| Links.Canonicals | main.c:313-317 | the names a page's loop records are, one for one and in order, the decoded collected article names |
| Links.CanonicalsFromArticleLinks | main.c:254-256 | every recorded name comes from a raw link that `should_explore` accepted: one starting with `/wiki/` with no `:` before decoding |
| Links.ArticleNameOfWikiLink | main.c:148-169 | the article name of `/wiki/` followed by a slash-free, anchor-free name is that name |
| Links.CanonicalOfPlainName | main.c:133-212 | a plain article link `/wiki/Name` canonicalises to `Name` |
| Links.EscapedColonAccepted | main.c:140-145 | the `:` test runs on the raw link, so `/wiki/A%3AB` is accepted and canonicalises to `A:B`, a name with a colon |
| Links.CanonicalNotIdempotent | main.c:180-212 | `/wiki/%2B` canonicalises to `+`, but `/wiki/+` does not canonicalise to `+` again |
| Links.EscapedNulTruncates | main.c:183-201 | an escaped NUL ends the name for every later string function: `A%00B` is read as `A` |
| Hashset.Mix | hashset.c:11-13 | one round of the loop: xor the byte in, multiply by 0x5bd1e995, xor-shift right by 15, all on 32 bits |
| Hashset.Hash | hashset.c:8-16 | the seed 0x12345678 mixed with the key's bytes in order; `ComputeHash` and `HashValues` tie it to the loop and to fixed values |
| Hashset.ComputeHash | hashset.c:8-16 | the byte loop computes the reference hash: each byte is xor-ed in, multiplied by 0x5bd1e995 and xor-shifted by 15, all modulo 2^32 |
| Hashset.HashSnoc | hashset.c:10-14 | hashing one more byte is one more mixing round |
| Hashset.HashValues | hashset.c:8-16 | the empty key hashes to the seed 0x12345678; two more keys have fixed values |
| Hashset.BucketIndex | hashset.c:44-45 | `hash(key) % HASHSET_NUM_BUCKETS` is below 10000; insert and search use this one definition |
| Hashset.NewBucket | hashset.c:18-25 | a new bucket is empty with capacity 2, which is well sized |
| Hashset.BucketInsert | hashset.c:27-35 | the key is appended; a well-sized bucket stays well sized (length within capacity, capacity 2 times a power of two); capacity doubles exactly when the bucket was full |
| Hashset.NewHashSet | hashset.c:37-41 | the new set is valid and empty, with no keys and no bucket allocated |
| Hashset.Insert | hashset.c:43-53 | the set stays valid and gains exactly the key; the key is appended to its bucket and no other bucket changes; the insert count grows by one; the bucket count grows iff the key's bucket was NULL |
| Hashset.Search | hashset.c:55-71 | true iff the key was inserted: no false negatives and no false positives |
| Hashset.ScanBucket | hashset.c:64-68 | the `strcmp` scan finds the key iff it is among the bucket's entries |
| Hashset.InsertAllContents | hashset.c:43-53 | after any sequence of inserts, the contents are the old contents plus every inserted key, so a found key stays found |
| Hashset.InsertAllLoad | hashset.c:27-35 | every insert stores one more entry, duplicates included |
| Hashset.BuiltContents | hashset.c:37-53 | a set built from empty contains exactly the inserted keys and holds one entry per insert |
| Hashset.DuplicateInsert | hashset.c:27-35 | inserting a key already present adds a second entry to its bucket but leaves the contents, and so every search, unchanged |
| Hashset.OccupiedAtMostLoad | hashset.c:73-81 | when every allocated bucket is non-empty, there are no more allocated buckets than entries |
| Hashset.NumCollisions | hashset.c:73-81 | the result is the number of entries minus the number of allocated buckets, reduced modulo 2^32; that difference never goes below zero |
| Fifo.NewQueue | queue.c:5-8 | the new queue is valid and empty, with length 0 and NULL `head` and `tail` |
| Fifo.Enqueue | queue.c:10-21 | the shape stays valid; the value goes to the back; length grows by one; the new node becomes `head`; on an empty queue it is also `tail`, otherwise `tail` is unchanged |
| Fifo.Dequeue | queue.c:23-40 | on an empty queue: NULL, and nothing changes; otherwise the front value comes out, the rest keeps its order, length drops by one, and removing the last value resets `head` and `tail` to NULL |
| Fifo.FifoOrder | queue.c:10-40 | enqueue a, enqueue b; then dequeue gives a, then b, then NULL with the queue unchanged |
| Fifo.RefillAfterEmpty | queue.c:15-17 | after the only value leaves, the next enqueue makes its node both `head` and `tail` again |
| Graph.Record | main.c:318-326 | one turn of the link loop: the name joins `seen`; it goes to the back of the frontier exactly when it was not seen; an edge to it is appended exactly when it is not the page itself; nothing earlier changes |
| Graph.RecordAll | main.c:315-329 | the whole drain loop only adds: `seen` grows, and the earlier frontier and edges stay as prefixes |
| Graph.Fresh | main.c:320-323 | the names one visit queues are distinct, are exactly the page's names not yet seen, and keep document order |
| Graph.FreshSubsequence | main.c:315-329 | the queued names are picked from the page's names in document order |
| Graph.EdgesFrom | main.c:318-319 | every edge leaves the page for a different name of the page; every name other than the page gets an edge |
| Graph.RecordAllEffect | main.c:311-329 | a visit adds every name to `seen`, the fresh names to the back of the queue, and one edge per non-self link |
| Graph.RecordAllExplores | main.c:315-329 | after a visit, all the page's links are recorded, and what was recorded before stays recorded |
| Graph.ExampleVisit | main.c:315-329 | a page S with links A, B, A queues A and B once and writes S→A, S→B, S→A |
| Graph.SelfLinkQueued | main.c:381-387 | on the first page, a link to itself writes no edge but still queues the page, because the start is not in `seen` |
| Crawl.Present | main.c:235-247 | the hrefs kept are exactly those of the nodes that have one |
| Crawl.FilterHrefs | main.c:234-259 | `filter_links` leaves in its queue the article names of the accepted hrefs, in document order |
| Crawl.FilterHref | main.c:236-257 | one node of the walk: a node without an `href` or with a rejected one leaves the queue as it was, an accepted one appends its article name |
| Crawl.Visit | main.c:318-326 | one turn of the link loop updates `seen`, `to_explore` and the edges as the abstract `Record` says |
| Crawl.Drain | main.c:315-329 | draining the collected names records the decoded names in queue order, as `RecordAll` says |
| Crawl.Explore | main.c:261-339 | a visit keeps the structures valid and records the page's canonical names (none on a failed fetch) |
| Crawl.ExploreStep | main.c:383-385 | exploring the current page keeps the crawl invariant: distinct queued names that make up `seen`, edges from visited pages, and visited pages fully recorded |
| Crawl.DequeueStep | main.c:385-387 | dequeuing the next name keeps the invariant; a budget stop drops that name unexplored; an empty queue means every seen name has been visited |
| Crawl.SeenByMember | main.c:318-323 | a name is in the union of the visited pages' links exactly when one of those pages links to it |
| Crawl.EdgesBy | main.c:318-319 | the graph written by a sequence of visits is each page's edges in turn, and every line joins a visited page to a different name that page links to |
| Crawl.ExploreTotals | main.c:315-329 | a visit adds its page's links to `seen` and its edges to the graph, so both stay the totals over the visited pages |
| Crawl.Finish | main.c:383-387 | when the loop stops, the crawl invariant, the stopping reason and the dropped name give the final state `Crawled` describes |
| Crawl.CrawledCounts | main.c:385-399 | the queue left behind, whose length the final report prints, holds every seen name not visited after the start, less the one name a budget stop dropped |
| Crawl.VisitedWereLinked | main.c:383-387 | every page visited after the start is a link of some visited page |
| Crawl.Round | main.c:383-387 | one turn of the do-while loop keeps the crawl invariant for the dequeued name and counts the budget down by one; when `while (url && steps > 0)` fails, on an empty queue or a spent budget, the state and the final `url` are the ones `Crawled` describes |
| Crawl.NextUrl | main.c:385 | `dequeue` on the crawler: an empty queue yields no name and changes nothing; otherwise it yields the oldest queued name and removes exactly that name |
| Crawl.Crawl | main.c:357-387 | explores between 1 and `steps` pages (100 when not given), the first being the start. No name is visited twice after the start. The loop stops early only on an empty queue, with every seen name visited. It also returns the final `url`: NULL after an empty queue; otherwise the budget is spent and `url` is the name dequeued and dropped, so the pages after the start, that name and the queue left behind hold every seen name exactly once `seen` is exactly the union of the visited pages' links, and the graph is exactly their edges, page by page. Every page after the start was linked from a visited page, and every visited page has all its links recorded |

## Left out

- HTTP transport and the receive buffer (`write_data`, `curl_*`) are foreign I/O. The fetch is the `web` parameter, and a failed fetch yields no links.
- HTML parsing (`parse_html`, the `bodyContent` lookup, attribute extraction) uses a foreign library. The parse is part of `web`: it gives the ordered sequence of `href`s of the `<a>` nodes.
- Resolving the random start page from the page title (`get_page_title`, the `length - 15` cut) is left out. The start is always a concrete article name.
- Command-line parsing, `print_help`, and every `printf` and `fprintf` are left out. The graph file is the sequence of edges in the crawler state.
- `delete_hashset`, `delete_bucket`, `free_all_in_bucket`, `delete_queue`, and every `free` are left out. They reclaim memory and do not change what the crawl computes.
- `dump_hashset` is left out: it writes every bucket to a debug file, `dump.txt`, and nothing in the program calls it.
- `malloc`, `calloc` and `reallocarray` failures are not modelled; allocation always succeeds.
- Crawl.Crawl: `steps` is a `size_t` in the source. The model uses an unbounded natural number; since the count only decreases, the 64-bit bound changes nothing.
- Crawl.Drain: the `while (node)` loop is written as recursion on the queue of collected names, one dequeue per call, ending when `dequeue` answers NULL.
- Crawl.Crawl: the contract does not say that pages are visited in breadth-first order, nor that each page after the start was linked from a page visited before it. It says only that some visited page links to it.
- Graph.Fresh: the contract gives distinctness, membership and document order as a subsequence. The first-occurrence choice among duplicates is fixed by the definition only.
