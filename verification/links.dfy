/**
 * The link canonicaliser of main.c: which hrefs are crawled, how an accepted
 * href becomes an article name, the lenient percent-decoding applied to that
 * name, and the absolute address a name is fetched from.
 */
module Links {
  import opened Bytes

  /** The site every article name is appended to, and the length main.c hard-codes for it. */
  const UrlBase: CString := Ascii("https://fr.wikipedia.org/wiki/")
  const UrlBaseLen: nat := 30

  const AnchorPrefix: CString := Ascii("#")
  const ActionPrefix: CString := Ascii("/w/")
  const WikiPrefix: CString := Ascii("/wiki/")

  /** The hard-coded length agrees with the base address, so full_url copies all of it and nothing more. */
  lemma UrlBaseLength()
    ensures |UrlBase| == UrlBaseLen
  {
  }

  /** `startswith`: strncmp over strlen(prefix) bytes; a string shorter than the prefix fails on its NUL. */
  function StartsWith(s: CString, prefix: CString): (r: bool)
    ensures r <==> |prefix| <= |s| && s[..|prefix|] == prefix
  {
    if prefix == [] then true
    else if s == [] then false
    else s[0] == prefix[0] && StartsWith(s[1..], prefix[1..])
  }

  /** `should_explore`: accepts the `/wiki/` links with no `:` in their raw, still percent-encoded text. */
  function ShouldExplore(link: CString): (r: bool)
    ensures |link| > 0 && link[0] == Anchor ==> !r
    ensures |link| >= 3 && link[..3] == ActionPrefix ==> !r
    ensures r <==> |link| >= 6 && link[..6] == WikiPrefix && Colon !in link
  {
    assert AnchorPrefix[0] != WikiPrefix[0] && ActionPrefix[2] != WikiPrefix[2];
    if StartsWith(link, AnchorPrefix) then false
    else if StartsWith(link, ActionPrefix) then false
    else if StartsWith(link, WikiPrefix) then Colon !in link
    else false
  }

  /** `strchr`: the position of the first `c`, if any. */
  function FirstIndex(s: CString, c: Byte): (r: Option<nat>)
    ensures r.None? <==> c !in s
    ensures r.Some? ==> r.value < |s| && s[r.value] == c && forall k :: 0 <= k < r.value ==> s[k] != c
  {
    if s == [] then None
    else if s[0] == c then Some(0)
    else match FirstIndex(s[1..], c)
      case None => None
      case Some(i) => Some(i + 1)
  }

  /** `strrchr`: the position of the last `c`, if any. */
  function LastIndex(s: CString, c: Byte): (r: Option<nat>)
    ensures r.None? <==> c !in s
    ensures r.Some? ==> r.value < |s| && s[r.value] == c && forall k :: r.value < k < |s| ==> s[k] != c
  {
    if s == [] then None
    else if s[|s| - 1] == c then Some(|s| - 1)
    else
      assert s == s[..|s| - 1] + [s[|s| - 1]];
      LastIndex(s[..|s| - 1], c)
  }

  /** Position `i` starts the last path segment of `link`: no slash from there on, and a slash (or the start) just before. */
  predicate SegmentStart(link: CString, i: int)
  {
    && 0 <= i <= |link|
    && (forall k :: i <= k < |link| ==> link[k] != Slash)
    && (i == 0 || link[i - 1] == Slash)
  }

  /** `r` sits at position `i` of `link` and ends at an anchor or at the end of the link. */
  predicate CutAt(link: CString, i: int, r: CString)
  {
    0 <= i && i + |r| <= |link| && link[i..i + |r|] == r && (i + |r| == |link| || link[i + |r|] == Anchor)
  }

  /**
   * `article_name`: the last path segment, cut before its first anchor. The result
   * is that segment's longest anchor-free prefix.
   */
  function ArticleName(link: CString): (r: CString)
    ensures Slash !in r && Anchor !in r
    ensures exists i :: SegmentStart(link, i)
    ensures forall i :: SegmentStart(link, i) ==> CutAt(link, i, r)
  {
    var start := match LastIndex(link, Slash) case None => 0 case Some(i) => i + 1;
    var tail := link[start..];
    var length := match FirstIndex(tail, Anchor) case None => |tail| case Some(j) => j;
    assert SegmentStart(link, start);
    assert link[start..start + length] == tail[..length];
    SegmentCut(link, start, tail[..length]);
    tail[..length]
  }

  /** A slash-free, anchor-free piece of the last segment, at its start and up to an anchor or the end, is where every segment start finds it. */
  lemma SegmentCut(link: CString, start: int, r: CString)
    requires SegmentStart(link, start) && CutAt(link, start, r)
    ensures forall i :: SegmentStart(link, i) ==> CutAt(link, i, r)
  {
    forall i | SegmentStart(link, i) ensures CutAt(link, i, r) {
      SegmentStartUnique(link, i, start);
    }
  }

  /** There is exactly one place the last segment can start. */
  lemma SegmentStartUnique(link: CString, i: int, j: int)
    requires SegmentStart(link, i) && SegmentStart(link, j)
    ensures i == j
  {
  }

  /** Taking the article name of an article name changes nothing. */
  lemma ArticleNameIdempotent(link: CString)
    ensures ArticleName(ArticleName(link)) == ArticleName(link)
  {
    var n := ArticleName(link);
    assert SegmentStart(n, 0);
  }

  /** `isxdigit` in the C locale. */
  predicate IsHexDigit(c: Byte)
  {
    ('0' as int <= c <= '9' as int) || ('A' as int <= c <= 'F' as int) || ('a' as int <= c <= 'f' as int)
  }

  /** The digit arithmetic of `url_decode`: fold lower case to upper case, then subtract the digit base. */
  function HexValue(c: Byte): (v: nat)
    requires IsHexDigit(c)
    ensures v < 16
    ensures '0' as int <= c <= '9' as int ==> v == c - '0' as int
    ensures 'A' as int <= c <= 'F' as int ==> v == c - 'A' as int + 10
    ensures 'a' as int <= c <= 'f' as int ==> v == c - 'a' as int + 10
  {
    var u := if c >= 'a' as int then c - ('a' as int - 'A' as int) else c;
    if u >= 'A' as int then u - ('A' as int - 10) else u - '0' as int
  }

  /** A well-formed escape `%XY` starts `s`. */
  predicate EscapeAt(s: CString)
  {
    |s| >= 3 && s[0] == Percent && IsHexDigit(s[1]) && IsHexDigit(s[2])
  }

  /**
   * `url_decode`: `%XY` becomes one byte, `+` a space, and every other byte (a `%`
   * without two hex digits after it included) is copied. Never longer than its input.
   */
  function UrlDecode(s: CString): (r: seq<Byte>)
    ensures |r| <= |s|
  {
    if s == [] then []
    else if EscapeAt(s) then [16 * HexValue(s[1]) + HexValue(s[2])] + UrlDecode(s[3..])
    else if s[0] == Plus then [Space] + UrlDecode(s[1..])
    else [s[0]] + UrlDecode(s[1..])
  }

  /** Each decoded byte comes from at most three input bytes. */
  lemma {:induction false} UrlDecodeLength(s: CString)
    ensures |s| <= 3 * |UrlDecode(s)|
    decreases |s|
  {
    if s != [] {
      if EscapeAt(s) {
        UrlDecodeLength(s[3..]);
      } else {
        UrlDecodeLength(s[1..]);
      }
    }
  }

  /**
   * The decoding of `s` from position `i` on, by index rather than by slice: the
   * form the in-place loop keeps its invariant in. Equal to `UrlDecode(s[i..])`
   * (`UrlDecodeFromSuffix`).
   */
  function UrlDecodeFrom(s: CString, i: nat): seq<Byte>
    requires i <= |s|
    decreases |s| - i
  {
    if i == |s| then []
    else if i + 3 <= |s| && s[i] == Percent && IsHexDigit(s[i + 1]) && IsHexDigit(s[i + 2]) then
      [16 * HexValue(s[i + 1]) + HexValue(s[i + 2])] + UrlDecodeFrom(s, i + 3)
    else if s[i] == Plus then [Space] + UrlDecodeFrom(s, i + 1)
    else [s[i]] + UrlDecodeFrom(s, i + 1)
  }

  /** The index form agrees with the reference decoding of the suffix. */
  lemma {:induction false} UrlDecodeFromSuffix(s: CString, i: nat)
    requires i <= |s|
    ensures UrlDecodeFrom(s, i) == UrlDecode(s[i..])
    decreases |s| - i
  {
    if i < |s| {
      UrlDecodeAt(s, i);
      if i + 3 <= |s| && s[i] == Percent && IsHexDigit(s[i + 1]) && IsHexDigit(s[i + 2]) {
        UrlDecodeFromSuffix(s, i + 3);
      } else {
        UrlDecodeFromSuffix(s, i + 1);
      }
    }
  }

  /**
   * `url_decode(node, node)` as main.c calls it: the decoded bytes overwrite the
   * source buffer itself. The write position never passes the read position, so
   * every byte is read before it is overwritten, and the result plus its NUL fits.
   */
  method UrlDecodeInPlace(s: CString) returns (buf: seq<Byte>)
    ensures |buf| == |s| + 1
    ensures buf[..|UrlDecode(s)|] == UrlDecode(s) && buf[|UrlDecode(s)|] == Nul
  {
    buf := s + [Nul];
    var src, dst := 0, 0;
    UrlDecodeFromSuffix(s, 0);
    assert s[0..] == s;
    assert buf[..dst] == [];
    while buf[src] != Nul
      invariant 0 <= dst <= src <= |s|
      invariant |buf| == |s| + 1
      invariant buf[src..] == s[src..] + [Nul]
      invariant buf[..dst] + UrlDecodeFrom(s, src) == UrlDecode(s)
      decreases |s| - src
    {
      buf, src, dst := DecodeStep(s, buf, src, dst);
    }
    assert src == |s|;
    assert buf[dst := Nul][..dst] == buf[..dst];
    buf := buf[dst := Nul];
    assert buf[..dst] == UrlDecode(s);
  }

  /** One turn of `url_decode`'s loop: read at `src`, write one byte at `dst`, advance both. */
  method DecodeStep(s: CString, buf: seq<Byte>, src: nat, dst: nat) returns (buf': seq<Byte>, src': nat, dst': nat)
    requires dst <= src < |s| && |buf| == |s| + 1
    requires buf[src..] == s[src..] + [Nul]
    requires buf[..dst] + UrlDecodeFrom(s, src) == UrlDecode(s)
    ensures src < src' <= |s| && dst' == dst + 1 && dst' <= src'
    ensures |buf'| == |s| + 1
    ensures buf'[src'..] == s[src'..] + [Nul]
    ensures buf'[..dst'] + UrlDecodeFrom(s, src') == UrlDecode(s)
  {
    var x, width := ReadEscape(s, buf, src);
    WriteShift(buf, dst, x, UrlDecodeFrom(s, src), UrlDecodeFrom(s, src + width), UrlDecode(s));
    WriteFrame(s, buf, src, dst, src + width, x);
    buf' := buf[dst := x];
    dst', src' := dst + 1, src + width;
  }

  /** Writing the head of the pending output at `dst` moves it into the written prefix. */
  lemma WriteShift(buf: seq<Byte>, dst: nat, x: Byte, pending: seq<Byte>, rest: seq<Byte>, whole: seq<Byte>)
    requires dst < |buf| && buf[..dst] + pending == whole && pending == [x] + rest
    ensures buf[dst := x][..dst + 1] + rest == whole
  {
    assert buf[dst := x][..dst + 1] == buf[..dst] + [x];
  }

  /** A write at `dst`, behind the read position, leaves the unread bytes and the NUL alone. */
  lemma WriteFrame(s: CString, buf: seq<Byte>, src: nat, dst: nat, next: nat, x: Byte)
    requires dst <= src < next <= |s| && |buf| == |s| + 1
    requires buf[src..] == s[src..] + [Nul]
    ensures buf[dst := x][next..] == s[next..] + [Nul]
  {
    assert buf[dst := x][next..] == buf[next..];
    assert buf[next..] == buf[src..][next - src..];
    assert s[next..] + [Nul] == (s[src..] + [Nul])[next - src..];
  }

  /**
   * The body of `url_decode`'s loop at read position `src` of a buffer whose bytes
   * from `src` on are still those of `s`: the byte to write and how many bytes it consumes.
   */
  method ReadEscape(s: CString, buf: seq<Byte>, src: nat) returns (x: Byte, width: nat)
    requires src < |s| && |buf| == |s| + 1
    requires buf[src..] == s[src..] + [Nul]
    ensures 1 <= width && src + width <= |s|
    ensures UrlDecodeFrom(s, src) == [x] + UrlDecodeFrom(s, src + width)
  {
    ReadAhead(s, buf, src);
    if buf[src] == Percent && buf[src + 1] != Nul && buf[src + 2] != Nul
       && IsHexDigit(buf[src + 1]) && IsHexDigit(buf[src + 2])
    {
      x, width := 16 * HexValue(buf[src + 1]) + HexValue(buf[src + 2]), 3;
    } else if buf[src] == Plus {
      x, width := Space, 1;
    } else {
      x, width := buf[src], 1;
    }
  }

  /** The bytes `url_decode` may look at from `src`: those of `s`, or the NUL after them. */
  lemma ReadAhead(s: CString, buf: seq<Byte>, src: nat)
    requires src < |s| && |buf| == |s| + 1
    requires buf[src..] == s[src..] + [Nul]
    ensures buf[src] == s[src]
    ensures src + 1 < |s| ==> buf[src + 1] == s[src + 1]
    ensures src + 1 == |s| ==> buf[src + 1] == Nul
    ensures src + 2 < |s| ==> buf[src + 2] == s[src + 2]
    ensures src + 2 == |s| ==> buf[src + 2] == Nul
  {
    var tail := s[src..] + [Nul];
    assert buf[src] == tail[0];
    assert buf[src + 1] == tail[1];
    if src + 2 <= |s| { assert buf[src + 2] == tail[2]; }
  }

  /** One step of `url_decode` at position `i`, in the three cases of its loop. */
  lemma UrlDecodeAt(s: CString, i: nat)
    requires i < |s|
    ensures EscapeAt(s[i..]) ==>
              i + 3 <= |s| && UrlDecode(s[i..]) == [16 * HexValue(s[i + 1]) + HexValue(s[i + 2])] + UrlDecode(s[i + 3..])
    ensures !EscapeAt(s[i..]) && s[i] == Plus ==> UrlDecode(s[i..]) == [Space] + UrlDecode(s[i + 1..])
    ensures !EscapeAt(s[i..]) && s[i] != Plus ==> UrlDecode(s[i..]) == [s[i]] + UrlDecode(s[i + 1..])
    ensures EscapeAt(s[i..]) <==> i + 3 <= |s| && s[i] == Percent && IsHexDigit(s[i + 1]) && IsHexDigit(s[i + 2])
  {
    var rest := s[i..];
    assert rest[1..] == s[i + 1..];
    if |rest| >= 3 { assert rest[3..] == s[i + 3..]; }
  }

  /** A buffer holding `d` and then a NUL reads, as a C string, like `d` does. */
  lemma {:induction false} CStringViewPrefix(buf: seq<Byte>, d: seq<Byte>)
    requires |d| < |buf| && buf[..|d|] == d && buf[|d|] == Nul
    ensures CStringView(buf) == CStringView(d)
    decreases |d|
  {
    if d == [] {
    } else if d[0] == Nul {
      assert buf[0] == Nul;
    } else {
      assert buf[0] == d[0];
      assert buf[1..][..|d| - 1] == d[1..];
      CStringViewPrefix(buf[1..], d[1..]);
    }
  }

  /** Decoding leaves a name without `%` and `+` untouched. */
  lemma {:induction false} UrlDecodePlain(s: CString)
    requires Percent !in s && Plus !in s
    ensures UrlDecode(s) == s
  {
    if s != [] {
      assert s[0] in s;
      assert !EscapeAt(s) && s[0] != Plus;
      assert Percent !in s[1..] && Plus !in s[1..];
      UrlDecodePlain(s[1..]);
      assert UrlDecode(s) == [s[0]] + UrlDecode(s[1..]);
    }
  }

  /** The upper-case hex digit for a value below 16. */
  function HexDigit(n: nat): (c: Byte)
    requires n < 16
    ensures IsHexDigit(c) && HexValue(c) == n
  {
    if n < 10 then '0' as int + n else 'A' as int + (n - 10)
  }

  /** Escapes every byte as `%XY`: the encoder `url_decode` undoes. */
  function PercentEncode(s: seq<Byte>): (r: CString)
    ensures |r| == 3 * |s|
  {
    if s == [] then []
    else [Percent, HexDigit(s[0] / 16), HexDigit(s[0] % 16)] + PercentEncode(s[1..])
  }

  /** Decoding a fully escaped byte string gives the bytes back, NUL bytes included. */
  lemma {:induction false} UrlDecodePercentEncode(s: seq<Byte>)
    ensures UrlDecode(PercentEncode(s)) == s
  {
    if s != [] {
      var e := PercentEncode(s);
      assert EscapeAt(e);
      assert e[3..] == PercentEncode(s[1..]);
      UrlDecodePercentEncode(s[1..]);
    }
  }

  /** `full_url`: the base address followed by the article name. */
  function FullUrl(link: CString): (r: CString)
    ensures |r| == UrlBaseLen + |link|
    ensures r[..UrlBaseLen] == UrlBase && r[UrlBaseLen..] == link
  {
    UrlBase + link
  }

  /** An accepted href's canonical name: decoded article name, as far as C string functions read it. */
  function Canonical(link: CString): (r: Option<CString>)
    ensures r.Some? <==> ShouldExplore(link)
    ensures r.Some? ==> Colon !in link && |r.value| <= |link| - |WikiPrefix|
  {
    if ShouldExplore(link) then
      var name := ArticleName(link);
      assert |name| <= |link| - |WikiPrefix| by {
        var i :| SegmentStart(link, i);
        assert link[5] == Slash;
      }
      Some(CStringView(UrlDecode(name)))
    else None
  }

  /** `filter_links` after parsing: the article names of the accepted hrefs, in document order. */
  function FilterLinks(raws: seq<CString>): (r: seq<CString>)
    ensures |r| <= |raws|
    ensures forall k :: 0 <= k < |r| ==> Slash !in r[k] && Anchor !in r[k]
  {
    if raws == [] then []
    else
      var prefix := FilterLinks(raws[..|raws| - 1]);
      var link := raws[|raws| - 1];
      if ShouldExplore(link) then prefix + [ArticleName(link)] else prefix
  }

  /** The canonical names of a page's hrefs in document order, the rejected ones dropped. */
  function Canonicals(raws: seq<CString>): (r: seq<CString>)
    ensures |r| == |FilterLinks(raws)|
    ensures forall k :: 0 <= k < |r| ==> r[k] == CStringView(UrlDecode(FilterLinks(raws)[k]))
  {
    if raws == [] then []
    else
      var prefix := Canonicals(raws[..|raws| - 1]);
      match Canonical(raws[|raws| - 1])
      case None => prefix
      case Some(name) => prefix + [name]
  }

  /** Every canonical name comes from an href `should_explore` accepted: its raw text starts with `/wiki/` and has no `:`. */
  lemma {:induction false} CanonicalsFromArticleLinks(raws: seq<CString>)
    ensures forall n :: n in Canonicals(raws) ==>
              exists i :: 0 <= i < |raws| && ShouldExplore(raws[i]) && Canonical(raws[i]) == Some(n)
  {
    if raws != [] {
      var init := raws[..|raws| - 1];
      CanonicalsFromArticleLinks(init);
      forall n | n in Canonicals(raws)
        ensures exists i :: 0 <= i < |raws| && ShouldExplore(raws[i]) && Canonical(raws[i]) == Some(n)
      {
        if n in Canonicals(init) {
          var i :| 0 <= i < |init| && ShouldExplore(init[i]) && Canonical(init[i]) == Some(n);
          assert raws[i] == init[i];
        } else {
          assert Canonical(raws[|raws| - 1]) == Some(n);
        }
      }
    }
  }

  /** The article name of `/wiki/` followed by a slash-free, anchor-free name is that name. */
  lemma ArticleNameOfWikiLink(name: CString)
    requires Slash !in name && Anchor !in name
    ensures ArticleName(WikiPrefix + name) == name
  {
    var link := WikiPrefix + name;
    assert link[6..] == name;
    assert forall k :: 6 <= k < |link| ==> link[k] == name[k - 6];
    assert SegmentStart(link, 6);
  }

  /** `/wiki/` followed by a name without `:` is accepted. */
  lemma WikiLinkAccepted(name: CString)
    requires Colon !in name
    ensures ShouldExplore(WikiPrefix + name)
  {
    var link := WikiPrefix + name;
    assert link[..6] == WikiPrefix;
    forall k | 0 <= k < |link| ensures link[k] != Colon {
      if k >= 6 { assert link[k] == name[k - 6]; }
    }
  }

  /** A plain article name read back through `/wiki/` comes out unchanged. */
  lemma CanonicalOfPlainName(name: CString)
    requires Slash !in name && Anchor !in name && Colon !in name && Percent !in name && Plus !in name
    ensures Canonical(WikiPrefix + name) == Some(name)
  {
    WikiLinkAccepted(name);
    ArticleNameOfWikiLink(name);
    UrlDecodePlain(name);
  }

  /** `/wiki/%2B` is accepted and canonicalises to `+`. */
  lemma CanonicalOfEscapedPlus()
    ensures Canonical(WikiPrefix + Ascii("%2B")) == Some([Plus])
  {
    var n := Ascii("%2B");
    assert n == [Percent, '2' as int, 'B' as int];
    WikiLinkAccepted(n);
    ArticleNameOfWikiLink(n);
    assert EscapeAt(n);
    assert n[3..] == [];
    assert UrlDecode(n) == [Plus];
  }

  /** `/wiki/+` is accepted and canonicalises to a single space. */
  lemma CanonicalOfPlus()
    ensures Canonical(WikiPrefix + [Plus]) == Some([Space])
  {
    var n: CString := [Plus];
    WikiLinkAccepted(n);
    ArticleNameOfWikiLink(n);
    assert !EscapeAt(n) && n[1..] == [];
    assert UrlDecode(n) == [Space];
  }

  /**
   * Re-wrapping a canonical name as `/wiki/<name>` need not give the same name back:
   * `%2B` decodes to `+`, which a second pass turns into a space.
   */
  lemma CanonicalNotIdempotent()
    ensures Canonical(WikiPrefix + Ascii("%2B")) == Some([Plus])
    ensures Canonical(WikiPrefix + [Plus]) != Some([Plus])
  {
    CanonicalOfEscapedPlus();
    CanonicalOfPlus();
  }

  /**
   * The namespace filter looks for `:` in the raw link, before any decoding: `/wiki/A%3AB`
   * is accepted and canonicalises to `A:B`, a name with a colon.
   */
  lemma EscapedColonAccepted()
    ensures ShouldExplore(WikiPrefix + Ascii("A%3AB"))
    ensures Canonical(WikiPrefix + Ascii("A%3AB")) == Some(['A' as int, Colon, 'B' as int])
  {
    var n := Ascii("A%3AB");
    assert n == [65, Percent, 51, 65, 66];
    WikiLinkAccepted(n);
    ArticleNameOfWikiLink(n);
    EscapedColonDecodes(n);
  }

  /** `A%3AB` decodes to `A:B`. */
  lemma EscapedColonDecodes(n: CString)
    requires n == [65, Percent, 51, 65, 66]
    ensures UrlDecode(n) == [65, Colon, 66]
  {
    var m := n[1..];
    assert !EscapeAt(n) && n[0] != Plus;
    assert UrlDecode(n) == [65] + UrlDecode(m);
    assert EscapeAt(m) && HexValue(51) == 3 && HexValue(65) == 10;
    assert m[3..] == [66];
    assert UrlDecode(m) == [Colon] + UrlDecode([66]);
    assert UrlDecode([66]) == [66] + UrlDecode([]);
  }

  /** An escaped NUL ends the name for every later string function: `A%00B` is read as `A`. */
  lemma EscapedNulTruncates()
    ensures CStringView(UrlDecode(Ascii("A%00B"))) == Ascii("A")
  {
    var s := Ascii("A%00B");
    assert !EscapeAt(s) && s[0] != Plus;
    assert EscapeAt(s[1..]);
    assert s[1..][3..] == [66];
    assert UrlDecode(s) == [65, 0, 66];
  }
}
