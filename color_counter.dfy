/**
 The color-tallying pass of `AmazonReviewsColorCounter.count_colors`.

 A fetched reviews page is abstracted to the review-metadata blocks found on
 it, and each block to the text strings it contains, in document order. The
 pass visits pages 1..N in ascending order, extracts at most one color per
 block from the strings that start with "Color: " once stripped, and counts
 the blocks per color in a dictionary that starts empty and reads 0 for a
 missing key.
 */
module ColorCounter {
  import opened Wrappers
  import opened PyStr

  /** The text strings of one review-metadata element, in document order. */
  type Block = seq<string>
  /** The review-metadata elements found on one reviews page. */
  type Page = seq<Block>
  /** Number of reviews seen per color. */
  type Tally = map<string, nat>

  /** The literal that introduces the color in a review's metadata. */
  const COLOR_STR: string := "Color: "
  /** What is appended to the reviews URL to select one page. */
  const PAGE_NUMBER_PARAM: string := "&pageNumber="

  // ---------------------------------------------------------------------
  // Page selection

  /** The URL fetched for page `pageNumber`: the reviews URL, untouched,
      followed by the page parameter. */
  function PageUrl(url: string, pageNumber: int): (r: string)
    ensures |url| + |PAGE_NUMBER_PARAM| < |r|
    ensures r[..|url|] == url
    ensures r[|url|..|url| + |PAGE_NUMBER_PARAM|] == PAGE_NUMBER_PARAM
  {
    url + PAGE_NUMBER_PARAM + FormatInt(pageNumber)
  }

  /** What follows the page parameter reads back as the page number. */
  lemma PageUrlNumber(url: string, pageNumber: int)
    ensures ParseInt(PageUrl(url, pageNumber)[|url| + |PAGE_NUMBER_PARAM|..]) == Some(pageNumber)
  {
    var r := PageUrl(url, pageNumber);
    assert r[|url| + |PAGE_NUMBER_PARAM|..] == FormatInt(pageNumber);
    FormatIntRoundTrip(pageNumber);
  }

  /** Different pages of the same listing are fetched from different URLs. */
  lemma PageUrlInjective(url: string, n: int, m: int)
    requires PageUrl(url, n) == PageUrl(url, m)
    ensures n == m
  {
    var k := |url| + |PAGE_NUMBER_PARAM|;
    assert PageUrl(url, n)[k..] == FormatInt(n);
    assert PageUrl(url, m)[k..] == FormatInt(m);
    FormatIntInjective(n, m);
  }

  /** The number of pages to visit: the site's last page, or the caller's
      limit when one is given and it is smaller. */
  function PageCount(maxPage: int, pageLimit: Option<int>): (n: int)
    ensures n <= maxPage
    ensures pageLimit.None? ==> n == maxPage
    ensures pageLimit.Some? ==> n <= pageLimit.value && (n == maxPage || n == pageLimit.value)
  {
    match pageLimit
    case None => maxPage
    case Some(limit) => if limit < maxPage then limit else maxPage
  }

  /** The page numbers `range(1, n + 1)` yields. */
  function PageRange(n: int): (r: seq<int>)
    ensures |r| == if n <= 0 then 0 else n
    ensures forall k :: 0 <= k < |r| ==> r[k] == k + 1
  {
    if n <= 0 then [] else PageRange(n - 1) + [n]
  }

  // ---------------------------------------------------------------------
  // Color extraction

  /** The color one string carries, if any: the string is stripped, and when
      it then starts with `COLOR_STR` the rest of it is the color. */
  function LineColor(s: string): Option<string>
  {
    var t := Strip(s);
    if COLOR_STR <= t then Some(t[|COLOR_STR|..]) else None
  }

  /** When a string carries a color, the stripped string is the prefix
      followed by the color, and the color is never empty and never ends in
      whitespace (the prefix ends in a space, which stripping would have
      removed from a bare prefix). */
  lemma LineColorSpec(s: string)
    ensures LineColor(s).Some? ==> Strip(s) == COLOR_STR + LineColor(s).value
    ensures LineColor(s).Some? ==> ColorShaped(LineColor(s).value)
  {
    var t := Strip(s);
    StripSpec(s);
    if COLOR_STR <= t {
      assert t[|COLOR_STR| - 1] == ' ' && IsSpace(' ');
    }
  }

  /** What an extracted color looks like: not empty, and not ending in
      whitespace. */
  predicate ColorShaped(c: string)
  {
    c != [] && !IsSpace(c[|c| - 1])
  }

  /** A color written after the prefix, with any whitespace around the line,
      is read back exactly, provided it is not empty and does not end in
      whitespace (which stripping would remove). */
  lemma LineColorRoundTrip(pre: string, c: string, post: string)
    requires AllSpace(pre) && AllSpace(post)
    requires ColorShaped(c)
    ensures LineColor(pre + COLOR_STR + c + post) == Some(c)
  {
    var t := COLOR_STR + c;
    StripPadded(pre, t, post);
    assert pre + COLOR_STR + c + post == pre + t + post;
    assert t[|COLOR_STR|..] == c;
  }

  /** Conversely, a string yields color `c` only if it is that color after
      the prefix, with nothing but whitespace around. */
  lemma LineColorShape(s: string)
    requires LineColor(s).Some?
    ensures exists pre, post :: AllSpace(pre) && AllSpace(post) && s == pre + COLOR_STR + LineColor(s).value + post
  {
    var c := LineColor(s).value;
    var r := Strip(s);
    StripSpec(s);
    LineColorSpec(s);
    var pre, post := s[..StripStart(s)], s[StripEnd(s)..];
    assert AllSpace(pre) by {
      forall k | 0 <= k < |pre| ensures IsSpace(pre[k]) {
        assert pre[k] == s[k];
      }
    }
    assert AllSpace(post) by {
      forall k | 0 <= k < |post| ensures IsSpace(post[k]) {
        assert post[k] == s[StripEnd(s) + k];
      }
    }
    assert s == pre + r + post;
    assert r == COLOR_STR + c;
    assert s == pre + COLOR_STR + c + post;
  }

  /** The color each string of a block carries, in order. */
  function LineColors(b: Block): (r: seq<Option<string>>)
  {
    seq(|b|, i requires 0 <= i < |b| => LineColor(b[i]))
  }

  /** The last value present in a sequence of optional values. */
  function LastSome<T>(xs: seq<Option<T>>): Option<T>
  {
    if xs == [] then None
    else if xs[|xs| - 1].Some? then xs[|xs| - 1]
    else LastSome(xs[..|xs| - 1])
  }

  /** `LastSome` finds nothing exactly when nothing is present. */
  lemma {:induction false} LastSomeNone<T>(xs: seq<Option<T>>)
    ensures LastSome(xs).None? <==> forall i :: 0 <= i < |xs| ==> xs[i].None?
  {
    if xs != [] && xs[|xs| - 1].None? {
      var init := xs[..|xs| - 1];
      LastSomeNone(init);
      assert forall i :: 0 <= i < |init| ==> init[i] == xs[i];
    }
  }

  /** What `LastSome` finds is one of the elements. */
  lemma {:induction false} LastSomeIn<T>(xs: seq<Option<T>>)
    ensures LastSome(xs).Some? ==> LastSome(xs) in xs
  {
    if xs != [] && xs[|xs| - 1].None? {
      LastSomeIn(xs[..|xs| - 1]);
    }
  }

  /** What `LastSome` finds is an element after which nothing is present;
      `i` is its position. */
  lemma {:induction false} LastSomeIndex<T>(xs: seq<Option<T>>) returns (i: int)
    requires LastSome(xs).Some?
    ensures 0 <= i < |xs| && xs[i] == LastSome(xs)
    ensures forall j :: i < j < |xs| ==> xs[j].None?
  {
    if xs[|xs| - 1].Some? {
      i := |xs| - 1;
    } else {
      var init := xs[..|xs| - 1];
      i := LastSomeIndex(init);
      assert xs[i] == init[i];
      assert forall j :: i < j < |init| ==> init[j] == xs[j];
    }
  }

  /** The color a block yields: that of its last string that carries one. */
  function BlockColor(b: Block): Option<string>
  {
    LastSome(LineColors(b))
  }

  /** The color a block yields is never empty and never ends in whitespace. */
  lemma BlockColorShaped(b: Block)
    ensures BlockColor(b).Some? ==> ColorShaped(BlockColor(b).value)
  {
    var xs := LineColors(b);
    LastSomeIn(xs);
    if BlockColor(b).Some? {
      var i :| 0 <= i < |xs| && xs[i] == BlockColor(b);
      LineColorSpec(b[i]);
    }
  }

  /** A block yields a color exactly when one of its strings carries one, and
      then it is the color of the last such string. */
  lemma BlockColorIsLastMatch(b: Block)
    ensures BlockColor(b).None? <==> forall i :: 0 <= i < |b| ==> LineColor(b[i]).None?
    ensures BlockColor(b).Some? ==>
      exists i :: 0 <= i < |b| && LineColor(b[i]) == BlockColor(b)
        && forall j :: i < j < |b| ==> LineColor(b[j]).None?
  {
    var xs := LineColors(b);
    LastSomeNone(xs);
    assert forall i :: 0 <= i < |b| ==> xs[i] == LineColor(b[i]);
    if BlockColor(b).Some? {
      var i := LastSomeIndex(xs);
    }
  }

  /** The color found by the inner loop of `count_colors` for one block:
      `color_string` starts as `None` and is overwritten by every string that
      carries a color, so the last one wins. */
  method ExtractColor(block: Block) returns (color: Option<string>)
    ensures color == BlockColor(block)
  {
    color := None;
    ghost var xs := LineColors(block);
    var i := 0;
    while i < |block|
      invariant 0 <= i <= |block|
      invariant color == LastSome(xs[..i])
    {
      var s := Strip(block[i]);
      if COLOR_STR <= s {
        color := Some(s[|COLOR_STR|..]);
      }
      assert xs[..i + 1][..i] == xs[..i];
      assert xs[i] == LineColor(block[i]);
      i := i + 1;
    }
    assert xs[..i] == xs;
  }

  // ---------------------------------------------------------------------
  // The tally

  /** Reading a key of the tally as a `defaultdict(int)` does: 0 when absent. */
  function Get(m: Tally, c: string): nat
  {
    if c in m then m[c] else 0
  }

  /** Processing one block: a block with a color adds one to that color's
      count; a block without one changes nothing. */
  function Record(m: Tally, color: Option<string>): Tally
  {
    match color
    case None => m
    case Some(c) => m[c := Get(m, c) + 1]
  }

  /** The tally after processing the given blocks, in order, from `m`. */
  function RecordAll(m: Tally, blocks: seq<Block>): Tally
    decreases |blocks|
  {
    if blocks == [] then m else RecordAll(Record(m, BlockColor(blocks[0])), blocks[1..])
  }

  /** The tally of the given blocks, starting from an empty dictionary. */
  function TallyOf(blocks: seq<Block>): Tally
  {
    RecordAll(map[], blocks)
  }

  /** Processing two runs of blocks one after the other is processing their
      concatenation. */
  lemma {:induction false} RecordAllAppend(m: Tally, a: seq<Block>, b: seq<Block>)
    decreases a
    ensures RecordAll(m, a + b) == RecordAll(RecordAll(m, a), b)
  {
    if a == [] {
      assert a + b == b;
    } else {
      assert (a + b)[0] == a[0];
      assert (a + b)[1..] == a[1..] + b;
      RecordAllAppend(Record(m, BlockColor(a[0])), a[1..], b);
    }
  }

  /** One block changes the count of exactly its own color, by one, and no
      other entry; a block without a color changes nothing. */
  lemma RecordEffect(m: Tally, b: Block)
    ensures BlockColor(b).None? ==> Record(m, BlockColor(b)) == m
    ensures BlockColor(b).Some? ==>
      var c, r := BlockColor(b).value, Record(m, BlockColor(b));
      && r.Keys == m.Keys + {c}
      && Get(r, c) == Get(m, c) + 1
      && forall k :: k in m && k != c ==> r[k] == m[k]
  {
  }

  /** A run of blocks none of which yields a color (a page without color
      metadata, say) leaves the tally as it was. */
  lemma {:induction false} NoColorNoChange(m: Tally, blocks: seq<Block>)
    decreases blocks
    requires forall i :: 0 <= i < |blocks| ==> BlockColor(blocks[i]).None?
    ensures RecordAll(m, blocks) == m
  {
    if blocks != [] {
      assert BlockColor(blocks[0]).None?;
      assert forall i :: 0 <= i < |blocks| - 1 ==> blocks[1..][i] == blocks[i + 1];
      NoColorNoChange(m, blocks[1..]);
    }
  }

  /** A tally whose colors have all been counted at least once, and are all
      non-empty and free of trailing whitespace. */
  predicate WellFormed(m: Tally)
  {
    forall c :: c in m ==> m[c] >= 1 && ColorShaped(c)
  }

  /** Processing blocks keeps every count at least 1 and every key a non-empty
      color without trailing whitespace. */
  lemma {:induction false} RecordAllWellFormed(m: Tally, blocks: seq<Block>)
    decreases blocks
    requires WellFormed(m)
    ensures WellFormed(RecordAll(m, blocks))
  {
    if blocks != [] {
      var m' := Record(m, BlockColor(blocks[0]));
      BlockColorShaped(blocks[0]);
      assert WellFormed(m');
      RecordAllWellFormed(m', blocks[1..]);
    }
  }

  /** Every color in the tally has been seen at least once, and none is empty
      or ends in whitespace. */
  lemma TallyKeys(blocks: seq<Block>)
    ensures forall c :: c in TallyOf(blocks) ==> TallyOf(blocks)[c] >= 1 && ColorShaped(c)
  {
    RecordAllWellFormed(map[], blocks);
  }

  /** Number of blocks that yield color `c`. */
  function CountOf(blocks: seq<Block>, c: string): nat
  {
    if blocks == [] then 0
    else (if BlockColor(blocks[0]) == Some(c) then 1 else 0) + CountOf(blocks[1..], c)
  }

  /** Number of blocks that yield any color. */
  function Matched(blocks: seq<Block>): nat
  {
    if blocks == [] then 0
    else (if BlockColor(blocks[0]).Some? then 1 else 0) + Matched(blocks[1..])
  }

  /** Processing blocks adds to each color's count the number of blocks that
      yield it. */
  lemma {:induction false} RecordAllCounts(m: Tally, blocks: seq<Block>, c: string)
    decreases blocks
    ensures Get(RecordAll(m, blocks), c) == Get(m, c) + CountOf(blocks, c)
  {
    if blocks != [] {
      RecordAllCounts(Record(m, BlockColor(blocks[0])), blocks[1..], c);
    }
  }

  /** The tally is the histogram of the blocks' colors: each color's count is
      the number of blocks yielding it, and only such colors are keys. */
  lemma TallyIsHistogram(blocks: seq<Block>, c: string)
    ensures Get(TallyOf(blocks), c) == CountOf(blocks, c)
    ensures c in TallyOf(blocks) <==> CountOf(blocks, c) > 0
  {
    RecordAllCounts(map[], blocks, c);
    TallyKeys(blocks);
  }

  /** The sum of all counts in a tally. */
  ghost function Total(m: Tally): nat
    decreases |m|
  {
    if m == map[] then 0
    else
      var k :| k in m;
      assert |m - {k}| < |m| by { assert m.Keys - {k} < m.Keys; }
      m[k] + Total(m - {k})
  }

  /** The sum may be taken starting from any key. */
  lemma {:induction false} TotalRemove(m: Tally, k: string)
    requires k in m
    ensures Total(m) == m[k] + Total(m - {k})
    decreases |m|
  {
    var j :| j in m && Total(m) == m[j] + Total(m - {j});
    if j != k {
      assert |m - {j}| < |m| by { assert m.Keys - {j} < m.Keys; }
      assert |m - {k}| < |m| by { assert m.Keys - {k} < m.Keys; }
      TotalRemove(m - {j}, k);
      TotalRemove(m - {k}, j);
      assert m - {j} - {k} == m - {k} - {j};
    }
  }

  /** Processing a block adds one to the sum of the counts exactly when the
      block yields a color. */
  lemma TotalRecord(m: Tally, color: Option<string>)
    ensures Total(Record(m, color)) == Total(m) + (if color.Some? then 1 else 0)
  {
    if color.Some? {
      var c, r := color.value, Record(m, color);
      TotalRemove(r, c);
      assert r - {c} == m - {c};
      if c in m {
        TotalRemove(m, c);
      } else {
        assert m - {c} == m;
      }
    }
  }

  /** Processing blocks adds to the sum of the counts the number of blocks
      that yield a color. */
  lemma {:induction false} RecordAllTotal(m: Tally, blocks: seq<Block>)
    decreases blocks
    ensures Total(RecordAll(m, blocks)) == Total(m) + Matched(blocks)
  {
    if blocks != [] {
      var color := BlockColor(blocks[0]);
      TotalRecord(m, color);
      RecordAllTotal(Record(m, color), blocks[1..]);
    }
  }

  /** The counts sum to the number of blocks that yielded a color. */
  lemma TallyTotal(blocks: seq<Block>)
    ensures Total(TallyOf(blocks)) == Matched(blocks)
  {
    RecordAllTotal(map[], blocks);
  }

  // ---------------------------------------------------------------------
  // The whole pass

  /** Every block on pages 1..n, page after page, each page as fetched from
      its page URL. */
  function VisitedBlocks(url: string, fetch: string -> Page, n: int): seq<Block>
  {
    if n <= 0 then [] else VisitedBlocks(url, fetch, n - 1) + fetch(PageUrl(url, n))
  }

  /** The loop over the review-metadata elements of one page: every block
      that yields a color adds one to that color's count. */
  method CountPage(tally: Tally, page: Page) returns (r: Tally)
    ensures r == RecordAll(tally, page)
  {
    r := tally;
    var j := 0;
    while j < |page|
      invariant 0 <= j <= |page|
      invariant RecordAll(r, page[j..]) == RecordAll(tally, page)
    {
      var color := ExtractColor(page[j]);
      ghost var before := r;
      if color.Some? {
        r := r[color.value := Get(r, color.value) + 1];
      }
      assert r == Record(before, color);
      assert page[j..][1..] == page[j + 1..];
      j := j + 1;
    }
  }

  /**
   The tallying pass of `count_colors`, given the reviews URL, the site's last
   page number and the optional page limit. `fetch` stands for fetching and
   parsing a page: it maps a URL to the review-metadata blocks found there.
   `processed` lists the page numbers in the order they were processed.
   */
  method CountColors(reviewsUrl: string, fetch: string -> Page, maxPage: int, pageLimit: Option<int>)
    returns (tally: Tally, processed: seq<int>)
    ensures processed == PageRange(PageCount(maxPage, pageLimit))
    ensures tally == TallyOf(VisitedBlocks(reviewsUrl, fetch, PageCount(maxPage, pageLimit)))
  {
    tally := map[];
    processed := [];
    var n := PageCount(maxPage, pageLimit);
    var i := 1;
    while i <= n
      invariant 1 <= i && (n <= 0 ==> i == 1) && (n > 0 ==> i <= n + 1)
      invariant processed == PageRange(i - 1)
      invariant tally == TallyOf(VisitedBlocks(reviewsUrl, fetch, i - 1))
    {
      processed := processed + [i];
      ghost var before := VisitedBlocks(reviewsUrl, fetch, i - 1);
      var page := fetch(PageUrl(reviewsUrl, i));
      tally := CountPage(tally, page);
      RecordAllAppend(map[], before, page);
      assert VisitedBlocks(reviewsUrl, fetch, i) == before + page;
      assert PageRange(i) == processed;
      i := i + 1;
    }
    assert n <= 0 ==> PageRange(n) == [] && VisitedBlocks(reviewsUrl, fetch, n) == [];
  }

  /** The pass counts, for every color, the reviews on the visited pages that
      carry it, and in all as many reviews as carry a color. */
  lemma CountColorsCounts(reviewsUrl: string, fetch: string -> Page, maxPage: int, pageLimit: Option<int>, c: string)
    ensures var blocks := VisitedBlocks(reviewsUrl, fetch, PageCount(maxPage, pageLimit));
      && Get(TallyOf(blocks), c) == CountOf(blocks, c)
      && Total(TallyOf(blocks)) == Matched(blocks)
  {
    var blocks := VisitedBlocks(reviewsUrl, fetch, PageCount(maxPage, pageLimit));
    TallyIsHistogram(blocks, c);
    TallyTotal(blocks);
  }
}
