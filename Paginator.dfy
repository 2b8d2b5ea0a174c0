/**
 * Collecting one day of posts from a feed read page by page, newest first.
 * The HTTP request is replaced by `pages`: the successive page bodies the
 * requests at skip 0, skip |page 0|, ... would return.
 */
module Paginator {
  import opened Records
  import opened Window

  /** The posts of `s` that lie in the window, in their order in `s`. */
  function InWindow(w: Window, s: seq<Post>): (r: seq<Post>)
    ensures |r| <= |s|
  {
    if s == [] then []
    else
      var last := s[|s| - 1];
      assert s == s[..|s| - 1] + [last];
      InWindow(w, s[..|s| - 1]) + (if Contains(w, last.created) then [last] else [])
  }

  /** A post is kept exactly when it is on the page and inside the window. */
  lemma {:induction false} InWindowMembers(w: Window, s: seq<Post>, p: Post)
    ensures p in InWindow(w, s) <==> p in s && Contains(w, p.created)
    decreases |s|
  {
    if s != [] {
      var init, last := s[..|s| - 1], s[|s| - 1];
      assert s == init + [last];
      InWindowMembers(w, init, p);
    }
  }

  /** Filtering distributes over concatenation, so page order is kept. */
  lemma {:induction false} InWindowAppend(w: Window, a: seq<Post>, b: seq<Post>)
    ensures InWindow(w, a + b) == InWindow(w, a) + InWindow(w, b)
    decreases |b|
  {
    if b == [] {
      assert a + b == a;
    } else {
      var b' := b[..|b| - 1];
      assert (a + b)[..|a + b| - 1] == a + b';
      InWindowAppend(w, a, b');
    }
  }

  /** The smallest creation time of the page, starting from `now`. */
  function Oldest(now: int, s: seq<Post>): int
  {
    if s == [] then now
    else
      var rest := Oldest(now, s[..|s| - 1]);
      var created := s[|s| - 1].created;
      if created < rest then created else rest
  }

  /** `oldest` is the minimum of `now` and the page's creation times. */
  lemma {:induction false} OldestIsMinimum(now: int, s: seq<Post>)
    ensures Oldest(now, s) <= now
    ensures forall i :: 0 <= i < |s| ==> Oldest(now, s) <= s[i].created
    ensures Oldest(now, s) == now || exists i :: 0 <= i < |s| && s[i].created == Oldest(now, s)
    decreases |s|
  {
    if s != [] {
      var init := s[..|s| - 1];
      OldestIsMinimum(now, init);
      assert forall i :: 0 <= i < |init| ==> init[i] == s[i];
      if Oldest(now, init) != now && Oldest(now, s) == Oldest(now, init) {
        var i :| 0 <= i < |init| && init[i].created == Oldest(now, init);
        assert s[i].created == Oldest(now, s);
      }
    }
  }

  /** Whether the job asks for another page after this one. */
  predicate Continues(w: Window, now: int, page: seq<Post>)
  {
    Oldest(now, page) >= w.yesterday
  }

  /** The posts of the first pages, in order. */
  function Flatten(pages: seq<seq<Post>>): seq<Post>
  {
    if pages == [] then [] else Flatten(pages[..|pages| - 1]) + pages[|pages| - 1]
  }

  lemma FlattenSnoc(pages: seq<seq<Post>>, page: seq<Post>)
    ensures Flatten(pages + [page]) == Flatten(pages) + page
  {
    assert (pages + [page])[..|pages|] == pages;
  }

  lemma {:induction false} FlattenAppend(a: seq<seq<Post>>, b: seq<seq<Post>>)
    ensures Flatten(a + b) == Flatten(a) + Flatten(b)
    decreases |b|
  {
    if b == [] {
      assert a + b == a;
    } else {
      var b' := b[..|b| - 1];
      assert (a + b)[..|a + b| - 1] == a + b';
      FlattenAppend(a, b');
    }
  }

  /**
   * The body of one page callback: keep the posts of the window (the `map`
   * to post-or-null and the `filter`) while lowering `oldest` from `now`.
   */
  method ScanPage(w: Window, now: int, page: seq<Post>) returns (chunk: seq<Post>, oldest: int)
    ensures chunk == InWindow(w, page)
    ensures oldest == Oldest(now, page)
  {
    chunk, oldest := [], now;
    for i := 0 to |page|
      invariant chunk == InWindow(w, page[..i])
      invariant oldest == Oldest(now, page[..i])
    {
      assert page[..i + 1][..i] == page[..i];
      var created := page[i].created;
      oldest := if created < oldest then created else oldest;
      if w.yesterday <= created && created < w.today {
        chunk := chunk + [page[i]];
      }
    }
    assert page[..|page|] == page;
  }

  /**
   * The chain of page requests: each page's posts in the window are appended,
   * `skip` advances by the page's length, and another page is requested while
   * the oldest creation time seen in the page is not before `yesterday`.
   * `stopped` says the window's lower bound was passed; otherwise `pages`
   * ran out first.
   */
  method CollectDay(w: Window, now: int, pages: seq<seq<Post>>)
    returns (blogs: seq<Post>, skip: nat, fetched: nat, stopped: bool)
    ensures fetched <= |pages|
    ensures blogs == InWindow(w, Flatten(pages[..fetched]))
    ensures skip == |Flatten(pages[..fetched])|
    ensures forall k :: 0 <= k < fetched - 1 ==> Continues(w, now, pages[k])
    ensures stopped <==> fetched > 0 && !Continues(w, now, pages[fetched - 1])
    ensures !stopped ==> fetched == |pages|
  {
    blogs, skip, fetched, stopped := [], 0, 0, false;
    while fetched < |pages| && !stopped
      invariant fetched <= |pages|
      invariant blogs == InWindow(w, Flatten(pages[..fetched]))
      invariant skip == |Flatten(pages[..fetched])|
      invariant forall k :: 0 <= k < fetched - 1 ==> Continues(w, now, pages[k])
      invariant stopped <==> fetched > 0 && !Continues(w, now, pages[fetched - 1])
    {
      var page := pages[fetched];
      var chunk, oldest := ScanPage(w, now, page);
      NextPage(w, pages, fetched);
      blogs := blogs + chunk;
      skip := skip + |page|;
      stopped := oldest < w.yesterday;
      fetched := fetched + 1;
    }
  }

  /** Reading one more page appends its posts, and its posts in the window. */
  lemma NextPage(w: Window, pages: seq<seq<Post>>, n: nat)
    requires n < |pages|
    ensures Flatten(pages[..n + 1]) == Flatten(pages[..n]) + pages[n]
    ensures InWindow(w, Flatten(pages[..n + 1])) == InWindow(w, Flatten(pages[..n])) + InWindow(w, pages[n])
  {
    assert pages[..n + 1] == pages[..n] + [pages[n]];
    FlattenSnoc(pages[..n], pages[n]);
    InWindowAppend(w, Flatten(pages[..n]), pages[n]);
  }

  /** An empty page adds nothing, keeps `skip`, and is asked for again unless `now` precedes the window. */
  lemma EmptyPageRepeats(w: Window, now: int)
    ensures InWindow(w, []) == []
    ensures Flatten([[]]) == []
    ensures Continues(w, now, []) <==> now >= w.yesterday
  {
    var empty: seq<seq<Post>> := [[]];
    assert empty[..0] == [];
  }

  /**
   * For a feed ordered newest first whose posts all predate `now`, stopping at
   * the first page whose oldest post precedes the window loses nothing: the
   * posts collected from the first `n` pages are exactly the window's posts of
   * the whole feed, in feed order.
   */
  lemma CollectComplete(w: Window, now: int, pages: seq<seq<Post>>, n: nat)
    requires Descending(Flatten(pages))
    requires CreatedBy(Flatten(pages), now)
    requires 0 < n <= |pages|
    requires !Continues(w, now, pages[n - 1])
    ensures InWindow(w, Flatten(pages[..n])) == InWindow(w, Flatten(pages))
  {
    var head, tail := Flatten(pages[..n]), Flatten(pages[n..]);
    assert pages == pages[..n] + pages[n..];
    FlattenAppend(pages[..n], pages[n..]);
    InWindowAppend(w, head, tail);
    LaterPagesOlder(w, now, pages, n);
    NoneInWindow(w, tail);
    assert head + tail == Flatten(pages);
    assert InWindow(w, head) + [] == InWindow(w, head);
  }

  /** After a page whose oldest post precedes the window, every later post does too. */
  lemma LaterPagesOlder(w: Window, now: int, pages: seq<seq<Post>>, n: nat)
    requires Descending(Flatten(pages))
    requires CreatedBy(Flatten(pages), now)
    requires 0 < n <= |pages|
    requires !Continues(w, now, pages[n - 1])
    ensures forall m :: 0 <= m < |Flatten(pages[n..])| ==> Flatten(pages[n..])[m].created < w.yesterday
  {
    var head, tail := Flatten(pages[..n]), Flatten(pages[n..]);
    var all := Flatten(pages);
    assert pages == pages[..n] + pages[n..];
    FlattenAppend(pages[..n], pages[n..]);
    assert all == head + tail;
    var last := pages[n - 1];
    var before := Flatten(pages[..n - 1]);
    assert pages[..n] == pages[..n - 1] + [last];
    FlattenSnoc(pages[..n - 1], last);
    assert head == before + last;
    var o := Oldest(now, last);
    OldestIsMinimum(now, last);
    forall m | 0 <= m < |tail|
      ensures tail[m].created < w.yesterday
    {
      assert all[|head| + m] == tail[m];
      if o == now {
        assert tail[m].created <= now;
      } else {
        var i :| 0 <= i < |last| && last[i].created == o;
        assert all[|before| + i] == last[i];
      }
    }
  }

  /** Posts all older than the window contribute nothing. */
  lemma NoneInWindow(w: Window, s: seq<Post>)
    requires forall m :: 0 <= m < |s| ==> s[m].created < w.yesterday
    ensures InWindow(w, s) == []
  {
    var r := InWindow(w, s);
    if r != [] {
      InWindowMembers(w, s, r[0]);
    }
  }
}
