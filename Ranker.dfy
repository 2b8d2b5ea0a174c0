/**
 * Ranking the day's posts by payout: every post is stored under its payout
 * text, disambiguated with a numeric suffix when that text is already taken,
 * and the top entries of the sorted key list are kept.
 */
module Ranker {
  import opened Text
  import opened Records

  /** The `n`-th suffix tried for a colliding key: "" first, then "2", "3", ... */
  function Suffix(n: nat): string
  {
    if n == 0 then "" else Decimal(n + 1)
  }

  lemma SuffixInjective(a: nat, b: nat)
    requires Suffix(a) == Suffix(b)
    ensures a == b
  {
    if a != 0 && b != 0 {
      DecimalInjective(a + 1, b + 1);
    }
  }

  lemma CandidateInjective(p: string, a: nat, b: nat)
    requires p + Suffix(a) == p + Suffix(b)
    ensures a == b
  {
    assert (p + Suffix(a))[|p|..] == Suffix(a);
    assert (p + Suffix(b))[|p|..] == Suffix(b);
    SuffixInjective(a, b);
  }

  /** The first `n` candidate keys for payout text `p`. */
  ghost function Candidates(p: string, n: nat): set<string>
  {
    if n == 0 then {} else Candidates(p, n - 1) + {p + Suffix(n - 1)}
  }

  lemma {:induction false} CandidatesSize(p: string, n: nat)
    ensures |Candidates(p, n)| == n
    ensures forall x :: x in Candidates(p, n) ==> exists j :: 0 <= j < n && x == p + Suffix(j)
  {
    if n > 0 {
      CandidatesSize(p, n - 1);
      if p + Suffix(n - 1) in Candidates(p, n - 1) {
        var j :| 0 <= j < n - 1 && p + Suffix(n - 1) == p + Suffix(j);
        CandidateInjective(p, n - 1, j);
      }
    }
  }

  lemma {:induction false} CandidatesIn(m: map<string, Post>, p: string, n: nat)
    requires forall j :: 0 <= j < n ==> p + Suffix(j) in m
    ensures Candidates(p, n) <= m.Keys
  {
    if n > 0 {
      CandidatesIn(m, p, n - 1);
    }
  }

  /** A map in which `n` candidates are taken holds at least `n` keys. */
  lemma ProbeBound(m: map<string, Post>, p: string, n: nat)
    requires forall j :: 0 <= j < n ==> p + Suffix(j) in m
    ensures n <= |m|
  {
    var c := Candidates(p, n);
    CandidatesIn(m, p, n);
    CandidatesSize(p, n);
    assert m.Keys == c + (m.Keys - c);
    assert c * (m.Keys - c) == {};
    assert |m.Keys| == |c| + |m.Keys - c|;
    assert |m.Keys| == |m|;
  }

  /** The first suffix number at or after `n` whose candidate key is free. */
  function FirstFree(m: map<string, Post>, p: string, n: nat): (r: nat)
    requires forall j :: 0 <= j < n ==> p + Suffix(j) in m
    ensures n <= r
    ensures p + Suffix(r) !in m
    ensures forall j :: 0 <= j < r ==> p + Suffix(j) in m
    decreases |m| - n
  {
    if p + Suffix(n) !in m then n
    else
      ProbeBound(m, p, n + 1);
      FirstFree(m, p, n + 1)
  }

  /** The first free candidate is the one the probing loop stops at. */
  lemma FirstFreeIs(m: map<string, Post>, p: string, n: nat)
    requires forall j :: 0 <= j < n ==> p + Suffix(j) in m
    requires p + Suffix(n) !in m
    ensures FirstFree(m, p, 0) == n
  {
  }

  /** The key a post with payout text `p` is stored under when the map is `m`. */
  function KeyFor(m: map<string, Post>, p: string): string
  {
    p + Suffix(FirstFree(m, p, 0))
  }

  /**
   * The map and the insertion-ordered key list after storing `records` one
   * by one, each under the first free candidate of its payout text.
   */
  function Assign(records: seq<Post>): (r: (map<string, Post>, seq<string>))
    ensures |r.1| == |records| && |r.0| == |records|
  {
    if records == [] then (map[], [])
    else
      var prev := Assign(records[..|records| - 1]);
      var m, ks := prev.0, prev.1;
      var e := records[|records| - 1];
      var k := KeyFor(m, e.payout);
      (m[k := e], ks + [k])
  }

  /** The map's keys are exactly the listed keys. */
  lemma {:induction false} AssignKeys(records: seq<Post>)
    ensures forall k :: k in Assign(records).0 <==> k in Assign(records).1
    decreases |records|
  {
    if records != [] {
      var init := records[..|records| - 1];
      AssignKeys(init);
    }
  }

  /**
   * One more record: stored under a key the map so far does not hold, the
   * one `KeyFor` picks, while every earlier entry keeps its post.
   */
  lemma AssignSnoc(records: seq<Post>, i: nat)
    requires i < |records|
    ensures var m, ks := Assign(records[..i]).0, Assign(records[..i]).1;
            var k := KeyFor(m, records[i].payout);
            && Assign(records[..i + 1]) == (m[k := records[i]], ks + [k])
            && k !in m
            && Assign(records[..i + 1]).0[k] == records[i]
            && (forall k' :: k' in m ==> k' in Assign(records[..i + 1]).0 && Assign(records[..i + 1]).0[k'] == m[k'])
  {
    assert records[..i + 1][..i] == records[..i];
  }

  /**
   * No post overwrites another: there is one distinct key per post, the keys
   * are exactly the map's keys, and each key maps to its own post.
   */
  lemma {:induction false} AssignFacts(records: seq<Post>)
    ensures forall i, j :: 0 <= i < j < |records| ==> Assign(records).1[i] != Assign(records).1[j]
    ensures forall i :: 0 <= i < |records| ==>
              Assign(records).1[i] in Assign(records).0 && Assign(records).0[Assign(records).1[i]] == records[i]
    decreases |records|
  {
    AssignKeys(records);
    if records != [] {
      var init := records[..|records| - 1];
      AssignKeys(init);
      AssignFacts(init);
      var m, ks := Assign(init).0, Assign(init).1;
      var e := records[|records| - 1];
      var k := KeyFor(m, e.payout);
      assert k !in m;
      assert k !in ks;
      var r := Assign(records);
      assert r.0 == m[k := e] && r.1 == ks + [k];
      forall i, j | 0 <= i < j < |records|
        ensures r.1[i] != r.1[j]
      {
        assert r.1[i] == ks[i];
        if j < |records| - 1 {
          assert r.1[j] == ks[j];
        } else {
          assert r.1[j] == k;
        }
      }
      forall i | 0 <= i < |records|
        ensures r.1[i] in r.0 && r.0[r.1[i]] == records[i]
      {
        if i < |records| - 1 {
          assert r.1[i] == ks[i] && ks[i] in m;
          assert records[i] == init[i];
        } else {
          assert r.1[i] == k;
        }
      }
    }
  }

  /** The keys chosen for a prefix are a prefix of the keys chosen for the whole. */
  lemma {:induction false} AssignPrefix(records: seq<Post>, i: nat)
    requires i <= |records|
    ensures Assign(records[..i]).1 == Assign(records).1[..i]
    decreases |records|
  {
    AssignFacts(records);
    AssignFacts(records[..i]);
    if i < |records| {
      var init := records[..|records| - 1];
      assert init[..i] == records[..i];
      AssignPrefix(init, i);
      AssignFacts(init);
    } else {
      assert records[..i] == records;
    }
  }

  /**
   * Post `i` is stored under its payout text followed by the first suffix in
   * "", "2", "3", ... that was unused when it was inserted.
   */
  lemma KeyAt(records: seq<Post>, i: nat)
    requires i < |records|
    ensures var m := Assign(records[..i]).0;
            var p := records[i].payout;
            exists n: nat :: Assign(records).1[i] == p + Suffix(n) && p + Suffix(n) !in m
                          && forall j :: 0 <= j < n ==> p + Suffix(j) in m
  {
    AssignPrefix(records, i + 1);
    AssignSnoc(records, i);
    var m := Assign(records[..i]).0;
    var p := records[i].payout;
    var n := FirstFree(m, p, 0);
    assert Assign(records[..i + 1]).1[i] == p + Suffix(n);
    assert Assign(records).1[i] == p + Suffix(n);
  }

  /**
   * The `forEach` over the records: each one stored in turn. `keys` lists
   * the keys in insertion order.
   */
  method Disambiguate(records: seq<Post>) returns (m: map<string, Post>, keys: seq<string>)
    ensures (m, keys) == Assign(records)
  {
    m, keys := map[], [];
    for i := 0 to |records|
      invariant (m, keys) == Assign(records[..i])
    {
      AssignSnoc(records, i);
      m, keys := Store(m, keys, records[i]);
    }
    assert records[..|records|] == records;
  }

  /**
   * The body of the `forEach` with its inner `while`: probe the suffixes
   * until `payout + suffix` is not yet a key, then store the post there.
   */
  method Store(m: map<string, Post>, keys: seq<string>, e: Post)
    returns (m': map<string, Post>, keys': seq<string>)
    ensures var k := KeyFor(m, e.payout);
            m' == m[k := e] && keys' == keys + [k]
  {
    var n := 0;
    while e.payout + Suffix(n) in m
      invariant forall j :: 0 <= j < n ==> e.payout + Suffix(j) in m
      decreases |m| - n
    {
      ProbeBound(m, e.payout, n + 1);
      n := n + 1;
    }
    FirstFreeIs(m, e.payout, n);
    var k := e.payout + Suffix(n);
    m' := m[k := e];
    keys' := keys + [k];
  }

  /** `Array.prototype.slice(start)`: a negative start counts from the end. */
  function SliceFrom<T>(s: seq<T>, start: int): (r: seq<T>)
    ensures |r| == if start < 0 then (if -start < |s| then -start else |s|)
                   else (if start < |s| then |s| - start else 0)
  {
    var b := if start < 0 then (if |s| + start < 0 then 0 else |s| + start)
             else (if start < |s| then start else |s|);
    s[b..]
  }

  /** Whatever the start, the slice is a tail of the list. */
  lemma SliceFromTail<T>(s: seq<T>, start: int)
    ensures SliceFrom(s, start) == s[|s| - |SliceFrom(s, start)|..]
  {
  }

  /** `keys.map(e => map[e])`. */
  function Lookup(m: map<string, Post>, keys: seq<string>): (r: seq<Post>)
    requires forall k :: k in keys ==> k in m
    ensures |r| == |keys|
    ensures forall i :: 0 <= i < |keys| ==> r[i] == m[keys[i]]
  {
    if keys == [] then [] else [m[keys[0]]] + Lookup(m, keys[1..])
  }

  /** Looking up a concatenation of key lists concatenates the lookups. */
  lemma LookupAppend(m: map<string, Post>, a: seq<string>, b: seq<string>)
    requires forall k :: k in a ==> k in m
    requires forall k :: k in b ==> k in m
    ensures Lookup(m, a + b) == Lookup(m, a) + Lookup(m, b)
  {
    var l, r := Lookup(m, a + b), Lookup(m, a) + Lookup(m, b);
    forall i | 0 <= i < |l|
      ensures l[i] == r[i]
    {
      if i < |a| {
        assert (a + b)[i] == a[i];
      } else {
        assert (a + b)[i] == b[i - |a|];
      }
    }
  }

  /** Looking up a key list with one key singled out. */
  lemma LookupSplit(m: map<string, Post>, pre: seq<string>, x: string, post: seq<string>)
    requires forall k :: k in pre ==> k in m
    requires forall k :: k in post ==> k in m
    requires x in m
    ensures Lookup(m, pre + [x] + post) == Lookup(m, pre) + [m[x]] + Lookup(m, post)
  {
    LookupAppend(m, pre, [x] + post);
    assert pre + [x] + post == pre + ([x] + post);
    assert Lookup(m, [x] + post) == [m[x]] + Lookup(m, post);
  }

  /** Looking up a permutation of the keys gives a permutation of the posts. */
  lemma {:induction false} LookupPermutation(m: map<string, Post>, s: seq<string>, t: seq<string>)
    requires forall k :: k in t ==> k in m
    requires multiset(s) == multiset(t)
    ensures forall k :: k in s ==> k in m
    ensures multiset(Lookup(m, s)) == multiset(Lookup(m, t))
    decreases |s|
  {
    forall k | k in s
      ensures k in m
    {
      assert k in multiset(s);
    }
    if s != [] {
      assert s[0] in multiset(t);
      var k :| 0 <= k < |t| && t[k] == s[0];
      RemoveFirst(s, t, k);
      var pre, post := t[..k], t[k + 1..];
      assert t == pre + [s[0]] + post;
      assert forall x :: x in pre ==> x in t;
      assert forall x :: x in post ==> x in t;
      LookupPermutation(m, s[1..], pre + post);
      LookupMoveFront(m, s, pre, post);
    }
  }

  /** Moving the first key into the middle of the rest permutes the lookup. */
  lemma LookupMoveFront(m: map<string, Post>, s: seq<string>, pre: seq<string>, post: seq<string>)
    requires s != [] && s[0] in m
    requires forall k :: k in s[1..] ==> k in m
    requires forall k :: k in pre ==> k in m
    requires forall k :: k in post ==> k in m
    requires multiset(Lookup(m, s[1..])) == multiset(Lookup(m, pre + post))
    ensures multiset(Lookup(m, s)) == multiset(Lookup(m, pre + [s[0]] + post))
  {
    LookupSplit(m, pre, s[0], post);
    LookupAppend(m, pre, post);
    assert Lookup(m, s) == [m[s[0]]] + Lookup(m, s[1..]);
    MoveFront(m[s[0]], Lookup(m, s[1..]), Lookup(m, pre), Lookup(m, post));
  }

  lemma PermutedKeysStored(m: map<string, Post>, ks: seq<string>, sorted: seq<string>)
    requires forall k :: k in m <==> k in ks
    requires multiset(sorted) == multiset(ks)
    ensures |sorted| == |ks|
    ensures forall k :: k in sorted ==> k in m
  {
    assert |sorted| == |multiset(sorted)|;
    forall k | k in sorted
      ensures k in m
    {
      assert k in multiset(sorted);
      assert k in multiset(ks);
    }
  }

  lemma SortedKeysStored(records: seq<Post>, sorted: seq<string>)
    requires multiset(sorted) == multiset(Assign(records).1)
    ensures |sorted| == |records|
    ensures forall k :: k in sorted ==> k in Assign(records).0
  {
    AssignKeys(records);
    PermutedKeysStored(Assign(records).0, Assign(records).1, sorted);
  }

  /**
   * `sort(Object.keys(map)).slice(records.length - count).map(e => map[e])`
   * as written; `sorted` is the library sort's output, a permutation of the keys.
   */
  function TopBlogsAsWritten(records: seq<Post>, sorted: seq<string>, count: int): (top: seq<Post>)
    requires multiset(sorted) == multiset(Assign(records).1)
    ensures var n := |records|;
            |top| == if count <= 0 then 0 else if count <= n then count else if count < 2 * n then count - n else n
  {
    SortedKeysStored(records, sorted);
    Lookup(Assign(records).0, SliceFrom(sorted, |records| - count))
  }

  /**
   * With more requested than there are posts but fewer than twice as many,
   * the negative start makes the slice count from the end: only
   * `count - |records|` posts come back. From twice as many on, the start
   * is at or before the beginning and every post comes back again.
   */
  lemma TopBlogsAsWrittenShort(records: seq<Post>, sorted: seq<string>, count: int)
    requires multiset(sorted) == multiset(Assign(records).1)
    requires |records| < count < 2 * |records|
    ensures |TopBlogsAsWritten(records, sorted, count)| == count - |records| < |records|
  {
    SortedKeysStored(records, sorted);
  }

  /**
   * The corrected and the as-written top posts agree exactly when the request
   * is at most the number of posts or at least twice it.
   */
  lemma TopBlogsAgree(records: seq<Post>, sorted: seq<string>, count: int)
    requires multiset(sorted) == multiset(Assign(records).1)
    ensures TopBlogs(records, sorted, count) == TopBlogsAsWritten(records, sorted, count)
            <==> count <= |records| || count >= 2 * |records|
  {
    if |records| < count < 2 * |records| {
      TopBlogsDiffer(records, sorted, count);
    } else {
      var capped := if count > |records| then |records| else count;
      TopBlogsCapped(records, sorted, count, capped);
      CappedSameSlice(records, sorted, count, capped);
    }
  }

  /** Strictly between `|records|` and twice it, the two versions differ in length. */
  lemma TopBlogsDiffer(records: seq<Post>, sorted: seq<string>, count: int)
    requires multiset(sorted) == multiset(Assign(records).1)
    requires |records| < count < 2 * |records|
    ensures |TopBlogs(records, sorted, count)| == |records|
    ensures |TopBlogsAsWritten(records, sorted, count)| == count - |records|
  {
    TopBlogsAsWrittenShort(records, sorted, count);
    TopBlogsAll(records, sorted, count);
  }

  /** The corrected top posts are the as-written ones for the request capped at the number of posts. */
  lemma TopBlogsCapped(records: seq<Post>, sorted: seq<string>, count: int, capped: int)
    requires multiset(sorted) == multiset(Assign(records).1)
    requires capped == if count > |records| then |records| else count
    ensures TopBlogs(records, sorted, count) == TopBlogsAsWritten(records, sorted, capped)
  {
  }

  /** Outside `|records| < count < 2|records|` capping the request leaves the as-written slice alone. */
  lemma CappedSameSlice(records: seq<Post>, sorted: seq<string>, count: int, capped: int)
    requires multiset(sorted) == multiset(Assign(records).1)
    requires count <= |records| || count >= 2 * |records|
    requires capped == if count > |records| then |records| else count
    ensures TopBlogsAsWritten(records, sorted, capped) == TopBlogsAsWritten(records, sorted, count)
  {
    SortedKeysStored(records, sorted);
    CappedSlice(records, sorted, capped, count);
    AsWrittenSameSlice(records, sorted, capped, count);
  }

  lemma CappedSlice(records: seq<Post>, sorted: seq<string>, capped: int, count: int)
    requires |sorted| == |records|
    requires count <= |records| || count >= 2 * |records|
    requires capped == if count > |records| then |records| else count
    ensures SliceFrom(sorted, |records| - capped) == SliceFrom(sorted, |records| - count)
  {
    SliceFromCappedSame(sorted, |records|, count);
  }

  lemma SliceFromCappedSame<T>(s: seq<T>, n: nat, count: int)
    requires |s| == n
    requires count <= n || count >= 2 * n
    ensures SliceFrom(s, n - (if count > n then n else count)) == SliceFrom(s, n - count)
  {
    SliceFromCapped(s, n, count);
  }

  /** Requests whose slices coincide give the same as-written top posts. */
  lemma AsWrittenSameSlice(records: seq<Post>, sorted: seq<string>, c1: int, c2: int)
    requires multiset(sorted) == multiset(Assign(records).1)
    requires SliceFrom(sorted, |records| - c1) == SliceFrom(sorted, |records| - c2)
    ensures TopBlogsAsWritten(records, sorted, c1) == TopBlogsAsWritten(records, sorted, c2)
  {
  }

  /**
   * Capping a request at `|s|` before slicing from `|s| - count` changes the
   * slice exactly when `|s| < count < 2|s|`.
   */
  lemma SliceFromCapped<T>(s: seq<T>, n: nat, count: int)
    requires |s| == n
    ensures var capped := if count > n then n else count;
            && (SliceFrom(s, n - capped) == SliceFrom(s, n - count) <==> count <= n || count >= 2 * n)
            && |SliceFrom(s, n - capped)| == (if count < 0 then 0 else capped)
  {
    if n < count < 2 * n {
      assert |SliceFrom(s, n - count)| == count - n;
    }
  }

  /**
   * The top posts: the slice of line 110 for the request capped at the number
   * of posts, so the slice start is never negative.
   */
  function TopBlogs(records: seq<Post>, sorted: seq<string>, count: int): (top: seq<Post>)
    requires multiset(sorted) == multiset(Assign(records).1)
    ensures |top| == if count <= 0 then 0 else if count <= |records| then count else |records|
  {
    TopBlogsAsWritten(records, sorted, if count > |records| then |records| else count)
  }

  /**
   * When at most `|records|` are requested, exactly `count` posts come back:
   * those stored under the last `count` sorted keys, each one of the records.
   * The two versions agree there.
   */
  lemma TopBlogsLastKeys(records: seq<Post>, sorted: seq<string>, count: int)
    requires multiset(sorted) == multiset(Assign(records).1)
    requires 0 <= count <= |records|
    ensures var r := TopBlogs(records, sorted, count);
            && |r| == count
            && (forall k :: k in sorted ==> k in Assign(records).0)
            && (forall i :: 0 <= i < count ==> r[i] == Assign(records).0[sorted[|records| - count + i]])
            && (forall i :: 0 <= i < count ==> r[i] in records)
    ensures TopBlogs(records, sorted, count) == TopBlogsAsWritten(records, sorted, count)
  {
    SortedKeysStored(records, sorted);
    var m := Assign(records).0;
    var start := |records| - count;
    var tail := sorted[start..];
    assert SliceFrom(sorted, start) == tail;
    var r := Lookup(m, tail);
    assert TopBlogs(records, sorted, count) == r;
    assert TopBlogsAsWritten(records, sorted, count) == r;
    forall i | 0 <= i < count
      ensures r[i] == m[sorted[start + i]] && r[i] in records
    {
      assert tail[i] == sorted[start + i];
      StoredIsRecord(records, sorted, sorted[start + i]);
    }
  }

  /** Every sorted key leads to one of the records. */
  lemma StoredIsRecord(records: seq<Post>, sorted: seq<string>, k: string)
    requires multiset(sorted) == multiset(Assign(records).1)
    requires k in sorted
    ensures k in Assign(records).0 && Assign(records).0[k] in records
  {
    AssignFacts(records);
    var ks := Assign(records).1;
    assert k in multiset(sorted);
    assert k in multiset(ks);
    var j :| 0 <= j < |ks| && ks[j] == k;
    assert Assign(records).0[k] == records[j];
  }

  /** When at least `|records|` are requested, every record comes back. */
  lemma TopBlogsAll(records: seq<Post>, sorted: seq<string>, count: int)
    requires multiset(sorted) == multiset(Assign(records).1)
    requires count >= |records|
    ensures |TopBlogs(records, sorted, count)| == |records|
    ensures forall i :: 0 <= i < |records| ==> records[i] in TopBlogs(records, sorted, count)
    ensures multiset(TopBlogs(records, sorted, count)) == multiset(records)
  {
    SortedKeysStored(records, sorted);
    AssignFacts(records);
    AssignKeys(records);
    var m, ks := Assign(records).0, Assign(records).1;
    var r := TopBlogs(records, sorted, count);
    assert SliceFrom(sorted, 0) == sorted;
    assert r == Lookup(m, sorted);
    assert Lookup(m, ks) == records;
    LookupPermutation(m, sorted, ks);
    forall i | 0 <= i < |records|
      ensures records[i] in r
    {
      assert records[i] in multiset(records);
    }
  }
}
