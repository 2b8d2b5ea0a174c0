/**
 * The three ranked type lists: for each type a composite key
 * `metric + '/' + type` is built, the keys are sorted as text by the
 * `alphanum-sort` library, and each sorted key is split back on `'/'`.
 */
module Statistics {
  import opened Text
  import opened Records
  import opened Aggregator

  /** One ranked row, the first two pieces of `key.split('/')`. */
  datatype Entry = Entry(value: string, kind: string)

  /** The `['', '']` row that evens out an odd-length list. */
  const BLANK: Entry := Entry("", "")

  function CompositeKey(metric: string, kind: string): string
  {
    metric + "/" + kind
  }

  /** `key.split('/')`, read as value and kind. */
  function EntryOf(key: string): Entry
    requires '/' in key
  {
    CountCharPositive(key, '/');
    var parts := Split(key, '/');
    Entry(parts[0], parts[1])
  }

  /** A key built from a slash-free metric and kind splits back into them. */
  lemma EntryOfKey(metric: string, kind: string)
    requires '/' !in metric && '/' !in kind
    ensures '/' in CompositeKey(metric, kind)
    ensures EntryOf(CompositeKey(metric, kind)) == Entry(metric, kind)
  {
    var key := CompositeKey(metric, kind);
    assert key[|metric|] == '/';
    assert Join([metric, kind], '/') == key;
    SplitJoin([metric, kind], '/');
  }

  /** A kind holding `'/'` comes back cut at its first slash. */
  lemma EntryOfSlashedLabel(metric: string, kind: string)
    requires '/' !in metric
    ensures '/' in CompositeKey(metric, kind)
    ensures EntryOf(CompositeKey(metric, kind)) == Entry(metric, Split(kind, '/')[0])
  {
    var key := CompositeKey(metric, kind);
    assert key[|metric|] == '/';
    assert key == metric + ("/" + kind);
    SplitPrefix(metric, "/" + kind, '/');
    assert ("/" + kind)[1..] == kind;
    assert Split("/" + kind, '/') == [""] + Split(kind, '/');
  }

  /** The composite keys of the types, in the order the types are listed. */
  function CompositeKeys(metrics: seq<string>, kinds: seq<string>): (r: seq<string>)
    requires |metrics| == |kinds|
    ensures |r| == |kinds|
  {
    if kinds == [] then []
    else [CompositeKey(metrics[0], kinds[0])] + CompositeKeys(metrics[1..], kinds[1..])
  }

  /** The rows the keys stand for. */
  function Pairs(metrics: seq<string>, kinds: seq<string>): (r: seq<Entry>)
    requires |metrics| == |kinds|
    ensures |r| == |kinds|
  {
    if kinds == [] then []
    else [Entry(metrics[0], kinds[0])] + Pairs(metrics[1..], kinds[1..])
  }

  ghost predicate Slashed(keys: seq<string>)
  {
    forall i :: 0 <= i < |keys| ==> '/' in keys[i]
  }

  /** `sorted.map(e => e.split('/'))`. */
  function Ranked(sorted: seq<string>): (r: seq<Entry>)
    requires Slashed(sorted)
    ensures |r| == |sorted|
  {
    if sorted == [] then [] else [EntryOf(sorted[0])] + Ranked(sorted[1..])
  }

  lemma {:induction false} RankedAppend(a: seq<string>, b: seq<string>)
    requires Slashed(a) && Slashed(b)
    ensures Slashed(a + b)
    ensures Ranked(a + b) == Ranked(a) + Ranked(b)
  {
    if a != [] {
      assert (a + b)[1..] == a[1..] + b;
      RankedAppend(a[1..], b);
    } else {
      assert a + b == b;
    }
  }

  /** Ranking a list is ranking it without one of its keys, plus that key's row. */
  lemma RankedRemove(pre: seq<string>, x: string, post: seq<string>)
    requires Slashed(pre) && '/' in x && Slashed(post)
    ensures Slashed(pre + [x] + post) && Slashed(pre + post)
    ensures multiset(Ranked(pre + [x] + post)) == multiset(Ranked(pre + post)) + multiset{EntryOf(x)}
  {
    var rest := [x] + post;
    assert Slashed(rest) by {
      forall i | 0 <= i < |rest| ensures '/' in rest[i] {
        if i > 0 { assert rest[i] == post[i - 1]; }
      }
    }
    assert pre + [x] + post == pre + rest;
    RankedAppend(pre, rest);
    assert rest[1..] == post;
    assert Ranked(rest) == [EntryOf(x)] + Ranked(post);
    RankedAppend(pre, post);
  }

  /** Splitting commutes with permuting: a permutation of keys gives a permutation of rows. */
  lemma {:induction false} RankedPermutation(s: seq<string>, t: seq<string>)
    requires Slashed(s) && Slashed(t)
    requires multiset(s) == multiset(t)
    ensures multiset(Ranked(s)) == multiset(Ranked(t))
    decreases |s|
  {
    if s != [] {
      assert s[0] in multiset(t);
      var k :| 0 <= k < |t| && t[k] == s[0];
      RemoveFirst(s, t, k);
      var pre, post := t[..k], t[k + 1..];
      assert Slashed(pre) by {
        forall i | 0 <= i < |pre| ensures '/' in pre[i] { assert pre[i] == t[i]; }
      }
      assert Slashed(post) by {
        forall i | 0 <= i < |post| ensures '/' in post[i] { assert post[i] == t[k + 1 + i]; }
      }
      assert t == pre + [t[k]] + post;
      RankedRemove(pre, t[k], post);
      RankedPermutation(s[1..], pre + post);
    }
  }

  lemma {:induction false} RankedKeys(metrics: seq<string>, kinds: seq<string>)
    requires |metrics| == |kinds|
    requires forall i :: 0 <= i < |kinds| ==> '/' !in metrics[i] && '/' !in kinds[i]
    ensures Slashed(CompositeKeys(metrics, kinds))
    ensures Ranked(CompositeKeys(metrics, kinds)) == Pairs(metrics, kinds)
  {
    if kinds != [] {
      EntryOfKey(metrics[0], kinds[0]);
      RankedKeys(metrics[1..], kinds[1..]);
    }
  }

  /**
   * With slash-free metrics and kinds, whatever order the sort puts the keys
   * in, the ranked list is a permutation of the (metric, type) rows: every
   * type appears once with its own metric.
   */
  lemma RankedRows(metrics: seq<string>, kinds: seq<string>, sorted: seq<string>)
    requires |metrics| == |kinds|
    requires forall i :: 0 <= i < |kinds| ==> '/' !in metrics[i] && '/' !in kinds[i]
    requires multiset(sorted) == multiset(CompositeKeys(metrics, kinds))
    ensures Slashed(sorted)
    ensures |sorted| == |kinds|
    ensures multiset(Ranked(sorted)) == multiset(Pairs(metrics, kinds))
  {
    var keys := CompositeKeys(metrics, kinds);
    RankedKeys(metrics, kinds);
    assert |sorted| == |multiset(sorted)| == |keys|;
    forall i | 0 <= i < |sorted|
      ensures '/' in sorted[i]
    {
      assert sorted[i] in multiset(keys);
    }
    RankedPermutation(sorted, keys);
  }

  // ---------------------------------------------------------------------------
  // The three metrics of `statistics`

  /** `types[k].freq + ''` for each listed type. */
  function FreqMetrics(types: map<string, TypeStats>, order: seq<string>): (r: seq<string>)
    requires forall t :: t in order ==> t in types
    ensures |r| == |order|
  {
    seq(|order|, i requires 0 <= i < |order| => Decimal(types[order[i]].freq))
  }

  /** `types[k].pay_total + ''`, with `show` standing for number-to-string conversion. */
  function TotalMetrics(types: map<string, TypeStats>, order: seq<string>, show: real -> string): (r: seq<string>)
    requires forall t :: t in order ==> t in types
    ensures |r| == |order|
  {
    seq(|order|, i requires 0 <= i < |order| => show(types[order[i]].payTotal))
  }

  /** `(10000 * types[k].pay_total / types[k].freq) + ''`. */
  function AvgMetrics(types: map<string, TypeStats>, order: seq<string>, show: real -> string): (r: seq<string>)
    requires forall t :: t in order ==> t in types && types[t].freq > 0
    ensures |r| == |order|
  {
    seq(|order|, i requires 0 <= i < |order| =>
      show(10000.0 * types[order[i]].payTotal / types[order[i]].freq as real))
  }

  /** What `statistics` hands on to the layout. */
  datatype Stats = Stats(
    count: nat,
    blogs: seq<Post>,
    typeFreq: seq<Entry>,
    typePayTotal: seq<Entry>,
    typePayAvg: seq<Entry>)

  ghost predicate Permutes(sorted: seq<string>, keys: seq<string>)
  {
    multiset(sorted) == multiset(keys)
  }

  /** Every composite key holds the separator, whatever its metric and type. */
  lemma {:induction false} KeysSlashed(metrics: seq<string>, kinds: seq<string>)
    requires |metrics| == |kinds|
    ensures Slashed(CompositeKeys(metrics, kinds))
  {
    if kinds != [] {
      assert CompositeKey(metrics[0], kinds[0])[|metrics[0]|] == '/';
      KeysSlashed(metrics[1..], kinds[1..]);
    }
  }

  /** A permutation of composite keys holds the separator in every key. */
  lemma PermutedSlashed(sorted: seq<string>, metrics: seq<string>, kinds: seq<string>)
    requires |metrics| == |kinds|
    requires Permutes(sorted, CompositeKeys(metrics, kinds))
    ensures Slashed(sorted)
  {
    var keys := CompositeKeys(metrics, kinds);
    KeysSlashed(metrics, kinds);
    forall i | 0 <= i < |sorted|
      ensures '/' in sorted[i]
    {
      assert sorted[i] in multiset(keys);
    }
  }

  /**
   * `statistics`: the three ranked lists, from the sort's outputs `byFreq`,
   * `byTotal` and `byAvg` over the three key lists.
   */
  function Statistics(
    count: nat, blogs: seq<Post>, types: map<string, TypeStats>, order: seq<string>,
    show: real -> string, byFreq: seq<string>, byTotal: seq<string>, byAvg: seq<string>): (st: Stats)
    requires forall t :: t in order ==> t in types && types[t].freq > 0
    requires Permutes(byFreq, CompositeKeys(FreqMetrics(types, order), order))
    requires Permutes(byTotal, CompositeKeys(TotalMetrics(types, order, show), order))
    requires Permutes(byAvg, CompositeKeys(AvgMetrics(types, order, show), order))
    ensures st.count == count && st.blogs == blogs
    ensures |st.typeFreq| == |st.typePayTotal| == |st.typePayAvg| == |order|
  {
    PermutedSlashed(byFreq, FreqMetrics(types, order), order);
    PermutedSlashed(byTotal, TotalMetrics(types, order, show), order);
    PermutedSlashed(byAvg, AvgMetrics(types, order, show), order);
    assert |byFreq| == |multiset(byFreq)| == |order|;
    assert |byTotal| == |multiset(byTotal)| == |order|;
    assert |byAvg| == |multiset(byAvg)| == |order|;
    Stats(count, blogs, Ranked(byFreq), Ranked(byTotal), Ranked(byAvg))
  }

  /**
   * Each ranked list holds one row per type, with the type's own count,
   * total or scaled average as its value, in the sort's order.
   */
  lemma StatisticsRows(
    count: nat, blogs: seq<Post>, types: map<string, TypeStats>, order: seq<string>,
    show: real -> string, byFreq: seq<string>, byTotal: seq<string>, byAvg: seq<string>)
    requires forall t :: t in order ==> t in types && types[t].freq > 0 && '/' !in t
    requires forall x :: '/' !in show(x)
    requires Permutes(byFreq, CompositeKeys(FreqMetrics(types, order), order))
    requires Permutes(byTotal, CompositeKeys(TotalMetrics(types, order, show), order))
    requires Permutes(byAvg, CompositeKeys(AvgMetrics(types, order, show), order))
    ensures var st := Statistics(count, blogs, types, order, show, byFreq, byTotal, byAvg);
            && multiset(st.typeFreq) == multiset(Pairs(FreqMetrics(types, order), order))
            && multiset(st.typePayTotal) == multiset(Pairs(TotalMetrics(types, order, show), order))
            && multiset(st.typePayAvg) == multiset(Pairs(AvgMetrics(types, order, show), order))
  {
    RankedRows(FreqMetrics(types, order), order, byFreq);
    RankedRows(TotalMetrics(types, order, show), order, byTotal);
    RankedRows(AvgMetrics(types, order, show), order, byAvg);
  }
}
