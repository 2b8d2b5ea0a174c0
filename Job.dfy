/**
 * The whole run of the report job: the day window, the paged collection of
 * the day's posts, the analysis, the statistics, the tables and the filled
 * template, with the three ways a run can end.
 */
module Job {
  import opened Text
  import opened Records
  import opened Window
  import opened Paginator
  import opened Ranker
  import opened Aggregator
  import opened Statistics
  import opened Layout
  import opened Template

  /**
   * The settings the job reads: `days_before`, `count` (how many top posts to
   * list), `title`, the `fmt_width_*` widths, and the template's text.
   */
  datatype Options = Options(daysBefore: int, count: int, title: string, widths: Widths, template: string)

  /**
   * The library and runtime functions the job calls: the natural-order sort,
   * `parseFloat`, number-to-string conversion, the rounded money format, and
   * `toISOString` of an instant.
   */
  datatype Host = Host(
    sort: seq<string> -> seq<string>,
    parse: string -> real,
    show: real -> string,
    money: real -> string,
    iso: int -> string)

  /** Whatever the sort does to the order, it keeps the elements. */
  ghost predicate Permuting(sort: seq<string> -> seq<string>)
  {
    forall ks :: multiset(sort(ks)) == multiset(ks)
  }

  datatype Outcome =
    /** The pages ran out while the feed was still inside the window. */
    | Unfinished
    /** The window holds no post: only `{count: 0}` is logged. */
    | NoPosts
    /** The post to publish: its title, its tables and its filled body. */
    | Report(count: nat, title: string, body: Body, text: string)

  /** The report's title: the configured prefix and the date part of the clock's ISO time. */
  function Title(prefix: string, nowIso: string): (t: string)
    ensures |t| >= |prefix| && t[..|prefix|] == prefix
    ensures t[|prefix|..] <= nowIso && 'T' !in t[|prefix|..]
    ensures |t| - |prefix| < |nowIso| ==> nowIso[|t| - |prefix|] == 'T'
  {
    var date := Split(nowIso, 'T')[0];
    SplitHead(nowIso, 'T');
    assert (prefix + date)[..|prefix|] == prefix && (prefix + date)[|prefix|..] == date;
    prefix + date
  }

  /**
   * The statistics of the window's posts `blogs`: the posts stored under the
   * last `count` keys of the host's sort of the payout keys, and the types in order of first occurrence with their exact counts,
   * totals and averages, each ranked by the host's sort.
   */
  ghost function StatsOf(opts: Options, host: Host, blogs: seq<Post>): (st: Stats)
    requires Permuting(host.sort)
    ensures st.count == |blogs|
    ensures st.blogs == TopBlogs(blogs, host.sort(Assign(blogs).1), opts.count)
    ensures |st.typeFreq| == |st.typePayTotal| == |st.typePayAvg| == |Kinds(blogs)|
  {
    var types, order := TypeStatsOf(blogs, host.parse), KindsInOrder(blogs);
    KindsInOrderFirst(blogs);
    DistinctSize(order, Kinds(blogs));
    Statistics.Statistics(|blogs|, TopBlogs(blogs, host.sort(Assign(blogs).1), opts.count), types, order, host.show,
                          host.sort(CompositeKeys(FreqMetrics(types, order), order)),
                          host.sort(CompositeKeys(TotalMetrics(types, order, host.show), order)),
                          host.sort(CompositeKeys(AvgMetrics(types, order, host.show), order)))
  }

  /**
   * What the report says about the window's posts `blogs`: their number, the
   * title, the template filled with the window's bounds, the clock's ISO
   * time, the number of posts, the configured count and the tables; the three
   * type tables of `StatsOf`, one row per two types; and the posts stored
   * under the last `count` keys of the host's sort of the payout keys,
   * listed last first.
   */
  ghost predicate Describes(out: Outcome, opts: Options, host: Host, w: Window, nowIso: string, blogs: seq<Post>)
    requires Permuting(host.sort)
  {
    var st := StatsOf(opts, host, blogs);
    && out.Report?
    && out.count == |blogs|
    && out.title == Title(opts.title, nowIso)
    && out.text == FillTemplate(opts.template, host.iso(w.yesterday), host.iso(w.today), nowIso,
                                out.count, opts.count, out.body)
    && out.body.typeFreq == TypeTable(st.typeFreq, FreqTable, opts.widths, host.parse, host.money)
    && out.body.typePayTotal == TypeTable(st.typePayTotal, TotalTable, opts.widths, host.parse, host.money)
    && out.body.typePayAvg == TypeTable(st.typePayAvg, AvgTable, opts.widths, host.parse, host.money)
    && |out.body.typeFreq| == |out.body.typePayTotal| == |out.body.typePayAvg| == (|Kinds(blogs)| + 1) / 2
    && ListsBlogs(out.body, st.blogs, opts.widths, host.parse, host.money)
  }

  /**
   * `analyzeData`, `statistics` and `prepareBlog` on the collected posts:
   * sort the payout keys with the host's sort and keep the posts under the
   * last `count` of them, tally the types, rank the types three ways, lay
   * out the tables and fill the template.
   */
  method Analyze(opts: Options, host: Host, w: Window, nowIso: string, blogs: seq<Post>) returns (out: Outcome)
    requires Permuting(host.sort)
    ensures Describes(out, opts, host, w, nowIso, blogs)
  {
    var m, keys := Disambiguate(blogs);
    assert keys == Assign(blogs).1;
    var top := TopBlogs(blogs, host.sort(keys), opts.count);
    var types, order := AnalyzeTypes(blogs, host.parse);
    DistinctSize(order, Kinds(blogs));
    var byFreq := host.sort(CompositeKeys(FreqMetrics(types, order), order));
    var byTotal := host.sort(CompositeKeys(TotalMetrics(types, order, host.show), order));
    var byAvg := host.sort(CompositeKeys(AvgMetrics(types, order, host.show), order));
    var st := Statistics.Statistics(|blogs|, top, types, order, host.show, byFreq, byTotal, byAvg);
    assert st == StatsOf(opts, host, blogs);
    var body := PrepareBody(st, opts.widths, host.parse, host.money);
    var text := FillTemplate(opts.template, host.iso(w.yesterday), host.iso(w.today), nowIso,
                             |blogs|, opts.count, body);
    out := Report(|blogs|, Title(opts.title, nowIso), body, text);
  }

  /**
   * One run from the clock reading `now` (and its later ISO reading
   * `nowIso`) over the feed's pages: collect the window's posts page by page;
   * with none, stop; otherwise report on them. `fetched` is how many pages
   * were requested.
   */
  method RunJob(opts: Options, host: Host, now: int, nowIso: string, pages: seq<seq<Post>>)
    returns (out: Outcome, fetched: nat)
    requires Permuting(host.sort)
    ensures fetched <= |pages|
    ensures forall k :: 0 <= k < fetched - 1 ==> Continues(DayWindow(now, opts.daysBefore), now, pages[k])
    ensures out.Unfinished? <==> forall k :: 0 <= k < |pages| ==> Continues(DayWindow(now, opts.daysBefore), now, pages[k])
    ensures out.Unfinished? ==> fetched == |pages|
    ensures !out.Unfinished? ==> 0 < fetched && !Continues(DayWindow(now, opts.daysBefore), now, pages[fetched - 1])
    ensures out.NoPosts? <==>
              !out.Unfinished? && InWindow(DayWindow(now, opts.daysBefore), Flatten(pages[..fetched])) == []
    ensures out.Report? ==>
              var blogs := InWindow(DayWindow(now, opts.daysBefore), Flatten(pages[..fetched]));
              blogs != [] && Describes(out, opts, host, DayWindow(now, opts.daysBefore), nowIso, blogs)
  {
    var w := DayWindow(now, opts.daysBefore);
    var blogs, skip, stopped;
    blogs, skip, fetched, stopped := CollectDay(w, now, pages);
    if !stopped {
      assert forall k :: 0 <= k < |pages| ==> Continues(w, now, pages[k]);
      return Unfinished, fetched;
    }
    if blogs == [] {
      return NoPosts, fetched;
    }
    out := Analyze(opts, host, w, nowIso, blogs);
  }
}
