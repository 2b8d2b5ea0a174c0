/**
 * Grouping the day's posts by type: how many posts of each type, their total
 * payout, and the average payout per post.
 */
module Aggregator {
  import opened Text
  import opened Records

  /** A type's tally while the posts are being counted. */
  datatype Tally = Tally(freq: nat, payTotal: real)

  /** A type's figures once the averages are filled in. */
  datatype TypeStats = TypeStats(freq: nat, payTotal: real, payAvg: real)

  /**
   * The payout amount of a post: `parse` (standing for `parseFloat`) applied
   * to the text before the first space of the payout, "1.000" of "1.000 SBD".
   */
  function Amount(p: Post, parse: string -> real): real
  {
    parse(Split(p.payout, ' ')[0])
  }

  /** The currency text after the first space plays no part in the amount. */
  lemma AmountOfPayout(p: Post, parse: string -> real, number: string, currency: string)
    requires p.payout == number + " " + currency || (p.payout == number && currency == "")
    requires ' ' !in number
    ensures Amount(p, parse) == parse(number)
  {
    if p.payout == number + " " + currency {
      SplitFirst(number, ' ', " " + currency);
      assert number + (" " + currency) == p.payout;
    } else {
      SplitFirst(number, ' ', "");
      assert number + "" == p.payout;
    }
  }

  /** The types occurring among the posts. */
  function Kinds(s: seq<Post>): set<string>
  {
    if s == [] then {} else Kinds(s[..|s| - 1]) + {s[|s| - 1].kind}
  }

  /** The number of posts of type `t`. */
  function Freq(s: seq<Post>, t: string): nat
  {
    if s == [] then 0 else Freq(s[..|s| - 1], t) + (if s[|s| - 1].kind == t then 1 else 0)
  }

  /** The summed payout amounts of the posts of type `t`. */
  function PayTotal(s: seq<Post>, t: string, parse: string -> real): real
  {
    if s == [] then 0.0
    else PayTotal(s[..|s| - 1], t, parse) + (if s[|s| - 1].kind == t then Amount(s[|s| - 1], parse) else 0.0)
  }

  /** A type occurs among the posts exactly when it has a positive count. */
  lemma {:induction false} FreqPositive(s: seq<Post>, t: string)
    ensures Freq(s, t) > 0 <==> t in Kinds(s)
    decreases |s|
  {
    if s != [] {
      FreqPositive(s[..|s| - 1], t);
    }
  }

  /** The position of the first post of type `t`, or `|s|` when there is none. */
  function FirstAt(s: seq<Post>, t: string): nat
  {
    if s == [] then 0 else if s[0].kind == t then 0 else 1 + FirstAt(s[1..], t)
  }

  /** `FirstAt` finds the first post of the type, and only runs off the end when there is none. */
  lemma {:induction false} FirstAtIsFirst(s: seq<Post>, t: string)
    ensures FirstAt(s, t) <= |s|
    ensures FirstAt(s, t) < |s| <==> t in Kinds(s)
    ensures FirstAt(s, t) < |s| ==> s[FirstAt(s, t)].kind == t
    ensures forall j :: 0 <= j < FirstAt(s, t) ==> s[j].kind != t
    decreases |s|
  {
    if s != [] {
      FirstAtIsFirst(s[1..], t);
      KindsCons(s);
      if s[0].kind != t {
        forall j | 0 <= j < FirstAt(s, t)
          ensures s[j].kind != t
        {
          if j > 0 {
            assert s[j] == s[1..][j - 1];
          }
        }
      }
    }
  }

  /** The kinds seen from the front: the first post's type and those of the rest. */
  lemma {:induction false} KindsCons(s: seq<Post>)
    requires s != []
    ensures Kinds(s) == {s[0].kind} + Kinds(s[1..])
    decreases |s|
  {
    if |s| > 1 {
      var init := s[..|s| - 1];
      KindsCons(init);
      assert init[1..] == s[1..][..|s[1..]| - 1];
      assert init[0] == s[0];
    } else {
      assert s[..0] == [] && s[1..] == [];
    }
  }

  /** One more post at the end leaves the first position of every type already seen. */
  lemma {:induction false} FirstAtSnoc(init: seq<Post>, p: Post, t: string)
    ensures FirstAt(init + [p], t)
            == if FirstAt(init, t) < |init| then FirstAt(init, t) else if p.kind == t then |init| else |init| + 1
    decreases |init|
  {
    FirstAtIsFirst(init, t);
    if init != [] {
      assert (init + [p])[1..] == init[1..] + [p];
      FirstAtSnoc(init[1..], p, t);
    }
  }

  /** The types in the order they are first met: `Object.keys` of the tally. */
  function KindsInOrder(s: seq<Post>): seq<string>
  {
    if s == [] then []
    else
      var init, k := s[..|s| - 1], s[|s| - 1].kind;
      if k in Kinds(init) then KindsInOrder(init) else KindsInOrder(init) + [k]
  }

  /**
   * Each type is listed once, exactly the types that occur are listed, and
   * a type is listed before another exactly when its first post comes first.
   */
  lemma {:induction false} KindsInOrderFirst(s: seq<Post>)
    ensures Distinct(KindsInOrder(s))
    ensures forall t :: t in KindsInOrder(s) <==> t in Kinds(s)
    ensures forall a, b :: 0 <= a < b < |KindsInOrder(s)| ==>
              FirstAt(s, KindsInOrder(s)[a]) < FirstAt(s, KindsInOrder(s)[b])
    decreases |s|
  {
    if s != [] {
      var init, p := s[..|s| - 1], s[|s| - 1];
      assert s == init + [p];
      KindsInOrderFirst(init);
      var ko := KindsInOrder(init);
      forall t | t in ko
        ensures FirstAt(s, t) == FirstAt(init, t) < |init|
      {
        FirstAtIsFirst(init, t);
        FirstAtSnoc(init, p, t);
      }
      if p.kind !in Kinds(init) {
        FirstAtIsFirst(init, p.kind);
        FirstAtSnoc(init, p, p.kind);
        assert KindsInOrder(s) == ko + [p.kind];
        forall a, b | 0 <= a < b < |ko| + 1
          ensures FirstAt(s, (ko + [p.kind])[a]) < FirstAt(s, (ko + [p.kind])[b])
        {
          assert (ko + [p.kind])[a] == ko[a];
          if b < |ko| {
            assert (ko + [p.kind])[b] == ko[b];
          }
        }
      }
    }
  }

  ghost predicate Distinct(ts: seq<string>)
  {
    forall i, j :: 0 <= i < j < |ts| ==> ts[i] != ts[j]
  }

  /** A list without repeats is as long as the set of what it lists. */
  lemma {:induction false} DistinctSize(ts: seq<string>, kinds: set<string>)
    requires Distinct(ts)
    requires forall t :: t in ts <==> t in kinds
    ensures |ts| == |kinds|
  {
    if ts != [] {
      var rest := kinds - {ts[0]};
      forall t
        ensures t in ts[1..] <==> t in rest
      {
        if t in ts[1..] {
          var i :| 0 <= i < |ts[1..]| && ts[1..][i] == t;
          assert ts[i + 1] == t;
        }
        if t in rest {
          var i :| 0 <= i < |ts| && ts[i] == t;
          assert i != 0;
          assert ts[1..][i - 1] == t;
        }
      }
      DistinctSize(ts[1..], rest);
    } else {
      assert forall t :: t !in kinds;
      assert kinds == {};
    }
  }

  /** The counts of the types `ts`, added up. */
  function SumFreq(s: seq<Post>, ts: seq<string>): nat
  {
    if ts == [] then 0 else Freq(s, ts[0]) + SumFreq(s, ts[1..])
  }

  /** How often `x` is listed in `ts`. */
  function Occurrences(ts: seq<string>, x: string): nat
  {
    if ts == [] then 0 else (if ts[0] == x then 1 else 0) + Occurrences(ts[1..], x)
  }

  lemma {:induction false} OccursOnce(ts: seq<string>, x: string)
    requires Distinct(ts)
    requires x in ts
    ensures Occurrences(ts, x) == 1
  {
    if ts[0] == x {
      OccursNot(ts[1..], x);
    } else {
      OccursOnce(ts[1..], x);
    }
  }

  lemma {:induction false} OccursNot(ts: seq<string>, x: string)
    requires x !in ts
    ensures Occurrences(ts, x) == 0
  {
    if ts != [] {
      OccursNot(ts[1..], x);
    }
  }

  lemma {:induction false} SumFreqSnoc(s: seq<Post>, p: Post, ts: seq<string>)
    ensures SumFreq(s + [p], ts) == SumFreq(s, ts) + Occurrences(ts, p.kind)
  {
    assert (s + [p])[..|s|] == s;
    if ts != [] {
      SumFreqSnoc(s, p, ts[1..]);
    }
  }

  /**
   * Every post is counted once: over a list of distinct types that covers all
   * the posts' types, the counts add up to the number of posts.
   */
  lemma {:induction false} SumFreqIsCount(s: seq<Post>, ts: seq<string>)
    requires Distinct(ts)
    requires forall t :: t in Kinds(s) ==> t in ts
    ensures SumFreq(s, ts) == |s|
    decreases |s|
  {
    if s == [] {
      ZeroFreq(ts);
    } else {
      var init, last := s[..|s| - 1], s[|s| - 1];
      assert s == init + [last];
      SumFreqIsCount(init, ts);
      SumFreqSnoc(init, last, ts);
      OccursOnce(ts, last.kind);
    }
  }

  lemma {:induction false} ZeroFreq(ts: seq<string>)
    ensures SumFreq([], ts) == 0
  {
    if ts != [] {
      ZeroFreq(ts[1..]);
    }
  }

  /**
   * The tally and the first-seen order of the types describe the posts `s`:
   * each type met is listed once, and has its count and total.
   */
  ghost predicate Tallied(tally: map<string, Tally>, order: seq<string>, s: seq<Post>, parse: string -> real)
  {
    && Distinct(order)
    && (forall t :: t in tally <==> t in order)
    && (forall t :: t in tally <==> t in Kinds(s))
    && (forall t :: t in tally ==> tally[t].freq == Freq(s, t) && tally[t].payTotal == PayTotal(s, t, parse))
    && (forall t :: t !in tally ==> Freq(s, t) == 0 && PayTotal(s, t, parse) == 0.0)
  }

  /**
   * The first `forEach` of the type analysis: per type, one more post and its
   * amount added to the total. `order` lists the types as they are first met,
   * the order `Object.keys` gives back.
   */
  method TallyTypes(records: seq<Post>, parse: string -> real)
    returns (tally: map<string, Tally>, order: seq<string>)
    ensures order == KindsInOrder(records)
    ensures Distinct(order)
    ensures forall t :: t in tally <==> t in order
    ensures forall t :: t in tally <==> t in Kinds(records)
    ensures forall t :: t in tally ==>
              tally[t].freq == Freq(records, t) && tally[t].payTotal == PayTotal(records, t, parse)
  {
    tally, order := map[], [];
    for i := 0 to |records|
      invariant Tallied(tally, order, records[..i], parse)
      invariant order == KindsInOrder(records[..i])
    {
      assert records[..i + 1] == records[..i] + [records[i]];
      tally, order := CountPost(tally, order, records[..i], records[i], parse);
    }
    assert records[..|records|] == records;
  }

  /** The specification functions on one more post at the end. */
  lemma SnocFacts(s: seq<Post>, b: Post, parse: string -> real)
    ensures Kinds(s + [b]) == Kinds(s) + {b.kind}
    ensures KindsInOrder(s + [b]) == if b.kind in Kinds(s) then KindsInOrder(s) else KindsInOrder(s) + [b.kind]
    ensures forall t :: Freq(s + [b], t) == Freq(s, t) + (if b.kind == t then 1 else 0)
    ensures forall t :: PayTotal(s + [b], t, parse) == PayTotal(s, t, parse) + (if b.kind == t then Amount(b, parse) else 0.0)
  {
    var s' := s + [b];
    assert s'[..|s|] == s;
    assert s'[|s|] == b;
  }

  /** The body of the first `forEach`: one post counted under its type. */
  method CountPost(tally: map<string, Tally>, order: seq<string>, s: seq<Post>, b: Post, parse: string -> real)
    returns (tally': map<string, Tally>, order': seq<string>)
    requires Tallied(tally, order, s, parse) && order == KindsInOrder(s)
    ensures Tallied(tally', order', s + [b], parse) && order' == KindsInOrder(s + [b])
  {
    SnocFacts(s, b, parse);
    var k := b.kind;
    var pay := Amount(b, parse);
    if k in tally {
      tally' := tally[k := Tally(tally[k].freq + 1, tally[k].payTotal + pay)];
      order' := order;
      CountKnown(tally, order, s, b, parse);
    } else {
      tally' := tally[k := Tally(1, pay)];
      order' := order + [k];
      CountNew(tally, order, s, b, parse);
    }
  }

  /** A post of a type already met adds one to its count and its amount to its total. */
  lemma CountKnown(tally: map<string, Tally>, order: seq<string>, s: seq<Post>, b: Post, parse: string -> real)
    requires Tallied(tally, order, s, parse) && b.kind in tally
    ensures var k := b.kind;
            Tallied(tally[k := Tally(tally[k].freq + 1, tally[k].payTotal + Amount(b, parse))], order, s + [b], parse)
  {
    SnocFacts(s, b, parse);
  }

  /** A post of a new type starts its tally at one and its amount, and lists the type last. */
  lemma CountNew(tally: map<string, Tally>, order: seq<string>, s: seq<Post>, b: Post, parse: string -> real)
    requires Tallied(tally, order, s, parse) && b.kind !in tally
    ensures var k := b.kind;
            Tallied(tally[k := Tally(1, Amount(b, parse))], order + [k], s + [b], parse)
  {
    SnocFacts(s, b, parse);
  }

  /** The second `forEach`: each type's average is its total over its count. */
  method FillAverages(tally: map<string, Tally>, order: seq<string>) returns (types: map<string, TypeStats>)
    requires forall t :: t in tally <==> t in order
    requires forall t :: t in tally ==> tally[t].freq > 0
    ensures forall t :: t in types <==> t in tally
    ensures forall t :: t in types ==>
              && types[t].freq == tally[t].freq
              && types[t].payTotal == tally[t].payTotal
              && types[t].payAvg == tally[t].payTotal / tally[t].freq as real
  {
    types := map[];
    for j := 0 to |order|
      invariant forall t :: t in types <==> t in order[..j]
      invariant forall t :: t in types ==>
                  types[t] == TypeStats(tally[t].freq, tally[t].payTotal, tally[t].payTotal / tally[t].freq as real)
    {
      var k := order[j];
      var v := tally[k];
      types := types[k := TypeStats(v.freq, v.payTotal, v.payTotal / v.freq as real)];
    }
    assert order[..|order|] == order;
  }

  /** Every type that occurs has a positive count. */
  lemma FreqsPositive(s: seq<Post>)
    ensures forall t :: t in Kinds(s) ==> Freq(s, t) > 0
  {
    forall t | t in Kinds(s)
      ensures Freq(s, t) > 0
    {
      FreqPositive(s, t);
    }
  }

  /**
   * The figures of every type that occurs: its count, its summed payout
   * and their quotient.
   */
  function TypeStatsOf(s: seq<Post>, parse: string -> real): (types: map<string, TypeStats>)
    ensures forall t :: t in types <==> t in Kinds(s)
    ensures forall t :: t in types ==> types[t].freq > 0 && types[t].freq == Freq(s, t)
  {
    FreqsPositive(s);
    map t | t in Kinds(s) :: TypeStats(Freq(s, t), PayTotal(s, t, parse), PayTotal(s, t, parse) / Freq(s, t) as real)
  }

  /**
   * The type analysis of `analyzeData`: every type that occurs gets its
   * exact count, its total payout and the total divided by the count, and
   * the counts add up to the number of posts.
   */
  method AnalyzeTypes(records: seq<Post>, parse: string -> real)
    returns (types: map<string, TypeStats>, order: seq<string>)
    ensures order == KindsInOrder(records)
    ensures types == TypeStatsOf(records, parse)
    ensures Distinct(order)
    ensures forall t :: t in types <==> t in order
    ensures forall t :: t in types <==> t in Kinds(records)
    ensures forall t :: t in types ==>
              && types[t].freq == Freq(records, t) > 0
              && types[t].payTotal == PayTotal(records, t, parse)
              && types[t].payAvg == types[t].payTotal / types[t].freq as real
    ensures SumFreq(records, order) == |records|
  {
    var tally;
    tally, order := TallyTypes(records, parse);
    forall t | t in tally
      ensures tally[t].freq > 0
    {
      FreqPositive(records, t);
    }
    types := FillAverages(tally, order);
    SumFreqIsCount(records, order);
    var expected := TypeStatsOf(records, parse);
    assert forall t :: t in types <==> t in expected;
    assert forall t :: t in types ==> types[t] == expected[t];
    assert types == expected;
  }
}
