/**
 * Filling the post template: ten `.replace` calls in a row, each putting one
 * value in place of the first occurrence of its `$` marker.
 */
module Template {
  import opened Text
  import opened Layout

  /** The markers, in the order the job replaces them. */
  const MARKERS: seq<string> := [
    "$YESTERDAY", "$TODAY", "$NOW", "$COUNT", "$LIMIT",
    "$type_freq", "$type_pay_total", "$type_pay_avg", "$type_pay_blog", "$type_url_blog"]

  /** The replacements one after the other: marker `k` gives way to value `k`. */
  function Fill(s: string, markers: seq<string>, values: seq<string>): (r: string)
    requires |markers| == |values|
    ensures forall c :: c in r ==> c in s || exists k :: 0 <= k < |values| && c in values[k]
    decreases |markers|
  {
    if markers == [] then s
    else
      var r := Fill(Replace(s, markers[0], values[0]), markers[1..], values[1..]);
      assert forall k :: 0 <= k < |values[1..]| ==> values[1..][k] == values[k + 1];
      r
  }

  /**
   * The ten values: the window's bounds and the clock's time as ISO strings,
   * the number of posts, the configured limit, and each list of table lines
   * joined with newlines.
   */
  function Values(yesterdayIso: string, todayIso: string, nowIso: string, count: nat, limit: int, body: Body)
    : (vs: seq<string>)
    ensures |vs| == |MARKERS|
    ensures vs[3] == Decimal(count) && vs[4] == IntToString(limit)
    ensures vs[9] == Join(body.typeUrlBlog, '\n')
  {
    [yesterdayIso, todayIso, nowIso, Decimal(count), IntToString(limit),
     Join(body.typeFreq, '\n'), Join(body.typePayTotal, '\n'), Join(body.typePayAvg, '\n'),
     Join(body.typePayBlog, '\n'), Join(body.typeUrlBlog, '\n')]
  }

  /** The body of the post: the template with its markers filled. */
  function FillTemplate(
    template: string, yesterdayIso: string, todayIso: string, nowIso: string,
    count: nat, limit: int, body: Body): (text: string)
    ensures forall c :: c in text ==>
              || c in template || c in yesterdayIso || c in todayIso || c in nowIso
              || c in Decimal(count) || c in IntToString(limit)
              || c in Join(body.typeFreq, '\n') || c in Join(body.typePayTotal, '\n')
              || c in Join(body.typePayAvg, '\n') || c in Join(body.typePayBlog, '\n')
              || c in Join(body.typeUrlBlog, '\n')
  {
    Fill(template, MARKERS, Values(yesterdayIso, todayIso, nowIso, count, limit, body))
  }

  predicate Letter(c: char)
  {
    'a' <= c <= 'z' || 'A' <= c <= 'Z'
  }

  /** A marker: `$` and a letter first. */
  ghost predicate MarkerLike(m: string)
  {
    |m| >= 2 && m[0] == '$' && Letter(m[1])
  }

  /**
   * Text that can neither hold a marker nor a special replacement pattern:
   * each `$` is followed, inside the text, by a character that is no letter
   * and none of `$`, `&`, `` ` `` and `'`.
   */
  ghost predicate Inert(s: string)
  {
    forall i :: 0 <= i < |s| && s[i] == '$' ==> i + 1 < |s| && !Letter(s[i + 1]) && s[i + 1] !in "$&`'"
  }

  lemma InertAppend(a: string, b: string)
    requires Inert(a) && Inert(b)
    ensures Inert(a + b)
  {
    var s := a + b;
    forall i | 0 <= i < |s| && s[i] == '$'
      ensures i + 1 < |s| && !Letter(s[i + 1]) && s[i + 1] !in "$&`'"
    {
      if i < |a| {
        assert a[i] == '$';
        assert s[i + 1] == a[i + 1];
      } else {
        assert b[i - |a|] == '$';
        assert s[i + 1] == b[i - |a| + 1];
      }
    }
  }

  lemma InertPlain(s: string)
    requires Inert(s)
    ensures Plain(s)
  {
  }

  /** No marker can start inside an inert prefix. */
  lemma NoEarlyMarker(a: string, m: string, b: string)
    requires Inert(a)
    requires MarkerLike(m)
    ensures forall j :: 0 <= j < |a| ==> !OccursAt(a + m + b, m, j)
  {
    var s := a + m + b;
    forall j | 0 <= j < |a|
      ensures !OccursAt(s, m, j)
    {
      if j + |m| <= |s| {
        var w := s[j..j + |m|];
        assert w[0] == s[j] && w[1] == s[j + 1];
        if s[j] == '$' {
          assert a[j] == '$';
          assert s[j + 1] == a[j + 1];
        }
      }
    }
  }

  /** `m0 t0 m1 t1 ...`: markers, each followed by its stretch of template text. */
  function Interleave(ms: seq<string>, ts: seq<string>): string
    requires |ms| == |ts|
  {
    if ms == [] then "" else ms[0] + ts[0] + Interleave(ms[1..], ts[1..])
  }

  /** One replacement: a marker right after inert text gives way to an inert value. */
  lemma ReplaceStep(p: string, m: string, rest: string, v: string)
    requires Inert(p) && Inert(v)
    requires MarkerLike(m)
    ensures Replace(p + m + rest, m, v) == p + v + rest
  {
    NoEarlyMarker(p, m, rest);
    ReplaceAt(p, m, rest, v);
    InertPlain(v);
    SubstitutionPlain(v, m, p, rest);
  }

  /**
   * When every marker occurs once, in replacement order, and neither the
   * template text nor the values can be mistaken for a marker or a special
   * pattern, filling puts each value exactly where its marker stood.
   */
  lemma {:induction false} FillInOrder(p: string, ms: seq<string>, vs: seq<string>, ts: seq<string>)
    requires |ms| == |vs| == |ts|
    requires Inert(p)
    requires forall k :: 0 <= k < |ms| ==> MarkerLike(ms[k])
    requires forall k :: 0 <= k < |ms| ==> Inert(vs[k]) && Inert(ts[k])
    ensures Fill(p + Interleave(ms, ts), ms, vs) == p + Interleave(vs, ts)
    decreases |ms|
  {
    if ms == [] {
      assert p + "" == p;
    } else {
      FillFirst(p, ms, vs, ts);
      InertAppend(p, vs[0]);
      InertAppend(p + vs[0], ts[0]);
      FillInOrder(p + vs[0] + ts[0], ms[1..], vs[1..], ts[1..]);
      InterleaveFirst(p, vs, ts);
    }
  }

  /** The first replacement of `FillInOrder`: the rest of the filling starts after the first value. */
  lemma FillFirst(p: string, ms: seq<string>, vs: seq<string>, ts: seq<string>)
    requires |ms| == |vs| == |ts| > 0
    requires Inert(p) && Inert(vs[0])
    requires MarkerLike(ms[0])
    ensures Fill(p + Interleave(ms, ts), ms, vs)
            == Fill(p + vs[0] + ts[0] + Interleave(ms[1..], ts[1..]), ms[1..], vs[1..])
  {
    var tail := Interleave(ms[1..], ts[1..]);
    var s := p + Interleave(ms, ts);
    assert Interleave(ms, ts) == ms[0] + ts[0] + tail;
    assert s == p + ms[0] + (ts[0] + tail);
    ReplaceStep(p, ms[0], ts[0] + tail, vs[0]);
    var s' := Replace(s, ms[0], vs[0]);
    assert Fill(s, ms, vs) == Fill(s', ms[1..], vs[1..]);
    assert s' == p + vs[0] + ts[0] + tail;
  }

  lemma InterleaveFirst(p: string, vs: seq<string>, ts: seq<string>)
    requires |vs| == |ts| > 0
    ensures p + vs[0] + ts[0] + Interleave(vs[1..], ts[1..]) == p + Interleave(vs, ts)
  {
  }

  /** A template without any `$` is published as it is. */
  lemma {:induction false} FillNoMarkers(s: string, ms: seq<string>, vs: seq<string>)
    requires |ms| == |vs|
    requires '$' !in s
    requires forall k :: 0 <= k < |ms| ==> MarkerLike(ms[k])
    ensures Fill(s, ms, vs) == s
  {
    if ms != [] {
      forall j | 0 <= j <= |s|
        ensures !OccursAt(s, ms[0], j)
      {
        if j + |ms[0]| <= |s| {
          assert s[j..j + |ms[0]|][0] == s[j];
        }
      }
      ReplaceAbsent(s, ms[0], vs[0]);
      FillNoMarkers(s, ms[1..], vs[1..]);
    }
  }

  // ---------------------------------------------------------------------------
  // Markers in any order

  /**
   * A piece of the template that cannot hide an occurrence of marker `m`:
   * inert text, or another marker that neither starts `m` nor starts with
   * it and holds `$` only in front.
   */
  ghost predicate Clean(x: string, m: string)
  {
    Inert(x) || (MarkerLike(x) && '$' !in x[1..] && !(x <= m) && !(m <= x))
  }

  /** No occurrence of `m` starts inside a clean piece, whatever follows it. */
  lemma CleanPiece(x: string, m: string, r: string)
    requires Clean(x, m) && MarkerLike(m)
    ensures forall j :: 0 <= j < |x| ==> !OccursAt(x + r, m, j)
  {
    var s := x + r;
    forall j | 0 <= j < |x|
      ensures !OccursAt(s, m, j)
    {
      if j + |m| <= |s| {
        var w := s[j..j + |m|];
        assert w[0] == s[j] && w[1] == s[j + 1];
        if Inert(x) {
          if s[j] == '$' {
            assert x[j] == '$';
            assert s[j + 1] == x[j + 1];
          }
        } else if j > 0 {
          assert x[1..][j - 1] == x[j] == s[j];
        } else if |m| <= |x| {
          assert w == x[..|m|];
        } else {
          assert w[..|x|] == x;
        }
      }
    }
  }

  /** Pieces with no occurrence of `m` starting inside them concatenate into such a piece. */
  lemma NoOccurrenceConcat(x: string, y: string, m: string, r: string)
    requires forall j :: 0 <= j < |x| ==> !OccursAt(x + (y + r), m, j)
    requires forall j :: 0 <= j < |y| ==> !OccursAt(y + r, m, j)
    ensures forall j :: 0 <= j < |x + y| ==> !OccursAt(x + y + r, m, j)
  {
    var s := x + (y + r);
    assert x + y + r == s;
    forall j | |x| <= j < |x + y|
      ensures !OccursAt(s, m, j)
    {
      assert !OccursAt(y + r, m, j - |x|);
      if j + |m| <= |s| {
        assert s[j..j + |m|] == (y + r)[j - |x|..j - |x| + |m|];
      }
    }
  }

  /** No occurrence of `m` starts inside markers and text that are all clean for it. */
  lemma {:induction false} InterleaveClean(sl: seq<string>, ts: seq<string>, m: string, r: string)
    requires |sl| == |ts|
    requires MarkerLike(m)
    requires forall k :: 0 <= k < |sl| ==> Clean(sl[k], m) && Inert(ts[k])
    ensures forall j :: 0 <= j < |Interleave(sl, ts)| ==> !OccursAt(Interleave(sl, ts) + r, m, j)
    decreases |sl|
  {
    if sl != [] {
      var rest := Interleave(sl[1..], ts[1..]);
      InterleaveClean(sl[1..], ts[1..], m, r);
      CleanPiece(ts[0], m, rest + r);
      NoOccurrenceConcat(ts[0], rest, m, r);
      CleanPiece(sl[0], m, ts[0] + rest + r);
      NoOccurrenceConcat(sl[0], ts[0] + rest, m, r);
      assert Interleave(sl, ts) == sl[0] + (ts[0] + rest);
    }
  }

  /** Slot `i` of an interleaving, with what comes before and after it. */
  lemma {:induction false} InterleaveSplit(sl: seq<string>, ts: seq<string>, i: nat)
    requires |sl| == |ts| && i < |sl|
    ensures Interleave(sl, ts)
            == Interleave(sl[..i], ts[..i]) + sl[i] + ts[i] + Interleave(sl[i + 1..], ts[i + 1..])
    decreases i
  {
    if i > 0 {
      InterleaveSplit(sl[1..], ts[1..], i - 1);
      assert sl[..i][1..] == sl[1..][..i - 1] && ts[..i][1..] == ts[1..][..i - 1];
      assert sl[1..][i - 1] == sl[i] && ts[1..][i - 1] == ts[i];
      assert sl[1..][i..] == sl[i + 1..] && ts[1..][i..] == ts[i + 1..];
    }
  }

  /**
   * One replacement: when the marker stands in slot `i` and every other slot
   * is clean for it, only that slot changes, to the (inert) value.
   */
  lemma ReplaceSlot(head: string, sl: seq<string>, ts: seq<string>, i: nat, v: string)
    requires |sl| == |ts| && i < |sl|
    requires MarkerLike(sl[i]) && Inert(head) && Inert(v)
    requires forall k :: 0 <= k < |sl| ==> Inert(ts[k])
    requires forall k :: 0 <= k < |sl| && k != i ==> Clean(sl[k], sl[i])
    ensures Replace(head + Interleave(sl, ts), sl[i], v) == head + Interleave(sl[i := v], ts)
  {
    var m := sl[i];
    var a := head + Interleave(sl[..i], ts[..i]);
    var b := ts[i] + Interleave(sl[i + 1..], ts[i + 1..]);
    SlotAround(head, sl, ts, i, v);
    NoEarlySlot(head, sl, ts, i, b);
    ReplaceAt(a, m, b, v);
    InertPlain(v);
    SubstitutionPlain(v, m, a, b);
  }

  /** The template around slot `i`, before and after its marker gives way to `v`. */
  lemma SlotAround(head: string, sl: seq<string>, ts: seq<string>, i: nat, v: string)
    requires |sl| == |ts| && i < |sl|
    ensures head + Interleave(sl, ts)
            == head + Interleave(sl[..i], ts[..i]) + sl[i] + (ts[i] + Interleave(sl[i + 1..], ts[i + 1..]))
    ensures head + Interleave(sl[i := v], ts)
            == head + Interleave(sl[..i], ts[..i]) + v + (ts[i] + Interleave(sl[i + 1..], ts[i + 1..]))
  {
    InterleaveSplit(sl, ts, i);
    InterleaveSplit(sl[i := v], ts, i);
    assert sl[i := v][..i] == sl[..i] && sl[i := v][i + 1..] == sl[i + 1..];
  }

  /** The marker in slot `i` does not occur before that slot. */
  lemma NoEarlySlot(head: string, sl: seq<string>, ts: seq<string>, i: nat, b: string)
    requires |sl| == |ts| && i < |sl|
    requires MarkerLike(sl[i]) && Inert(head)
    requires forall k :: 0 <= k < |sl| ==> Inert(ts[k])
    requires forall k :: 0 <= k < |sl| && k != i ==> Clean(sl[k], sl[i])
    ensures var a := head + Interleave(sl[..i], ts[..i]);
            forall j :: 0 <= j < |a| ==> !OccursAt(a + sl[i] + b, sl[i], j)
  {
    var m, a := sl[i], Interleave(sl[..i], ts[..i]);
    InterleaveClean(sl[..i], ts[..i], m, m + b);
    CleanPiece(head, m, a + (m + b));
    NoOccurrenceConcat(head, a, m, m + b);
    assert head + a + (m + b) == head + a + m + b;
  }

  /** `perm[j]` is the index of the marker in slot `j`: each marker stands in exactly one slot. */
  ghost predicate IsPermutation(perm: seq<nat>, n: nat)
  {
    && |perm| == n
    && (forall j :: 0 <= j < n ==> perm[j] < n)
    && (forall a, b :: 0 <= a < b < n ==> perm[a] != perm[b])
    && (forall k :: 0 <= k < n ==> k in perm)
  }

  /** No marker is a prefix of another, and each is `$`, a letter, and no further `$`. */
  ghost predicate PrefixFree(ms: seq<string>)
  {
    && (forall k :: 0 <= k < |ms| ==> MarkerLike(ms[k]) && '$' !in ms[k][1..])
    && (forall a, b :: 0 <= a < |ms| && 0 <= b < |ms| && a != b ==> !(ms[a] <= ms[b]))
  }

  /** The slots once the first `k` markers are replaced: values for those, markers for the rest. */
  ghost function Slots(ms: seq<string>, vs: seq<string>, perm: seq<nat>, k: nat): seq<string>
    requires |ms| == |vs| && IsPermutation(perm, |ms|)
  {
    seq(|perm|, j requires 0 <= j < |perm| => if perm[j] < k then vs[perm[j]] else ms[perm[j]])
  }

  /**
   * The replace chain does not depend on where the markers stand: with
   * prefix-free markers, each in one slot in any order, and inert text and
   * values, the remaining replacements put every value in its marker's slot.
   */
  lemma {:induction false} FillAnyOrder(
    head: string, ms: seq<string>, vs: seq<string>, perm: seq<nat>, ts: seq<string>, k: nat)
    requires |ms| == |vs| == |ts| && k <= |ms|
    requires IsPermutation(perm, |ms|) && PrefixFree(ms)
    requires Inert(head) && forall j :: 0 <= j < |ms| ==> Inert(vs[j]) && Inert(ts[j])
    ensures Fill(head + Interleave(Slots(ms, vs, perm, k), ts), ms[k..], vs[k..])
            == head + Interleave(Slots(ms, vs, perm, |ms|), ts)
    decreases |ms| - k
  {
    var sl := Slots(ms, vs, perm, k);
    if k < |ms| {
      assert k in perm;
      var i :| 0 <= i < |perm| && perm[i] == k;
      SlotsClean(ms, vs, perm, k, i);
      ReplaceSlot(head, sl, ts, i, vs[k]);
      SlotsNext(ms, vs, perm, k, i);
      FillStep(head + Interleave(sl, ts), ms, vs, k);
      FillAnyOrder(head, ms, vs, perm, ts, k + 1);
    }
  }

  /** The marker due next stands in slot `i`, and every other slot is clean for it. */
  lemma SlotsClean(ms: seq<string>, vs: seq<string>, perm: seq<nat>, k: nat, i: nat)
    requires |ms| == |vs| && IsPermutation(perm, |ms|) && PrefixFree(ms)
    requires forall j :: 0 <= j < |ms| ==> Inert(vs[j])
    requires i < |perm| && perm[i] == k
    ensures Slots(ms, vs, perm, k)[i] == ms[k]
    ensures forall j :: 0 <= j < |perm| && j != i ==> Clean(Slots(ms, vs, perm, k)[j], ms[k])
  {
    var sl := Slots(ms, vs, perm, k);
    forall j | 0 <= j < |perm| && j != i
      ensures Clean(sl[j], ms[k])
    {
      if perm[j] >= k {
        assert perm[j] != k;
        assert sl[j] == ms[perm[j]];
      }
    }
  }

  /** Filling slot `i`, where marker `k` stands, gives the slots after `k + 1` replacements. */
  lemma SlotsNext(ms: seq<string>, vs: seq<string>, perm: seq<nat>, k: nat, i: nat)
    requires |ms| == |vs| && IsPermutation(perm, |ms|)
    requires i < |perm| && perm[i] == k
    ensures Slots(ms, vs, perm, k)[i := vs[k]] == Slots(ms, vs, perm, k + 1)
  {
  }

  /** The chain from marker `k` on is that marker's replacement, then the chain from `k + 1`. */
  lemma FillStep(s: string, ms: seq<string>, vs: seq<string>, k: nat)
    requires |ms| == |vs| && k < |ms|
    ensures Fill(s, ms[k..], vs[k..]) == Fill(Replace(s, ms[k], vs[k]), ms[k + 1..], vs[k + 1..])
  {
    assert ms[k..][1..] == ms[k + 1..] && vs[k..][1..] == vs[k + 1..];
  }

  /**
   * The job's template, written as a head and the ten markers in any order
   * (`perm[j]` is the marker in slot `j`), each followed by its own stretch
   * of text: with inert text and inert values the post body is the head and
   * each marker's value in that marker's slot, followed by the same text.
   */
  lemma TemplateFilled(
    head: string, perm: seq<nat>, ts: seq<string>, yesterdayIso: string, todayIso: string, nowIso: string,
    count: nat, limit: int, body: Body)
    requires |ts| == |MARKERS| && IsPermutation(perm, |MARKERS|)
    requires Inert(head) && forall k :: 0 <= k < |ts| ==> Inert(ts[k])
    requires forall k :: 0 <= k < |MARKERS| ==> Inert(Values(yesterdayIso, todayIso, nowIso, count, limit, body)[k])
    ensures FillTemplate(head + Interleave(seq(|perm|, j requires 0 <= j < |perm| => MARKERS[perm[j]]), ts),
                         yesterdayIso, todayIso, nowIso, count, limit, body)
            == head + Interleave(seq(|perm|, j requires 0 <= j < |perm| =>
                                       Values(yesterdayIso, todayIso, nowIso, count, limit, body)[perm[j]]), ts)
  {
    var vs := Values(yesterdayIso, todayIso, nowIso, count, limit, body);
    MarkersPrefixFree();
    FillAnyOrder(head, MARKERS, vs, perm, ts, 0);
    SlotsEnds(MARKERS, vs, perm);
  }

  /** Before any replacement the slots hold the markers; after all of them, their values. */
  lemma SlotsEnds(ms: seq<string>, vs: seq<string>, perm: seq<nat>)
    requires |ms| == |vs| && IsPermutation(perm, |ms|)
    ensures ms[0..] == ms && vs[0..] == vs
    ensures Slots(ms, vs, perm, 0) == seq(|perm|, j requires 0 <= j < |perm| => ms[perm[j]])
    ensures Slots(ms, vs, perm, |ms|) == seq(|perm|, j requires 0 <= j < |perm| => vs[perm[j]])
  {
  }

  /** The job's markers are prefix-free, and each holds `$` only in front. */
  lemma MarkersPrefixFree()
    ensures PrefixFree(MARKERS)
  {
    MarkersLike();
    forall k | 0 <= k < |MARKERS|
      ensures '$' !in MARKERS[k][1..]
    {
      MarkerOneDollar(k);
    }
    forall a, b | 0 <= a < |MARKERS| && 0 <= b < |MARKERS| && a != b
      ensures !(MARKERS[a] <= MARKERS[b])
    {
      MarkersApart(a, b);
    }
  }

  lemma MarkerOneDollar(k: nat)
    requires k < |MARKERS|
    ensures '$' !in MARKERS[k][1..]
  {
    var m := MARKERS[k];
    forall i | 1 <= i < |m|
      ensures m[i] != '$'
    {
    }
    assert forall i :: 0 <= i < |m[1..]| ==> m[1..][i] == m[i + 1];
  }

  /**
   * Two of the job's markers part at index 1 (a capitalised one against any
   * other), index 6 (`$type_freq` and `$type_url_blog` against the rest of
   * their family) or index 10 (the three `$type_pay_` markers).
   */
  lemma MarkersApart(a: nat, b: nat)
    requires a < |MARKERS| && b < |MARKERS| && a != b
    ensures !(MARKERS[a] <= MARKERS[b])
  {
    var x, y := MARKERS[a], MARKERS[b];
    if a < 5 || b < 5 {
      assert x[1] != y[1];
    } else if a == 5 || b == 5 || a == 9 || b == 9 {
      assert x[6] != y[6];
    } else {
      assert x[10] != y[10];
    }
  }

  /** Each of the job's markers is `$` and a letter. */
  lemma MarkersLike()
    ensures forall k :: 0 <= k < |MARKERS| ==> MarkerLike(MARKERS[k])
  {
    forall k | 0 <= k < |MARKERS|
      ensures MarkerLike(MARKERS[k])
    {
      assert MARKERS[k][0] == '$' && Letter(MARKERS[k][1]);
    }
  }

  /**
   * A value may steal a later marker: when the first value itself holds the
   * second marker, the second replacement lands inside the first value and
   * the template's own second marker stays.
   */
  lemma MarkerCaptured()
    ensures Fill("$A $B", ["$A", "$B"], ["$B", "x"]) == "x $B"
  {
    CaptureFirst();
    CaptureSecond();
    var ms, vs := ["$A", "$B"], ["$B", "x"];
    assert ms[1..] == ["$B"] && vs[1..] == ["x"];
    assert Fill("$A $B", ms, vs) == Fill("$B $B", ["$B"], ["x"]);
    assert ["$B"][1..] == [] && ["x"][1..] == [];
  }

  lemma CaptureFirst()
    ensures Replace("$A $B", "$A", "$B") == "$B $B"
  {
    ReplaceAt("", "$A", " $B", "$B");
    assert "" + "$A" + " $B" == "$A $B";
    assert "$B"[1..] == "B";
    assert "B"[1..] == [];
    assert Substitution("$B", "$A", "", " $B") == "$B";
  }

  lemma CaptureSecond()
    ensures Replace("$B $B", "$B", "x") == "x $B"
  {
    ReplaceAt("", "$B", " $B", "x");
    assert "" + "$B" + " $B" == "$B $B";
    assert "x"[1..] == [];
    assert Substitution("x", "$B", "", " $B") == "x";
  }
}
