/**
 * String and sequence helpers that stand for the JavaScript built-ins the report
 * job relies on: number-to-decimal conversion, `String.prototype.replace` with a
 * string pattern, `split`/`join` on one separator character, `trim`, `reverse`,
 * and the global `'|'` escape applied to blog titles.
 */
module Text {

  datatype Option<T> = None | Some(value: T)

  /** `n` spaces. */
  function Spaces(n: nat): (r: string)
    ensures |r| == n
    ensures forall i :: 0 <= i < n ==> r[i] == ' '
  {
    if n == 0 then "" else Spaces(n - 1) + " "
  }

  lemma SpacesAdd(a: nat, b: nat)
    ensures Spaces(a + b) == Spaces(a) + Spaces(b)
  {
    assert forall i :: 0 <= i < a + b ==> Spaces(a + b)[i] == (Spaces(a) + Spaces(b))[i];
  }

  /** Number of occurrences of `c` in `s`. */
  function CountChar(s: string, c: char): nat
  {
    if s == [] then 0 else (if s[0] == c then 1 else 0) + CountChar(s[1..], c)
  }

  lemma {:induction false} CountCharPositive(s: string, c: char)
    requires c in s
    ensures CountChar(s, c) >= 1
  {
    if s[0] != c {
      assert c in s[1..];
      CountCharPositive(s[1..], c);
    }
  }

  lemma {:induction false} CountCharAppend(a: string, b: string, c: char)
    ensures CountChar(a + b, c) == CountChar(a, c) + CountChar(b, c)
  {
    if a == [] {
      assert a + b == b;
    } else {
      assert (a + b)[1..] == a[1..] + b;
      CountCharAppend(a[1..], b, c);
    }
  }

  lemma {:induction false} CountCharAbsent(s: string, c: char)
    requires c !in s
    ensures CountChar(s, c) == 0
  {
    if s != [] {
      CountCharAbsent(s[1..], c);
    }
  }

  function Digit(d: nat): (c: char)
    requires d < 10
    ensures '0' <= c <= '9'
  {
    (48 + d) as char
  }

  /** Decimal rendering of a natural number, as JavaScript's `n + ''` gives it. */
  function Decimal(n: nat): (s: string)
    ensures |s| >= 1
    ensures |s| == 1 <==> n < 10
    ensures forall i :: 0 <= i < |s| ==> '0' <= s[i] <= '9'
  {
    if n < 10 then [Digit(n)] else Decimal(n / 10) + [Digit(n % 10)]
  }

  /** Different numbers have different decimal renderings. */
  lemma {:induction false} DecimalInjective(a: nat, b: nat)
    requires Decimal(a) == Decimal(b)
    ensures a == b
    decreases a
  {
    if a < 10 {
      assert Decimal(a)[0] == Decimal(b)[0];
    } else {
      var sa, sb := Decimal(a), Decimal(b);
      assert b >= 10;
      assert sa[|sa| - 1] == sb[|sb| - 1];
      assert a % 10 == b % 10;
      assert sa[..|sa| - 1] == Decimal(a / 10);
      assert sb[..|sb| - 1] == Decimal(b / 10);
      DecimalInjective(a / 10, b / 10);
    }
  }

  /** Different numbers, different renderings: `DecimalInjective` read the other way. */
  lemma DecimalDistinct(a: nat, b: nat)
    requires a != b
    ensures Decimal(a) != Decimal(b)
  {
    if Decimal(a) == Decimal(b) {
      DecimalInjective(a, b);
    }
  }

  /** A larger number never has fewer digits. */
  lemma {:induction false} DecimalLengthMonotone(a: nat, b: nat)
    requires a <= b
    ensures |Decimal(a)| <= |Decimal(b)|
    decreases b
  {
    if a >= 10 {
      DecimalLengthMonotone(a / 10, b / 10);
    }
  }

  /** Decimal rendering of an integer, with a leading `-` when negative. */
  function IntToString(i: int): string
  {
    if i < 0 then "-" + Decimal(-i) else Decimal(i)
  }

  /** The elements of `s` in the opposite order (`Array.prototype.reverse`). */
  function Reversed<T>(s: seq<T>): seq<T>
  {
    if s == [] then [] else Reversed(s[1..]) + [s[0]]
  }

  lemma {:induction false} ReversedAt<T>(s: seq<T>, k: nat)
    requires k < |s|
    ensures |Reversed(s)| == |s|
    ensures Reversed(s)[k] == s[|s| - 1 - k]
  {
    if k < |s| - 1 {
      ReversedAt(s[1..], k);
    } else if |s| > 1 {
      ReversedAt(s[1..], 0);
    }
  }

  lemma ReversedLength<T>(s: seq<T>)
    ensures |Reversed(s)| == |s|
  {
    if s != [] {
      ReversedAt(s, 0);
    }
  }

  /** Taking the same element out of two permutations leaves two permutations. */
  lemma RemoveFirst<T>(s: seq<T>, t: seq<T>, k: nat)
    requires multiset(s) == multiset(t)
    requires s != [] && k < |t| && t[k] == s[0]
    ensures multiset(s[1..]) == multiset(t[..k] + t[k + 1..])
  {
    assert s == [s[0]] + s[1..];
    assert t == t[..k] + [t[k]] + t[k + 1..];
    assert multiset(t) == multiset(t[..k] + t[k + 1..]) + multiset{t[k]};
    assert multiset(s) == multiset(s[1..]) + multiset{s[0]};
    forall y
      ensures multiset(s[1..])[y] == multiset(t[..k] + t[k + 1..])[y]
    {
      assert multiset(s)[y] == multiset(s[1..])[y] + multiset{s[0]}[y];
      assert multiset(t)[y] == multiset(t[..k] + t[k + 1..])[y] + multiset{t[k]}[y];
    }
  }

  /** Putting an element in front of one arrangement or in the middle of another keeps them permutations. */
  lemma MoveFront<T>(x: T, r: seq<T>, a: seq<T>, b: seq<T>)
    requires multiset(r) == multiset(a + b)
    ensures multiset([x] + r) == multiset(a + [x] + b)
  {
    calc {
      multiset([x] + r);
      multiset{x} + multiset(a + b);
      multiset(a) + multiset{x} + multiset(b);
      multiset(a + [x] + b);
    }
  }

  // ---------------------------------------------------------------------------
  // String.prototype.replace with a string pattern: only the first occurrence.

  ghost predicate OccursAt(s: string, p: string, i: nat)
  {
    i + |p| <= |s| && s[i..i + |p|] == p
  }

  /** The least position at or after `k` where `p` occurs in `s`. */
  function FindFrom(s: string, p: string, k: nat): (r: Option<nat>)
    requires k <= |s|
    ensures r.Some? ==> k <= r.value && OccursAt(s, p, r.value)
    ensures r.Some? ==> forall j :: k <= j < r.value ==> !OccursAt(s, p, j)
    ensures r.None? ==> forall j :: k <= j <= |s| ==> !OccursAt(s, p, j)
    decreases |s| - k
  {
    if k + |p| <= |s| && s[k..k + |p|] == p then Some(k)
    else if k == |s| then None
    else FindFrom(s, p, k + 1)
  }

  /**
   * The text a replacement string stands for: `$$` is one `$`, `$&` the
   * matched text, `` $` `` the text before the match, `$'` the text after it;
   * every other character, `$` included, stands for itself.
   */
  function Substitution(rep: string, matched: string, before: string, after: string): (r: string)
    ensures forall c :: c in r ==> c in rep || c in matched || c in before || c in after
    ensures '$' !in rep ==> r == rep
  {
    if |rep| >= 2 && rep[0] == '$' && rep[1] in "$&`'" then
      (if rep[1] == '$' then "$"
       else if rep[1] == '&' then matched
       else if rep[1] == '`' then before
       else after)
      + Substitution(rep[2..], matched, before, after)
    else if rep == [] then []
    else [rep[0]] + Substitution(rep[1..], matched, before, after)
  }

  /** No `$` of `rep` opens one of the four special patterns. */
  ghost predicate Plain(rep: string)
  {
    forall i :: 0 <= i < |rep| - 1 && rep[i] == '$' ==> rep[i + 1] !in "$&`'"
  }

  /** A plain replacement string stands for itself. */
  lemma {:induction false} SubstitutionPlain(rep: string, matched: string, before: string, after: string)
    requires Plain(rep)
    ensures Substitution(rep, matched, before, after) == rep
  {
    if rep != [] {
      assert forall i :: 0 <= i < |rep[1..]| - 1 ==> rep[1..][i] == rep[i + 1];
      SubstitutionPlain(rep[1..], matched, before, after);
    }
  }

  /** `$&` inserts the matched text itself. */
  lemma SubstitutionMatched(matched: string, before: string, after: string)
    ensures Substitution("$&", matched, before, after) == matched
  {
    assert "$&"[2..] == [];
  }

  /**
   * `s.replace(pat, rep)`: the first occurrence of `pat`, if any, gives way
   * to what `rep` stands for.
   */
  function Replace(s: string, pat: string, rep: string): (r: string)
    ensures forall c :: c in r ==> c in s || c in rep
  {
    match FindFrom(s, pat, 0)
    case None => s
    case Some(i) => s[..i] + Substitution(rep, pat, s[..i], s[i + |pat|..]) + s[i + |pat|..]
  }

  /** A string without the pattern is left as it is. */
  lemma ReplaceAbsent(s: string, pat: string, rep: string)
    requires forall j :: 0 <= j <= |s| ==> !OccursAt(s, pat, j)
    ensures Replace(s, pat, rep) == s
  {
    var r := FindFrom(s, pat, 0);
    assert r.None?;
  }

  /**
   * When the first occurrence of `pat` starts right after `a`, exactly that
   * occurrence is replaced; later occurrences, in `b`, stay.
   */
  lemma ReplaceAt(a: string, pat: string, b: string, rep: string)
    requires forall j :: 0 <= j < |a| ==> !OccursAt(a + pat + b, pat, j)
    ensures Replace(a + pat + b, pat, rep) == a + Substitution(rep, pat, a, b) + b
  {
    var s := a + pat + b;
    assert s[|a|..|a| + |pat|] == pat;
    assert OccursAt(s, pat, |a|);
    var r := FindFrom(s, pat, 0);
    assert r.Some? && r.value == |a|;
    assert s[..|a|] == a;
    assert s[|a| + |pat|..] == b;
  }

  // ---------------------------------------------------------------------------
  // title.replace(/\|/g, '&#124;')

  /** Every `'|'` becomes the character reference `&#124;`. */
  function EscapeBars(t: string): (r: string)
    ensures '|' !in r
    ensures '|' !in t ==> r == t
    ensures |r| == |t| + 5 * CountChar(t, '|')
  {
    if t == [] then []
    else (if t[0] == '|' then "&#124;" else [t[0]]) + EscapeBars(t[1..])
  }

  // ---------------------------------------------------------------------------
  // split and join on one separator character

  /** `s.split(sep)` for a one-character separator: the pieces between separators. */
  function Split(s: string, sep: char): (parts: seq<string>)
    ensures |parts| == 1 + CountChar(s, sep)
    ensures forall i :: 0 <= i < |parts| ==> sep !in parts[i]
  {
    if s == [] then [""]
    else
      var rest := Split(s[1..], sep);
      if s[0] == sep then [""] + rest
      else [[s[0]] + rest[0]] + rest[1..]
  }

  /** The first piece of a split is everything before the first separator. */
  lemma {:induction false} SplitFirst(a: string, sep: char, b: string)
    requires sep !in a
    requires b == [] || b[0] == sep
    ensures Split(a + b, sep)[0] == a
    decreases |a|
  {
    if a != [] {
      assert (a + b)[1..] == a[1..] + b;
      SplitFirst(a[1..], sep, b);
      assert [a[0]] + a[1..] == a;
    } else {
      assert a + b == b;
    }
  }

  /** The first piece of a split starts the string and stops at its first separator, if any. */
  lemma {:induction false} SplitHead(s: string, sep: char)
    ensures Split(s, sep)[0] <= s
    ensures |Split(s, sep)[0]| < |s| ==> s[|Split(s, sep)[0]|] == sep
    decreases |s|
  {
    if s != [] && s[0] != sep {
      SplitHead(s[1..], sep);
      var h := Split(s[1..], sep)[0];
      assert Split(s, sep)[0] == [s[0]] + h;
      assert s == [s[0]] + s[1..];
    }
  }

  /** `parts.join(sep)`; the empty list joins to the empty string. */
  function Join(parts: seq<string>, sep: char): string
  {
    if parts == [] then ""
    else if |parts| == 1 then parts[0]
    else parts[0] + [sep] + Join(parts[1..], sep)
  }

  /** Joining the pieces of a split gives back the original string. */
  lemma {:induction false} JoinSplit(s: string, sep: char)
    ensures Join(Split(s, sep), sep) == s
  {
    if s != [] {
      var rest := Split(s[1..], sep);
      JoinSplit(s[1..], sep);
      if s[0] == sep {
        assert Split(s, sep) == [""] + rest;
      } else {
        var parts := Split(s, sep);
        assert parts == [[s[0]] + rest[0]] + rest[1..];
        if |rest| == 1 {
          assert Join(parts, sep) == [s[0]] + rest[0];
        } else {
          assert Join(rest, sep) == rest[0] + [sep] + Join(rest[1..], sep);
          assert Join(parts, sep) == [s[0]] + rest[0] + [sep] + Join(rest[1..], sep);
        }
      }
    }
  }

  /** A separator-free prefix glues onto the first piece of what follows. */
  lemma {:induction false} SplitPrefix(a: string, t: string, sep: char)
    requires sep !in a
    ensures Split(a + t, sep) == [a + Split(t, sep)[0]] + Split(t, sep)[1..]
  {
    if a != [] {
      var p := Split(t, sep);
      SplitPrefix(a[1..], t, sep);
      assert (a + t)[1..] == a[1..] + t;
      var rest := Split(a[1..] + t, sep);
      assert rest == [a[1..] + p[0]] + p[1..];
      assert [a[0]] + rest[0] == a + p[0];
      assert rest[1..] == p[1..];
    } else {
      var p := Split(t, sep);
      assert a + t == t;
      assert a + p[0] == p[0];
      assert [p[0]] + p[1..] == p;
    }
  }

  /** Splitting a join of separator-free pieces gives back the pieces. */
  lemma {:induction false} SplitJoin(parts: seq<string>, sep: char)
    requires |parts| >= 1
    requires forall i :: 0 <= i < |parts| ==> sep !in parts[i]
    ensures Split(Join(parts, sep), sep) == parts
  {
    if |parts| == 1 {
      SplitPrefix(parts[0], "", sep);
      assert parts[0] + "" == parts[0];
    } else {
      var tail := Join(parts[1..], sep);
      SplitJoin(parts[1..], sep);
      SplitPrefix(parts[0], [sep] + tail, sep);
      assert parts[0] + [sep] + tail == parts[0] + ([sep] + tail);
      assert ([sep] + tail)[1..] == tail;
      assert Split([sep] + tail, sep) == [""] + Split(tail, sep);
      assert Join(parts, sep) == parts[0] + ([sep] + tail);
      assert parts[0] + "" == parts[0];
      assert [parts[0]] + parts[1..] == parts;
    }
  }

  // ---------------------------------------------------------------------------
  // trim, restricted to spaces

  function DropLeadingSpaces(s: string): string
  {
    if s != [] && s[0] == ' ' then DropLeadingSpaces(s[1..]) else s
  }

  function DropTrailingSpaces(s: string): string
  {
    if s != [] && s[|s| - 1] == ' ' then DropTrailingSpaces(s[..|s| - 1]) else s
  }

  /** `s.trim()` on a string whose only white space is `' '`. */
  function Trim(s: string): string
  {
    DropTrailingSpaces(DropLeadingSpaces(s))
  }

  lemma {:induction false} DropLeadingPadded(n: nat, d: string)
    requires d == [] || d[0] != ' '
    ensures DropLeadingSpaces(Spaces(n) + d) == d
  {
    if n > 0 {
      SpacesAdd(1, n - 1);
      assert Spaces(n) + d == " " + (Spaces(n - 1) + d);
      DropLeadingPadded(n - 1, d);
    }
  }

  lemma {:induction false} DropTrailingPadded(d: string, n: nat)
    requires d == [] || d[|d| - 1] != ' '
    ensures DropTrailingSpaces(d + Spaces(n)) == d
  {
    if n > 0 {
      assert (d + Spaces(n))[..|d| + n - 1] == d + Spaces(n - 1);
      DropTrailingPadded(d, n - 1);
    } else {
      assert d + Spaces(n) == d;
    }
  }

  /** Trimming a word wrapped in spaces gives back the word. */
  lemma TrimPadded(a: nat, d: string, b: nat)
    requires d != [] && d[0] != ' ' && d[|d| - 1] != ' '
    ensures Trim(Spaces(a) + d + Spaces(b)) == d
  {
    assert Spaces(a) + d + Spaces(b) == Spaces(a) + (d + Spaces(b));
    DropLeadingPadded(a, d + Spaces(b));
    DropTrailingPadded(d, b);
  }
}
