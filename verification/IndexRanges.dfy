/** The index range printer: `_format_index_ranges` of vllm/model_inspection.py. */
module IndexRanges {
  import opened Wrappers

  // ----- sorting

  predicate Sorted(s: seq<int>) {
    forall i, j | 0 <= i < j < |s| :: s[i] <= s[j]
  }

  /** How many leading elements are smaller than `x`. */
  function Position(s: seq<int>, x: int): (p: nat)
    ensures p <= |s|
    ensures forall i | 0 <= i < p :: s[i] < x
    ensures p < |s| ==> x <= s[p]
  {
    if s == [] || x <= s[0] then 0 else 1 + Position(s[1..], x)
  }

  function Insert(s: seq<int>, x: int): (r: seq<int>)
    requires Sorted(s)
    ensures Sorted(r) && multiset(r) == multiset(s) + multiset{x}
  {
    var p := Position(s, x);
    InsertedSorted(s[..p], x, s[p..]);
    InsertedContents(s, x, p);
    s[..p] + [x] + s[p..]
  }

  lemma InsertedSorted(low: seq<int>, x: int, high: seq<int>)
    requires Sorted(low) && Sorted(high)
    requires (forall i | 0 <= i < |low| :: low[i] <= x) && (forall i | 0 <= i < |high| :: x <= high[i])
    ensures Sorted(low + [x] + high)
  {
    var r := low + [x] + high;
    forall i, j | 0 <= i < j < |r| ensures r[i] <= r[j] {
      assert r[i] == if i < |low| then low[i] else if i == |low| then x else high[i - |low| - 1];
      assert r[j] == if j < |low| then low[j] else if j == |low| then x else high[j - |low| - 1];
    }
  }

  lemma InsertedContents(s: seq<int>, x: int, p: nat)
    requires p <= |s|
    ensures multiset(s[..p] + [x] + s[p..]) == multiset(s) + multiset{x}
  {
    assert s == s[..p] + s[p..];
  }

  function Sort(s: seq<int>): (r: seq<int>)
    ensures Sorted(r) && multiset(r) == multiset(s) && |r| == |s|
  {
    if s == [] then []
    else
      assert s == s[..|s| - 1] + [s[|s| - 1]];
      var r := Insert(Sort(s[..|s| - 1]), s[|s| - 1]);
      assert |multiset(r)| == |multiset(s)|;
      r
  }

  lemma WithoutLast(s: seq<int>)
    requires s != []
    ensures multiset(s[..|s| - 1]) == multiset(s) - multiset{s[|s| - 1]}
  {
    assert s[..|s| - 1] + [s[|s| - 1]] == s;
  }

  lemma LastBounds(a: seq<int>, b: seq<int>)
    requires Sorted(a) && b != [] && multiset(a) == multiset(b)
    ensures a != [] && b[|b| - 1] <= a[|a| - 1]
  {
    var x := b[|b| - 1];
    assert x in multiset(b);
    assert x in a;
    var i :| 0 <= i < |a| && a[i] == x;
  }

  /** There is one order in which to print given indices: the largest comes last, and so on. */
  lemma {:induction false} ContentsFixOrder(a: seq<int>, b: seq<int>)
    requires Sorted(a) && Sorted(b) && multiset(a) == multiset(b)
    ensures a == b
  {
    assert |multiset(a)| == |a| && |multiset(b)| == |b|;
    var n := |a| - 1;
    if n >= 0 {
      LastBounds(a, b);
      LastBounds(b, a);
      WithoutLast(a);
      WithoutLast(b);
      ContentsFixOrder(a[..n], b[..n]);
      assert forall i | 0 <= i < n :: a[i] == a[..n][i] == b[i];
    }
  }

  // ----- ranges

  datatype Span = Span(lo: int, hi: int)

  function Range(lo: int, hi: int): (r: seq<int>)
    requires lo <= hi + 1
    ensures |r| == hi - lo + 1
  {
    seq(hi - lo + 1, i => lo + i)
  }

  predicate Proper(spans: seq<Span>) {
    forall i | 0 <= i < |spans| :: spans[i].lo <= spans[i].hi
  }

  function Expand(spans: seq<Span>): seq<int>
    requires Proper(spans)
  {
    if spans == [] then [] else Range(spans[0].lo, spans[0].hi) + Expand(spans[1..])
  }

  /** The ranges of an open range followed by the remaining sorted indices. */
  function SpansFrom(start: int, end: int, rest: seq<int>): (r: seq<Span>)
    requires start <= end
    ensures Proper(r) && r != [] && r[0].lo == start
    decreases |rest|
  {
    if rest == [] then [Span(start, end)]
    else if rest[0] == end + 1 then SpansFrom(start, rest[0], rest[1..])
    else [Span(start, end)] + SpansFrom(rest[0], rest[0], rest[1..])
  }

  function SpansOf(sorted: seq<int>): (r: seq<Span>)
    requires sorted != []
    ensures Proper(r) && r != []
  {
    SpansFrom(sorted[0], sorted[0], sorted[1..])
  }

  lemma {:induction false} ExpandFrom(start: int, end: int, rest: seq<int>)
    requires start <= end
    ensures Expand(SpansFrom(start, end, rest)) == Range(start, end) + rest
    decreases |rest|
  {
    if rest == [] {
      assert [Span(start, end)][1..] == [];
    } else if rest[0] == end + 1 {
      ExpandFrom(start, rest[0], rest[1..]);
      assert Range(start, rest[0]) + rest[1..] == Range(start, end) + rest;
    } else {
      ExpandFrom(rest[0], rest[0], rest[1..]);
      var tail := SpansFrom(rest[0], rest[0], rest[1..]);
      assert ([Span(start, end)] + tail)[1..] == tail;
      assert Range(rest[0], rest[0]) + rest[1..] == rest;
    }
  }

  /** Expanding the ranges gives the sorted list back, duplicates included. */
  lemma ExpandsBack(sorted: seq<int>)
    requires sorted != []
    ensures Expand(SpansOf(sorted)) == sorted
  {
    ExpandFrom(sorted[0], sorted[0], sorted[1..]);
    assert Range(sorted[0], sorted[0]) + sorted[1..] == sorted;
  }

  predicate Ascending(s: seq<int>) {
    forall i, j | 0 <= i < j < |s| :: s[i] < s[j]
  }

  /** No two ranges touch. */
  predicate Maximal(spans: seq<Span>) {
    forall i | 0 <= i < |spans| - 1 :: spans[i].hi + 1 < spans[i + 1].lo
  }

  lemma {:induction false} MaximalFrom(start: int, end: int, rest: seq<int>)
    requires start <= end && Ascending(rest) && (rest != [] ==> end < rest[0])
    ensures Maximal(SpansFrom(start, end, rest))
    decreases |rest|
  {
    if rest != [] {
      if rest[0] == end + 1 {
        MaximalFrom(start, rest[0], rest[1..]);
      } else {
        MaximalFrom(rest[0], rest[0], rest[1..]);
      }
    }
  }

  /** For distinct indices the ranges are as long as possible. */
  lemma RangesAreMaximal(sorted: seq<int>)
    requires sorted != [] && Ascending(sorted)
    ensures Maximal(SpansOf(sorted))
  {
    MaximalFrom(sorted[0], sorted[0], sorted[1..]);
  }

  // ----- text

  function Digit(d: nat): char
    requires d < 10
  {
    "0123456789"[d]
  }

  function Str(n: int): string
    decreases if n < 0 then 1 else 0, n
  {
    if n < 0 then "-" + Str(-n)
    else if n < 10 then [Digit(n)]
    else Str(n / 10) + [Digit(n % 10)]
  }

  function Text(s: Span): string {
    if s.lo == s.hi then Str(s.lo) else Str(s.lo) + "-" + Str(s.hi)
  }

  function Join(parts: seq<string>): string {
    if parts == [] then "" else if |parts| == 1 then parts[0] else parts[0] + ", " + Join(parts[1..])
  }

  function Texts(spans: seq<Span>): seq<string> {
    seq(|spans|, i requires 0 <= i < |spans| => Text(spans[i]))
  }

  lemma TextsCons(s: Span, rest: seq<Span>)
    ensures Texts([s] + rest) == [Text(s)] + Texts(rest)
  {}

  lemma TextsSnoc(spans: seq<Span>, s: Span)
    ensures Texts(spans + [s]) == Texts(spans) + [Text(s)]
  {}

  function Render(spans: seq<Span>): string {
    Join(Texts(spans))
  }

  /** `_format_index_ranges`.  None: the first index of an empty list does not exist. */
  method FormatIndexRanges(indices: seq<int>) returns (r: Option<string>)
    ensures r.None? <==> indices == []
    ensures r.Some? ==> r.value == Render(SpansOf(Sort(indices)))
  {
    var sorted := Sort(indices);
    if sorted == [] {
      return None;
    }
    var start, end := sorted[0], sorted[0];
    var ranges: seq<string> := [];
    ghost var done: seq<Span> := [];
    for k := 1 to |sorted|
      invariant start <= end
      invariant SpansOf(sorted) == done + SpansFrom(start, end, sorted[k..])
      invariant ranges == Texts(done)
    {
      var idx := sorted[k];
      assert sorted[k..][0] == idx && sorted[k..][1..] == sorted[k + 1..];
      if idx == end + 1 {
        end := idx;
      } else {
        TextsSnoc(done, Span(start, end));
        ranges := ranges + [if start == end then Str(start) else Str(start) + "-" + Str(end)];
        done := done + [Span(start, end)];
        start, end := idx, idx;
      }
    }
    TextsSnoc(done, Span(start, end));
    ranges := ranges + [if start == end then Str(start) else Str(start) + "-" + Str(end)];
    r := Some(Join(ranges));
  }

  /** The example in the source's own documentation. */
  lemma DocumentedExample()
    ensures Render(SpansOf([0, 1, 2, 4, 5, 6])) == "0-2, 4-6"
  {
    var spans := [Span(0, 2), Span(4, 6)];
    ExampleSpans();
    assert Str(0) == "0" && Str(2) == "2" && Str(4) == "4" && Str(6) == "6";
    assert Text(spans[0]) == "0-2" && Text(spans[1]) == "4-6";
    assert Texts(spans) == ["0-2", "4-6"];
    assert ["0-2", "4-6"][1..] == ["4-6"];
  }

  lemma ExampleSpans()
    ensures SpansOf([0, 1, 2, 4, 5, 6]) == [Span(0, 2), Span(4, 6)]
  {
    SpansGrow(4, 4, [5, 6]);
    SpansGrow(4, 5, [6]);
    SpansGrow(0, 0, [1, 2, 4, 5, 6]);
    SpansGrow(0, 1, [2, 4, 5, 6]);
    var rest := [4, 5, 6];
    assert rest[1..] == [5, 6];
    assert SpansFrom(0, 2, rest) == [Span(0, 2)] + SpansFrom(4, 4, [5, 6]);
    assert [5, 6][1..] == [6] && [6][1..] == [] && [2, 4, 5, 6][1..] == rest && [1, 2, 4, 5, 6][1..] == [2, 4, 5, 6];
    assert [0, 1, 2, 4, 5, 6][1..] == [1, 2, 4, 5, 6];
  }

  lemma SpansGrow(start: int, end: int, rest: seq<int>)
    requires start <= end && rest != [] && rest[0] == end + 1
    ensures SpansFrom(start, end, rest) == SpansFrom(start, end + 1, rest[1..])
  {}

  // ----- the text determines the indices

  predicate IsDigit(c: char) { '0' <= c <= '9' }

  function ValueOf(s: string): int {
    if s == "" then 0 else 10 * ValueOf(s[..|s| - 1]) + (s[|s| - 1] as int - '0' as int)
  }

  lemma DigitFacts(d: nat)
    requires d < 10
    ensures IsDigit(Digit(d)) && Digit(d) as int == '0' as int + d
  {}

  lemma {:induction false} StrFacts(n: nat)
    ensures Str(n) != "" && (forall i | 0 <= i < |Str(n)| :: IsDigit(Str(n)[i])) && ValueOf(Str(n)) == n
  {
    DigitFacts(n % 10);
    if n >= 10 {
      StrFacts(n / 10);
      assert Str(n)[..|Str(n)| - 1] == Str(n / 10);
    } else {
      assert Str(n)[..0] == "";
    }
  }

  predicate EndsNumber(rest: string) {
    rest == "" || !IsDigit(rest[0])
  }

  /** A natural number ends where its digits end. */
  lemma {:induction false} DigitsPrefix(m: nat, n: nat, x: string, y: string)
    requires Str(m) + x == Str(n) + y && EndsNumber(x) && EndsNumber(y)
    ensures m == n && x == y
  {
    var s := Str(m) + x;
    StrFacts(m);
    StrFacts(n);
    var i, j := |Str(m)|, |Str(n)|;
    assert (forall k | 0 <= k < i :: IsDigit(s[k])) && (i < |s| ==> !IsDigit(s[i]));
    assert (forall k | 0 <= k < j :: IsDigit(s[k])) && (j < |s| ==> !IsDigit(s[j]));
    assert s[..i] == Str(m) && s[..j] == Str(n);
    assert s[i..] == x && s[j..] == y;
  }

  /** A text starts with a minus sign exactly when its number is negative. */
  lemma {:induction false} SignShows(n: int, x: string)
    ensures Str(n) != "" && ((Str(n) + x)[0] == '-' <==> n < 0)
    ensures n < 0 ==> (Str(n) + x)[1..] == Str(-n) + x
  {
    StrFacts(if n < 0 then -n else n);
    assert (Str(n) + x)[0] == Str(n)[0];
  }

  lemma {:induction false} NumberPrefix(m: int, n: int, x: string, y: string)
    requires Str(m) + x == Str(n) + y && EndsNumber(x) && EndsNumber(y)
    ensures m == n && x == y
  {
    SignShows(m, x);
    SignShows(n, y);
    if m < 0 {
      DigitsPrefix(-m, -n, x, y);
    } else {
      DigitsPrefix(m, n, x, y);
    }
  }

  function Tail(spans: seq<Span>): string {
    if spans == [] then "" else ", " + Render(spans)
  }

  lemma RenderCons(spans: seq<Span>)
    requires spans != []
    ensures Render(spans) == Text(spans[0]) + Tail(spans[1..])
  {
    var s, rest := spans[0], spans[1..];
    assert spans == [s] + rest;
    TextsCons(s, rest);
    assert ([Text(s)] + Texts(rest))[1..] == Texts(rest);
    if rest != [] {
      assert Text(s) + ", " + Render(rest) == Text(s) + (", " + Render(rest));
    }
  }

  function AfterLow(s: Span, tail: string): string {
    if s.lo == s.hi then tail else "-" + (Str(s.hi) + tail)
  }

  lemma TextSplits(s: Span, tail: string)
    ensures Text(s) + tail == Str(s.lo) + AfterLow(s, tail)
  {
    if s.lo != s.hi {
      assert Str(s.lo) + "-" + Str(s.hi) + tail == Str(s.lo) + ("-" + (Str(s.hi) + tail));
    }
  }

  lemma TailSame(a: seq<Span>, b: seq<Span>)
    ensures Tail(a) == "" || Tail(a)[0] == ','
    ensures Tail(b) == "" || Tail(b)[0] == ','
    ensures Tail(a) == Tail(b) ==> (a == [] <==> b == []) && (a != [] ==> Render(a) == Render(b))
  {
    assert a != [] ==> Tail(a)[2..] == Render(a);
    assert b != [] ==> Tail(b)[2..] == Render(b);
  }

  lemma FirstSpanShows(s: Span, t: Span, x: string, y: string)
    requires s.lo <= s.hi && t.lo <= t.hi
    requires (x == "" || x[0] == ',') && (y == "" || y[0] == ',')
    requires Text(s) + x == Text(t) + y
    ensures s == t && x == y
  {
    TextSplits(s, x);
    TextSplits(t, y);
    NumberPrefix(s.lo, t.lo, AfterLow(s, x), AfterLow(t, y));
    AfterLowInjective(s, t, x, y);
  }

  lemma {:induction false} RenderInjective(a: seq<Span>, b: seq<Span>)
    requires Proper(a) && Proper(b) && a != [] && b != [] && Render(a) == Render(b)
    ensures a == b
    decreases |a|
  {
    RenderCons(a);
    RenderCons(b);
    TailSame(a[1..], b[1..]);
    FirstSpanShows(a[0], b[0], Tail(a[1..]), Tail(b[1..]));
    if a[1..] != [] {
      RenderInjective(a[1..], b[1..]);
    }
    assert a == [a[0]] + a[1..] && b == [b[0]] + b[1..];
  }

  lemma AfterLowInjective(s: Span, t: Span, x: string, y: string)
    requires s.lo == t.lo && s.lo <= s.hi && t.lo <= t.hi
    requires (x == "" || x[0] == ',') && (y == "" || y[0] == ',')
    requires AfterLow(s, x) == AfterLow(t, y)
    ensures s == t && x == y
  {
    var u, v := AfterLow(s, x), AfterLow(t, y);
    assert (s.lo != s.hi ==> u[0] == '-') && (t.lo != t.hi ==> v[0] == '-');
    if s.lo != s.hi {
      assert u[1..] == Str(s.hi) + x && v[1..] == Str(t.hi) + y;
      NumberPrefix(s.hi, t.hi, x, y);
    }
  }

  /** The printer, exactly: two lists print identically if and only if they hold the same indices, each
      equally often. */
  lemma FormatExact(a: seq<int>, b: seq<int>)
    requires a != [] && b != []
    ensures Render(SpansOf(Sort(a))) == Render(SpansOf(Sort(b))) <==> multiset(a) == multiset(b)
  {
    if multiset(a) == multiset(b) {
      ContentsFixOrder(Sort(a), Sort(b));
    } else if Render(SpansOf(Sort(a))) == Render(SpansOf(Sort(b))) {
      RenderInjective(SpansOf(Sort(a)), SpansOf(Sort(b)));
      ExpandsBack(Sort(a));
      ExpandsBack(Sort(b));
    }
  }
}
