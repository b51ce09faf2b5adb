// The logic of the reservation calendar: the summary of a booking's
// computer labels ("PCs 1-3, 7"), the event title, the event colour taken
// from the team's game, and which stream messages make the calendar reload.
module ReservationCalendar {
  import opened Text
  import opened Db

  /* ---------- reading a label's trailing number ---------- */

  /** The longest suffix of `s` made of digits. */
  function TrailingDigits(s: string): (d: string)
    ensures |d| <= |s| && d == s[|s| - |d|..]
    ensures AllDigits(d)
    ensures |d| < |s| ==> !IsDigit(s[|s| - |d| - 1])
  {
    if s != [] && IsDigit(s[|s| - 1]) then TrailingDigits(s[..|s| - 1]) + [s[|s| - 1]] else []
  }

  /** What `l.match(/(\d+)\s*$/)` and `parseInt(m[1], 10)` give: the value of
      the run of digits that ends the label, trailing white space allowed, or
      nothing (NaN) when the label has no such run. */
  function TrailingNumber(l: string): (r: Option<nat>)
    ensures r.None? <==> TrimEnd(l) == [] || !IsDigit(TrimEnd(l)[|TrimEnd(l)| - 1])
  {
    var d := TrailingDigits(TrimEnd(l));
    if d == [] then None else Some(DigitsValue(d))
  }

  lemma {:induction false} TrailingDigitsOfAppend(p: string, d: string)
    requires AllDigits(d)
    requires p == [] || !IsDigit(p[|p| - 1])
    ensures TrailingDigits(p + d) == d
    decreases |d|
  {
    var s := p + d;
    if d != [] {
      var init, last := d[..|d| - 1], d[|d| - 1];
      assert IsDigit(s[|s| - 1]) && s[|s| - 1] == last;
      assert s[..|s| - 1] == p + init;
      assert AllDigits(init);
      TrailingDigitsOfAppend(p, init);
      assert TrailingDigits(s) == TrailingDigits(p + init) + [last];
      assert init + [last] == d;
    } else {
      assert s == p;
    }
  }

  lemma {:induction false} TrimEndOfAppend(t: string, w: string)
    requires t == [] || !IsSpace(t[|t| - 1])
    requires forall i :: 0 <= i < |w| ==> IsSpace(w[i])
    ensures TrimEnd(t + w) == t
  {
    if w != [] {
      var s := t + w;
      assert s[..|s| - 1] == t + w[..|w| - 1];
      TrimEndOfAppend(t, w[..|w| - 1]);
    } else {
      assert t + w == t;
    }
  }

  /** A label made of any text not ending in a digit, a run of digits, and
      trailing white space is read as the value of that run. */
  lemma TrailingNumberOf(p: string, d: string, w: string)
    requires d != [] && AllDigits(d)
    requires p == [] || !IsDigit(p[|p| - 1])
    requires forall i :: 0 <= i < |w| ==> IsSpace(w[i])
    ensures TrailingNumber(p + d + w) == Some(DigitsValue(d))
  {
    assert !IsSpace((p + d)[|p + d| - 1]);
    TrimEndOfAppend(p + d, w);
    TrailingDigitsOfAppend(p, d);
  }

  /* ---------- sorting the numbers ---------- */

  predicate Sorted(s: seq<nat>) {
    forall i, j :: 0 <= i < j < |s| ==> s[i] <= s[j]
  }

  predicate StrictlySorted(s: seq<nat>) {
    forall i, j :: 0 <= i < j < |s| ==> s[i] < s[j]
  }

  function Insert(x: nat, s: seq<nat>): (r: seq<nat>)
    requires Sorted(s)
    ensures Sorted(r)
    ensures forall y :: y in r ==> y == x || y in s
    ensures multiset(r) == multiset(s) + multiset{x}
  {
    if s == [] || x <= s[0] then [x] + s
    else
      var tail := Insert(x, s[1..]);
      assert s == [s[0]] + s[1..];
      InsertHeadBound(x, s, tail);
      [s[0]] + tail
  }

  lemma InsertHeadBound(x: nat, s: seq<nat>, tail: seq<nat>)
    requires Sorted(s) && s != [] && s[0] < x && Sorted(tail)
    requires forall y :: y in tail ==> y == x || y in s[1..]
    ensures Sorted([s[0]] + tail)
  {
    var r := [s[0]] + tail;
    forall i, j | 0 <= i < j < |r| ensures r[i] <= r[j] {
      if i == 0 {
        assert r[j] == tail[j - 1] && tail[j - 1] in tail;
        if r[j] != x {
          var k :| 0 <= k < |s[1..]| && s[1..][k] == r[j];
          assert s[k + 1] == r[j];
        }
      } else {
        assert r[i] == tail[i - 1] && r[j] == tail[j - 1];
      }
    }
  }

  /** The numbers in ascending order: the reference for the in-place sort. */
  function SortSeq(s: seq<nat>): (r: seq<nat>)
    ensures Sorted(r)
    ensures multiset(r) == multiset(s)
  {
    if s == [] then []
    else
      assert s == [s[0]] + s[1..];
      Insert(s[0], SortSeq(s[1..]))
  }

  lemma SortedHeadIsLeast(s: seq<nat>, y: nat)
    requires Sorted(s) && y in multiset(s)
    ensures s[0] <= y
  {
    var k :| 0 <= k < |s| && s[k] == y;
  }

  /** A sorted arrangement of a multiset of numbers is unique. */
  lemma {:induction false} SortedUnique(x: seq<nat>, y: seq<nat>)
    requires Sorted(x) && Sorted(y) && multiset(x) == multiset(y)
    ensures x == y
    decreases |x|
  {
    assert |x| == |multiset(x)| == |multiset(y)| == |y|;
    if x != [] {
      SortedSameHead(x, y);
      SortedTailSorted(x);
      SortedTailSorted(y);
      assert x == [x[0]] + x[1..] && y == [y[0]] + y[1..];
      SortedUnique(x[1..], y[1..]);
    }
  }

  lemma SortedSameHead(x: seq<nat>, y: seq<nat>)
    requires Sorted(x) && Sorted(y) && multiset(x) == multiset(y) && x != [] && y != []
    ensures x[0] == y[0] && multiset(x[1..]) == multiset(y[1..])
  {
    assert x[0] in multiset(y) && y[0] in multiset(x);
    SortedHeadIsLeast(y, x[0]);
    SortedHeadIsLeast(x, y[0]);
    MultisetTail(x);
    MultisetTail(y);
  }

  lemma MultisetTail(x: seq<nat>)
    requires x != []
    ensures multiset(x[1..]) == multiset(x) - multiset{x[0]}
  {
    assert x == [x[0]] + x[1..];
  }

  lemma SortedTailSorted(x: seq<nat>)
    requires Sorted(x) && x != []
    ensures Sorted(x[1..])
  {
  }

  /** `parsed.sort((a, b) => a.n - b.n)` on the parsed numbers, in place. */
  method SortNumbers(a: array<nat>)
    modifies a
    ensures Sorted(a[..])
    ensures multiset(a[..]) == old(multiset(a[..]))
  {
    var i := 0;
    while i < a.Length
      invariant 0 <= i <= a.Length
      invariant Sorted(a[..i])
      invariant multiset(a[..]) == old(multiset(a[..]))
    {
      InsertAt(a, i);
      i := i + 1;
    }
    assert a[..i] == a[..];
  }

  /** One step of the sort: with a[..i] already sorted, a[i] moves left past
      every larger number, after which a[..i + 1] is sorted. */
  method InsertAt(a: array<nat>, i: nat)
    requires i < a.Length && Sorted(a[..i])
    modifies a
    ensures Sorted(a[..i + 1])
    ensures multiset(a[..]) == old(multiset(a[..]))
  {
    var j := i;
    while j > 0 && a[j - 1] > a[j]
      invariant 0 <= j <= i
      invariant forall m, n :: 0 <= m < n <= i && n != j ==> a[m] <= a[n]
      invariant multiset(a[..]) == old(multiset(a[..]))
    {
      Swap(a, j - 1, j);
      j := j - 1;
    }
  }

  /** Exchanges two cells; the numbers held do not change. */
  method Swap(a: array<nat>, i: nat, j: nat)
    requires i < j < a.Length
    modifies a
    ensures a[..] == old(a[..])[i := old(a[j])][j := old(a[i])]
    ensures multiset(a[..]) == old(multiset(a[..]))
  {
    a[i], a[j] := a[j], a[i];
  }

  /* ---------- collapsing runs ---------- */

  /** A segment of the summary: the numbers lo, lo+1, ..., hi. */
  datatype Range = Range(lo: nat, hi: nat)

  function Span(lo: nat, hi: nat): (s: seq<nat>)
    requires lo <= hi
    ensures |s| == hi - lo + 1
    ensures forall i :: 0 <= i < |s| ==> s[i] == lo + i
  {
    seq(hi - lo + 1, i requires 0 <= i < hi - lo + 1 => lo + i)
  }

  /** The segments the summariser's loop emits when its current run is
      s..p and `rest` is still to be read: a number one past p extends the
      run; any other number closes it and starts a new one. */
  function RunsFrom(s: nat, p: nat, rest: seq<nat>): (r: seq<Range>)
    requires s <= p
    ensures |r| > 0 && r[0].lo == s
    ensures forall k :: 0 <= k < |r| ==> r[k].lo <= r[k].hi
    ensures forall k :: 0 <= k < |r| - 1 ==> r[k].hi + 1 != r[k + 1].lo
    decreases |rest|
  {
    if rest == [] then [Range(s, p)]
    else if rest[0] == p + 1 then RunsFrom(s, rest[0], rest[1..])
    else [Range(s, p)] + RunsFrom(rest[0], rest[0], rest[1..])
  }

  function Runs(xs: seq<nat>): seq<Range>
    requires |xs| > 0
  {
    RunsFrom(xs[0], xs[0], xs[1..])
  }

  /** The numbers the segments stand for, segment after segment. */
  function Expand(rs: seq<Range>): seq<nat>
    requires forall k :: 0 <= k < |rs| ==> rs[k].lo <= rs[k].hi
  {
    if rs == [] then [] else Span(rs[0].lo, rs[0].hi) + Expand(rs[1..])
  }

  lemma {:induction false} RunsFromCover(s: nat, p: nat, rest: seq<nat>)
    requires s <= p
    ensures Expand(RunsFrom(s, p, rest)) == Span(s, p) + rest
    decreases |rest|
  {
    var r := RunsFrom(s, p, rest);
    if rest == [] {
      assert Expand(r) == Span(s, p) + Expand([]);
    } else if rest[0] == p + 1 {
      RunsFromCover(s, rest[0], rest[1..]);
      assert Span(s, rest[0]) == Span(s, p) + [rest[0]];
      assert rest == [rest[0]] + rest[1..];
    } else {
      var tail := RunsFrom(rest[0], rest[0], rest[1..]);
      RunsFromCover(rest[0], rest[0], rest[1..]);
      assert r[1..] == tail;
      assert Span(rest[0], rest[0]) == [rest[0]];
      assert rest == [rest[0]] + rest[1..];
    }
  }

  /** Every number is covered by exactly one segment: reading the segments
      out in order gives back the input, repeated numbers included. Each
      segment is a run of consecutive integers and no segment could be
      extended by the next one. */
  lemma RunsCover(xs: seq<nat>)
    requires |xs| > 0
    ensures Expand(Runs(xs)) == xs
    ensures forall k :: 0 <= k < |Runs(xs)| - 1 ==> Runs(xs)[k].hi + 1 != Runs(xs)[k + 1].lo
  {
    RunsFromCover(xs[0], xs[0], xs[1..]);
    assert Span(xs[0], xs[0]) == [xs[0]];
    assert xs == [xs[0]] + xs[1..];
  }

  /** Each segment ends no later than the next one starts. */
  predicate Ascending(rs: seq<Range>) {
    forall k :: 0 <= k < |rs| - 1 ==> rs[k].hi <= rs[k + 1].lo
  }

  /** Between any two neighbouring segments at least one number is missing. */
  predicate Separated(rs: seq<Range>) {
    forall k :: 0 <= k < |rs| - 1 ==> rs[k].hi + 1 < rs[k + 1].lo
  }

  lemma ConsAscending(r: Range, tail: seq<Range>)
    requires tail != [] && Ascending(tail) && r.hi <= tail[0].lo
    ensures Ascending([r] + tail)
  {
    var rs := [r] + tail;
    forall k | 1 <= k < |rs| - 1 ensures rs[k].hi <= rs[k + 1].lo {
      assert rs[k] == tail[k - 1] && rs[k + 1] == tail[k];
    }
  }

  lemma ConsSeparated(r: Range, tail: seq<Range>)
    requires tail != [] && Separated(tail) && r.hi + 1 < tail[0].lo
    ensures Separated([r] + tail)
  {
    var rs := [r] + tail;
    forall k | 1 <= k < |rs| - 1 ensures rs[k].hi + 1 < rs[k + 1].lo {
      assert rs[k] == tail[k - 1] && rs[k + 1] == tail[k];
    }
  }

  lemma SortedTail(p: nat, rest: seq<nat>)
    requires rest != [] && Sorted([p] + rest)
    ensures p <= rest[0] && Sorted([rest[0]] + rest[1..])
  {
    var q := [p] + rest;
    assert q[0] <= q[1];
    assert [rest[0]] + rest[1..] == q[1..];
  }

  lemma StrictlySortedTail(p: nat, rest: seq<nat>)
    requires rest != [] && StrictlySorted([p] + rest)
    ensures p < rest[0] && StrictlySorted([rest[0]] + rest[1..])
  {
    var q := [p] + rest;
    assert q[0] < q[1];
    assert [rest[0]] + rest[1..] == q[1..];
  }

  /** On sorted input the segments come in ascending order. */
  lemma {:induction false} RunsFromAscending(s: nat, p: nat, rest: seq<nat>)
    requires s <= p && Sorted([p] + rest)
    ensures Ascending(RunsFrom(s, p, rest))
    decreases |rest|
  {
    if rest != [] {
      SortedTail(p, rest);
      if rest[0] == p + 1 {
        RunsFromAscending(s, rest[0], rest[1..]);
      } else {
        RunsFromAscending(rest[0], rest[0], rest[1..]);
        ConsAscending(Range(s, p), RunsFrom(rest[0], rest[0], rest[1..]));
      }
    }
  }

  /** On strictly increasing input there is a gap between any two segments. */
  lemma {:induction false} RunsFromSeparated(s: nat, p: nat, rest: seq<nat>)
    requires s <= p && StrictlySorted([p] + rest)
    ensures Separated(RunsFrom(s, p, rest))
    decreases |rest|
  {
    if rest != [] {
      StrictlySortedTail(p, rest);
      if rest[0] == p + 1 {
        RunsFromSeparated(s, rest[0], rest[1..]);
      } else {
        RunsFromSeparated(rest[0], rest[0], rest[1..]);
        ConsSeparated(Range(s, p), RunsFrom(rest[0], rest[0], rest[1..]));
      }
    }
  }

  /** On sorted input the segments come in ascending order; on strictly
      increasing input there is a gap between any two of them. */
  lemma RunsAscending(xs: seq<nat>)
    requires |xs| > 0 && Sorted(xs)
    ensures forall k :: 0 <= k < |Runs(xs)| - 1 ==> Runs(xs)[k].hi <= Runs(xs)[k + 1].lo
    ensures StrictlySorted(xs) ==> forall k :: 0 <= k < |Runs(xs)| - 1 ==> Runs(xs)[k].hi + 1 < Runs(xs)[k + 1].lo
  {
    assert xs == [xs[0]] + xs[1..];
    RunsFromAscending(xs[0], xs[0], xs[1..]);
    if StrictlySorted(xs) {
      RunsFromSeparated(xs[0], xs[0], xs[1..]);
    }
  }

  /** A run of consecutive numbers after the current run's end joins it. */
  lemma {:induction false} RunsFromSpan(s: nat, p: nat, q: nat)
    requires s <= p <= q
    ensures RunsFrom(s, p, Span(p, q)[1..]) == [Range(s, q)]
    decreases q - p
  {
    var rest := Span(p, q)[1..];
    if p < q {
      assert rest[0] == p + 1;
      assert rest[1..] == Span(p + 1, q)[1..];
      RunsFromSpan(s, p + 1, q);
    } else {
      assert rest == [];
    }
  }

  /* ---------- the summary ---------- */

  /** `${s}` for a lone number, `${s}-${p}` for a longer run. */
  function RenderRange(r: Range): (s: string)
    ensures NatToString(r.lo) <= s
    ensures r.lo != r.hi ==> |NatToString(r.hi)| < |s| && s[|s| - |NatToString(r.hi)|..] == NatToString(r.hi)
    ensures (exists i :: 0 <= i < |s| && s[i] == '-') <==> r.lo != r.hi
  {
    var lo, hi := NatToString(r.lo), NatToString(r.hi);
    DashedRange(lo, hi);
    if r.lo == r.hi then lo else lo + "-" + hi
  }

  /** Two digit strings joined by a dash: the dash sits right after the
      first, and the second closes the text. */
  lemma DashedRange(lo: string, hi: string)
    requires AllDigits(lo)
    ensures forall i :: 0 <= i < |lo| ==> lo[i] != '-'
    ensures lo <= lo + "-" + hi && (lo + "-" + hi)[|lo|] == '-'
    ensures |hi| < |lo + "-" + hi| && (lo + "-" + hi)[|lo| + 1..] == hi
  {
    ConcatEnds(lo, "-", hi);
    var s := lo + "-" + hi;
    assert s[..|lo|] == lo;
  }

  function RenderAll(rs: seq<Range>): (out: seq<string>)
    ensures |out| == |rs| && forall k :: 0 <= k < |rs| ==> out[k] == RenderRange(rs[k])
  {
    seq(|rs|, k requires 0 <= k < |rs| => RenderRange(rs[k]))
  }

  /** No label makes `parsed.some(p => isNaN(p.n))` true: each ends in a
      digit once trailing white space is removed. */
  predicate AllParse(labels: seq<string>)
    ensures AllParse(labels) <==>
              forall i :: 0 <= i < |labels| ==>
                TrimEnd(labels[i]) != [] && IsDigit(TrimEnd(labels[i])[|TrimEnd(labels[i])| - 1])
  {
    forall i :: 0 <= i < |labels| ==> TrailingNumber(labels[i]).Some?
  }

  function Numbers(labels: seq<string>): (ns: seq<nat>)
    requires AllParse(labels)
    ensures |ns| == |labels|
    ensures forall i :: 0 <= i < |labels| ==> ns[i] == TrailingNumber(labels[i]).value
  {
    seq(|labels|, i requires 0 <= i < |labels| => TrailingNumber(labels[i]).value)
  }

  /** summarizePcLabels: when some label has no trailing number, "PCs "
      followed by the labels as given; otherwise "PCs " followed by the
      segments of the sorted numbers. */
  function SummaryOf(labels: seq<string>): (s: string)
    requires |labels| > 0
    ensures "PCs " <= s
    ensures !AllParse(labels) ==> s == "PCs " + Join(labels, ", ")
    ensures |labels| == 1 && !AllParse(labels) ==> s == "PCs " + labels[0]
  {
    if !AllParse(labels) then "PCs " + Join(labels, ", ")
    else "PCs " + Join(RenderAll(Runs(SortSeq(Numbers(labels)))), ", ")
  }

  /** The summariser as the calendar runs it: parse, sort the numbers in
      place, then collapse the runs. */
  method SummarizePcLabels(labels: seq<string>) returns (summary: string)
    requires |labels| > 0
    ensures summary == SummaryOf(labels)
  {
    if exists i :: 0 <= i < |labels| && TrailingNumber(labels[i]).None? {
      return "PCs " + Join(labels, ", ");
    }
    var ns := Numbers(labels);
    var a := new nat[|ns|](i requires 0 <= i < |ns| => ns[i]);
    assert a[..] == ns;
    SortNumbers(a);
    SortedUnique(a[..], SortSeq(ns));
    var parts := CollapseRuns(a);
    return "PCs " + Join(parts, ", ");
  }

  /** The summariser's single pass over the sorted numbers: a number one past
      the current run's end extends the run, any other closes it. */
  method CollapseRuns(a: array<nat>) returns (out: seq<string>)
    requires a.Length > 0
    ensures out == RenderAll(Runs(a[..]))
  {
    out := [];
    ghost var xs := a[..];
    ghost var closed: seq<Range> := [];
    var s := a[0];
    var p := s;
    var k := 1;
    while k < a.Length
      invariant 1 <= k <= a.Length
      invariant s <= p
      invariant out == RenderAll(closed)
      invariant closed + RunsFrom(s, p, xs[k..]) == Runs(xs)
    {
      var cur := a[k];
      assert xs[k..][0] == cur && xs[k..][1..] == xs[k + 1..];
      if cur == p + 1 {
        RunsExtend(closed, s, p, xs[k..], Runs(xs));
        p := cur;
      } else {
        RunsBreak(closed, s, p, xs[k..], Runs(xs));
        RenderAllSnoc(closed, Range(s, p));
        out := out + [RenderRange(Range(s, p))];
        closed := closed + [Range(s, p)];
        s, p := cur, cur;
      }
      k := k + 1;
    }
    assert xs[k..] == [];
    assert closed + [Range(s, p)] == Runs(xs);
    RenderAllSnoc(closed, Range(s, p));
    out := out + [RenderRange(Range(s, p))];
  }

  lemma RunsExtend(closed: seq<Range>, s: nat, p: nat, rest: seq<nat>, total: seq<Range>)
    requires s <= p && rest != [] && rest[0] == p + 1
    requires closed + RunsFrom(s, p, rest) == total
    ensures closed + RunsFrom(s, rest[0], rest[1..]) == total
  {
    RunsFromStep(s, p, rest);
  }

  lemma RunsBreak(closed: seq<Range>, s: nat, p: nat, rest: seq<nat>, total: seq<Range>)
    requires s <= p && rest != [] && rest[0] != p + 1
    requires closed + RunsFrom(s, p, rest) == total
    ensures (closed + [Range(s, p)]) + RunsFrom(rest[0], rest[0], rest[1..]) == total
  {
    RunsFromStep(s, p, rest);
    assert (closed + [Range(s, p)]) + RunsFrom(rest[0], rest[0], rest[1..])
        == closed + ([Range(s, p)] + RunsFrom(rest[0], rest[0], rest[1..]));
  }

  /** One step of RunsFrom: the next number either extends the current run
      or closes it. */
  lemma RunsFromStep(s: nat, p: nat, rest: seq<nat>)
    requires s <= p && rest != []
    ensures rest[0] == p + 1 ==> RunsFrom(s, p, rest) == RunsFrom(s, rest[0], rest[1..])
    ensures rest[0] != p + 1 ==> RunsFrom(s, p, rest) == [Range(s, p)] + RunsFrom(rest[0], rest[0], rest[1..])
  {
  }

  lemma RenderAllSnoc(rs: seq<Range>, r: Range)
    ensures RenderAll(rs + [r]) == RenderAll(rs) + [RenderRange(r)]
  {
  }

  /* ---------- what the summary says ---------- */

  /** Labels whose numbers are some arrangement of lo..hi, repeated numbers
      excluded, are summarised as the single range lo-hi. */
  lemma SummaryOfConsecutive(labels: seq<string>, lo: nat, hi: nat)
    requires lo < hi
    requires |labels| > 0 && AllParse(labels)
    requires multiset(Numbers(labels)) == multiset(Span(lo, hi))
    ensures SummaryOf(labels) == "PCs " + NatToString(lo) + "-" + NatToString(hi)
  {
    ConsecutiveSorted(labels, lo, hi);
    RunsOfSpan(lo, hi);
    RenderSpan(lo, hi);
  }

  lemma ConsecutiveSorted(labels: seq<string>, lo: nat, hi: nat)
    requires lo <= hi && AllParse(labels)
    requires multiset(Numbers(labels)) == multiset(Span(lo, hi))
    ensures SortSeq(Numbers(labels)) == Span(lo, hi)
  {
    SpanSorted(lo, hi);
    SortedUnique(SortSeq(Numbers(labels)), Span(lo, hi));
  }

  lemma RenderSpan(lo: nat, hi: nat)
    requires lo < hi
    ensures "PCs " + Join(RenderAll([Range(lo, hi)]), ", ") == "PCs " + NatToString(lo) + "-" + NatToString(hi)
  {
    var body := NatToString(lo) + "-" + NatToString(hi);
    assert RenderAll([Range(lo, hi)]) == [body];
    assert "PCs " + body == "PCs " + NatToString(lo) + "-" + NatToString(hi);
  }

  lemma SpanSorted(lo: nat, hi: nat)
    requires lo <= hi
    ensures Sorted(Span(lo, hi))
  {
  }

  lemma RunsOfSpan(lo: nat, hi: nat)
    requires lo <= hi
    ensures Runs(Span(lo, hi)) == [Range(lo, hi)]
  {
    RunsFromSpan(lo, lo, hi);
    assert Span(lo, hi)[0] == lo;
  }

  /** The same PC named twice is not merged: both copies are listed. */
  lemma DuplicateLabelsListedTwice(l: string, n: nat)
    requires TrailingNumber(l) == Some(n)
    ensures SummaryOf([l, l]) == "PCs " + NatToString(n) + ", " + NatToString(n)
  {
    RepeatedNumbers(l, n);
    RepeatedSorted(n);
    RepeatedRuns(n);
    RepeatedRendered(n);
  }

  lemma RepeatedNumbers(l: string, n: nat)
    requires TrailingNumber(l) == Some(n)
    ensures AllParse([l, l]) && Numbers([l, l]) == [n, n]
  {
    RepeatedParse(l);
    var ns := Numbers([l, l]);
    assert ns[0] == n && ns[1] == n;
  }

  lemma RepeatedParse(l: string)
    requires TrailingNumber(l).Some?
    ensures AllParse([l, l])
  {
    var labels := [l, l];
    assert labels[0] == l && labels[1] == l;
    assert forall i :: 0 <= i < |labels| ==> labels[i] == l;
  }

  lemma RepeatedSorted(n: nat)
    ensures SortSeq([n, n]) == [n, n]
  {
    SortedUnique(SortSeq([n, n]), [n, n]);
  }

  lemma RepeatedRendered(n: nat)
    ensures "PCs " + Join(RenderAll([Range(n, n), Range(n, n)]), ", ")
            == "PCs " + NatToString(n) + ", " + NatToString(n)
  {
    var parts := RenderAll([Range(n, n), Range(n, n)]);
    assert parts == [NatToString(n), NatToString(n)];
    assert parts[1..] == [NatToString(n)];
    assert Join(parts, ", ") == NatToString(n) + ", " + NatToString(n);
  }

  lemma RepeatedRuns(n: nat)
    ensures Runs([n, n]) == [Range(n, n), Range(n, n)]
  {
    assert [n, n][1..] == [n];
    assert RunsFrom(n, n, [n]) == [Range(n, n)] + RunsFrom(n, n, []);
  }

  /** "PC-3" reads as 3. */
  lemma LabelPC3()
    ensures TrailingNumber("PC-3") == Some(3)
  {
    var l := "PC-3";
    assert TrimEnd(l) == l by { assert !IsSpace(l[3]); }
    assert TrailingDigits(l[..3]) == [] by { assert !IsDigit(l[2]); }
    assert TrailingDigits(l) == ['3'];
    assert DigitsValue(['3']) == 3;
  }

  /* ---------- events ---------- */

  /** A grouped reservation as GET /api/reservations?grouped=1 delivers it. */
  datatype ComputerRef = ComputerRef(id: int, pcLabel: string)
  datatype Group = Group(
    id: string,
    teamId: string,
    startsAt: string,
    endsAt: string,
    teamName: Option<string>,
    computers: seq<ComputerRef>)

  /** A calendar event: the group's fields plus title and colours. */
  datatype Event = Event(
    id: string,
    title: string,
    start: string,
    end: string,
    labels: seq<string>,
    computerIds: seq<int>,
    teamId: string,
    teamName: string,
    backgroundColor: Option<string>,
    borderColor: Option<string>)

  function LabelsOf(g: Group): (ls: seq<string>)
    ensures |ls| == |g.computers| && forall i :: 0 <= i < |ls| ==> ls[i] == g.computers[i].pcLabel
  {
    seq(|g.computers|, i requires 0 <= i < |g.computers| => g.computers[i].pcLabel)
  }

  function IdsOfGroup(g: Group): (ids: seq<int>)
    ensures |ids| == |g.computers| && forall i :: 0 <= i < |ids| ==> ids[i] == g.computers[i].id
  {
    seq(|g.computers|, i requires 0 <= i < |g.computers| => g.computers[i].id)
  }

  /** `g.team?.name ?? g.teamId`: an empty name is kept, a missing one
      falls back to the id. */
  function TeamShown(g: Group): (s: string)
    ensures g.teamName.Some? ==> s == g.teamName.value
    ensures g.teamName.None? ==> s == g.teamId
  {
    match g.teamName
    case Some(n) => n
    case None => g.teamId
  }

  const TITLE_DASH: string := " \U{2014} "

  /** `${team} — ${summary} (${labels.length})`. */
  function EventTitle(g: Group): (t: string)
    requires |g.computers| > 0
    ensures TeamShown(g) <= t
    ensures |t| > 0 && t[|t| - 1] == ')'
  {
    var d := NatToString(|g.computers|);
    TitlePrefix(TeamShown(g), SummaryOf(LabelsOf(g)), d);
    TeamShown(g) + TITLE_DASH + SummaryOf(LabelsOf(g)) + " (" + d + ")"
  }

  /** The title names the team, then the summary, and closes with a
      parenthesised count that reads back as the number of computers. */
  lemma EventTitleParts(g: Group)
    requires |g.computers| > 0
    ensures exists d: string {:trigger DigitsValue(d)} ::
              && AllDigits(d) && DigitsValue(d) == |g.computers|
              && EventTitle(g) == TeamShown(g) + TITLE_DASH + SummaryOf(LabelsOf(g)) + " (" + d + ")"
    ensures TeamShown(g) <= EventTitle(g)
  {
    var d := NatToString(|g.computers|);
    NatToStringRoundTrip(|g.computers|);
    TitlePrefix(TeamShown(g), SummaryOf(LabelsOf(g)), d);
    assert AllDigits(d) && DigitsValue(d) == |g.computers|
        && EventTitle(g) == TeamShown(g) + TITLE_DASH + SummaryOf(LabelsOf(g)) + " (" + d + ")";
  }

  lemma TitlePrefix(team: string, summary: string, d: string)
    ensures team <= team + TITLE_DASH + summary + " (" + d + ")"
  {
    var t := team + TITLE_DASH + summary + " (" + d + ")";
    assert t == team + (TITLE_DASH + summary + " (" + d + ")");
    assert t[..|team|] == team;
  }

  /** The event built for one group, before it is coloured. */
  function ToEvent(g: Group): (e: Event)
    requires |g.computers| > 0
    ensures e.id == g.id && e.start == g.startsAt && e.end == g.endsAt && e.teamId == g.teamId
    ensures e.title == EventTitle(g) && e.teamName == TeamShown(g)
    ensures |e.labels| == |e.computerIds| == |g.computers|
    ensures forall i :: 0 <= i < |g.computers| ==>
              e.labels[i] == g.computers[i].pcLabel && e.computerIds[i] == g.computers[i].id
    ensures e.backgroundColor.None? && e.borderColor.None?
  {
    Event(g.id, EventTitle(g), g.startsAt, g.endsAt, LabelsOf(g), IdsOfGroup(g),
          g.teamId, TeamShown(g), None, None)
  }

  predicate AllBooked(groups: seq<Group>) {
    forall i :: 0 <= i < |groups| ==> |groups[i].computers| > 0
  }

  /** loadReservations, as the calendar runs it: one event per group, in
      the order received. */
  method BuildEvents(groups: seq<Group>) returns (events: seq<Event>)
    requires AllBooked(groups)
    ensures |events| == |groups|
    ensures forall i :: 0 <= i < |groups| ==> events[i] == ToEvent(groups[i])
  {
    events := [];
    var i := 0;
    while i < |groups|
      invariant 0 <= i <= |groups|
      invariant |events| == i
      invariant forall k :: 0 <= k < i ==> events[k] == ToEvent(groups[k])
    {
      var e := BuildEvent(groups[i]);
      EventsSnoc(events, e, groups, i);
      events := events + [e];
      i := i + 1;
    }
  }

  lemma EventsSnoc(events: seq<Event>, e: Event, groups: seq<Group>, i: nat)
    requires AllBooked(groups) && i < |groups| && |events| == i && e == ToEvent(groups[i])
    requires forall k :: 0 <= k < i ==> events[k] == ToEvent(groups[k])
    ensures forall k :: 0 <= k < i + 1 ==> (events + [e])[k] == ToEvent(groups[k])
  {
    var t := events + [e];
    forall k | 0 <= k < i + 1 ensures t[k] == ToEvent(groups[k]) {
      if k < i {
        assert t[k] == events[k];
      } else {
        assert t[k] == e;
      }
    }
  }

  /** The event of one group: its labels summarised, the title assembled. */
  method BuildEvent(g: Group) returns (e: Event)
    requires |g.computers| > 0
    ensures e == ToEvent(g)
  {
    var labels := LabelsOf(g);
    var summary := SummarizePcLabels(labels);
    var title := TeamShown(g) + TITLE_DASH + summary + " (" + NatToString(|labels|) + ")";
    e := Event(g.id, title, g.startsAt, g.endsAt, labels, IdsOfGroup(g), g.teamId, TeamShown(g), None, None);
  }

  /* ---------- colours ---------- */

  /** `(t.gameTitle || '').toLowerCase().trim()`. */
  function NormalizedGame(t: Team): (n: string)
    ensures forall i :: 0 <= i < |n| ==> !('A' <= n[i] <= 'Z')
    ensures n == [] || (!IsSpace(n[0]) && !IsSpace(n[|n| - 1]))
  {
    NoUpperAfterTrim(ToLower(t.gameTitle));
    Trim(ToLower(t.gameTitle))
  }

  /** The colour key is the game title lower-cased, with exactly its
      leading and trailing white space removed. */
  lemma NormalizedGameSlice(t: Team)
    ensures exists a :: LowerSliceAt(t.gameTitle, NormalizedGame(t), a)
  {
    var n := NormalizedGame(t);
    var a :| TrimmedAt(ToLower(t.gameTitle), n, a);
    LowerSlice(t.gameTitle, n, a);
  }

  /** n is the lower-cased slice of the title starting at a, and the title
      holds only white space before and after that slice. */
  predicate LowerSliceAt(title: string, n: string, a: int) {
    && 0 <= a <= |title| - |n|
    && (forall i :: 0 <= i < |n| ==> n[i] == LowerChar(title[a + i]))
    && (forall i :: 0 <= i < a ==> IsSpace(title[i]))
    && (forall i :: a + |n| <= i < |title| ==> IsSpace(title[i]))
  }

  lemma LowerSlice(title: string, n: string, a: int)
    requires TrimmedAt(ToLower(title), n, a)
    ensures LowerSliceAt(title, n, a)
  {
    var low := ToLower(title);
    forall i | 0 <= i < |title| && IsSpace(low[i]) ensures IsSpace(title[i]) {
      LowerCharKeepsSpace(title[i]);
    }
    forall i | 0 <= i < |n| ensures n[i] == LowerChar(title[a + i]) {
      assert n[i] == low[a + i];
    }
  }

  /** The last team in the list with this id, if any. */
  function LastWithId(ts: seq<Team>, id: string): (r: Option<Team>)
    ensures r.None? <==> forall t :: t in ts ==> t.id != id
    ensures r.Some? ==> exists k :: 0 <= k < |ts| && ts[k] == r.value && r.value.id == id &&
                          forall j :: k < j < |ts| ==> ts[j].id != id
  {
    if ts == [] then None
    else if ts[|ts| - 1].id == id then Some(ts[|ts| - 1])
    else
      var r := LastWithId(ts[..|ts| - 1], id);
      assert forall t :: t in ts ==> t in ts[..|ts| - 1] || t == ts[|ts| - 1];
      r
  }

  /** m maps each team id of ts to the normalised game of the last team
      with that id, and holds no other key. */
  ghost predicate GamesOf(m: map<string, string>, ts: seq<Team>) {
    forall id :: GameAt(m, ts, id)
  }

  /** GamesOf at one id. */
  ghost predicate GameAt(m: map<string, string>, ts: seq<Team>, id: string) {
    && (id in m <==> LastWithId(ts, id).Some?)
    && (id in m ==> m[id] == NormalizedGame(LastWithId(ts, id).value))
  }

  /** The map from team id to normalised game title: every team's id is a
      key, and when several teams share an id the last one wins. */
  method TeamGameById(teams: seq<Team>) returns (m: map<string, string>)
    ensures forall id :: id in m <==> exists t :: t in teams && t.id == id
    ensures GamesOf(m, teams)
  {
    m := map[];
    var i := 0;
    while i < |teams|
      invariant 0 <= i <= |teams|
      invariant GamesOf(m, teams[..i])
    {
      var t := teams[i];
      assert teams[..i + 1] == teams[..i] + [t];
      GamesOfSnoc(m, teams[..i], t, m[t.id := NormalizedGame(t)], teams[..i + 1]);
      m := m[t.id := NormalizedGame(t)];
      i := i + 1;
    }
    assert teams[..i] == teams;
    forall id ensures id in m <==> exists t :: t in teams && t.id == id {
      assert GameAt(m, teams, id);
    }
  }

  lemma GamesOfSnoc(m: map<string, string>, ts: seq<Team>, t: Team, m2: map<string, string>, ts2: seq<Team>)
    requires GamesOf(m, ts)
    requires m2 == m[t.id := NormalizedGame(t)] && ts2 == ts + [t]
    ensures GamesOf(m2, ts2)
  {
    forall id ensures GameAt(m2, ts2, id) {
      assert GameAt(m, ts, id);
      LastWithIdSnoc(ts, t, id);
    }
  }

  lemma LastWithIdSnoc(ts: seq<Team>, t: Team, id: string)
    ensures LastWithId(ts + [t], id) == if t.id == id then Some(t) else LastWithId(ts, id)
  {
    assert (ts + [t])[..|ts|] == ts;
  }

  /** GAME_COLORS: lower-case game title to colour. */
  const GAME_COLORS: map<string, string> := map[
    "valorant" := "#a78bfa",
    "cs2" := "#22c55e",
    "league of legends" := "#f87171",
    "rocket league" := "#f97316",
    "dota 2" := "#ef4444",
    "overwatch" := "#facc15",
    "fifa" := "#8b5cf6",
    "apex legends" := "#eb8f34",
    "call of duty" := "#34d399",
    "fortnite" := "#f87171",
    "udem class" := "#f472b6"
  ]

  const DEFAULT_COLOR: string := "#3b82f6"

  /** `teamId ? teamGameById.get(teamId) || '' : ''`. */
  function ColorKey(games: map<string, string>, teamId: string): (k: string)
    ensures k != "" ==> teamId != "" && teamId in games && k == games[teamId]
    ensures teamId == "" || teamId !in games ==> k == ""
  {
    if teamId != "" && teamId in games then games[teamId] else ""
  }

  /** The colour of an event: the palette colour of its team's game, or the
      default blue for an unknown team or a game outside the palette. Only
      the palette's own entries are consulted. */
  function EventColor(games: map<string, string>, teamId: string): (c: string)
    ensures c == DEFAULT_COLOR || c in GAME_COLORS.Values
    ensures teamId != "" && teamId in games && games[teamId] in GAME_COLORS ==> c == GAME_COLORS[games[teamId]]
    ensures teamId == "" || teamId !in games || games[teamId] !in GAME_COLORS ==> c == DEFAULT_COLOR
  {
    var key := ColorKey(games, teamId);
    assert "" !in GAME_COLORS;
    if key in GAME_COLORS then GAME_COLORS[key] else DEFAULT_COLOR
  }

  /** `{ ...e, backgroundColor: color, borderColor: color }`. */
  function Colorize(games: map<string, string>, e: Event): (r: Event)
    ensures r.backgroundColor == r.borderColor == Some(EventColor(games, e.teamId))
    ensures r.(backgroundColor := None, borderColor := None) == e.(backgroundColor := None, borderColor := None)
  {
    var c := EventColor(games, e.teamId);
    e.(backgroundColor := Some(c), borderColor := Some(c))
  }

  /** A value read from a JavaScript object: a string, or a property the
      object inherits from Object.prototype (a function or an object). */
  datatype JsValue = Str(s: string) | Inherited(name: string)

  /** The properties every object literal inherits from Object.prototype. */
  const OBJECT_PROTOTYPE_KEYS: set<string> := {
    "constructor", "__proto__", "toString", "toLocaleString", "valueOf",
    "hasOwnProperty", "isPrototypeOf", "propertyIsEnumerable",
    "__defineGetter__", "__defineSetter__", "__lookupGetter__", "__lookupSetter__"
  }

  /** `GAME_COLORS[key]` on the object literal: its own entries first, then
      Object.prototype; None is `undefined`. */
  function GameColorsIndex(key: string): (v: Option<JsValue>)
    ensures key in GAME_COLORS ==> v == Some(Str(GAME_COLORS[key]))
    ensures key !in GAME_COLORS && key in OBJECT_PROTOTYPE_KEYS ==> v == Some(Inherited(key))
    ensures v.None? <==> key !in GAME_COLORS && key !in OBJECT_PROTOTYPE_KEYS
  {
    if key in GAME_COLORS then Some(Str(GAME_COLORS[key]))
    else if key in OBJECT_PROTOTYPE_KEYS then Some(Inherited(key))
    else None
  }

  /** The colour as the component computes it: `GAME_COLORS[key] ?? '#3b82f6'`. */
  function EventColorAsWritten(games: map<string, string>, teamId: string): (c: JsValue)
    ensures ColorKey(games, teamId) !in OBJECT_PROTOTYPE_KEYS ==> c == Str(EventColor(games, teamId))
    ensures ColorKey(games, teamId) !in GAME_COLORS && ColorKey(games, teamId) in OBJECT_PROTOTYPE_KEYS ==>
              c == Inherited(ColorKey(games, teamId))
  {
    match GameColorsIndex(ColorKey(games, teamId))
    case None => Str(DEFAULT_COLOR)
    case Some(v) => v
  }

  /** A team whose game is called "Constructor" gets Object.prototype's
      constructor function as its event colour instead of a colour string. */
  lemma ConstructorGameGetsNoColour(games: map<string, string>)
    requires "team-1" in games
    requires games["team-1"] == NormalizedGame(Team("team-1", "Builders", "Constructor"))
    ensures EventColorAsWritten(games, "team-1") == Inherited("constructor")
    ensures EventColor(games, "team-1") == DEFAULT_COLOR
  {
    ConstructorNormalizes();
    ConstructorIsInherited();
    InheritedKeyColour(games, "team-1", "constructor");
  }

  lemma ConstructorIsInherited()
    ensures "constructor" in OBJECT_PROTOTYPE_KEYS && "constructor" !in GAME_COLORS
  {
  }

  /** A team whose game key names an inherited member gets that member as
      written, and the default colour as intended. */
  lemma InheritedKeyColour(games: map<string, string>, teamId: string, k: string)
    requires teamId != "" && teamId in games && games[teamId] == k
    requires k !in GAME_COLORS && k in OBJECT_PROTOTYPE_KEYS
    ensures EventColorAsWritten(games, teamId) == Inherited(k)
    ensures EventColor(games, teamId) == DEFAULT_COLOR
  {
  }

  lemma ConstructorNormalizes()
    ensures NormalizedGame(Team("team-1", "Builders", "Constructor")) == "constructor"
  {
    var title, w := "Constructor", "constructor";
    forall i | 0 <= i < |title| ensures LowerChar(title[i]) == w[i] {
      if i == 0 {
        assert title[0] == 'C' && w[0] == 'c';
      } else {
        assert title[i] == w[i] && !('A' <= w[i] <= 'Z');
      }
    }
    LowerAll(title, w);
    TrimUnpadded(w);
  }

  lemma LowerAll(s: string, w: string)
    requires |s| == |w| && forall i :: 0 <= i < |s| ==> LowerChar(s[i]) == w[i]
    ensures ToLower(s) == w
  {
  }

  lemma TrimUnpadded(w: string)
    requires w != [] && !IsSpace(w[0]) && !IsSpace(w[|w| - 1])
    ensures Trim(w) == w
  {
  }

  /* ---------- live reload ---------- */

  /** The `type` field of a parsed stream message: missing or null (also
      when the message itself is null or not an object), present but falsy,
      or truthy, carried as String(msg.type). */
  datatype TypeField = Absent | Falsy | Truthy(text: string)

  /** What `ev.data` holds: nothing, text JSON.parse rejects, or a message. */
  datatype StreamData = NoData | Malformed | Parsed(msgType: TypeField)

  const RESERVATION_PREFIX: string := "reservation."

  /** The calendar reloads exactly on messages whose type starts with
      "reservation."; empty and malformed data are ignored. */
  function ShouldReload(d: StreamData): (r: bool)
    ensures r <==> exists suffix: string :: d == Parsed(Truthy(RESERVATION_PREFIX + suffix))
  {
    if d.Parsed? && d.msgType.Truthy? && RESERVATION_PREFIX <= d.msgType.text then
      var text := d.msgType.text;
      assert text == RESERVATION_PREFIX + text[|RESERVATION_PREFIX|..];
      true
    else
      assert forall suffix: string :: RESERVATION_PREFIX <= RESERVATION_PREFIX + suffix;
      false
  }
}
