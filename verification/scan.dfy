/** The allocation parser's naive search for JSON candidates: find a `{`,
    then the next `}` after it, take that span, and repeat from just past the
    `}`. Nested or unbalanced braces are not tracked. */
module Scan {
  import opened Wrappers
  import opened Text

  /** A candidate: indices of its opening `{` and of the `}` that closes it. */
  datatype Span = Span(open: nat, close: nat)

  /** One round of the scan from `from`: the first `{`, then the first `}`
      at or after it; None when either `find` returns -1. */
  function NextSpan(s: string, from: nat): (r: Option<Span>)
    requires from <= |s|
    ensures r.Some? ==> from <= r.value.open < r.value.close < |s|
    ensures r.Some? ==> s[r.value.open] == '{' && s[r.value.close] == '}'
  {
    var start := FindFrom(s, '{', from);
    if start == -1 then None
    else
      var end := FindFrom(s, '}', start);
      if end == -1 then None else Some(Span(start, end))
  }

  /** One round finds the first `{` from `from` and the first `}` after it,
      and finds nothing exactly when no `{` from `from` on is followed by a
      `}`. */
  lemma NextSpanIsFirst(s: string, from: nat)
    requires from <= |s|
    ensures NextSpan(s, from).None? <==> NoPairFrom(s, from)
    ensures NextSpan(s, from).Some? ==>
              && NoOpenBetween(s, from, NextSpan(s, from).value.open)
              && Matched(s, NextSpan(s, from).value)
  {
    var start := FindFrom(s, '{', from);
    FindFromIsFirst(s, '{', from);
    if start != -1 {
      FindFromIsFirst(s, '}', start);
      if FindFrom(s, '}', start) == -1 {
        forall i, j | from <= i < j < |s| && s[i] == '{'
          ensures s[j] != '}'
        {
          assert start <= i;
        }
      }
    }
  }

  /** The `{`...`}` candidate spans of `s` found from index `from` on. */
  function ScanFrom(s: string, from: nat): (r: seq<Span>)
    requires from <= |s|
    decreases |s| - from
  {
    match NextSpan(s, from)
    case None => []
    case Some(sp) => [sp] + ScanFrom(s, sp.close + 1)
  }

  /** Every span found from `from` on lies in `s`, after `from`, with its
      `{` before its `}`. */
  lemma {:induction false} ScanBounds(s: string, from: nat)
    requires from <= |s|
    ensures forall i :: 0 <= i < |ScanFrom(s, from)| ==>
              from <= ScanFrom(s, from)[i].open < ScanFrom(s, from)[i].close < |s|
    decreases |s| - from
  {
    match NextSpan(s, from)
    case None =>
    case Some(sp) => ScanBounds(s, sp.close + 1);
  }

  /** All candidate spans of the whole text. */
  function Spans(s: string): seq<Span>
  {
    ScanFrom(s, 0)
  }

  /** The text of a candidate, braces included (`s[start:end+1]`). */
  function CandidateText(s: string, sp: Span): string
    requires sp.open <= sp.close < |s|
  {
    s[sp.open..sp.close + 1]
  }

  /** The candidate texts, in order of appearance. */
  function Candidates(s: string): (r: seq<string>)
    ensures |r| == |Spans(s)|
  {
    var spans := Spans(s);
    ScanBounds(s, 0);
    seq(|spans|, i requires 0 <= i < |spans| => CandidateText(s, spans[i]))
  }

  /** The last candidate text: the only one the parser decodes. */
  function LastCandidate(s: string): string
    requires |Spans(s)| > 0
  {
    ScanBounds(s, 0);
    CandidateText(s, Spans(s)[|Spans(s)| - 1])
  }

  // ---------------------------------------------------------------------
  // A declarative description of the scan, and its agreement with `Scan`.

  /** `sp` opens on a `{` and closes on the first `}` after it. */
  ghost predicate Matched(s: string, sp: Span)
  {
    && sp.open < sp.close < |s|
    && s[sp.open] == '{' && s[sp.close] == '}'
    && forall j :: sp.open < j < sp.close ==> s[j] != '}'
  }

  /** No `{` in `s[lo..hi]`. */
  ghost predicate NoOpenBetween(s: string, lo: nat, hi: nat)
  {
    forall j :: lo <= j < hi && j < |s| ==> s[j] != '{'
  }

  /** From `lo` on, no `{` is ever followed by a `}`. */
  ghost predicate NoPairFrom(s: string, lo: nat)
  {
    forall i, j :: lo <= i < j < |s| && s[i] == '{' ==> s[j] != '}'
  }

  /** `r` is what a left-to-right naive scan starting at `from` must find:
      each span opens at the first `{` after the previous span, closes at the
      first `}` after that, and the scan stops once no `{` is followed by a
      `}`. */
  ghost predicate IsScanOf(s: string, from: nat, r: seq<Span>)
    decreases |r|
  {
    if |r| == 0 then NoPairFrom(s, from)
    else
      && from <= r[0].open
      && Matched(s, r[0])
      && NoOpenBetween(s, from, r[0].open)
      && IsScanOf(s, r[0].close + 1, r[1..])
  }

  /** `Scan` finds exactly what the declarative description asks for. */
  lemma {:induction false} ScanIsScanOf(s: string, from: nat)
    requires from <= |s|
    ensures IsScanOf(s, from, ScanFrom(s, from))
    decreases |s| - from
  {
    var start := FindFrom(s, '{', from);
    FindFromIsFirst(s, '{', from);
    if start == -1 {
    } else {
      var end := FindFrom(s, '}', start);
      FindFromIsFirst(s, '}', start);
      if end == -1 {
        forall i, j | from <= i < j < |s| && s[i] == '{'
          ensures s[j] != '}'
        {
          assert start <= i;
        }
      } else {
        var r := ScanFrom(s, from);
        assert r[0] == Span(start, end);
        assert r[1..] == ScanFrom(s, end + 1);
        ScanIsScanOf(s, end + 1);
      }
    }
  }

  /** The declarative description determines the spans: there is only one
      way to scan a text. */
  lemma {:induction false} ScanOfIsUnique(s: string, from: nat, a: seq<Span>, b: seq<Span>)
    requires IsScanOf(s, from, a) && IsScanOf(s, from, b)
    ensures a == b
    decreases |a|
  {
    if |a| == 0 && |b| > 0 {
      assert false;
    } else if |a| > 0 && |b| == 0 {
      assert false;
    } else if |a| > 0 {
      assert a[0].open == b[0].open by {
        if a[0].open < b[0].open {
          assert false;
        } else if b[0].open < a[0].open {
          assert false;
        }
      }
      assert a[0].close == b[0].close by {
        if a[0].close < b[0].close {
          assert false;
        } else if b[0].close < a[0].close {
          assert false;
        }
      }
      ScanOfIsUnique(s, a[0].close + 1, a[1..], b[1..]);
      assert a == [a[0]] + a[1..];
      assert b == [b[0]] + b[1..];
    }
  }

  /** No candidate at all exactly when no `{` is followed by a `}` anywhere:
      for instance a truncated object `{"alloc0": 60, "alloc1": 40`. */
  lemma NoCandidatesIffNoPair(s: string)
    ensures |Spans(s)| == 0 <==> NoPairFrom(s, 0)
  {
    ScanIsScanOf(s, 0);
  }

  /** Without any `}`, there is no candidate. */
  lemma NoCloseNoCandidates(s: string)
    requires '}' !in s
    ensures |Spans(s)| == 0
  {
    NoCandidatesIffNoPair(s);
  }

  /** Every candidate text starts with `{`, ends with its only `}`. */
  lemma CandidateShape(s: string, k: nat)
    requires k < |Spans(s)|
    ensures |Candidates(s)[k]| >= 2
    ensures Candidates(s)[k][0] == '{'
    ensures Candidates(s)[k][|Candidates(s)[k]| - 1] == '}'
    ensures forall j :: 0 <= j < |Candidates(s)[k]| - 1 ==> Candidates(s)[k][j] != '}'
  {
    ScanIsScanOf(s, 0);
    MatchedAt(s, 0, Spans(s), k);
  }

  /** The candidates do not overlap and come in left-to-right order: each
      one opens after the previous one closed. */
  lemma {:induction false} SpansInOrder(s: string, from: nat)
    requires from <= |s|
    ensures forall i, j :: 0 <= i < j < |ScanFrom(s, from)| ==>
              ScanFrom(s, from)[i].close < ScanFrom(s, from)[j].open
    decreases |s| - from
  {
    match NextSpan(s, from)
    case None =>
    case Some(sp) =>
      var rest := ScanFrom(s, sp.close + 1);
      ScanCons(s, from, sp);
      ScanBounds(s, sp.close + 1);
      SpansInOrder(s, sp.close + 1);
      forall i, j | 0 <= i < j < |ScanFrom(s, from)|
        ensures ScanFrom(s, from)[i].close < ScanFrom(s, from)[j].open
      {
        assert ScanFrom(s, from)[j] == rest[j - 1];
        if i > 0 {
          assert ScanFrom(s, from)[i] == rest[i - 1];
        }
      }
  }

  /** Every span of a scan is matched. */
  lemma {:induction false} MatchedAt(s: string, from: nat, r: seq<Span>, k: nat)
    requires IsScanOf(s, from, r) && k < |r|
    ensures Matched(s, r[k])
    decreases k
  {
    if k > 0 {
      MatchedAt(s, r[0].close + 1, r[1..], k - 1);
    }
  }

  // ---------------------------------------------------------------------
  // Text that precedes the final answer does not change the final candidate.

  /** Every `{` of `a` has a `}` somewhere after it in `a`. */
  ghost predicate EveryOpenClosed(a: string)
  {
    RFind(a, '{') < RFind(a, '}') || RFind(a, '{') == -1
  }

  /** Shifting spans right by `d`. */
  function Shift(r: seq<Span>, d: nat): (t: seq<Span>)
    ensures |t| == |r|
  {
    if |r| == 0 then [] else [Span(r[0].open + d, r[0].close + d)] + Shift(r[1..], d)
  }

  lemma {:induction false} ShiftAt(r: seq<Span>, d: nat, i: nat)
    requires i < |r|
    ensures Shift(r, d)[i] == Span(r[i].open + d, r[i].close + d)
    decreases i
  {
    if i > 0 {
      ShiftAt(r[1..], d, i - 1);
    }
  }

  lemma {:induction false} FindFromAppend(a: string, b: string, c: char, k: nat)
    requires k <= |b|
    ensures FindFrom(a + b, c, |a| + k) == (if FindFrom(b, c, k) == -1 then -1 else |a| + FindFrom(b, c, k))
    decreases |b| - k
  {
    if k < |b| {
      assert (a + b)[|a| + k] == b[k];
      if b[k] != c {
        FindFromAppend(a, b, c, k + 1);
      }
    }
  }

  lemma {:induction false} FindFromPrefix(a: string, b: string, c: char, k: nat)
    requires k <= |a|
    requires FindFrom(a, c, k) != -1
    ensures FindFrom(a + b, c, k) == FindFrom(a, c, k)
    decreases |a| - k
  {
    assert (a + b)[k] == a[k];
    if a[k] != c {
      FindFromPrefix(a, b, c, k + 1);
    }
  }

  lemma {:induction false} FindFromSkip(a: string, b: string, c: char, k: nat)
    requires k <= |a|
    requires FindFrom(a, c, k) == -1
    ensures FindFrom(a + b, c, k) == FindFrom(a + b, c, |a|)
    decreases |a| - k
  {
    if k < |a| {
      assert (a + b)[k] == a[k];
      FindFromSkip(a, b, c, k + 1);
    }
  }

  function ShiftSpan(o: Option<Span>, d: nat): Option<Span>
  {
    match o
    case None => None
    case Some(sp) => Some(Span(sp.open + d, sp.close + d))
  }

  /** The next span inside the `b` part of `a + b` is `b`'s own, shifted. */
  lemma NextSpanInSuffix(a: string, b: string, k: nat)
    requires k <= |b|
    ensures NextSpan(a + b, |a| + k) == ShiftSpan(NextSpan(b, k), |a|)
  {
    FindFromAppend(a, b, '{', k);
    var st := FindFrom(b, '{', k);
    if st != -1 {
      FindFromAppend(a, b, '}', st);
    }
  }

  lemma ShiftCons(sp: Span, r: seq<Span>, d: nat)
    ensures Shift([sp] + r, d) == [Span(sp.open + d, sp.close + d)] + Shift(r, d)
  {
    assert ([sp] + r)[1..] == r;
  }

  /** Scanning `a + b` from inside `b` is scanning `b`, shifted. */
  lemma {:induction false} ScanInSuffix(a: string, b: string, k: nat)
    requires k <= |b|
    ensures ScanFrom(a + b, |a| + k) == Shift(ScanFrom(b, k), |a|)
    decreases |b| - k
  {
    NextSpanInSuffix(a, b, k);
    match NextSpan(b, k)
    case None =>
    case Some(sp) =>
      var d := |a|;
      assert ScanFrom(a + b, d + sp.close + 1) == Shift(ScanFrom(b, sp.close + 1), d) by {
        ScanInSuffix(a, b, sp.close + 1);
      }
      ScanShiftStep(a + b, b, d, k, sp);
  }

  /** One step of `ScanInSuffix`: the shifted first span, then the rest. */
  lemma ScanShiftStep(s: string, b: string, d: nat, k: nat, sp: Span)
    requires k <= |b| && d + k <= |s|
    requires NextSpan(b, k) == Some(sp)
    requires NextSpan(s, d + k) == Some(Span(sp.open + d, sp.close + d))
    requires ScanFrom(s, d + sp.close + 1) == Shift(ScanFrom(b, sp.close + 1), d)
    ensures ScanFrom(s, d + k) == Shift(ScanFrom(b, k), d)
  {
    var rest := ScanFrom(b, sp.close + 1);
    var head := Span(sp.open + d, sp.close + d);
    assert head.close + 1 == d + sp.close + 1;
    calc {
      ScanFrom(s, d + k);
      { ScanCons(s, d + k, head); }
      [head] + ScanFrom(s, head.close + 1);
      [head] + ScanFrom(s, d + sp.close + 1);
      [head] + Shift(rest, d);
      { ShiftCons(sp, rest, d); }
      Shift([sp] + rest, d);
      { ScanCons(b, k, sp); }
      Shift(ScanFrom(b, k), d);
    }
  }

  /** A span found inside `a` is found the same way in `a + b`. */
  lemma NextSpanInPrefix(a: string, b: string, from: nat)
    requires from <= |a|
    requires NextSpan(a, from).Some?
    ensures NextSpan(a + b, from) == NextSpan(a, from)
  {
    var st := FindFrom(a, '{', from);
    FindFromPrefix(a, b, '{', from);
    FindFromPrefix(a, b, '}', st);
  }

  /** In a text whose every `{` is closed, a `{` has a `}` after it. */
  lemma OpenIsClosed(a: string, st: nat)
    requires EveryOpenClosed(a)
    requires st < |a| && a[st] == '{'
    ensures FindFrom(a, '}', st) != -1
  {
    var lo := RFind(a, '{');
    var hi := RFind(a, '}');
    FindFromIsFirst(a, '}', st);
    RFindIsLast(a, '{');
    assert st <= lo < hi;
    assert a[hi] == '}';
  }

  /** With no `{` left in `a`, scanning `a + b` continues inside `b`. */
  lemma ScanAppendNoOpen(a: string, b: string, from: nat)
    requires from <= |a|
    requires FindFrom(a, '{', from) == -1
    ensures ScanFrom(a + b, from) == Shift(ScanFrom(b, 0), |a|)
  {
    FindFromSkip(a, b, '{', from);
    FindFromAppend(a, b, '{', 0);
    ScanFromSameFind(a + b, from, |a|);
    ScanInSuffix(a, b, 0);
  }

  /** If every `{` in `a` is closed within `a`, scanning `a + b` finds the
      spans of `a`, then those of `b` shifted past `a`. */
  lemma {:induction false} ScanAppend(a: string, b: string, from: nat)
    requires from <= |a|
    requires EveryOpenClosed(a)
    ensures ScanFrom(a + b, from) == ScanFrom(a, from) + Shift(ScanFrom(b, 0), |a|)
    decreases |a| - from
  {
    var st := FindFrom(a, '{', from);
    if st == -1 {
      ScanAppendNoOpen(a, b, from);
    } else {
      assert NextSpan(a, from).Some? by {
        OpenIsClosed(a, st);
      }
      var sp := NextSpan(a, from).value;
      assert NextSpan(a + b, from) == Some(sp) by {
        NextSpanInPrefix(a, b, from);
      }
      var tail := Shift(ScanFrom(b, 0), |a|);
      assert ScanFrom(a + b, sp.close + 1) == ScanFrom(a, sp.close + 1) + tail by {
        ScanAppend(a, b, sp.close + 1);
      }
      ScanCons(a + b, from, sp);
      ScanCons(a, from, sp);
      ConsStep(ScanFrom(a + b, from), ScanFrom(a, from), ScanFrom(a + b, sp.close + 1), ScanFrom(a, sp.close + 1), tail, sp);
    }
  }

  /** One step of `ScanAppend`: two scans that start with the same span,
      and whose remainders differ by `tail`, differ by `tail`. */
  lemma ConsStep(whole: seq<Span>, part: seq<Span>, restWhole: seq<Span>, restPart: seq<Span>, tail: seq<Span>, sp: Span)
    requires whole == [sp] + restWhole && part == [sp] + restPart
    requires restWhole == restPart + tail
    ensures whole == part + tail
  {
  }

  lemma ScanCons(s: string, from: nat, sp: Span)
    requires from <= |s|
    requires NextSpan(s, from) == Some(sp)
    ensures ScanFrom(s, from) == [sp] + ScanFrom(s, sp.close + 1)
  {
  }

  /** Two scan positions with the same next `{` produce the same spans. */
  lemma ScanFromSameFind(s: string, x: nat, y: nat)
    requires x <= y <= |s|
    requires FindFrom(s, '{', x) == FindFrom(s, '{', y)
    ensures ScanFrom(s, x) == ScanFrom(s, y)
  {
    assert NextSpan(s, x) == NextSpan(s, y);
  }

  /** Reasoning text before the final answer (with its braces closed) leaves
      the final candidate unchanged. */
  lemma FinalAnswerIsLastCandidate(a: string, b: string)
    requires EveryOpenClosed(a)
    requires |Spans(b)| > 0
    ensures |Spans(a + b)| > 0
    ensures LastCandidate(a + b) == LastCandidate(b)
  {
    var sb := Spans(b);
    var last := sb[|sb| - 1];
    ScanBounds(b, 0);
    var sp := Span(last.open + |a|, last.close + |a|);
    assert |Spans(a + b)| > 0 && Spans(a + b)[|Spans(a + b)| - 1] == sp by {
      ScanAppend(a, b, 0);
      LastShifted(Spans(a + b), Spans(a), sb, |a|);
    }
    CandidateOfAppend(a, b, last);
  }

  /** The last span of `x + Shift(y, d)` is the last of `y`, shifted. */
  lemma LastShifted(all: seq<Span>, x: seq<Span>, y: seq<Span>, d: nat)
    requires all == x + Shift(y, d) && |y| > 0
    ensures |all| > 0
    ensures all[|all| - 1] == Span(y[|y| - 1].open + d, y[|y| - 1].close + d)
  {
    LastOfAppend(x, Shift(y, d));
    ShiftAt(y, d, |y| - 1);
  }

  /** A candidate of `b` reads the same inside `a + b`. */
  lemma CandidateOfAppend(a: string, b: string, sp: Span)
    requires sp.open <= sp.close < |b|
    ensures CandidateText(a + b, Span(sp.open + |a|, sp.close + |a|)) == CandidateText(b, sp)
  {
    SliceOfAppend(a, b, sp.open, sp.close + 1);
  }

  lemma LastOfAppend(x: seq<Span>, y: seq<Span>)
    requires |y| > 0
    ensures (x + y)[|x + y| - 1] == y[|y| - 1]
  {
  }

  /** A text that is one `{`...`}` object with no other brace is its own
      single candidate. */
  lemma SingleCandidate(t: string)
    requires |t| >= 2 && t[0] == '{' && t[|t| - 1] == '}'
    requires forall k :: 0 < k < |t| - 1 ==> t[k] != '{' && t[k] != '}'
    ensures Spans(t) == [Span(0, |t| - 1)]
    ensures LastCandidate(t) == t
  {
    var end := FindFrom(t, '}', 0);
    FindFromIsFirst(t, '}', 0);
    assert end == |t| - 1;
    assert FindFrom(t, '{', |t|) == -1;
    assert ScanFrom(t, |t|) == [];
    assert t[0..|t|] == t;
  }
}
