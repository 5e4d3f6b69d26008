/** String primitives the dictator-game code relies on: Python's `str.find`,
    `str.rfind`, `str.replace`, `str(int)` and the `"{:,}"` thousands format,
    written with explicit index arithmetic over `seq<char>`. */
module Text {

  /** Python `s.find(c, from)`: the first index at or after `from` holding `c`,
      or -1 when there is none (also when `from` is past the end). */
  function FindFrom(s: string, c: char, from: nat): (r: int)
    decreases |s| - from
    ensures r == -1 || (from <= r < |s| && s[r] == c)
  {
    if from >= |s| then -1
    else if s[from] == c then from
    else FindFrom(s, c, from + 1)
  }

  /** `FindFrom` finds the first occurrence: nothing before the result holds
      `c`, and -1 means nothing from `from` on does. */
  lemma {:induction false} FindFromIsFirst(s: string, c: char, from: nat)
    ensures FindFrom(s, c, from) == -1 ==> forall i :: from <= i < |s| ==> s[i] != c
    ensures FindFrom(s, c, from) != -1 ==> forall i :: from <= i < FindFrom(s, c, from) ==> s[i] != c
    decreases |s| - from
  {
    if from < |s| && s[from] != c {
      FindFromIsFirst(s, c, from + 1);
    }
  }

  /** Python `s.rfind(c)`: the last index holding `c`, or -1. */
  function RFind(s: string, c: char): (r: int)
    ensures r == -1 || (0 <= r < |s| && s[r] == c)
  {
    if |s| == 0 then -1
    else if s[|s| - 1] == c then |s| - 1
    else RFind(s[..|s| - 1], c)
  }

  /** `RFind` finds the last occurrence: nothing after the result holds `c`,
      and -1 means `c` does not occur. */
  lemma {:induction false} RFindIsLast(s: string, c: char)
    ensures RFind(s, c) == -1 ==> forall i :: 0 <= i < |s| ==> s[i] != c
    ensures RFind(s, c) != -1 ==> forall i :: RFind(s, c) < i < |s| ==> s[i] != c
    decreases |s|
  {
    if |s| > 0 && s[|s| - 1] != c {
      RFindIsLast(s[..|s| - 1], c);
    }
  }

  /** `pat` occurs in `s` starting at index `k`. */
  ghost predicate OccursAt(s: string, pat: string, k: int)
  {
    0 <= k && k + |pat| <= |s| && s[k..k + |pat|] == pat
  }

  ghost predicate Contains(s: string, pat: string)
  {
    exists k :: OccursAt(s, pat, k)
  }

  /** No character of `a` appears in `b`. */
  ghost predicate Disjoint(a: string, b: string)
  {
    forall i, j :: 0 <= i < |a| && 0 <= j < |b| ==> a[i] != b[j]
  }

  /** Python `s.replace(pat, rep)`: every non-overlapping occurrence of `pat`,
      found left to right, is replaced by `rep`. With an empty `pat`, Python
      inserts `rep` before every character and at the end. */
  function Replace(s: string, pat: string, rep: string): string
    decreases |s|
  {
    if |pat| == 0 then
      if |s| == 0 then rep else rep + [s[0]] + Replace(s[1..], pat, rep)
    else if |s| < |pat| then s
    else if s[..|pat|] == pat then rep + Replace(s[|pat|..], pat, rep)
    else [s[0]] + Replace(s[1..], pat, rep)
  }

  /** When the input starts with `pat`, the output starts with `rep`, so a
      string sharing no character with `rep` cannot lead the output. */
  lemma ReplaceStartsWithRep(t: string, pat: string, rep: string, w: string)
    requires |pat| > 0 && |rep| > 0 && |pat| <= |t| && t[..|pat|] == pat
    requires |w| > 0 && Disjoint(w, rep)
    ensures Replace(t, pat, rep)[0] != w[0]
  {
  }

  /** If the output of a replacement starts with `w`, and `w` shares no
      character with a non-empty `rep`, then no replacement happened inside
      that prefix: the input starts with `w` as well. */
  lemma {:induction false} ReplaceKeepsPrefix(t: string, pat: string, rep: string, w: string)
    requires |pat| > 0 && |rep| > 0
    requires Disjoint(w, rep)
    requires |w| <= |Replace(t, pat, rep)| && Replace(t, pat, rep)[..|w|] == w
    ensures |w| <= |t| && t[..|w|] == w
    decreases |t|
  {
    var out := Replace(t, pat, rep);
    if |w| == 0 {
    } else if |t| < |pat| {
    } else if t[..|pat|] == pat {
      ReplaceStartsWithRep(t, pat, rep, w);
      assert false;
    } else {
      var rest := Replace(t[1..], pat, rep);
      assert out == [t[0]] + rest;
      assert w[0] == t[0];
      assert |w[1..]| <= |rest|;
      assert rest[..|w[1..]|] == w[1..] by {
        forall i | 0 <= i < |w[1..]|
          ensures rest[i] == w[1..][i]
        {
          assert out[i + 1] == rest[i];
        }
      }
      assert Disjoint(w[1..], rep) by {
        forall i, j | 0 <= i < |w[1..]| && 0 <= j < |rep|
          ensures w[1..][i] != rep[j]
        {
          assert w[1..][i] == w[i + 1];
        }
      }
      ReplaceKeepsPrefix(t[1..], pat, rep, w[1..]);
      assert t == [t[0]] + t[1..];
    }
  }

  /** A string without any occurrence of `pat` is left unchanged. */
  lemma {:induction false} ReplaceWithoutOccurrence(s: string, pat: string, rep: string)
    requires |pat| > 0 && !Contains(s, pat)
    ensures Replace(s, pat, rep) == s
    decreases |s|
  {
    if |s| >= |pat| {
      assert !OccursAt(s, pat, 0);
      assert !Contains(s[1..], pat) by {
        forall k | OccursAt(s[1..], pat, k)
          ensures OccursAt(s, pat, k + 1)
        {
          assert s[k + 1..k + 1 + |pat|] == s[1..][k..k + |pat|];
        }
      }
      ReplaceWithoutOccurrence(s[1..], pat, rep);
      assert s == [s[0]] + s[1..];
    }
  }

  /** Replacing every `pat` by a non-empty `rep` that shares no character with
      `pat` leaves no occurrence of `pat` behind. */
  lemma {:induction false} ReplaceLeavesNoOccurrence(s: string, pat: string, rep: string)
    requires |pat| > 0 && |rep| > 0
    requires Disjoint(pat, rep)
    ensures !Contains(Replace(s, pat, rep), pat)
    decreases |s|
  {
    if |s| < |pat| {
      forall k | OccursAt(Replace(s, pat, rep), pat, k)
        ensures false
      {
      }
    } else if s[..|pat|] == pat {
      ReplaceLeavesNoOccurrence(s[|pat|..], pat, rep);
      NoOccurrenceAfterRep(rep, Replace(s[|pat|..], pat, rep), pat);
    } else {
      ReplaceLeavesNoOccurrence(s[1..], pat, rep);
      assert s == [s[0]] + s[1..];
      FrontNotRebuilt(s[0], s[1..], pat, rep);
      NoOccurrenceAfterKept(s[0], Replace(s[1..], pat, rep), pat);
    }
  }

  /** A slice of `a + b` that lies within `b`. */
  lemma SliceOfAppend(a: string, b: string, i: nat, j: nat)
    requires i <= j <= |b|
    ensures (a + b)[|a| + i..|a| + j] == b[i..j]
  {
  }

  /** A replacement sharing no character with `pat`, followed by a text
      without `pat`, has no `pat`. */
  lemma NoOccurrenceAfterRep(rep: string, rest: string, pat: string)
    requires |pat| > 0 && |rep| > 0
    requires Disjoint(pat, rep)
    requires !Contains(rest, pat)
    ensures !Contains(rep + rest, pat)
  {
    var out := rep + rest;
    forall k
      ensures !OccursAt(out, pat, k)
    {
      if 0 <= k && k + |pat| <= |out| {
        if k < |rep| {
          assert out[k..k + |pat|][0] == rep[k];
        } else {
          SliceOfAppend(rep, rest, k - |rep|, k - |rep| + |pat|);
          assert !OccursAt(rest, pat, k - |rep|);
        }
      }
    }
  }

  /** A character that does not start a `pat`, followed by a text without
      `pat`, has no `pat`. */
  lemma NoOccurrenceAfterKept(c: char, rest: string, pat: string)
    requires |pat| > 0
    requires |pat| <= 1 + |rest| ==> ([c] + rest)[..|pat|] != pat
    requires !Contains(rest, pat)
    ensures !Contains([c] + rest, pat)
  {
    var out := [c] + rest;
    forall k
      ensures !OccursAt(out, pat, k)
    {
      if 0 < k && k + |pat| <= |out| {
        SliceOfAppend([c], rest, k - 1, k - 1 + |pat|);
        assert !OccursAt(rest, pat, k - 1);
      }
    }
  }

  /** Replacing inside `t` cannot rebuild a `pat` that starts at a kept
      first character `c`: the output's front would be the input's. */
  lemma FrontNotRebuilt(c: char, t: string, pat: string, rep: string)
    requires |pat| > 0 && |rep| > 0
    requires Disjoint(pat, rep)
    requires |pat| <= |t| + 1 && ([c] + t)[..|pat|] != pat
    ensures |pat| <= 1 + |Replace(t, pat, rep)| ==> ([c] + Replace(t, pat, rep))[..|pat|] != pat
  {
    var rest := Replace(t, pat, rep);
    var out := [c] + rest;
    var w := pat[1..];
    if |pat| <= |out| && out[..|pat|] == pat {
      assert rest[..|w|] == w by {
        forall i | 0 <= i < |w|
          ensures rest[i] == w[i]
        {
          assert out[i + 1] == pat[i + 1];
        }
      }
      assert Disjoint(w, rep) by {
        forall i, j | 0 <= i < |w| && 0 <= j < |rep|
          ensures w[i] != rep[j]
        {
          assert w[i] == pat[i + 1];
        }
      }
      ReplaceKeepsPrefix(t, pat, rep, w);
    }
  }

  // ---------------------------------------------------------------------
  // Where a replacement lands

  /** A prefix in which `pat`'s first character never appears is copied
      through unchanged, and the replacement goes on after it. */
  lemma {:induction false} ReplaceCleanPrefix(x: string, y: string, pat: string, rep: string)
    requires |pat| > 0 && pat[0] !in x
    ensures Replace(x + y, pat, rep) == x + Replace(y, pat, rep)
    decreases |x|
  {
    if |x| == 0 {
      assert x + y == y;
    } else {
      var s := x + y;
      if |s| < |pat| {
        assert Replace(y, pat, rep) == y;
      } else {
        assert s[..|pat|][0] == x[0];
        assert s[1..] == x[1..] + y;
        ReplaceCleanPrefix(x[1..], y, pat, rep);
        assert x == [x[0]] + x[1..];
      }
    }
  }

  /** A text that starts with `pat` starts, once replaced, with `rep`. */
  lemma ReplaceAtStart(pat: string, y: string, rep: string)
    requires |pat| > 0
    ensures Replace(pat + y, pat, rep) == rep + Replace(y, pat, rep)
  {
    assert (pat + y)[..|pat|] == pat;
    assert (pat + y)[|pat|..] == y;
  }

  /** A text `ph` that differs from `pat` at position `m`, and holds `pat`'s
      first character at most at its own start, passes through the
      replacement unchanged: for instance one placeholder under the
      replacement of another. */
  lemma ReplacePassesThrough(ph: string, y: string, pat: string, rep: string, m: nat)
    requires |ph| > 0 && m < |pat| && m < |ph| && ph[m] != pat[m]
    requires pat[0] !in ph[1..]
    ensures Replace(ph + y, pat, rep) == ph + Replace(y, pat, rep)
  {
    if |ph + y| < |pat| {
      ShortIsKept(ph + y, pat, rep);
      ShortIsKept(y, pat, rep);
    } else {
      PassesThroughLong(ph, y, pat, rep, m);
    }
  }

  /** The case of `ReplacePassesThrough` where the pattern fits. */
  lemma PassesThroughLong(ph: string, y: string, pat: string, rep: string, m: nat)
    requires |ph| > 0 && m < |pat| && m < |ph| && ph[m] != pat[m]
    requires pat[0] !in ph[1..]
    requires |pat| <= |ph + y|
    ensures Replace(ph + y, pat, rep) == ph + Replace(y, pat, rep)
  {
    AppendSplits(ph, y);
    MismatchIsNotPrefix(ph + y, pat, m);
    ReplaceCopiesFirst(ph + y, pat, rep);
    ReplaceCleanPrefix(ph[1..], y, pat, rep);
    ConsAppend(ph, Replace(y, pat, rep));
  }

  /** The first character and the tail of a concatenation with a non-empty
      head. */
  lemma AppendSplits(x: string, y: string)
    requires |x| > 0
    ensures (x + y)[0] == x[0] && (x + y)[1..] == x[1..] + y
    ensures forall i :: 0 <= i < |x| ==> (x + y)[i] == x[i]
  {
  }

  /** Putting a non-empty text back together from its first character. */
  lemma ConsAppend(x: string, z: string)
    requires |x| > 0
    ensures [x[0]] + (x[1..] + z) == x + z
  {
    assert [x[0]] + x[1..] == x;
  }

  /** A text that differs from the pattern at `m` does not start with it. */
  lemma MismatchIsNotPrefix(s: string, pat: string, m: nat)
    requires m < |pat| <= |s| && s[m] != pat[m]
    ensures s[..|pat|] != pat
  {
    assert s[..|pat|][m] == s[m];
  }

  /** A text shorter than a non-empty pattern is left as it is. */
  lemma ShortIsKept(s: string, pat: string, rep: string)
    requires 0 < |pat| && |s| < |pat|
    ensures Replace(s, pat, rep) == s
  {
  }

  /** A text that does not start with the pattern keeps its first
      character, and the replacement goes on after it. */
  lemma ReplaceCopiesFirst(s: string, pat: string, rep: string)
    requires 0 < |pat| <= |s| && s[..|pat|] != pat
    ensures Replace(s, pat, rep) == [s[0]] + Replace(s[1..], pat, rep)
  {
  }

  /** `pat` right after a prefix without its first character: the prefix is
      kept, `rep` takes the pattern's place, and the rest is replaced. */
  lemma ReplaceAfterCleanPrefix(pre: string, pat: string, y: string, rep: string)
    requires |pat| > 0 && pat[0] !in pre
    ensures Replace(pre + pat + y, pat, rep) == pre + rep + Replace(y, pat, rep)
  {
    assert pre + pat + y == pre + (pat + y);
    ReplaceCleanPrefix(pre, pat + y, pat, rep);
    ReplaceAtStart(pat, y, rep);
  }

  /** Another text `ph` right after such a prefix passes through whole. */
  lemma ReplaceSkipsOther(pre: string, ph: string, y: string, pat: string, rep: string, m: nat)
    requires |ph| > 0 && m < |pat| && m < |ph| && ph[m] != pat[m]
    requires pat[0] !in pre && pat[0] !in ph[1..]
    ensures Replace(pre + ph + y, pat, rep) == pre + ph + Replace(y, pat, rep)
  {
    assert pre + ph + y == pre + (ph + y);
    ReplaceCleanPrefix(pre, ph + y, pat, rep);
    ReplacePassesThrough(ph, y, pat, rep, m);
  }

  // ---------------------------------------------------------------------
  // Decimal rendering: Python's str(n) and "{:,}".format(n)

  function DigitChar(d: nat): char
    requires d < 10
  {
    "0123456789"[d]
  }

  predicate IsDigit(c: char)
  {
    '0' <= c <= '9'
  }

  /** Decimal digits of a natural number, most significant first. */
  function Digits(n: nat): string
    decreases n
  {
    if n < 10 then [DigitChar(n)] else Digits(n / 10) + [DigitChar(n % 10)]
  }

  /** Python `str(n)` for an int. */
  function Decimal(n: int): string
  {
    if n < 0 then "-" + Digits(-n) else Digits(n)
  }

  /** The three-digit, zero-padded group for `m < 1000`. */
  function Pad3(m: nat): string
    requires m < 1000
  {
    [DigitChar(m / 100), DigitChar(m / 10 % 10), DigitChar(m % 10)]
  }

  /** Digits of `n` with a comma between every group of three, from the right. */
  function Grouped(n: nat): string
    decreases n
  {
    if n < 1000 then Digits(n) else Grouped(n / 1000) + "," + Pad3(n % 1000)
  }

  /** Python `"{:,}".format(n)` for an int. */
  function GroupThousands(n: int): string
  {
    if n < 0 then "-" + Grouped(-n) else Grouped(n)
  }

  /** The string with every comma removed. */
  function StripCommas(s: string): (r: string)
    ensures ',' !in r
  {
    if |s| == 0 then []
    else if s[0] == ',' then StripCommas(s[1..])
    else [s[0]] + StripCommas(s[1..])
  }

  /** The numeric value of a string of decimal digits. */
  function DigitsValue(s: string): int
    decreases |s|
  {
    if |s| == 0 then 0
    else DigitsValue(s[..|s| - 1]) * 10 + ((s[|s| - 1] as int) - ('0' as int))
  }

  /** Only digits, commas and a minus sign: the characters either rendering
      of an amount may use, `"{:,}"` or `str`. It says nothing about where a
      comma or a minus may stand; `GroupThousandsLayout` and
      `DecimalIsCanonical` do. */
  predicate NumericChar(c: char)
  {
    IsDigit(c) || c == ',' || c == '-'
  }

  lemma {:induction false} StripCommasAppend(a: string, b: string)
    ensures StripCommas(a + b) == StripCommas(a) + StripCommas(b)
    decreases |a|
  {
    if |a| == 0 {
      assert a + b == b;
    } else {
      assert (a + b)[1..] == a[1..] + b;
      StripCommasAppend(a[1..], b);
    }
  }

  lemma {:induction false} NoCommaStrips(s: string)
    requires forall i :: 0 <= i < |s| ==> IsDigit(s[i])
    ensures StripCommas(s) == s
    decreases |s|
  {
    if |s| > 0 {
      NoCommaStrips(s[1..]);
    }
  }

  lemma {:induction false} DigitsHaveNoComma(n: nat)
    ensures StripCommas(Digits(n)) == Digits(n)
    ensures forall i :: 0 <= i < |Digits(n)| ==> IsDigit(Digits(n)[i])
    ensures |Digits(n)| > 0
    decreases n
  {
    if n >= 10 {
      DigitsHaveNoComma(n / 10);
      StripCommasAppend(Digits(n / 10), [DigitChar(n % 10)]);
    }
  }

  /** Three more digits on the right of `n / 1000` spell `n`. */
  lemma DigitsSplit3(n: nat)
    requires n >= 1000
    ensures Digits(n) == Digits(n / 1000) + Pad3(n % 1000)
  {
    var m := n % 1000;
    assert n / 10 >= 100 && n / 100 >= 10;
    assert n / 10 / 10 == n / 100;
    assert n / 100 / 10 == n / 1000;
    assert n / 10 % 10 == m / 10 % 10 by {
      assert n == (n / 1000) * 1000 + m;
      assert n / 10 == (n / 1000) * 100 + m / 10;
    }
    assert n / 100 % 10 == m / 100 by {
      assert n == (n / 1000) * 1000 + m;
      assert n / 100 == (n / 1000) * 10 + m / 100;
    }
    assert n % 10 == m % 10;
    calc {
      Digits(n);
      Digits(n / 10) + [DigitChar(n % 10)];
      Digits(n / 100) + [DigitChar(n / 10 % 10)] + [DigitChar(n % 10)];
      Digits(n / 1000) + [DigitChar(n / 100 % 10)] + [DigitChar(n / 10 % 10)] + [DigitChar(n % 10)];
      Digits(n / 1000) + Pad3(m);
    }
  }

  /** Removing the commas from the grouped rendering gives the plain digits. */
  lemma {:induction false} GroupedStripsToDigits(n: nat)
    ensures StripCommas(Grouped(n)) == Digits(n)
    decreases n
  {
    if n < 1000 {
      DigitsHaveNoComma(n);
    } else {
      var hi := Grouped(n / 1000);
      var lo := Pad3(n % 1000);
      calc {
        StripCommas(Grouped(n));
        StripCommas(hi + "," + lo);
        { StripCommasAppend(hi + ",", lo); }
        StripCommas(hi + ",") + StripCommas(lo);
        { StripCommasAppend(hi, ","); NoCommaStrips(lo); }
        StripCommas(hi) + StripCommas(",") + lo;
        { GroupedStripsToDigits(n / 1000); }
        Digits(n / 1000) + lo;
        { DigitsSplit3(n); }
        Digits(n);
      }
    }
  }

  /** Every character is a digit or a comma. */
  ghost predicate DigitsOrCommas(s: string)
  {
    forall i :: 0 <= i < |s| ==> IsDigit(s[i]) || s[i] == ','
  }

  lemma DigitsOrCommasAppend(a: string, b: string)
    requires DigitsOrCommas(a) && DigitsOrCommas(b)
    ensures DigitsOrCommas(a + b)
  {
    forall i | 0 <= i < |a + b|
      ensures IsDigit((a + b)[i]) || (a + b)[i] == ','
    {
      if i < |a| {
        assert (a + b)[i] == a[i];
      } else {
        assert (a + b)[i] == b[i - |a|];
      }
    }
  }

  lemma {:induction false} GroupedIsDigitsAndCommas(n: nat)
    ensures |Grouped(n)| > 0
    ensures DigitsOrCommas(Grouped(n))
    decreases n
  {
    if n < 1000 {
      DigitsHaveNoComma(n);
    } else {
      var hi := Grouped(n / 1000);
      var lo := Pad3(n % 1000);
      assert DigitsOrCommas(hi + ",") by {
        GroupedIsDigitsAndCommas(n / 1000);
        DigitsOrCommasAppend(hi, ",");
      }
      assert DigitsOrCommas(lo);
      DigitsOrCommasAppend(hi + ",", lo);
    }
  }

  /** `"{:,}".format(n)` with its commas removed is `str(n)`, and it is a
      non-empty string of digits, commas and at most a leading minus. */
  lemma GroupThousandsMatchesDecimal(n: int)
    ensures StripCommas(GroupThousands(n)) == Decimal(n)
    ensures |GroupThousands(n)| > 0
    ensures forall i :: 0 <= i < |GroupThousands(n)| ==> NumericChar(GroupThousands(n)[i])
  {
    var g := if n < 0 then Grouped(-n) else Grouped(n);
    GroupedStripsToDigits(if n < 0 then -n else n);
    GroupedIsDigitsAndCommas(if n < 0 then -n else n);
    if n < 0 {
      StripCommasAppend("-", g);
    }
  }

  /** A number below 1000 has at most three digits. */
  lemma ShortDigits(n: nat)
    requires n < 1000
    ensures |Digits(n)| <= 3
  {
    if 10 <= n < 100 {
      assert |Digits(n / 10)| == 1;
    } else if 100 <= n {
      assert |Digits(n / 10 / 10)| == 1;
      assert |Digits(n / 10)| == 2;
    }
  }

  /** Commas exactly at the positions a multiple of four from the end, the
      first character excluded. */
  ghost predicate CommasEveryFourth(g: string)
  {
    forall i :: 0 <= i < |g| ==> (g[i] == ',' <==> 0 < i && (|g| - i) % 4 == 0)
  }

  /** A comma and three non-commas appended to a well-grouped head keep it
      well grouped. */
  lemma CommaGroupStep(h: string, lo: string)
    requires |h| > 0 && CommasEveryFourth(h)
    requires |lo| == 3 && ',' !in lo
    ensures CommasEveryFourth(h + "," + lo)
  {
    var g := h + "," + lo;
    forall i | 0 <= i < |g|
      ensures g[i] == ',' <==> 0 < i && (|g| - i) % 4 == 0
    {
      if i < |h| {
        assert g[i] == h[i];
      } else if i > |h| {
        assert g[i] == lo[i - |h| - 1];
      }
    }
  }

  /** A number below 1000 is grouped as its plain digits: no comma, and
      at most three characters. */
  lemma ShortGrouped(n: nat)
    requires n < 1000
    ensures CommasEveryFourth(Grouped(n)) && |Grouped(n)| % 4 != 0
  {
    DigitsHaveNoComma(n);
    ShortDigits(n);
  }

  /** The three digits of a group hold no comma. */
  lemma Pad3HasNoComma(m: nat)
    requires m < 1000
    ensures |Pad3(m)| == 3 && ',' !in Pad3(m)
  {
  }

  /** Where the grouping puts its commas: one in front of every group of
      three digits counted from the right and nowhere else, so one to three
      digits lead. For instance `1,234,567`, and never `1,2,3,4` or
      `1234,567`. */
  lemma {:induction false} GroupedCommaPositions(n: nat)
    ensures |Grouped(n)| % 4 != 0
    ensures CommasEveryFourth(Grouped(n))
    decreases n
  {
    if n < 1000 {
      ShortGrouped(n);
    } else {
      GroupedCommaPositions(n / 1000);
      GroupedIsDigitsAndCommas(n / 1000);
      Pad3HasNoComma(n % 1000);
      CommaGroupStep(Grouped(n / 1000), Pad3(n % 1000));
    }
  }

  /** The layout of `"{:,}".format(n)`: a negative number is the grouping of
      its magnitude behind a minus sign, and the grouping of a natural number
      has its commas exactly in front of each group of three digits from the
      right. Together with `GroupThousandsMatchesDecimal` this fixes every
      character. */
  lemma GroupThousandsLayout(n: int)
    ensures n < 0 ==> GroupThousands(n) == "-" + GroupThousands(-n)
    ensures n >= 0 ==> |GroupThousands(n)| % 4 != 0
    ensures n >= 0 ==> forall i :: 0 <= i < |GroupThousands(n)| ==>
              (GroupThousands(n)[i] == ',' <==> 0 < i && (|GroupThousands(n)| - i) % 4 == 0)
  {
    GroupedCommaPositions(if n < 0 then -n else n);
    assert n >= 0 ==> CommasEveryFourth(GroupThousands(n));
  }

  /** The digits of a natural number never start with a zero, unless the
      number is zero itself. */
  lemma {:induction false} NoLeadingZero(n: nat)
    ensures |Digits(n)| > 0
    ensures Digits(n)[0] == '0' <==> n == 0
    decreases n
  {
    if n >= 10 {
      NoLeadingZero(n / 10);
      assert Digits(n)[0] == Digits(n / 10)[0];
    }
  }

  /** `str(n)` for an int: a non-empty string of digits, with a minus sign
      in front exactly when `n` is negative and nowhere else. */
  lemma DecimalIsNumeric(n: int)
    ensures |Decimal(n)| > 0
    ensures Decimal(n)[0] == '-' <==> n < 0
    ensures forall i :: 0 <= i < |Decimal(n)| ==>
              IsDigit(Decimal(n)[i]) || (i == 0 && n < 0 && Decimal(n)[i] == '-')
    ensures forall i :: 0 <= i < |Decimal(n)| ==> NumericChar(Decimal(n)[i])
  {
    DigitsHaveNoComma(if n < 0 then -n else n);
  }

  /** `str(n)` is the canonical decimal form: after the sign, the digits
      read back as the magnitude of `n` and lead with a zero only for zero,
      so two ints with the same `str` are equal. */
  lemma DecimalIsCanonical(n: int)
    ensures var d := if n < 0 then Decimal(n)[1..] else Decimal(n);
            && |d| > 0
            && DigitsValue(d) == (if n < 0 then -n else n)
            && (d[0] == '0' <==> n == 0)
    ensures forall m: int :: Decimal(m) == Decimal(n) ==> m == n
  {
    var a := if n < 0 then -n else n;
    DigitsRoundTrip(a);
    NoLeadingZero(a);
    assert (if n < 0 then Decimal(n)[1..] else Decimal(n)) == Digits(a);
    forall m: int | Decimal(m) == Decimal(n)
      ensures m == n
    {
      DecimalIsNumeric(m);
      DecimalIsNumeric(n);
      var b := if m < 0 then -m else m;
      DigitsRoundTrip(b);
      assert (m < 0) == (n < 0);
      assert (if m < 0 then Decimal(m)[1..] else Decimal(m)) == Digits(b);
      assert Digits(b) == Digits(a);
    }
  }

  /** The digits round-trip: reading `Digits(n)` back gives `n`. */
  lemma {:induction false} DigitsRoundTrip(n: nat)
    ensures DigitsValue(Digits(n)) == n
    decreases n
  {
    if n >= 10 {
      DigitsRoundTrip(n / 10);
      var s := Digits(n);
      assert s[..|s| - 1] == Digits(n / 10);
    }
  }

  /** The amounts the source's own examples show. */
  lemma GroupThousandsExamples()
    ensures GroupThousands(1000000) == "1,000,000"
    ensures GroupThousands(5000) == "5,000"
    ensures GroupThousands(10000) == "10,000"
    ensures GroupThousands(-1000) == "-1,000"
    ensures GroupThousands(999) == "999"
  {
    assert Pad3(0) == "000";
    assert Grouped(1) == "1" && Grouped(5) == "5" && Grouped(10) == "10";
    assert Grouped(1000) == "1,000";
    assert Grouped(1000000) == Grouped(1000) + "," + Pad3(0);
  }
}
