/**
 * The string primitives the script relies on: `str.rstrip(chars)`,
 * `str.split(sep)` with a non-empty separator, and `int()` restricted to
 * decimal digit strings.
 */
module Text {
  import opened Results

  /** Python's `s.rstrip(chars)`: drop the longest suffix made only of `chars`. */
  function RStrip(s: string, chars: set<char>): (r: string)
    ensures r <= s
    ensures |r| == 0 || r[|r| - 1] !in chars
    ensures forall i :: |r| <= i < |s| ==> s[i] in chars
    decreases |s|
  {
    if |s| > 0 && s[|s| - 1] in chars then RStrip(s[..|s| - 1], chars) else s
  }

  /** Stripping a concatenation strips the second part and, only if nothing of it is left, the first. */
  lemma {:induction false} RStripConcat(a: string, b: string, chars: set<char>)
    ensures RStrip(a + b, chars) == if RStrip(b, chars) == [] then RStrip(a, chars) else a + RStrip(b, chars)
    decreases |b|
  {
    if |b| == 0 {
      assert a + b == a;
    } else if b[|b| - 1] in chars {
      assert (a + b)[..|a + b| - 1] == a + b[..|b| - 1];
      RStripConcat(a, b[..|b| - 1], chars);
    } else {
      assert (a + b)[|a + b| - 1] == b[|b| - 1];
    }
  }

  /** A string whose last character is not stripped is left as it is. */
  lemma RStripKeeps(s: string, chars: set<char>)
    requires |s| > 0 && s[|s| - 1] !in chars
    ensures RStrip(s, chars) == s
  {
  }

  /** A string made only of `chars` strips to nothing. */
  lemma RStripAll(s: string, chars: set<char>)
    requires forall i :: 0 <= i < |s| ==> s[i] in chars
    ensures RStrip(s, chars) == []
  {
  }

  /** `sep` occurs in `s` starting at index `k`. */
  predicate OccursAt(s: string, sep: string, k: nat) {
    k + |sep| <= |s| && s[k..k + |sep|] == sep
  }

  /** `sep` occurs somewhere in `s`. */
  ghost predicate Contains(s: string, sep: string) {
    exists k: nat :: OccursAt(s, sep, k)
  }

  /** The first occurrence of `sep` in `s` at or after `from`, as `str.find` returns it. */
  function Find(s: string, sep: string, from: nat): (r: Option<nat>)
    requires from <= |s|
    ensures r.Some? ==> from <= r.value && OccursAt(s, sep, r.value)
    ensures r.Some? ==> forall k: nat :: from <= k < r.value ==> !OccursAt(s, sep, k)
    ensures r.None? ==> forall k: nat :: from <= k ==> !OccursAt(s, sep, k)
    decreases |s| - from
  {
    if from + |sep| > |s| then None
    else if s[from..from + |sep|] == sep then Some(from)
    else Find(s, sep, from + 1)
  }

  /** Python's `s.split(sep)` for a non-empty `sep`: cut at each leftmost, non-overlapping occurrence. */
  function Split(s: string, sep: string): (r: seq<string>)
    requires |sep| > 0
    ensures |r| >= 1
    decreases |s|
  {
    match Find(s, sep, 0)
    case None => [s]
    case Some(k) => [s[..k]] + Split(s[k + |sep|..], sep)
  }

  /** Python's `sep.join(fields)`. */
  function Join(fields: seq<string>, sep: string): string
    decreases |fields|
  {
    if |fields| == 0 then []
    else if |fields| == 1 then fields[0]
    else fields[0] + sep + Join(fields[1..], sep)
  }

  /** Joining the pieces of a split with the same separator gives back the original string. */
  lemma {:induction false} SplitJoin(s: string, sep: string)
    requires |sep| > 0
    ensures Join(Split(s, sep), sep) == s
    decreases |s|
  {
    var f := Find(s, sep, 0);
    if f.Some? {
      var k := f.value;
      var head, rest := s[..k], s[k + |sep|..];
      var tail := Split(rest, sep);
      var fields := [head] + tail;
      SplitJoin(rest, sep);
      assert Split(s, sep) == fields;
      assert fields[0] == head && fields[1..] == tail;
      assert Join(fields, sep) == head + sep + Join(tail, sep);
      CutAround(s, k, k + |sep|);
    }
  }

  lemma ConcatAssoc(a: string, b: string, c: string)
    ensures a + b + c == a + (b + c)
  {
  }

  /** A string is the text before, at and after a slice of it. */
  lemma CutAround(s: string, i: nat, j: nat)
    requires i <= j <= |s|
    ensures s == s[..i] + s[i..j] + s[j..]
  {
  }

  /** No piece of a split contains the separator. */
  lemma {:induction false} SplitFieldsFree(s: string, sep: string)
    requires |sep| > 0
    ensures forall i :: 0 <= i < |Split(s, sep)| ==> !Contains(Split(s, sep)[i], sep)
    decreases |s|
  {
    match Find(s, sep, 0)
    case None =>
      assert Split(s, sep) == [s];
    case Some(k) =>
      var rest := s[k + |sep|..];
      SplitFieldsFree(rest, sep);
      var head := s[..k];
      assert !Contains(head, sep) by {
        forall j: nat | OccursAt(head, sep, j)
          ensures false
        {
          assert head[j..j + |sep|] == s[j..j + |sep|];
          assert OccursAt(s, sep, j);
        }
      }
      assert Split(s, sep) == [head] + Split(rest, sep);
  }

  /** A split yields a single piece exactly when the separator does not occur. */
  lemma SplitSingle(s: string, sep: string)
    requires |sep| > 0
    ensures |Split(s, sep)| == 1 <==> Find(s, sep, 0).None?
  {
    match Find(s, sep, 0)
    case None =>
    case Some(k) =>
      assert |Split(s[k + |sep|..], sep)| >= 1;
  }

  /** A split into two or more pieces cuts first at an occurrence `k`, and its second piece leads the split of the rest. */
  lemma SplitFirstCut(s: string, sep: string) returns (k: nat)
    requires |sep| > 0 && |Split(s, sep)| >= 2
    ensures OccursAt(s, sep, k)
    ensures Split(s, sep)[0] == s[..k]
    ensures Split(s, sep)[1] == Split(s[k + |sep|..], sep)[0]
  {
    k := Find(s, sep, 0).value;
    assert Split(s, sep) == [s[..k]] + Split(s[k + |sep|..], sep);
  }

  /** The first piece of a split ends at the end of the string or at the first occurrence of the separator. */
  lemma SplitFirstField(s: string, sep: string) returns (k: nat)
    requires |sep| > 0
    ensures k <= |s| && (k == |s| || OccursAt(s, sep, k))
    ensures forall i: nat :: i < k ==> !OccursAt(s, sep, i)
    ensures Split(s, sep)[0] == s[..k]
  {
    match Find(s, sep, 0)
    case None =>
      k := |s|;
    case Some(j) =>
      k := j;
  }

  /** Scanning from `a`, the first occurrence of `sep` is at `k`, or there is none and `k` is the end. */
  predicate PieceEnd(s: string, sep: string, a: nat, k: nat) {
    && a <= k <= |s|
    && (k == |s| || OccursAt(s, sep, k))
    && forall i: nat :: a <= i < k ==> !OccursAt(s, sep, i)
  }

  /**
   * The first two pieces of a split, located by `PieceEnd`: the first ends at
   * the first occurrence `k1`, the second at the first occurrence after it
   * (or the end), `k2`.
   */
  lemma TwoPiecesAt(s: string, sep: string, k1: nat, k2: nat)
    requires |sep| > 0 && PieceEnd(s, sep, 0, k1) && k1 < |s|
    requires PieceEnd(s, sep, k1 + |sep|, k2)
    ensures |Split(s, sep)| >= 2
    ensures Split(s, sep)[0] == s[..k1] && Split(s, sep)[1] == s[k1 + |sep|..k2]
  {
    var a := k1 + |sep|;
    CutAtStart(s, sep, k1);
    assert Split(s, sep)[0] == s[..k1];
    assert Split(s, sep)[1] == Split(s[a..], sep)[0];
    PieceFrom(s, sep, a, k2);
  }

  /** The first piece of the split of the suffix at `a` ends where `PieceEnd` from `a` says. */
  lemma PieceFrom(s: string, sep: string, a: nat, k: nat)
    requires |sep| > 0 && PieceEnd(s, sep, a, k)
    ensures Split(s[a..], sep)[0] == s[a..k]
  {
    var m := SplitFirstField(s[a..], sep);
    SameEnd(s, sep, a, k, m);
    SuffixPrefix(s, a, m);
  }

  /** The end `PieceEnd` finds from `a` is the end of the first piece of the suffix at `a`. */
  lemma SameEnd(s: string, sep: string, a: nat, k: nat, m: nat)
    requires PieceEnd(s, sep, a, k)
    requires m <= |s| - a && (m == |s| - a || OccursAt(s[a..], sep, m))
    requires forall i: nat :: i < m ==> !OccursAt(s[a..], sep, i)
    ensures a + m == k
  {
    ShiftOccurs(s, sep, a, m);
    ShiftOccurs(s, sep, a, k - a);
  }

  /** The first piece of a split ends where `PieceEnd` from the start says. */
  lemma PieceAtStart(t: string, sep: string, j: nat)
    requires |sep| > 0 && PieceEnd(t, sep, 0, j)
    ensures Split(t, sep)[0] == t[..j]
  {
    match Find(t, sep, 0)
    case None =>
      assert j < |t| ==> OccursAt(t, sep, j);
    case Some(m) =>
      assert m < j ==> !OccursAt(t, sep, m);
      assert j < m ==> OccursAt(t, sep, j);
  }

  /** When `PieceEnd` from the start finds an occurrence at `j`, the split cuts there first. */
  lemma CutAtStart(t: string, sep: string, j: nat)
    requires |sep| > 0 && PieceEnd(t, sep, 0, j) && j < |t|
    ensures Split(t, sep) == [t[..j]] + Split(t[j + |sep|..], sep)
  {
    var m := Find(t, sep, 0).value;
    assert m == j;
  }

  /** An occurrence in the suffix at `a` is an occurrence in the whole string, and conversely. */
  lemma ShiftOccurs(s: string, sep: string, a: nat, i: nat)
    requires a <= |s|
    ensures OccursAt(s[a..], sep, i) <==> OccursAt(s, sep, a + i)
  {
    if a + i + |sep| <= |s| {
      assert s[a..][i..i + |sep|] == s[a + i..a + i + |sep|];
    }
  }

  /** The first two pieces of a split lie between the start, an occurrence `k1`, and the end or an occurrence `k2`. */
  lemma SplitTwoFields(s: string, sep: string) returns (k1: nat, k2: nat)
    requires |sep| > 0 && |Split(s, sep)| >= 2
    ensures OccursAt(s, sep, k1)
    ensures k1 + |sep| <= k2 <= |s| && (k2 == |s| || OccursAt(s, sep, k2))
    ensures Split(s, sep)[0] == s[..k1]
    ensures Split(s, sep)[1] == s[k1 + |sep|..k2]
  {
    k1 := SplitFirstCut(s, sep);
    var m := SplitFirstField(s[k1 + |sep|..], sep);
    k2 := SecondCut(s, sep, k1, m);
  }

  /** The end of the first field after the cut at `k1`, as a position in the whole string. */
  lemma SecondCut(s: string, sep: string, k1: nat, m: nat) returns (k2: nat)
    requires OccursAt(s, sep, k1)
    requires m <= |s[k1 + |sep|..]| && (m == |s[k1 + |sep|..]| || OccursAt(s[k1 + |sep|..], sep, m))
    ensures k2 == k1 + |sep| + m
    ensures k1 + |sep| <= k2 <= |s| && (k2 == |s| || OccursAt(s, sep, k2))
    ensures s[k1 + |sep|..][..m] == s[k1 + |sep|..k2]
  {
    var a := k1 + |sep|;
    k2 := a + m;
    SuffixPrefix(s, a, m);
    if m < |s[a..]| {
      OccursInSuffix(s, sep, a, m);
    }
  }

  /** A prefix of a suffix is a slice of the whole string. */
  lemma SuffixPrefix(s: string, a: nat, j: nat)
    requires a + j <= |s|
    ensures s[a..][..j] == s[a..a + j]
  {
  }

  /** An occurrence in a suffix is an occurrence in the whole string. */
  lemma OccursInSuffix(s: string, sep: string, a: nat, m: nat)
    requires a <= |s| && OccursAt(s[a..], sep, m)
    ensures OccursAt(s, sep, a + m)
  {
    assert s[a..][m..m + |sep|] == s[a + m..a + m + |sep|];
  }

  /** A string none of whose characters starts `sep` does not contain it. */
  lemma FreeOfHead(a: string, sep: string)
    requires |sep| > 0 && Count(a, sep[0]) == 0
    ensures Find(a, sep, 0).None?
  {
    CountZero(a, sep[0]);
    forall k: nat | k + |sep| <= |a|
      ensures !OccursAt(a, sep, k)
    {
      assert a[k..k + |sep|][0] == a[k];
    }
  }

  /** When the text before the first separator cannot start one, the split cuts there. */
  lemma SplitAfterFree(a: string, sep: string, b: string)
    requires |sep| > 0 && Count(a, sep[0]) == 0
    ensures Split(a + sep + b, sep) == [a] + Split(b, sep)
  {
    CountZero(a, sep[0]);
    var s := a + sep + b;
    assert s[|a|..|a| + |sep|] == sep;
    assert OccursAt(s, sep, |a|);
    forall k: nat | k < |a|
      ensures !OccursAt(s, sep, k)
    {
      assert s[k] == a[k];
    }
    var f := Find(s, sep, 0);
    assert f.value == |a|;
    assert s[..|a|] == a;
    assert s[|a| + |sep|..] == b;
  }

  /** When the string cannot start the separator anywhere, the split is the whole string. */
  lemma SplitFree(a: string, sep: string)
    requires |sep| > 0 && Count(a, sep[0]) == 0
    ensures Split(a, sep) == [a]
  {
    FreeOfHead(a, sep);
  }

  /** A string of digits holds no tab. */
  lemma DigitsHoldNoTab(s: string)
    requires AllDigits(s)
    ensures Count(s, '\t') == 0
  {
    CountZero(s, '\t');
    forall i | 0 <= i < |s|
      ensures s[i] != '\t'
    {
      assert IsDigit(s[i]);
    }
  }

  /** The number of occurrences of the character `c` in `s`. */
  function Count(s: string, c: char): nat
    decreases |s|
  {
    if |s| == 0 then 0 else (if s[0] == c then 1 else 0) + Count(s[1..], c)
  }

  lemma {:induction false} CountConcat(a: string, b: string, c: char)
    ensures Count(a + b, c) == Count(a, c) + Count(b, c)
    decreases |a|
  {
    if |a| > 0 {
      assert (a + b)[1..] == a[1..] + b;
      CountConcat(a[1..], b, c);
    } else {
      assert a + b == b;
    }
  }

  lemma {:induction false} CountZero(s: string, c: char)
    ensures Count(s, c) == 0 <==> forall i :: 0 <= i < |s| ==> s[i] != c
    decreases |s|
  {
    if |s| > 0 {
      CountZero(s[1..], c);
      assert forall i :: 1 <= i < |s| ==> s[i] == s[1..][i - 1];
    }
  }

  /** Splitting on a one-character separator yields one more piece than there are separators. */
  lemma {:induction false} SplitCount(s: string, c: char)
    ensures |Split(s, [c])| == Count(s, c) + 1
    decreases |s|
  {
    var sep := [c];
    match Find(s, sep, 0)
    case None =>
      forall i | 0 <= i < |s|
        ensures s[i] != c
      {
        assert !OccursAt(s, sep, i);
        assert s[i..i + 1] == [s[i]];
      }
      CountZero(s, c);
    case Some(k) =>
      var head, rest := s[..k], s[k + 1..];
      assert s == head + sep + rest by {
        assert s[k..k + 1] == sep;
      }
      forall i | 0 <= i < |head|
        ensures head[i] != c
      {
        assert !OccursAt(s, sep, i);
        assert s[i..i + 1] == [s[i]];
      }
      CountZero(head, c);
      CountConcat(head, sep, c);
      CountConcat(head + sep, rest, c);
      SplitCount(rest, c);
  }

  predicate IsDigit(c: char) {
    '0' <= c <= '9'
  }

  predicate AllDigits(s: string) {
    forall i :: 0 <= i < |s| ==> IsDigit(s[i])
  }

  function DigitValue(c: char): (d: nat)
    requires IsDigit(c)
    ensures d < 10
  {
    (c as int) - ('0' as int)
  }

  function DigitChar(d: nat): (c: char)
    requires d < 10
    ensures IsDigit(c) && DigitValue(c) == d
  {
    (('0' as int) + d) as char
  }

  /**
   * `int(s)` for a non-negative decimal literal: `None` where Python would
   * raise `ValueError`. Leading zeros are accepted, as Python accepts them.
   */
  function ParseNat(s: string): (r: Option<nat>)
    ensures r.Some? <==> |s| > 0 && AllDigits(s)
    decreases |s|
  {
    if |s| == 0 || !IsDigit(s[|s| - 1]) then None
    else if |s| == 1 then Some(DigitValue(s[0]))
    else
      match ParseNat(s[..|s| - 1])
      case None => None
      case Some(v) => Some(10 * v + DigitValue(s[|s| - 1]))
  }

  /** A leading zero does not change the value `int()` gives a digit string. */
  lemma {:induction false} ParseLeadingZero(s: string)
    requires |s| > 0 && AllDigits(s)
    ensures ParseNat(['0'] + s) == ParseNat(s)
    decreases |s|
  {
    var z := ['0'] + s;
    if |s| == 1 {
      assert z[..1] == ['0'];
    } else {
      ParseLeadingZero(s[..|s| - 1]);
      assert z[..|z| - 1] == ['0'] + s[..|s| - 1];
    }
  }

  /** The decimal rendering of `n`, as `str(n)` writes it. */
  function ShowNat(n: nat): (r: string)
    ensures |r| > 0 && AllDigits(r)
    decreases n
  {
    if n < 10 then [DigitChar(n)] else ShowNat(n / 10) + [DigitChar(n % 10)]
  }

  /** Parsing the decimal rendering of a number gives the number back. */
  lemma {:induction false} ParseShowNat(n: nat)
    ensures ParseNat(ShowNat(n)) == Some(n)
    decreases n
  {
    if n >= 10 {
      var s := ShowNat(n);
      ParseShowNat(n / 10);
      assert s[..|s| - 1] == ShowNat(n / 10);
    }
  }
}
