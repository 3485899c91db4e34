/** The few pieces of Python's `str` and `re` that the verdict parser and the
    error message of the model client rely on, stated on `seq<char>`. */
module Text {

  /** `p` is a prefix of `s`. */
  predicate StartsWith(s: string, p: string) {
    |p| <= |s| && s[..|p|] == p
  }

  /** Python's `p in s`: `p` occurs somewhere in `s`. */
  predicate Contains(s: string, p: string)
    decreases |s|
  {
    StartsWith(s, p) || (|s| > 0 && Contains(s[1..], p))
  }

  lemma {:induction false} ShorterNeverContains(s: string, p: string)
    requires |s| < |p|
    ensures !Contains(s, p)
  {
    if |s| > 0 {
      ShorterNeverContains(s[1..], p);
    }
  }

  /** An occurrence at any position is found by `in`. */
  lemma {:induction false} ContainsAt(s: string, p: string, i: nat)
    requires i + |p| <= |s| && s[i..i + |p|] == p
    ensures Contains(s, p)
  {
    if i > 0 {
      assert s[1..][i - 1..i - 1 + |p|] == s[i..i + |p|];
      ContainsAt(s[1..], p, i - 1);
    } else {
      assert s[..|p|] == s[i..i + |p|];
    }
  }

  /** A text that lacks one of the characters of `p` cannot contain `p`. */
  lemma {:induction false} MissingCharNeverContains(s: string, p: string, c: char)
    requires c in p && c !in s
    ensures !Contains(s, p)
  {
    if |s| > 0 {
      MissingCharNeverContains(s[1..], p, c);
    }
  }

  /** Python's `s.count(p)`: the occurrences of `p` found scanning left to
      right, each search resuming after the previous match, so matches never
      overlap. An empty pattern is counted once per position, `|s| + 1`. */
  function Count(s: string, p: string): (n: nat)
    ensures |p| == 0 ==> n == |s| + 1
    ensures n > 0 <==> Contains(s, p)
    decreases |s|
  {
    if |p| == 0 then |s| + 1
    else if |s| < |p| then
      ShorterNeverContains(s, p);
      0
    else if s[..|p|] == p then 1 + Count(s[|p|..], p)
    else Count(s[1..], p)
  }

  /** Matches do not overlap, so `n` matches of `p` take up `n * |p|`
      characters of `s`. */
  lemma {:induction false} CountBound(s: string, p: string)
    ensures Count(s, p) * |p| <= |s|
    decreases |s|
  {
    if |p| == 0 {
      assert Count(s, p) * |p| == 0;
    } else if |s| < |p| {
      assert Count(s, p) == 0;
    } else if s[..|p|] == p {
      assert Count(s, p) == 1 + Count(s[|p|..], p);
      CountBound(s[|p|..], p);
      OneMoreMatch(Count(s[|p|..], p), |p|, |s|);
    } else {
      assert Count(s, p) == Count(s[1..], p);
      CountBound(s[1..], p);
    }
  }

  /** One more match of length `m` fits when the others fit in what is left. */
  lemma OneMoreMatch(rest: nat, m: nat, len: nat)
    requires m <= len && rest * m <= len - m
    ensures (1 + rest) * m <= len
  {
  }

  /** A match at the front is counted and the scan resumes after it. */
  lemma CountMatchFirst(p: string, t: string)
    requires |p| > 0
    ensures Count(p + t, p) == 1 + Count(t, p)
  {
    assert (p + t)[..|p|] == p;
    assert (p + t)[|p|..] == t;
  }

  /** Characters that cannot begin a match are skipped. */
  lemma {:induction false} CountSkip(a: string, t: string, p: string)
    requires |p| > 0 && p[0] !in a
    ensures Count(a + t, p) == Count(t, p)
  {
    if a != [] {
      var s := a + t;
      assert s[0] == a[0] && a[0] != p[0];
      if |s| < |p| {
        ShorterNeverContains(t, p);
      } else {
        assert s[..|p|] != p by { assert s[..|p|][0] == s[0]; }
        assert Count(s, p) == Count(s[1..], p);
        assert s[1..] == a[1..] + t;
        CountSkip(a[1..], t, p);
      }
    } else {
      assert a + t == t;
    }
  }

  /** Python's `s.replace(a, b)` for single characters `a` and `b`. */
  function ReplaceChar(s: string, a: char, b: char): (r: string)
    ensures |r| == |s|
    ensures forall i :: 0 <= i < |s| ==> r[i] == if s[i] == a then b else s[i]
  {
    if s == [] then [] else [if s[0] == a then b else s[0]] + ReplaceChar(s[1..], a, b)
  }

  /** Python's `s.replace(c, '')`: `s` with every `c` dropped. */
  function DeleteChar(s: string, c: char): (r: string)
    ensures c !in r
    ensures forall x :: x != c ==> multiset(r)[x] == multiset(s)[x]
  {
    if s == [] then []
    else
      assert s == [s[0]] + s[1..];
      (if s[0] == c then [] else [s[0]]) + DeleteChar(s[1..], c)
  }

  lemma {:induction false} ReplaceCharAppend(s: string, t: string, a: char, b: char)
    ensures ReplaceChar(s + t, a, b) == ReplaceChar(s, a, b) + ReplaceChar(t, a, b)
  {
  }

  lemma {:induction false} DeleteCharAppend(s: string, t: string, c: char)
    ensures DeleteChar(s + t, c) == DeleteChar(s, c) + DeleteChar(t, c)
  {
    if s != [] {
      assert (s + t)[1..] == s[1..] + t;
      DeleteCharAppend(s[1..], t, c);
    } else {
      assert s + t == t;
    }
  }

  lemma {:induction false} DeleteAbsentChar(s: string, c: char)
    requires c !in s
    ensures DeleteChar(s, c) == s
  {
    if s != [] {
      DeleteAbsentChar(s[1..], c);
    }
  }

  /** A character that `\w` matches: a letter, a digit or the underscore. */
  predicate IsWordChar(c: char) {
    ('a' <= c <= 'z') || ('A' <= c <= 'Z') || ('0' <= c <= '9') || c == '_'
  }

  /** A match of the regular expression `\b1\b` at position `i`: the digit `1`
      with no word character on either side. */
  predicate StandaloneOneAt(s: string, i: nat)
    requires i < |s|
  {
    s[i] == '1'
    && (i == 0 || !IsWordChar(s[i - 1]))
    && (i + 1 == |s| || !IsWordChar(s[i + 1]))
  }

  /** Python's `re.search(r'\b1\b', s)` finds a match. */
  predicate HasStandaloneOne(s: string) {
    exists i: nat :: i < |s| && StandaloneOneAt(s, i)
  }

  predicate IsDigit(c: char) {
    '0' <= c <= '9'
  }

  function DigitChar(d: nat): (c: char)
    requires d < 10
    ensures IsDigit(c)
  {
    "0123456789"[d]
  }

  function DigitValue(c: char): nat
    requires IsDigit(c)
  {
    (c as int - '0' as int) as nat
  }

  /** Python's `str(n)` for a non-negative integer: its decimal digits, most
      significant first, with no leading zero. */
  function Decimal(n: nat): (r: string)
    ensures |r| > 0 && forall i :: 0 <= i < |r| ==> IsDigit(r[i])
    ensures n >= 10 <==> |r| >= 2
    ensures r[0] == '0' ==> n == 0
  {
    if n < 10 then [DigitChar(n)] else Decimal(n / 10) + [DigitChar(n % 10)]
  }

  /** Reads a string of decimal digits back as a number. */
  function DecimalValue(s: string): nat
    requires forall i :: 0 <= i < |s| ==> IsDigit(s[i])
  {
    if s == [] then 0 else 10 * DecimalValue(s[..|s| - 1]) + DigitValue(s[|s| - 1])
  }

  lemma {:induction false} DecimalRoundTrip(n: nat)
    ensures DecimalValue(Decimal(n)) == n
  {
    var r := Decimal(n);
    if n >= 10 {
      assert r[..|r| - 1] == Decimal(n / 10);
      DecimalRoundTrip(n / 10);
    }
  }
}
