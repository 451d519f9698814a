/** The operations of Python's `str` type that the register client relies on,
    over Dafny strings (sequences of Unicode scalar values). */
module Text {

  // ---------------------------------------------------------------------------
  // str.startswith and occurrences
  // ---------------------------------------------------------------------------

  /** `s.startswith(prefix)` */
  predicate StartsWith(s: string, prefix: string) {
    |prefix| <= |s| && s[..|prefix|] == prefix
  }

  /** `pattern` occurs in `s` at index `i` */
  predicate OccursAt(s: string, pattern: string, i: int) {
    0 <= i && i + |pattern| <= |s| && s[i..i + |pattern|] == pattern
  }

  /** `pattern in s` */
  ghost predicate Occurs(s: string, pattern: string) {
    exists i :: OccursAt(s, pattern, i)
  }

  // ---------------------------------------------------------------------------
  // str.replace(pattern, "")
  // ---------------------------------------------------------------------------

  /** `s.replace(pattern, "")`: scanning from the left, every non-overlapping
      occurrence of `pattern` is deleted, wherever it stands in `s`. What this
      means is stated by the lemmas below: a text without the pattern is left
      as it is (`RemoveAllUnchanged`), the leftmost occurrence goes first and
      the scan resumes after it (`RemoveAllFirst`), so a text holding the
      pattern loses at least one copy of it (`RemoveAllShrinks`). */
  function RemoveAll(s: string, pattern: string): (r: string)
    requires pattern != []
    ensures |r| <= |s|
    decreases |s|
  {
    if |s| < |pattern| then s
    else if StartsWith(s, pattern) then RemoveAll(s[|pattern|..], pattern)
    else [s[0]] + RemoveAll(s[1..], pattern)
  }

  /** An occurrence at index `j + 1` of `s` is one at index `j` of `s[1..]`. */
  lemma OccursAtTail(s: string, pattern: string, j: nat)
    requires |s| > 0
    ensures OccursAt(s, pattern, j + 1) <==> OccursAt(s[1..], pattern, j)
  {
    if j + 1 + |pattern| <= |s| {
      assert s[1..][j..j + |pattern|] == s[j + 1..j + 1 + |pattern|];
    }
  }

  /** Putting the first character of `s` back in front of a result for
      `s[1..]` that keeps its first `i - 1` characters: the result keeps the
      first `i` characters of `s`. */
  lemma ConsPrefix(s: string, i: nat, whole: string, tail: string, rest: string)
    requires 1 <= i <= |s|
    requires whole == [s[0]] + tail
    requires tail == s[1..][..i - 1] + rest
    ensures whole == s[..i] + rest
  {
    assert [s[0]] + s[1..][..i - 1] == s[..i];
  }

  /** Where the pattern does not occur at the front, the first character is
      kept and the scan moves on by one. */
  lemma RemoveAllSkip(s: string, pattern: string)
    requires pattern != [] && |s| > 0
    requires !OccursAt(s, pattern, 0)
    ensures RemoveAll(s, pattern) == [s[0]] + RemoveAll(s[1..], pattern)
  {
    if |s| >= |pattern| {
      assert s[..|pattern|] == s[0..|pattern|];
    } else {
      assert RemoveAll(s[1..], pattern) == s[1..];
    }
  }

  /** Where the pattern occurs at the front, it is deleted and the scan
      resumes right after it. */
  lemma RemoveAllAtStart(s: string, pattern: string)
    requires pattern != []
    requires OccursAt(s, pattern, 0)
    ensures RemoveAll(s, pattern) == RemoveAll(s[|pattern|..], pattern)
  {
    assert s[..|pattern|] == s[0..|pattern|];
  }

  /** The leftmost occurrence in `s`, at `i > 0`, is the leftmost one in
      `s[1..]`, at `i - 1`. */
  lemma LeftmostInTail(s: string, pattern: string, i: nat)
    requires 1 <= i
    requires OccursAt(s, pattern, i)
    requires forall j :: 0 <= j < i ==> !OccursAt(s, pattern, j)
    ensures !OccursAt(s, pattern, 0)
    ensures OccursAt(s[1..], pattern, i - 1)
    ensures forall j :: 0 <= j < i - 1 ==> !OccursAt(s[1..], pattern, j)
  {
    OccursAtTail(s, pattern, i - 1);
    forall j | 0 <= j < i - 1
      ensures !OccursAt(s[1..], pattern, j)
    {
      OccursAtTail(s, pattern, j);
    }
  }

  /** `replace` finds the leftmost occurrence first: everything before it is
      kept, the occurrence is deleted, and the scan resumes right after it. */
  lemma {:induction false} RemoveAllFirst(s: string, pattern: string, i: nat)
    requires pattern != []
    requires OccursAt(s, pattern, i)
    requires forall j :: 0 <= j < i ==> !OccursAt(s, pattern, j)
    ensures RemoveAll(s, pattern) == s[..i] + RemoveAll(s[i + |pattern|..], pattern)
    decreases i
  {
    if i == 0 {
      RemoveAllAtStart(s, pattern);
      assert s[..i] + RemoveAll(s[|pattern|..], pattern) == RemoveAll(s[|pattern|..], pattern);
    } else {
      var t, rest := s[1..], s[i + |pattern|..];
      assert RemoveAll(t, pattern) == t[..i - 1] + RemoveAll(rest, pattern) by {
        LeftmostInTail(s, pattern, i);
        RemoveAllFirst(t, pattern, i - 1);
        assert t[i - 1 + |pattern|..] == rest;
      }
      RemoveAllSkip(s, pattern);
      ConsPrefix(s, i, RemoveAll(s, pattern), RemoveAll(t, pattern), RemoveAll(rest, pattern));
    }
  }

  /** A text that does not contain the pattern is returned unchanged. */
  lemma {:induction false} RemoveAllUnchanged(s: string, pattern: string)
    requires pattern != []
    requires !Occurs(s, pattern)
    ensures RemoveAll(s, pattern) == s
    decreases |s|
  {
    if |s| >= |pattern| {
      assert !OccursAt(s, pattern, 0);
      RemoveAllSkip(s, pattern);
      forall j: nat
        ensures !OccursAt(s[1..], pattern, j)
      {
        OccursAtTail(s, pattern, j);
      }
      RemoveAllUnchanged(s[1..], pattern);
    }
  }

  /** An occurrence bounds the leftmost one from above. */
  lemma Leftmost(s: string, pattern: string, i: nat) returns (k: nat)
    requires OccursAt(s, pattern, i)
    ensures k <= i && OccursAt(s, pattern, k)
    ensures forall j :: 0 <= j < k ==> !OccursAt(s, pattern, j)
    decreases i
  {
    if j :| 0 <= j < i && OccursAt(s, pattern, j) {
      k := Leftmost(s, pattern, j);
    } else {
      k := i;
    }
  }

  /** A text that contains the pattern loses at least one copy of it, so
      `replace` is neither the identity nor limited to texts that start with
      the pattern. */
  lemma RemoveAllShrinks(s: string, pattern: string, i: nat)
    requires pattern != []
    requires OccursAt(s, pattern, i)
    ensures |RemoveAll(s, pattern)| <= |s| - |pattern|
  {
    var k := Leftmost(s, pattern, i);
    RemoveAllFirst(s, pattern, k);
  }

  /** When `s` is the label followed by text that does not contain the label,
      removing every occurrence is the same as stripping the leading one. */
  lemma RemoveAllOfLeadingOnly(pattern: string, t: string)
    requires pattern != []
    requires !Occurs(t, pattern)
    ensures RemoveAll(pattern + t, pattern) == t
  {
    RemoveAllAtStart(pattern + t, pattern);
    assert (pattern + t)[|pattern|..] == t;
    RemoveAllUnchanged(t, pattern);
  }

  /** A string without the first character of `pattern` does not contain it. */
  lemma NoOccurrenceWithoutFirstChar(s: string, pattern: string)
    requires pattern != []
    requires forall k :: 0 <= k < |s| ==> s[k] != pattern[0]
    ensures !Occurs(s, pattern)
  {
    forall i | 0 <= i && i + |pattern| <= |s|
      ensures !OccursAt(s, pattern, i)
    {
      assert s[i..i + |pattern|][0] == s[i];
    }
  }

  // ---------------------------------------------------------------------------
  // str.strip()
  // ---------------------------------------------------------------------------

  /** `c.isspace()`: Python's whitespace characters (bidirectional class WS, B
      or S, or general category Zs). */
  predicate IsSpace(c: char) {
    ('\t' <= c <= '\r') || ('\U{1C}' <= c <= ' ') || c == '\U{85}' || c == '\U{A0}'
    || c == '\U{1680}' || ('\U{2000}' <= c <= '\U{200A}') || c == '\U{2028}'
    || c == '\U{2029}' || c == '\U{202F}' || c == '\U{205F}' || c == '\U{3000}'
  }

  /** Where `s.strip()` starts: the first index at or after `i` that is not
      whitespace, or the end of `s`. */
  function StripStart(s: string, i: nat): (r: nat)
    requires i <= |s|
    ensures i <= r <= |s|
    ensures forall k :: i <= k < r ==> IsSpace(s[k])
    ensures r == |s| || !IsSpace(s[r])
    decreases |s| - i
  {
    if i < |s| && IsSpace(s[i]) then StripStart(s, i + 1) else i
  }

  /** Where `s.strip()` ends: the index after the last character before `j`
      that is not whitespace, going no further left than `lo`. */
  function StripEnd(s: string, lo: nat, j: nat): (r: nat)
    requires lo <= j <= |s|
    ensures lo <= r <= j
    ensures forall k :: r <= k < j ==> IsSpace(s[k])
    ensures r == lo || !IsSpace(s[r - 1])
    decreases j
  {
    if j > lo && IsSpace(s[j - 1]) then StripEnd(s, lo, j - 1) else j
  }

  /** `s.strip()`: never longer than `s`, and the result neither starts nor
      ends with whitespace. */
  function Strip(s: string): (r: string)
    ensures |r| <= |s|
    ensures r == [] || (!IsSpace(r[0]) && !IsSpace(r[|r| - 1]))
  {
    var i := StripStart(s, 0);
    s[i..StripEnd(s, i, |s|)]
  }

  /** Stripping leaves a slice of the input that neither starts nor ends with
      whitespace, and only whitespace was cut on either side. */
  lemma StripSlice(s: string)
    ensures var r, i := Strip(s), StripStart(s, 0);
      (r == [] || (!IsSpace(r[0]) && !IsSpace(r[|r| - 1])))
      && i + |r| <= |s| && r == s[i..i + |r|]
      && (forall k :: 0 <= k < i ==> IsSpace(s[k]))
      && (forall k :: i + |r| <= k < |s| ==> IsSpace(s[k]))
  {
  }

  /** A cell text that is already trimmed is left as it is. */
  lemma StripTrimmed(s: string)
    requires s == [] || (!IsSpace(s[0]) && !IsSpace(s[|s| - 1]))
    ensures Strip(s) == s
  {
  }

  /** `strip` is idempotent. */
  lemma StripIdempotent(s: string)
    ensures Strip(Strip(s)) == Strip(s)
  {
    StripSlice(s);
    StripTrimmed(Strip(s));
  }

  // ---------------------------------------------------------------------------
  // str.lower()
  // ---------------------------------------------------------------------------

  /** The capital letters whose lower case `Lower` knows: A-Z and the Latin-1
      capitals (German umlauts among them). */
  predicate IsUpper(c: char) {
    ('A' <= c <= 'Z') || ('\U{C0}' <= c <= '\U{DE}' && c != '\U{D7}')
  }

  function LowerChar(c: char): char {
    if IsUpper(c) then (c as int + 32) as char else c
  }

  /** `s.lower()`: the length is kept, and exactly the capitals change. */
  function Lower(s: string): (r: string)
    ensures |r| == |s|
    ensures forall k :: 0 <= k < |s| ==> (r[k] == s[k] <==> !IsUpper(s[k]))
  {
    seq(|s|, k requires 0 <= k < |s| => LowerChar(s[k]))
  }

  lemma LowerAppend(a: string, b: string)
    ensures Lower(a + b) == Lower(a) + Lower(b)
  {
  }

  /** The result of `lower()` holds no capital, and lowering it again changes nothing. */
  lemma LowerNormalises(s: string)
    ensures forall k :: 0 <= k < |s| ==> !IsUpper(Lower(s)[k])
    ensures Lower(Lower(s)) == Lower(s)
  {
  }

  // ---------------------------------------------------------------------------
  // str(n) for a natural number
  // ---------------------------------------------------------------------------

  predicate IsDigit(c: char) {
    '0' <= c <= '9'
  }

  function DigitChar(d: nat): (c: char)
    requires d < 10
    ensures IsDigit(c)
  {
    ('0' as int + d) as char
  }

  /** `str(n)`: the decimal digits of `n`, most significant first, without leading zeros. */
  function NatToString(n: nat): (r: string)
    ensures r != []
    decreases n
  {
    if n < 10 then [DigitChar(n)] else NatToString(n / 10) + [DigitChar(n % 10)]
  }

  /** `int(s)` for a string of decimal digits. */
  function DecimalValue(s: string): nat
    requires forall k :: 0 <= k < |s| ==> IsDigit(s[k])
  {
    if s == [] then 0
    else
      assert IsDigit(s[|s| - 1]);
      DecimalValue(s[..|s| - 1]) * 10 + (s[|s| - 1] as int - '0' as int)
  }

  /** `int(str(n)) == n`: the decimal rendering loses nothing. */
  lemma {:induction false} NatToStringRoundTrip(n: nat)
    ensures forall k :: 0 <= k < |NatToString(n)| ==> IsDigit(NatToString(n)[k])
    ensures DecimalValue(NatToString(n)) == n
    decreases n
  {
    var s := NatToString(n);
    if n >= 10 {
      NatToStringRoundTrip(n / 10);
      assert s[..|s| - 1] == NatToString(n / 10);
    }
  }

  /** `str(n)` has no leading zero: only the one-digit rendering of 0 starts with '0'. */
  lemma {:induction false} NatToStringNoLeadingZero(n: nat)
    ensures |NatToString(n)| == 1 || NatToString(n)[0] != '0'
    decreases n
  {
    if n >= 10 {
      NatToStringNoLeadingZero(n / 10);
      assert NatToString(n)[0] == NatToString(n / 10)[0];
    }
  }

  lemma NatToStringInjective(m: nat, n: nat)
    requires NatToString(m) == NatToString(n)
    ensures m == n
  {
    NatToStringRoundTrip(m);
    NatToStringRoundTrip(n);
  }

  // ---------------------------------------------------------------------------
  // sep.join(parts)
  // ---------------------------------------------------------------------------

  /** The parts with `sep` between each two neighbours, as Python's
      `sep.join(parts)`: the reference formulation of the accumulate-then-chop
      loop of `search_query_identifier`, which does not itself call `join`. */
  function Join(parts: seq<string>, sep: string): string
  {
    if |parts| == 0 then ""
    else if |parts| == 1 then parts[0]
    else Join(parts[..|parts| - 1], sep) + sep + parts[|parts| - 1]
  }

  /** Lowering a joined string lowers each part, so parts that agree up to
      case give joins that agree up to case. */
  lemma {:induction false} LowerJoin(a: seq<string>, b: seq<string>, sep: string)
    requires |a| == |b|
    requires forall k :: 0 <= k < |a| ==> Lower(a[k]) == Lower(b[k])
    ensures Lower(Join(a, sep)) == Lower(Join(b, sep))
    decreases |a|
  {
    if |a| > 1 {
      var n := |a| - 1;
      LowerJoin(a[..n], b[..n], sep);
      LowerAppend(Join(a[..n], sep) + sep, a[n]);
      LowerAppend(Join(a[..n], sep), sep);
      LowerAppend(Join(b[..n], sep) + sep, b[n]);
      LowerAppend(Join(b[..n], sep), sep);
    }
  }
}
