/** The built-in string operations of Python that the table engine and the
    KML post-pass rely on, with their edge cases written out: ordering of
    `str` values, `str.find`, `str.replace`, `str.endswith`, `str.lower`,
    `str(n)` and `hex(n)`. */
module PyStr {
  import opened Errors
  import opened PyList

  // ---------------------------------------------------------------------------
  // Ordering: Python compares strings code point by code point, and a proper
  // prefix sorts first.

  predicate Less(a: string, b: string)
    ensures Less(a, b) ==> a != b
  {
    if |a| == 0 then |b| > 0
    else if |b| == 0 then false
    else if a[0] != b[0] then a[0] < b[0]
    else Less(a[1..], b[1..])
  }

  /** The non-strict order `a <= b`. */
  predicate LessEq(a: string, b: string) {
    !Less(b, a)
  }

  lemma {:induction false} LessIrreflexive(a: string)
    ensures !Less(a, a)
  {
    if |a| > 0 {
      LessIrreflexive(a[1..]);
    }
  }

  lemma {:induction false} LessTransitive(a: string, b: string, c: string)
    requires Less(a, b) && Less(b, c)
    ensures Less(a, c)
  {
    if |a| > 0 && a[0] == b[0] && b[0] == c[0] {
      LessTransitive(a[1..], b[1..], c[1..]);
    }
  }

  lemma {:induction false} LessTotal(a: string, b: string)
    requires a != b
    ensures Less(a, b) || Less(b, a)
  {
    if |a| > 0 && |b| > 0 && a[0] == b[0] {
      assert a == [a[0]] + a[1..] && b == [b[0]] + b[1..];
      LessTotal(a[1..], b[1..]);
    }
  }

  lemma LessAsymmetric(a: string, b: string)
    requires Less(a, b)
    ensures !Less(b, a)
  {
    if Less(b, a) {
      LessTransitive(a, b, a);
      LessIrreflexive(a);
    }
  }

  lemma LessEqTransitive(a: string, b: string, c: string)
    requires LessEq(a, b) && LessEq(b, c)
    ensures LessEq(a, c)
  {
    if Less(c, a) {
      if a == b {
      } else {
        LessTotal(a, b);
        LessTransitive(c, a, b);
      }
    }
  }

  lemma LessEqOfLess(a: string, b: string)
    requires Less(a, b)
    ensures LessEq(a, b)
  {
    LessAsymmetric(a, b);
  }

  // ---------------------------------------------------------------------------
  // Searching

  /** Whether `p` occurs in `s` starting at position `i`. */
  predicate StartsAt(s: string, p: string, i: nat) {
    i + |p| <= |s| && s[i..i + |p|] == p
  }

  /** `s.find(p, start)` for a non-negative `start`: the first position at or
      after `start` where `p` occurs, or -1. */
  function Find(s: string, p: string, start: nat): (r: int)
    decreases |s| + 1 - start
    ensures r == -1 || (start <= r && StartsAt(s, p, r))
  {
    if start + |p| > |s| then -1
    else if StartsAt(s, p, start) then start
    else Find(s, p, start + 1)
  }

  /** `find` returns the first occurrence at or after `start`, and -1 only
      when there is none. */
  lemma {:induction false} FindFirst(s: string, p: string, start: nat)
    ensures Find(s, p, start) == -1 ==> forall i :: start <= i ==> !StartsAt(s, p, i)
    ensures Find(s, p, start) != -1 ==> forall i :: start <= i < Find(s, p, start) ==> !StartsAt(s, p, i)
    decreases |s| + 1 - start
  {
    if start + |p| <= |s| && !StartsAt(s, p, start) {
      FindFirst(s, p, start + 1);
    }
  }

  /** All positions at or after `from` where `p` occurs, in ascending order
      (overlapping occurrences included, as repeated `find` calls see them). */
  function Occurrences(s: string, p: string, from: nat): seq<nat>
    decreases |s| + 1 - from
  {
    if from + |p| > |s| then []
    else (if StartsAt(s, p, from) then [from] else []) + Occurrences(s, p, from + 1)
  }

  /** `Occurrences` lists exactly the positions of `p`, each once, ascending. */
  lemma {:induction false} OccurrencesExact(s: string, p: string, from: nat)
    ensures forall k :: 0 <= k < |Occurrences(s, p, from)| ==>
      from <= Occurrences(s, p, from)[k] && StartsAt(s, p, Occurrences(s, p, from)[k])
    ensures forall i :: from <= i && StartsAt(s, p, i) ==> i in Occurrences(s, p, from)
    ensures forall j, k :: 0 <= j < k < |Occurrences(s, p, from)| ==>
      Occurrences(s, p, from)[j] < Occurrences(s, p, from)[k]
    decreases |s| + 1 - from
  {
    if from + |p| <= |s| {
      OccurrencesExact(s, p, from + 1);
    }
  }

  /** Positions where `p` does not occur add nothing to the list. */
  lemma {:induction false} OccurrencesSkip(s: string, p: string, from: nat, to: nat)
    requires from <= to
    requires forall i :: from <= i < to ==> !StartsAt(s, p, i)
    ensures Occurrences(s, p, from) == Occurrences(s, p, to)
    decreases (to as int) - (from as int)
  {
    if from < to {
      OccurrencesSkip(s, p, from + 1, to);
      if from + |p| <= |s| {
        assert !StartsAt(s, p, from);
      }
    }
  }

  /** Past the last place `p` could start, there is nothing to find. */
  lemma OccurrencesPastEnd(s: string, p: string, from: nat)
    requires from + |p| > |s|
    ensures Occurrences(s, p, from) == []
  {
  }

  /** Repeated `find` calls enumerate the occurrences one at a time. */
  lemma {:induction false} OccurrencesByFind(s: string, p: string, from: nat)
    ensures Find(s, p, from) == -1 ==> Occurrences(s, p, from) == []
    ensures Find(s, p, from) != -1 ==>
      Occurrences(s, p, from) == [Find(s, p, from)] + Occurrences(s, p, Find(s, p, from) + 1)
    decreases |s| + 1 - from
  {
    if from + |p| > |s| {
      assert Find(s, p, from) == -1;
    } else if StartsAt(s, p, from) {
      assert Find(s, p, from) == from;
    } else {
      OccurrencesByFind(s, p, from + 1);
      assert Find(s, p, from) == Find(s, p, from + 1);
      assert Occurrences(s, p, from) == Occurrences(s, p, from + 1);
    }
  }

  /** One step of a `find` loop that collects the positions it finds: when
      `done` followed by the occurrences from `from` on is everything, the
      next `find` either ends the loop with `done` complete or extends it. */
  lemma OccurrencesNext(s: string, p: string, done: seq<nat>, from: nat)
    requires done + Occurrences(s, p, from) == Occurrences(s, p, 0)
    ensures Find(s, p, from) == -1 ==> done == Occurrences(s, p, 0)
    ensures Find(s, p, from) <= |s|
    ensures Find(s, p, from) != -1 ==>
      (done + [Find(s, p, from)]) + Occurrences(s, p, Find(s, p, from) + 1) == Occurrences(s, p, 0)
  {
    OccurrencesByFind(s, p, from);
    var next := Find(s, p, from);
    if next == -1 {
      assert done + [] == done;
    } else {
      assert (done + [next]) + Occurrences(s, p, next + 1) == done + ([next] + Occurrences(s, p, next + 1));
    }
  }

  // ---------------------------------------------------------------------------
  // Rewriting

  /** `s.replace(pat, rep)` for a non-empty `pat`: occurrences are replaced
      left to right, and a replaced occurrence is never rescanned. */
  function Replace(s: string, pat: string, rep: string): (r: string)
    requires |pat| > 0
    decreases |s|
    ensures rep == pat ==> r == s
  {
    if |s| < |pat| then s
    else if s[..|pat|] == pat then rep + Replace(s[|pat|..], pat, rep)
    else [s[0]] + Replace(s[1..], pat, rep)
  }

  /** Replacing a string that does not occur leaves the text alone. */
  lemma {:induction false} ReplaceAbsent(s: string, pat: string, rep: string)
    requires |pat| > 0
    requires forall i :: !StartsAt(s, pat, i)
    ensures Replace(s, pat, rep) == s
    decreases |s|
  {
    if |s| >= |pat| {
      assert !StartsAt(s, pat, 0);
      forall i: nat
        ensures !StartsAt(s[1..], pat, i)
      {
        assert !StartsAt(s, pat, i + 1);
        if i + |pat| <= |s[1..]| {
          assert s[1..][i..i + |pat|] == s[i + 1..i + 1 + |pat|];
        }
      }
      ReplaceAbsent(s[1..], pat, rep);
      assert s == [s[0]] + s[1..];
    }
  }

  /** Replacing by a shorter string never lengthens the text. */
  lemma {:induction false} ReplaceShrinks(s: string, pat: string, rep: string)
    requires 0 < |pat| && |rep| <= |pat|
    ensures |Replace(s, pat, rep)| <= |s|
    decreases |s|
  {
    if |s| >= |pat| {
      if s[..|pat|] == pat {
        ReplaceShrinks(s[|pat|..], pat, rep);
      } else {
        ReplaceShrinks(s[1..], pat, rep);
      }
    }
  }

  /** `s.endswith(suffix)` */
  predicate EndsWith(s: string, suffix: string) {
    |suffix| <= |s| && s[|s| - |suffix|..] == suffix
  }

  /** `str.lower()` restricted to ASCII: A-Z become a-z, every other
      character is kept. */
  function LowerChar(c: char): (r: char)
    ensures !('A' <= r <= 'Z')
    ensures !('A' <= c <= 'Z') ==> r == c
  {
    if 'A' <= c <= 'Z' then (c as int + 32) as char else c
  }

  function Lower(s: string): (r: string)
    ensures |r| == |s|
    ensures forall i :: 0 <= i < |s| ==> r[i] == LowerChar(s[i])
  {
    if s == [] then [] else [LowerChar(s[0])] + Lower(s[1..])
  }

  lemma {:induction false} LowerAppend(a: string, b: string)
    ensures Lower(a + b) == Lower(a) + Lower(b)
  {
    assert forall i :: 0 <= i < |a + b| ==> Lower(a + b)[i] == (Lower(a) + Lower(b))[i];
  }

  // ---------------------------------------------------------------------------
  // Numbers as text

  const DecimalDigits: string := "0123456789"
  const HexDigits: string := "0123456789abcdef"

  /** The value of a digit character in base `|digits|`. */
  function DigitValue(digits: string, c: char): nat {
    match IndexOf(digits, c)
    case None => 0
    case Some(k) => k
  }

  /** The positional numeral of `n` in base `|digits|`, most significant digit
      first, without leading zeros: `str(n)` for the decimal digits,
      `hex(n)[2:]` for the hexadecimal ones. */
  function Numeral(digits: string, n: nat): (r: string)
    requires |digits| >= 2
    ensures |r| >= 1
    ensures forall i :: 0 <= i < |r| ==> r[i] in digits
    decreases n
  {
    if n < |digits| then [digits[n]]
    else Numeral(digits, n / |digits|) + [digits[n % |digits|]]
  }

  /** Reading a numeral back, most significant digit first. */
  function NumeralValue(digits: string, s: string): nat
  {
    if s == [] then 0
    else NumeralValue(digits, s[..|s| - 1]) * |digits| + DigitValue(digits, s[|s| - 1])
  }

  /** The digit strings used here have no repeated digit. */
  predicate DistinctDigits(digits: string) {
    forall i, j :: 0 <= i < j < |digits| ==> digits[i] != digits[j]
  }

  lemma DigitRoundTrip(digits: string, d: nat)
    requires d < |digits| && DistinctDigits(digits)
    ensures DigitValue(digits, digits[d]) == d
  {
    assert digits[d] in digits;
  }

  /** Reading back the numeral of `n` gives `n`. */
  lemma {:induction false} NumeralRoundTrip(digits: string, n: nat)
    requires |digits| >= 2 && DistinctDigits(digits)
    ensures NumeralValue(digits, Numeral(digits, n)) == n
    decreases n
  {
    var b := |digits|;
    if n < b {
      DigitRoundTrip(digits, n);
      assert [digits[n]][..0] == [];
    } else {
      var q, m := n / b, n % b;
      DivMod(n, b);
      NumeralRoundTrip(digits, q);
      DigitRoundTrip(digits, m);
      var s := Numeral(digits, q) + [digits[m]];
      assert Numeral(digits, n) == s;
      assert s[..|s| - 1] == Numeral(digits, q);
      assert NumeralValue(digits, s)
          == NumeralValue(digits, Numeral(digits, q)) * b + DigitValue(digits, digits[m]);

    }
  }

  lemma DivMod(n: nat, b: nat)
    requires b >= 2
    ensures (n / b) * b + n % b == n
    ensures n >= b ==> 1 <= n / b < n
  {
  }

  /** Distinct numbers have distinct numerals. */
  lemma NumeralInjective(digits: string, m: nat, n: nat)
    requires |digits| >= 2 && DistinctDigits(digits)
    requires Numeral(digits, m) == Numeral(digits, n)
    ensures m == n
  {
    NumeralRoundTrip(digits, m);
    NumeralRoundTrip(digits, n);
  }

  /** Distinct numbers have distinct numerals, stated the other way round. */
  lemma NumeralDistinct(digits: string, m: nat, n: nat)
    requires |digits| >= 2 && DistinctDigits(digits)
    requires m != n
    ensures Numeral(digits, m) != Numeral(digits, n)
  {
    if Numeral(digits, m) == Numeral(digits, n) {
      NumeralInjective(digits, m, n);
    }
  }

  /** A common prefix keeps different strings different. */
  lemma PrefixKeepsDistinct(p: string, a: string, b: string)
    requires a != b
    ensures p + a != p + b
  {
    assert (p + a)[|p|..] == a && (p + b)[|p|..] == b;
  }

  /** `str(n)` for a natural number. */
  function Decimal(n: nat): (r: string)
    ensures |r| >= 1
  {
    Numeral(DecimalDigits, n)
  }

  /** `hex(n)[2:]`: the lower-case hexadecimal digits without padding; for a
      negative `n` Python writes `-0x...`, so the slice keeps the `x`. */
  function HexTail(n: int): (r: string)
    ensures |r| >= 1
    ensures n >= 0 ==> forall i :: 0 <= i < |r| ==> r[i] in HexDigits
  {
    if n >= 0 then Numeral(HexDigits, n) else "x" + Numeral(HexDigits, -n)
  }

  /** `str(n)` reads back as `n`. */
  lemma DecimalRoundTrip(n: nat)
    ensures NumeralValue(DecimalDigits, Decimal(n)) == n
  {
    NumeralRoundTrip(DecimalDigits, n);
  }

  /** `hex(n)[2:]` has one digit exactly below 16, and two digits exactly
      from 16 up to 255. */
  lemma HexLength(n: nat)
    ensures |HexTail(n)| == 1 <==> n < 16
    ensures |HexTail(n)| == 2 <==> 16 <= n < 256
  {
    assert |HexDigits| == 16;
    if n >= 16 {
      var q := n / 16;
      assert Numeral(HexDigits, n) == Numeral(HexDigits, q) + [HexDigits[n % 16]];
      if q >= 16 {
        assert Numeral(HexDigits, q) == Numeral(HexDigits, q / 16) + [HexDigits[q % 16]];
      }
    }
  }

  lemma HexRoundTrip(n: nat)
    ensures NumeralValue(HexDigits, HexTail(n)) == n
  {
    NumeralRoundTrip(HexDigits, n);
  }
}
