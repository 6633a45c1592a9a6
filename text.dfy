/** Strings as the pages build them: the JavaScript `||` fallbacks on nullable
    columns, number-to-string conversion, `padStart`, and `join`. `Split` is
    the reading-back partner of `Join`: what a consumer of the exported CSV
    sees when it cuts a line at its separator. */
module Text {

  datatype Option<+T> = None | Some(value: T)

  /** `s || fallback` on a nullable text column: null and '' are falsy. */
  function OrElse(s: Option<string>, fallback: string): string
  {
    if s.Some? && s.value != "" then s.value else fallback
  }

  /** `s || ''`. */
  function OrEmpty(s: Option<string>): string
  {
    OrElse(s, "")
  }

  /** `s || null` on a form field that holds a string. */
  function NullIfEmpty(s: string): Option<string>
  {
    if s == "" then None else Some(s)
  }

  // ---------------------------------------------------------------------
  // Numbers as text (template literals, `toString()`, `String(n)`)

  predicate IsDigit(c: char)
  {
    '0' <= c <= '9'
  }

  predicate AllDigits(s: string)
  {
    forall i :: 0 <= i < |s| ==> IsDigit(s[i])
  }

  function DigitChar(d: nat): char
    requires d < 10
  {
    (('0' as int) + d) as char
  }

  function DigitValue(c: char): nat
    requires IsDigit(c)
  {
    (c as int) - ('0' as int)
  }

  /** The decimal notation of a non-negative integer, most significant digit first. */
  function DecimalString(n: nat): (s: string)
    ensures 1 <= |s| && AllDigits(s)
    ensures |s| == 1 <==> n < 10
    ensures |s| == 2 <==> 10 <= n < 100
    decreases n
  {
    if n < 10 then [DigitChar(n)] else DecimalString(n / 10) + [DigitChar(n % 10)]
  }

  /** The value of a string of decimal digits (the empty string reads as 0). */
  function ParseDecimal(s: string): nat
    requires AllDigits(s)
  {
    if s == [] then 0 else ParseDecimal(s[..|s| - 1]) * 10 + DigitValue(s[|s| - 1])
  }

  lemma {:induction false} ParseDecimalString(n: nat)
    ensures ParseDecimal(DecimalString(n)) == n
    decreases n
  {
    if n >= 10 {
      var s := DecimalString(n);
      assert s[..|s| - 1] == DecimalString(n / 10);
      ParseDecimalString(n / 10);
    }
  }

  /** Leading zeros do not change the value read. */
  lemma {:induction false} ParseLeadingZero(s: string)
    requires AllDigits(s)
    ensures AllDigits("0" + s) && ParseDecimal("0" + s) == ParseDecimal(s)
    decreases |s|
  {
    if s != [] {
      assert ("0" + s)[..|"0" + s| - 1] == "0" + s[..|s| - 1];
      ParseLeadingZero(s[..|s| - 1]);
    }
  }

  /** JavaScript's number-to-string conversion on an integer. */
  function IntString(i: int): (s: string)
    ensures forall k :: 0 <= k < |s| ==> IsDigit(s[k]) || s[k] == '-'
  {
    if i < 0 then "-" + DecimalString(-i) else DecimalString(i)
  }

  /** `s.padStart(width, [pad])`: left-fill with `pad` up to `width` characters. */
  function PadStart(s: string, width: nat, pad: char): (r: string)
    ensures |r| == if |s| >= width then |s| else width
    ensures r[|r| - |s|..] == s
    ensures forall k :: 0 <= k < |r| - |s| ==> r[k] == pad
    decreases width - |s|
  {
    if |s| >= width then s else PadStart([pad] + s, width, pad)
  }

  // ---------------------------------------------------------------------
  // join and split on a one-character separator

  /** `parts.join(sep)`. */
  function Join(parts: seq<string>, sep: char): string
  {
    if |parts| == 0 then ""
    else if |parts| == 1 then parts[0]
    else parts[0] + [sep] + Join(parts[1..], sep)
  }

  /** `s.split(sep)`: the pieces between separators; always at least one. */
  function Split(s: string, sep: char): (r: seq<string>)
    ensures |r| >= 1
  {
    if |s| == 0 then [""]
    else
      var rest := Split(s[1..], sep);
      if s[0] == sep then [""] + rest else [[s[0]] + rest[0]] + rest[1..]
  }

  /** Number of times `c` occurs in `s`. */
  function Occurrences(s: string, c: char): nat
  {
    multiset(s)[c]
  }

  /** Total number of times `c` occurs in the parts. */
  function OccurrencesIn(parts: seq<string>, c: char): nat
  {
    if |parts| == 0 then 0 else Occurrences(parts[0], c) + OccurrencesIn(parts[1..], c)
  }

  /** No part contains `c`. */
  predicate FreeOf(parts: seq<string>, c: char)
  {
    forall i :: 0 <= i < |parts| ==> c !in parts[i]
  }

  lemma {:induction false} SplitWithout(s: string, sep: char)
    requires sep !in s
    ensures Split(s, sep) == [s]
    decreases |s|
  {
    if |s| > 0 {
      SplitWithout(s[1..], sep);
      assert [s[0]] + s[1..] == s;
    }
  }

  lemma {:induction false} SplitAt(a: string, b: string, sep: char)
    ensures Split(a + [sep] + b, sep) == Split(a, sep) + Split(b, sep)
    decreases |a|
  {
    if |a| == 0 {
      assert a + [sep] + b == [sep] + b;
      assert ([sep] + b)[1..] == b;
    } else {
      assert (a + [sep] + b)[1..] == a[1..] + [sep] + b;
      SplitAt(a[1..], b, sep);
    }
  }

  /** One piece per separator, plus one. */
  lemma {:induction false} SplitCount(s: string, sep: char)
    ensures |Split(s, sep)| == Occurrences(s, sep) + 1
    decreases |s|
  {
    if |s| > 0 {
      assert s == [s[0]] + s[1..];
      assert multiset(s) == multiset([s[0]]) + multiset(s[1..]);
      SplitCount(s[1..], sep);
    }
  }

  /** Joining parts that do not contain the separator and splitting again gives the parts back. */
  lemma {:induction false} SplitJoin(parts: seq<string>, sep: char)
    requires |parts| >= 1 && FreeOf(parts, sep)
    ensures Split(Join(parts, sep), sep) == parts
    decreases |parts|
  {
    if |parts| == 1 {
      SplitWithout(parts[0], sep);
    } else {
      SplitWithout(parts[0], sep);
      SplitJoin(parts[1..], sep);
      SplitAt(parts[0], Join(parts[1..], sep), sep);
      assert [parts[0]] + parts[1..] == parts;
    }
  }

  /** The separator occurs once between each two parts, plus inside the parts. */
  lemma {:induction false} JoinOccurrences(parts: seq<string>, sep: char, c: char)
    requires |parts| >= 1
    ensures Occurrences(Join(parts, sep), c)
         == OccurrencesIn(parts, c) + (if c == sep then |parts| - 1 else 0)
    decreases |parts|
  {
    if |parts| > 1 {
      JoinOccurrences(parts[1..], sep, c);
      var tail := Join(parts[1..], sep);
      assert multiset(parts[0] + [sep] + tail) == multiset(parts[0]) + multiset([sep]) + multiset(tail);
    }
  }

  /** Splitting joined parts yields one piece per part plus one per separator hidden in a part. */
  lemma SplitJoinCount(parts: seq<string>, sep: char)
    requires |parts| >= 1
    ensures |Split(Join(parts, sep), sep)| == |parts| + OccurrencesIn(parts, sep)
  {
    SplitCount(Join(parts, sep), sep);
    JoinOccurrences(parts, sep, sep);
  }

  lemma {:induction false} OccurrencesInZero(parts: seq<string>, c: char)
    ensures OccurrencesIn(parts, c) == 0 <==> FreeOf(parts, c)
    decreases |parts|
  {
    if |parts| > 0 {
      OccurrencesInZero(parts[1..], c);
      assert c in parts[0] <==> multiset(parts[0])[c] > 0;
      if FreeOf(parts[1..], c) && c !in parts[0] {
        forall i | 0 <= i < |parts| ensures c !in parts[i] {
          if i > 0 { assert parts[i] == parts[1..][i - 1]; }
        }
      }
      if FreeOf(parts, c) {
        forall i | 0 <= i < |parts[1..]| ensures c !in parts[1..][i] {
          assert parts[1..][i] == parts[i + 1];
        }
      }
    }
  }

  /** A character other than the separator is in the joined string iff it is in some part. */
  lemma JoinFreeOf(parts: seq<string>, sep: char, c: char)
    requires |parts| >= 1 && c != sep
    ensures c !in Join(parts, sep) <==> FreeOf(parts, c)
  {
    JoinOccurrences(parts, sep, c);
    OccurrencesInZero(parts, c);
    assert c in Join(parts, sep) <==> multiset(Join(parts, sep))[c] > 0;
  }
}
