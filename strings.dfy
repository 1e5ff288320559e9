/** String helpers mirroring the JavaScript string operations the application uses.
    Strings are `seq<char>`; case folding is ASCII only. */
module Strings {
  import opened Wrappers
  import opened Seqs

  /** `toLowerCase` on one character, ASCII letters only. */
  function LowerChar(c: char): char
  {
    if 'A' <= c <= 'Z' then (c as int + 32) as char else c
  }

  /** `toLowerCase`, character by character. */
  function Lower(s: string): (r: string)
    ensures |r| == |s|
    ensures forall i :: 0 <= i < |s| ==> r[i] == LowerChar(s[i])
  {
    seq(|s|, i requires 0 <= i < |s| => LowerChar(s[i]))
  }

  /** `a.toLowerCase() === b.toLowerCase()`. */
  predicate EqualsIgnoringCase(a: string, b: string)
  {
    Lower(a) == Lower(b)
  }

  /** The position of the first `sep` at or after `from`, or `|s|` when there is none. */
  function IndexFrom(s: string, sep: char, from: nat): (r: nat)
    requires from <= |s|
    ensures from <= r <= |s|
    decreases |s| - from
  {
    if from == |s| then |s|
    else if s[from] == sep then from
    else IndexFrom(s, sep, from + 1)
  }

  /** `IndexFrom` finds the first separator: none occurs between `from` and the result, and the
      result is a separator unless it is the end. */
  lemma {:induction false} IndexFromSpec(s: string, sep: char, from: nat)
    requires from <= |s|
    ensures forall k :: from <= k < IndexFrom(s, sep, from) ==> s[k] != sep
    ensures IndexFrom(s, sep, from) < |s| ==> s[IndexFrom(s, sep, from)] == sep
    decreases |s| - from
  {
    if from < |s| && s[from] != sep {
      IndexFromSpec(s, sep, from + 1);
    }
  }

  /** Text before the first `sep`, or all of `s` when it has none: `s.split(sep)[0]`. */
  function FirstSegment(s: string, sep: char): string
  {
    s[..IndexFrom(s, sep, 0)]
  }

  /** The first segment is the longest prefix of `s` without `sep`: it is all of `s` exactly when
      `s` has no `sep`, and otherwise `sep` comes right after it. */
  lemma FirstSegmentSpec(s: string, sep: char)
    ensures FirstSegment(s, sep) <= s
    ensures sep !in FirstSegment(s, sep)
    ensures |FirstSegment(s, sep)| == |s| <==> sep !in s
    ensures |FirstSegment(s, sep)| < |s| ==> s[|FirstSegment(s, sep)|] == sep
  {
    IndexFromSpec(s, sep, 0);
  }

  /** `s.split(sep)[1]`: the text between the first and the second `sep`,
      `undefined` (None) when `s` has no `sep`. */
  function SecondSegment(s: string, sep: char): Option<string>
  {
    var i := IndexFrom(s, sep, 0);
    if i == |s| then None
    else Some(s[i + 1..IndexFrom(s, sep, i + 1)])
  }

  /** The second segment is missing exactly when there is no separator; otherwise it is free of
      separators, follows the first segment and its separator in `s`, and runs up to the second
      separator or the end of `s`. */
  lemma SecondSegmentSpec(s: string, sep: char)
    ensures SecondSegment(s, sep).None? <==> sep !in s
    ensures SecondSegment(s, sep).Some? ==>
      && |FirstSegment(s, sep)| < |s|
      && sep !in SecondSegment(s, sep).value
      && FirstSegment(s, sep) + [sep] + SecondSegment(s, sep).value <= s
    ensures SecondSegment(s, sep).Some? ==>
      var n := |FirstSegment(s, sep)| + 1 + |SecondSegment(s, sep).value|;
      n == |s| || s[n] == sep
  {
    IndexFromSpec(s, sep, 0);
    var i := IndexFrom(s, sep, 0);
    if i < |s| {
      IndexFromSpec(s, sep, i + 1);
      var j := IndexFrom(s, sep, i + 1);
      assert s[..i] + [sep] + s[i + 1..j] == s[..j];
    }
  }

  predicate IsDigit(c: char)
  {
    '0' <= c <= '9'
  }

  predicate AllDigits(s: string)
  {
    forall i :: 0 <= i < |s| ==> IsDigit(s[i])
  }

  function DigitChar(d: nat): (c: char)
    requires d < 10
    ensures IsDigit(c)
  {
    (48 + d) as char
  }

  function DigitValue(c: char): (d: nat)
    requires IsDigit(c)
    ensures d < 10
  {
    c as int - 48
  }

  /** The decimal text of `n`, as a template literal `${n}` writes it. */
  function NatToString(n: nat): (r: string)
    ensures |r| > 0 && AllDigits(r)
  {
    if n < 10 then [DigitChar(n)] else NatToString(n / 10) + [DigitChar(n % 10)]
  }

  /** The number a string of decimal digits denotes (leading zeros allowed, as `parseInt` reads them). */
  function ParseDigits(s: string): nat
    requires AllDigits(s)
  {
    if |s| == 0 then 0 else 10 * ParseDigits(s[..|s| - 1]) + DigitValue(s[|s| - 1])
  }

  /** Reading back the decimal text of a number gives the number. */
  lemma {:induction false} ParseNatToString(n: nat)
    ensures ParseDigits(NatToString(n)) == n
  {
    var s := NatToString(n);
    if n >= 10 {
      ParseNatToString(n / 10);
      assert s[..|s| - 1] == NatToString(n / 10);
    }
  }

  /** Distinct numbers have distinct decimal texts. */
  lemma NatToStringInjective(m: nat, n: nat)
    ensures NatToString(m) == NatToString(n) ==> m == n
  {
    ParseNatToString(m);
    ParseNatToString(n);
  }

  /** `s.replace(/\D/g, '')`: the digits of `s`, in order, each as often as it occurs. */
  function DigitsOf(s: string): (r: string)
    ensures AllDigits(r) && |r| <= |s|
    ensures forall c :: c in r <==> c in s && IsDigit(c)
    ensures IsSubseq(r, s)
  {
    if |s| == 0 then []
    else
      var init := s[..|s| - 1];
      var rest := DigitsOf(init);
      var x := s[|s| - 1];
      assert s == init + [x];
      if IsDigit(x) then rest + [x]
      else
        SubseqAppend(rest, init, x);
        rest
  }

  /** `replace(/\D/g, '')` keeps every occurrence of a digit and drops every other character. */
  lemma {:induction false} DigitsCount(s: string)
    ensures forall c :: multiset(DigitsOf(s))[c] == if IsDigit(c) then multiset(s)[c] else 0
  {
    if |s| > 0 {
      var init := s[..|s| - 1];
      DigitsCount(init);
      assert s == init + [s[|s| - 1]];
    }
  }
}
