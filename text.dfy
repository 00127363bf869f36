/** Shared vocabulary of the sanitizers: optional values, the mask, the
    lower-casing used to match deny-listed names, Python's str() of an int,
    and runs of characters from a class. */
module Text {

  datatype Option<+T> = None | Some(value: T)

  /** The placeholder written over every sensitive value. */
  const Mask: string := "********"

  /** One character of Python's str.lower(), for every character whose
      lower-case form is an ASCII character: 'A'-'Z' and KELVIN SIGN (U+212A),
      which lower-cases to 'k'. Every other character is left as it is; since
      the deny-lists hold only ASCII names, `Folded(k) in names` is exactly
      `k.lower() in names`. */
  function FoldChar(c: char): char {
    if 'A' <= c <= 'Z' then (c as int + 32) as char
    else if c == '\U{212A}' then 'k'
    else c
  }

  /** `s.lower()` as far as comparisons against ASCII lower-case names go. */
  function Folded(s: string): (r: string)
    ensures |r| == |s|
  {
    seq(|s|, i requires 0 <= i < |s| => FoldChar(s[i]))
  }

  predicate IsDigit(c: char) { '0' <= c <= '9' }

  function DigitChar(d: nat): (c: char)
    requires d < 10
    ensures IsDigit(c) && DigitValue(c) == d
  {
    ('0' as int + d) as char
  }

  /** Decimal digits of `n`, most significant first, without leading zeros. */
  function NatText(n: nat): (s: string)
    ensures |s| >= 1 && forall i :: 0 <= i < |s| ==> IsDigit(s[i])
    ensures |s| > 1 ==> s[0] != '0'
    decreases n
  {
    if n < 10 then [DigitChar(n)] else NatText(n / 10) + [DigitChar(n % 10)]
  }

  function DigitValue(c: char): (d: nat)
    requires IsDigit(c)
    ensures d < 10
  {
    c as int - '0' as int
  }

  /** The number a string of decimal digits denotes. */
  function DigitsValue(s: string): nat
    requires forall i :: 0 <= i < |s| ==> IsDigit(s[i])
  {
    if s == [] then 0
    else DigitsValue(s[..|s| - 1]) * 10 + DigitValue(s[|s| - 1])
  }

  /** Python's str(n) for an int: an optional '-' and the decimal digits. */
  function IntText(n: int): (s: string)
    ensures |s| >= 1
    ensures n < 0 <==> s[0] == '-'
    ensures n >= 0 <==> IsDigit(s[0])
    ensures forall i :: 1 <= i < |s| ==> IsDigit(s[i])
  {
    if n < 0 then "-" + NatText(-n) else NatText(n)
  }

  /** Reading the digits back gives the number that was written. */
  lemma {:induction false} NatTextRoundTrip(n: nat)
    ensures DigitsValue(NatText(n)) == n
    decreases n
  {
    if n >= 10 {
      NatTextRoundTrip(n / 10);
      var s := NatText(n);
      assert s[..|s| - 1] == NatText(n / 10);
    }
  }

  /** str() of an int is injective: different status codes render differently. */
  lemma IntTextInjective(m: int, n: int)
    requires IntText(m) == IntText(n)
    ensures m == n
  {
    if m < 0 {
      assert n < 0;
      assert NatText(-m) == IntText(m)[1..];
      assert NatText(-n) == IntText(n)[1..];
      NatTextInjective(-m, -n);
    } else {
      assert n >= 0;
      NatTextInjective(m, n);
    }
  }

  /** Different numbers have different digits. */
  lemma NatTextInjective(a: nat, b: nat)
    requires NatText(a) == NatText(b)
    ensures a == b
  {
    NatTextRoundTrip(a);
    NatTextRoundTrip(b);
  }

  /** Every character of s[lo..hi] is in the class. */
  predicate AllIn(s: string, lo: nat, hi: nat, inClass: char -> bool) {
    lo <= hi <= |s| && forall k :: lo <= k < hi ==> inClass(s[k])
  }

  /** Length of the longest prefix of `s` inside the class: what a greedy
      `[...]*` consumes. */
  function Run(s: string, inClass: char -> bool): (n: nat)
    ensures n <= |s|
  {
    if s == [] || !inClass(s[0]) then 0 else 1 + Run(s[1..], inClass)
  }

  /** The run is inside the class and cannot be extended. */
  lemma {:induction false} RunSpec(s: string, inClass: char -> bool)
    ensures forall k :: 0 <= k < Run(s, inClass) ==> inClass(s[k])
    ensures Run(s, inClass) < |s| ==> !inClass(s[Run(s, inClass)])
  {
    if s != [] && inClass(s[0]) {
      RunSpec(s[1..], inClass);
      forall k | 1 <= k < Run(s, inClass) ensures inClass(s[k]) {
        assert s[k] == s[1..][k - 1];
      }
    }
  }

  /** A run that cannot be extended is the run. */
  lemma {:induction false} RunExact(s: string, n: nat, inClass: char -> bool)
    requires n <= |s| && (forall k :: 0 <= k < n ==> inClass(s[k]))
    requires n < |s| ==> !inClass(s[n])
    ensures Run(s, inClass) == n
  {
    if n > 0 {
      var t := s[1..];
      forall k | 0 <= k < n - 1 ensures inClass(t[k]) {
        assert t[k] == s[k + 1];
      }
      RunExact(t, n - 1, inClass);
    }
  }

  /** The same, for a run starting at index `lo` of `s`. */
  lemma RunFrom(s: string, lo: nat, hi: nat, inClass: char -> bool)
    requires AllIn(s, lo, hi, inClass)
    requires hi < |s| ==> !inClass(s[hi])
    ensures Run(s[lo..], inClass) == hi - lo
  {
    var t := s[lo..];
    forall k | 0 <= k < hi - lo ensures inClass(t[k]) {
      assert t[k] == s[lo + k];
    }
    RunExact(t, hi - lo, inClass);
  }

  /** A run starting at index `lo` of `s`, seen from `s`. */
  lemma RunAt(s: string, lo: nat, inClass: char -> bool)
    requires lo <= |s|
    ensures var hi := lo + Run(s[lo..], inClass);
            AllIn(s, lo, hi, inClass) && (hi < |s| ==> !inClass(s[hi]))
  {
    var t := s[lo..];
    var n := Run(t, inClass);
    RunSpec(t, inClass);
    forall k | lo <= k < lo + n ensures inClass(s[k]) {
      assert s[k] == t[k - lo];
    }
    if lo + n < |s| {
      assert s[lo + n] == t[n];
    }
  }

  /** Concatenation regrouped to the left. */
  lemma ConcatAssoc(a: string, b: string, c: string)
    ensures a + (b + c) == a + b + c
  {
  }
}
