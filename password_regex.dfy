/** The fallback for bodies that are not JSON: two fixed, case-insensitive
    regular-expression substitutions, applied one after the other.

      1. ("password"\s*:\s*")[^"]+(")   replaced by  \1********\2
      2. (password=[^&\s]+)             replaced by  password=********

    Each pattern is modelled by a scanner that decides whether the pattern
    matches at the start of a string and where the match ends, proved equal
    to a declarative statement of what the pattern matches; `Substitute` is
    re.sub's left-to-right scan for non-overlapping matches. */
module PasswordRegex {
  import opened Text

  /** `\s` in a str pattern: the characters for which Python's
      str.isspace() holds. */
  predicate IsSpace(c: char) {
    || '\t' <= c <= '\r'
    || '\U{1C}' <= c <= ' '
    || c == '\U{85}' || c == '\U{A0}' || c == '\U{1680}'
    || '\U{2000}' <= c <= '\U{200A}'
    || c == '\U{2028}' || c == '\U{2029}' || c == '\U{202F}'
    || c == '\U{205F}' || c == '\U{3000}'
  }

  /** `[^"]` */
  predicate NotQuote(c: char) { c != '"' }

  /** `[^&\s]` */
  predicate InFormValue(c: char) { c != '&' && !IsSpace(c) }

  /** Whether `c` matches the pattern letter `l` (an ASCII lower-case letter)
      under re.IGNORECASE: the letter in either case; Python's re also treats
      LATIN SMALL LETTER LONG S (U+017F) as equal to 's'. */
  predicate MatchesLetter(c: char, l: char) {
    FoldChar(c) == l || (l == 's' && c == '\U{017F}')
  }

  /** The word `password`, in any case, at index `i` of `s`. */
  predicate PasswordAt(s: string, i: nat) {
    && i + 8 <= |s|
    && MatchesLetter(s[i], 'p') && MatchesLetter(s[i + 1], 'a')
    && MatchesLetter(s[i + 2], 's') && MatchesLetter(s[i + 3], 's')
    && MatchesLetter(s[i + 4], 'w') && MatchesLetter(s[i + 5], 'o')
    && MatchesLetter(s[i + 6], 'r') && MatchesLetter(s[i + 7], 'd')
  }

  /** Where a match at the start of a string ends, and what replaces it. */
  datatype Hit = Hit(end: nat, replacement: string)

  /** A matcher says whether its pattern matches at the start of a text,
      and if so where the match ends and what replaces it. A match is never
      empty, so the scan always moves forward. */
  ghost predicate Advances(matcher: string -> Option<Hit>) {
    forall t :: matcher(t).Some? ==> 0 < matcher(t).value.end <= |t|
  }

  /** The replacement of the second substitution: always lower case. */
  const FormReplacement: string := "password=" + Mask

  /** The first pattern matches s[..e], and its first group is s[..c] (the
      quoted key, the colon, the blanks and the opening quote of the value). */
  ghost predicate QuotedMatch(s: string, c: nat, e: nat) {
    && 10 <= |s| && s[0] == '"' && PasswordAt(s, 1) && s[9] == '"'
    && c + 1 < e <= |s|
    && (exists a: nat :: a + 2 <= c && AllIn(s, 10, a, IsSpace)
                         && AllIn(s, a + 1, c - 1, IsSpace) && s[a] == ':')
    && s[c - 1] == '"'
    && AllIn(s, c, e - 1, NotQuote) && s[e - 1] == '"'
  }

  /** The second pattern matches s[..e]; `+` is greedy and nothing follows
      it, so the value runs as far as it can. */
  ghost predicate FormMatch(s: string, e: nat) {
    && PasswordAt(s, 0) && 9 <= |s| && s[8] == '='
    && 9 < e && AllIn(s, 9, e, InFormValue)
    && (e < |s| ==> !InFormValue(s[e]))
  }

  /** Scanner for the first pattern at the start of `s`: the quoted key,
      then blanks up to the colon. */
  function MatchQuoted(s: string): (r: Option<Hit>)
    ensures r.Some? ==> 0 < r.value.end <= |s|
  {
    if |s| < 10 || s[0] != '"' || !PasswordAt(s, 1) || s[9] != '"' then None
    else AfterQuotedKey(s, 10 + Run(s[10..], IsSpace))
  }

  /** The colon at `a`, then blanks up to the opening quote of the value. */
  function AfterQuotedKey(s: string, a: nat): (r: Option<Hit>)
    requires 10 <= a <= |s|
    ensures r.Some? ==> 0 < r.value.end <= |s|
  {
    if a == |s| || s[a] != ':' then None
    else AfterColon(s, a + 1 + Run(s[a + 1..], IsSpace))
  }

  /** The opening quote of the value at `b`, then the value up to the
      closing quote. */
  function AfterColon(s: string, b: nat): (r: Option<Hit>)
    requires 10 < b <= |s|
    ensures r.Some? ==> 0 < r.value.end <= |s|
  {
    if b == |s| || s[b] != '"' then None
    else QuotedValue(s, b + 1, Run(s[b + 1..], NotQuote))
  }

  /** A value of `v` characters starting at `c`: at least one, and a
      closing quote after it. */
  function QuotedValue(s: string, c: nat, v: nat): (r: Option<Hit>)
    requires 0 < c <= |s| && c + v <= |s|
    ensures r.Some? ==> 0 < r.value.end <= |s|
  {
    if v == 0 || c + v == |s| then None
    else Some(Hit(c + v + 1, s[..c] + Mask + "\""))
  }

  /** Scanner for the second pattern at the start of `s`. */
  function MatchForm(s: string): (r: Option<Hit>)
    ensures r.Some? ==> 0 < r.value.end <= |s|
  {
    if !PasswordAt(s, 0) || |s| < 9 || s[8] != '=' then None
    else
      var v := Run(s[9..], InFormValue);
      if v == 0 then None else Some(Hit(9 + v, FormReplacement))
  }

  /** The scanner finds exactly the matches of the first pattern, and its
      replacement keeps the matched key text, with its casing and spacing. */
  lemma MatchQuotedSound(s: string) returns (c: nat)
    requires MatchQuoted(s).Some?
    ensures QuotedMatch(s, c, MatchQuoted(s).value.end)
    ensures c <= |s| && MatchQuoted(s).value.replacement == s[..c] + Mask + "\""
  {
    var a, e;
    a, c, e := QuotedSteps(s);
    QuotedMatchIntro(s, a, c, e);
  }

  /** The scanner's steps, read as the pattern's pieces, make a match of
      the first pattern. */
  lemma QuotedMatchIntro(s: string, a: nat, c: nat, e: nat)
    requires 10 <= |s| && s[0] == '"' && PasswordAt(s, 1) && s[9] == '"'
    requires 10 <= a && a + 2 <= c && c + 1 < e <= |s|
    requires a == 10 + Run(s[10..], IsSpace) && s[a] == ':'
    requires c - 1 == a + 1 + Run(s[a + 1..], IsSpace) && s[c - 1] == '"'
    requires e - 1 == c + Run(s[c..], NotQuote)
    ensures QuotedMatch(s, c, e)
  {
    RunAt(s, 10, IsSpace);
    RunAt(s, a + 1, IsSpace);
    RunAt(s, c, NotQuote);
  }

  /** Where the scanner's steps land when it reports a match: the colon at
      `a`, the value from `c`, the end after the closing quote at `e - 1`. */
  lemma QuotedSteps(s: string) returns (a: nat, c: nat, e: nat)
    requires MatchQuoted(s).Some?
    ensures 10 <= |s| && s[0] == '"' && PasswordAt(s, 1) && s[9] == '"'
    ensures 10 <= a && a + 2 <= c && c + 1 < e <= |s|
    ensures a == 10 + Run(s[10..], IsSpace) && s[a] == ':'
    ensures c - 1 == a + 1 + Run(s[a + 1..], IsSpace) && s[c - 1] == '"'
    ensures e - 1 == c + Run(s[c..], NotQuote)
    ensures MatchQuoted(s) == Some(Hit(e, s[..c] + Mask + "\""))
  {
    a := 10 + Run(s[10..], IsSpace);
    assert MatchQuoted(s) == AfterQuotedKey(s, a);
    var b := a + 1 + Run(s[a + 1..], IsSpace);
    assert AfterQuotedKey(s, a) == AfterColon(s, b);
    c := b + 1;
    var v := Run(s[c..], NotQuote);
    assert AfterColon(s, b) == QuotedValue(s, c, v);
    e := c + v + 1;
  }

  lemma MatchQuotedComplete(s: string, c: nat, e: nat)
    requires QuotedMatch(s, c, e)
    ensures MatchQuoted(s) == Some(Hit(e, s[..c] + Mask + "\""))
  {
    var a: nat :| a + 2 <= c && AllIn(s, 10, a, IsSpace)
                  && AllIn(s, a + 1, c - 1, IsSpace) && s[a] == ':';
    ScanQuoted(s, a, c, e);
  }

  /** The scanner's steps when the colon is at `a`, the value starts at `c`
      and the match ends at `e`, one lemma per step. */
  lemma ScanQuoted(s: string, a: nat, c: nat, e: nat)
    requires 10 <= |s| && s[0] == '"' && PasswordAt(s, 1) && s[9] == '"'
    requires a + 2 <= c && c + 1 < e <= |s|
    requires AllIn(s, 10, a, IsSpace) && s[a] == ':'
    requires AllIn(s, a + 1, c - 1, IsSpace) && s[c - 1] == '"'
    requires AllIn(s, c, e - 1, NotQuote) && s[e - 1] == '"'
    ensures MatchQuoted(s) == Some(Hit(e, s[..c] + Mask + "\""))
  {
    ScanToColon(s, a);
    ScanToValue(s, a, c);
    ScanValue(s, c, e);
  }

  lemma ScanToColon(s: string, a: nat)
    requires 10 <= |s| && s[0] == '"' && PasswordAt(s, 1) && s[9] == '"'
    requires AllIn(s, 10, a, IsSpace) && a < |s| && s[a] == ':'
    ensures MatchQuoted(s) == AfterQuotedKey(s, a)
  {
    RunFrom(s, 10, a, IsSpace);
  }

  lemma ScanToValue(s: string, a: nat, c: nat)
    requires 10 <= a && a + 2 <= c <= |s| && s[a] == ':'
    requires AllIn(s, a + 1, c - 1, IsSpace) && s[c - 1] == '"'
    ensures AfterQuotedKey(s, a) == AfterColon(s, c - 1)
  {
    RunFrom(s, a + 1, c - 1, IsSpace);
    assert a + 1 + Run(s[a + 1..], IsSpace) == c - 1;
  }

  lemma ScanValue(s: string, c: nat, e: nat)
    requires 11 < c && c + 1 < e <= |s| && s[c - 1] == '"'
    requires AllIn(s, c, e - 1, NotQuote) && s[e - 1] == '"'
    ensures AfterColon(s, c - 1) == QuotedValue(s, c, e - 1 - c)
  {
    RunFrom(s, c, e - 1, NotQuote);
  }

  /** The scanner finds exactly the matches of the second pattern. */
  lemma MatchFormSpec(s: string, e: nat)
    ensures MatchForm(s) == Some(Hit(e, FormReplacement)) <==> FormMatch(s, e)
  {
    if FormMatch(s, e) {
      RunExact(s[9..], e - 9, InFormValue);
    }
    if MatchForm(s) == Some(Hit(e, FormReplacement)) {
      RunAt(s, 9, InFormValue);
    }
  }

  /** re.sub(pattern, replacement, s): scan from the left; where the pattern
      matches, emit the replacement and resume after the match; elsewhere
      copy one character and move on. */
  function Substitute(matcher: string -> Option<Hit>, s: string): (r: string)
    requires Advances(matcher)
    ensures (forall i :: 0 <= i < |s| ==> matcher(s[i..]).None?) ==> r == s
    decreases |s|
  {
    if s == [] then []
    else
      match matcher(s)
      case Some(h) =>
        assert s[0..] == s;
        h.replacement + Substitute(matcher, s[h.end..])
      case None =>
        NoMatchInTail(matcher, s);
        [s[0]] + Substitute(matcher, s[1..])
  }

  /** Where the pattern matches nowhere in `s`, it matches nowhere in its
      tail either. */
  lemma NoMatchInTail(matcher: string -> Option<Hit>, s: string)
    requires s != []
    ensures (forall i :: 0 <= i < |s| ==> matcher(s[i..]).None?) ==>
            forall i :: 0 <= i < |s| - 1 ==> matcher(s[1..][i..]).None?
  {
    forall i | 0 <= i < |s| - 1 && (forall k :: 0 <= k < |s| ==> matcher(s[k..]).None?)
      ensures matcher(s[1..][i..]).None?
    {
      assert s[1..][i..] == s[i + 1..];
    }
  }

  /** The whole fallback: the quoted form first, then the `password=` form.
      Text without the word `password`, in any case, passes unchanged. */
  function Redact(s: string): (r: string)
    ensures (forall i :: 0 <= i < |s| ==> !PasswordAt(s, i)) ==> r == s
  {
    PasswordFreeNoMatch(s);
    Substitute(MatchForm, Substitute(MatchQuoted, s))
  }

  /** Neither pattern can start where the word `password` does not occur. */
  lemma PasswordFreeNoMatch(s: string)
    ensures (forall i :: 0 <= i < |s| ==> !PasswordAt(s, i)) ==>
            forall i :: 0 <= i < |s| ==> MatchQuoted(s[i..]).None? && MatchForm(s[i..]).None?
  {
    if forall i :: 0 <= i < |s| ==> !PasswordAt(s, i) {
      forall i | 0 <= i < |s| ensures MatchQuoted(s[i..]).None? && MatchForm(s[i..]).None? {
        PasswordAtShift(s, i, 1);
        PasswordAtShift(s, i, 0);
      }
    }
  }

  /** Text before the leftmost match is copied as it is. */
  lemma {:induction false} SubstituteCopiesUnmatched(matcher: string -> Option<Hit>, s: string, k: nat)
    requires Advances(matcher) && k <= |s|
    requires forall i :: 0 <= i < k ==> matcher(s[i..]).None?
    ensures Substitute(matcher, s) == s[..k] + Substitute(matcher, s[k..])
    decreases k
  {
    if k == 0 {
      assert s[..0] + Substitute(matcher, s[0..]) == Substitute(matcher, s);
    } else {
      SubstituteCopiesUnmatched(matcher, s, k - 1);
      var t := s[k - 1..];
      assert matcher(t).None?;
      SubstituteSkip(matcher, t);
      assert t[1..] == s[k..] && t[0] == s[k - 1];
      ConcatAssoc(s[..k - 1], [s[k - 1]], Substitute(matcher, s[k..]));
      assert s[..k - 1] + [s[k - 1]] == s[..k];
    }
  }

  /** One step of the scan where the pattern does not match. */
  lemma SubstituteSkip(matcher: string -> Option<Hit>, t: string)
    requires Advances(matcher) && t != [] && matcher(t).None?
    ensures Substitute(matcher, t) == [t[0]] + Substitute(matcher, t[1..])
  {
  }

  /** The leftmost match is replaced, the text before it kept. */
  lemma SubstituteLeftmost(matcher: string -> Option<Hit>, s: string, k: nat)
    requires Advances(matcher) && k < |s|
    requires forall i :: 0 <= i < k ==> matcher(s[i..]).None?
    requires matcher(s[k..]).Some?
    ensures var h := matcher(s[k..]).value;
            Substitute(matcher, s) == s[..k] + h.replacement + Substitute(matcher, s[k + h.end..])
  {
    var t := s[k..];
    var h := matcher(t).value;
    SubstituteCopiesUnmatched(matcher, s, k);
    SubstituteStep(matcher, t);
    assert t[h.end..] == s[k + h.end..];
    ConcatAssoc(s[..k], h.replacement, Substitute(matcher, s[k + h.end..]));
  }

  /** One step of the scan at a match. */
  lemma SubstituteStep(matcher: string -> Option<Hit>, t: string)
    requires Advances(matcher) && matcher(t).Some?
    ensures Substitute(matcher, t)
            == matcher(t).value.replacement + Substitute(matcher, t[matcher(t).value.end..])
  {
  }

  /** Looking for the word in a suffix is looking for it further along. */
  lemma PasswordAtShift(s: string, i: nat, k: nat)
    requires i <= |s|
    ensures PasswordAt(s[i..], k) <==> PasswordAt(s, i + k)
  {
    if i + k + 8 <= |s| {
      var t := s[i..];
      assert forall m :: k <= m < k + 8 ==> t[m] == s[i + m];
    }
  }

  /** The second substitution needs the word `password`. */
  lemma FormNeedsPassword(s: string)
    requires forall i :: 0 <= i < |s| ==> !PasswordAt(s, i)
    ensures Substitute(MatchForm, s) == s
  {
    forall i | 0 <= i < |s| ensures MatchForm(s[i..]).None? {
      PasswordAtShift(s, i, 0);
    }
  }

  /** Without a double quote the first substitution never fires. */
  lemma NoQuoteNoQuotedMatch(s: string)
    requires '"' !in s
    ensures Substitute(MatchQuoted, s) == s
  {
    forall i | 0 <= i < |s| ensures MatchQuoted(s[i..]).None? {
      assert s[i] in s;
    }
  }

  /** Without an equals sign the second substitution never fires. */
  lemma NoEqualsNoFormMatch(s: string)
    requires '=' !in s
    ensures Substitute(MatchForm, s) == s
  {
    forall i | 0 <= i < |s| ensures MatchForm(s[i..]).None? {
      if i + 8 < |s| {
        assert s[i..][8] == s[i + 8] && s[i + 8] in s;
      }
    }
  }

  /** The word `password` is made of letters, never of a quote. */
  lemma PasswordHasNoQuote(key: string)
    requires |key| == 8 && PasswordAt(key, 0)
    ensures '"' !in key && '=' !in key
  {
    forall k | 0 <= k < 8 ensures key[k] != '"' && key[k] != '=' {
    }
  }

  /** Anywhere in a text, `password=v`, the word in any case, with a
      non-empty value `v` that runs up to an `&`, a blank or the end,
      becomes the lower-case `password=********`; the text before and after
      is kept. For example `username=bob&password=abc123&x=1` becomes
      `username=bob&password=********&x=1`. The word occurs nowhere else. */
  lemma FormValueMasked(pre: string, key: string, v: string, rest: string)
    requires |key| == 8 && PasswordAt(key, 0)
    requires v != [] && forall k :: 0 <= k < |v| ==> InFormValue(v[k])
    requires rest != [] ==> !InFormValue(rest[0])
    requires '"' !in pre && '"' !in v && '"' !in rest
    requires forall i :: 0 <= i < |pre| ==> !PasswordAt(pre + key, i)
    requires forall i :: 0 <= i < |rest| ==> !PasswordAt(rest, i)
    ensures Redact(pre + key + "=" + v + rest) == pre + FormReplacement + rest
  {
    var t := key + "=" + v;
    var s := pre + key + "=" + v + rest;
    PasswordHasNoQuote(key);
    NoQuoteNoQuotedMatch(s);
    Regroup(pre, key, "=", v, rest);
    NoFormMatchBefore(pre, key, s);
    FormHit(key, v, rest);
    FormSplice(pre, t, rest);
  }

  /** The second pattern cannot start inside a prefix in which the word
      does not begin before the key that follows it. */
  lemma NoFormMatchBefore(pre: string, key: string, s: string)
    requires |key| == 8 && |pre| + 8 <= |s| && s[..|pre| + 8] == pre + key
    requires forall i :: 0 <= i < |pre| ==> !PasswordAt(pre + key, i)
    ensures forall i :: 0 <= i < |pre| ==> MatchForm(s[i..]).None?
  {
    var u := pre + key;
    forall j | 0 <= j < |u| ensures s[j] == u[j] {
      assert s[..|u|][j] == s[j];
    }
    forall i | 0 <= i < |pre| ensures MatchForm(s[i..]).None? {
      PasswordAtShift(s, i, 0);
      assert !PasswordAt(u, i);
    }
  }

  /** A match of the second pattern after a stretch where it matches
      nowhere, followed by text without the word: only the match changes. */
  lemma FormSplice(pre: string, t: string, post: string)
    requires forall i :: 0 <= i < |pre| ==> MatchForm((pre + t + post)[i..]).None?
    requires MatchForm(t + post) == Some(Hit(|t|, FormReplacement))
    requires forall i :: 0 <= i < |post| ==> !PasswordAt(post, i)
    ensures Substitute(MatchForm, pre + t + post) == pre + FormReplacement + post
  {
    var s := pre + (t + post);
    assert s == pre + t + post;
    assert s[|pre|..] == t + post;
    SubstituteLeftmost(MatchForm, s, |pre|);
    assert s[..|pre|] == pre;
    assert s[|pre| + |t|..] == post;
    FormNeedsPassword(post);
  }

  /** The second pattern matches `password=v` at the start of a text, up to
      the end of `v`. */
  lemma FormHit(key: string, v: string, rest: string)
    requires |key| == 8 && PasswordAt(key, 0)
    requires v != [] && forall k :: 0 <= k < |v| ==> InFormValue(v[k])
    requires rest != [] ==> !InFormValue(rest[0])
    ensures MatchForm(key + "=" + v + rest) == Some(Hit(|key + "=" + v|, FormReplacement))
  {
    var s := key + "=" + v + rest;
    var e := 9 + |v|;
    assert AllIn(s, 9, e, InFormValue) by {
      forall k | 9 <= k < e ensures InFormValue(s[k]) {
        assert s[k] == v[k - 9];
      }
    }
    assert e < |s| ==> s[e] == rest[0];
    RunFrom(s, 9, e, InFormValue);
    assert PasswordAt(s, 0);
  }

  /** Anywhere in a text, an empty value is left alone: in
      `user=bob&password=&x=1` nothing changes. The word occurs nowhere
      else. */
  lemma EmptyFormValueKept(pre: string, key: string, rest: string)
    requires |key| == 8 && PasswordAt(key, 0)
    requires rest != [] ==> !InFormValue(rest[0])
    requires '"' !in pre && '"' !in rest
    requires forall i :: 0 <= i < |pre| ==> !PasswordAt(pre + key, i)
    requires forall i :: 0 <= i < |rest| ==> !PasswordAt(rest, i)
    ensures Redact(pre + key + "=" + rest) == pre + key + "=" + rest
  {
    var t := key + "=" + rest;
    var s := pre + key + "=" + rest;
    PasswordHasNoQuote(key);
    NoQuoteNoQuotedMatch(s);
    ConcatAssoc(pre, key + "=", rest);
    ConcatAssoc(pre, key, "=");
    assert s == pre + t;
    NoFormMatchBefore(pre, key, s);
    EmptyFormNoMatch(key, rest);
    forall i | |pre| <= i < |s| ensures MatchForm(s[i..]).None? {
      assert s[i..] == t[i - |pre|..];
    }
  }

  /** With an empty value the second pattern matches nowhere in
      `password=` and a rest without the word. */
  lemma EmptyFormNoMatch(key: string, rest: string)
    requires |key| == 8 && PasswordAt(key, 0)
    requires rest != [] ==> !InFormValue(rest[0])
    requires forall i :: 0 <= i < |rest| ==> !PasswordAt(rest, i)
    ensures var t := key + "=" + rest;
            forall i :: 0 <= i < |t| ==> MatchForm(t[i..]).None?
  {
    var t := key + "=" + rest;
    PasswordHasNoQuote(key);
    forall i | 0 <= i < |t| ensures MatchForm(t[i..]).None? {
      if i == 0 {
        assert t[0..] == t;
        RunFrom(t, 9, 9, InFormValue);
      } else if i < 9 {
        assert t[i..][0] == t[i];
      } else {
        assert t[i..] == rest[i - 9..];
        PasswordAtShift(rest, i - 9, 0);
      }
    }
  }

  /** `\s*`: a stretch of blanks. */
  predicate Blanks(b: string) {
    forall k :: 0 <= k < |b| ==> IsSpace(b[k])
  }

  /** The first group of the first pattern: the quoted key, blanks, the
      colon, blanks and the opening quote of the value. */
  function QuotedKey(key: string, b1: string, b2: string): (q: string)
    ensures |q| == 4 + |key| + |b1| + |b2|
  {
    "\"" + key + "\"" + b1 + ":" + b2 + "\""
  }

  /** Where the pieces of a quoted key sit. */
  lemma QuotedKeyShape(key: string, b1: string, b2: string)
    requires |key| == 8 && PasswordAt(key, 0) && Blanks(b1) && Blanks(b2)
    ensures var q, a := QuotedKey(key, b1, b2), 10 + |b1|;
            && q[0] == '"' && PasswordAt(q, 1) && q[9] == '"'
            && AllIn(q, 10, a, IsSpace) && q[a] == ':'
            && AllIn(q, a + 1, |q| - 1, IsSpace) && q[|q| - 1] == '"'
  {
    var h := "\"" + key + "\"";
    assert PasswordAt(h, 1) by {
      forall k | 0 <= k < 8 ensures h[1 + k] == key[k] { }
    }
    var q1 := h + b1;
    assert AllIn(q1, 10, |q1|, IsSpace) by {
      forall k | 10 <= k < |q1| ensures q1[k] == b1[k - 10] { }
    }
    var q2 := q1 + ":";
    var q3 := q2 + b2;
    assert AllIn(q3, |q2|, |q3|, IsSpace) by {
      forall k | |q2| <= k < |q3| ensures q3[k] == b2[k - |q2|] { }
    }
    var q := q3 + "\"";
    assert q == QuotedKey(key, b1, b2);
    assert forall k :: 0 <= k < |q3| ==> q[k] == q3[k];
    assert forall k :: 0 <= k < |q1| ==> q3[k] == q1[k];
    assert forall k :: 0 <= k < 10 ==> q1[k] == h[k];
  }

  /** The first pattern matches a quoted key followed by a non-empty,
      quote-free value and its closing quote; the replacement keeps the key
      text as it is. */
  lemma QuotedKeyMatch(q: string, a: nat, v: string, post: string)
    requires 10 <= a && a + 2 <= |q|
    requires q[0] == '"' && PasswordAt(q, 1) && q[9] == '"'
    requires AllIn(q, 10, a, IsSpace) && q[a] == ':'
    requires AllIn(q, a + 1, |q| - 1, IsSpace) && q[|q| - 1] == '"'
    requires v != [] && '"' !in v
    ensures MatchQuoted(q + v + "\"" + post) == Some(Hit(|q + v + "\""|, q + Mask + "\""))
  {
    var t := q + v + "\"" + post;
    var c, e := |q|, |q| + |v| + 1;
    assert forall k :: 0 <= k < c ==> t[k] == q[k];
    assert PasswordAt(t, 1) by {
      assert forall k :: 1 <= k < 9 ==> t[k] == q[k];
    }
    assert AllIn(t, c, e - 1, NotQuote) by {
      forall k | c <= k < e - 1 ensures NotQuote(t[k]) {
        assert t[k] == v[k - c];
      }
    }
    assert t[..c] == q;
    ScanQuoted(t, a, c, e);
  }

  /** The first pattern matches `"key" : "v"`, whatever the blanks around
      the colon, with a non-empty quote-free value, keeping the key's casing
      and the blanks. */
  lemma QuotedHit(key: string, b1: string, b2: string, v: string, post: string)
    requires |key| == 8 && PasswordAt(key, 0) && Blanks(b1) && Blanks(b2)
    requires v != [] && '"' !in v
    ensures var q := QuotedKey(key, b1, b2);
            MatchQuoted(q + v + "\"" + post) == Some(Hit(|q + v + "\""|, q + Mask + "\""))
  {
    var q := QuotedKey(key, b1, b2);
    QuotedKeyShape(key, b1, b2);
    QuotedKeyMatch(q, 10 + |b1|, v, post);
  }
  /** A match of the first pattern between two quote-free stretches is the
      only one: the text before and after it is copied. */
  lemma QuotedSplice(pre: string, t: string, post: string, rep: string)
    requires '"' !in pre && '"' !in post
    requires MatchQuoted(t + post) == Some(Hit(|t|, rep))
    ensures Substitute(MatchQuoted, pre + t + post) == pre + rep + post
  {
    var s := pre + (t + post);
    assert s == pre + t + post;
    NoQuotedMatchIn(pre, t + post);
    assert s[|pre|..] == t + post;
    SubstituteLeftmost(MatchQuoted, s, |pre|);
    assert s[..|pre|] == pre;
    assert s[|pre| + |t|..] == post;
    NoQuoteNoQuotedMatch(post);
    assert Substitute(MatchQuoted, s) == pre + rep + Substitute(MatchQuoted, post);
  }

  /** The first pattern opens with a quote, so it matches at no position of
      a quote-free prefix. */
  lemma NoQuotedMatchIn(pre: string, rest: string)
    requires '"' !in pre
    ensures forall i :: 0 <= i < |pre| ==> MatchQuoted((pre + rest)[i..]).None?
  {
    forall i | 0 <= i < |pre| ensures MatchQuoted((pre + rest)[i..]).None? {
      assert (pre + rest)[i..][0] == pre[i];
    }
  }

  /** Blanks are neither quotes nor equals signs. */
  lemma BlanksArePlain(b: string)
    requires Blanks(b)
    ensures '"' !in b && '=' !in b
  {
    forall k | 0 <= k < |b| ensures b[k] != '"' && b[k] != '=' {
      assert IsSpace(b[k]);
    }
  }

  /** The masked quoted pair holds no `=`. */
  lemma MaskedPairHasNoEquals(key: string, b1: string, b2: string)
    requires |key| == 8 && PasswordAt(key, 0) && Blanks(b1) && Blanks(b2)
    ensures '=' !in QuotedKey(key, b1, b2) + Mask + "\""
  {
    PasswordHasNoQuote(key);
    BlanksArePlain(b1);
    BlanksArePlain(b2);
  }

  /** The first substitution on a text holding one match of the first
      pattern between quote-free stretches: the match is replaced and the
      rest is copied. */
  lemma QuotedStage(pre: string, q: string, v: string, post: string)
    requires MatchQuoted(q + v + "\"" + post) == Some(Hit(|q + v + "\""|, q + Mask + "\""))
    requires '"' !in pre && '"' !in post
    ensures Substitute(MatchQuoted, pre + q + v + "\"" + post) == pre + q + Mask + "\"" + post
  {
    var t := q + v + "\"";
    QuotedSplice(pre, t, post, q + Mask + "\"");
    Regroup(pre, q, v, "\"", post);
    Regroup(pre, q, Mask, "\"", post);
  }

  /** Regrouping a concatenation of five pieces. */
  lemma Regroup(p: string, b: string, c: string, d: string, e: string)
    ensures p + (b + c + d) + e == p + b + c + d + e
  {
    ConcatAssoc(p, b + c, d);
    ConcatAssoc(p, b, c);
  }

  /** The masked text holds no `=`, so the second substitution keeps it. */
  lemma MaskedTextKept(pre: string, q: string, post: string)
    requires '=' !in q + Mask + "\"" && '=' !in pre && '=' !in post
    ensures var out := pre + q + Mask + "\"" + post;
            Substitute(MatchForm, out) == out
  {
    var out := pre + q + Mask + "\"" + post;
    Regroup(pre, q, Mask, "\"", post);
    NoEqualsNoFormMatch(out);
  }

  /** In text that is not JSON, a quoted password value is masked; the key
      keeps its casing and the blanks around the colon stay as they were:
      `{"Password" : "hunter2",}` becomes `{"Password" : "********",}`. */
  lemma QuotedValueMasked(pre: string, key: string, b1: string, b2: string, v: string, post: string)
    requires |key| == 8 && PasswordAt(key, 0) && Blanks(b1) && Blanks(b2)
    requires v != [] && '"' !in v
    requires '"' !in pre && '"' !in post
    requires '=' !in pre && '=' !in post
    ensures var q := QuotedKey(key, b1, b2);
            Redact(pre + q + v + "\"" + post) == pre + q + Mask + "\"" + post
  {
    var q := QuotedKey(key, b1, b2);
    QuotedHit(key, b1, b2, v, post);
    QuotedStage(pre, q, v, post);
    MaskedPairHasNoEquals(key, b1, b2);
    MaskedTextKept(pre, q, post);
  }
}
