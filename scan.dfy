/** The two fixed patterns of ContactsFinder and Python's `re.findall` over them.

    email: ([a-zA-Z0-9._-]+@[a-zA-Z0-9._-]+\.[a-zA-Z0-9_-]+)
    phone: \+[7]\s?[\d\s\-]+

    Each matcher is written the way a backtracking engine runs the pattern: a
    greedy `+` first takes the longest run and then gives characters back one
    at a time until the rest of the pattern succeeds. The lemmas show that the
    match so found is the longest span starting at that position which the
    pattern describes, and that `FindAll` misses no span. */
module Scan {

  datatype Option<T> = None | Some(value: T)

  /** `[a-zA-Z0-9._-]`: local part and domain of an email */
  predicate IsAddrChar(c: char) {
    ('a' <= c <= 'z') || ('A' <= c <= 'Z') || ('0' <= c <= '9') || c == '.' || c == '_' || c == '-'
  }

  /** `[a-zA-Z0-9_-]`: the last label of an email (no dot) */
  predicate IsLabelChar(c: char) {
    ('a' <= c <= 'z') || ('A' <= c <= 'Z') || ('0' <= c <= '9') || c == '_' || c == '-'
  }

  /** `\d`, restricted to the ASCII digits */
  predicate IsDigit(c: char) {
    '0' <= c <= '9'
  }

  /** `\s` on a str pattern: exactly the characters Python's str.isspace() accepts */
  predicate IsSpace(c: char) {
    ('\t' <= c <= '\r') || ('\U{1C}' <= c <= ' ') || c == '\U{85}' || c == '\U{A0}'
    || c == '\U{1680}' || ('\U{2000}' <= c <= '\U{200A}') || c == '\U{2028}' || c == '\U{2029}'
    || c == '\U{202F}' || c == '\U{205F}' || c == '\U{3000}'
  }

  /** `[\d\s\-]`: the body of a phone number */
  predicate IsPhoneChar(c: char) {
    IsDigit(c) || IsSpace(c) || c == '-'
  }

  /** End of the longest run of characters satisfying p that starts at i */
  function RunEnd(s: string, i: nat, p: char -> bool): (e: nat)
    requires i <= |s|
    ensures i <= e <= |s|
    ensures forall k :: i <= k < e ==> p(s[k])
    ensures e == |s| || !p(s[e])
    decreases |s| - i
  {
    if i < |s| && p(s[i]) then RunEnd(s, i + 1, p) else i
  }

  /** No run of p-characters from i reaches past RunEnd. */
  lemma RunMax(s: string, i: nat, e: nat, p: char -> bool)
    requires i <= e <= |s|
    requires forall k :: i <= k < e ==> p(s[k])
    ensures e <= RunEnd(s, i, p)
  {
  }

  /** A run of p-characters from i stops at the first character j that fails p. */
  lemma RunStopsAt(s: string, i: nat, e: nat, j: nat, p: char -> bool)
    requires i <= j < |s| && !p(s[j]) && e <= |s|
    requires forall k :: i <= k < e ==> p(s[k])
    ensures e <= j
  {
  }

  // ---------------------------------------------------------------------------
  // Email pattern

  /** The pattern tried at position i: `[C]+` takes the longest run of address
      characters, then `@` is tried after it and after each shorter prefix. */
  function MatchEmailAt(s: string, i: nat): (m: Option<nat>)
    requires i <= |s|
    ensures m.Some? ==> i < m.value <= |s|
  {
    LocalPart(s, i, RunEnd(s, i, IsAddrChar))
  }

  /** `[C]+` holds s[i..n]; `@` must follow at n, then the domain. On failure
      the engine gives back one character of the local part. */
  function LocalPart(s: string, i: nat, n: nat): (m: Option<nat>)
    requires i <= n <= |s|
    ensures m.Some? ==> i < m.value <= |s|
    decreases n
  {
    if n == i then None
    else if n < |s| && s[n] == '@' then
      match DomainPart(s, n + 1, RunEnd(s, n + 1, IsAddrChar))
      case Some(e) => Some(e)
      case None => LocalPart(s, i, n - 1)
    else LocalPart(s, i, n - 1)
  }

  /** The domain `[C]+` holds s[p..n]; `\.` must follow at n and `[W]+` after
      it, greedily. On failure the engine gives back one character. */
  function DomainPart(s: string, p: nat, n: nat): (m: Option<nat>)
    requires p <= n <= |s|
    ensures m.Some? ==> p < m.value <= |s|
    decreases n
  {
    if n == p then None
    else if n < |s| && s[n] == '.' && n + 1 < |s| && IsLabelChar(s[n + 1]) then
      Some(RunEnd(s, n + 1, IsLabelChar))
    else DomainPart(s, p, n - 1)
  }

  /** s[p..e] is `[C]+\.[W]+` with the dot at d */
  ghost predicate DomainAt(s: string, p: nat, d: nat, e: nat) {
    p < d && d + 1 < e <= |s| && s[d] == '.'
    && (forall k :: p <= k < d ==> IsAddrChar(s[k]))
    && (forall k :: d < k < e ==> IsLabelChar(s[k]))
  }

  /** s[i..e] is an email as the pattern describes it, with its `@` at a and
      the dot before the last label at d */
  ghost predicate EmailAt(s: string, i: nat, a: nat, d: nat, e: nat) {
    i < a < |s| && s[a] == '@'
    && (forall k :: i <= k < a ==> IsAddrChar(s[k]))
    && DomainAt(s, a + 1, d, e)
  }

  ghost predicate EmailSpan(s: string, i: nat, e: nat) {
    exists a: nat, d: nat :: EmailAt(s, i, a, d, e)
  }

  /** The whole of w matches the email pattern */
  ghost predicate IsEmail(w: string) {
    EmailSpan(w, 0, |w|)
  }

  /** The domain search from n finds the last admissible dot in (p, n] and
      returns the end of the greedy last label after it. */
  lemma {:induction false} DomainPartFinds(s: string, p: nat, n: nat)
    requires p <= |s| && p <= n <= RunEnd(s, p, IsAddrChar)
    ensures DomainPart(s, p, n).Some? ==>
      exists d: nat :: p < d <= n && DomainAt(s, p, d, DomainPart(s, p, n).value)
               && DomainPart(s, p, n).value == RunEnd(s, d + 1, IsLabelChar)
               && forall d': nat :: d < d' <= n && d' + 1 < |s| ==> !(s[d'] == '.' && IsLabelChar(s[d' + 1]))
    ensures DomainPart(s, p, n).None? ==>
      forall d': nat :: p < d' <= n && d' + 1 < |s| ==> !(s[d'] == '.' && IsLabelChar(s[d' + 1]))
    decreases n
  {
    if n == p {
    } else if n < |s| && s[n] == '.' && n + 1 < |s| && IsLabelChar(s[n + 1]) {
      var e := RunEnd(s, n + 1, IsLabelChar);
      assert DomainAt(s, p, n, e);
    } else {
      DomainPartFinds(s, p, n - 1);
    }
  }

  /** The domain search returns the longest domain span starting at p, and
      finds none exactly when there is none. */
  lemma DomainPartCorrect(s: string, p: nat)
    requires p <= |s|
    ensures var m := DomainPart(s, p, RunEnd(s, p, IsAddrChar));
      (m.Some? ==> (exists d: nat :: DomainAt(s, p, d, m.value))
                   && forall d: nat, e: nat :: DomainAt(s, p, d, e) ==> e <= m.value)
      && (m.None? ==> forall d: nat, e: nat :: !DomainAt(s, p, d, e))
  {
    var q := RunEnd(s, p, IsAddrChar);
    var m := DomainPart(s, p, q);
    DomainPartFinds(s, p, q);
    forall d': nat, e': nat | DomainAt(s, p, d', e')
      ensures d' < q && s[d'] == '.' && d' + 1 < |s| && IsLabelChar(s[d' + 1])
    {
      RunMax(s, p, d' + 1, IsAddrChar);
    }
    if m.Some? {
      var d :| p < d <= q && DomainAt(s, p, d, m.value) && m.value == RunEnd(s, d + 1, IsLabelChar)
               && forall d': nat :: d < d' <= q && d' + 1 < |s| ==> !(s[d'] == '.' && IsLabelChar(s[d' + 1]));
      forall d': nat, e': nat | DomainAt(s, p, d', e') ensures e' <= m.value {
        assert d' <= d;
        if d' < d {
          RunStopsAt(s, d' + 1, e', d, IsLabelChar);
        } else {
          RunMax(s, d + 1, e', IsLabelChar);
        }
      }
    }
  }

  /** Below the longest run the local part never meets `@`. */
  lemma {:induction false} LocalPartBelowRun(s: string, i: nat, n: nat)
    requires i <= |s| && i <= n < RunEnd(s, i, IsAddrChar)
    ensures LocalPart(s, i, n).None?
    decreases n
  {
    if n > i {
      assert IsAddrChar(s[n]);
      LocalPartBelowRun(s, i, n - 1);
    }
  }

  /** The email matcher at i returns the longest email span starting at i, and
      fails exactly when no email starts at i. */
  lemma MatchEmailAtCorrect(s: string, i: nat)
    requires i <= |s|
    ensures MatchEmailAt(s, i).Some? ==>
      EmailSpan(s, i, MatchEmailAt(s, i).value)
      && forall b: nat :: EmailSpan(s, i, b) ==> b <= MatchEmailAt(s, i).value
    ensures MatchEmailAt(s, i).None? ==> forall b: nat :: !EmailSpan(s, i, b)
  {
    var r := RunEnd(s, i, IsAddrChar);
    // every email starting at i has its `@` exactly where the run ends
    forall a: nat, d: nat, e: nat | EmailAt(s, i, a, d, e)
      ensures a == r && i < r < |s| && s[r] == '@' && DomainAt(s, r + 1, d, e)
    {
      RunMax(s, i, a, IsAddrChar);
      RunStopsAt(s, i, r, a, IsAddrChar);
    }
    if r > i {
      LocalPartBelowRun(s, i, r - 1);
    }
    if r > i && r < |s| && s[r] == '@' {
      DomainPartCorrect(s, r + 1);
      var m := DomainPart(s, r + 1, RunEnd(s, r + 1, IsAddrChar));
      assert MatchEmailAt(s, i) == m;
      if m.Some? {
        var d :| DomainAt(s, r + 1, d, m.value);
        assert EmailAt(s, i, r, d, m.value);
      }
    } else {
      assert MatchEmailAt(s, i).None?;
    }
  }

  // ---------------------------------------------------------------------------
  // Phone pattern

  /** `\+[7]\s?[\d\s\-]+` tried at position i: `\s?` first takes one
      whitespace character if there is one and gives it back when the body
      `[\d\s\-]+` cannot then match. */
  function MatchPhoneAt(s: string, i: nat): (m: Option<nat>)
    requires i <= |s|
    ensures m.Some? ==> i < m.value <= |s|
    // the greedy body takes every following `[\d\s\-]`, a newline included
    ensures m.Some? ==> m.value == |s| || !IsPhoneChar(s[m.value])
  {
    if i + 1 < |s| && s[i] == '+' && s[i + 1] == '7' then
      var j := i + 2;
      if j < |s| && IsSpace(s[j]) && RunEnd(s, j + 1, IsPhoneChar) > j + 1 then
        Some(RunEnd(s, j + 1, IsPhoneChar))
      else if RunEnd(s, j, IsPhoneChar) > j then
        Some(RunEnd(s, j, IsPhoneChar))
      else None
    else None
  }

  /** s[i..e] is `+7` followed by at least one of `[\d\s\-]`: everything the
      phone pattern describes, since `\s` is part of the body's class */
  ghost predicate PhoneSpan(s: string, i: nat, e: nat) {
    i + 2 < e <= |s| && s[i] == '+' && s[i + 1] == '7'
    && forall k :: i + 2 <= k < e ==> IsPhoneChar(s[k])
  }

  /** The phone matcher at i returns the longest phone span starting at i,
      and fails exactly when no phone starts at i. */
  lemma MatchPhoneAtCorrect(s: string, i: nat)
    requires i <= |s|
    ensures MatchPhoneAt(s, i).Some? ==>
      PhoneSpan(s, i, MatchPhoneAt(s, i).value)
      && forall b: nat :: PhoneSpan(s, i, b) ==> b <= MatchPhoneAt(s, i).value
    ensures MatchPhoneAt(s, i).None? ==> forall b: nat :: !PhoneSpan(s, i, b)
  {
    if i + 1 < |s| && s[i] == '+' && s[i + 1] == '7' {
      var j := i + 2;
      var r := RunEnd(s, j, IsPhoneChar);
      if j < |s| && IsSpace(s[j]) {
        assert RunEnd(s, j + 1, IsPhoneChar) == r;
      }
      forall b: nat | PhoneSpan(s, i, b) ensures r > j && b <= r {
        RunMax(s, j, b, IsPhoneChar);
      }
    }
  }

  // ---------------------------------------------------------------------------
  // re.findall

  datatype Pattern = EmailPattern | PhonePattern

  function MatchAt(pat: Pattern, s: string, i: nat): (m: Option<nat>)
    requires i <= |s|
    ensures m.Some? ==> i < m.value <= |s|
  {
    match pat
    case EmailPattern => MatchEmailAt(s, i)
    case PhonePattern => MatchPhoneAt(s, i)
  }

  /** s[i..e] is what the pattern describes */
  ghost predicate Span(pat: Pattern, s: string, i: nat, e: nat) {
    match pat
    case EmailPattern => EmailSpan(s, i, e)
    case PhonePattern => PhoneSpan(s, i, e)
  }

  lemma MatchAtCorrect(pat: Pattern, s: string, i: nat)
    requires i <= |s|
    ensures MatchAt(pat, s, i).Some? ==>
      Span(pat, s, i, MatchAt(pat, s, i).value)
      && forall b: nat :: Span(pat, s, i, b) ==> b <= MatchAt(pat, s, i).value
    ensures MatchAt(pat, s, i).None? ==> forall b: nat :: !Span(pat, s, i, b)
  {
    match pat
    case EmailPattern => MatchEmailAtCorrect(s, i);
    case PhonePattern => MatchPhoneAtCorrect(s, i);
  }

  /** The characters a match of the pattern can hold */
  predicate MatchChar(pat: Pattern, c: char) {
    match pat
    case EmailPattern => IsAddrChar(c) || c == '@'
    case PhonePattern => IsPhoneChar(c) || c == '+'
  }

  /** The characters that can lengthen a span of the pattern at its end */
  predicate TailChar(pat: Pattern, c: char) {
    match pat
    case EmailPattern => IsAddrChar(c)
    case PhonePattern => IsPhoneChar(c)
  }

  /** A span lies inside the string and holds only characters of the pattern. */
  lemma SpanChars(pat: Pattern, s: string, i: nat, e: nat)
    requires Span(pat, s, i, e)
    ensures i < e <= |s| && forall k :: i <= k < e ==> MatchChar(pat, s[k])
  {
    if pat.EmailPattern? {
      var a: nat, d: nat :| EmailAt(s, i, a, d, e);
    }
  }

  /** Two spans of the pattern from the same start differ only by characters
      that can lengthen a span. */
  lemma SpanExtension(pat: Pattern, s: string, i: nat, e: nat, b: nat)
    requires Span(pat, s, i, e) && Span(pat, s, i, b) && e <= b
    ensures forall k :: e <= k < b ==> TailChar(pat, s[k])
  {
    if pat.EmailPattern? {
      var a: nat, d: nat :| EmailAt(s, i, a, d, e);
      var a': nat, d': nat :| EmailAt(s, i, a', d', b);
      assert !IsAddrChar('@');
      if a < a' {
        assert IsAddrChar(s[a]);
      } else if a' < a {
        assert IsAddrChar(s[a']);
      }
      forall k | e <= k < b ensures IsAddrChar(s[k]) {
        assert a' < k;
      }
    }
  }

  /** The matches `pattern.finditer(s)` reports from position i, as (start, end)
      pairs: at each position the pattern is tried, and after a match the search
      resumes where it ended (neither pattern matches the empty string). */
  function Spans(pat: Pattern, s: string, i: nat): (sp: seq<(nat, nat)>)
    requires i <= |s|
    ensures |sp| <= |s| - i
    // each pair is the match the pattern makes at its start
    ensures forall k :: 0 <= k < |sp| ==>
      i <= sp[k].0 < sp[k].1 <= |s| && MatchAt(pat, s, sp[k].0) == Some(sp[k].1)
    // in increasing order and without overlap
    ensures forall k :: 0 < k < |sp| ==> sp[k - 1].1 <= sp[k].0
    decreases |s| - i
  {
    if i == |s| then []
    else match MatchAt(pat, s, i)
      case Some(e) => [(i, e)] + Spans(pat, s, e)
      case None => Spans(pat, s, i + 1)
  }

  /** No pair of sp covers position j */
  predicate Uncovered(sp: seq<(nat, nat)>, j: nat) {
    forall k :: 0 <= k < |sp| ==> !(sp[k].0 <= j < sp[k].1)
  }

  lemma UncoveredTail(first: (nat, nat), rest: seq<(nat, nat)>, j: nat)
    requires Uncovered([first] + rest, j)
    ensures !(first.0 <= j < first.1) && Uncovered(rest, j)
  {
    var sp := [first] + rest;
    assert sp[0] == first;
    forall k | 0 <= k < |rest| ensures !(rest[k].0 <= j < rest[k].1) {
      assert rest[k] == sp[k + 1];
    }
  }

  /** The search skips no span: no span of the pattern starts at a position at
      or after i that no reported match covers. */
  lemma {:induction false} SpansSkipNothing(pat: Pattern, s: string, i: nat)
    requires i <= |s|
    ensures forall j: nat, b: nat :: i <= j && Uncovered(Spans(pat, s, i), j) ==> !Span(pat, s, j, b)
    decreases |s| - i
  {
    var sp := Spans(pat, s, i);
    if i == |s| {
      forall j: nat, b: nat | i <= j && Span(pat, s, j, b) ensures false {
        SpanChars(pat, s, j, b);
      }
    } else {
      MatchAtCorrect(pat, s, i);
      match MatchAt(pat, s, i)
      case Some(e) =>
        SpansSkipNothing(pat, s, e);
        forall j: nat | i <= j && Uncovered(sp, j) ensures e <= j && Uncovered(Spans(pat, s, e), j) {
          UncoveredTail((i, e), Spans(pat, s, e), j);
        }
      case None =>
        SpansSkipNothing(pat, s, i + 1);
    }
  }

  /** `pattern.findall(s)` from position i: the text of each reported match (the
      email pattern's one group spans the whole match). */
  function FindAll(pat: Pattern, s: string, i: nat): (ms: seq<string>)
    requires i <= |s|
    ensures |ms| <= |s| - i
  {
    var sp := Spans(pat, s, i);
    seq(|sp|, k requires 0 <= k < |sp| => s[sp[k].0..sp[k].1])
  }

  /** Every match returned is the substring s[j..e] of a span the pattern
      describes, starting at or after i. */
  lemma FindAllSound(pat: Pattern, s: string, i: nat)
    requires i <= |s|
    ensures forall m :: m in FindAll(pat, s, i) ==>
      exists j: nat, e: nat :: i <= j < e <= |s| && Span(pat, s, j, e) && m == s[j..e]
  {
    var sp := Spans(pat, s, i);
    forall m | m in FindAll(pat, s, i)
      ensures exists j: nat, e: nat :: i <= j < e <= |s| && Span(pat, s, j, e) && m == s[j..e]
    {
      var k :| 0 <= k < |sp| && m == s[sp[k].0..sp[k].1];
      MatchAtCorrect(pat, s, sp[k].0);
    }
  }

  /** findall returns nothing exactly when no span of the pattern starts at or
      after i. */
  lemma FindAllEmptyIff(pat: Pattern, s: string, i: nat)
    requires i <= |s|
    ensures FindAll(pat, s, i) == [] <==> forall j: nat, e: nat :: i <= j ==> !Span(pat, s, j, e)
  {
    FindAllSound(pat, s, i);
    SpansSkipNothing(pat, s, i);
    if FindAll(pat, s, i) != [] {
      assert FindAll(pat, s, i)[0] in FindAll(pat, s, i);
    }
  }

  /** A span that no match could have entered from the left (it starts the
      string, or follows a character no match holds) and that cannot be
      lengthened (it ends the string, or the next character cannot lengthen
      it) is one of the matches findall returns. */
  lemma BorderedSpanFound(pat: Pattern, s: string, j: nat, e: nat)
    requires j < e <= |s| && Span(pat, s, j, e)
    requires j == 0 || !MatchChar(pat, s[j - 1])
    requires e == |s| || !TailChar(pat, s[e])
    ensures s[j..e] in FindAll(pat, s, 0)
  {
    var sp := Spans(pat, s, 0);
    SpansSkipNothing(pat, s, 0);
    assert !Uncovered(sp, j);
    var k :| 0 <= k < |sp| && sp[k].0 <= j < sp[k].1;
    var a, b := sp[k].0, sp[k].1;
    MatchAtCorrect(pat, s, a);
    SpanChars(pat, s, a, b);
    assert a == j;
    SpanExtension(pat, s, j, e, b);
    assert b == e;
    assert FindAll(pat, s, 0)[k] == s[j..e];
  }

  /** An email span lifted out of its string is an email on its own. */
  lemma EmailSpanIsEmail(s: string, j: nat, e: nat)
    requires j <= e <= |s| && EmailSpan(s, j, e)
    ensures IsEmail(s[j..e])
  {
    var a: nat, d: nat :| EmailAt(s, j, a, d, e);
    var w := s[j..e];
    assert EmailAt(w, 0, a - j, d - j, |w|);
  }

  /** An email is a non-empty local part of address characters, its only `@`,
      a non-empty run of address characters, a dot, and a non-empty last label
      of label characters. */
  lemma EmailShape(w: string)
    requires IsEmail(w)
    ensures exists a: nat, d: nat ::
      0 < a && a + 1 < d < |w| - 1 && w[a] == '@' && w[d] == '.'
      && (forall k :: 0 <= k < |w| && k != a ==> w[k] != '@')
      && (forall k :: 0 <= k < a ==> IsAddrChar(w[k]))
      && (forall k :: a < k < d ==> IsAddrChar(w[k]))
      && (forall k :: d < k < |w| ==> IsLabelChar(w[k]))
  {
    var a: nat, d: nat :| EmailAt(w, 0, a, d, |w|);
    forall k | 0 <= k < |w| && k != a ensures w[k] != '@' {
      if k < a || k < d {
        assert IsAddrChar(w[k]);
      } else if k > d {
        assert IsLabelChar(w[k]);
      }
    }
  }

}
