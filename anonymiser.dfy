/** The GDPR anonymiser `anonymiser_texte`: four `re.sub` passes run in a fixed
    order (names, e-mail addresses, French phone numbers, IBAN-like tokens), each
    over the previous one's output. Each pass is a left-to-right scan that, at
    every position, asks its pattern for the length of the match starting there
    (0 when there is none), replaces a match and resumes after it, or copies one
    character and moves on; the backtracking of each regular expression is
    resolved by hand in its match-length function. */
module Anonymiser {
  import opened Text
  import opened Outcomes

  /** `\w`: letters, digits and underscore. Outside ASCII this model knows the
      Latin-1 alphanumerics and Latin Extended-A (all letters). */
  predicate IsWordChar(c: char) {
    || ('a' <= c <= 'z') || ('A' <= c <= 'Z') || ('0' <= c <= '9') || c == '_'
    || c == 'ª' || c == '²' || c == '³' || c == 'µ' || c == '¹' || c == 'º'
    || ('¼' <= c <= '¾') || ('À' <= c <= 'Ö') || ('Ø' <= c <= 'ö') || ('ø' <= c <= '\U{17f}')
  }

  /** `\d`, restricted to ASCII digits. */
  predicate IsDigit(c: char) {
    '0' <= c <= '9'
  }

  predicate IsUpper(c: char) {
    'A' <= c <= 'Z'
  }

  /** `[A-Z]` under IGNORECASE. */
  predicate IsAsciiLetter(c: char) {
    ('a' <= c <= 'z') || ('A' <= c <= 'Z')
  }

  /** `\b` at position `i`: a word character on exactly one side. */
  predicate IsBoundary(s: string, i: nat)
    requires i <= |s|
  {
    (i > 0 && IsWordChar(s[i - 1])) != (i < |s| && IsWordChar(s[i]))
  }

  /** The character classes the patterns repeat. */
  datatype CharClass =
    | Space        // \s
    | NameLetter   // [a-zéèêëàâäôöûüç] under IGNORECASE
    | EmailLocal   // [a-zA-Z0-9_.+-]
    | EmailDomain  // [a-zA-Z0-9-]
    | EmailSuffix  // [a-zA-Z0-9-.]
    | WordOrSpace  // [\w\s]

  /** `[éèêëàâäôöûüç]` under IGNORECASE. */
  predicate IsFrenchAccented(c: char) {
    || c == 'é' || c == 'è' || c == 'ê' || c == 'ë' || c == 'à' || c == 'â'
    || c == 'ä' || c == 'ô' || c == 'ö' || c == 'û' || c == 'ü' || c == 'ç'
    || c == 'É' || c == 'È' || c == 'Ê' || c == 'Ë' || c == 'À' || c == 'Â'
    || c == 'Ä' || c == 'Ô' || c == 'Ö' || c == 'Û' || c == 'Ü' || c == 'Ç'
  }

  predicate InClass(cls: CharClass, c: char) {
    match cls
    case Space => IsSpace(c)
    case NameLetter => IsAsciiLetter(c) || IsFrenchAccented(c)
    case EmailLocal => IsAsciiLetter(c) || IsDigit(c) || c == '_' || c == '.' || c == '+' || c == '-'
    case EmailDomain => IsAsciiLetter(c) || IsDigit(c) || c == '-'
    case EmailSuffix => IsAsciiLetter(c) || IsDigit(c) || c == '-' || c == '.'
    case WordOrSpace => IsWordChar(c) || IsSpace(c)
  }

  /** Length of the maximal run of `cls` characters starting at `i`: what a greedy
      `cls+` consumes before backtracking. */
  function RunLen(s: string, i: nat, cls: CharClass): (n: nat)
    requires i <= |s|
    ensures i + n <= |s|
    ensures forall k | i <= k < i + n :: InClass(cls, s[k])
    ensures i + n < |s| ==> !InClass(cls, s[i + n])
    decreases |s| - i
  {
    if i < |s| && InClass(cls, s[i]) then 1 + RunLen(s, i + 1, cls) else 0
  }

  /** A run of `n` characters of `cls` that ends at the end of the text or
      before a character outside `cls` is the maximal run. */
  lemma {:induction false} RunLenIs(s: string, i: nat, cls: CharClass, n: nat)
    requires i + n <= |s|
    requires forall k | i <= k < i + n :: InClass(cls, s[k])
    requires i + n == |s| || !InClass(cls, s[i + n])
    ensures RunLen(s, i, cls) == n
    decreases n
  {
    if n > 0 {
      RunLenIs(s, i + 1, cls, n - 1);
    }
  }

  /** The largest position in `[lo, hi]` where `\b` holds: where a greedy run
      followed by `\b` ends after backtracking. */
  function LastBoundary(s: string, lo: nat, hi: nat): (r: Option<nat>)
    requires hi <= |s|
    ensures r.Some? ==> lo <= r.value <= hi && IsBoundary(s, r.value)
    ensures r.Some? ==> forall e | r.value < e <= hi :: !IsBoundary(s, e)
    ensures r.None? ==> forall e | lo <= e <= hi :: !IsBoundary(s, e)
    decreases hi
  {
    if hi < lo then None
    else if IsBoundary(s, hi) then Some(hi)
    else if hi == 0 then None
    else LastBoundary(s, lo, hi - 1)
  }

  function Lower(c: char): char {
    if 'A' <= c <= 'Z' then (c as int + 32) as char else c
  }

  function LowerAscii(w: string): (r: string)
    ensures |r| == |w|
  {
    seq(|w|, k requires 0 <= k < |w| => Lower(w[k]))
  }

  /** The honorifics of the name pattern, compared case-insensitively. */
  predicate IsHonorific(w: string) {
    LowerAscii(w) in {"monsieur", "mr", "m.", "madame", "mme", "mlle"}
  }

  predicate MatchesAt(s: string, i: nat, word: string) {
    i + |word| <= |s| && LowerAscii(s[i..i + |word|]) == word
  }

  /** A word matched at `i` fixes the letter at `i + 1`, which tells the
      honorifics apart. */
  lemma SecondLetter(s: string, i: nat, w: string)
    requires |w| >= 2
    ensures MatchesAt(s, i, w) ==> Lower(s[i + 1]) == w[1]
  {
    if MatchesAt(s, i, w) {
      assert LowerAscii(s[i..i + |w|])[1] == Lower(s[i + 1]);
    }
  }

  /** Length of the honorific alternative `(Monsieur|Mr|M\.|Madame|Mme|Mlle)`
      matching at `i` under IGNORECASE, or 0. The alternatives differ by their
      second character, so at most one can match and trying them in order never
      needs to backtrack into another (`HonorificsRecognised`). */
  function HonorificLen(s: string, i: nat): (h: nat)
    requires i <= |s|
    ensures i + h <= |s|
  {
    if MatchesAt(s, i, "monsieur") then 8
    else if MatchesAt(s, i, "mr") then 2
    else if MatchesAt(s, i, "m.") then 2
    else if MatchesAt(s, i, "madame") then 6
    else if MatchesAt(s, i, "mme") then 3
    else if MatchesAt(s, i, "mlle") then 4
    else 0
  }

  /** A non-zero length covers an honorific, which starts with `m` or `M`. */
  lemma HonorificsSound(s: string, i: nat)
    requires i <= |s|
    ensures HonorificLen(s, i) > 0 ==> IsHonorific(s[i..i + HonorificLen(s, i)]) && Lower(s[i]) == 'm'
  {
    var h := HonorificLen(s, i);
    if h > 0 {
      assert LowerAscii(s[i..i + h])[0] == Lower(s[i]);
    }
  }

  /** Whichever honorific is written at `i`, in any case, is recognised with
      its own length. */
  lemma HonorificsRecognised(s: string, i: nat)
    requires i <= |s|
    ensures MatchesAt(s, i, "monsieur") ==> HonorificLen(s, i) == 8
    ensures MatchesAt(s, i, "mr") ==> HonorificLen(s, i) == 2
    ensures MatchesAt(s, i, "m.") ==> HonorificLen(s, i) == 2
    ensures MatchesAt(s, i, "madame") ==> HonorificLen(s, i) == 6
    ensures MatchesAt(s, i, "mme") ==> HonorificLen(s, i) == 3
    ensures MatchesAt(s, i, "mlle") ==> HonorificLen(s, i) == 4
  {
    SecondLetter(s, i, "monsieur");
    SecondLetter(s, i, "mr");
    SecondLetter(s, i, "m.");
    SecondLetter(s, i, "madame");
    SecondLetter(s, i, "mme");
    SecondLetter(s, i, "mlle");
  }

  /** Every character of `[a, b)` is in `cls`: the run of `cls` at `a` reaches
      `b` (`CoversAll` states it character by character). */
  predicate Covers(s: string, a: nat, b: nat, cls: CharClass) {
    a <= b <= |s| && RunLen(s, a, cls) >= b - a
  }

  lemma CoversAll(s: string, a: nat, b: nat, cls: CharClass)
    requires a <= b <= |s|
    ensures Covers(s, a, b, cls) <==> forall p | a <= p < b :: InClass(cls, s[p])
  {
    if !Covers(s, a, b, cls) {
      assert !InClass(cls, s[a + RunLen(s, a, cls)]);
    }
  }

  /** `\s+` spans `[a, b)`. */
  predicate SpaceSpan(s: string, a: nat, b: nat) {
    a < b && Covers(s, a, b, Space)
  }

  /** `[A-Z][a-zéèêëàâäôöûüç]+` under IGNORECASE spans `[k, e)`. */
  predicate NameSpan(s: string, k: nat, e: nat) {
    k + 2 <= e <= |s| && IsAsciiLetter(s[k]) && Covers(s, k + 1, e, NameLetter)
  }

  /** The name pattern with one name spans `[i, e)`, the name starting at `k`. */
  predicate OneNameAt(s: string, i: nat, k: nat, e: nat) {
    i <= |s| && IsBoundary(s, i) && HonorificLen(s, i) > 0
    && SpaceSpan(s, i + HonorificLen(s, i), k) && NameSpan(s, k, e)
  }

  /** The name pattern with two names spans `[i, e)`: the first name ends at
      `e1`, the second starts at `k2`. */
  predicate TwoNamesAt(s: string, i: nat, k: nat, e1: nat, k2: nat, e: nat) {
    OneNameAt(s, i, k, e1) && SpaceSpan(s, e1, k2) && NameSpan(s, k2, e)
  }

  /** End of the longest name `[A-Z][a-zéèêëàâäôöûüç]+` starting at `k`, if one
      starts there. */
  function NameEnd(s: string, k: nat): (r: Option<nat>)
    requires k <= |s|
    ensures r.Some? ==> NameSpan(s, k, r.value)
    ensures r.Some? ==> r.value == |s| || !InClass(NameLetter, s[r.value])
    ensures forall e: nat | NameSpan(s, k, e) :: r.Some? && e <= r.value
  {
    if k < |s| && IsAsciiLetter(s[k]) then
      var t := RunLen(s, k + 1, NameLetter);
      assert forall e: nat | NameSpan(s, k, e) :: e <= k + 1 + t;
      if t > 0 then Some(k + 1 + t)
      else None
    else None
  }

  /** What the spaces after `a` and a name after them reach: `\s+` is greedy
      and a name cannot start with whitespace, so the run ends where the name
      starts. */
  lemma SpacesThenName(s: string, a: nat, k: nat, e: nat)
    requires a <= |s| && SpaceSpan(s, a, k) && NameSpan(s, k, e)
    ensures RunLen(s, a, Space) == k - a
  {
    RunLenIs(s, a, Space, k - a);
  }

  /** In a one-name span the name starts where the spaces after the honorific
      end. */
  lemma OneNameStarts(s: string, i: nat)
    requires i <= |s|
    ensures forall k: nat, e: nat | OneNameAt(s, i, k, e) ::
      k == i + HonorificLen(s, i) + RunLen(s, i + HonorificLen(s, i), Space)
  {
    forall k: nat, e: nat | OneNameAt(s, i, k, e)
      ensures k == i + HonorificLen(s, i) + RunLen(s, i + HonorificLen(s, i), Space)
    {
      SpacesThenName(s, i + HonorificLen(s, i), k, e);
    }
  }

  /** Where the first name starts when the pattern's head, `\b`, an honorific
      and `\s+`, matches at `i`. */
  function FirstNameStart(s: string, i: nat): (r: Option<nat>)
    requires i <= |s|
    ensures r.Some? ==> IsBoundary(s, i) && HonorificLen(s, i) > 0 && SpaceSpan(s, i + HonorificLen(s, i), r.value)
    ensures forall k: nat, e: nat | OneNameAt(s, i, k, e) :: r == Some(k)
  {
    var h := HonorificLen(s, i);
    if h == 0 || !IsBoundary(s, i) then None
    else
      var w := RunLen(s, i + h, Space);
      OneNameStarts(s, i);
      if w == 0 then None else Some(i + h + w)
  }

  /** Where the optional second name `(?:\s+[A-Z][…]+)?` ends when the first
      ends at `e1`, if it is there. */
  function SecondNameEnd(s: string, e1: nat): (r: Option<nat>)
    requires e1 <= |s|
    ensures r.Some? ==> exists k2: nat :: SpaceSpan(s, e1, k2) && NameSpan(s, k2, r.value)
    ensures forall k2: nat, e: nat | SpaceSpan(s, e1, k2) && NameSpan(s, k2, e) :: r.Some? && e <= r.value
  {
    var w2 := RunLen(s, e1, Space);
    assert forall k2: nat, e: nat | SpaceSpan(s, e1, k2) && NameSpan(s, k2, e) :: k2 == e1 + w2 by {
      forall k2: nat, e: nat | SpaceSpan(s, e1, k2) && NameSpan(s, k2, e) ensures k2 == e1 + w2 {
        SpacesThenName(s, e1, k2, e);
      }
    }
    if w2 > 0 && NameEnd(s, e1 + w2).Some? then NameEnd(s, e1 + w2) else None
  }

  /** Every one-name span at `i` starts its name where `FirstNameStart` says
      and ends within the longest name there. */
  lemma OneNameSpans(s: string, i: nat)
    requires i <= |s|
    ensures forall k: nat, e: nat | OneNameAt(s, i, k, e) ::
      FirstNameStart(s, i) == Some(k) && NameEnd(s, k).Some? && e <= NameEnd(s, k).value
  {
  }

  /** A name followed by whitespace is the longest name there. */
  lemma SpaceEndsName(s: string, k: nat, f: nat)
    requires NameSpan(s, k, f) && f < |s| && IsSpace(s[f])
    ensures NameEnd(s, k) == Some(f)
  {
    RunLenIs(s, k + 1, NameLetter, f - k - 1);
  }

  /** Every two-name span at `i` has its first name end where the longest first
      name ends, and ends within the longest second name after it. */
  lemma TwoNameSpans(s: string, i: nat)
    requires i <= |s|
    ensures forall k: nat, f1: nat, k2: nat, e: nat | TwoNamesAt(s, i, k, f1, k2, e) ::
      FirstNameStart(s, i) == Some(k) && NameEnd(s, k) == Some(f1)
      && SecondNameEnd(s, f1).Some? && e <= SecondNameEnd(s, f1).value
  {
    forall k: nat, f1: nat, k2: nat, e: nat | TwoNamesAt(s, i, k, f1, k2, e)
      ensures FirstNameStart(s, i) == Some(k) && NameEnd(s, k) == Some(f1)
    {
      assert OneNameAt(s, i, k, f1);
      SpaceEndsName(s, k, f1);
    }
  }

  /** Pass 1, `\b(Monsieur|Mr|M\.|Madame|Mme|Mlle)\s+([A-Z][…]+(?:\s+[A-Z][…]+)?)`
      with IGNORECASE: the length of the match at `i`. Every `+` is greedy and
      the next element cannot match the character it stopped at, so no
      backtracking changes the result; the optional second name is taken
      whenever it is there. The match is therefore the longest span the pattern
      describes. */
  function NameMatch(s: string, i: nat): (n: nat)
    requires i <= |s|
    ensures i + n <= |s|
    ensures n > 0 ==>
      (exists k: nat, e: nat :: e == i + n && OneNameAt(s, i, k, e)) ||
      (exists k: nat, e1: nat, k2: nat, e: nat :: e == i + n && TwoNamesAt(s, i, k, e1, k2, e))
    ensures forall k: nat, e: nat | OneNameAt(s, i, k, e) :: e <= i + n
    ensures forall k: nat, e1: nat, k2: nat, e: nat | TwoNamesAt(s, i, k, e1, k2, e) :: e <= i + n
  {
    OneNameSpans(s, i);
    TwoNameSpans(s, i);
    match FirstNameStart(s, i)
    case None => 0
    case Some(k) =>
      match NameEnd(s, k)
      case None => 0
      case Some(e1) =>
        assert OneNameAt(s, i, k, e1);
        match SecondNameEnd(s, e1)
        case None => e1 - i
        case Some(e) =>
          var k2: nat :| SpaceSpan(s, e1, k2) && NameSpan(s, k2, e);
          assert TwoNamesAt(s, i, k, e1, k2, e);
          e - i
  }

  /** An honorific at a word boundary, whitespace, then a letter and at least
      one more name letter: the name pass matches at least that far. */
  lemma HonorificAndNameAreFound(s: string, i: nat, k: nat, e: nat)
    requires i <= |s| && IsBoundary(s, i) && HonorificLen(s, i) > 0
    requires i + HonorificLen(s, i) < k && k + 2 <= e <= |s|
    requires forall p | i + HonorificLen(s, i) <= p < k :: IsSpace(s[p])
    requires IsAsciiLetter(s[k])
    requires forall p | k + 1 <= p < e :: InClass(NameLetter, s[p])
    ensures NameMatch(s, i) >= e - i > 0
  {
    CoversAll(s, i + HonorificLen(s, i), k, Space);
    CoversAll(s, k + 1, e, NameLetter);
    assert OneNameAt(s, i, k, e);
  }

  /** The head `\b[a-zA-Z0-9_.+-]+@[a-zA-Z0-9-]+\.` of the e-mail pattern spans
      `[i, dot]`, with its `@` at `at`. */
  predicate AddressHeadAt(s: string, i: nat, at: nat, dot: nat) {
    i < at && at + 1 < dot < |s|
    && IsBoundary(s, i)
    && Covers(s, i, at, EmailLocal) && s[at] == '@'
    && Covers(s, at + 1, dot, EmailDomain) && s[dot] == '.'
  }

  /** `\b[a-zA-Z0-9_.+-]+@[a-zA-Z0-9-]+\.[a-zA-Z0-9-.]+\b` spans `[i, e)`, with
      its `@` at `at` and the dot that ends the domain at `dot`. */
  predicate AddressAt(s: string, i: nat, at: nat, dot: nat, e: nat) {
    AddressHeadAt(s, i, at, dot) && dot + 1 < e <= |s|
    && IsBoundary(s, e) && Covers(s, dot + 1, e, EmailSuffix)
  }

  /** Where the `@` and the domain's closing dot are when the pattern's head
      matches at `i`. The local part and the domain cannot hold the character
      that ends them, so there is at most one such head. */
  function AddressHead(s: string, i: nat): (r: Option<(nat, nat)>)
    requires i <= |s|
    ensures r.Some? ==> AddressHeadAt(s, i, r.value.0, r.value.1)
    ensures forall at: nat, dot: nat | AddressHeadAt(s, i, at, dot) :: r == Some((at, dot))
  {
    if !IsBoundary(s, i) then None
    else
      var a := RunLen(s, i, EmailLocal);
      var at := i + a;
      if a == 0 || at >= |s| || s[at] != '@' then None
      else
        var d := RunLen(s, at + 1, EmailDomain);
        var dot := at + 1 + d;
        if d == 0 || dot >= |s| || s[dot] != '.' then None
        else Some((at, dot))
  }

  /** Pass 2: the length of the e-mail match at `i`. Only the last run can
      backtrack (it contains `.` and is followed by `\b`): it ends at the last
      word boundary it covers, which makes the match the longest address that
      starts at `i`. */
  function EmailMatch(s: string, i: nat): (n: nat)
    requires i <= |s|
    ensures i + n <= |s|
    ensures n > 0 ==> exists at: nat, dot: nat, e: nat :: e == i + n && AddressAt(s, i, at, dot, e)
    ensures forall at: nat, dot: nat, e: nat | AddressAt(s, i, at, dot, e) :: e <= i + n
  {
    match AddressHead(s, i)
    case None => 0
    case Some((at, dot)) =>
      var m := RunLen(s, dot + 1, EmailSuffix);
      match LastBoundary(s, dot + 2, dot + 1 + m)
      case None => 0
      case Some(e) =>
        assert AddressAt(s, i, at, dot, e);
        e - i
  }

  /** A local part, an `@`, a domain, a dot and a suffix of two or more
      characters, between word boundaries: the e-mail pass matches at least
      that far. */
  lemma AddressIsFound(s: string, i: nat, at: nat, dot: nat, e: nat)
    requires i < at && at + 1 < dot && dot + 1 < e <= |s|
    requires IsBoundary(s, i) && IsBoundary(s, e)
    requires forall p | i <= p < at :: InClass(EmailLocal, s[p])
    requires s[at] == '@'
    requires forall p | at + 1 <= p < dot :: InClass(EmailDomain, s[p])
    requires s[dot] == '.'
    requires forall p | dot + 1 <= p < e :: InClass(EmailSuffix, s[p])
    ensures EmailMatch(s, i) >= e - i > 0
  {
    CoversAll(s, i, at, EmailLocal);
    CoversAll(s, at + 1, dot, EmailDomain);
    CoversAll(s, dot + 1, e, EmailSuffix);
    assert AddressAt(s, i, at, dot, e);
  }

  /** The separator class `[\s.-]`. */
  predicate IsSeparator(c: char) {
    IsSpace(c) || c == '.' || c == '-'
  }

  /** `[\s.-]?\d{2}` spans `[p, q)`. */
  predicate PairStep(s: string, p: nat, q: nat) {
    q <= |s| &&
    ((q == p + 2 && IsDigit(s[p]) && IsDigit(s[p + 1])) ||
     (q == p + 3 && IsSeparator(s[p]) && IsDigit(s[p + 1]) && IsDigit(s[p + 2])))
  }

  /** `[\s.-]?` followed by `\d{2}` at `p`: where the pair ends, if it is there.
      A separator is no digit, so the pair can end in one place only. */
  function PairEnd(s: string, p: nat): (r: Option<nat>)
    requires p <= |s|
    ensures forall q: nat :: PairStep(s, p, q) <==> r == Some(q)
  {
    var q := if p < |s| && IsSeparator(s[p]) then p + 1 else p;
    if q + 2 <= |s| && IsDigit(s[q]) && IsDigit(s[q + 1]) then Some(q + 2) else None
  }

  /** `\b0[1-9][\s.-]?\d{2}[\s.-]?\d{2}[\s.-]?\d{2}[\s.-]?\d{2}\b` spans `[i, e)`,
      its pairs ending at `p1`, `p2`, `p3` and `e`. */
  predicate PhoneAt(s: string, i: nat, p1: nat, p2: nat, p3: nat, e: nat) {
    i + 2 <= |s| && e <= |s| && IsBoundary(s, i) && s[i] == '0' && '1' <= s[i + 1] <= '9'
    && PairStep(s, i + 2, p1) && PairStep(s, p1, p2) && PairStep(s, p2, p3) && PairStep(s, p3, e)
    && IsBoundary(s, e)
  }

  /** Pass 3: the length of the phone match at `i`. A separator, when present,
      must be taken (a digit has to follow), so the pattern never backtracks
      and matches at most one span. */
  function PhoneMatch(s: string, i: nat): (n: nat)
    requires i <= |s|
    ensures i + n <= |s|
    ensures n > 0 ==> 10 <= n <= 14 && exists p1: nat, p2: nat, p3: nat, e: nat :: e == i + n && PhoneAt(s, i, p1, p2, p3, e)
    ensures forall p1: nat, p2: nat, p3: nat, e: nat | PhoneAt(s, i, p1, p2, p3, e) :: e == i + n
  {
    if !(IsBoundary(s, i) && i + 2 <= |s| && s[i] == '0' && '1' <= s[i + 1] <= '9') then 0
    else
      match PairEnd(s, i + 2)
      case None => 0
      case Some(p1) =>
        match PairEnd(s, p1)
        case None => 0
        case Some(p2) =>
          match PairEnd(s, p2)
          case None => 0
          case Some(p3) =>
            match PairEnd(s, p3)
            case None => 0
            case Some(p4) =>
              if IsBoundary(s, p4) then
                assert PhoneAt(s, i, p1, p2, p3, p4);
                p4 - i
              else 0
  }

  /** `0`, a digit from 1 to 9 and eight more digits between word boundaries:
      the phone pass matches exactly those ten characters. */
  lemma TenDigitPhoneIsFound(s: string, i: nat)
    requires i + 10 <= |s| && IsBoundary(s, i) && IsBoundary(s, i + 10)
    requires s[i] == '0' && '1' <= s[i + 1] <= '9'
    requires forall k | i + 2 <= k < i + 10 :: IsDigit(s[k])
    ensures PhoneMatch(s, i) == 10
  {
    assert PhoneAt(s, i, i + 4, i + 6, i + 8, i + 10);
  }

  /** The spaced form `0X XX XX XX XX`, each separator a whitespace, `.` or
      `-`, between word boundaries: the phone pass matches all fourteen
      characters. */
  lemma SpacedPhoneIsFound(s: string, i: nat)
    requires i + 14 <= |s| && IsBoundary(s, i) && IsBoundary(s, i + 14)
    requires s[i] == '0' && '1' <= s[i + 1] <= '9'
    requires IsSeparator(s[i + 2]) && IsSeparator(s[i + 5]) && IsSeparator(s[i + 8]) && IsSeparator(s[i + 11])
    requires IsDigit(s[i + 3]) && IsDigit(s[i + 4]) && IsDigit(s[i + 6]) && IsDigit(s[i + 7])
    requires IsDigit(s[i + 9]) && IsDigit(s[i + 10]) && IsDigit(s[i + 12]) && IsDigit(s[i + 13])
    ensures PhoneMatch(s, i) == 14
  {
    assert PhoneAt(s, i, i + 5, i + 8, i + 11, i + 14);
  }

  /** `\b[A-Z]{2}\d{2}[\s]?[\w\s]{4,30}\b` spans `[i, e)`: two capitals and two
      digits, then 4 to 30 word or whitespace characters, or 31 when the first
      of them is the optional whitespace. */
  predicate IbanAt(s: string, i: nat, e: nat) {
    i + 8 <= e <= |s| && IsBoundary(s, i) && IsBoundary(s, e)
    && IsUpper(s[i]) && IsUpper(s[i + 1]) && IsDigit(s[i + 2]) && IsDigit(s[i + 3])
    && Covers(s, i + 4, e, WordOrSpace)
    && (e <= i + 34 || (e == i + 35 && IsSpace(s[i + 4])))
  }

  function Min(a: nat, b: nat): nat {
    if a <= b then a else b
  }

  /** Pass 4: the length of the IBAN match at `i`. Backtracking first shortens
      `[\w\s]{4,30}` after a taken `[\s]?`, then drops the `[\s]?`; together the
      match ends at the last word boundary between 4 and 30 characters after the
      digits (31 when a whitespace follows them): the longest span the pattern
      describes. */
  function IbanMatch(s: string, i: nat): (n: nat)
    requires i <= |s|
    ensures i + n <= |s|
    ensures n > 0 ==> IbanAt(s, i, i + n)
    ensures forall e: nat | IbanAt(s, i, e) :: e <= i + n
  {
    if !(IsBoundary(s, i) && i + 4 <= |s| && IsUpper(s[i]) && IsUpper(s[i + 1])
         && IsDigit(s[i + 2]) && IsDigit(s[i + 3])) then 0
    else
      var hi := IbanReach(s, i);
      match LastBoundary(s, i + 8, hi)
      case None => 0
      case Some(e) => e - i
  }

  /** How far `[\s]?[\w\s]{4,30}` can reach after the digits at `i`: the run of
      `[\w\s]`, capped at 30 characters, or 31 when a whitespace comes first.
      Every IBAN span at `i` ends within it, and every word boundary between
      `i + 8` and it ends one. */
  function IbanReach(s: string, i: nat): (hi: nat)
    requires i + 4 <= |s|
    requires IsBoundary(s, i) && IsUpper(s[i]) && IsUpper(s[i + 1]) && IsDigit(s[i + 2]) && IsDigit(s[i + 3])
    ensures hi <= |s|
    ensures forall e: nat | IbanAt(s, i, e) :: e <= hi
    ensures forall e: nat | i + 8 <= e <= hi && IsBoundary(s, e) :: IbanAt(s, i, e)
  {
    var p := i + 4;
    var cap := if p < |s| && IsSpace(s[p]) then 31 else 30;
    var run := RunLen(s, p, WordOrSpace);
    p + Min(cap, run)
  }

  /** Two capitals and two digits at a word boundary, then 4 to 30 word or
      whitespace characters up to a word boundary: the IBAN pass matches at
      least that far. */
  lemma IbanIsFound(s: string, i: nat, e: nat)
    requires i + 8 <= e <= i + 34 && e <= |s|
    requires IsBoundary(s, i) && IsBoundary(s, e)
    requires IsUpper(s[i]) && IsUpper(s[i + 1]) && IsDigit(s[i + 2]) && IsDigit(s[i + 3])
    requires forall p | i + 4 <= p < e :: IsWordChar(s[p]) || IsSpace(s[p])
    ensures IbanMatch(s, i) >= e - i
  {
    assert forall p | i + 4 <= p < e :: InClass(WordOrSpace, s[p]);
    CoversAll(s, i + 4, e, WordOrSpace);
    assert IbanAt(s, i, e);
  }

  /** The four substitutions, in the order the anonymiser applies them. */
  datatype Rule = Names | Emails | Phones | Ibans

  function MatchLen(rule: Rule, s: string, i: nat): (n: nat)
    requires i <= |s|
    ensures i + n <= |s|
  {
    match rule
    case Names => NameMatch(s, i)
    case Emails => EmailMatch(s, i)
    case Phones => PhoneMatch(s, i)
    case Ibans => IbanMatch(s, i)
  }

  /** What replaces a match at `i`: the name pass keeps the honorific (`\1`) as
      written and puts one space and `[nom]` in place of the name(s). */
  function Replacement(rule: Rule, s: string, i: nat): (r: string)
    requires i <= |s|
    ensures rule == Names ==> r == s[i..i + HonorificLen(s, i)] + " [nom]"
  {
    match rule
    case Names => s[i..i + HonorificLen(s, i)] + " [nom]"
    case Emails => "[email]"
    case Phones => "[téléphone]"
    case Ibans => "[IBAN]"
  }

  /** Where a pattern matches in a text: for every position, the length of the
      match starting there (0 for none) and the text that replaces it. */
  predicate IsMatchTable(s: string, lens: seq<nat>, reps: seq<string>) {
    && |lens| == |s| && |reps| == |s|
    && forall k | 0 <= k < |s| :: k + lens[k] <= |s|
  }

  /** `re.sub` from position `i` over a match table: the leftmost match is
      replaced, the scan resumes after it, and text no match covers is copied. */
  function Scan(s: string, lens: seq<nat>, reps: seq<string>, i: nat): string
    requires IsMatchTable(s, lens, reps) && i <= |s|
    decreases |s| - i
  {
    if i == |s| then []
    else if lens[i] > 0 then reps[i] + Scan(s, lens, reps, i + lens[i])
    else [s[i]] + Scan(s, lens, reps, i + 1)
  }

  /** A table with no match from `i` on leaves the rest of the text unchanged. */
  lemma {:induction false} ScanWithoutMatchCopies(s: string, lens: seq<nat>, reps: seq<string>, i: nat)
    requires IsMatchTable(s, lens, reps) && i <= |s|
    requires forall k | i <= k < |s| :: lens[k] == 0
    ensures Scan(s, lens, reps, i) == s[i..]
    decreases |s| - i
  {
    if i < |s| {
      ScanWithoutMatchCopies(s, lens, reps, i + 1);
      assert s[i..] == [s[i]] + s[i + 1..];
    }
  }

  /** The scan is leftmost and non-overlapping: text before the first match is
      copied, the first match is replaced, and scanning resumes after it. */
  lemma {:induction false} ScanReplacesFirstMatch(s: string, lens: seq<nat>, reps: seq<string>, i: nat, j: nat)
    requires IsMatchTable(s, lens, reps) && i <= j < |s|
    requires forall k | i <= k < j :: lens[k] == 0
    requires lens[j] > 0
    ensures Scan(s, lens, reps, i) == s[i..j] + reps[j] + Scan(s, lens, reps, j + lens[j])
    decreases j - i
  {
    if i < j {
      var rest := Scan(s, lens, reps, j + lens[j]);
      assert lens[i] == 0;
      assert Scan(s, lens, reps, i) == [s[i]] + Scan(s, lens, reps, i + 1);
      ScanReplacesFirstMatch(s, lens, reps, i + 1, j);
      assert s[i..j] == [s[i]] + s[i + 1..j];
      assert [s[i]] + (s[i + 1..j] + reps[j] + rest) == ([s[i]] + s[i + 1..j]) + reps[j] + rest;
    } else {
      assert s[i..j] == [];
    }
  }

  /** The match table of one pass over a text. */
  function Lengths(rule: Rule, s: string): (lens: seq<nat>)
    ensures |lens| == |s|
    ensures forall k | 0 <= k < |s| :: lens[k] == MatchLen(rule, s, k) && k + lens[k] <= |s|
  {
    seq(|s|, k requires 0 <= k < |s| => MatchLen(rule, s, k))
  }

  function Replacements(rule: Rule, s: string): (reps: seq<string>)
    ensures |reps| == |s|
    ensures forall k | 0 <= k < |s| :: reps[k] == Replacement(rule, s, k)
  {
    seq(|s|, k requires 0 <= k < |s| => Replacement(rule, s, k))
  }

  /** `re.sub(pattern, replacement, s)` for one pass. */
  function Sub(rule: Rule, s: string): string {
    Scan(s, Lengths(rule, s), Replacements(rule, s), 0)
  }

  /** `anonymiser_texte`. */
  function Anonymise(texte: string): string {
    var t1 := Sub(Names, texte);
    var t2 := Sub(Emails, t1);
    var t3 := Sub(Phones, t2);
    Sub(Ibans, t3)
  }

  /** A pass with no match anywhere in the text leaves it unchanged. */
  lemma {:induction false} NoMatchIsIdentity(rule: Rule, s: string)
    requires forall k | 0 <= k < |s| :: MatchLen(rule, s, k) == 0
    ensures Sub(rule, s) == s
  {
    ScanWithoutMatchCopies(s, Lengths(rule, s), Replacements(rule, s), 0);
  }

  /** Text without `@` is left unchanged by the e-mail pass. */
  lemma EmailPassNeedsAt(s: string)
    requires '@' !in s
    ensures Sub(Emails, s) == s
  {
    forall k | 0 <= k < |s| ensures MatchLen(Emails, s, k) == 0 {
    }
    NoMatchIsIdentity(Emails, s);
  }

  /** Text without an `m`/`M`, an `@` or a digit holds nothing any pass can match:
      the anonymiser returns it unchanged. */
  lemma PlainTextIsUntouched(s: string)
    requires forall k | 0 <= k < |s| :: s[k] != 'm' && s[k] != 'M' && s[k] != '@' && !IsDigit(s[k])
    ensures Anonymise(s) == s
  {
    forall k | 0 <= k < |s| ensures MatchLen(Names, s, k) == 0 {
      HonorificsSound(s, k);
      assert Lower(s[k]) != 'm';
    }
    NoMatchIsIdentity(Names, s);
    EmailPassNeedsAt(s);
    forall k | 0 <= k < |s| ensures MatchLen(Phones, s, k) == 0 {
    }
    NoMatchIsIdentity(Phones, s);
    forall k | 0 <= k < |s| ensures MatchLen(Ibans, s, k) == 0 {
    }
    NoMatchIsIdentity(Ibans, s);
  }

  /** Text without a `0` is left unchanged by the phone pass. */
  lemma PhonePassNeedsZero(s: string)
    requires forall k | 0 <= k < |s| :: s[k] != '0'
    ensures Sub(Phones, s) == s
  {
    forall k | 0 <= k < |s| ensures MatchLen(Phones, s, k) == 0 {
    }
    NoMatchIsIdentity(Phones, s);
  }

  /** Text without a digit is left unchanged by the IBAN pass. */
  lemma IbanPassNeedsDigit(s: string)
    requires forall k | 0 <= k < |s| :: !IsDigit(s[k])
    ensures Sub(Ibans, s) == s
  {
    forall k | 0 <= k < |s| ensures MatchLen(Ibans, s, k) == 0 {
    }
    NoMatchIsIdentity(Ibans, s);
  }

  /** The name pass at its first match: what precedes is copied, the honorific is
      kept as written, the name or names become ` [nom]`, and the pass goes on
      after the last name. */
  lemma NamePassKeepsHonorific(s: string, j: nat)
    requires j < |s| && MatchLen(Names, s, j) > 0
    requires forall k | 0 <= k < j :: MatchLen(Names, s, k) == 0
    ensures HonorificLen(s, j) > 0 && IsHonorific(s[j..j + HonorificLen(s, j)])
    ensures j + HonorificLen(s, j) < j + MatchLen(Names, s, j)
    ensures Replacements(Names, s)[j] == s[j..j + HonorificLen(s, j)] + " [nom]"
    ensures Lengths(Names, s)[j] == MatchLen(Names, s, j)
    ensures Sub(Names, s) ==
      s[..j] + Replacements(Names, s)[j] + Scan(s, Lengths(Names, s), Replacements(Names, s), j + Lengths(Names, s)[j])
  {
    SubAtFirstMatch(Names, s, j);
    assert HonorificLen(s, j) > 0 && IsHonorific(s[j..j + HonorificLen(s, j)]) by {
      NameMatchCoversHonorific(s, j);
      HonorificsSound(s, j);
    }
    assert j + HonorificLen(s, j) < j + MatchLen(Names, s, j) by {
      NameMatchCoversHonorific(s, j);
    }
  }

  /** A name match begins with an honorific and goes on past it. */
  lemma NameMatchCoversHonorific(s: string, i: nat)
    requires i <= |s| && NameMatch(s, i) > 0
    ensures 0 < HonorificLen(s, i) < NameMatch(s, i)
  {
    var n := NameMatch(s, i);
    if exists k: nat, e: nat :: e == i + n && OneNameAt(s, i, k, e) {
      var k: nat, e: nat :| e == i + n && OneNameAt(s, i, k, e);
    } else {
      var k: nat, e1: nat, k2: nat, e: nat :| e == i + n && TwoNamesAt(s, i, k, e1, k2, e);
      assert OneNameAt(s, i, k, e1);
    }
  }

  /** Any pass at its first match copies the text before it, puts the match's
      replacement in its place and resumes after it. */
  lemma SubAtFirstMatch(rule: Rule, s: string, j: nat)
    requires j < |s| && MatchLen(rule, s, j) > 0
    requires forall k | 0 <= k < j :: MatchLen(rule, s, k) == 0
    ensures Replacements(rule, s)[j] == Replacement(rule, s, j)
    ensures Lengths(rule, s)[j] == MatchLen(rule, s, j)
    ensures Sub(rule, s) ==
      s[..j] + Replacements(rule, s)[j] + Scan(s, Lengths(rule, s), Replacements(rule, s), j + Lengths(rule, s)[j])
  {
    FirstMatchOfTable(s, Lengths(rule, s), Replacements(rule, s), j);
  }

  /** The e-mail, phone and IBAN passes put their fixed token, `[email]`,
      `[téléphone]` or `[IBAN]`, in place of their first match. */
  lemma PassWritesItsToken(rule: Rule, s: string, j: nat)
    requires rule != Names
    requires j < |s| && MatchLen(rule, s, j) > 0
    requires forall k | 0 <= k < j :: MatchLen(rule, s, k) == 0
    ensures Replacements(rule, s)[j] ==
      match rule
      case Emails => "[email]"
      case Phones => "[téléphone]"
      case _ => "[IBAN]"
    ensures Sub(rule, s) ==
      s[..j] + Replacements(rule, s)[j] + Scan(s, Lengths(rule, s), Replacements(rule, s), j + Lengths(rule, s)[j])
  {
    SubAtFirstMatch(rule, s, j);
  }

  lemma FirstMatchOfTable(s: string, lens: seq<nat>, reps: seq<string>, j: nat)
    requires IsMatchTable(s, lens, reps) && j < |s|
    requires forall k | 0 <= k < j :: lens[k] == 0
    requires lens[j] > 0
    ensures Scan(s, lens, reps, 0) == s[..j] + reps[j] + Scan(s, lens, reps, j + lens[j])
  {
    ScanReplacesFirstMatch(s, lens, reps, 0, j);
    assert s[0..j] == s[..j];
  }

  /** When the name pass leaves no `@` and no digit, the other three passes have
      nothing to replace. */
  lemma AnonymiseAfterNames(s: string, t: string)
    requires Sub(Names, s) == t
    requires '@' !in t && forall k | 0 <= k < |t| :: !IsDigit(t[k])
    ensures Anonymise(s) == t
  {
    EmailPassNeedsAt(t);
    PhonePassNeedsZero(t);
    IbanPassNeedsDigit(t);
  }
}
