/** Field validation and normalisation: the e-mail, name and phone
    recognisers, the phone and e-mail normalisers and the date-of-birth
    parser. Every recogniser is a hand-written scan; each is linked by a
    lemma or contract to the declarative grammar it implements. */
module ValidationUtils {
  import opened Wrappers
  import opened Chars

  // ===================================================================
  // E-mail: ^[a-zA-Z0-9._%+-]+@[a-zA-Z0-9.-]+\.[a-zA-Z]{2,6}$
  // ===================================================================

  predicate IsLocalChar(c: char) {
    IsAsciiLetter(c) || IsAsciiDigit(c) || c == '.' || c == '_' || c == '%' || c == '+' || c == '-'
  }

  predicate IsDomainChar(c: char) {
    IsAsciiLetter(c) || IsAsciiDigit(c) || c == '.' || c == '-'
  }

  /** `[a-zA-Z0-9._%+-]+` */
  predicate IsLocalPart(l: string) {
    |l| > 0 && forall i :: 0 <= i < |l| ==> IsLocalChar(l[i])
  }

  /** `[a-zA-Z0-9.-]+` */
  predicate IsDomainPart(d: string) {
    |d| > 0 && forall i :: 0 <= i < |d| ==> IsDomainChar(d[i])
  }

  /** `[a-zA-Z]{2,6}` */
  predicate IsTld(t: string) {
    2 <= |t| <= 6 && forall i :: 0 <= i < |t| ==> IsAsciiLetter(t[i])
  }

  /** The declarative grammar: some local part, `@`, some domain, `.` and a
      top-level domain of 2 to 6 letters make up the whole string. */
  ghost predicate EmailGrammar(s: string) {
    exists l, d, t | IsLocalPart(l) && IsDomainPart(d) && IsTld(t) :: s == l + "@" + d + "." + t
  }

  /** Position of the first occurrence of `c`. */
  function FirstIndexOf(s: string, c: char): (r: Option<nat>)
    ensures r.Some? ==> r.value < |s| && s[r.value] == c && c !in s[..r.value]
    ensures r.None? ==> c !in s
  {
    if |s| == 0 then None
    else if s[0] == c then Some(0)
    else match FirstIndexOf(s[1..], c)
      case None => None
      case Some(k) =>
        assert s[..k + 1] == [s[0]] + s[1..][..k];
        Some(k + 1)
  }

  /** Position of the last occurrence of `c`. */
  function LastIndexOf(s: string, c: char): (r: Option<nat>)
    ensures r.Some? ==> r.value < |s| && s[r.value] == c && c !in s[r.value + 1..]
    ensures r.None? ==> c !in s
  {
    if |s| == 0 then None
    else if s[|s| - 1] == c then Some(|s| - 1)
    else match LastIndexOf(s[..|s| - 1], c)
      case None => None
      case Some(k) =>
        assert s[k + 1..] == s[..|s| - 1][k + 1..] + [s[|s| - 1]];
        Some(k)
  }

  /** The recogniser: the split points are the first `@` and the last `.`;
      the three pieces between them are then checked against their classes. */
  predicate MatchesEmail(s: string) {
    match (FirstIndexOf(s, '@'), LastIndexOf(s, '.'))
    case (Some(at), Some(dot)) =>
      && at < dot
      && IsLocalPart(s[..at])
      && IsDomainPart(s[at + 1..dot])
      && IsTld(s[dot + 1..])
    case _ => false
  }

  /** The pieces of an address sit at fixed positions. */
  lemma EmailPieces(l: string, d: string, t: string)
    ensures var s := l + "@" + d + "." + t;
      && |s| == |l| + |d| + |t| + 2
      && s[..|l|] == l
      && s[|l|] == '@'
      && s[|l| + 1..|l| + 1 + |d|] == d
      && s[|l| + 1 + |d|] == '.'
      && s[|l| + 2 + |d|..] == t
  {
  }

  /** An occurrence with none before it is the first one. */
  lemma FirstIndexOfAt(s: string, c: char, k: nat)
    requires k < |s| && s[k] == c && c !in s[..k]
    ensures FirstIndexOf(s, c) == Some(k)
  {
  }

  /** An occurrence with none after it is the last one. */
  lemma LastIndexOfAt(s: string, c: char, k: nat)
    requires k < |s| && s[k] == c && c !in s[k + 1..]
    ensures LastIndexOf(s, c) == Some(k)
  {
  }

  /** In a grammatical address the first `@` ends the local part. */
  lemma FirstAtOfGrammar(l: string, d: string, t: string)
    requires '@' !in l
    ensures FirstIndexOf(l + "@" + d + "." + t, '@') == Some(|l|)
  {
    var s := l + "@" + d + "." + t;
    assert s[..|l|] == l;
    FirstIndexOfAt(s, '@', |l|);
  }

  /** In a grammatical address the last `.` starts the top-level domain. */
  lemma LastDotOfGrammar(p: string, t: string)
    requires '.' !in t
    ensures LastIndexOf(p + "." + t, '.') == Some(|p|)
  {
    var s := p + "." + t;
    assert s[|p| + 1..] == t;
    LastIndexOfAt(s, '.', |p|);
  }

  /** Everything the recogniser accepts is in the grammar. */
  lemma MatchesEmailSound(s: string)
    requires MatchesEmail(s)
    ensures EmailGrammar(s)
  {
    var at := FirstIndexOf(s, '@').value;
    var dot := LastIndexOf(s, '.').value;
    var l, d, t := s[..at], s[at + 1..dot], s[dot + 1..];
    assert s == l + "@" + d + "." + t;
  }

  /** An address assembled from grammatical pieces is accepted. */
  lemma MatchesAssembledEmail(l: string, d: string, t: string)
    requires IsLocalPart(l) && IsDomainPart(d) && IsTld(t)
    ensures MatchesEmail(l + "@" + d + "." + t)
  {
    var s := l + "@" + d + "." + t;
    assert '@' !in l && '.' !in t;
    FirstAtOfGrammar(l, d, t);
    LastDotOfGrammar(l + "@" + d, t);
    EmailPieces(l, d, t);
    var at, dot := |l|, |l| + 1 + |d|;
    assert IsLocalPart(s[..at]) && IsDomainPart(s[at + 1..dot]) && IsTld(s[dot + 1..]);
  }

  /** Everything in the grammar is accepted by the recogniser. */
  lemma MatchesEmailComplete(s: string)
    requires EmailGrammar(s)
    ensures MatchesEmail(s)
  {
    var l, d, t :| IsLocalPart(l) && IsDomainPart(d) && IsTld(t) && s == l + "@" + d + "." + t;
    MatchesAssembledEmail(l, d, t);
  }

  /** The recogniser accepts exactly the strings of the grammar. */
  lemma MatchesEmailIff(s: string)
    ensures MatchesEmail(s) <==> EmailGrammar(s)
  {
    if MatchesEmail(s) {
      MatchesEmailSound(s);
    }
    if EmailGrammar(s) {
      MatchesEmailComplete(s);
    }
  }

  /** `isValidEmail`: `false` for `null`, otherwise a full match of the pattern. */
  function IsValidEmail(email: NullableString): (r: bool)
    ensures r <==> email.Some? && EmailGrammar(email.value)
  {
    if email.None? then false
    else
      MatchesEmailIff(email.value);
      MatchesEmail(email.value)
  }

  /** A valid address holds exactly one `@`. */
  lemma ValidEmailHasOneAt(s: string)
    requires MatchesEmail(s)
    ensures exists at :: 0 < at < |s| && s[at] == '@' && '@' !in s[..at] && '@' !in s[at + 1..]
  {
    var at := FirstIndexOf(s, '@').value;
    var dot := LastIndexOf(s, '.').value;
    var d, t := s[at + 1..dot], s[dot + 1..];
    assert forall i :: 0 <= i < |d| ==> d[i] != '@';
    assert forall i :: 0 <= i < |t| ==> t[i] != '@';
    assert s[at + 1..] == d + "." + t;
  }

  // ===================================================================
  // Name: ^[\p{L} .'-]{2,50}$
  // ===================================================================

  predicate IsNameChar(c: char) {
    IsLetter(c) || c == ' ' || c == '.' || c == '\'' || c == '-'
  }

  /** The declarative rule: 2 to 50 characters, each a letter, space, `.`, `'` or `-`. */
  predicate NameGrammar(s: string) {
    2 <= |s| <= 50 && forall i :: 0 <= i < |s| ==> IsNameChar(s[i])
  }

  /** Left-to-right scan of the character class. */
  function ScanNameChars(s: string): (r: bool)
    ensures r <==> forall i :: 0 <= i < |s| ==> IsNameChar(s[i])
  {
    if |s| == 0 then true
    else if !IsNameChar(s[0]) then false
    else
      assert forall i :: 1 <= i < |s| ==> s[i] == s[1..][i - 1];
      ScanNameChars(s[1..])
  }

  /** `isValidName`: `false` for `null`, otherwise a full match of the pattern. */
  function IsValidName(name: NullableString): (r: bool)
    ensures r <==> name.Some? && NameGrammar(name.value)
  {
    name.Some? && 2 <= |name.value| <= 50 && ScanNameChars(name.value)
  }

  /** Names the rule turns away: `null`, a single letter, and a name holding
      a character outside the class. */
  lemma NameRejections()
    ensures !IsValidName(None)
    ensures !IsValidName(Some("J"))
    ensures !IsValidName(Some("Invalid@Name"))
  {
    var n := "Invalid@Name";
    assert !NameGrammar(n) by {
      assert n[7] == '@';
      assert !IsNameChar('@');
    }
  }

  // ===================================================================
  // Phone: normalise with [\s\-()] -> "", then ^\+?[0-9]{7,15}$
  // ===================================================================

  /** The class `[\s\-()]`, where `\s` is `[ \t\n\x0B\f\r]`. */
  predicate IsPhoneSeparator(c: char) {
    c == ' ' || c == '\t' || c == '\n' || c == '\U{0B}' || c == '\U{0C}' || c == '\r'
    || c == '-' || c == '(' || c == ')'
  }

  /** `replaceAll("[\\s\\-()]", "")` */
  function StripSeparators(s: string): (r: string)
    ensures |r| <= |s|
    ensures forall i :: 0 <= i < |r| ==> !IsPhoneSeparator(r[i])
  {
    if |s| == 0 then []
    else (if IsPhoneSeparator(s[0]) then [] else [s[0]]) + StripSeparators(s[1..])
  }

  /** Stripping deletes separators only: every other character occurs as
      often as before. */
  lemma {:induction false} StripKeepsOthers(s: string, c: char)
    requires !IsPhoneSeparator(c)
    ensures multiset(StripSeparators(s))[c] == multiset(s)[c]
  {
    if |s| > 0 {
      StripKeepsOthers(s[1..], c);
      assert s == [s[0]] + s[1..];
    }
  }

  /** `normalizePhone`: `null` stays `null`; otherwise every separator is
      deleted and every other character is kept. */
  function NormalizePhone(phone: NullableString): (r: NullableString)
    ensures r.None? <==> phone.None?
    ensures r.Some? ==> forall i :: 0 <= i < |r.value| ==> !IsPhoneSeparator(r.value[i])
    ensures r.Some? ==> |r.value| <= |phone.value|
  {
    match phone
    case None => None
    case Some(p) => Some(StripSeparators(p))
  }

  /** Stripping works character by character and keeps the order: it
      distributes over concatenation. */
  lemma {:induction false} StripConcat(a: string, b: string)
    ensures StripSeparators(a + b) == StripSeparators(a) + StripSeparators(b)
  {
    if |a| == 0 {
      assert a + b == b;
    } else {
      var head := if IsPhoneSeparator(a[0]) then [] else [a[0]];
      assert (a + b)[0] == a[0];
      assert (a + b)[1..] == a[1..] + b;
      calc {
        StripSeparators(a + b);
        head + StripSeparators(a[1..] + b);
        { StripConcat(a[1..], b); }
        head + (StripSeparators(a[1..]) + StripSeparators(b));
        (head + StripSeparators(a[1..])) + StripSeparators(b);
        StripSeparators(a) + StripSeparators(b);
      }
    }
  }

  /** A string without separators is left as it is. */
  lemma {:induction false} StripNoSeparators(s: string)
    requires forall i :: 0 <= i < |s| ==> !IsPhoneSeparator(s[i])
    ensures StripSeparators(s) == s
  {
    if |s| > 0 {
      StripNoSeparators(s[1..]);
    }
  }

  /** `normalizePhone` is idempotent. */
  lemma NormalizePhoneIdempotent(phone: NullableString)
    ensures NormalizePhone(NormalizePhone(phone)) == NormalizePhone(phone)
  {
    if phone.Some? {
      StripNoSeparators(StripSeparators(phone.value));
    }
  }

  /** `^\+?[0-9]{7,15}$` */
  predicate MatchesPhone(s: string) {
    var digits := if |s| > 0 && s[0] == '+' then s[1..] else s;
    7 <= |digits| <= 15 && AllDigits(digits)
  }

  /** `isValidPhone`: `false` for `null`, otherwise the normalised number is
      an optional `+` followed by 7 to 15 digits. */
  function IsValidPhone(phone: NullableString): (r: bool)
    ensures r <==> phone.Some? && MatchesPhone(NormalizePhone(phone).value)
    ensures r ==> 7 <= |NormalizePhone(phone).value| <= 16
  {
    phone.Some? && MatchesPhone(StripSeparators(phone.value))
  }

  /** A number in the canonical form is valid and its own normalisation. */
  lemma MatchesPhoneIsNormal(s: string)
    requires MatchesPhone(s)
    ensures NormalizePhone(Some(s)) == Some(s)
    ensures IsValidPhone(Some(s))
  {
    assert forall i :: 0 <= i < |s| ==> s[i] == '+' || IsAsciiDigit(s[i]) by {
      if |s| > 0 && s[0] == '+' {
        assert forall i :: 1 <= i < |s| ==> s[i] == s[1..][i - 1];
      }
    }
    StripNoSeparators(s);
  }

  // ===================================================================
  // E-mail normalisation: trim(), then toLowerCase()
  // ===================================================================

  /** `normalizeEmail`: `null` stays `null`; otherwise trimmed, then lower-cased. */
  function NormalizeEmail(email: NullableString): (r: NullableString)
    ensures r.None? <==> email.None?
    ensures r.Some? ==> forall i :: 0 <= i < |r.value| ==> !IsAsciiUpper(r.value[i])
    ensures r.Some? ==> |r.value| > 0 ==> r.value[0] > ' ' && r.value[|r.value| - 1] > ' '
    ensures r.Some? ==> exists i, j :: TrimmedTo(email.value, i, j) && r.value == ToLowerString(email.value[i..j])
  {
    match email
    case None => None
    case Some(e) =>
      ToLowerStringProperties(Trim(e));
      Some(ToLowerString(Trim(e)))
  }

  /** `normalizeEmail` is idempotent. */
  lemma NormalizeEmailIdempotent(email: NullableString)
    ensures NormalizeEmail(NormalizeEmail(email)) == NormalizeEmail(email)
  {
    if email.Some? {
      var n := NormalizeEmail(email).value;
      if |n| > 0 {
        TrimNoop(n);
      } else {
        assert Trim(n) == n;
      }
      ToLowerStringProperties(Trim(email.value));
    }
  }

  /** Lower-casing keeps every character in its class. */
  lemma LowerKeepsParts(l: string, d: string, t: string)
    requires IsLocalPart(l) && IsDomainPart(d) && IsTld(t)
    ensures IsLocalPart(ToLowerString(l)) && IsDomainPart(ToLowerString(d)) && IsTld(ToLowerString(t))
  {
  }

  /** Lower-casing an address lower-cases its pieces and keeps `@` and `.`. */
  lemma LowerAssembled(l: string, d: string, t: string)
    ensures ToLowerString(l + "@" + d + "." + t)
         == ToLowerString(l) + "@" + ToLowerString(d) + "." + ToLowerString(t)
  {
    ToLowerConcat(l + "@" + d + ".", t);
    ToLowerConcat(l + "@" + d, ".");
    ToLowerConcat(l + "@", d);
    ToLowerConcat(l, "@");
    assert ToLowerString("@") == "@" && ToLowerString(".") == ".";
  }

  /** A valid address survives normalisation: the trim removes nothing and
      the lower-cased address is still valid. */
  lemma NormalizeValidEmail(s: string)
    requires IsValidEmail(Some(s))
    ensures Trim(s) == s
    ensures NormalizeEmail(Some(s)) == Some(ToLowerString(s))
    ensures IsValidEmail(Some(ToLowerString(s)))
  {
    assert EmailGrammar(s);
    NormalizeGrammarEmail(s);
    GrammarIsValid(ToLowerString(s));
  }

  /** The contract of `isValidEmail`, read backwards. */
  lemma GrammarIsValid(s: string)
    requires EmailGrammar(s)
    ensures IsValidEmail(Some(s))
  {
  }

  lemma NormalizeGrammarEmail(s: string)
    requires EmailGrammar(s)
    ensures Trim(s) == s && EmailGrammar(ToLowerString(s))
  {
    var l, d, t :| IsLocalPart(l) && IsDomainPart(d) && IsTld(t) && s == l + "@" + d + "." + t;
    ValidEmailTrimmed(l, d, t);
    LowerValidEmail(l, d, t);
  }

  /** Lower-casing an address built from the grammar's pieces gives another. */
  lemma LowerValidEmail(l: string, d: string, t: string)
    requires IsLocalPart(l) && IsDomainPart(d) && IsTld(t)
    ensures EmailGrammar(ToLowerString(l + "@" + d + "." + t))
  {
    LowerKeepsParts(l, d, t);
    LowerAssembled(l, d, t);
    var ll, ld, lt := ToLowerString(l), ToLowerString(d), ToLowerString(t);
    assert ToLowerString(l + "@" + d + "." + t) == ll + "@" + ld + "." + lt;
  }

  /** An address built from the grammar's pieces has nothing to trim: it
      starts with a local-part character and ends with a letter. */
  lemma ValidEmailTrimmed(l: string, d: string, t: string)
    requires IsLocalPart(l) && IsDomainPart(d) && IsTld(t)
    ensures Trim(l + "@" + d + "." + t) == l + "@" + d + "." + t
  {
    var s := l + "@" + d + "." + t;
    EmailPieces(l, d, t);
    assert s[0] == l[0] && s[|s| - 1] == t[|t| - 1];
    TrimNoop(s);
  }

  // ===================================================================
  // Date of birth: ISO 8601 extended calendar date YYYY-MM-DD
  // ===================================================================

  /** `java.time.LocalDate` in the proleptic Gregorian calendar. */
  datatype LocalDate = LocalDate(year: int, month: int, day: int)

  predicate IsLeapYear(year: int) {
    year % 4 == 0 && (year % 100 != 0 || year % 400 == 0)
  }

  function LengthOfMonth(year: int, month: int): (n: int)
    requires 1 <= month <= 12
    ensures 28 <= n <= 31
  {
    if month == 2 then (if IsLeapYear(year) then 29 else 28)
    else if month == 4 || month == 6 || month == 9 || month == 11 then 30
    else 31
  }

  /** A date that exists in the calendar (the strict resolver's check). */
  predicate IsValidDate(d: LocalDate) {
    1 <= d.month <= 12 && 1 <= d.day <= LengthOfMonth(d.year, d.month)
  }

  /** A date whose year prints as exactly four unsigned digits. */
  predicate IsFourDigitDate(d: LocalDate) {
    IsValidDate(d) && 0 <= d.year <= 9999
  }

  function Pow10(n: nat): (p: nat)
    ensures p >= 1
  {
    if n == 0 then 1 else 10 * Pow10(n - 1)
  }

  function DigitValue(c: char): (n: nat)
    requires IsAsciiDigit(c)
    ensures n < 10
  {
    c as int - '0' as int
  }

  function DigitChar(n: nat): (c: char)
    requires n < 10
    ensures IsAsciiDigit(c) && DigitValue(c) == n
  {
    ('0' as int + n) as char
  }

  /** The number a digit string denotes. */
  function DecimalValue(ds: string): (n: nat)
    requires AllDigits(ds)
    ensures n < Pow10(|ds|)
  {
    if |ds| == 0 then 0
    else DecimalValue(ds[..|ds| - 1]) * 10 + DigitValue(ds[|ds| - 1])
  }

  /** `n` printed in `width` digits, with leading zeros. */
  function PadDigits(n: nat, width: nat): (ds: string)
    ensures |ds| == width && AllDigits(ds)
  {
    if width == 0 then [] else PadDigits(n / 10, width - 1) + [DigitChar(n % 10)]
  }

  lemma {:induction false} DecimalOfPadDigits(n: nat, width: nat)
    requires n < Pow10(width)
    ensures DecimalValue(PadDigits(n, width)) == n
  {
    if width > 0 {
      var ds := PadDigits(n, width);
      assert ds[..width - 1] == PadDigits(n / 10, width - 1);
      DecimalOfPadDigits(n / 10, width - 1);
    }
  }

  lemma {:induction false} PadDigitsOfDecimal(ds: string)
    requires AllDigits(ds)
    ensures PadDigits(DecimalValue(ds), |ds|) == ds
  {
    if |ds| > 0 {
      var init := ds[..|ds| - 1];
      var n := DecimalValue(ds);
      assert n / 10 == DecimalValue(init) && n % 10 == DigitValue(ds[|ds| - 1]);
      PadDigitsOfDecimal(init);
      assert ds == init + [ds[|ds| - 1]];
    }
  }

  /** `LocalDate.toString` for a four-digit year: `YYYY-MM-DD`. */
  function FormatIsoDate(d: LocalDate): (s: string)
    requires IsFourDigitDate(d)
    ensures |s| == 10
  {
    PadDigits(d.year, 4) + "-" + PadDigits(d.month, 2) + "-" + PadDigits(d.day, 2)
  }

  /** `parseDob` with `ISO_LOCAL_DATE`: four digits, `-`, two digits, `-`, two
      digits, naming a date that exists; anything else gives an empty result
      instead of an exception. A parsed string is always the canonical
      spelling of the date it names. */
  function ParseDob(s: string): (r: Option<LocalDate>)
    ensures r.Some? ==> IsFourDigitDate(r.value) && FormatIsoDate(r.value) == s
  {
    if |s| == 10 && s[4] == '-' && s[7] == '-'
       && AllDigits(s[..4]) && AllDigits(s[5..7]) && AllDigits(s[8..])
    then
      var d := LocalDate(DecimalValue(s[..4]), DecimalValue(s[5..7]), DecimalValue(s[8..]));
      if IsValidDate(d) then
        IsoDigitGroups(s);
        Some(d)
      else None
    else None
  }

  /** The three digit groups of a `YYYY-MM-DD` string print back as the string. */
  lemma IsoDigitGroups(s: string)
    requires |s| == 10 && s[4] == '-' && s[7] == '-'
    requires AllDigits(s[..4]) && AllDigits(s[5..7]) && AllDigits(s[8..])
    ensures DecimalValue(s[..4]) <= 9999
    ensures s == PadDigits(DecimalValue(s[..4]), 4) + "-" + PadDigits(DecimalValue(s[5..7]), 2)
                 + "-" + PadDigits(DecimalValue(s[8..]), 2)
  {
    assert Pow10(4) == 10000;
    PadDigitsOfDecimal(s[..4]);
    PadDigitsOfDecimal(s[5..7]);
    PadDigitsOfDecimal(s[8..]);
    assert s == s[..4] + "-" + s[5..7] + "-" + s[8..];
  }

  /** Every date with a four-digit year parses back from its canonical spelling. */
  lemma ParseFormatRoundTrip(d: LocalDate)
    requires IsFourDigitDate(d)
    ensures ParseDob(FormatIsoDate(d)) == Some(d)
  {
    var s := FormatIsoDate(d);
    assert s[..4] == PadDigits(d.year, 4);
    assert s[5..7] == PadDigits(d.month, 2);
    assert s[8..] == PadDigits(d.day, 2);
    DecimalOfPadDigits(d.year, 4);
    DecimalOfPadDigits(d.month, 2);
    DecimalOfPadDigits(d.day, 2);
  }
}
