/** The field validators and the record validator of the extraction core. */
module Validator {
  import opened Wrappers
  import opened Text
  import opened Record

  // ---------------------------------------------------------------------
  // Digit filtering and zero padding

  /** `re.sub(r"\D", "", s)`: the digits of `s`. */
  function OnlyDigits(s: string): (r: string)
    ensures AllDigits(r)
    ensures |r| <= |s|
    ensures forall c :: c in r <==> c in s && IsDigit(c)
  {
    if s == [] then []
    else (if IsDigit(s[0]) then [s[0]] else []) + OnlyDigits(s[1..])
  }

  /** Filtering distributes over concatenation: the digits come out in the
      order they stand in the input. */
  lemma {:induction false} OnlyDigitsAppend(a: string, b: string)
    ensures OnlyDigits(a + b) == OnlyDigits(a) + OnlyDigits(b)
  {
    if a != [] {
      assert (a + b)[1..] == a[1..] + b;
      OnlyDigitsAppend(a[1..], b);
    } else {
      assert a + b == b;
    }
  }

  /** A string of digits is its own digit filter. */
  lemma {:induction false} OnlyDigitsOfDigits(s: string)
    requires AllDigits(s)
    ensures OnlyDigits(s) == s
  {
    if s != [] {
      OnlyDigitsOfDigits(s[1..]);
    }
  }

  lemma OnlyDigitsIdempotent(s: string)
    ensures OnlyDigits(OnlyDigits(s)) == OnlyDigits(s)
  {
    OnlyDigitsOfDigits(OnlyDigits(s));
  }

  function Zeros(n: nat): (r: string)
    ensures |r| == n && forall i :: 0 <= i < n ==> r[i] == '0'
  {
    seq(n, _ => '0')
  }

  /** `s.zfill(width)`: left-pad with zeros up to `width`, keeping a leading
      sign in front. */
  function ZFill(s: string, width: nat): (r: string)
    ensures |s| >= width ==> r == s
    ensures |s| < width ==> |r| == width
    ensures AllDigits(s) ==> r == Zeros(|r| - |s|) + s
  {
    if |s| >= width then s
    else if |s| > 0 && (s[0] == '+' || s[0] == '-') then s[0..1] + Zeros(width - |s|) + s[1..]
    else Zeros(width - |s|) + s
  }

  // ---------------------------------------------------------------------
  // Israeli ID number

  /** Weight of the digit at 0-based position `i` from the left. */
  function Factor(i: nat): nat {
    if i % 2 == 0 then 1 else 2
  }

  /** A two-digit product is reduced by subtracting 9. */
  function Fold(p: nat): nat {
    if p > 9 then p - 9 else p
  }

  /** The weighted sum over the first `n` digits. */
  function IdSum(digits: string, n: nat): nat
    requires AllDigits(digits) && n <= |digits|
  {
    if n == 0 then 0
    else IdSum(digits, n - 1) + Fold(DigitValue(digits[n - 1]) * Factor(n - 1))
  }

  function PaddedId(num: string): (r: string)
    ensures AllDigits(r)
    ensures |OnlyDigits(num)| <= 9 <==> |r| == 9
  {
    ZFill(OnlyDigits(num), 9)
  }

  /** The checksum rule: pad the digits to nine, and accept when the
      weighted sum is a multiple of ten. */
  predicate IsValidId(num: string) {
    var padded := PaddedId(num);
    |padded| == 9 && IdSum(padded, 9) % 10 == 0
  }

  method ValidId(num: string) returns (ok: bool)
    ensures ok == IsValidId(num)
    ensures |OnlyDigits(num)| > 9 ==> !ok
  {
    var padded := PaddedId(num);
    if |padded| != 9 {
      return false;
    }
    var total := WeightedSum(padded);
    ok := total % 10 == 0;
  }

  /** The accumulation loop of the ID check. */
  method WeightedSum(digits: string) returns (total: nat)
    requires AllDigits(digits)
    ensures total == IdSum(digits, |digits|)
  {
    total := 0;
    for i := 0 to |digits|
      invariant total == IdSum(digits, i)
    {
      var factor := if i % 2 == 0 then 1 else 2;
      var product := DigitValue(digits[i]) * factor;
      if product > 9 {
        product := product - 9;
      }
      total := total + product;
    }
  }

  /** The sum of the decimal digits of `p`. */
  function DigitSum(p: nat): nat {
    if p < 10 then p else p % 10 + DigitSum(p / 10)
  }

  /** The Luhn sum of ISO/IEC 7812-1: counting from the rightmost digit,
      every second digit is doubled and the digits of the products are
      added. */
  function LuhnSum(s: string): nat
    requires AllDigits(s)
  {
    if s == [] then 0
    else DigitSum(DigitValue(s[0]) * (if (|s| - 1) % 2 == 1 then 2 else 1)) + LuhnSum(s[1..])
  }

  predicate LuhnValid(s: string) {
    AllDigits(s) && LuhnSum(s) % 10 == 0
  }

  lemma FoldIsDigitSum(p: nat)
    requires p <= 18
    ensures Fold(p) == DigitSum(p)
  {
  }

  lemma {:induction false} IdSumIsLuhnSum(s: string, n: nat)
    requires AllDigits(s) && |s| % 2 == 1 && n <= |s|
    ensures IdSum(s, n) + LuhnSum(s[n..]) == LuhnSum(s)
  {
    if n == 0 {
      assert s[0..] == s;
    } else {
      IdSumIsLuhnSum(s, n - 1);
      var t := s[n - 1..];
      assert t[0] == s[n - 1] && t[1..] == s[n..] && |t| - 1 == |s| - n;
      var w := if (|t| - 1) % 2 == 1 then 2 else 1;
      assert w == Factor(n - 1) by { SameParity(|s|, n); }
      var p := DigitValue(s[n - 1]) * w;
      assert p <= 18;
      assert LuhnSum(t) == DigitSum(p) + LuhnSum(s[n..]);
      FoldIsDigitSum(p);
    }
  }

  /** In a string of odd length a position and its distance from the end
      have the same parity. */
  lemma SameParity(len: nat, n: nat)
    requires len % 2 == 1 && 0 < n <= len
    ensures (len - n) % 2 == (n - 1) % 2
  {
  }

  /** The ID rule is the Luhn check digit rule on the nine padded digits. */
  lemma ValidIdIsLuhn(num: string)
    ensures IsValidId(num) <==> |OnlyDigits(num)| <= 9 && LuhnValid(PaddedId(num))
  {
    var padded := PaddedId(num);
    if |padded| == 9 {
      IdSumIsLuhnSum(padded, 9);
      assert padded[9..] == [];
      assert IdSum(padded, 9) == LuhnSum(padded);
    }
  }

  /** Only the digits of an ID take part in the check. */
  lemma ValidIdIgnoresNonDigits(num: string)
    ensures IsValidId(num) == IsValidId(OnlyDigits(num))
  {
    OnlyDigitsIdempotent(num);
  }

  /** The empty ID pads to nine zeros and passes, so an empty ID is
      reported only as a missing value. */
  lemma EmptyIdIsValid()
    ensures IsValidId("")
  {
    assert PaddedId("") == "000000000";
  }

  /** An invalid ID always holds a digit. */
  lemma InvalidIdHasDigit(num: string)
    requires !IsValidId(num)
    ensures OnlyDigits(num) != ""
  {
    if OnlyDigits(num) == "" {
      var padded := PaddedId(num);
      assert padded == Zeros(9);
      IdSumOfZeros(9, 9);
    }
  }

  lemma {:induction false} IdSumOfZeros(k: nat, n: nat)
    requires n <= k
    ensures IdSum(Zeros(k), n) == 0
  {
    if n > 0 {
      IdSumOfZeros(k, n - 1);
    }
  }

  /** A nine-digit string is its own padded form. */
  lemma PaddedNineDigits(s: string)
    requires AllDigits(s) && |s| == 9
    ensures PaddedId(s) == s
    ensures IsValidId(s) <==> IdSum(s, 9) % 10 == 0
  {
    OnlyDigitsOfDigits(s);
  }

  lemma ValidIdExample(s: string)
    requires s == "000000018"
    ensures IsValidId(s)
  {
    assert AllDigits(s);
    PaddedNineDigits(s);
    ValidIdExampleSum(s);
  }

  lemma ValidIdExampleSum(s: string)
    requires s == "000000018"
    ensures IdSum(s, 9) == 10
  {
    assert IdSum(s, 7) == 0 by {
      assert IdSum(s, 1) == 0;
      assert IdSum(s, 2) == 0;
      assert IdSum(s, 3) == 0;
      assert IdSum(s, 4) == 0;
      assert IdSum(s, 5) == 0;
      assert IdSum(s, 6) == 0;
    }
    assert IdSum(s, 8) == 2;
  }

  lemma InvalidIdExample(s: string)
    requires s == "123456789"
    ensures !IsValidId(s)
  {
    InvalidIdExampleRule(s);
    InvalidIdExampleSum(s);
  }

  lemma InvalidIdExampleRule(s: string)
    requires s == "123456789"
    ensures IsValidId(s) <==> IdSum(s, 9) % 10 == 0
  {
    assert AllDigits(s);
    PaddedNineDigits(s);
  }

  lemma InvalidIdExampleSum(s: string)
    requires s == "123456789"
    ensures IdSum(s, 9) == 47
  {
    assert IdSum(s, 5) == 21 by {
      assert IdSum(s, 1) == 1;
      assert IdSum(s, 2) == 5;
      assert IdSum(s, 3) == 8;
      assert IdSum(s, 4) == 16;
    }
    assert IdSum(s, 6) == 24;
    assert IdSum(s, 7) == 31;
    assert IdSum(s, 8) == 38;
  }

  // ---------------------------------------------------------------------
  // Dates: the grammar of `strptime(..., "%d/%m/%Y")` and the calendar

  /** The number a string of decimal digits denotes. */
  function DecimalValue(s: string): nat
    requires AllDigits(s)
  {
    if s == [] then 0 else DecimalValue(s[..|s| - 1]) * 10 + DigitValue(s[|s| - 1])
  }

  /** `%d`: one digit 1-9, a space and a digit 1-9, or two digits 01-31. */
  function ParseDay(s: string): (r: Option<nat>)
    ensures r.Some? ==> 1 <= r.value <= 31
  {
    if |s| == 1 && '1' <= s[0] <= '9' then Some(DigitValue(s[0]))
    else if |s| == 2 && s[0] == ' ' && '1' <= s[1] <= '9' then Some(DigitValue(s[1]))
    else if |s| == 2 && AllDigits(s) && 1 <= DecimalValue(s) <= 31 then Some(DecimalValue(s))
    else None
  }

  /** `%m`: one digit 1-9, or two digits 01-12. */
  function ParseMonth(s: string): (r: Option<nat>)
    ensures r.Some? ==> 1 <= r.value <= 12
  {
    if |s| == 1 && '1' <= s[0] <= '9' then Some(DigitValue(s[0]))
    else if |s| == 2 && AllDigits(s) && 1 <= DecimalValue(s) <= 12 then Some(DecimalValue(s))
    else None
  }

  /** `%Y`: exactly four digits. */
  function ParseYear(s: string): (r: Option<nat>)
    ensures r.Some? ==> r.value <= 9999
  {
    if |s| == 4 && AllDigits(s) then
      assert DecimalValue(s) <= 9999 by { DecimalValueBound(s); }
      Some(DecimalValue(s))
    else None
  }

  lemma {:induction false} DecimalValueBound(s: string)
    requires AllDigits(s)
    ensures DecimalValue(s) < Power10(|s|)
  {
    if s != [] {
      DecimalValueBound(s[..|s| - 1]);
    }
  }

  function Power10(n: nat): nat {
    if n == 0 then 1 else 10 * Power10(n - 1)
  }

  predicate IsLeapYear(y: nat) {
    y % 4 == 0 && (y % 100 != 0 || y % 400 == 0)
  }

  function DaysInMonth(y: nat, m: nat): nat
    requires 1 <= m <= 12
  {
    if m == 2 then (if IsLeapYear(y) then 29 else 28)
    else if m == 4 || m == 6 || m == 9 || m == 11 then 30
    else 31
  }

  /** The text "day/month/year" parses with `%d/%m/%Y` and names a real
      date: years before 1 are out of `datetime`'s range. Since each part is
      non-empty and the format has exactly two slashes, the parts are parsed
      one by one. */
  predicate IsCalendarDate(day: string, month: string, year: string) {
    match (ParseDay(day), ParseMonth(month), ParseYear(year))
    case (Some(d), Some(m), Some(y)) => 1 <= y && d <= DaysInMonth(y, m)
    case _ => false
  }

  /** The non-empty string stored under `key` of a date group. A missing or
      empty part fails the `all(...)` test; a dictionary part is formatted as
      "{...}", which never parses; `.get` on a string raises, and the
      exception is caught. */
  function DatePart(d: Value, key: string): (r: Option<string>)
    ensures r.Some? ==> r.value != ""
  {
    if d.Obj? && key in d.fields && d.fields[key].Str? && d.fields[key].s != "" then Some(d.fields[key].s)
    else None
  }

  predicate ValidDate(d: Value) {
    match (DatePart(d, "day"), DatePart(d, "month"), DatePart(d, "year"))
    case (Some(ds), Some(ms), Some(ys)) => IsCalendarDate(ds, ms, ys)
    case _ => false
  }

  function DateValue(day: string, month: string, year: string): Value {
    Obj(map["day" := Str(day), "month" := Str(month), "year" := Str(year)])
  }

  /** A date with an empty or absent day, month or year is invalid. */
  lemma ValidDateNeedsAllParts(d: Value)
    requires ValidDate(d)
    ensures d.Obj?
    ensures DatePart(d, "day").Some? && DatePart(d, "month").Some? && DatePart(d, "year").Some?
  {
  }

  function DigitChar(n: nat): (c: char)
    requires n <= 9
    ensures IsDigit(c) && DigitValue(c) == n
  {
    ('0' as int + n) as char
  }

  /** `n` written with exactly `width` digits, zero-padded. */
  function Padded(n: nat, width: nat): (r: string)
    requires n < Power10(width)
    ensures |r| == width && AllDigits(r)
    ensures DecimalValue(r) == n
  {
    if width == 0 then ""
    else
      DropLastDigit(n, Power10(width - 1));
      var front := Padded(n / 10, width - 1);
      var r := front + [DigitChar(n % 10)];
      assert r[..|r| - 1] == front;
      r
  }

  lemma DropLastDigit(n: nat, p: nat)
    requires n < 10 * p
    ensures n / 10 < p && n == n / 10 * 10 + n % 10
  {
  }

  /** Every date written dd/mm/yyyy with zero padding is accepted exactly
      when it is a real Gregorian date from year 1 on. */
  lemma PaddedDateAccepted(d: nat, m: nat, y: nat)
    requires d < 100 && m < 100 && y < 10000
    ensures ValidDate(DateValue(Padded(d, 2), Padded(m, 2), Padded(y, 4)))
        <==> 1 <= m <= 12 && 1 <= y && 1 <= d <= DaysInMonth(y, m)
  {
    var ds, ms, ys := Padded(d, 2), Padded(m, 2), Padded(y, 4);
    var v := DateValue(ds, ms, ys);
    assert DatePart(v, "day") == Some(ds);
    assert DatePart(v, "month") == Some(ms);
    assert DatePart(v, "year") == Some(ys);
    PaddedDay(d);
    PaddedMonth(m);
    assert ParseYear(ys) == Some(y);
  }

  lemma PaddedDay(d: nat)
    requires d < 100
    ensures ParseDay(Padded(d, 2)) == if 1 <= d <= 31 then Some(d) else None
  {
    assert IsDigit(Padded(d, 2)[0]);
  }

  lemma PaddedMonth(m: nat)
    requires m < 100
    ensures ParseMonth(Padded(m, 2)) == if 1 <= m <= 12 then Some(m) else None
  {
    assert IsDigit(Padded(m, 2)[0]);
  }

  /** A one-digit day or month, and a day written with a leading space, are
      accepted too. */
  lemma ShortFormsAccepted(d: nat, m: nat, y: nat)
    requires 1 <= d <= 9 && 1 <= m <= 9 && 1 <= y < 10000
    ensures ValidDate(DateValue([DigitChar(d)], [DigitChar(m)], Padded(y, 4)))
    ensures ValidDate(DateValue([' ', DigitChar(d)], [DigitChar(m)], Padded(y, 4)))
    ensures !ValidDate(DateValue([DigitChar(d)], [' ', DigitChar(m)], Padded(y, 4)))
  {
    var ys := Padded(y, 4);
    var v1 := DateValue([DigitChar(d)], [DigitChar(m)], ys);
    var v2 := DateValue([' ', DigitChar(d)], [DigitChar(m)], ys);
    var v3 := DateValue([DigitChar(d)], [' ', DigitChar(m)], ys);
    assert DatePart(v1, "day") == Some([DigitChar(d)]);
    assert DatePart(v1, "month") == Some([DigitChar(m)]);
    assert DatePart(v1, "year") == Some(ys);
    assert DatePart(v2, "day") == Some([' ', DigitChar(d)]);
    assert DatePart(v2, "month") == Some([DigitChar(m)]);
    assert DatePart(v2, "year") == Some(ys);
    assert DatePart(v3, "month") == Some([' ', DigitChar(m)]);
    var spaced := [' ', DigitChar(m)];
    assert !AllDigits(spaced) by { assert !IsDigit(spaced[0]); }
    assert ParseMonth(spaced) == None;
  }

  // ---------------------------------------------------------------------
  // Phone numbers: the fixed-width patterns of `re.fullmatch`

  /** One position of a fixed-width pattern: a literal or a character range. */
  datatype CharClass = Literal(c: char) | Range(lo: char, hi: char)

  predicate Matches(cc: CharClass, c: char) {
    match cc
    case Literal(x) => c == x
    case Range(lo, hi) => lo <= c <= hi
  }

  const Digit: CharClass := Range('0', '9')

  /** `re.fullmatch` of a pattern without repetition ranges. */
  predicate FullMatch(pattern: seq<CharClass>, s: string) {
    |s| == |pattern| && forall i :: 0 <= i < |s| ==> Matches(pattern[i], s[i])
  }

  /** `05\d{8}` */
  const MobilePattern: seq<CharClass> := [Literal('0'), Literal('5'), Digit, Digit, Digit, Digit, Digit, Digit, Digit, Digit]

  /** `0[2-9]\d{7}` */
  const LandlinePattern: seq<CharClass> := [Literal('0'), Range('2', '9'), Digit, Digit, Digit, Digit, Digit, Digit, Digit]

  predicate ValidMobile(phone: string) {
    FullMatch(MobilePattern, phone)
  }

  predicate ValidLandline(phone: string) {
    FullMatch(LandlinePattern, phone)
  }

  lemma ValidMobileShape(phone: string)
    ensures ValidMobile(phone) <==> |phone| == 10 && StartsWith(phone, "05") && AllDigits(phone[2..])
  {
    if |phone| == 10 && StartsWith(phone, "05") && AllDigits(phone[2..]) {
      forall i | 0 <= i < 10 ensures Matches(MobilePattern[i], phone[i]) {
        if i >= 2 {
          assert phone[2..][i - 2] == phone[i];
        } else {
          assert phone[..2][i] == phone[i];
        }
      }
    }
    if ValidMobile(phone) {
      assert phone[..2] == "05" by {
        assert Matches(MobilePattern[0], phone[0]) && Matches(MobilePattern[1], phone[1]);
      }
      forall i | 0 <= i < 8 ensures IsDigit(phone[2..][i]) {
        assert Matches(MobilePattern[i + 2], phone[i + 2]);
      }
    }
  }

  lemma ValidLandlineShape(phone: string)
    ensures ValidLandline(phone) <==>
      |phone| == 9 && phone[0] == '0' && '2' <= phone[1] <= '9' && AllDigits(phone[2..])
  {
    if |phone| == 9 && phone[0] == '0' && '2' <= phone[1] <= '9' && AllDigits(phone[2..]) {
      forall i | 0 <= i < 9 ensures Matches(LandlinePattern[i], phone[i]) {
        if i >= 2 {
          assert phone[2..][i - 2] == phone[i];
        }
      }
    }
    if ValidLandline(phone) {
      assert Matches(LandlinePattern[0], phone[0]) && Matches(LandlinePattern[1], phone[1]);
      forall i | 0 <= i < 7 ensures IsDigit(phone[2..][i]) {
        assert Matches(LandlinePattern[i + 2], phone[i + 2]);
      }
    }
  }

  /** No number is both a valid mobile and a valid landline, and both are
      strings of digits. */
  lemma PhoneFormatsDisjoint(phone: string)
    ensures !(ValidMobile(phone) && ValidLandline(phone))
    ensures ValidMobile(phone) || ValidLandline(phone) ==> AllDigits(phone)
  {
    if ValidMobile(phone) || ValidLandline(phone) {
      forall i | 0 <= i < |phone| ensures IsDigit(phone[i]) {
        if ValidMobile(phone) {
          assert Matches(MobilePattern[i], phone[i]);
        } else {
          assert Matches(LandlinePattern[i], phone[i]);
        }
      }
    }
  }

  // ---------------------------------------------------------------------
  // The record validator

  /** A validation report maps a field path to its error message (the one
      "error" entry of the source's error descriptor). */
  type Report = map<string, string>

  const MissingValue := "Missing value"
  const InvalidIdMessage := "Invalid Israeli ID number"
  const InvalidDateMessage := "Invalid date"
  const InvalidMobileMessage := "Invalid mobile format (05xxxxxxxx)"
  const InvalidLandlineMessage := "Invalid landline format"
  const UnrecognisedGenderMessage := "Unrecognised gender value"

  /** The accepted gender values, in Hebrew and in English. */
  const Genders: set<string> := {"זכר", "נקבה", "Male", "Female"}

  /** The path of `key` inside the group at `path`; top-level keys stand alone. */
  function Dotted(path: string, key: string): string {
    if path == "" then key else path + "." + key
  }

  /** The dotted path of the key sequence `keys` below `path`. */
  function JoinPath(path: string, keys: seq<string>): string
    decreases |keys|
  {
    if keys == [] then path else JoinPath(Dotted(path, keys[0]), keys[1..])
  }

  /** The paths the missing-value walk records for the first `n` entries of
      the group `t`, looked up in `actual`; a lookup in a string raises. */
  function MissingIn(t: Schema, n: nat, actual: Value, path: string): Result<set<string>>
    requires t.Group? && n <= |t.entries|
    decreases t, n
  {
    if n == 0 then Ok({})
    else
      match MissingIn(t, n - 1, actual, path)
      case Raised(e) => Raised(e)
      case Ok(before) =>
        if !actual.Obj? then Raised(AttributeError)
        else
          var e := t.entries[n - 1];
          var full := Dotted(path, e.key);
          match e.node
          case Leaf =>
            Ok(if Get(actual, e.key, Str("")) == Str("") then before + {full} else before)
          case Group(children) =>
            match MissingIn(e.node, |children|, Get(actual, e.key, Obj(map[])), full)
            case Raised(x) => Raised(x)
            case Ok(inner) => Ok(before + inner)
  }

  function MissingPaths(t: Schema, actual: Value, path: string): Result<set<string>>
    requires t.Group?
  {
    MissingIn(t, |t.entries|, actual, path)
  }

  /** `errors` with a "Missing value" entry added at each of `paths`. */
  function MarkMissing(errors: Report, paths: set<string>): Report {
    errors + map p | p in paths :: MissingValue
  }

  function WithMissing(errors: Report, missing: Result<set<string>>): Result<Report> {
    match missing
    case Ok(paths) => Ok(MarkMissing(errors, paths))
    case Raised(e) => Raised(e)
  }

  /** Once the walk has raised, it stays raised. */
  lemma {:induction false} RaisedPersists(t: Schema, i: nat, n: nat, actual: Value, path: string)
    requires t.Group? && i <= n <= |t.entries|
    requires MissingIn(t, i, actual, path).Raised?
    ensures MissingIn(t, n, actual, path) == MissingIn(t, i, actual, path)
    decreases n
  {
    if i < n {
      RaisedPersists(t, i, n - 1, actual, path);
    }
  }

  lemma MarkMissingUnion(errors: Report, a: set<string>, b: set<string>)
    ensures MarkMissing(MarkMissing(errors, a), b) == MarkMissing(errors, a + b)
  {
  }

  lemma MarkMissingAdd(errors: Report, a: set<string>, p: string)
    ensures MarkMissing(errors, a)[p := MissingValue] == MarkMissing(errors, a + {p})
  {
  }

  /** `check_missing_fields`: walk the group `t` against `actual`, adding a
      "Missing value" entry to `errors` for every leaf whose value is absent
      or empty. The report being filled is passed in and handed back. */
  method CheckMissingFields(t: Schema, actual: Value, path: string, errors: Report) returns (r: Result<Report>)
    requires t.Group?
    ensures r == WithMissing(errors, MissingPaths(t, actual, path))
    decreases t
  {
    var acc := errors;
    for i := 0 to |t.entries|
      invariant MissingIn(t, i, actual, path).Ok?
      invariant acc == MarkMissing(errors, MissingIn(t, i, actual, path).value)
    {
      ghost var before := MissingIn(t, i, actual, path).value;
      if !actual.Obj? {
        RaisedPersists(t, i + 1, |t.entries|, actual, path);
        return Raised(AttributeError);
      }
      var e := t.entries[i];
      var full := if path == "" then e.key else path + "." + e.key;
      assert full == Dotted(path, e.key);
      match e.node {
        case Group(children) =>
          var child := Get(actual, e.key, Obj(map[]));
          var sub := CheckMissingFields(e.node, child, full, acc);
          if sub.Raised? {
            assert MissingIn(t, i + 1, actual, path).Raised?;
            RaisedPersists(t, i + 1, |t.entries|, actual, path);
            return sub;
          }
          ghost var inner := MissingPaths(e.node, child, full).value;
          assert MissingIn(t, i + 1, actual, path) == Ok(before + inner);
          MarkMissingUnion(errors, before, inner);
          acc := sub.value;
        case Leaf =>
          if Get(actual, e.key, Str("")) == Str("") {
            assert MissingIn(t, i + 1, actual, path) == Ok(before + {full});
            MarkMissingAdd(errors, before, full);
            acc := acc[full := MissingValue];
          } else {
            assert MissingIn(t, i + 1, actual, path) == Ok(before);
          }
      }
    }
    return Ok(acc);
  }

  /** The text of a string value; the format checks only look at truthy
      values, and the only falsy values are "" and {}. */
  function StrOf(v: Value): string {
    if v.Str? then v.s else ""
  }

  /** A phone or gender value the source passes on to `re.fullmatch` or to
      set membership although it is a (non-empty) dictionary: that raises. */
  predicate RaisesAsText(v: Value) {
    Truthy(v) && v.Obj?
  }

  /** `errors[key] = msg` when `bad` holds. */
  function AddIf(errors: Report, bad: bool, key: string, msg: string): (r: Report)
    ensures bad ==> r == errors[key := msg]
    ensures !bad ==> r == errors
  {
    if bad then errors[key := msg] else errors
  }

  predicate IdRejected(data: map<string, Value>) {
    !IsValidId(StrOf(Get(Obj(data), "idNumber", Str(""))))
  }

  predicate DateRejected(data: map<string, Value>) {
    !ValidDate(Get(Obj(data), "dateOfBirth", Obj(map[])))
  }

  predicate MobileRejected(data: map<string, Value>) {
    var v := StrOf(Get(Obj(data), "mobilePhone", Str("")));
    v != "" && !ValidMobile(v)
  }

  predicate LandlineRejected(data: map<string, Value>) {
    var v := StrOf(Get(Obj(data), "landlinePhone", Str("")));
    v != "" && !ValidLandline(v)
  }

  predicate GenderRejected(data: map<string, Value>) {
    var v := StrOf(Get(Obj(data), "gender", Str("")));
    v != "" && v !in Genders
  }

  /** Whether the format pass raises: `_only_digits` on a dictionary ID
      (any dictionary, even `{}`), or a non-empty dictionary where a phone
      number or gender string is expected (an empty one is falsy and
      skipped). */
  predicate FormatRaises(data: map<string, Value>) {
    Get(Obj(data), "idNumber", Str("")).Obj?
    || RaisesAsText(Get(Obj(data), "mobilePhone", Str("")))
    || RaisesAsText(Get(Obj(data), "landlinePhone", Str("")))
    || RaisesAsText(Get(Obj(data), "gender", Str("")))
  }

  /** An empty dictionary for a phone number or the gender is skipped, but
      an ID dictionary raises even when it is empty. */
  lemma EmptyDictionaryRaisesOnlyForId()
    ensures !FormatRaises(map["mobilePhone" := Obj(map[]), "landlinePhone" := Obj(map[]), "gender" := Obj(map[])])
    ensures FormatRaises(map["idNumber" := Obj(map[])])
  {
  }

  /** Which of the five format checks reject the record. */
  datatype Verdicts = Verdicts(id: bool, date: bool, mobile: bool, landline: bool, gender: bool)

  function VerdictsOf(data: map<string, Value>): Verdicts {
    Verdicts(IdRejected(data), DateRejected(data), MobileRejected(data), LandlineRejected(data), GenderRejected(data))
  }

  /** The report after the format pass, in the source's order of checks. */
  function MarkRejected(errors: Report, v: Verdicts): Report {
    var e1 := AddIf(errors, v.id, "idNumber", InvalidIdMessage);
    var e2 := AddIf(e1, v.date, "dateOfBirth", InvalidDateMessage);
    var e3 := AddIf(e2, v.mobile, "mobilePhone", InvalidMobileMessage);
    var e4 := AddIf(e3, v.landline, "landlinePhone", InvalidLandlineMessage);
    AddIf(e4, v.gender, "gender", UnrecognisedGenderMessage)
  }

  /** The format pass over fixed field keys. */
  function FormatChecks(data: map<string, Value>, errors: Report): Result<Report> {
    if FormatRaises(data) then Raised(TypeError) else Ok(MarkRejected(errors, VerdictsOf(data)))
  }

  /** What `validate_fields` returns or raises for a record. */
  function Validation(data: map<string, Value>): Result<Report> {
    match MissingPaths(Template, Obj(data), "")
    case Raised(e) => Raised(e)
    case Ok(missing) => FormatChecks(data, MarkMissing(map[], missing))
  }

  /** `validate_fields`: the missing-value walk over the template, then the
      per-field format checks, all filling one report. */
  method ValidateFields(data: map<string, Value>) returns (r: Result<Report>)
    ensures r == Validation(data)
  {
    var missing := CheckMissingFields(Template, Obj(data), "", map[]);
    if missing.Raised? {
      return missing;
    }
    r := CheckFormats(data, missing.value);
  }

  /** The second half of `validate_fields`, after the missing-value walk. */
  method CheckFormats(data: map<string, Value>, errors: Report) returns (r: Result<Report>)
    ensures r == FormatChecks(data, errors)
  {
    var id := Get(Obj(data), "idNumber", Str(""));
    if id.Obj? {
      return Raised(TypeError);
    }
    var idOk := ValidId(id.s);
    assert idOk == !IdRejected(data);
    var report := AddIf(errors, !idOk, "idNumber", InvalidIdMessage);
    var dateOk := ValidDate(Get(Obj(data), "dateOfBirth", Obj(map[])));
    assert dateOk == !DateRejected(data);
    report := AddIf(report, !dateOk, "dateOfBirth", InvalidDateMessage);
    var mobile := Get(Obj(data), "mobilePhone", Str(""));
    if RaisesAsText(mobile) {
      return Raised(TypeError);
    }
    var mobileBad := Truthy(mobile) && !ValidMobile(mobile.s);
    assert mobileBad == MobileRejected(data);
    report := AddIf(report, mobileBad, "mobilePhone", InvalidMobileMessage);
    var landline := Get(Obj(data), "landlinePhone", Str(""));
    if RaisesAsText(landline) {
      return Raised(TypeError);
    }
    var landlineBad := Truthy(landline) && !ValidLandline(landline.s);
    assert landlineBad == LandlineRejected(data);
    report := AddIf(report, landlineBad, "landlinePhone", InvalidLandlineMessage);
    var gender := Get(Obj(data), "gender", Str(""));
    if RaisesAsText(gender) {
      return Raised(TypeError);
    }
    var genderBad := Truthy(gender) && gender.s !in Genders;
    assert genderBad == GenderRejected(data);
    assert !FormatRaises(data);
    r := Ok(AddIf(report, genderBad, "gender", UnrecognisedGenderMessage));
  }

  // The missing-value walk, stated without the walk.

  /** `keys` leads through the nested groups of `t` to a leaf whose value in
      `v` is absent or "". */
  ghost predicate EmptyLeaf(t: Schema, v: Value, keys: seq<string>)
    decreases t, 2
  {
    t.Group? && EmptyLeafBefore(t, |t.entries|, v, keys)
  }

  /** As `EmptyLeaf`, through one of the first `n` entries of `t`. */
  ghost predicate EmptyLeafBefore(t: Schema, n: nat, v: Value, keys: seq<string>)
    requires t.Group? && n <= |t.entries|
    decreases t, 1
  {
    v.Obj? && |keys| >= 1 && exists j :: 0 <= j < n && EmptyLeafVia(t, j, v, keys)
  }

  /** As `EmptyLeaf`, through entry `j` of `t`. */
  ghost predicate EmptyLeafVia(t: Schema, j: nat, v: Value, keys: seq<string>)
    requires t.Group? && j < |t.entries| && v.Obj? && |keys| >= 1
    decreases t, 0
  {
    t.entries[j].key == keys[0] &&
    match t.entries[j].node
    case Leaf => |keys| == 1 && Get(v, keys[0], Str("")) == Str("")
    case Group(_) => EmptyLeaf(t.entries[j].node, Get(v, keys[0], Obj(map[])), keys[1..])
  }

  /** The entry through which an empty leaf is reached. */
  lemma EntryOf(t: Schema, n: nat, v: Value, keys: seq<string>) returns (j: nat)
    requires t.Group? && n <= |t.entries| && EmptyLeafBefore(t, n, v, keys)
    ensures j < n && v.Obj? && |keys| >= 1 && EmptyLeafVia(t, j, v, keys)
  {
    j :| j < n && EmptyLeafVia(t, j, v, keys);
  }

  /** Every path the walk records is the dotted path of an empty leaf. */
  lemma {:induction false} MissingInSound(t: Schema, n: nat, v: Value, path: string, p: string)
    returns (keys: seq<string>)
    requires t.Group? && n <= |t.entries|
    requires MissingIn(t, n, v, path).Ok? && p in MissingIn(t, n, v, path).value
    ensures EmptyLeafBefore(t, n, v, keys) && JoinPath(path, keys) == p
    decreases t, n
  {
    var m: nat := n - 1;
    var e := t.entries[m];
    var full := Dotted(path, e.key);
    if p in MissingIn(t, m, v, path).value {
      keys := MissingInSound(t, m, v, path, p);
      var j := EntryOf(t, m, v, keys);
      assert EmptyLeafVia(t, j, v, keys);
    } else {
      match e.node
      case Leaf =>
        assert p == full;
        keys := [e.key];
        assert JoinPath(path, keys) == JoinPath(full, []);
        assert EmptyLeafVia(t, m, v, keys);
      case Group(children) =>
        var sub := Get(v, e.key, Obj(map[]));
        var rest := MissingInSound(e.node, |children|, sub, full, p);
        keys := [e.key] + rest;
        assert keys[1..] == rest;
        assert EmptyLeafVia(t, m, v, keys);
    }
  }

  /** The walk records the dotted path of every empty leaf. */
  lemma {:induction false} MissingInComplete(t: Schema, n: nat, v: Value, path: string, keys: seq<string>)
    requires t.Group? && n <= |t.entries|
    requires MissingIn(t, n, v, path).Ok? && EmptyLeafBefore(t, n, v, keys)
    ensures JoinPath(path, keys) in MissingIn(t, n, v, path).value
    decreases t, n
  {
    var j := EntryOf(t, n, v, keys);
    var m: nat := n - 1;
    if j < m {
      assert EmptyLeafBefore(t, m, v, keys);
      MissingInComplete(t, m, v, path, keys);
    } else {
      var e := t.entries[m];
      var full := Dotted(path, e.key);
      match e.node
      case Leaf =>
        assert keys == [e.key];
        assert JoinPath(path, keys) == JoinPath(full, []);
      case Group(children) =>
        var sub := Get(v, e.key, Obj(map[]));
        assert EmptyLeafBefore(e.node, |children|, sub, keys[1..]);
        MissingInComplete(e.node, |children|, sub, full, keys[1..]);
        assert JoinPath(path, keys) == JoinPath(full, keys[1..]);
    }
  }

  /** `p` is the dotted path, below `path`, of an empty leaf of `t` in `v`. */
  ghost predicate EmptyLeafPath(t: Schema, v: Value, path: string, p: string) {
    exists keys :: EmptyLeaf(t, v, keys) && JoinPath(path, keys) == p
  }

  /** The walk over a whole group records exactly the dotted paths of its
      empty leaves. */
  lemma MissingPathsExact(t: Schema, v: Value, path: string)
    requires t.Group? && MissingPaths(t, v, path).Ok?
    ensures forall p :: p in MissingPaths(t, v, path).value <==> EmptyLeafPath(t, v, path, p)
  {
    forall p | p in MissingPaths(t, v, path).value
      ensures EmptyLeafPath(t, v, path, p)
    {
      var keys := MissingInSound(t, |t.entries|, v, path, p);
      assert EmptyLeaf(t, v, keys);
    }
    forall p | EmptyLeafPath(t, v, path, p)
      ensures p in MissingPaths(t, v, path).value
    {
      var keys :| EmptyLeaf(t, v, keys) && JoinPath(path, keys) == p;
      MissingInComplete(t, |t.entries|, v, path, keys);
    }
  }

  /** Every group of `t` meets a dictionary in `v` (a leaf fits anything). */
  ghost predicate Fits(t: Schema, v: Value)
    decreases t, 1
  {
    t.Group? ==> FitsBefore(t, |t.entries|, v)
  }

  /** As `Fits`, for the first `n` entries of the group `t`. */
  ghost predicate FitsBefore(t: Schema, n: nat, v: Value)
    requires t.Group? && n <= |t.entries|
    decreases t, 0
  {
    n == 0 || (v.Obj? && forall j :: 0 <= j < n ==> Fits(t.entries[j].node, Get(v, t.entries[j].key, Obj(map[]))))
  }

  /** The walk raises, and then always `AttributeError`, exactly when some
      group of the template meets a string. */
  lemma {:induction false} MissingInRaises(t: Schema, n: nat, v: Value, path: string)
    requires t.Group? && n <= |t.entries|
    ensures MissingIn(t, n, v, path).Ok? <==> FitsBefore(t, n, v)
    ensures MissingIn(t, n, v, path).Raised? ==> MissingIn(t, n, v, path).error == AttributeError
    decreases t, n
  {
    if n > 0 {
      var m: nat := n - 1;
      MissingInRaises(t, m, v, path);
      var e := t.entries[m];
      if v.Obj? {
        assert FitsBefore(t, n, v) <==> FitsBefore(t, m, v) && Fits(e.node, Get(v, e.key, Obj(map[])));
        match e.node
        case Leaf =>
        case Group(children) =>
          MissingInRaises(e.node, |children|, Get(v, e.key, Obj(map[])), Dotted(path, e.key));
      }
    }
  }

  lemma TemplateKeys()
    ensures Template.Group?
    ensures forall j :: 0 <= j < |Template.entries| ==> Template.entries[j].key != ""
    ensures forall j :: 0 <= j < |Template.entries| && Template.entries[j].node.Leaf? ==>
      Template.entries[j].key != "dateOfBirth"
  {
  }

  /** Extending a non-empty path keeps it as a prefix. */
  lemma {:induction false} JoinPathExtends(path: string, keys: seq<string>)
    requires path != ""
    ensures |path| <= |JoinPath(path, keys)| && JoinPath(path, keys)[..|path|] == path
    decreases |keys|
  {
    if keys != [] {
      var next := Dotted(path, keys[0]);
      JoinPathExtends(next, keys[1..]);
      assert next[..|path|] == path;
      assert JoinPath(path, keys)[..|path|] == JoinPath(path, keys)[..|next|][..|path|];
    }
  }

  /** An empty leaf of the template is either a top-level field other than
      `dateOfBirth`, looked up as "", or a dotted path inside a group. */
  lemma TemplateEmptyLeaf(v: Value, keys: seq<string>)
    requires EmptyLeaf(Template, v, keys)
    ensures v.Obj?
    ensures |keys| == 1 ==> keys[0] != "dateOfBirth" && Get(v, keys[0], Str("")) == Str("")
    ensures |keys| != 1 ==> '.' in JoinPath("", keys)
  {
    TemplateKeys();
    var j := EntryOf(Template, |Template.entries|, v, keys);
    var e := Template.entries[j];
    match e.node
    case Leaf =>
    case Group(children) =>
      var sub := Get(v, e.key, Obj(map[]));
      assert EmptyLeafBefore(e.node, |children|, sub, keys[1..]);
      var i := EntryOf(e.node, |children|, sub, keys[1..]);
      var first := Dotted(e.key, keys[1]);
      assert first == e.key + "." + keys[1];
      assert JoinPath("", keys) == JoinPath(first, keys[2..]) by {
        assert keys[1..][1..] == keys[2..];
      }
      JoinPathExtends(first, keys[2..]);
      assert JoinPath("", keys)[|e.key|] == first[|e.key|] == '.';
  }

  /** The fields the verdicts reject. */
  function Rejected(v: Verdicts): set<string> {
    (if v.id then {"idNumber"} else {})
    + (if v.date then {"dateOfBirth"} else {})
    + (if v.mobile then {"mobilePhone"} else {})
    + (if v.landline then {"landlinePhone"} else {})
    + (if v.gender then {"gender"} else {})
  }

  /** The top-level fields whose format check fails. */
  function RejectedFields(data: map<string, Value>): set<string> {
    Rejected(VerdictsOf(data))
  }

  /** The message the format pass records for a rejected field. */
  function FormatMessage(key: string): string {
    if key == "idNumber" then InvalidIdMessage
    else if key == "dateOfBirth" then InvalidDateMessage
    else if key == "mobilePhone" then InvalidMobileMessage
    else if key == "landlinePhone" then InvalidLandlineMessage
    else UnrecognisedGenderMessage
  }

  /** A field the walk finds empty passes its format check, so a "Missing
      value" entry is never replaced by a format error: an empty ID is
      accepted by the checksum, empty phones and genders are skipped, and
      `dateOfBirth` is a group, never a leaf. */
  lemma MissingNeverRejected(data: map<string, Value>, p: string)
    requires EmptyLeafPath(Template, Obj(data), "", p)
    ensures p !in RejectedFields(data)
  {
    var keys :| EmptyLeaf(Template, Obj(data), keys) && JoinPath("", keys) == p;
    TemplateEmptyLeaf(Obj(data), keys);
    if |keys| == 1 {
      assert p == keys[0] by {
        assert JoinPath("", keys) == JoinPath(keys[0], []);
      }
      EmptyFieldAccepted(data, p);
    } else {
      DottedPathNotAField(p);
      RejectedNames(VerdictsOf(data), p);
    }
  }

  /** A top-level field that is absent or "" passes its format check. */
  lemma EmptyFieldAccepted(data: map<string, Value>, key: string)
    requires Get(Obj(data), key, Str("")) == Str("") && key != "dateOfBirth"
    ensures key !in RejectedFields(data)
  {
    var v := VerdictsOf(data);
    if key == "idNumber" {
      EmptyIdIsValid();
      assert !v.id;
    } else if key == "mobilePhone" {
      assert !v.mobile;
    } else if key == "landlinePhone" {
      assert !v.landline;
    } else if key == "gender" {
      assert !v.gender;
    }
    RejectedNames(v, key);
  }

  lemma RejectedNames(v: Verdicts, key: string)
    ensures key in Rejected(v) <==>
      (key == "idNumber" && v.id) || (key == "dateOfBirth" && v.date) || (key == "mobilePhone" && v.mobile)
      || (key == "landlinePhone" && v.landline) || (key == "gender" && v.gender)
  {
  }

  /** The checked fields are top-level names, without a dot. */
  lemma DottedPathNotAField(p: string)
    requires '.' in p
    ensures p !in {"idNumber", "dateOfBirth", "mobilePhone", "landlinePhone", "gender"}
  {
  }

  /** The format pass keeps what the walk reported and adds the rejected
      fields. */
  lemma MarkRejectedKeys(errors: Report, v: Verdicts)
    ensures forall p :: p in MarkRejected(errors, v) <==> p in errors || p in Rejected(v)
  {
    forall p
      ensures p in MarkRejected(errors, v) <==> p in errors || p in Rejected(v)
    {
      RejectedNames(v, p);
    }
  }

  /** The format pass writes its message at each rejected field and leaves
      every other entry as it was. */
  lemma MarkRejectedValues(errors: Report, v: Verdicts)
    ensures forall p :: p in MarkRejected(errors, v) ==>
      MarkRejected(errors, v)[p] == if p in Rejected(v) then FormatMessage(p) else errors[p]
  {
    forall p | p in MarkRejected(errors, v)
      ensures MarkRejected(errors, v)[p] == if p in Rejected(v) then FormatMessage(p) else errors[p]
    {
      RejectedNames(v, p);
    }
  }

  /** A returned report is the walk's "Missing value" entries, one per empty
      leaf, followed by the format pass. */
  lemma ValidationSteps(data: map<string, Value>) returns (missing: set<string>)
    requires Validation(data).Ok?
    ensures forall p :: p in missing <==> EmptyLeafPath(Template, Obj(data), "", p)
    ensures Validation(data).value == MarkRejected(MarkMissing(map[], missing), VerdictsOf(data))
  {
    missing := MissingPaths(Template, Obj(data), "").value;
    MissingPathsExact(Template, Obj(data), "");
  }

  /** A returned report has an entry exactly at the empty leaves and the
      rejected fields. */
  lemma ValidationKeys(data: map<string, Value>)
    requires Validation(data).Ok?
    ensures forall p :: p in Validation(data).value <==>
      EmptyLeafPath(Template, Obj(data), "", p) || p in RejectedFields(data)
  {
    var missing := ValidationSteps(data);
    MarkRejectedKeys(MarkMissing(map[], missing), VerdictsOf(data));
  }

  /** Every rejected field carries its format message. */
  lemma ValidationFormatErrors(data: map<string, Value>)
    requires Validation(data).Ok?
    ensures forall p :: p in RejectedFields(data) ==>
      p in Validation(data).value && Validation(data).value[p] == FormatMessage(p)
  {
    var missing := ValidationSteps(data);
    MarkRejectedKeys(MarkMissing(map[], missing), VerdictsOf(data));
    MarkRejectedValues(MarkMissing(map[], missing), VerdictsOf(data));
  }

  /** Every empty leaf carries "Missing value": no format error replaces it. */
  lemma ValidationMissingValues(data: map<string, Value>)
    requires Validation(data).Ok?
    ensures forall p :: EmptyLeafPath(Template, Obj(data), "", p) ==>
      p in Validation(data).value && Validation(data).value[p] == MissingValue
  {
    var missing := ValidationSteps(data);
    var errors := MarkMissing(map[], missing);
    MarkRejectedKeys(errors, VerdictsOf(data));
    MarkRejectedValues(errors, VerdictsOf(data));
    forall p | EmptyLeafPath(Template, Obj(data), "", p)
      ensures p in Validation(data).value && Validation(data).value[p] == MissingValue
    {
      MissingNeverRejected(data, p);
    }
  }

  /** `validate_fields` raises exactly when a template group meets a string
      (`AttributeError`), or a dictionary stands for the ID or a non-empty
      dictionary for a phone number or the gender (`TypeError`). */
  lemma ValidationRaises(data: map<string, Value>)
    ensures Validation(data).Raised? <==> !Fits(Template, Obj(data)) || FormatRaises(data)
    ensures Validation(data).Raised? ==>
      Validation(data).error == (if Fits(Template, Obj(data)) then TypeError else AttributeError)
  {
    MissingInRaises(Template, |Template.entries|, Obj(data), "");
  }
}
