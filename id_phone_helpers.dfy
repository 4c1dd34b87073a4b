/** Recovery of an Israeli ID number or a mobile number from OCR text whose
    digits may be split by spaces or doubled by scanning noise. */
module IdPhoneHelpers {
  import opened Wrappers
  import opened Text
  import opened Validator

  // ---------------------------------------------------------------------
  // Candidate digit runs: re.findall(r"\b\d[ \d]{L-1,L+2}\b", txt)

  /** `\b` at position `j`: a word character on exactly one side. */
  predicate IsBoundary(txt: string, j: nat)
    requires j <= |txt|
  {
    (j > 0 && IsWordChar(txt[j - 1])) != (j < |txt| && IsWordChar(txt[j]))
  }

  /** `[ \d]`: a space or a digit. */
  predicate IsDigitOrSpace(c: char) {
    c == ' ' || IsDigit(c)
  }

  predicate AllDigitsOrSpaces(s: string) {
    forall i :: 0 <= i < |s| ==> IsDigitOrSpace(s[i])
  }

  /** How many characters of `[ \d]` follow position `from`, at most `most`:
      the greedy first attempt of the repetition. */
  function RunLength(txt: string, from: nat, most: nat): (k: nat)
    requires from <= |txt|
    ensures k <= most && from + k <= |txt|
    ensures AllDigitsOrSpaces(txt[from..from + k])
    ensures k < most && from + k < |txt| ==> !IsDigitOrSpace(txt[from + k])
    decreases most
  {
    if most == 0 || from == |txt| || !IsDigitOrSpace(txt[from]) then 0
    else
      var k := 1 + RunLength(txt, from + 1, most - 1);
      assert txt[from..from + k] == [txt[from]] + txt[from + 1..from + k];
      k
  }

  /** Backtracking of the repetition: the longest count in `least..k` after
      which `\b` holds, tried from `k` down; the end of the match. */
  function BacktrackEnd(txt: string, start: nat, least: nat, k: nat): (e: Option<nat>)
    requires start + k <= |txt|
    ensures e.Some? ==> start + least <= e.value <= start + k && IsBoundary(txt, e.value)
    ensures e.Some? ==> forall j :: e.value < j <= start + k ==> !IsBoundary(txt, j)
    ensures e.None? ==> forall j :: start + least <= j <= start + k ==> !IsBoundary(txt, j)
    decreases k
  {
    if k < least then None
    else if IsBoundary(txt, start + k) then Some(start + k)
    else if k == 0 then None
    else BacktrackEnd(txt, start, least, k - 1)
  }

  /** The pattern matches `txt[i..e]`: a word boundary, a digit, then
      between `length - 1` and `length + 2` spaces or digits, and a word
      boundary. */
  predicate MatchesAt(txt: string, i: nat, length: nat, e: nat) {
    i < |txt| && IsBoundary(txt, i) && IsDigit(txt[i])
    && i < e && i + length <= e <= i + length + 3 && e <= |txt|
    && AllDigitsOrSpaces(txt[i + 1..e]) && IsBoundary(txt, e)
  }

  /** Past the greedy run no longer stretch of `[ \d]` exists. */
  lemma RunLengthMaximal(txt: string, from: nat, most: nat)
    requires from <= |txt|
    ensures forall j :: from + RunLength(txt, from, most) < j <= |txt| && j <= from + most ==>
      !AllDigitsOrSpaces(txt[from..j])
  {
    var k := RunLength(txt, from, most);
    forall j | from + k < j <= |txt| && j <= from + most
      ensures !AllDigitsOrSpaces(txt[from..j])
    {
      assert txt[from..j][k] == txt[from + k];
    }
  }

  /** The end of the match tried at position `i`: the regex engine takes
      the longest repetition after which `\b` holds. */
  function MatchAt(txt: string, i: nat, length: nat): (e: Option<nat>)
    requires 1 <= length && i < |txt|
    ensures e.Some? ==> MatchesAt(txt, i, length, e.value)
    ensures e.Some? ==> forall j :: e.value < j ==> !MatchesAt(txt, i, length, j)
    ensures e.None? ==> forall j :: !MatchesAt(txt, i, length, j)
  {
    if !IsBoundary(txt, i) || !IsDigit(txt[i]) then None
    else
      var k := RunLength(txt, i + 1, length + 2);
      var e := BacktrackEnd(txt, i + 1, length - 1, k);
      RunLengthMaximal(txt, i + 1, length + 2);
      if e.Some? then
        assert txt[i + 1..e.value] == txt[i + 1..i + 1 + k][..e.value - (i + 1)];
        e
      else e
  }

  /** The matches `re.findall` reports from position `i` on: after a match
      the scan resumes at its end, otherwise one character further. */
  function CandidatesFrom(txt: string, i: nat, length: nat): (r: seq<string>)
    requires 1 <= length && i <= |txt|
    ensures forall c :: c in r ==> length <= |c| <= length + 3
    ensures forall c :: c in r ==> IsDigit(c[0]) && AllDigitsOrSpaces(c)
    ensures forall c :: c in r ==> exists k :: i <= k && OccursAt(txt, k, c)
    decreases |txt| - i
  {
    if i == |txt| then []
    else
      match MatchAt(txt, i, length)
      case Some(e) =>
        MatchedText(txt, i, length, e);
        [txt[i..e]] + CandidatesFrom(txt, e, length)
      case None => CandidatesFrom(txt, i + 1, length)
  }

  /** The text of a match has the shape the pattern describes. */
  lemma MatchedText(txt: string, i: nat, length: nat, e: nat)
    requires MatchesAt(txt, i, length, e)
    ensures length <= |txt[i..e]| <= length + 3
    ensures IsDigit(txt[i..e][0]) && AllDigitsOrSpaces(txt[i..e])
    ensures OccursAt(txt, i, txt[i..e])
  {
    var c := txt[i..e];
    forall j | 0 <= j < |c|
      ensures IsDigitOrSpace(c[j])
    {
      if j > 0 {
        assert c[j] == txt[i + 1..e][j - 1];
      }
    }
  }

  /** `_candidates(txt, length)`. */
  function Candidates(txt: string, length: nat): (r: seq<string>)
    requires 1 <= length
    ensures forall c :: c in r ==> length <= |c| <= length + 3
    ensures forall c :: c in r ==> IsDigit(c[0]) && AllDigitsOrSpaces(c)
    ensures forall c :: c in r ==> exists k :: OccursAt(txt, k, c)
  {
    CandidatesFrom(txt, 0, length)
  }

  // ---------------------------------------------------------------------
  // Collapsing repeated digits: re.sub(r"(\d)\1{1,}", r"\1", num)

  /** No digit is directly followed by the same digit. */
  predicate NoRepeats(s: string) {
    forall i :: 0 <= i < |s| - 1 ==> !(IsDigit(s[i]) && s[i + 1] == s[i])
  }

  /** `normalise`: each run of one repeated digit becomes a single copy; the
      last copy of a run is the one kept, which is the same character. */
  function Normalise(s: string): (r: string)
    ensures |r| <= |s|
    ensures |s| > 0 ==> |r| > 0 && r[0] == s[0]
    ensures NoRepeats(r)
    ensures forall c :: c in r <==> c in s
    ensures AllDigits(s) ==> AllDigits(r)
  {
    if |s| <= 1 then s
    else if IsDigit(s[0]) && s[1] == s[0] then Normalise(s[1..])
    else
      var rest := Normalise(s[1..]);
      assert forall c :: c in s <==> c == s[0] || c in s[1..];
      [s[0]] + rest
  }

  /** A string without repeated digits is left as it is. */
  lemma {:induction false} NormaliseFixes(s: string)
    requires NoRepeats(s)
    ensures Normalise(s) == s
  {
    if |s| > 1 {
      assert NoRepeats(s[1..]) by {
        forall i | 0 <= i < |s[1..]| - 1
          ensures !(IsDigit(s[1..][i]) && s[1..][i + 1] == s[1..][i])
        {
          assert s[1..][i] == s[i + 1] && s[1..][i + 1] == s[i + 2];
        }
      }
      NormaliseFixes(s[1..]);
      assert !(IsDigit(s[0]) && s[1] == s[0]);
    }
  }

  lemma NormaliseIdempotent(s: string)
    ensures Normalise(Normalise(s)) == Normalise(s)
  {
    NormaliseFixes(Normalise(s));
  }

  /** Doubling a digit anywhere does not change the result: the output only
      depends on the input with every run of a digit shortened to one. */
  lemma {:induction false} NormaliseStutter(a: string, d: char, b: string)
    requires IsDigit(d)
    ensures Normalise(a + [d, d] + b) == Normalise(a + [d] + b)
  {
    var long, short := a + [d, d] + b, a + [d] + b;
    if a == [] {
      assert long[1..] == short;
    } else {
      assert long[1..] == a[1..] + [d, d] + b;
      assert short[1..] == a[1..] + [d] + b;
      NormaliseStutter(a[1..], d, b);
      assert long[0] == short[0] && long[1] == short[1];
    }
  }

  // ---------------------------------------------------------------------
  // First qualifying candidate

  /** Which number is being recovered. */
  datatype Kind = IsraeliId | Mobile

  /** A candidate's digits, with repeated digits collapsed. */
  function Cleaned(raw: string): (num: string)
    ensures AllDigits(num) && NoRepeats(num)
  {
    Normalise(OnlyDigits(raw))
  }

  /** The test each loop applies to a cleaned candidate. */
  predicate Accepts(kind: Kind, num: string) {
    match kind
    case IsraeliId => |num| == 9 && IsValidId(num)
    case Mobile => |num| == 10 && StartsWith(num, "05") && ValidMobile(num)
  }

  /** Candidate `i` is the first whose cleaned form passes the test. */
  predicate FirstAccepted(cands: seq<string>, kind: Kind, i: nat) {
    i < |cands| && Accepts(kind, Cleaned(cands[i]))
    && forall j :: 0 <= j < i ==> !Accepts(kind, Cleaned(cands[j]))
  }

  /** The first candidate in scan order whose cleaned form passes the test,
      cleaned; `None` when none does. */
  function FirstMatch(cands: seq<string>, kind: Kind): (r: Option<string>)
    ensures r.None? <==> forall i :: 0 <= i < |cands| ==> !Accepts(kind, Cleaned(cands[i]))
    ensures r.Some? ==> (exists i: nat :: FirstAccepted(cands, kind, i) && r.value == Cleaned(cands[i]))
  {
    if cands == [] then None
    else
      var num := Cleaned(cands[0]);
      if Accepts(kind, num) then
        assert FirstAccepted(cands, kind, 0);
        Some(num)
      else
        var r := FirstMatch(cands[1..], kind);
        assert forall i :: 1 <= i < |cands| ==> cands[i] == cands[1..][i - 1];
        if r.Some? then
          var i: nat :| FirstAccepted(cands[1..], kind, i) && r.value == Cleaned(cands[1..][i]);
          FirstAcceptedShift(cands, kind, i);
          r
        else r
  }

  /** Skipping a rejected first candidate shifts the first accepted one. */
  lemma FirstAcceptedShift(cands: seq<string>, kind: Kind, i: nat)
    requires |cands| > 0 && !Accepts(kind, Cleaned(cands[0]))
    requires FirstAccepted(cands[1..], kind, i)
    ensures FirstAccepted(cands, kind, i + 1)
  {
    forall j | 0 <= j < i + 1
      ensures !Accepts(kind, Cleaned(cands[j]))
    {
      if j > 0 {
        assert cands[j] == cands[1..][j - 1];
      }
    }
    assert cands[i + 1] == cands[1..][i];
  }

  /** `best_israeli_id`. */
  function BestIsraeliId(txt: string): (r: Option<string>)
    ensures r.Some? ==> |r.value| == 9 && AllDigits(r.value) && IsValidId(r.value) && NoRepeats(r.value)
  {
    FirstMatch(Candidates(txt, 9), IsraeliId)
  }

  /** `best_mobile`. */
  function BestMobile(txt: string): (r: Option<string>)
    ensures r.Some? ==> |r.value| == 10 && StartsWith(r.value, "05") && ValidMobile(r.value) && NoRepeats(r.value)
  {
    FirstMatch(Candidates(txt, 10), Mobile)
  }

  /** For a mobile number the length and prefix tests add nothing to the
      pattern match. */
  lemma MobileTestIsPattern(num: string)
    ensures Accepts(Mobile, num) <==> ValidMobile(num)
  {
    ValidMobileShape(num);
  }

  // ---------------------------------------------------------------------
  // Recovery from a bare run of digits

  /** A text made only of digits, of a length the pattern allows, is one
      candidate: itself. */
  lemma DigitsAloneAreOneCandidate(txt: string, length: nat)
    requires 1 <= length && AllDigits(txt) && length <= |txt| <= length + 3
    ensures Candidates(txt, length) == [txt]
  {
    assert AllDigitsOrSpaces(txt[1..]) by {
      forall j | 0 <= j < |txt[1..]|
        ensures IsDigitOrSpace(txt[1..][j])
      {
        assert txt[1..][j] == txt[j + 1];
      }
    }
    assert MatchesAt(txt, 0, length, |txt|);
    assert MatchAt(txt, 0, length) == Some(|txt|);
    assert CandidatesFrom(txt, |txt|, length) == [];
    assert CandidatesFrom(txt, 0, length) == [txt[0..|txt|]] + CandidatesFrom(txt, |txt|, length);
    assert txt[0..|txt|] == txt;
  }

  /** The digits of a valid ID, with repeated digits possibly doubled by the
      scan, are recovered as the ID. */
  lemma IdRecoveredFromDigits(txt: string)
    requires AllDigits(txt) && 9 <= |txt| <= 12
    requires |Normalise(txt)| == 9 && IsValidId(Normalise(txt))
    ensures BestIsraeliId(txt) == Some(Normalise(txt))
  {
    DigitsAloneAreOneCandidate(txt, 9);
    OnlyDigitsOfDigits(txt);
    assert Cleaned(txt) == Normalise(txt);
  }

  /** The same for a mobile number. */
  lemma MobileRecoveredFromDigits(txt: string)
    requires AllDigits(txt) && 10 <= |txt| <= 13
    requires ValidMobile(Normalise(txt))
    ensures BestMobile(txt) == Some(Normalise(txt))
  {
    DigitsAloneAreOneCandidate(txt, 10);
    OnlyDigitsOfDigits(txt);
    assert Cleaned(txt) == Normalise(txt);
    MobileTestIsPattern(Normalise(txt));
  }

  /** A text that is just a valid ID without repeated digits yields that
      ID, whether or not the scan doubled one of its digits. */
  lemma DoubledIdDigitRecovered(a: string, d: char, b: string)
    requires IsDigit(d) && AllDigits(a + [d] + b) && |a + [d] + b| == 9
    requires NoRepeats(a + [d] + b) && IsValidId(a + [d] + b)
    ensures BestIsraeliId(a + [d] + b) == Some(a + [d] + b)
    ensures BestIsraeliId(a + [d, d] + b) == Some(a + [d] + b)
  {
    var num, noisy := a + [d] + b, a + [d, d] + b;
    NormaliseFixes(num);
    NormaliseStutter(a, d, b);
    StutterKeepsDigits(a, d, b);
    IdRecoveredFromDigits(num);
    IdRecoveredFromDigits(noisy);
  }

  /** Doubling a digit of a digit string leaves a digit string. */
  lemma StutterKeepsDigits(a: string, d: char, b: string)
    requires AllDigits(a + [d] + b)
    ensures AllDigits(a + [d, d] + b)
  {
    var num, noisy := a + [d] + b, a + [d, d] + b;
    forall i | 0 <= i < |noisy|
      ensures IsDigit(noisy[i])
    {
      if i <= |a| {
        assert noisy[i] == num[i];
      } else {
        assert noisy[i] == num[i - 1];
      }
    }
  }

  /** A ten-digit mobile number with two equal adjacent digits, standing
      alone, is never recovered: collapsing costs it a digit and it fails
      the length test. */
  lemma DoubledMobileDigitLost(a: string, d: char, b: string)
    requires IsDigit(d) && AllDigits(a + [d, d] + b) && |a + [d, d] + b| == 10
    ensures BestMobile(a + [d, d] + b) == None
  {
    var noisy := a + [d, d] + b;
    DigitsAloneAreOneCandidate(noisy, 10);
    OnlyDigitsOfDigits(noisy);
    NormaliseStutter(a, d, b);
    assert |Normalise(noisy)| <= 9;
    assert !Accepts(Mobile, Cleaned(noisy));
  }
}
