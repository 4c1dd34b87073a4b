/** The two pieces of the extraction step that do not talk to the language
    model: unwrapping the JSON payload from the model's answer, and the
    in-place repair of two common field errors in the parsed record. */
module Extractor {
  import opened Wrappers
  import opened Text
  import opened Record
  import opened Validator

  // ---------------------------------------------------------------------
  // Unwrapping the answer

  predicate AllSpaces(s: string) {
    forall i :: 0 <= i < |s| ==> IsSpace(s[i])
  }

  /** `s.lstrip()`: the suffix of `s` after its leading whitespace. */
  function TrimStart(s: string): (r: string)
    ensures |r| <= |s| && r == s[|s| - |r|..]
    ensures AllSpaces(s[..|s| - |r|])
    ensures r == [] || !IsSpace(r[0])
  {
    if s != [] && IsSpace(s[0]) then
      var r := TrimStart(s[1..]);
      var cut := s[..|s| - |r|];
      assert cut == [s[0]] + s[1..][..|s[1..]| - |r|];
      assert forall i :: 1 <= i < |cut| ==> cut[i] == s[1..][..|s[1..]| - |r|][i - 1];
      r
    else s
  }

  /** `s.rstrip()`: the prefix of `s` before its trailing whitespace. */
  function TrimEnd(s: string): (r: string)
    ensures |r| <= |s| && r == s[..|r|]
    ensures AllSpaces(s[|r|..])
    ensures r == [] || !IsSpace(r[|r| - 1])
  {
    if s != [] && IsSpace(s[|s| - 1]) then
      var r := TrimEnd(s[..|s| - 1]);
      var cut := s[|r|..];
      assert cut == s[..|s| - 1][|r|..] + [s[|s| - 1]];
      assert forall i :: 0 <= i < |cut| - 1 ==> cut[i] == s[..|s| - 1][|r|..][i];
      r
    else s
  }

  /** `r` is `s` with whitespace, and only whitespace, cut from both ends. */
  ghost predicate TrimmedFrom(s: string, r: string) {
    exists k: nat :: OccursAt(s, k, r) && AllSpaces(s[..k]) && AllSpaces(s[k + |r|..])
  }

  /** `s.strip()`. */
  function Strip(s: string): (r: string)
    ensures r == [] || (!IsSpace(r[0]) && !IsSpace(r[|r| - 1]))
    ensures TrimmedFrom(s, r)
  {
    var t := TrimStart(s);
    var r := TrimEnd(t);
    assert r != [] ==> r[0] == t[0];
    TrimBothEnds(s, t, r);
    r
  }

  /** Cutting whitespace from the front and then from the back leaves a
      piece of the text with only whitespace around it. */
  lemma TrimBothEnds(s: string, t: string, r: string)
    requires |t| <= |s| && t == s[|s| - |t|..] && AllSpaces(s[..|s| - |t|])
    requires |r| <= |t| && r == t[..|r|] && AllSpaces(t[|r|..])
    ensures TrimmedFrom(s, r)
  {
    var k := |s| - |t|;
    assert s[k..k + |r|] == r;
    assert s[k + |r|..] == t[|r|..];
    assert OccursAt(s, k, r) && AllSpaces(s[..k]) && AllSpaces(s[k + |r|..]);
  }

  /** The number of whitespace characters from position `from` on: what a
      greedy `\s*` consumes (no backtracking can help, since the next
      pattern character is not whitespace). */
  function SpaceRun(s: string, from: nat): (n: nat)
    requires from <= |s|
    ensures from + n <= |s|
    decreases |s| - from
  {
    if from < |s| && IsSpace(s[from]) then 1 + SpaceRun(s, from + 1) else 0
  }

  /** The run `SpaceRun` measures is all whitespace and ends at the end of
      the text or before a non-space. */
  lemma {:induction false} SpaceRunSpan(s: string, from: nat)
    requires from <= |s|
    ensures AllSpaces(s[from..from + SpaceRun(s, from)])
    ensures from + SpaceRun(s, from) == |s| || !IsSpace(s[from + SpaceRun(s, from)])
    decreases |s| - from
  {
    if from < |s| && IsSpace(s[from]) {
      SpaceRunSpan(s, from + 1);
      var n := SpaceRun(s, from);
      assert s[from..from + n] == [s[from]] + s[from + 1..from + n];
    }
  }

  const OpenFence: string := "```json"
  const CloseFence: string := "```"

  /** Where the payload of a fence opened at `i` would start: after
      "```json" and its whitespace. */
  function PayloadStart(raw: string, i: nat): nat
    requires i + |OpenFence| <= |raw|
  {
    i + |OpenFence| + SpaceRun(raw, i + |OpenFence|)
  }

  /** "```json", its whitespace and an opening brace start at `i`. */
  predicate OpensAt(raw: string, i: nat) {
    OccursAt(raw, i, OpenFence) && PayloadStart(raw, i) < |raw| && raw[PayloadStart(raw, i)] == '{'
  }

  /** A closing brace at `e`, then whitespace and "```". */
  predicate ClosesAt(raw: string, e: nat) {
    e < |raw| && raw[e] == '}' && OccursAt(raw, e + 1 + SpaceRun(raw, e + 1), CloseFence)
  }

  /** The pattern "```json\s*(\{.*?\})\s*```" matches at `i` with the
      group ending at the brace at `e`. */
  predicate FenceAt(raw: string, i: nat, e: nat) {
    OpensAt(raw, i) && PayloadStart(raw, i) < e && ClosesAt(raw, e)
  }

  /** The lazy `.*?`: the first position at or after `from` where the
      pattern can close. */
  function LazyClose(raw: string, from: nat): (e: Option<nat>)
    requires from <= |raw|
    ensures e.Some? ==> from <= e.value && ClosesAt(raw, e.value)
    ensures e.Some? ==> forall k :: from <= k < e.value ==> !ClosesAt(raw, k)
    ensures e.None? ==> forall k :: from <= k ==> !ClosesAt(raw, k)
    decreases |raw| - from
  {
    if from == |raw| then None
    else if ClosesAt(raw, from) then Some(from)
    else LazyClose(raw, from + 1)
  }

  /** `re.search`: the leftmost start at or after `i` where the pattern
      matches, with the end of its group. The group is the shortest one
      from that start, and nothing is found exactly when no fence matches. */
  function FindFence(raw: string, i: nat): (r: Option<(nat, nat)>)
    requires i <= |raw|
    ensures r.Some? ==> i <= r.value.0 && FenceAt(raw, r.value.0, r.value.1)
    ensures r.Some? ==> forall k :: r.value.0 <= k < r.value.1 ==> !FenceAt(raw, r.value.0, k)
    ensures r.Some? ==> forall j, k :: i <= j < r.value.0 ==> !FenceAt(raw, j, k)
    ensures r.None? ==> forall j, k :: i <= j ==> !FenceAt(raw, j, k)
    decreases |raw| - i
  {
    if i == |raw| then
      NoFenceAtEnd(raw);
      None
    else if OpensAt(raw, i) then
      match LazyClose(raw, PayloadStart(raw, i) + 1)
      case Some(e) =>
        ShortestGroup(raw, i, e);
        Some((i, e))
      case None =>
        NoFenceAt(raw, i);
        FindFence(raw, i + 1)
    else
      NoFenceAt(raw, i);
      FindFence(raw, i + 1)
  }

  /** No fence starts at the end of the answer. */
  lemma NoFenceAtEnd(raw: string)
    ensures forall j, k :: |raw| <= j ==> !FenceAt(raw, j, k)
  {
  }

  /** No fence starts at `i` when the pattern cannot open or cannot close
      there. */
  lemma NoFenceAt(raw: string, i: nat)
    requires i < |raw|
    requires !OpensAt(raw, i) || LazyClose(raw, PayloadStart(raw, i) + 1).None?
    ensures forall k :: !FenceAt(raw, i, k)
  {
  }

  /** The lazy close gives the shortest group from an opening. */
  lemma ShortestGroup(raw: string, i: nat, e: nat)
    requires i < |raw| && OpensAt(raw, i)
    requires LazyClose(raw, PayloadStart(raw, i) + 1) == Some(e)
    ensures FenceAt(raw, i, e)
    ensures forall k :: i <= k < e ==> !FenceAt(raw, i, k)
  {
  }

  /** The group of the first fence in an (already stripped) answer, or
      the whole answer when there is none. */
  function Unwrap(raw: string): (r: string)
    ensures FindFence(raw, 0).Some? ==> |r| >= 2 && r[0] == '{' && r[|r| - 1] == '}'
    ensures FindFence(raw, 0).None? ==> r == raw
  {
    match FindFence(raw, 0)
    case Some((i, e)) => raw[PayloadStart(raw, i)..e + 1]
    case None => raw
  }

  /** The text handed to `json.loads`. */
  function JsonText(content: string): string {
    Unwrap(Strip(content))
  }

  /** Without a fence anywhere, the parser gets the whole stripped answer. */
  lemma UnfencedAnswerPassedWhole(content: string)
    requires forall i, e :: !FenceAt(Strip(content), i, e)
    ensures JsonText(content) == Strip(content)
  {
  }

  /** Stripping text that neither starts nor ends with whitespace changes
      nothing. */
  lemma StripKeeps(s: string)
    requires s != [] && !IsSpace(s[0]) && !IsSpace(s[|s| - 1])
    ensures Strip(s) == s
  {
    assert TrimStart(s) == s;
    assert TrimEnd(s) == s;
  }

  /** An answer in the shape the prompt asks for: the payload on its own
      line inside a "```json" fence, possibly after some preamble. */
  function Fenced(pre: string, payload: string): string {
    pre + OpenFence + "\n" + payload + "\n" + CloseFence
  }

  /** A whitespace run stops at the first character that is not whitespace. */
  lemma {:induction false} SpaceRunStops(s: string, from: nat, x: nat)
    requires from <= x < |s| && !IsSpace(s[x])
    ensures from + SpaceRun(s, from) <= x
    decreases |s| - from
  {
    if IsSpace(s[from]) {
      SpaceRunStops(s, from + 1, x);
    }
  }

  /** The fence opens right after the preamble, with the payload right after
      the newline. */
  lemma FencedOpens(pre: string, inner: string)
    ensures OpensAt(Fenced(pre, "{" + inner + "}"), |pre|)
    ensures PayloadStart(Fenced(pre, "{" + inner + "}"), |pre|) == |pre| + |OpenFence| + 1
  {
    var raw := Fenced(pre, "{" + inner + "}");
    var o := |pre|;
    assert raw[o..o + |OpenFence|] == OpenFence;
    assert raw[o + |OpenFence|] == '\n' && raw[o + |OpenFence| + 1] == '{';
    assert SpaceRun(raw, o + |OpenFence| + 1) == 0;
  }

  /** The fence closes at the payload's last brace. */
  lemma FencedCloses(pre: string, inner: string)
    ensures ClosesAt(Fenced(pre, "{" + inner + "}"), |pre| + |OpenFence| + |inner| + 2)
  {
    var raw := Fenced(pre, "{" + inner + "}");
    var e := |pre| + |OpenFence| + |inner| + 2;
    assert raw[e] == '}' && raw[e + 1] == '\n' && raw[e + 2] == '`';
    assert SpaceRun(raw, e + 2) == 0;
    assert raw[e + 2..] == CloseFence;
  }

  /** Inside a payload without a backtick nothing closes before the last
      brace: the whitespace after an inner '}' ends at the latest at that
      brace, and "```" cannot start there. */
  lemma FencedClosesOnlyAtEnd(pre: string, inner: string, k: nat)
    requires '`' !in inner
    requires |pre| + |OpenFence| + 2 <= k < |pre| + |OpenFence| + |inner| + 2
    ensures !ClosesAt(Fenced(pre, "{" + inner + "}"), k)
  {
    var raw := Fenced(pre, "{" + inner + "}");
    var b := |pre| + |OpenFence| + 1;
    var e := b + |inner| + 1;
    assert raw[e] == '}';
    SpaceRunStops(raw, k + 1, e);
    var q := k + 1 + SpaceRun(raw, k + 1);
    if q < e {
      assert raw[q] == inner[q - b - 1];
    }
    assert raw[q] != '`';
    if q + |CloseFence| <= |raw| {
      assert raw[q..q + |CloseFence|][0] == raw[q];
    }
  }

  /** No fence opens inside a preamble without a backtick. */
  lemma NoFenceInPreamble(pre: string, payload: string, j: nat)
    requires '`' !in pre && j < |pre|
    ensures !OpensAt(Fenced(pre, payload), j)
  {
    var raw := Fenced(pre, payload);
    assert raw[j] == pre[j];
    if j + |OpenFence| <= |raw| {
      assert raw[j..j + |OpenFence|][0] == raw[j];
    }
  }

  /** The lazy close is the first closing position. */
  lemma LazyCloseIsFirst(raw: string, from: nat, e: nat)
    requires from <= e && ClosesAt(raw, e)
    requires forall k :: from <= k < e ==> !ClosesAt(raw, k)
    ensures LazyClose(raw, from) == Some(e)
  {
  }

  /** The search passes over positions where no fence opens. */
  lemma {:induction false} FindFenceSkipsTo(raw: string, i: nat, m: nat)
    requires i <= m <= |raw|
    requires forall j :: i <= j < m ==> !OpensAt(raw, j)
    ensures FindFence(raw, i) == FindFence(raw, m)
    decreases m - i
  {
    if i < m {
      assert !OpensAt(raw, i);
      FindFenceSkipsTo(raw, i + 1, m);
    }
  }

  /** A fence that opens at `i` and can close is the one found from `i`. */
  lemma FenceAtFound(raw: string, i: nat, e: nat)
    requires i < |raw| && OpensAt(raw, i)
    requires LazyClose(raw, PayloadStart(raw, i) + 1) == Some(e)
    ensures FindFence(raw, i) == Some((i, e))
  {
    var close := LazyClose(raw, PayloadStart(raw, i) + 1);
    assert FindFence(raw, i) == Some((i, close.value));
  }

  /** Unwrapping passes on the group of the fence found, wherever it starts. */
  lemma UnwrapFirstFence(raw: string, i: nat, e: nat)
    requires FindFence(raw, 0) == Some((i, e))
    ensures Unwrap(raw) == raw[PayloadStart(raw, i)..e + 1]
  {
  }

  /** Stated with the pattern alone: when a fence matches from `i` to `e`,
      none starts earlier and none from `i` has a shorter group, the text
      passed on is exactly that group. */
  lemma UnwrapLeftmostShortest(raw: string, i: nat, e: nat)
    requires FenceAt(raw, i, e)
    requires forall j: nat, k: nat :: j < i ==> !FenceAt(raw, j, k)
    requires forall k: nat :: k < e ==> !FenceAt(raw, i, k)
    ensures Unwrap(raw) == raw[PayloadStart(raw, i)..e + 1]
  {
    assert FindFence(raw, 0).Some?;
  }

  /** The payload sits between the newlines of a fenced answer. */
  lemma FencedPayloadSlice(pre: string, inner: string)
    ensures var b := |pre| + |OpenFence| + 1;
      Fenced(pre, "{" + inner + "}")[b..b + |inner| + 2] == "{" + inner + "}"
  {
  }

  /** After the opening of a fenced answer, the lazy close is the payload's
      last brace. */
  lemma FencedLazyClose(pre: string, inner: string)
    requires '`' !in inner
    ensures var b := |pre| + |OpenFence| + 1;
      LazyClose(Fenced(pre, "{" + inner + "}"), b + 1) == Some(b + |inner| + 1)
  {
    var raw := Fenced(pre, "{" + inner + "}");
    var b := |pre| + |OpenFence| + 1;
    var e := b + |inner| + 1;
    FencedCloses(pre, inner);
    forall k | b + 1 <= k < e
      ensures !ClosesAt(raw, k)
    {
      FencedClosesOnlyAtEnd(pre, inner, k);
    }
    LazyCloseIsFirst(raw, b + 1, e);
  }

  /** A fence that opens at `i` and can close is the one found when no
      fence opens before it. */
  lemma FirstOpeningFound(raw: string, i: nat, e: nat)
    requires i < |raw| && OpensAt(raw, i)
    requires LazyClose(raw, PayloadStart(raw, i) + 1) == Some(e)
    requires forall j :: 0 <= j < i ==> !OpensAt(raw, j)
    ensures FindFence(raw, 0) == Some((i, e))
  {
    FindFenceSkipsTo(raw, 0, i);
    FenceAtFound(raw, i, e);
  }

  /** The search finds the fence after the preamble, closing at the
      payload's last brace. */
  lemma FencedFenceFound(pre: string, inner: string)
    requires '`' !in pre && '`' !in inner
    ensures FindFence(Fenced(pre, "{" + inner + "}"), 0) == Some((|pre|, |pre| + |OpenFence| + |inner| + 2))
  {
    var payload := "{" + inner + "}";
    var raw := Fenced(pre, payload);
    FencedOpens(pre, inner);
    FencedLazyClose(pre, inner);
    forall j | 0 <= j < |pre|
      ensures !OpensAt(raw, j)
    {
      NoFenceInPreamble(pre, payload, j);
    }
    FirstOpeningFound(raw, |pre|, |pre| + |OpenFence| + |inner| + 2);
  }

  /** A payload in a json fence, as the prompt asks for, is passed to the
      parser exactly, nested groups included, when neither it nor the text
      before the fence holds a backtick. */
  lemma FencedPayloadUnwrapped(pre: string, inner: string)
    requires '`' !in pre && '`' !in inner
    ensures Unwrap(Fenced(pre, "{" + inner + "}")) == "{" + inner + "}"
    ensures pre == [] || !IsSpace(pre[0]) ==> JsonText(Fenced(pre, "{" + inner + "}")) == "{" + inner + "}"
  {
    var raw := Fenced(pre, "{" + inner + "}");
    var b := |pre| + |OpenFence| + 1;
    FencedFenceFound(pre, inner);
    FencedOpens(pre, inner);
    FencedPayloadSlice(pre, inner);
    UnwrapFirstFence(raw, |pre|, b + |inner| + 1);
    if pre == [] || !IsSpace(pre[0]) {
      assert raw[0] == (if pre == [] then '`' else pre[0]);
      StripKeeps(raw);
    }
  }

  /** A record with a nested group, answered as the prompt asks, reaches the
      parser whole. */
  lemma NestedRecordUnwrapped()
    ensures JsonText(Fenced("", "{\"dateOfBirth\": {\"day\": \"\"}}")) == "{\"dateOfBirth\": {\"day\": \"\"}}"
  {
    var inner := "\"dateOfBirth\": {\"day\": \"\"}";
    assert "{" + inner + "}" == "{\"dateOfBirth\": {\"day\": \"\"}}";
    FencedPayloadUnwrapped("", inner);
  }

  /** A short preamble before the fence is skipped. */
  lemma PreambleSkipped()
    ensures JsonText(Fenced("Here:\n", "{}")) == "{}"
  {
    var pre := "Here:\n";
    assert pre[0] == 'H';
    assert forall c :: c in pre ==> c != '`';
    assert "{" + "" + "}" == "{}";
    FencedPayloadUnwrapped(pre, "");
  }

  // ---------------------------------------------------------------------
  // Repairing common field errors

  /** The ID repair: an ID of exactly eight characters gets a leading zero.
      `len` of a dictionary counts its keys, and '0' + a dictionary raises. */
  function IdRepair(data: map<string, Value>): Result<map<string, Value>> {
    var id := Get(Obj(data), "idNumber", Str(""));
    match id
    case Obj(m) => if |m| == 8 then Raised(TypeError) else Ok(data)
    case Str(s) => if |s| == 8 then Ok(data["idNumber" := Str("0" + s)]) else Ok(data)
  }

  /** The mobile repair: a non-empty number not starting with "05" gets "05"
      put in front, an existing leading zero kept; `.startswith` on a
      dictionary raises. */
  function MobileRepair(data: map<string, Value>): Result<map<string, Value>> {
    var mobile := Get(Obj(data), "mobilePhone", Str(""));
    if !Truthy(mobile) then Ok(data)
    else if mobile.Obj? then Raised(AttributeError)
    else if StartsWith(mobile.s, "05") then Ok(data)
    else Ok(data["mobilePhone" := Str("05" + mobile.s)])
  }

  /** What `correct_common_field_errors` returns or raises. */
  function Corrected(data: map<string, Value>): Result<map<string, Value>> {
    match IdRepair(data)
    case Raised(e) => Raised(e)
    case Ok(fixed) => MobileRepair(fixed)
  }

  /** The dictionary after the call, also when it raised: a raise in the
      mobile repair leaves the ID repair in place. */
  function StateAfterCorrection(data: map<string, Value>): map<string, Value> {
    match IdRepair(data)
    case Raised(_) => data
    case Ok(fixed) => if MobileRepair(fixed).Ok? then MobileRepair(fixed).value else fixed
  }

  /** The record dictionary `json.loads` returned, updated in place. */
  class ExtractedRecord {
    var data: map<string, Value>

    constructor (parsed: map<string, Value>)
      ensures data == parsed
    {
      data := parsed;
    }

    /** `correct_common_field_errors(data)`: returns the same dictionary. */
    method CorrectCommonFieldErrors() returns (r: Result<map<string, Value>>)
      modifies this
      ensures r == Corrected(old(data))
      ensures data == StateAfterCorrection(old(data))
      ensures r.Ok? ==> r.value == data
    {
      var id := Get(Obj(data), "idNumber", Str(""));
      if id.Obj? && |id.fields| == 8 {
        return Raised(TypeError);
      }
      if id.Str? && |id.s| == 8 {
        data := data["idNumber" := Str("0" + id.s)];
      }
      var mobile := Get(Obj(data), "mobilePhone", Str(""));
      if Truthy(mobile) {
        if mobile.Obj? {
          return Raised(AttributeError);
        }
        if !StartsWith(mobile.s, "05") {
          data := data["mobilePhone" := Str("05" + mobile.s)];
        }
      }
      return Ok(data);
    }
  }

  /** An eight-character ID becomes '0' followed by it; any other string ID,
      and an absent one, is left alone. */
  lemma CorrectedId(data: map<string, Value>)
    requires Corrected(data).Ok?
    ensures ("idNumber" in Corrected(data).value) == ("idNumber" in data)
    ensures var id := Get(Obj(data), "idNumber", Str(""));
      Get(Obj(Corrected(data).value), "idNumber", Str("")) ==
        if id.Str? && |id.s| == 8 then Str("0" + id.s) else id
  {
  }

  /** After the repair a non-empty mobile number starts with "05": the old
      number itself if it did, "05" followed by it otherwise; an empty or
      absent number is left alone. */
  lemma CorrectedMobile(data: map<string, Value>)
    requires Corrected(data).Ok?
    ensures ("mobilePhone" in Corrected(data).value) == ("mobilePhone" in data)
    ensures var before := Get(Obj(data), "mobilePhone", Str(""));
      var after := Get(Obj(Corrected(data).value), "mobilePhone", Str(""));
      (!Truthy(before) ==> after == before)
      && (Truthy(before) ==>
            before.Str? && after.Str? && StartsWith(after.s, "05")
            && after.s == if StartsWith(before.s, "05") then before.s else "05" + before.s)
  {
  }

  /** No other field changes, and no field is added or removed. */
  lemma CorrectedFrame(data: map<string, Value>)
    requires Corrected(data).Ok?
    ensures Corrected(data).value.Keys == data.Keys
    ensures forall k :: k in data && k != "idNumber" && k != "mobilePhone" ==>
      Corrected(data).value[k] == data[k]
  {
  }

  /** The repair raises exactly for a dictionary of eight keys as ID
      (`TypeError`) or a non-empty dictionary as mobile number
      (`AttributeError`). */
  lemma CorrectedRaises(data: map<string, Value>)
    ensures Corrected(data).Raised? <==>
      (Get(Obj(data), "idNumber", Str("")).Obj? && |Get(Obj(data), "idNumber", Str("")).fields| == 8)
      || (Get(Obj(data), "mobilePhone", Str("")).Obj? && Truthy(Get(Obj(data), "mobilePhone", Str(""))))
  {
  }

  /** Repairing a repaired record changes nothing. */
  lemma CorrectedIdempotent(data: map<string, Value>)
    requires Corrected(data).Ok?
    ensures Corrected(Corrected(data).value) == Corrected(data)
  {
    var once := Corrected(data).value;
    CorrectedId(data);
    CorrectedMobile(data);
    var mobile := Get(Obj(once), "mobilePhone", Str(""));
    assert Truthy(mobile) ==> StartsWith(mobile.s, "05");
  }

  /** The ID repair never changes the validator's verdict: `_valid_id`
      zero-fills to nine digits anyway. */
  lemma IdRepairKeepsVerdict(s: string)
    requires |s| == 8
    ensures IsValidId("0" + s) == IsValidId(s)
  {
    OnlyDigitsAppend("0", s);
    assert OnlyDigits("0") == "0";
    ZFillLeadingZero(OnlyDigits(s), 9);
  }

  /** A leading zero on a digit string shorter than the width is absorbed
      by the padding. */
  lemma ZFillLeadingZero(t: string, width: nat)
    requires AllDigits(t) && |t| < width
    ensures ZFill("0" + t, width) == ZFill(t, width)
  {
    assert AllDigits("0" + t);
    assert Zeros(width - |t| - 1) + ("0" + t) == Zeros(width - |t|) + t;
  }

  /** An eight-digit mobile number without the "05" prefix becomes a valid
      mobile number. */
  lemma MobileRepairCompletesEightDigits(data: map<string, Value>)
    requires var m := Get(Obj(data), "mobilePhone", Str(""));
      m.Str? && |m.s| == 8 && AllDigits(m.s) && !StartsWith(m.s, "05")
    requires Corrected(data).Ok?
    ensures ValidMobile(Get(Obj(Corrected(data).value), "mobilePhone", Str("")).s)
  {
    var m := Get(Obj(data), "mobilePhone", Str("")).s;
    CorrectedMobile(data);
    var fixed := "05" + m;
    assert Get(Obj(Corrected(data).value), "mobilePhone", Str("")).s == fixed;
    ValidMobileShape(fixed);
    assert fixed[2..] == m;
  }
}
