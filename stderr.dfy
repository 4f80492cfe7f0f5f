/** Error codes recovered from a `.stderr` transcript: the `is_error_code`
    filter and the record list of `parse_error_code`, and the loop of
    `load_error` that copies codes onto the parsed annotations. */
module Stderr {
  import opened Wrappers
  import opened Text
  import opened Failures
  import opened ErrorDisplay

  /** The three named groups of one match of the transcript pattern, as text. */
  datatype Capture = Capture(error_code: string, error_message_detail: string, line_number: string)

  /** One diagnostic of the transcript. */
  datatype StderrResult = StderrResult(error_code: string, error_message_detail: string, line_number: nat)

  /** One more than the largest `usize` (64-bit targets). */
  const UsizeLimit: nat := 0x1_0000_0000_0000_0000

  /** `^E\d{4}$`: an `E` and four decimal digits, nothing else. */
  function IsErrorCode(s: string): (b: bool)
    ensures b ==> |s| == 5 && s[0] == 'E' && '"' !in s && '\n' !in s
  {
    |s| == 5 && s[0] == 'E' && forall i :: 1 <= i < 5 ==> IsDigit(s[i])
  }

  /** `str::parse::<usize>`: an optional `+` and at least one decimal digit,
      with a value below 2^64. */
  function ParseUsize(s: string): (r: Option<nat>)
    ensures r.Some? ==> r.value < UsizeLimit
  {
    var digits := if |s| > 0 && s[0] == '+' then s[1..] else s;
    if digits != [] && (forall i :: 0 <= i < |digits| ==> IsDigit(digits[i]))
       && ParseDigits(digits) < UsizeLimit
    then Some(ParseDigits(digits))
    else None
  }

  /** Every usize reads back from its decimal form. */
  lemma ParseUsizeOfNatToString(n: nat)
    requires n < UsizeLimit
    ensures ParseUsize(NatToString(n)) == Some(n)
  {
    ParseDigitsOfNatToString(n);
  }

  /** The captures with a well-formed code, in transcript order. */
  function Kept(caps: seq<Capture>): (r: seq<Capture>)
    ensures forall c :: c in r <==> c in caps && IsErrorCode(c.error_code)
  {
    if caps == [] then []
    else Kept(caps[..|caps| - 1]) + (if IsErrorCode(caps[|caps| - 1].error_code) then [caps[|caps| - 1]] else [])
  }

  /** A well-formed capture is kept at the position given by the number of
      well-formed captures before it, so the filter keeps transcript order. */
  lemma {:induction false} KeptAt(caps: seq<Capture>, j: nat)
    requires j < |caps| && IsErrorCode(caps[j].error_code)
    ensures |Kept(caps[..j])| < |Kept(caps)| && Kept(caps)[|Kept(caps[..j])|] == caps[j]
  {
    var init := caps[..|caps| - 1];
    if j == |caps| - 1 {
      assert init == caps[..j];
    } else {
      assert init[..j] == caps[..j];
      KeptAt(init, j);
    }
  }

  /** A capture that passes the code filter but whose line number is not a
      `usize`: the `expect` in `parse_error_code` fires on it. */
  predicate BadLine(c: Capture) {
    IsErrorCode(c.error_code) && ParseUsize(c.line_number).None?
  }

  /** The records `parse_error_code` returns: the captures with a well-formed
      code, in order, each with its parsed line number; a kept capture whose
      line number does not parse aborts. `KeepRecordsFailure` and
      `KeepRecordsKept` state what is kept and when it aborts. */
  function KeepRecords(caps: seq<Capture>): (r: Result<seq<StderrResult>, Panic>)
    ensures r.Success? ==> forall j :: 0 <= j < |r.value| ==> IsErrorCode(r.value[j].error_code)
  {
    if caps == [] then Success([])
    else
      var c := caps[|caps| - 1];
      match KeepRecords(caps[..|caps| - 1])
      case Failure(p) => Failure(p)
      case Success(rs) =>
        if !IsErrorCode(c.error_code) then Success(rs)
        else match ParseUsize(c.line_number)
          case None => Failure(BadLineNumber(c.line_number))
          case Some(n) => Success(rs + [StderrResult(c.error_code, c.error_message_detail, n)])
  }

  /** Record `j` is the `j`-th well-formed capture with its own code, detail
      and parsed line number. */
  predicate RecordsOf(kept: seq<Capture>, recs: seq<StderrResult>) {
    |recs| == |kept| && forall j :: 0 <= j < |recs| ==>
      && recs[j].error_code == kept[j].error_code
      && recs[j].error_message_detail == kept[j].error_message_detail
      && ParseUsize(kept[j].line_number) == Some(recs[j].line_number)
  }

  /** The filter fails exactly when some well-formed capture has a line
      number that does not parse, and the panic names the first one. */
  lemma {:induction false} KeepRecordsFailure(caps: seq<Capture>)
    ensures KeepRecords(caps).Failure? <==> exists j :: 0 <= j < |caps| && BadLine(caps[j])
    ensures KeepRecords(caps).Failure? ==>
      exists j :: 0 <= j < |caps| && BadLine(caps[j]) && (forall k :: 0 <= k < j ==> !BadLine(caps[k]))
                  && KeepRecords(caps).error == BadLineNumber(caps[j].line_number)
  {
    if caps != [] {
      var n := |caps| - 1;
      var init := caps[..n];
      KeepRecordsFailure(init);
      assert forall j :: 0 <= j < n ==> init[j] == caps[j];
      if KeepRecords(init).Failure? {
        var j :| 0 <= j < n && BadLine(init[j]) && (forall k :: 0 <= k < j ==> !BadLine(init[k]))
                 && KeepRecords(init).error == BadLineNumber(init[j].line_number);
        assert BadLine(caps[j]);
      } else {
        assert forall j :: 0 <= j < n ==> !BadLine(caps[j]);
      }
    }
  }

  /** On success the records are the well-formed captures, in order, each
      with its own code, detail and parsed line number. */
  lemma {:induction false} KeepRecordsKept(caps: seq<Capture>)
    requires KeepRecords(caps).Success?
    ensures RecordsOf(Kept(caps), KeepRecords(caps).value)
  {
    if caps != [] {
      var n := |caps| - 1;
      var c := caps[n];
      var init := caps[..n];
      KeepRecordsKept(init);
      var rs := KeepRecords(init).value;
      if IsErrorCode(c.error_code) {
        var rec := StderrResult(c.error_code, c.error_message_detail, ParseUsize(c.line_number).value);
        assert KeepRecords(caps).value == rs + [rec];
        assert Kept(caps) == Kept(init) + [c];
      } else {
        assert Kept(caps) == Kept(init);
      }
    }
  }

  /** `parse_error_code` after its pattern match: keep the captures whose code
      passes `is_error_code`, parsing their line numbers. */
  method ParseErrorCode(caps: seq<Capture>) returns (r: Result<seq<StderrResult>, Panic>)
    ensures r == KeepRecords(caps)
  {
    var results: seq<StderrResult> := [];
    for k := 0 to |caps|
      invariant KeepRecords(caps[..k]) == Success(results)
    {
      assert caps[..k + 1][..k] == caps[..k];
      var c := caps[k];
      if !IsErrorCode(c.error_code) {
        continue;
      }
      var line := ParseUsize(c.line_number);
      if line.None? {
        KeepRecordsFailurePersists(caps, k + 1);
        return Failure(BadLineNumber(c.line_number));
      }
      results := results + [StderrResult(c.error_code, c.error_message_detail, line.value)];
    }
    assert caps[..|caps|] == caps;
    r := Success(results);
  }

  /** Once a prefix of the captures aborts, the whole list does, the same way. */
  lemma {:induction false} KeepRecordsFailurePersists(caps: seq<Capture>, k: nat)
    requires k <= |caps| && KeepRecords(caps[..k]).Failure?
    ensures KeepRecords(caps) == KeepRecords(caps[..k])
    decreases |caps| - k
  {
    if k < |caps| {
      assert caps[..k + 1][..k] == caps[..k];
      KeepRecordsFailurePersists(caps, k + 1);
    } else {
      assert caps[..k] == caps;
    }
  }

  /** The loop's match test: same line, or same message. */
  predicate Matches(line_num: nat, msg: string, rec: StderrResult) {
    line_num == rec.line_number || msg == rec.error_message_detail
  }

  /** The code of the last record that matches, in scan order. */
  function LastMatchingCode(line_num: nat, msg: string, recs: seq<StderrResult>): (r: Option<string>)
    ensures r.None? <==> forall j :: 0 <= j < |recs| ==> !Matches(line_num, msg, recs[j])
    ensures r.Some? ==> exists j :: 0 <= j < |recs| && Matches(line_num, msg, recs[j])
                          && recs[j].error_code == r.value
                          && forall j' :: j < j' < |recs| ==> !Matches(line_num, msg, recs[j'])
  {
    if recs == [] then None
    else if Matches(line_num, msg, recs[|recs| - 1]) then Some(recs[|recs| - 1].error_code)
    else LastMatchingCode(line_num, msg, recs[..|recs| - 1])
  }

  /** An error after the loop over the records: the last matching code, or
      the code it had. */
  function WithCode(e: Error, recs: seq<StderrResult>): Error
  {
    match LastMatchingCode(e.line_num, e.msg, recs)
    case None => e
    case Some(c) => e.(error_code := Some(c))
  }

  /** Every error after code enrichment; only `error_code` can change. */
  function Enrich(errors: seq<Error>, recs: seq<StderrResult>): (r: seq<Error>)
    ensures |r| == |errors| && forall i :: 0 <= i < |r| ==> r[i] == WithCode(errors[i], recs)
    ensures forall i :: 0 <= i < |r| ==> r[i] == errors[i].(error_code := r[i].error_code)
    ensures forall i :: 0 <= i < |r| ==>
      r[i].error_code == (match LastMatchingCode(errors[i].line_num, errors[i].msg, recs)
                          case None => errors[i].error_code
                          case Some(c) => Some(c))
  {
    if errors == [] then [] else [WithCode(errors[0], recs)] + Enrich(errors[1..], recs)
  }

  /** The nested loop of `load_error` that fills in codes, in place. */
  method FillErrorCodes(errors: seq<Error>, recs: seq<StderrResult>) returns (r: seq<Error>)
    ensures r == Enrich(errors, recs)
  {
    r := errors;
    for i := 0 to |r|
      invariant |r| == |errors|
      invariant forall k :: 0 <= k < i ==> r[k] == WithCode(errors[k], recs)
      invariant forall k :: i <= k < |r| ==> r[k] == errors[k]
    {
      for j := 0 to |recs|
        invariant |r| == |errors|
        invariant r[i] == WithCode(errors[i], recs[..j])
        invariant forall k :: 0 <= k < i ==> r[k] == WithCode(errors[k], recs)
        invariant forall k :: i < k < |r| ==> r[k] == errors[k]
      {
        assert recs[..j + 1][..j] == recs[..j];
        if r[i].line_num == recs[j].line_number || r[i].msg == recs[j].error_message_detail {
          r := r[i := r[i].(error_code := Some(recs[j].error_code))];
        }
      }
      assert recs[..|recs|] == recs;
    }
  }
}
