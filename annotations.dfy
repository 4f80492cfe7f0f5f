/** Reading annotations out of a test file: `parse_expected` for one line and
    the single pass of `load_error` that threads the last non-follow anchor
    from line to line, followed by the optional code enrichment. */
module Annotations {
  import opened Wrappers
  import opened Text
  import opened Kinds
  import opened Sigil
  import opened ErrorDisplay
  import opened Failures
  import opened Stderr

  /** How the annotation's sigil placed it. */
  datatype WhichLine = ThisLine | FollowPrevious(anchor: nat) | AdjustBackward(carets: nat)

  /** The text after the sigil. */
  function Payload(line: string, m: SigilMatch): string
    requires m.end <= |line|
  {
    line[m.end..]
  }

  /** The message left once a recognised severity word is cut off the front. */
  function Message(payload: string, word: string, kind: Option<RustcErrorKind>): string
    requires |word| <= |TrimStart(payload)|
  {
    Trim(if kind.Some? then TrimStart(payload)[|word|..] else payload)
  }

  /** The placement half of `parse_expected`: a `|` sigil takes the line of
      the last non-follow annotation and panics without one; otherwise each
      caret moves the error one line up, and more carets than lines above
      underflow. */
  function Place(last_nonfollow: Option<nat>, line_num: nat, m: SigilMatch,
                 kind: Option<RustcErrorKind>, msg: string)
    : (r: Result<Option<(WhichLine, Error)>, Panic>)
    ensures r.Success? ==> r.value.Some? && CommentLine(r.value.value.1) == line_num
  {
    if m.follow then
      match last_nonfollow
      case None => Failure(FollowWithoutAnchor(line_num))
      case Some(anchor) =>
        Success(Some((FollowPrevious(anchor), ErrorDisplay.Error(anchor, anchor - line_num, kind, msg, None))))
    else if m.adjusts > line_num then Failure(AdjustBeyondStart(line_num))
    else
      var which := if m.adjusts > 0 then AdjustBackward(m.adjusts) else ThisLine;
      Success(Some((which, ErrorDisplay.Error(line_num - m.adjusts, -(m.adjusts as int), kind, msg, None))))
  }

  /** `parse_expected`: `Success(None)` for a line without a sigil, the placement
      and the error for an annotation, and the panic the source would raise.
      The severity word and the message are located by position in the line;
      `ParseExpectedText` shows they are what `split_whitespace` and `trim`
      give on the text after the sigil. */
  function ParseExpected(last_nonfollow: Option<nat>, line_num: nat, line: string)
    : (r: Result<Option<(WhichLine, Error)>, Panic>)
    ensures r == Success(None) <==> FindSigil(line).None?
    ensures r.Success? && r.value.Some? ==>
      && CommentLine(r.value.value.1) == line_num
      && r.value.value.1.error_code.None?
      && (r.value.value.0.FollowPrevious? <==> FindSigil(line).value.follow)
  {
    match FindSigil(line)
    case None => Success(None)
    case Some(m) =>
      match WordFrom(line, m.end)
      case None => Failure(EmptyComment(line_num))
      case Some((a, b)) =>
        var kind := FromStr(line[a..b]);
        var bounds := TrimFrom(line, if kind.Some? then b else m.end);
        Place(last_nonfollow, line_num, m, kind, line[bounds.0..bounds.1])
  }

  /** The three ways an annotation line aborts: only whitespace after the sigil, a
      `|` with no anchor, or more carets than lines above. */
  lemma ParseExpectedFailures(last_nonfollow: Option<nat>, line_num: nat, line: string)
    requires FindSigil(line).Some?
    ensures var m := FindSigil(line).value;
            var r := ParseExpected(last_nonfollow, line_num, line);
      && (r == Failure(EmptyComment(line_num)) <==> AllWhitespace(Payload(line, m)))
      && (r == Failure(FollowWithoutAnchor(line_num)) <==>
            !AllWhitespace(Payload(line, m)) && m.follow && last_nonfollow.None?)
      && (r == Failure(AdjustBeyondStart(line_num)) <==>
            !AllWhitespace(Payload(line, m)) && !m.follow && m.adjusts > line_num)
      && (r.Success? <==> !AllWhitespace(Payload(line, m))
                          && (m.follow ==> last_nonfollow.Some?)
                          && (!m.follow ==> m.adjusts <= line_num))
  {
    var m := FindSigil(line).value;
    WordFromIsFirstWord(line, m.end);
    FirstWordSpec(Payload(line, m));
  }

  /** A follow annotation takes the anchor index as its line, and the signed
      distance from its own line to that index as its relative line number. */
  lemma ParseExpectedFollow(last_nonfollow: Option<nat>, line_num: nat, line: string)
    requires ParseExpected(last_nonfollow, line_num, line).Success?
    requires FindSigil(line).Some? && FindSigil(line).value.follow
    ensures var which := ParseExpected(last_nonfollow, line_num, line).value.value.0;
            var e := ParseExpected(last_nonfollow, line_num, line).value.value.1;
      last_nonfollow.Some? && which == FollowPrevious(last_nonfollow.value)
      && e.line_num == last_nonfollow.value
      && e.relative_line_num == last_nonfollow.value - line_num
  {
  }

  /** An annotation with k carets on line L is about line L - k, and its
      relative line number is -k. */
  lemma ParseExpectedAdjust(last_nonfollow: Option<nat>, line_num: nat, line: string)
    requires ParseExpected(last_nonfollow, line_num, line).Success?
    requires FindSigil(line).Some? && !FindSigil(line).value.follow
    ensures var which := ParseExpected(last_nonfollow, line_num, line).value.value.0;
            var e := ParseExpected(last_nonfollow, line_num, line).value.value.1;
            var k := FindSigil(line).value.adjusts;
      k <= line_num && e.line_num == line_num - k && e.relative_line_num == -(k as int)
      && which == (if k == 0 then ThisLine else AdjustBackward(k))
  {
  }

  /** On the text after the sigil, the word and the message that
      `ParseExpected` locates by position are the first word of that text and
      its `Message`, whatever kind the word names. */
  lemma WordAndMessageOfTail(line: string, i: nat, kind: Option<RustcErrorKind>)
    requires i <= |line| && WordFrom(line, i).Some?
    ensures var a := WordFrom(line, i).value.0;
            var b := WordFrom(line, i).value.1;
            var bounds := TrimFrom(line, if kind.Some? then b else i);
      FirstWord(line[i..]) == Some(line[a..b])
      && Message(line[i..], line[a..b], kind) == line[bounds.0..bounds.1]
  {
    WordFromIsFirstWord(line, i);
    var b := WordFrom(line, i).value.1;
    if kind.Some? {
      AfterWordOfTail(line, i);
      TrimFromIsTrim(line, b);
    } else {
      TrimFromIsTrim(line, i);
    }
  }

  /** Cutting the first word off the trimmed text after position `i` leaves
      the line from the word's end. */
  lemma AfterWordOfTail(line: string, i: nat)
    requires i <= |line| && WordFrom(line, i).Some?
    ensures WordFrom(line, i).value.1 - WordFrom(line, i).value.0 <= |TrimStart(line[i..])|
    ensures TrimStart(line[i..])[WordFrom(line, i).value.1 - WordFrom(line, i).value.0..]
            == line[WordFrom(line, i).value.1..]
  {
    var a := WordFrom(line, i).value.0;
    var b := WordFrom(line, i).value.1;
    var t := TrimStart(line[i..]);
    assert t == line[a..] by {
      TrimStartFrom(line, i);
    }
    DropOfDrop(line, a, b);
  }

  /** The kind comes from the first word after the sigil, and the message is
      the rest of the text, trimmed. */
  lemma ParseExpectedText(last_nonfollow: Option<nat>, line_num: nat, line: string)
    requires ParseExpected(last_nonfollow, line_num, line).Success?
    requires FindSigil(line).Some?
    ensures var e := ParseExpected(last_nonfollow, line_num, line).value.value.1;
            var payload := Payload(line, FindSigil(line).value);
      FirstWord(payload).Some?
      && e.kind == FromStr(FirstWord(payload).value)
      && e.msg == Message(payload, FirstWord(payload).value, e.kind)
  {
    var m := FindSigil(line).value;
    var a := WordFrom(line, m.end).value.0;
    var b := WordFrom(line, m.end).value.1;
    var kind := FromStr(line[a..b]);
    var bounds := TrimFrom(line, if kind.Some? then b else m.end);
    var e := ParseExpected(last_nonfollow, line_num, line).value.value.1;
    assert e.kind == kind && e.msg == line[bounds.0..bounds.1];
    WordAndMessageOfTail(line, m.end, kind);
  }

  /** A recognised severity word is removed and nothing else: the trimmed
      payload is the word, some whitespace and the message. Without one the
      message is the whole trimmed payload, which begins with its first word. */
  lemma MessageOfPayload(payload: string, word: string)
    requires FirstWord(payload) == Some(word)
    ensures FromStr(word).Some? ==>
      exists g :: AllWhitespace(g) && Trim(payload) == word + g + Message(payload, word, FromStr(word))
    ensures FromStr(word).None? ==>
      Message(payload, word, None) == Trim(payload) && |word| <= |Trim(payload)|
      && Trim(payload)[..|word|] == word
  {
    TrimAfterFirstWord(payload, word);
    if FromStr(word).None? {
      var g :| AllWhitespace(g) && Trim(payload) == word + g + Trim(TrimStart(payload)[|word|..]);
      assert Trim(payload)[..|word|] == word;
    }
  }

  /** What the pass over the lines carries: the errors so far and the
      zero-based index of the last non-follow annotation line. */
  datatype ScanState = ScanState(errors: seq<Error>, last_nonfollow: Option<nat>)

  /** The first `n` lines of the pass in `load_error`. */
  function Scan(lines: seq<string>, n: nat): Result<ScanState, Panic>
    requires n <= |lines|
  {
    if n == 0 then Success(ScanState([], None))
    else match Scan(lines, n - 1)
      case Failure(p) => Failure(p)
      case Success(st) =>
        match ParseExpected(st.last_nonfollow, n, lines[n - 1])
        case Failure(p) => Failure(p)
        case Success(None) => Success(st)
        case Success(Some((which, e))) =>
          Success(ScanState(st.errors + [e], if which.FollowPrevious? then st.last_nonfollow else Some(n - 1)))
  }

  /** A line whose sigil is `~` or `~^...`, not `~|`. */
  predicate IsAnchorLine(line: string) {
    FindSigil(line).Some? && !FindSigil(line).value.follow
  }

  /** The zero-based index of the last anchor line among the first `n`. */
  function LastAnchor(lines: seq<string>, n: nat): (r: Option<nat>)
    requires n <= |lines|
    ensures r.Some? ==> r.value < n && IsAnchorLine(lines[r.value])
                        && forall k :: r.value < k < n ==> !IsAnchorLine(lines[k])
    ensures r.None? ==> forall k :: 0 <= k < n ==> !IsAnchorLine(lines[k])
  {
    if n == 0 then None
    else if IsAnchorLine(lines[n - 1]) then Some(n - 1)
    else LastAnchor(lines, n - 1)
  }

  /** The 1-based numbers of the lines among the first `n` that hold a sigil. */
  function SigilLines(lines: seq<string>, n: nat): seq<nat>
    requires n <= |lines|
  {
    if n == 0 then []
    else SigilLines(lines, n - 1) + (if FindSigil(lines[n - 1]).Some? then [n] else [])
  }

  /** The numbers listed are increasing, and they are exactly the numbers of
      the lines with a sigil. */
  lemma {:induction false} SigilLinesSpec(lines: seq<string>, n: nat)
    requires n <= |lines|
    ensures forall k1, k2 :: 0 <= k1 < k2 < |SigilLines(lines, n)| ==>
              SigilLines(lines, n)[k1] < SigilLines(lines, n)[k2]
    ensures forall k :: 0 <= k < |SigilLines(lines, n)| ==> 1 <= SigilLines(lines, n)[k] <= n
    ensures forall l :: 1 <= l <= n ==> (l in SigilLines(lines, n) <==> FindSigil(lines[l - 1]).Some?)
  {
    if n > 0 {
      SigilLinesSpec(lines, n - 1);
      var prev := SigilLines(lines, n - 1);
      var ls := SigilLines(lines, n);
      assert n !in prev by {
        forall k | 0 <= k < |prev| ensures prev[k] != n { }
      }
      if FindSigil(lines[n - 1]).Some? {
        assert ls == prev + [n];
        forall k | 0 <= k < |ls| ensures 1 <= ls[k] <= n {
          if k < |prev| { assert ls[k] == prev[k]; }
        }
        forall k1, k2 | 0 <= k1 < k2 < |ls| ensures ls[k1] < ls[k2] {
          assert ls[k1] == prev[k1];
          if k2 < |prev| { assert ls[k2] == prev[k2]; }
        }
        forall l | 1 <= l <= n ensures l in ls <==> FindSigil(lines[l - 1]).Some? {
          assert l in ls <==> l in prev || l == n;
        }
      } else {
        assert ls == prev;
        forall l | 1 <= l <= n ensures l in ls <==> FindSigil(lines[l - 1]).Some? {
          if l == n { assert l !in ls; }
        }
      }
    }
  }

  /** The comment line of each error, in order. */
  function CommentLines(errors: seq<Error>): (ls: seq<int>)
    ensures |ls| == |errors| && forall k :: 0 <= k < |errors| ==> ls[k] == CommentLine(errors[k])
  {
    if errors == [] then [] else [CommentLine(errors[0])] + CommentLines(errors[1..])
  }

  /** The anchor carried by a successful pass is the index of the last anchor
      line: only non-follow annotations move it, and consecutive `|` lines
      share it. */
  lemma {:induction false} ScanAnchor(lines: seq<string>, n: nat)
    requires n <= |lines| && Scan(lines, n).Success?
    ensures Scan(lines, n).value.last_nonfollow == LastAnchor(lines, n)
  {
    if n > 0 {
      ScanAnchor(lines, n - 1);
    }
  }

  lemma CommentLinesAppend(errors: seq<Error>, e: Error)
    ensures CommentLines(errors + [e]) == CommentLines(errors) + [CommentLine(e)]
  {
    assert forall k :: 0 <= k < |errors| ==> (errors + [e])[k] == errors[k];
  }

  /** A successful pass yields one error per annotated line, in file order,
      each placed at its own comment line. */
  lemma {:induction false} ScanCommentLines(lines: seq<string>, n: nat)
    requires n <= |lines| && Scan(lines, n).Success?
    ensures CommentLines(Scan(lines, n).value.errors) == SigilLines(lines, n)
  {
    if n > 0 {
      ScanStep(lines, n);
      ScanCommentLines(lines, n - 1);
      var st := Scan(lines, n - 1).value;
      var p := ParseExpected(st.last_nonfollow, n, lines[n - 1]);
      var es := Scan(lines, n).value.errors;
      if FindSigil(lines[n - 1]).Some? {
        assert es == st.errors + [p.value.value.1];
        assert CommentLine(p.value.value.1) == n;
        CommentLinesAppend(st.errors, p.value.value.1);
      } else {
        assert es == st.errors;
      }
    }
  }

  /** `e` is what `parse_expected` makes of line `l` (1-based), given the
      last anchor line above it. */
  predicate ParsesTo(lines: seq<string>, l: int, e: Error)
  {
    1 <= l <= |lines|
    && match ParseExpected(LastAnchor(lines, l - 1), l, lines[l - 1])
       case Success(Some((_, e'))) => e' == e
       case _ => false
  }

  /** Each error of a successful pass is what `parse_expected` makes of its
      comment line, given the last anchor line above it. */
  lemma {:induction false} ScanErrorIsParse(lines: seq<string>, n: nat, j: nat)
    requires n <= |lines| && Scan(lines, n).Success? && j < |Scan(lines, n).value.errors|
    ensures CommentLine(Scan(lines, n).value.errors[j]) <= n
    ensures ParsesTo(lines, CommentLine(Scan(lines, n).value.errors[j]), Scan(lines, n).value.errors[j])
  {
    ScanStep(lines, n);
    var st := Scan(lines, n - 1).value;
    var p := ParseExpected(st.last_nonfollow, n, lines[n - 1]);
    var es := Scan(lines, n).value.errors;
    if j < |st.errors| {
      ScanErrorIsParse(lines, n - 1, j);
      assert es[j] == st.errors[j];
    } else {
      ScanAnchor(lines, n - 1);
      assert es[j] == p.value.value.1;
    }
  }

  /** The pass over one more line, as `load_error`'s loop body takes it. */
  lemma ScanNext(lines: seq<string>, n: nat)
    requires n < |lines| && Scan(lines, n).Success?
    ensures var st := Scan(lines, n).value;
            var p := ParseExpected(st.last_nonfollow, n + 1, lines[n]);
      && (p.Failure? ==> Scan(lines, n + 1) == Failure(p.error))
      && (p == Success(None) ==> Scan(lines, n + 1) == Scan(lines, n))
      && (p.Success? && p.value.Some? ==>
            Scan(lines, n + 1) == Success(ScanState(st.errors + [p.value.value.1],
              if p.value.value.0.FollowPrevious? then st.last_nonfollow else Some(n))))
  {
  }

  /** One line of the pass: the errors before it, plus the one its
      annotation makes, if any. */
  lemma ScanStep(lines: seq<string>, n: nat)
    requires 0 < n <= |lines| && Scan(lines, n).Success?
    ensures Scan(lines, n - 1).Success?
    ensures var st := Scan(lines, n - 1).value;
            var p := ParseExpected(st.last_nonfollow, n, lines[n - 1]);
      && p.Success?
      && Scan(lines, n).value.errors == st.errors + (if p.value.Some? then [p.value.value.1] else [])
  {
  }

  /** With the anchor at least two lines up, a follow annotation's offset is
      at most -2, and a zero offset means a `//~` with no carets about its
      own line. */
  lemma ParseExpectedOffset(last_nonfollow: Option<nat>, line_num: nat, line: string)
    requires ParseExpected(last_nonfollow, line_num, line).Success?
    requires ParseExpected(last_nonfollow, line_num, line).value.Some?
    requires last_nonfollow.Some? ==> last_nonfollow.value + 2 <= line_num
    ensures FindSigil(line).Some?
    ensures var e := ParseExpected(last_nonfollow, line_num, line).value.value.1;
            var m := FindSigil(line).value;
      && (m.follow ==> e.relative_line_num <= -2)
      && (e.relative_line_num == 0 <==> !m.follow && m.adjusts == 0)
      && (e.relative_line_num == 0 ==> e.line_num == line_num)
  {
    if FindSigil(line).value.follow {
      ParseExpectedFollow(last_nonfollow, line_num, line);
    } else {
      ParseExpectedAdjust(last_nonfollow, line_num, line);
    }
  }

  /** A follow annotation lies at least two lines below the line its anchor
      index names, so its relative line number is at most -2 and never 0. */
  lemma FollowOffsetBelowMinusOne(lines: seq<string>, l: int, e: Error)
    requires ParsesTo(lines, l, e)
    ensures FindSigil(lines[l - 1]).Some?
    ensures FindSigil(lines[l - 1]).value.follow ==> e.relative_line_num <= -2
  {
    var last := LastAnchor(lines, l - 1);
    assert ParseExpected(last, l, lines[l - 1]).value.value.1 == e;
    ParseExpectedOffset(last, l, lines[l - 1]);
  }

  /** An error whose relative line number is 0 came from a `//~` with no
      adjustment on its own comment line. */
  lemma ZeroOffsetIsThisLine(lines: seq<string>, l: int, e: Error)
    requires ParsesTo(lines, l, e) && e.relative_line_num == 0
    ensures e.line_num == l && FindSigil(lines[l - 1]).Some?
            && !FindSigil(lines[l - 1]).value.follow && FindSigil(lines[l - 1]).value.adjusts == 0
  {
    var last := LastAnchor(lines, l - 1);
    assert ParseExpected(last, l, lines[l - 1]).value.value.1 == e;
    ParseExpectedOffset(last, l, lines[l - 1]);
  }

  /** Every error names, as its comment line, a line on which the sigil
      search succeeds. */
  predicate OnSigilLines(lines: seq<string>, errors: seq<Error>) {
    forall k :: 0 <= k < |errors| ==>
      1 <= CommentLine(errors[k]) <= |lines| && FindSigil(lines[CommentLine(errors[k]) - 1]).Some?
  }

  /** Errors whose comment lines are the sigil lines sit on lines with a
      sigil. */
  lemma SigilCommentLines(lines: seq<string>, errors: seq<Error>)
    requires CommentLines(errors) == SigilLines(lines, |lines|)
    ensures OnSigilLines(lines, errors)
  {
    SigilLinesSpec(lines, |lines|);
    forall k | 0 <= k < |errors|
      ensures 1 <= CommentLine(errors[k]) <= |lines| && FindSigil(lines[CommentLine(errors[k]) - 1]).Some?
    {
      assert CommentLines(errors)[k] == CommentLine(errors[k]);
      assert CommentLine(errors[k]) in SigilLines(lines, |lines|);
    }
  }

  /** Every error `load_error` returns sits on a line with a sigil: the pass
      yields one error per sigil line, and the code enrichment changes
      neither line numbers nor offsets. */
  lemma LoadedOnSigilLines(text: string, stderr: Option<seq<Capture>>)
    requires LoadSpec(text, stderr).Success?
    ensures OnSigilLines(Lines(text), LoadSpec(text, stderr).value)
  {
    var lines := Lines(text);
    var out := LoadSpec(text, stderr).value;
    LoadSpecKeepsScan(text, stderr);
    var es := Scan(lines, |lines|).value.errors;
    assert OnSigilLines(lines, es) by {
      ScanCommentLines(lines, |lines|);
      SigilCommentLines(lines, es);
    }
    forall k | 0 <= k < |out|
      ensures 1 <= CommentLine(out[k]) <= |lines| && FindSigil(lines[CommentLine(out[k]) - 1]).Some?
    {
      assert CommentLine(out[k]) == CommentLine(es[k]);
    }
  }

  /** Once the pass aborts it stays aborted, with the same panic. */
  lemma {:induction false} ScanFailurePersists(lines: seq<string>, k: nat, n: nat)
    requires k <= n <= |lines| && Scan(lines, k).Failure?
    ensures Scan(lines, n) == Scan(lines, k)
    decreases n - k
  {
    if k < n {
      ScanFailurePersists(lines, k, n - 1);
    }
  }

  /** A `//~|` with no anchor line above it aborts the whole pass, unless an
      earlier line already did. */
  lemma {:induction false} FollowWithoutAnchorAborts(lines: seq<string>, l: nat, n: nat)
    requires 1 <= l <= n <= |lines|
    requires FindSigil(lines[l - 1]).Some? && FindSigil(lines[l - 1]).value.follow
    requires !AllWhitespace(Payload(lines[l - 1], FindSigil(lines[l - 1]).value))
    requires LastAnchor(lines, l - 1).None?
    ensures Scan(lines, n).Failure?
  {
    if Scan(lines, l - 1).Success? {
      ScanAnchor(lines, l - 1);
    }
    ScanFailurePersists(lines, l, n);
  }

  /** The whole of `load_error` as a value. */
  function LoadSpec(text: string, stderr: Option<seq<Capture>>): Result<seq<Error>, Panic>
  {
    var lines := Lines(text);
    match Scan(lines, |lines|)
    case Failure(p) => Failure(p)
    case Success(st) =>
      match stderr
      case None => Success(st.errors)
      case Some(caps) =>
        match KeepRecords(caps)
        case Failure(p) => Failure(p)
        case Success(recs) => Success(Enrich(st.errors, recs))
  }

  /** One iteration of `load_error`'s loop: parse line `n + 1` and record
      the error and the new anchor. */
  method ScanLine(lines: seq<string>, n: nat, st: ScanState) returns (r: Result<ScanState, Panic>)
    requires n < |lines| && Scan(lines, n) == Success(st)
    ensures r == Scan(lines, n + 1)
  {
    var parsed := ParseExpected(st.last_nonfollow, n + 1, lines[n]);
    ScanNext(lines, n);
    match parsed
    case Failure(p) => return Failure(p);
    case Success(None) => return Success(st);
    case Success(Some(found)) =>
      var last_unfollow_error := st.last_nonfollow;
      if !found.0.FollowPrevious? {
        last_unfollow_error := Some(n);
      }
      return Success(ScanState(st.errors + [found.1], last_unfollow_error));
  }

  /** The loop of `load_error` over the lines of the test file. */
  method ScanLines(lines: seq<string>) returns (r: Result<ScanState, Panic>)
    ensures r == Scan(lines, |lines|)
  {
    var st := ScanState([], None);
    for line_num := 0 to |lines|
      invariant Scan(lines, line_num) == Success(st)
    {
      var next := ScanLine(lines, line_num, st);
      if next.Failure? {
        ScanFailurePersists(lines, line_num + 1, |lines|);
        return next;
      }
      st := next.value;
    }
    return Success(st);
  }

  /** `load_error`: one pass over the lines threading the last non-follow
      anchor, then, with a transcript, the code enrichment. */
  method LoadError(text_file: string, stderr_file: Option<seq<Capture>>) returns (r: Result<seq<Error>, Panic>)
    ensures r == LoadSpec(text_file, stderr_file)
  {
    var lines := Lines(text_file);
    var scanned := ScanLines(lines);
    if scanned.Failure? {
      return Failure(scanned.error);
    }
    var errors := scanned.value.errors;
    if stderr_file.None? {
      return Success(errors);
    }
    var error_code_stderr := ParseErrorCode(stderr_file.value);
    if error_code_stderr.Failure? {
      return Failure(error_code_stderr.error);
    }
    errors := FillErrorCodes(errors, error_code_stderr.value);
    return Success(errors);
  }

  /** Without a transcript no error carries a code. */
  lemma NoStderrNoCodes(text: string)
    requires LoadSpec(text, None).Success?
    ensures forall e :: e in LoadSpec(text, None).value ==> e.error_code.None?
  {
    var lines := Lines(text);
    forall e | e in LoadSpec(text, None).value ensures e.error_code.None? {
      var j :| 0 <= j < |Scan(lines, |lines|).value.errors| && Scan(lines, |lines|).value.errors[j] == e;
      ScanErrorIsParse(lines, |lines|, j);
    }
  }

  /** The errors `load_error` returns are those of the pass over the lines,
      in the same order; the enrichment changes codes only, and every code
      it sets is a well-formed one. */
  lemma LoadSpecKeepsScan(text: string, stderr: Option<seq<Capture>>)
    requires LoadSpec(text, stderr).Success?
    ensures var lines := Lines(text);
      Scan(lines, |lines|).Success?
      && var es := Scan(lines, |lines|).value.errors;
         var out := LoadSpec(text, stderr).value;
         |out| == |es|
         && (forall k :: 0 <= k < |out| ==> out[k] == es[k].(error_code := out[k].error_code))
         && (forall k :: 0 <= k < |out| ==> out[k].error_code.None? || IsErrorCode(out[k].error_code.value))
  {
    var lines := Lines(text);
    var es := Scan(lines, |lines|).value.errors;
    var out := LoadSpec(text, stderr).value;
    forall k | 0 <= k < |es| ensures es[k].error_code.None? {
      ScanErrorIsParse(lines, |lines|, k);
    }
    if stderr.Some? {
      var recs := KeepRecords(stderr.value).value;
      assert out == Enrich(es, recs);
      forall k | 0 <= k < |out| ensures out[k].error_code.None? || IsErrorCode(out[k].error_code.value) {
        var c := LastMatchingCode(es[k].line_num, es[k].msg, recs);
        if c.Some? {
          var j :| 0 <= j < |recs| && Matches(es[k].line_num, es[k].msg, recs[j]) && recs[j].error_code == c.value
                   && forall j' :: j < j' < |recs| ==> !Matches(es[k].line_num, es[k].msg, recs[j']);
          assert IsErrorCode(recs[j].error_code);
        }
      }
    }
  }
}
