/** `transform_code`: the test file re-emitted line by line, with each header
    line swapped for its prepared DejaGnu header and each annotation's
    directive written at the annotation's own comment line. */
module Transform {
  import opened Wrappers
  import opened Text
  import opened Sigil
  import opened ErrorDisplay
  import opened Failures
  import opened Stderr
  import opened Annotations
  import Kinds

  /** A prepared header (`HeaderLine` in header.rs): the 1-based line it
      belongs to and its DejaGnu form. */
  datatype HeaderLine = HeaderLine(line_number: nat, dejagnu_header: string)

  /** The first header entry at or after index `i` for line `n`. */
  function HeaderFrom(headers: seq<HeaderLine>, n: nat, i: nat): (r: Option<nat>)
    requires i <= |headers|
    ensures r.None? ==> forall k :: i <= k < |headers| ==> headers[k].line_number != n
    ensures r.Some? ==> i <= r.value < |headers| && headers[r.value].line_number == n
                        && forall k :: i <= k < r.value ==> headers[k].line_number != n
    decreases |headers| - i
  {
    if i == |headers| then None
    else if headers[i].line_number == n then Some(i)
    else HeaderFrom(headers, n, i + 1)
  }

  /** The first error at or after index `i` whose comment line is `n`. */
  function KeyedFrom(errors: seq<Error>, n: nat, i: nat): (r: Option<nat>)
    requires i <= |errors|
    ensures r.None? ==> forall k :: i <= k < |errors| ==> CommentLine(errors[k]) != n
    ensures r.Some? ==> i <= r.value < |errors| && CommentLine(errors[r.value]) == n
                        && forall k :: i <= k < r.value ==> CommentLine(errors[k]) != n
    decreases |errors| - i
  {
    if i == |errors| then None
    else if CommentLine(errors[i]) == n then Some(i)
    else KeyedFrom(errors, n, i + 1)
  }

  /** The output for line `n` (1-based) of the input. A header line takes the
      first header entry for it, or stays as it is. Any other line takes the
      first error whose comment line it is: the whole line becomes the
      directive when the error is about another line; otherwise the code
      before the sigil is kept and the directive appended. */
  function RewriteLine(isHeader: string -> bool, headers: seq<HeaderLine>, errors: seq<Error>,
                       n: nat, line: string): (r: Result<string, Panic>)
    ensures r.Failure? <==>
      && !isHeader(line) && KeyedFrom(errors, n, 0).Some?
      && errors[KeyedFrom(errors, n, 0).value].relative_line_num == 0
      && FindSigil(line).None?
    ensures r.Failure? ==> r.error == DirectiveNotFound(n)
    ensures isHeader(line) && HeaderFrom(headers, n, 0).None? ==> r == Success(line)
    ensures isHeader(line) && HeaderFrom(headers, n, 0).Some? ==>
      r == Success(headers[HeaderFrom(headers, n, 0).value].dejagnu_header)
    ensures !isHeader(line) && KeyedFrom(errors, n, 0).None? ==> r == Success(line)
  {
    if isHeader(line) then Success(HeaderRewrite(headers, n, line))
    else ErrorRewrite(errors, n, line)
  }

  function HeaderRewrite(headers: seq<HeaderLine>, n: nat, line: string): string
  {
    match HeaderFrom(headers, n, 0)
    case None => line
    case Some(h) => headers[h].dejagnu_header
  }

  function ErrorRewrite(errors: seq<Error>, n: nat, line: string): Result<string, Panic>
  {
    match KeyedFrom(errors, n, 0)
    case None => Success(line)
    case Some(k) =>
      var e := errors[k];
      if e.relative_line_num != 0 then Success(Render(e))
      else
        match FindSigil(line)
        case None => Failure(DirectiveNotFound(n))
        case Some(m) => Success(line[..m.start] + Render(e))
  }

  /** A line keyed by an error ends with that error's directive. The
      directive says how far the error's line is from the line it sits on,
      so DejaGnu reads it as being about the error's line; the code before
      it is the line's text up to the leftmost sigil, or nothing. */
  lemma RewriteLinePlacesDirective(isHeader: string -> bool, headers: seq<HeaderLine>,
                                   errors: seq<Error>, n: nat, line: string)
    requires !isHeader(line) && KeyedFrom(errors, n, 0).Some?
    requires RewriteLine(isHeader, headers, errors, n, line).Success?
    ensures var e := errors[KeyedFrom(errors, n, 0).value];
            var out := RewriteLine(isHeader, headers, errors, n, line).value;
      && |Render(e)| <= |out| && out[|out| - |Render(e)|..] == Render(e)
      && (e.relative_line_num != 0 ==> out == Render(e))
      && (e.relative_line_num == 0 ==>
            FindSigil(line).Some? && out[..|out| - |Render(e)|] == line[..FindSigil(line).value.start])
      && ((e.error_code.None? || '"' !in e.error_code.value) ==>
            ReadDirective(Render(e)).Some? && n + ReadDirective(Render(e)).value.offset == e.line_num)
  {
    var e := errors[KeyedFrom(errors, n, 0).value];
    var out := RewriteLine(isHeader, headers, errors, n, line).value;
    var d := Render(e);
    if e.relative_line_num == 0 {
      var pre := line[..FindSigil(line).value.start];
      assert out == pre + d;
      assert out[|out| - |d|..] == d && out[..|out| - |d|] == pre;
    } else {
      assert out == d;
      assert out[|out| - |d|..] == d;
    }
    if e.error_code.None? || '"' !in e.error_code.value {
      RenderReadsBack(e);
    }
  }

  /** The output lines for the first `k` input lines, or the first panic. */
  function RewriteAll(isHeader: string -> bool, headers: seq<HeaderLine>, errors: seq<Error>,
                      lines: seq<string>, k: nat): Result<seq<string>, Panic>
    requires k <= |lines|
  {
    if k == 0 then Success([])
    else match RewriteAll(isHeader, headers, errors, lines, k - 1)
      case Failure(p) => Failure(p)
      case Success(outs) =>
        match RewriteLine(isHeader, headers, errors, k, lines[k - 1])
        case Failure(p) => Failure(p)
        case Success(l) => Success(outs + [l])
  }

  /** One output line per input line, each the rewrite of its input line;
      the rewrite fails exactly when one of the lines does. */
  lemma {:induction false} RewriteAllSpec(isHeader: string -> bool, headers: seq<HeaderLine>,
                                          errors: seq<Error>, lines: seq<string>, k: nat)
    requires k <= |lines|
    ensures RewriteAll(isHeader, headers, errors, lines, k).Success? <==>
      forall i :: 0 <= i < k ==> RewriteLine(isHeader, headers, errors, i + 1, lines[i]).Success?
    ensures RewriteAll(isHeader, headers, errors, lines, k).Success? ==>
      var outs := RewriteAll(isHeader, headers, errors, lines, k).value;
      |outs| == k && forall i :: 0 <= i < k ==>
        RewriteLine(isHeader, headers, errors, i + 1, lines[i]) == Success(outs[i])
  {
    if k > 0 {
      RewriteAllSpec(isHeader, headers, errors, lines, k - 1);
      var prev := RewriteAll(isHeader, headers, errors, lines, k - 1);
      var cur := RewriteAll(isHeader, headers, errors, lines, k);
      if prev.Success? && RewriteLine(isHeader, headers, errors, k, lines[k - 1]).Success? {
        var outs := cur.value;
        assert outs == prev.value + [RewriteLine(isHeader, headers, errors, k, lines[k - 1]).value];
        forall i | 0 <= i < k
          ensures RewriteLine(isHeader, headers, errors, i + 1, lines[i]) == Success(outs[i])
        {
          if i < k - 1 { assert outs[i] == prev.value[i]; }
        }
      }
    }
  }

  /** The rewrite of one more line, as the loop of `transform_code` takes it. */
  lemma RewriteAllNext(isHeader: string -> bool, headers: seq<HeaderLine>, errors: seq<Error>,
                       lines: seq<string>, k: nat, outs: seq<string>)
    requires k < |lines| && RewriteAll(isHeader, headers, errors, lines, k) == Success(outs)
    ensures var r := RewriteLine(isHeader, headers, errors, k + 1, lines[k]);
      RewriteAll(isHeader, headers, errors, lines, k + 1)
        == (if r.Failure? then Failure(r.error) else Success(outs + [r.value]))
  {
  }

  /** Once a line panics, so does every longer prefix, with the same panic. */
  lemma {:induction false} RewriteAllFailurePersists(isHeader: string -> bool, headers: seq<HeaderLine>,
                                                     errors: seq<Error>, lines: seq<string>, k: nat, n: nat)
    requires k <= n <= |lines| && RewriteAll(isHeader, headers, errors, lines, k).Failure?
    ensures RewriteAll(isHeader, headers, errors, lines, n) == RewriteAll(isHeader, headers, errors, lines, k)
    decreases n - k
  {
    if k < n {
      RewriteAllFailurePersists(isHeader, headers, errors, lines, k, n - 1);
    }
  }

  /** The whole of `transform_code` as a value: `load_error`, then every line
      rewritten and followed by a `\n`. */
  function TransformSpec(code: string, stderr: Option<seq<Capture>>, headers: seq<HeaderLine>,
                         isHeader: string -> bool): Result<string, Panic>
  {
    match LoadSpec(code, stderr)
    case Failure(p) => Failure(p)
    case Success(errors) =>
      match RewriteAll(isHeader, headers, errors, Lines(code), |Lines(code)|)
      case Failure(p) => Failure(p)
      case Success(outs) => Success(JoinLines(outs))
  }

  /** A line keyed by an error holds a sigil: it is the line that error
      was parsed from. */
  lemma KeyedLineHasSigil(lines: seq<string>, errors: seq<Error>, n: nat)
    requires OnSigilLines(lines, errors) && 1 <= n <= |lines| && KeyedFrom(errors, n, 0).Some?
    ensures FindSigil(lines[n - 1]).Some?
  {
    var k := KeyedFrom(errors, n, 0).value;
    assert CommentLine(errors[k]) == n;
  }

  /** The `expect` in `transform_code` never fires: whenever `load_error`
      succeeds, a line keyed by an error with offset 0 is the very line that
      error was parsed from, so the sigil search finds the sigil again. */
  lemma DirectiveAlwaysFound(code: string, stderr: Option<seq<Capture>>, headers: seq<HeaderLine>,
                             isHeader: string -> bool)
    requires LoadSpec(code, stderr).Success?
    ensures TransformSpec(code, stderr, headers, isHeader).Success?
  {
    var lines := Lines(code);
    var errors := LoadSpec(code, stderr).value;
    LoadedOnSigilLines(code, stderr);
    forall i | 0 <= i < |lines| ensures RewriteLine(isHeader, headers, errors, i + 1, lines[i]).Success? {
      var key := KeyedFrom(errors, i + 1, 0);
      if key.Some? && errors[key.value].relative_line_num == 0 {
        KeyedLineHasSigil(lines, errors, i + 1);
      }
    }
    RewriteAllSpec(isHeader, headers, errors, lines, |lines|);
  }

  /** No rewritten line holds a `\n` when the line, the header texts and the
      error codes hold none. */
  lemma RewriteLineNoNewline(isHeader: string -> bool, headers: seq<HeaderLine>, errors: seq<Error>,
                             n: nat, line: string)
    requires '\n' !in line
    requires forall h :: 0 <= h < |headers| ==> '\n' !in headers[h].dejagnu_header
    requires forall k :: 0 <= k < |errors| ==> errors[k].error_code.None? || '\n' !in errors[k].error_code.value
    requires RewriteLine(isHeader, headers, errors, n, line).Success?
    ensures '\n' !in RewriteLine(isHeader, headers, errors, n, line).value
  {
    var out := RewriteLine(isHeader, headers, errors, n, line).value;
    if !isHeader(line) && KeyedFrom(errors, n, 0).Some? {
      var e := errors[KeyedFrom(errors, n, 0).value];
      RenderNoNewline(e);
      if e.relative_line_num == 0 {
        var pre := line[..FindSigil(line).value.start];
        assert '\n' !in pre by {
          forall c | 0 <= c < |pre| ensures pre[c] != '\n' { assert pre[c] == line[c]; }
        }
        assert out == pre + Render(e);
      }
    }
  }

  /** The output has one line per input line, and each, read back with
      `str::lines`, is the rewrite of the input line with the same number,
      with a final `\r` dropped. */
  lemma TransformLines(code: string, stderr: Option<seq<Capture>>, headers: seq<HeaderLine>,
                       isHeader: string -> bool)
    requires forall h :: 0 <= h < |headers| ==> '\n' !in headers[h].dejagnu_header
    requires TransformSpec(code, stderr, headers, isHeader).Success?
    ensures var lines := Lines(code);
            var errors := LoadSpec(code, stderr).value;
            var out := Lines(TransformSpec(code, stderr, headers, isHeader).value);
      && |out| == |lines|
      && forall i :: 0 <= i < |lines| ==>
           RewriteLine(isHeader, headers, errors, i + 1, lines[i]).Success?
           && out[i] == StripCarriageReturn(RewriteLine(isHeader, headers, errors, i + 1, lines[i]).value)
  {
    var lines := Lines(code);
    var errors := LoadSpec(code, stderr).value;
    LoadSpecKeepsScan(code, stderr);
    RewriteAllSpec(isHeader, headers, errors, lines, |lines|);
    var outs := RewriteAll(isHeader, headers, errors, lines, |lines|).value;
    assert TransformSpec(code, stderr, headers, isHeader).value == JoinLines(outs);
    forall i | 0 <= i < |outs| ensures '\n' !in outs[i] {
      RewriteLineNoNewline(isHeader, headers, errors, i + 1, lines[i]);
    }
    LinesOfJoinLinesStrip(outs);
    assert Lines(JoinLines(outs)) == StripAll(outs);
  }

  /** The annotation line of the source's own test. */
  const ExampleLine: string := "//~^ ERROR " + "expected one of `:`, `@`, " + "or `|`, found `)`"

  /** What `load_error` makes of that line: an error one line up, of kind
      `Error`, with the rest of the line as its message. */
  const ExampleError: Error :=
    ErrorDisplay.Error(0, -1, Some(Kinds.RustcErrorKind.Error), ExampleLine[11..], None)

  lemma ExampleLines()
    ensures Lines(ExampleLine) == [ExampleLine]
  {
    assert '\n' !in "//~^ ERROR ";
    assert '\n' !in "expected one of `:`, `@`, ";
    assert '\n' !in "or `|`, found `)`";
    assert IndexOf(ExampleLine, '\n') == None;
  }

  lemma ExampleSigil()
    ensures FindSigil(ExampleLine) == Some(SigilMatch(0, 4, false, 1))
  {
    var code := ExampleLine;
    assert code[0] == '/' && code[1] == '/' && code[2] == '~' && code[3] == '^' && code[4] == ' ';
    assert TildeAt(code, 2) == Some(2);
    assert IsCaret(code[3]) && !IsCaret(code[4]);
    SpanFromAt(code, 3, 4, IsCaret);
    assert MatchAt(code, 0) == Some(SigilMatch(0, 4, false, 1));
  }

  lemma ExampleWords()
    ensures WordFrom(ExampleLine, 4) == Some((5, 10)) && ExampleLine[5..10] == "ERROR"
    ensures TrimFrom(ExampleLine, 10) == (11, |ExampleLine|)
  {
    var code := ExampleLine;
    assert code[4] == ' ' && code[10] == ' ' && code[11] == 'e';
    assert code[|code| - 1] == '`';
    assert code[5..10] == "ERROR";
    assert forall k :: 5 <= k < 10 ==> NotWhitespace(code[k]);
    SpanFromAt(code, 4, 5, IsWhitespace);
    SpanFromAt(code, 5, 10, NotWhitespace);
    SpanFromAt(code, 10, 11, IsWhitespace);
    SpanBackAt(code, |code|, |code|, IsWhitespace);
  }

  lemma ExampleParse()
    ensures ParseExpected(None, 1, ExampleLine) == Success(Some((AdjustBackward(1), ExampleError)))
  {
    var code := ExampleLine;
    var m := SigilMatch(0, 4, false, 1);
    ExampleSigil();
    ExampleWords();
    Kinds.FromStrAcceptsKeywords(Kinds.RustcErrorKind.Error, "ERROR");
    var kind := Some(Kinds.RustcErrorKind.Error);
    assert Kinds.FromStr(code[5..10]) == kind;
    assert code[11..|code|] == code[11..];
    assert Place(None, 1, m, kind, code[11..|code|]) == Success(Some((AdjustBackward(1), ExampleError)));
  }

  lemma ExampleFields()
    ensures Tag(ExampleError.kind) == "dg-error" && CodeField(ExampleError.error_code) == ""
    ensures OffsetField(ExampleError.relative_line_num) == ".-1 "
  {
    assert NatToString(1) == "1";
    assert IntToString(-1) == "-1";
  }

  lemma ExampleRender()
    ensures Render(ExampleError) == "// { dg-error \"\" " + "\"\" { target *-*-* } .-1 }"
  {
    ExampleFields();
    var head := "// { " + "dg-error" + " \"" + "";
    assert head == "// { dg-error \"";
    assert TargetAll == "\" " + "\"\" { target *-*-* } ";
    assert head + "\" " == "// { dg-error \"\" ";
    assert "\"\" { target *-*-* } " + ".-1 " + "}" == "\"\" { target *-*-* } .-1 }";
    calc {
      Render(ExampleError);
      head + TargetAll + ".-1 " + "}";
      (head + "\" ") + ("\"\" { target *-*-* } " + ".-1 " + "}");
      "// { dg-error \"\" " + "\"\" { target *-*-* } .-1 }";
    }
  }

  /** A one-line file whose annotation is about another line becomes that
      annotation's directive alone. */
  lemma TransformOneLine(text: string, which: WhichLine, e: Error, headers: seq<HeaderLine>,
                         isHeader: string -> bool)
    requires Lines(text) == [text] && !isHeader(text)
    requires ParseExpected(None, 1, text) == Success(Some((which, e)))
    requires e.relative_line_num != 0
    ensures TransformSpec(text, None, headers, isHeader) == Success(Render(e) + "\n")
  {
    ScanNext([text], 0);
    assert [text][0] == text;
    assert Scan([text], 1) == Success(ScanState([] + [e], if which.FollowPrevious? then None else Some(0)));
    assert [] + [e] == [e];
    assert LoadSpec(text, None) == Success([e]);
    RewriteOneLine(text, e, headers, isHeader);
    assert |Lines(text)| == 1;
    assert RewriteAll(isHeader, headers, [e], Lines(text), |Lines(text)|) == Success([Render(e)]);
    JoinLinesAppend([], Render(e));
    assert [] + [Render(e)] == [Render(e)];
    assert JoinLines([Render(e)]) == Render(e) + "\n";
  }

  lemma RewriteOneLine(text: string, e: Error, headers: seq<HeaderLine>, isHeader: string -> bool)
    requires !isHeader(text) && CommentLine(e) == 1 && e.relative_line_num != 0
    ensures RewriteAll(isHeader, headers, [e], [text], 1) == Success([Render(e)])
  {
    assert KeyedFrom([e], 1, 0) == Some(0);
    assert ErrorRewrite([e], 1, text) == Success(Render(e));
    assert [text][0] == text;
    assert RewriteLine(isHeader, headers, [e], 1, text) == Success(Render(e));
    RewriteAllNext(isHeader, headers, [e], [text], 0, []);
    assert [] + [Render(e)] == [Render(e)];
  }

  /** The example of the source's own test: a `//~^ ERROR` annotation with
      no transcript becomes a `dg-error` directive about the line above. */
  lemma TransformExample(headers: seq<HeaderLine>, isHeader: string -> bool)
    requires !isHeader(ExampleLine)
    ensures TransformSpec(ExampleLine, None, headers, isHeader)
         == Success("// { dg-error \"\" " + "\"\" { target *-*-* } .-1 }" + "\n")
  {
    ExampleLines();
    ExampleParse();
    TransformOneLine(ExampleLine, AdjustBackward(1), ExampleError, headers, isHeader);
    ExampleRender();
  }

  /** The search of the header list for the current line, stopping at the
      first entry for it. */
  method HeaderLoop(headers: seq<HeaderLine>, line_num: nat, line: string) returns (new_line: string)
    ensures new_line == HeaderRewrite(headers, line_num, line)
  {
    new_line := line;
    for i := 0 to |headers|
      invariant HeaderFrom(headers, line_num, 0) == HeaderFrom(headers, line_num, i)
      invariant new_line == line
    {
      if headers[i].line_number != line_num {
        continue;
      }
      new_line := headers[i].dejagnu_header;
      break;
    }
  }

  /** The search of the errors for the first one keyed to the current line,
      and the rewrite it makes. */
  method ErrorLoop(errors: seq<Error>, line_num: nat, line: string) returns (r: Result<string, Panic>)
    ensures r == ErrorRewrite(errors, line_num, line)
  {
    var new_line := line;
    for i := 0 to |errors|
      invariant KeyedFrom(errors, line_num, 0) == KeyedFrom(errors, line_num, i)
    {
      var error := errors[i];
      if error.line_num - error.relative_line_num != line_num {
        continue;
      }
      if error.relative_line_num != 0 {
        new_line := Render(error);
      } else {
        var captures := FindSigil(line);
        if captures.None? {
          return Failure(DirectiveNotFound(line_num));
        }
        var before_match := line[..captures.value.start];
        new_line := before_match + Render(error);
      }
      return Success(new_line);
    }
    return Success(new_line);
  }

  /** The loop of `transform_code` over the lines, building the new text. */
  method RewriteCode(lines: seq<string>, errors: seq<Error>, additional_options: seq<HeaderLine>,
                     isHeader: string -> bool) returns (r: Result<string, Panic>)
    ensures r == (match RewriteAll(isHeader, additional_options, errors, lines, |lines|)
                  case Failure(p) => Failure(p)
                  case Success(outs) => Success(JoinLines(outs)))
  {
    var new_code := "";
    ghost var outs: seq<string> := [];
    var line_num := 1;
    for k := 0 to |lines|
      invariant line_num == k + 1
      invariant RewriteAll(isHeader, additional_options, errors, lines, k) == Success(outs)
      invariant new_code == JoinLines(outs)
    {
      var line := lines[k];
      RewriteAllNext(isHeader, additional_options, errors, lines, k, outs);
      var new_line := line;
      if isHeader(line) {
        new_line := HeaderLoop(additional_options, line_num, line);
      } else {
        var rewritten := ErrorLoop(errors, line_num, line);
        if rewritten.Failure? {
          RewriteAllFailurePersists(isHeader, additional_options, errors, lines, k + 1, |lines|);
          return Failure(rewritten.error);
        }
        new_line := rewritten.value;
      }
      JoinLinesAppend(outs, new_line);
      outs := outs + [new_line];
      new_code := new_code + new_line + "\n";
      line_num := line_num + 1;
    }
    return Success(new_code);
  }

  /** `transform_code`; the header predicate and the prepared header list are
      given (`is_header_line` and `parse_additional_options` are not part of
      this model). */
  method TransformCode(code: string, stderr_file: Option<seq<Capture>>, additional_options: seq<HeaderLine>,
                       isHeader: string -> bool) returns (r: Result<string, Panic>)
    ensures r == TransformSpec(code, stderr_file, additional_options, isHeader)
  {
    var errors := LoadError(code, stderr_file);
    if errors.Failure? {
      return Failure(errors.error);
    }
    r := RewriteCode(Lines(code), errors.value, additional_options, isHeader);
  }
}
