/** The resolved annotation (`Error` in errors.rs) and its rendering as a
    DejaGnu directive (`Display for Error`). The shape of the directive is
    `{ dg-error regexp comment { target selector } line }`, as described in
    the GCC internals manual, section "Syntax and Descriptions of test
    directives"; `.-1` in the line field means "one line above this one". */
module ErrorDisplay {
  import opened Wrappers
  import opened Text
  import opened Kinds

  /** One expected diagnostic. `line_num` is the line it is about (usize);
      `relative_line_num` is the signed distance from the annotation's own
      comment line to `line_num`. */
  datatype Error = Error(
    line_num: nat,
    relative_line_num: int,
    kind: Option<RustcErrorKind>,
    msg: string,
    error_code: Option<string>)

  /** The comment line an error was written on. */
  function CommentLine(e: Error): int {
    e.line_num - e.relative_line_num
  }

  /** The DejaGnu directive name for a kind; an unknown kind is an error. */
  function Tag(kind: Option<RustcErrorKind>): (t: string)
    ensures t != [] && ' ' !in t && '"' !in t && '\n' !in t
  {
    match kind
    case Some(Help) => "help"
    case Some(Error) => "dg-error"
    case Some(Note) => "dg-note"
    case Some(Suggestion) => "suggestion"
    case Some(Warning) => "dg-warning"
    case None => "dg-error"
  }

  /** The regexp field: empty without a code (or with an empty one), else the
      code between two dots. */
  function CodeField(code: Option<string>): string
  {
    match code
    case None => ""
    case Some(c) => if c == [] then "" else "." + c + "."
  }

  /** The line field: nothing for the comment's own line, else `.N ` */
  function OffsetField(rel: int): string
  {
    if rel == 0 then "" else "." + IntToString(rel) + " "
  }

  const TargetAll: string := "\" \"\" { target *-*-* } "

  /** `Display for Error`: the fields in order, each after the last, written
      innermost-last so that a reader can take them off the front one by one. */
  function Render(e: Error): string
  {
    "// { " + (Tag(e.kind) + (" \"" + (CodeField(e.error_code) + (TargetAll
      + (OffsetField(e.relative_line_num) + "}")))))
  }

  /** The directive is one line unless the code itself holds a newline. */
  lemma RenderNoNewline(e: Error)
    requires e.error_code.None? || '\n' !in e.error_code.value
    ensures '\n' !in Render(e)
  {
    var n := IntToString(e.relative_line_num);
    assert '\n' !in n by {
      if e.relative_line_num < 0 {
        assert n == "-" + NatToString(-e.relative_line_num);
      }
    }
    assert '\n' !in OffsetField(e.relative_line_num);
    assert '\n' !in TargetAll;
    assert '\n' !in CodeField(e.error_code);
  }

  /** What a DejaGnu reader takes from a directive: its name, its regexp
      field and its line offset (0 when the line field is absent). */
  datatype Directive = Directive(name: string, pattern: string, offset: int)

  predicate NotSpace(c: char) { c != ' ' }
  predicate NotQuote(c: char) { c != '"' }

  /** Reads a directive of the shape `Display for Error` writes. */
  function ReadDirective(s: string): Option<Directive>
  {
    if |s| < 5 || s[..5] != "// { " then None else ReadName(s[5..])
  }

  function ReadName(s: string): Option<Directive>
  {
    var t := SpanFrom(s, 0, NotSpace);
    var rest := s[t..];
    if |rest| < 2 || rest[..2] != " \"" then None else ReadPattern(s[..t], rest[2..])
  }

  function ReadPattern(name: string, s: string): Option<Directive>
  {
    var p := SpanFrom(s, 0, NotQuote);
    ReadLine(name, s[..p], s[p..])
  }

  function ReadLine(name: string, pattern: string, s: string): Option<Directive>
  {
    if |s| < |TargetAll| || s[..|TargetAll|] != TargetAll then None
    else match ReadOffset(s[|TargetAll|..])
      case Some(n) => Some(Directive(name, pattern, n))
      case None => None
  }

  /** The line field and the closing brace: `}` alone, or `.N }` with N not 0. */
  function ReadOffset(s: string): Option<int>
  {
    if s == "}" then Some(0)
    else if |s| >= 3 && s[0] == '.' && s[|s| - 2..] == " }" then
      match ParseInt(s[1..|s| - 2])
      case Some(n) => if n != 0 then Some(n) else None
      case None => None
    else None
  }

  lemma ReadOffsetOfField(rel: int)
    ensures ReadOffset(OffsetField(rel) + "}") == Some(rel)
  {
    if rel != 0 {
      var s := OffsetField(rel) + "}";
      var n := IntToString(rel);
      assert s == "." + n + " }";
      assert s[1..|s| - 2] == n;
      IntToStringRoundTrip(rel);
    }
  }

  lemma ReadLineOfFields(name: string, pattern: string, rel: int)
    ensures ReadLine(name, pattern, TargetAll + (OffsetField(rel) + "}")) == Some(Directive(name, pattern, rel))
  {
    var s := TargetAll + (OffsetField(rel) + "}");
    assert s[..|TargetAll|] == TargetAll;
    assert s[|TargetAll|..] == OffsetField(rel) + "}";
    ReadOffsetOfField(rel);
  }

  /** The regexp field runs up to the first quote. */
  lemma ReadPatternOf(name: string, cf: string, rest: string)
    requires '"' !in cf && rest != [] && rest[0] == '"'
    ensures ReadPattern(name, cf + rest) == ReadLine(name, cf, rest)
  {
    SpanOfConcat(cf, rest, NotQuote);
    assert (cf + rest)[..|cf|] == cf && (cf + rest)[|cf|..] == rest;
  }

  lemma ReadPatternOfFields(name: string, cf: string, rel: int)
    requires '"' !in cf
    ensures ReadPattern(name, cf + (TargetAll + (OffsetField(rel) + "}"))) == Some(Directive(name, cf, rel))
  {
    var rest := TargetAll + (OffsetField(rel) + "}");
    assert rest[0] == TargetAll[0] == '"';
    ReadPatternOf(name, cf, rest);
    ReadLineOfFields(name, cf, rel);
  }

  /** The name runs up to the first space, which opens the regexp field. */
  lemma ReadNameOf(tag: string, tail: string)
    requires tag != [] && ' ' !in tag
    ensures ReadName(tag + (" \"" + tail)) == ReadPattern(tag, tail)
  {
    var rest := " \"" + tail;
    SpanOfConcat(tag, rest, NotSpace);
    assert (tag + rest)[..|tag|] == tag && (tag + rest)[|tag|..] == rest;
    assert rest[..2] == " \"" && rest[2..] == tail;
  }

  /** Rendering loses nothing: the directive reads back as the error's tag,
      its code field and its relative line number. */
  lemma RenderReadsBack(e: Error)
    requires e.error_code.None? || '"' !in e.error_code.value
    ensures ReadDirective(Render(e)) == Some(Directive(Tag(e.kind), CodeField(e.error_code), e.relative_line_num))
  {
    var tag := Tag(e.kind);
    var cf := CodeField(e.error_code);
    var tail := cf + (TargetAll + (OffsetField(e.relative_line_num) + "}"));
    var s := Render(e);
    assert '"' !in cf by {
      if e.error_code.Some? && e.error_code.value != [] {
        assert cf == "." + e.error_code.value + ".";
      }
    }
    assert s[..5] == "// { " && s[5..] == tag + (" \"" + tail);
    ReadNameOf(tag, tail);
    ReadPatternOfFields(tag, cf, e.relative_line_num);
  }
}
