/** The conditions under which the converter aborts (the source's panics),
    each with the 1-based line it arose on where there is one. */
module Failures {
  datatype Panic =
    | EmptyComment(line: nat)          // a sigil followed by nothing but whitespace
    | FollowWithoutAnchor(line: nat)   // `//~|` before any non-follow annotation
    | AdjustBeyondStart(line: nat)     // more `^` than lines above: usize underflow (overflow-checked builds)
    | BadLineNumber(text: string)      // a stderr line number that is not a usize
    | DirectiveNotFound(line: nat)     // the `expect` in transform_code
}
