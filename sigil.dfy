/** The annotation sigil: a hand-written scanner for the pattern
    `//(?:\[(?P<revs>[\w\-,]+)])?~(?P<adjust>\||\^*)` that parse_expected and
    transform_code search each line for, with the leftmost-first semantics of
    Rust's `regex` crate: the earliest start wins, the bracketed revision
    group is tried before skipping it, `|` before `^*`, and `^*` is greedy. */
module Sigil {
  import opened Wrappers
  import opened Text

  /** A match: where it starts and ends, whether the adjust group is `|`
      (a follow annotation) and how many `^` it holds. */
  datatype SigilMatch = SigilMatch(start: nat, end: nat, follow: bool, adjusts: nat)

  /** `[\w\-,]` over ASCII. */
  predicate IsRevChar(c: char) { IsWordChar(c) || c == '-' || c == ',' }

  predicate IsCaret(c: char) { c == '^' }

  /** The optional `[revs]` group: absent, or a bracketed non-empty list. */
  predicate IsRevGroup(g: string) {
    g == [] || (|g| >= 3 && g[0] == '[' && g[|g| - 1] == ']'
                && forall i :: 1 <= i < |g| - 1 ==> IsRevChar(g[i]))
  }

  /** The adjust group: `|`, or any number of `^`. */
  predicate IsAdjust(a: string) {
    a == "|" || forall i :: 0 <= i < |a| ==> a[i] == '^'
  }

  /** `s` as a whole is in the language of the pattern. */
  predicate InPattern(s: string) {
    |s| >= 3 && s[0] == '/' && s[1] == '/'
    && exists t :: 2 <= t < |s| && s[t] == '~' && IsRevGroup(s[2..t]) && IsAdjust(s[t + 1..])
  }

  /** Where the `~` is when the text from `j` on starts with `~` or `[revs]~`. */
  function TildeAt(line: string, j: nat): (r: Option<nat>)
    ensures r.Some? ==> j <= r.value < |line| && line[r.value] == '~'
  {
    if j < |line| && line[j] == '~' then Some(j)
    else if j < |line| && line[j] == '[' then
      var e := SpanFrom(line, j + 1, IsRevChar);
      if e > j + 1 && e + 1 < |line| && line[e] == ']' && line[e + 1] == '~' then Some(e + 1)
      else None
    else None
  }

  /** What precedes the `~` that `TildeAt` finds is a revision group. */
  lemma TildeAtRevGroup(line: string, j: nat)
    requires TildeAt(line, j).Some?
    ensures IsRevGroup(line[j..TildeAt(line, j).value])
  {
    var t := TildeAt(line, j).value;
    if t > j {
      var g := line[j..t];
      assert g[0] == '[' && g[|g| - 1] == ']';
      assert forall i :: 1 <= i < |g| - 1 ==> g[i] == line[j + i];
    }
  }

  /** Any `~` that ends a revision group from `j` is the one `TildeAt` finds. */
  lemma TildeAtComplete(line: string, j: nat, t: nat)
    requires j <= t < |line| && line[t] == '~' && IsRevGroup(line[j..t])
    ensures TildeAt(line, j) == Some(t)
  {
    if t > j {
      var g := line[j..t];
      assert line[j] == g[0] == '[';
      assert line[t - 1] == g[|g| - 1] == ']';
      assert forall k :: j + 1 <= k < t - 1 ==> line[k] == g[k - j];
      SpanFromAt(line, j + 1, t - 1, IsRevChar);
    }
  }

  /** `//`, a revision group, `~` and an adjust group make an instance. */
  lemma PatternWithTilde(line: string, i: nat, t: nat, e: nat)
    requires i + 2 <= t < e <= |line| && line[i] == '/' && line[i + 1] == '/'
    requires line[t] == '~' && IsRevGroup(line[i + 2..t]) && IsAdjust(line[t + 1..e])
    ensures InPattern(line[i..e])
  {
    var s := line[i..e];
    SliceOfSlice(line, i, e, 2, t - i);
    SliceOfSlice(line, i, e, t - i + 1, e - i);
    assert s[t - i] == '~' && IsRevGroup(s[2..t - i]) && IsAdjust(s[t - i + 1..]);
  }

  /** The match the engine reports when it starts at `i`, if any. */
  function MatchAt(line: string, i: nat): (r: Option<SigilMatch>)
    ensures r.Some? ==> r.value.start == i && i + 3 <= r.value.end <= |line|
                        && (r.value.follow ==> r.value.adjusts == 0)
                        && r.value.adjusts <= r.value.end
  {
    if i + 2 <= |line| && line[i] == '/' && line[i + 1] == '/' then
      match TildeAt(line, i + 2)
      case None => None
      case Some(t) =>
        if t + 1 < |line| && line[t + 1] == '|' then Some(SigilMatch(i, t + 2, true, 0))
        else
          var e := SpanFrom(line, t + 1, IsCaret);
          Some(SigilMatch(i, e, false, e - (t + 1)))
    else None
  }

  /** What `MatchAt` reports is an instance of the pattern. */
  lemma MatchAtInPattern(line: string, i: nat)
    requires MatchAt(line, i).Some?
    ensures InPattern(line[i..MatchAt(line, i).value.end])
  {
    var t := TildeAt(line, i + 2).value;
    TildeAtRevGroup(line, i + 2);
    if t + 1 < |line| && line[t + 1] == '|' {
      assert line[t + 1..t + 2] == "|";
      PatternWithTilde(line, i, t, t + 2);
    } else {
      var e := SpanFrom(line, t + 1, IsCaret);
      PatternWithTilde(line, i, t, e);
    }
  }

  /** ... and is the one the engine prefers: `|` when it is there, else every
      `^` that follows the `~`. */
  lemma MatchAtPreferred(line: string, i: nat)
    requires MatchAt(line, i).Some?
    ensures var m := MatchAt(line, i).value;
      && (m.follow ==> line[m.end - 2] == '~' && line[m.end - 1] == '|')
      && (!m.follow ==>
            i + 2 <= m.end - m.adjusts - 1 && line[m.end - m.adjusts - 1] == '~'
            && (forall j :: m.end - m.adjusts <= j < m.end ==> line[j] == '^')
            && (m.end < |line| ==> line[m.end] != '^' && (m.adjusts == 0 ==> line[m.end] != '|')))
  {
    var t := TildeAt(line, i + 2).value;
    if !(t + 1 < |line| && line[t + 1] == '|') {
      var e := SpanFrom(line, t + 1, IsCaret);
      assert MatchAt(line, i).value == SigilMatch(i, e, false, e - (t + 1));
    }
  }

  /** Every instance of the pattern that starts at `i` makes `MatchAt` succeed. */
  lemma MatchAtComplete(line: string, i: nat, e: nat)
    requires i <= e <= |line| && InPattern(line[i..e])
    ensures MatchAt(line, i).Some?
  {
    var s := line[i..e];
    var t :| 2 <= t < |s| && s[t] == '~' && IsRevGroup(s[2..t]) && IsAdjust(s[t + 1..]);
    SliceOfSlice(line, i, e, 2, t);
    TildeAtComplete(line, i + 2, i + t);
  }

  /** `Regex::captures`: the match with the leftmost start at or after `i`. */
  function FindFrom(line: string, i: nat): (r: Option<SigilMatch>)
    ensures r.Some? ==> i <= r.value.start && MatchAt(line, r.value.start) == r
    decreases |line| - i
  {
    if i >= |line| then None
    else match MatchAt(line, i)
      case Some(m) => Some(m)
      case None => FindFrom(line, i + 1)
  }

  function FindSigil(line: string): (r: Option<SigilMatch>)
    ensures r.Some? ==> MatchAt(line, r.value.start) == r
  {
    FindFrom(line, 0)
  }

  /** The search skips only starts where nothing matches. */
  lemma {:induction false} FindFromLeftmost(line: string, i: nat)
    ensures FindFrom(line, i).Some? ==>
      forall j :: i <= j < FindFrom(line, i).value.start ==> MatchAt(line, j).None?
    ensures FindFrom(line, i).None? ==> forall j :: i <= j ==> MatchAt(line, j).None?
    decreases |line| - i
  {
    if i >= |line| {
      forall j | i <= j ensures MatchAt(line, j).None? { }
    } else if MatchAt(line, i).None? {
      assert FindFrom(line, i) == FindFrom(line, i + 1);
      FindFromLeftmost(line, i + 1);
    }
  }

  /** A line has no sigil exactly when no piece of it is in the pattern. */
  lemma {:induction false} NoSigilIff(line: string)
    ensures FindSigil(line).None? <==> forall i, e :: 0 <= i <= e <= |line| ==> !InPattern(line[i..e])
  {
    FindFromLeftmost(line, 0);
    if FindSigil(line).None? {
      forall i, e | 0 <= i <= e <= |line| ensures !InPattern(line[i..e]) {
        if InPattern(line[i..e]) { MatchAtComplete(line, i, e); }
      }
    } else {
      var m := FindSigil(line).value;
      MatchAtInPattern(line, m.start);
    }
  }

  /** The match found is the leftmost one: no instance of the pattern starts
      earlier in the line. */
  lemma FindSigilLeftmost(line: string, i: nat, e: nat)
    requires i <= e <= |line| && InPattern(line[i..e])
    ensures FindSigil(line).Some? && FindSigil(line).value.start <= i
  {
    FindFromLeftmost(line, 0);
    MatchAtComplete(line, i, e);
  }
}
