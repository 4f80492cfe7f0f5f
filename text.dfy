/** Character classes and string helpers that the converter relies on:
    Rust's `char::is_whitespace`, `trim`, `split_whitespace`, `str::lines`,
    and the decimal rendering of integers used by `format!`. */
module Text {
  import opened Wrappers

  /** `char::is_whitespace`: the Unicode White_Space property. */
  predicate IsWhitespace(c: char) {
    ('\t' <= c <= '\r') || c == ' ' || c == '\U{0085}' || c == '\U{00A0}'
    || c == '\U{1680}' || ('\U{2000}' <= c <= '\U{200A}') || c == '\U{2028}'
    || c == '\U{2029}' || c == '\U{202F}' || c == '\U{205F}' || c == '\U{3000}'
  }

  predicate IsDigit(c: char) { '0' <= c <= '9' }

  /** `\w` over ASCII: letters, digits and underscore. */
  predicate IsWordChar(c: char) {
    ('a' <= c <= 'z') || ('A' <= c <= 'Z') || IsDigit(c) || c == '_'
  }

  predicate AllWhitespace(s: string) {
    forall i :: 0 <= i < |s| ==> IsWhitespace(s[i])
  }

  /** `char::to_uppercase` over ASCII. */
  function UpperChar(c: char): (u: char)
    ensures 'a' <= c <= 'z' ==> u as int == c as int - 32
    ensures !('a' <= c <= 'z') ==> u == c
    ensures !('a' <= u <= 'z')
  {
    if 'a' <= c <= 'z' then (c as int - 32) as char else c
  }

  function Upper(s: string): (u: string)
    ensures |u| == |s| && forall i :: 0 <= i < |s| ==> u[i] == UpperChar(s[i])
  {
    if s == [] then [] else [UpperChar(s[0])] + Upper(s[1..])
  }

  /** `char::to_lowercase` over ASCII. */
  function LowerChar(c: char): (l: char)
    ensures 'A' <= c <= 'Z' ==> 'a' <= l <= 'z' && UpperChar(l) == c
    ensures !('A' <= c <= 'Z') ==> l == c
  {
    if 'A' <= c <= 'Z' then (c as int + 32) as char else c
  }

  function Lower(s: string): (l: string)
    ensures |l| == |s| && forall i :: 0 <= i < |s| ==> l[i] == LowerChar(s[i])
  {
    if s == [] then [] else [LowerChar(s[0])] + Lower(s[1..])
  }

  predicate IsUpperWord(s: string) {
    forall i :: 0 <= i < |s| ==> 'A' <= s[i] <= 'Z'
  }

  /** Upper-casing undoes lower-casing on an upper-case word. */
  lemma UpperOfLower(s: string)
    requires IsUpperWord(s)
    ensures Upper(Lower(s)) == s
  {
  }

  /** Where the run of characters satisfying `p` that starts at `i` ends. */
  function SpanFrom(s: string, i: nat, p: char -> bool): (j: nat)
    requires i <= |s|
    ensures i <= j <= |s|
    ensures forall k :: i <= k < j ==> p(s[k])
    ensures j < |s| ==> !p(s[j])
    decreases |s| - i
  {
    if i == |s| || !p(s[i]) then i else SpanFrom(s, i + 1, p)
  }

  /** A forward run ends at the first character that fails the test. */
  lemma SpanFromAt(s: string, i: nat, j: nat, p: char -> bool)
    requires i <= j <= |s| && forall k :: i <= k < j ==> p(s[k])
    requires j < |s| ==> !p(s[j])
    ensures SpanFrom(s, i, p) == j
  {
  }

  /** Where the run of characters satisfying `p` that ends at `j` starts. */
  function SpanBack(s: string, j: nat, p: char -> bool): (i: nat)
    requires j <= |s|
    ensures i <= j
    ensures forall k :: i <= k < j ==> p(s[k])
    ensures 0 < i ==> !p(s[i - 1])
    decreases j
  {
    if j == 0 || !p(s[j - 1]) then j else SpanBack(s, j - 1, p)
  }

  /** A backward run starts just after the last character that fails the test. */
  lemma SpanBackAt(s: string, i: nat, j: nat, p: char -> bool)
    requires i <= j <= |s| && forall k :: i <= k < j ==> p(s[k])
    requires 0 < i ==> !p(s[i - 1])
    ensures SpanBack(s, j, p) == i
  {
  }

  lemma SliceOfSlice(s: string, a: nat, b: nat, c: nat, d: nat)
    requires a <= b <= |s| && c <= d <= b - a
    ensures s[a..b][c..d] == s[a + c..a + d]
  {
    forall k | 0 <= k < d - c ensures s[a..b][c..d][k] == s[a + c..a + d][k] { }
  }

  lemma DropOfDrop(s: string, i: nat, a: nat)
    requires i <= a <= |s|
    ensures s[i..][a - i..] == s[a..]
  {
    forall k | 0 <= k < |s| - a ensures s[i..][a - i..][k] == s[a..][k] { }
  }

  lemma TakeOfDrop(s: string, a: nat, b: nat)
    requires a <= b <= |s|
    ensures s[a..][..b - a] == s[a..b]
  {
    forall k | 0 <= k < b - a ensures s[a..][..b - a][k] == s[a..b][k] { }
  }

  /** A run over a concatenation stops where the second part begins when its
      first character fails the test. */
  lemma SpanOfConcat(a: string, b: string, p: char -> bool)
    requires forall i :: 0 <= i < |a| ==> p(a[i])
    requires b != [] && !p(b[0])
    ensures SpanFrom(a + b, 0, p) == |a|
  {
    assert (a + b)[|a|] == b[0];
    SpanFromAt(a + b, 0, |a|, p);
  }

  /** `str::trim_start`. */
  function TrimStart(s: string): (t: string)
    ensures |t| <= |s| && t == s[|s| - |t|..]
    ensures t != [] ==> !IsWhitespace(t[0])
  {
    s[SpanFrom(s, 0, IsWhitespace)..]
  }

  /** What `trim_start` removes is whitespace. */
  lemma TrimStartRemovesWhitespace(s: string)
    ensures AllWhitespace(s[..|s| - |TrimStart(s)|])
  {
  }

  /** `str::trim_end`. */
  function TrimEnd(s: string): (t: string)
    ensures |t| <= |s| && t == s[..|t|]
    ensures t != [] ==> !IsWhitespace(t[|t| - 1])
  {
    s[..SpanBack(s, |s|, IsWhitespace)]
  }

  /** What `trim_end` removes is whitespace. */
  lemma TrimEndRemovesWhitespace(s: string)
    ensures AllWhitespace(s[|TrimEnd(s)|..])
  {
  }

  /** Trailing whitespace is trimmed from the last part only, when that part
      is not all whitespace. */
  lemma TrimEndConcat(a: string, b: string)
    requires !AllWhitespace(b)
    ensures TrimEnd(a + b) == a + TrimEnd(b)
  {
    var i := SpanBack(b, |b|, IsWhitespace);
    SpanBackAt(a + b, |a| + i, |a + b|, IsWhitespace);
    assert (a + b)[..|a| + i] == a + b[..i];
  }

  lemma TrimEndWhitespaceTail(a: string, b: string)
    requires a != [] && !IsWhitespace(a[|a| - 1]) && AllWhitespace(b)
    ensures TrimEnd(a + b) == a
  {
    SpanBackAt(a + b, |a|, |a + b|, IsWhitespace);
    assert (a + b)[..|a|] == a;
  }

  /** `str::trim`: no whitespace left at either end. */
  function Trim(s: string): (t: string)
    ensures t == [] || (!IsWhitespace(t[0]) && !IsWhitespace(t[|t| - 1]))
  {
    TrimEnd(TrimStart(s))
  }

  predicate NotWhitespace(c: char) { !IsWhitespace(c) }

  /** `split_whitespace().next()`: the first maximal run of non-whitespace. */
  function FirstWord(s: string): (w: Option<string>)
    ensures w.Some? ==> w.value != [] && |w.value| <= |TrimStart(s)|
  {
    var t := TrimStart(s);
    if t == [] then None else Some(t[..SpanFrom(t, 0, NotWhitespace)])
  }

  /** There is a first word unless the text is all whitespace; it is a maximal
      run of non-whitespace at the front of the text with its leading
      whitespace removed. */
  lemma FirstWordSpec(s: string)
    ensures FirstWord(s).None? <==> AllWhitespace(s)
    ensures FirstWord(s).Some? ==>
      var w := FirstWord(s).value; var t := TrimStart(s);
      && t[..|w|] == w
      && (forall i :: 0 <= i < |w| ==> !IsWhitespace(w[i]))
      && (|w| < |t| ==> IsWhitespace(t[|w|]))
  {
    TrimStartRemovesWhitespace(s);
    var t := TrimStart(s);
    if t == [] {
      assert s == s[..|s| - |t|];
    } else {
      assert !AllWhitespace(s) by { assert s[|s| - |t|] == t[0]; }
    }
  }

  lemma TrimEndWordThenBlank(w: string, rest: string)
    requires w != [] && !IsWhitespace(w[|w| - 1]) && AllWhitespace(rest)
    ensures TrimEnd(w + rest) == w && Trim(rest) == []
  {
    TrimEndWhitespaceTail(w, rest);
    assert TrimStart(rest) == [];
  }

  lemma TrimEndWordThenText(w: string, g: string, r2: string)
    requires w != [] && !IsWhitespace(w[|w| - 1]) && AllWhitespace(g)
    requires r2 != [] && !IsWhitespace(r2[0])
    ensures TrimEnd(w + (g + r2)) == w + g + Trim(g + r2)
  {
    SpanOfConcat(g, r2, IsWhitespace);
    assert TrimStart(g + r2) == r2;
    assert !AllWhitespace(r2);
    assert !AllWhitespace(g + r2) by { assert (g + r2)[|g|] == r2[0]; }
    TrimEndConcat(w, g + r2);
    TrimEndConcat(g, r2);
  }

  /** The whitespace-led remainder of a trimmed tail is a whitespace run
      and then the trimmed remainder. */
  lemma TrimEndWordThenRest(w: string, rest: string) returns (g: string)
    requires w != [] && !IsWhitespace(w[|w| - 1])
    ensures AllWhitespace(g) && TrimEnd(w + rest) == w + g + Trim(rest)
  {
    if AllWhitespace(rest) {
      TrimEndWordThenBlank(w, rest);
      g := [];
      assert w + g + Trim(rest) == w;
    } else {
      var l := SpanFrom(rest, 0, IsWhitespace);
      g := rest[..l];
      var r2 := rest[l..];
      assert rest == g + r2;
      TrimEndWordThenText(w, g, r2);
    }
  }

  /** Trimming a string that starts with a word leaves the word, a run of
      whitespace and the trimmed remainder, in that order. */
  lemma TrimAfterFirstWord(s: string, w: string)
    requires FirstWord(s) == Some(w)
    ensures exists g :: AllWhitespace(g) && Trim(s) == w + g + Trim(TrimStart(s)[|w|..])
  {
    var t := TrimStart(s);
    var rest := t[|w|..];
    assert t == w + rest;
    var g := TrimEndWordThenRest(w, rest);
  }

  /** The first word of `s[i..]` as positions in `s`: where it starts and ends. */
  function WordFrom(s: string, i: nat): (r: Option<(nat, nat)>)
    requires i <= |s|
    ensures r.Some? ==> i <= r.value.0 < r.value.1 <= |s|
  {
    var a := SpanFrom(s, i, IsWhitespace);
    if a == |s| then None else Some((a, SpanFrom(s, a, NotWhitespace)))
  }

  /** The part of `s[i..]` that `trim` keeps, as positions in `s`. */
  function TrimFrom(s: string, i: nat): (r: (nat, nat))
    requires i <= |s|
    ensures i <= r.0 <= r.1 <= |s|
  {
    var a := SpanFrom(s, i, IsWhitespace);
    if a == |s| then (a, a) else (a, SpanBack(s, |s|, IsWhitespace))
  }

  /** A forward run over a tail is the same run over the whole string. */
  lemma {:induction false} SpanFromShift(s: string, i: nat, k: nat, p: char -> bool)
    requires i + k <= |s|
    ensures SpanFrom(s[i..], k, p) == SpanFrom(s, i + k, p) - i
    decreases |s| - i - k
  {
    if i + k < |s| {
      assert s[i..][k] == s[i + k];
      if p(s[i + k]) {
        SpanFromShift(s, i, k + 1, p);
      }
    }
  }

  /** A backward run over a tail is the run over the whole string, cut at the
      start of the tail. */
  lemma {:induction false} SpanBackShift(s: string, a: nat, j: nat, p: char -> bool)
    requires a <= j <= |s|
    ensures SpanBack(s[a..], j - a, p) == (if SpanBack(s, j, p) < a then a else SpanBack(s, j, p)) - a
    decreases j
  {
    if j > a {
      assert s[a..][j - a - 1] == s[j - 1];
      if p(s[j - 1]) {
        SpanBackShift(s, a, j - 1, p);
      }
    }
  }

  /** Trimming the front of a tail skips the whitespace that starts there. */
  lemma TrimStartFrom(s: string, i: nat)
    requires i <= |s|
    ensures TrimStart(s[i..]) == s[SpanFrom(s, i, IsWhitespace)..]
  {
    SpanFromShift(s, i, 0, IsWhitespace);
    DropOfDrop(s, i, SpanFrom(s, i, IsWhitespace));
  }

  /** `WordFrom` finds the word `split_whitespace().next()` returns on the tail. */
  lemma WordFromIsFirstWord(s: string, i: nat)
    requires i <= |s|
    ensures WordFrom(s, i).None? ==> FirstWord(s[i..]).None?
    ensures WordFrom(s, i).Some? ==>
      FirstWord(s[i..]) == Some(s[WordFrom(s, i).value.0..WordFrom(s, i).value.1])
  {
    TrimStartFrom(s, i);
    var a := SpanFrom(s, i, IsWhitespace);
    if a < |s| {
      var t := s[a..];
      var b := SpanFrom(s, a, NotWhitespace);
      SpanFromShift(s, a, 0, NotWhitespace);
      assert SpanFrom(t, 0, NotWhitespace) == b - a;
      TakeOfDrop(s, a, b);
      assert TrimStart(s[i..]) == t && t != [];
      assert FirstWord(s[i..]) == Some(t[..SpanFrom(t, 0, NotWhitespace)]);
      assert WordFrom(s, i) == Some((a, b));
    }
  }

  /** `TrimFrom` bounds exactly what `trim` keeps of the tail. */
  lemma TrimFromIsTrim(s: string, i: nat)
    requires i <= |s|
    ensures Trim(s[i..]) == s[TrimFrom(s, i).0..TrimFrom(s, i).1]
  {
    TrimStartFrom(s, i);
    var a := SpanFrom(s, i, IsWhitespace);
    var t := s[a..];
    if a < |s| {
      var b := SpanBack(s, |s|, IsWhitespace);
      assert a < b by { assert !IsWhitespace(s[a]); }
      assert |t| == |s| - a;
      SpanBackShift(s, a, |s|, IsWhitespace);
      assert SpanBack(t, |t|, IsWhitespace) == b - a;
      TakeOfDrop(s, a, b);
      calc {
        Trim(s[i..]);
        TrimEnd(t);
        t[..b - a];
        s[a..b];
      }
      assert TrimFrom(s, i) == (a, b);
    } else {
      assert t == [];
      assert TrimFrom(s, i) == (a, a);
    }
  }

  /** Position of the first `c` in `s` at or after `i`. */
  function IndexFrom(s: string, c: char, i: nat): (r: Option<nat>)
    requires i <= |s|
    ensures r.None? ==> forall k :: i <= k < |s| ==> s[k] != c
    ensures r.Some? ==> i <= r.value < |s| && s[r.value] == c
                        && forall k :: i <= k < r.value ==> s[k] != c
    decreases |s| - i
  {
    if i == |s| then None else if s[i] == c then Some(i) else IndexFrom(s, c, i + 1)
  }

  /** Position of the first occurrence of `c` in `s`. */
  function IndexOf(s: string, c: char): (r: Option<nat>)
    ensures r.None? <==> c !in s
    ensures r.Some? ==> r.value < |s| && s[r.value] == c && c !in s[..r.value]
  {
    IndexFrom(s, c, 0)
  }

  /** The first `c` in `s` is at `i` when `s[i]` is `c` and no earlier one is. */
  lemma IndexOfAt(s: string, c: char, i: nat)
    requires i < |s| && s[i] == c && c !in s[..i]
    ensures IndexOf(s, c) == Some(i)
  {
  }

  /** `str::lines`: split at each `\n`, dropping a `\r` that directly precedes it;
      a last line without a terminator is kept as it is, and no empty line is
      produced after a final terminator. */
  function Lines(text: string): (ls: seq<string>)
    ensures forall i :: 0 <= i < |ls| ==> '\n' !in ls[i]
    decreases |text|
  {
    if text == [] then []
    else match IndexOf(text, '\n')
      case None => [text]
      case Some(i) => [StripCarriageReturn(text[..i])] + Lines(text[i + 1..])
  }

  function StripCarriageReturn(s: string): (t: string)
    ensures t == s || (s == t + ['\r'])
  {
    if |s| > 0 && s[|s| - 1] == '\r' then s[..|s| - 1] else s
  }

  /** Each line followed by a `\n`, as `push_str(line); push('\n')` builds it. */
  function JoinLines(ls: seq<string>): (text: string)
  {
    if ls == [] then [] else ls[0] + "\n" + JoinLines(ls[1..])
  }

  lemma JoinLinesAppend(ls: seq<string>, l: string)
    ensures JoinLines(ls + [l]) == JoinLines(ls) + l + "\n"
  {
    if ls != [] {
      assert (ls + [l])[1..] == ls[1..] + [l];
      JoinLinesAppend(ls[1..], l);
    }
  }

  /** `str::lines` takes a line that ends at the first `\n` off the front. */
  lemma LinesOfLineThen(l: string, rest: string)
    requires '\n' !in l
    ensures Lines(l + "\n" + rest) == [StripCarriageReturn(l)] + Lines(rest)
  {
    var text := l + "\n" + rest;
    assert text[|l|] == '\n' && text[..|l|] == l;
    assert IndexOf(text, '\n') == Some(|l|);
    assert text[|l| + 1..] == rest;
  }

  /** Every line with a final `\r` dropped. */
  function StripAll(ls: seq<string>): (r: seq<string>)
    ensures |r| == |ls| && forall i :: 0 <= i < |ls| ==> r[i] == StripCarriageReturn(ls[i])
  {
    if ls == [] then [] else [StripCarriageReturn(ls[0])] + StripAll(ls[1..])
  }

  /** `str::lines` takes the first joined line off the front. */
  lemma LinesOfJoinLinesCons(ls: seq<string>)
    requires ls != [] && '\n' !in ls[0]
    ensures Lines(JoinLines(ls)) == [StripCarriageReturn(ls[0])] + Lines(JoinLines(ls[1..]))
  {
    assert JoinLines(ls) == ls[0] + "\n" + JoinLines(ls[1..]);
    LinesOfLineThen(ls[0], JoinLines(ls[1..]));
  }

  /** Joining lines that hold no `\n` and reading them back with `str::lines`
      gives the same lines, each without a final `\r`. */
  lemma {:induction false} LinesOfJoinLinesStrip(ls: seq<string>)
    requires forall i :: 0 <= i < |ls| ==> '\n' !in ls[i]
    ensures Lines(JoinLines(ls)) == StripAll(ls)
  {
    if ls != [] {
      LinesOfJoinLinesCons(ls);
      LinesOfJoinLinesStrip(ls[1..]);
    }
  }

  function DigitChar(d: nat): (c: char)
    requires d < 10
    ensures IsDigit(c)
  {
    ('0' as int + d) as char
  }

  function DigitValue(c: char): (d: nat)
    requires IsDigit(c)
    ensures d < 10
  {
    c as int - '0' as int
  }

  /** Decimal digits of `n`, most significant first, without leading zeros. */
  function NatToString(n: nat): (s: string)
    ensures s != [] && forall i :: 0 <= i < |s| ==> IsDigit(s[i])
    ensures |s| > 1 ==> s[0] != '0'
  {
    if n < 10 then [DigitChar(n)] else NatToString(n / 10) + [DigitChar(n % 10)]
  }

  /** The value of a string of decimal digits. */
  function ParseDigits(s: string): (n: nat)
    requires forall i :: 0 <= i < |s| ==> IsDigit(s[i])
  {
    if s == [] then 0 else 10 * ParseDigits(s[..|s| - 1]) + DigitValue(s[|s| - 1])
  }

  lemma {:induction false} ParseDigitsOfNatToString(n: nat)
    ensures ParseDigits(NatToString(n)) == n
  {
    var s := NatToString(n);
    if n >= 10 {
      assert s[..|s| - 1] == NatToString(n / 10);
      ParseDigitsOfNatToString(n / 10);
    }
  }

  /** `format!("{}", n)` for a signed integer. */
  function IntToString(n: int): (s: string)
    ensures s != [] && (s[0] == '-' <==> n < 0)
  {
    if n < 0 then "-" + NatToString(-n) else NatToString(n)
  }

  /** Reads back what `IntToString` writes. */
  function ParseInt(s: string): (r: Option<int>)
  {
    if s != [] && s[0] == '-' then
      if |s| > 1 && forall i :: 1 <= i < |s| ==> IsDigit(s[i]) then Some(0 - ParseDigits(s[1..])) else None
    else if s != [] && forall i :: 0 <= i < |s| ==> IsDigit(s[i]) then Some(ParseDigits(s))
    else None
  }

  lemma IntToStringRoundTrip(n: int)
    ensures ParseInt(IntToString(n)) == Some(n)
  {
    if n < 0 {
      assert IntToString(n)[1..] == NatToString(-n);
      ParseDigitsOfNatToString(-n);
    } else {
      ParseDigitsOfNatToString(n);
    }
  }
}
