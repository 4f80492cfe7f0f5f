/** The severity keyword of an annotation (`RustcErrorKind` in errors.rs). */
module Kinds {
  import opened Wrappers
  import opened Text

  datatype RustcErrorKind = Help | Error | Note | Suggestion | Warning

  /** The part of `s` before its first `:`, that is `s.split(':').next()`. */
  function BeforeColon(s: string): (p: string)
    ensures p <= s && ':' !in p
    ensures |p| < |s| ==> s[|p|] == ':'
  {
    match IndexOf(s, ':')
    case None => s
    case Some(i) => s[..i]
  }

  /** The upper-case keywords that name each kind. */
  function Keywords(k: RustcErrorKind): set<string>
  {
    match k
    case Help => {"HELP"}
    case Error => {"ERROR"}
    case Note => {"NOTE"}
    case Suggestion => {"SUGGESTION"}
    case Warning => {"WARN", "WARNING"}
  }

  /** The kind an upper-case keyword names, if any. */
  function KindOfKeyword(w: string): Option<RustcErrorKind>
  {
    if w == "HELP" then Some(Help)
    else if w == "ERROR" then Some(Error)
    else if w == "NOTE" then Some(Note)
    else if w == "SUGGESTION" then Some(Suggestion)
    else if w == "WARN" || w == "WARNING" then Some(Warning)
    else None
  }

  /** The arms of the match in `from_str`, in order. */
  const KeywordTable: seq<(string, RustcErrorKind)> :=
    [("HELP", Help), ("ERROR", Error), ("NOTE", Note), ("SUGGESTION", Suggestion),
     ("WARN", Warning), ("WARNING", Warning)]

  /** The kind of the first arm whose keyword is `w`. */
  function Lookup(w: string, table: seq<(string, RustcErrorKind)>): Option<RustcErrorKind>
  {
    if table == [] then None
    else if table[0].0 == w then Some(table[0].1)
    else Lookup(w, table[1..])
  }

  /** Trying the arms in order is the keyword lookup. */
  lemma LookupKeywordTable(w: string)
    ensures Lookup(w, KeywordTable) == KindOfKeyword(w)
  {
    var t := KeywordTable;
    assert t[0].0 == "HELP" && t[1].0 == "ERROR" && t[2].0 == "NOTE";
    assert t[3].0 == "SUGGESTION" && t[4].0 == "WARN" && t[5].0 == "WARNING";
    assert Lookup(w, t[6..]) == None by { assert t[6..] == []; }
    assert Lookup(w, t[5..]) == if w == "WARNING" then Some(Warning) else None by {
      assert t[5..][0] == t[5] && t[5..][1..] == t[6..];
    }
    assert Lookup(w, t[4..]) == if w == "WARN" then Some(Warning) else Lookup(w, t[5..]) by {
      assert t[4..][0] == t[4] && t[4..][1..] == t[5..];
    }
    assert Lookup(w, t[3..]) == if w == "SUGGESTION" then Some(Suggestion) else Lookup(w, t[4..]) by {
      assert t[3..][0] == t[3] && t[3..][1..] == t[4..];
    }
    assert Lookup(w, t[2..]) == if w == "NOTE" then Some(Note) else Lookup(w, t[3..]) by {
      assert t[2..][0] == t[2] && t[2..][1..] == t[3..];
    }
    assert Lookup(w, t[1..]) == if w == "ERROR" then Some(Error) else Lookup(w, t[2..]) by {
      assert t[1..][0] == t[1] && t[1..][1..] == t[2..];
    }
  }

  /** `RustcErrorKind::from_str`: upper-case the word, keep what precedes the
      first colon and try the arms; `Err(())` is `None`. The upper-cased text
      before the colon is built in one pass; `FromStrIs` shows it is the
      composition the source writes. */
  function FromStr(s: string): Option<RustcErrorKind>
  {
    Lookup(UpperUntilColon(s, 0), KeywordTable)
  }

  /** The upper-cased characters of `s` from `i` up to the first `:`. */
  function UpperUntilColon(s: string, i: nat): string
    requires i <= |s|
    decreases |s| - i
  {
    if i == |s| || s[i] == ':' then [] else [UpperChar(s[i])] + UpperUntilColon(s, i + 1)
  }

  lemma {:induction false} UpperUntilColonSpec(s: string, i: nat)
    requires i <= |s|
    ensures i + |UpperUntilColon(s, i)| <= |s|
    ensures i + |UpperUntilColon(s, i)| < |s| ==> s[i + |UpperUntilColon(s, i)|] == ':'
    ensures forall k :: i <= k < i + |UpperUntilColon(s, i)| ==>
              s[k] != ':' && UpperUntilColon(s, i)[k - i] == UpperChar(s[k])
    decreases |s| - i
  {
    if i < |s| && s[i] != ':' {
      UpperUntilColonSpec(s, i + 1);
      var v := UpperUntilColon(s, i + 1);
      assert UpperUntilColon(s, i) == [UpperChar(s[i])] + v;
    }
  }

  /** `from_str` is the keyword lookup of `s.to_uppercase().split(':').next()`. */
  lemma FromStrIs(s: string)
    ensures FromStr(s) == KindOfKeyword(BeforeColon(Upper(s)))
  {
    var u := UpperUntilColon(s, 0);
    UpperUntilColonSpec(s, 0);
    var p := BeforeColon(s);
    if |u| < |s| {
      assert ':' !in s[..|u|] by {
        forall k | 0 <= k < |u| ensures s[..|u|][k] != ':' { assert u[k - 0] == UpperChar(s[k]); }
      }
      IndexOfAt(s, ':', |u|);
    } else {
      assert ':' !in s by {
        forall k | 0 <= k < |s| ensures s[k] != ':' { assert u[k - 0] == UpperChar(s[k]); }
      }
    }
    assert |p| == |u|;
    assert forall k :: 0 <= k < |u| ==> u[k] == u[k - 0] == UpperChar(s[k]);
    assert u == Upper(p);
    UpperBeforeColon(s);
    LookupKeywordTable(u);
  }

  /** The lookup names a kind exactly for that kind's keywords. */
  lemma KindOfKeywordIff(w: string, k: RustcErrorKind)
    ensures KindOfKeyword(w) == Some(k) <==> w in Keywords(k)
  {
  }

  /** `from_str` accepts a word exactly when the upper-cased text before its
      first colon is one of the kind's keywords. */
  lemma FromStrIff(s: string, k: RustcErrorKind)
    ensures FromStr(s) == Some(k) <==> Upper(BeforeColon(s)) in Keywords(k)
  {
    FromStrIs(s);
    UpperBeforeColon(s);
    KindOfKeywordIff(BeforeColon(Upper(s)), k);
  }

  /** Upper-casing does not move the colon: splitting before or after it agrees. */
  lemma UpperBeforeColon(s: string)
    ensures BeforeColon(Upper(s)) == Upper(BeforeColon(s))
  {
    var p := BeforeColon(s);
    var u := Upper(s);
    assert ':' !in Upper(p) by {
      forall i | 0 <= i < |p| ensures Upper(p)[i] != ':' {
        assert p[i] != ':';
      }
    }
    assert u[..|p|] == Upper(p);
    if |p| < |s| {
      IndexOfAt(u, ':', |p|);
    } else {
      assert u == Upper(p);
    }
  }

  /** `from_str` ignores case: two words that upper-case alike parse alike. */
  lemma FromStrIgnoresCase(s: string, t: string)
    requires |s| == |t| && forall i :: 0 <= i < |s| ==> UpperChar(s[i]) == UpperChar(t[i])
    ensures FromStr(s) == FromStr(t)
  {
    assert Upper(s) == Upper(t);
    FromStrIs(s);
    FromStrIs(t);
    UpperBeforeColon(t);
  }

  /** `from_str` ignores everything from the first colon on. */
  lemma FromStrIgnoresAfterColon(s: string, rest: string)
    requires ':' !in s
    ensures FromStr(s + ":" + rest) == FromStr(s)
  {
    var w := s + ":" + rest;
    assert w[..|s|] == s;
    IndexOfAt(w, ':', |s|);
    assert BeforeColon(w) == s;
    assert BeforeColon(s) == s;
    UpperBeforeColon(w);
    UpperBeforeColon(s);
    FromStrIs(w);
    FromStrIs(s);
  }

  /** An upper-case word without a colon parses as itself, in either case. */
  lemma FromStrOfUpperWord(w: string)
    requires IsUpperWord(w)
    ensures FromStr(w) == KindOfKeyword(w) && FromStr(Lower(w)) == KindOfKeyword(w)
  {
    assert ':' !in w;
    assert Upper(w) == w;
    UpperOfLower(w);
    assert ':' !in Lower(w) by {
      forall i | 0 <= i < |w| ensures Lower(w)[i] != ':' { }
    }
    UpperBeforeColon(Lower(w));
    FromStrIs(w);
    FromStrIs(Lower(w));
  }

  /** Every keyword parses to its kind in upper or lower case. */
  lemma {:induction false} FromStrAcceptsKeywords(k: RustcErrorKind, w: string)
    requires w in Keywords(k)
    ensures FromStr(w) == Some(k) && FromStr(Lower(w)) == Some(k)
  {
    assert IsUpperWord(w);
    FromStrOfUpperWord(w);
    KindOfKeywordIff(w, k);
  }

  /** The cases of the unit tests: a lower-case keyword, with or without a
      trailing colon, names its kind. */
  lemma FromStrTestKeywords()
    ensures FromStr("help:") == Some(Help) && FromStr("warn") == Some(Warning)
  {
    assert UpperUntilColon("help:", 4) == [];
    assert UpperUntilColon("help:", 0) == "HELP";
    assert UpperUntilColon("warn", 4) == [];
    assert UpperUntilColon("warn", 0) == "WARN";
  }

  /** The cases of the unit tests: an unknown word and the empty word are
      rejected. */
  lemma FromStrTestRejects()
    ensures FromStr("unrecognized") == None && FromStr("") == None
  {
    var u := UpperUntilColon("unrecognized", 0);
    UpperUntilColonSpec("unrecognized", 0);
    assert u[0] == 'U';
  }

  /** `Display for RustcErrorKind`. */
  function Name(k: RustcErrorKind): (s: string)
    ensures s != []
  {
    match k
    case Help => "help message"
    case Error => "error"
    case Note => "note"
    case Suggestion => "suggestion"
    case Warning => "warning"
  }

  /** The display names the unit tests expect. */
  lemma NameTestCases()
    ensures Name(Help) == "help message" && Name(Error) == "error" && Name(Note) == "note"
    ensures Name(Suggestion) == "suggestion" && Name(Warning) == "warning"
  {
  }

  /** Distinct kinds display distinctly. */
  lemma NameInjective(k1: RustcErrorKind, k2: RustcErrorKind)
    requires Name(k1) == Name(k2)
    ensures k1 == k2
  {
  }
}
