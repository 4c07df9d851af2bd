/** Free text as the schedule and profile comparisons read it: trimmed and
    case-folded (over the ASCII letters and blanks). */
module Text {
  predicate IsSpace(c: char) {
    c == ' ' || c == '\t' || c == '\n' || c == '\r'
  }

  function TrimStart(s: string): string {
    if s != "" && IsSpace(s[0]) then TrimStart(s[1..]) else s
  }

  function TrimEnd(s: string): string {
    if s != "" && IsSpace(s[|s| - 1]) then TrimEnd(s[..|s| - 1]) else s
  }

  function Trim(s: string): string {
    TrimEnd(TrimStart(s))
  }

  function Lower(c: char): char {
    if 'A' <= c <= 'Z' then (c as int + 32) as char else c
  }

  function Fold(s: string): string {
    seq(|s|, i requires 0 <= i < |s| => Lower(s[i]))
  }

  /** No blanks at either end, which is what the request validators leave. */
  predicate IsTrimmed(s: string) {
    s == "" || (!IsSpace(s[0]) && !IsSpace(s[|s| - 1]))
  }

  lemma {:induction false} TrimStartShape(s: string)
    ensures TrimStart(s) == "" || !IsSpace(TrimStart(s)[0])
    ensures IsTrimmed(s) ==> TrimStart(s) == s
    ensures |TrimStart(s)| <= |s| && (|TrimStart(s)| == |s| ==> TrimStart(s) == s)
    ensures TrimStart(s) != "" ==> TrimStart(s)[|TrimStart(s)| - 1] == s[|s| - 1]
  {
    if s != "" && IsSpace(s[0]) {
      TrimStartShape(s[1..]);
    }
  }

  lemma {:induction false} TrimEndShape(s: string)
    ensures TrimEnd(s) == "" || !IsSpace(TrimEnd(s)[|TrimEnd(s)| - 1])
    ensures IsTrimmed(s) ==> TrimEnd(s) == s
    ensures |TrimEnd(s)| <= |s| && (|TrimEnd(s)| == |s| ==> TrimEnd(s) == s)
    ensures TrimEnd(s) != "" ==> TrimEnd(s)[0] == s[0]
  {
    if s != "" && IsSpace(s[|s| - 1]) {
      TrimEndShape(s[..|s| - 1]);
    }
  }

  /** Trimming leaves trimmed text and nothing else fixed. */
  lemma TrimFixesExactlyTrimmedText(s: string)
    ensures IsTrimmed(Trim(s))
    ensures Trim(s) == s <==> IsTrimmed(s)
    ensures |Trim(s)| <= |s| && (|Trim(s)| == |s| ==> Trim(s) == s)
  {
    TrimStartShape(s);
    TrimEndShape(TrimStart(s));
  }

  lemma {:induction false} FoldTrimStart(s: string)
    ensures Fold(TrimStart(s)) == TrimStart(Fold(s))
  {
    if s != "" && IsSpace(s[0]) {
      assert Fold(s)[1..] == Fold(s[1..]);
      FoldTrimStart(s[1..]);
    } else if s != "" {
      assert !IsSpace(Fold(s)[0]);
    }
  }

  lemma {:induction false} FoldTrimEnd(s: string)
    ensures Fold(TrimEnd(s)) == TrimEnd(Fold(s))
  {
    if s != "" && IsSpace(s[|s| - 1]) {
      assert Fold(s)[..|s| - 1] == Fold(s[..|s| - 1]);
      FoldTrimEnd(s[..|s| - 1]);
    } else if s != "" {
      assert !IsSpace(Fold(s)[|s| - 1]);
    }
  }

  /** The database folds then trims, the service trims then folds: no difference. */
  lemma FoldCommutesWithTrim(s: string)
    ensures Fold(Trim(s)) == Trim(Fold(s))
  {
    FoldTrimStart(s);
    FoldTrimEnd(TrimStart(s));
  }

  predicate IsBlank(s: string) {
    forall i :: 0 <= i < |s| ==> IsSpace(s[i])
  }

  lemma {:induction false} TrimStartDropsBlanks(s: string) returns (n: nat)
    ensures n <= |s| && IsBlank(s[..n]) && s[n..] == TrimStart(s)
  {
    n := 0;
    if s != "" && IsSpace(s[0]) {
      var k := TrimStartDropsBlanks(s[1..]);
      n := k + 1;
      assert s[..n] == [s[0]] + s[1..][..k];
    }
  }

  lemma {:induction false} TrimEndDropsBlanks(s: string) returns (n: nat)
    ensures n <= |s| && IsBlank(s[n..]) && s[..n] == TrimEnd(s)
  {
    n := |s|;
    if s != "" && IsSpace(s[|s| - 1]) {
      n := TrimEndDropsBlanks(s[..|s| - 1]);
      assert s[n..] == s[..|s| - 1][n..] + [s[|s| - 1]];
    }
  }

  /** Trimming takes blanks off both ends and nothing else. */
  lemma TrimTakesOnlyBlanks(s: string)
    ensures exists before, after :: IsBlank(before) && IsBlank(after) && s == before + Trim(s) + after
  {
    var i := TrimStartDropsBlanks(s);
    var j := TrimEndDropsBlanks(TrimStart(s));
    assert s == s[..i] + Trim(s) + TrimStart(s)[j..];
  }

  /** Exactly blank text trims to nothing. */
  lemma BlankTextTrimsAway(s: string)
    ensures Trim(s) == "" <==> IsBlank(s)
  {
    var i := TrimStartDropsBlanks(s);
    var j := TrimEndDropsBlanks(TrimStart(s));
    TrimFixesExactlyTrimmedText(s);
    assert s == s[..i] + Trim(s) + TrimStart(s)[j..];
    if Trim(s) != "" {
      assert s[i] == Trim(s)[0];
    }
  }

  const CAPITALS := "ABCDEFGHIJKLMNOPQRSTUVWXYZ"
  const SMALL := "abcdefghijklmnopqrstuvwxyz"

  /** One letter in its two cases. */
  ghost predicate CasesOf(small: char, capital: char) {
    exists k :: 0 <= k < 26 && SMALL[k] == small && CAPITALS[k] == capital
  }

  ghost predicate SameButCase(c: char, d: char) {
    c == d || CasesOf(c, d) || CasesOf(d, c)
  }

  lemma LettersInOrder(k: nat)
    requires k < 26
    ensures SMALL[k] as int == 'a' as int + k && CAPITALS[k] as int == 'A' as int + k
  {
  }

  lemma CasesAreApart(small: char, capital: char)
    ensures CasesOf(small, capital) <==> 'A' <= capital <= 'Z' && small as int == capital as int + 32
  {
    if 'A' <= capital <= 'Z' {
      LettersInOrder(capital as int - 'A' as int);
    }
    if k :| 0 <= k < 26 && SMALL[k] == small && CAPITALS[k] == capital {
      LettersInOrder(k);
    }
  }

  lemma LoweredAlikeIff(c: char, d: char)
    ensures Lower(c) == Lower(d) <==> SameButCase(c, d)
  {
    CasesAreApart(c, d);
    CasesAreApart(d, c);
  }

  /** Two texts fold alike exactly when they differ in case at most. */
  lemma FoldedAlikeIff(s: string, t: string)
    ensures Fold(s) == Fold(t) <==> |s| == |t| && forall i :: 0 <= i < |s| ==> SameButCase(s[i], t[i])
  {
    if |s| == |t| {
      forall i | 0 <= i < |s| ensures Fold(s)[i] == Fold(t)[i] <==> SameButCase(s[i], t[i]) {
        LoweredAlikeIff(s[i], t[i]);
      }
    } else {
      assert |Fold(s)| != |Fold(t)|;
    }
  }
}
