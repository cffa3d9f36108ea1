/**
 * The empty-submission test: after comments are stripped and white space is
 * compacted, a server file with fewer than ten characters left is empty.
 */
module Submission {
  import opened Text

  /** Minimum compacted length of a non-empty submission. */
  const MinCodeLength: nat := 10

  /** `s.replace(/\s+/g, " ")`: every run of white space becomes one space. */
  function CollapseWs(s: string): (r: string)
    ensures |r| <= |s|
  {
    if |s| == 0 then ""
    else if IsSpace(s[0]) && |s| > 1 && IsSpace(s[1]) then CollapseWs(s[1..])
    else if IsSpace(s[0]) then " " + CollapseWs(s[1..])
    else [s[0]] + CollapseWs(s[1..])
  }

  /** `compactWs(s)`: white-space runs collapsed, then both ends trimmed. */
  function CompactWs(s: string): (r: string)
    ensures IsTrimmed(r)
  {
    Trim(CollapseWs(s))
  }

  /**
   * `isEmptyCode(code)`; `stripComments` stands for `stripJsComments`, whose
   * regular expressions are not part of this model. The length compared is
   * JavaScript's, in UTF-16 code units.
   */
  predicate IsEmptyCode(stripComments: string -> string, code: string) {
    Utf16Length(CompactWs(stripComments(code))) < MinCodeLength
  }

  /** The characters of `s` that are not white space, in order. */
  function NonSpace(s: string): string {
    if |s| == 0 then ""
    else if IsSpace(s[0]) then NonSpace(s[1..])
    else [s[0]] + NonSpace(s[1..])
  }

  /** A white-space character at `i` is a plain space and is not followed by more white space. */
  predicate CollapsedAt(s: string, i: nat)
    requires i < |s|
  {
    IsSpace(s[i]) ==> s[i] == ' ' && (i + 1 < |s| ==> !IsSpace(s[i + 1]))
  }

  /** The only white space of a collapsed text is the plain space, and never two in a row. */
  predicate IsCollapsed(s: string) {
    forall i :: 0 <= i < |s| ==> CollapsedAt(s, i)
  }

  lemma {:induction false} NonSpaceConcat(a: string, b: string)
    ensures NonSpace(a + b) == NonSpace(a) + NonSpace(b)
  {
    if |a| > 0 {
      var ab := a + b;
      assert ab[0] == a[0] && ab[1..] == a[1..] + b;
      NonSpaceConcat(a[1..], b);
      if !IsSpace(a[0]) {
        assert [a[0]] + (NonSpace(a[1..]) + NonSpace(b)) == ([a[0]] + NonSpace(a[1..])) + NonSpace(b);
      }
    } else {
      assert a + b == b;
    }
  }

  lemma {:induction false} NonSpaceOfSpace(s: string)
    requires AllSpace(s)
    ensures NonSpace(s) == ""
  {
    if |s| > 0 {
      NonSpaceOfSpace(s[1..]);
    }
  }

  lemma {:induction false} NonSpaceNoLonger(s: string)
    ensures |NonSpace(s)| <= |s|
  {
    if |s| > 0 {
      NonSpaceNoLonger(s[1..]);
    }
  }

  /** Putting a character in front of a collapsed text keeps it collapsed unless it starts a run. */
  lemma {:induction false} ConsCollapsed(c: char, t: string)
    requires IsCollapsed(t)
    requires IsSpace(c) ==> c == ' ' && (|t| > 0 ==> !IsSpace(t[0]))
    ensures IsCollapsed([c] + t)
  {
    var r := [c] + t;
    forall i | 0 <= i < |r|
      ensures CollapsedAt(r, i)
    {
      if i + 1 < |r| {
        assert r[i + 1] == t[i];
      }
      if i > 0 {
        assert r[i] == t[i - 1];
        assert CollapsedAt(t, i - 1);
      }
    }
  }

  /** Collapsing leaves exactly one plain space where each white-space run was. */
  lemma {:induction false} CollapseWsIsCollapsed(s: string)
    ensures IsCollapsed(CollapseWs(s))
    ensures |s| > 0 ==> |CollapseWs(s)| > 0 && (IsSpace(CollapseWs(s)[0]) <==> IsSpace(s[0]))
  {
    if |s| > 0 {
      CollapseWsIsCollapsed(s[1..]);
      var t := CollapseWs(s[1..]);
      if |s| > 1 {
        assert s[1..][0] == s[1];
      }
      if IsSpace(s[0]) && |s| > 1 && IsSpace(s[1]) {
      } else if IsSpace(s[0]) {
        ConsCollapsed(' ', t);
        assert " " + t == [' '] + t;
      } else {
        ConsCollapsed(s[0], t);
      }
    }
  }

  /** A slice of a collapsed text is collapsed. */
  lemma {:induction false} CollapsedSlice(s: string, i: nat, j: nat)
    requires IsCollapsed(s) && i <= j <= |s|
    ensures IsCollapsed(s[i..j])
  {
    var t := s[i..j];
    forall k | 0 <= k < |t|
      ensures CollapsedAt(t, k)
    {
      assert CollapsedAt(s, i + k);
      assert t[k] == s[i + k];
      if k + 1 < |t| {
        assert t[k + 1] == s[i + k + 1];
      }
    }
  }

  /** Collapsing an already collapsed text changes nothing. */
  lemma {:induction false} CollapseOfCollapsed(s: string)
    requires IsCollapsed(s)
    ensures CollapseWs(s) == s
  {
    if |s| > 0 {
      CollapsedSlice(s, 1, |s|);
      assert s[1..|s|] == s[1..];
      CollapseOfCollapsed(s[1..]);
      assert CollapsedAt(s, 0);
      assert s == [s[0]] + s[1..];
    }
  }

  /** Trimming a collapsed text leaves it collapsed. */
  lemma {:induction false} TrimOfCollapsed(c: string)
    requires IsCollapsed(c)
    ensures IsCollapsed(Trim(c))
  {
    var r := Trim(c);
    var i := |c| - |TrimStart(c)|;
    assert i + |r| <= |c| && r == c[i..i + |r|] by {
      TrimIsSlice(c);
    }
    CollapsedSlice(c, i, i + |r|);
  }

  /** The compacted text is collapsed as well as trimmed. */
  lemma {:induction false} CompactWsIsCompact(s: string)
    ensures IsCollapsed(CompactWs(s))
  {
    CollapseWsIsCollapsed(s);
    TrimOfCollapsed(CollapseWs(s));
  }

  /** Compacting twice is compacting once. */
  lemma {:induction false} CompactWsIdempotent(s: string)
    ensures CompactWs(CompactWs(s)) == CompactWs(s)
  {
    var c := CompactWs(s);
    CompactWsIsCompact(s);
    CollapseOfCollapsed(c);
    TrimOfTrimmed(c);
  }

  /** Collapsing keeps every character that is not white space, in order. */
  lemma {:induction false} CollapseWsKeepsText(s: string)
    ensures NonSpace(CollapseWs(s)) == NonSpace(s)
  {
    if |s| > 0 {
      CollapseWsKeepsText(s[1..]);
      if IsSpace(s[0]) && |s| > 1 && IsSpace(s[1]) {
      } else if IsSpace(s[0]) {
        assert (" " + CollapseWs(s[1..]))[1..] == CollapseWs(s[1..]);
      } else {
        assert ([s[0]] + CollapseWs(s[1..]))[1..] == CollapseWs(s[1..]);
      }
    }
  }

  /** Trimming keeps every character that is not white space, in order. */
  lemma {:induction false} TrimKeepsText(s: string)
    ensures NonSpace(Trim(s)) == NonSpace(s)
  {
    TrimIsSlice(s);
    var r := Trim(s);
    var i := |s| - |TrimStart(s)|;
    assert s == s[..i] + r + s[i + |r|..];
    NonSpaceConcat(s[..i] + r, s[i + |r|..]);
    NonSpaceConcat(s[..i], r);
    NonSpaceOfSpace(s[..i]);
    NonSpaceOfSpace(s[i + |r|..]);
  }

  /** Compacting keeps the text: only white space is removed or replaced. */
  lemma {:induction false} CompactWsKeepsText(s: string)
    ensures NonSpace(CompactWs(s)) == NonSpace(s)
  {
    CollapseWsKeepsText(s);
    TrimKeepsText(CollapseWs(s));
  }

  /** A trimmed text of white space only is empty. */
  lemma TrimmedWithoutTextIsEmpty(s: string)
    requires IsTrimmed(s) && NonSpace(s) == ""
    ensures s == ""
  {
  }

  /** Code whose comment-stripped text has at least ten visible characters is not empty. */
  lemma {:induction false} EnoughTextIsNotEmpty(stripComments: string -> string, code: string)
    requires |NonSpace(stripComments(code))| >= MinCodeLength
    ensures !IsEmptyCode(stripComments, code)
  {
    var c := CompactWs(stripComments(code));
    CompactWsKeepsText(stripComments(code));
    NonSpaceNoLonger(c);
  }

  /** Five characters above U+FFFF are ten code units: the code is not empty. */
  lemma {:induction false} AstralTextIsNotEmpty(stripComments: string -> string, code: string)
    requires stripComments(code) == "\U{1F600}\U{1F600}\U{1F600}\U{1F600}\U{1F600}"
    ensures !IsEmptyCode(stripComments, code)
  {
    var s := stripComments(code);
    assert forall i :: 0 <= i < |s| ==> !IsSpace(s[i]) && s[i] as int > 0xFFFF;
    WordCollapse(s, "");
    assert s + "" == s;
    TrimOfTrimmed(s);
    Utf16LengthOfAstral(s);
  }

  /** Code that is only white space once comments are stripped is empty. */
  lemma {:induction false} BlankIsEmpty(stripComments: string -> string, code: string)
    requires AllSpace(stripComments(code))
    ensures IsEmptyCode(stripComments, code)
    ensures CompactWs(stripComments(code)) == ""
  {
    var s := stripComments(code);
    NonSpaceOfSpace(s);
    CompactWsKeepsText(s);
    TrimmedWithoutTextIsEmpty(CompactWs(s));
  }

  /** Length of the run of non-white-space characters that starts `s`. */
  function WordLength(s: string): (n: nat)
    ensures n <= |s|
    ensures forall i :: 0 <= i < n ==> !IsSpace(s[i])
    ensures n < |s| ==> IsSpace(s[n])
  {
    if |s| == 0 || IsSpace(s[0]) then 0 else 1 + WordLength(s[1..])
  }

  /** The words of `s`: its maximal runs of non-white-space characters, in order. */
  function Words(s: string): (ws: seq<string>)
    ensures forall k :: 0 <= k < |ws| ==> ws[k] != ""
    decreases |s|
  {
    if |s| == 0 then []
    else if IsSpace(s[0]) then Words(s[1..])
    else
      var n := WordLength(s);
      [s[..n]] + Words(s[n..])
  }

  /** Collapsing passes a leading word through unchanged. */
  lemma {:induction false} WordCollapse(w: string, b: string)
    requires forall i :: 0 <= i < |w| ==> !IsSpace(w[i])
    ensures CollapseWs(w + b) == w + CollapseWs(b)
  {
    if |w| > 0 {
      var s := w + b;
      assert s[0] == w[0] && s[1..] == w[1..] + b;
      WordCollapse(w[1..], b);
      assert w == [w[0]] + w[1..];
    } else {
      assert w + b == b;
    }
  }

  /** A leading white-space run, however long, collapses to one space. */
  lemma {:induction false} LeadingSpaceCollapse(s: string)
    requires |s| > 0 && IsSpace(s[0])
    ensures CollapseWs(s) == " " + CollapseWs(TrimStart(s))
    decreases |s|
  {
    if |s| > 1 && IsSpace(s[1]) {
      assert s[1..][0] == s[1];
      LeadingSpaceCollapse(s[1..]);
    } else if |s| > 1 {
      assert s[1..][0] == s[1];
    }
  }

  /** Leading white space holds no word. */
  lemma {:induction false} WordsOfTrimStart(s: string)
    ensures Words(TrimStart(s)) == Words(s)
  {
    if |s| > 0 && IsSpace(s[0]) {
      WordsOfTrimStart(s[1..]);
    }
  }

  /** Trailing white space is cut after a text that starts with a visible character. */
  lemma {:induction false} TrimEndAfter(a: string, y: string)
    requires |y| > 0 && !IsSpace(y[0])
    ensures TrimEnd(a + y) == a + TrimEnd(y)
    decreases |y|
  {
    var s := a + y;
    assert s[|s| - 1] == y[|y| - 1];
    if IsSpace(y[|y| - 1]) {
      var y' := y[..|y| - 1];
      assert s[..|s| - 1] == a + y';
      assert y'[0] == y[0];
      TrimEndAfter(a, y');
    }
  }

  /** Trimming a word followed by one space gives the word. */
  lemma {:induction false} TrimWordThenSpace(w: string)
    requires w != "" && IsTrimmed(w)
    ensures Trim(w + " ") == w
  {
    var x := w + " ";
    assert TrimStart(x) == x;
    assert x[..|x| - 1] == w;
    assert TrimEnd(x) == TrimEnd(w);
  }

  /** Trimming a word, a space and a text that starts visibly trims only that text's end. */
  lemma {:induction false} TrimWordThenText(w: string, y: string)
    requires w != "" && IsTrimmed(w)
    requires |y| > 0 && !IsSpace(y[0])
    ensures Trim(w + " " + y) == w + " " + Trim(y)
  {
    var x := w + " " + y;
    assert TrimStart(x) == x;
    TrimEndAfter(w + " ", y);
    assert TrimStart(y) == y;
  }

  /** A text starting with a visible character is its first word followed by nothing or by white space. */
  lemma {:induction false} FirstWord(s: string)
    requires |s| > 0 && !IsSpace(s[0])
    ensures var n := WordLength(s); var w, rest := s[..n], s[n..];
      && w != "" && IsTrimmed(w) && (rest == "" || IsSpace(rest[0]))
      && Words(s) == [w] + Words(rest)
      && CollapseWs(s) == w + CollapseWs(rest)
  {
    var n := WordLength(s);
    var w, rest := s[..n], s[n..];
    assert s == w + rest;
    WordCollapse(w, rest);
  }

  /** A text starting with a visible character compacts to its words joined by single spaces. */
  lemma {:induction false} CollapsedWordsJoin(s: string)
    requires |s| == 0 || !IsSpace(s[0])
    ensures Trim(CollapseWs(s)) == Join(Words(s), ' ')
    decreases |s|
  {
    if |s| > 0 {
      var n := WordLength(s);
      var w, rest := s[..n], s[n..];
      FirstWord(s);
      if rest == "" {
        TrimOfTrimmed(w);
      } else {
        var r2 := TrimStart(rest);
        LeadingSpaceCollapse(rest);
        WordsOfTrimStart(rest);
        var y := CollapseWs(r2);
        assert CollapseWs(s) == w + " " + y;
        if r2 == "" {
          TrimWordThenSpace(w);
        } else {
          CollapsedWordsJoin(r2);
          CollapseWsIsCollapsed(r2);
          TrimWordThenText(w, y);
          JoinCons(w, Words(r2), ' ');
        }
      }
    }
  }

  /**
   * `compactWs` is exactly the words of the text, joined by single spaces:
   * every interior white-space run becomes one space and the ends are cut.
   */
  lemma {:induction false} CompactWsJoinsWords(s: string)
    ensures CompactWs(s) == Join(Words(s), ' ')
  {
    if |s| > 0 && IsSpace(s[0]) {
      var t := TrimStart(s);
      LeadingSpaceCollapse(s);
      WordsOfTrimStart(s);
      CollapsedWordsJoin(t);
      var x := " " + CollapseWs(t);
      assert x[0] == ' ' && x[1..] == CollapseWs(t);
      assert TrimStart(x) == TrimStart(CollapseWs(t));
    } else {
      CollapsedWordsJoin(s);
    }
  }

  /** A word followed by nothing or by white space is exactly the first word. */
  lemma {:induction false} WordLengthOfWord(a: string, rest: string)
    requires forall i :: 0 <= i < |a| ==> !IsSpace(a[i])
    requires rest == "" || IsSpace(rest[0])
    ensures WordLength(a + rest) == |a|
  {
    if |a| > 0 {
      assert (a + rest)[0] == a[0] && (a + rest)[1..] == a[1..] + rest;
      WordLengthOfWord(a[1..], rest);
    } else {
      assert a + rest == rest;
    }
  }

  /** White space in front of a text adds no word. */
  lemma {:induction false} WordsAfterSpace(w: string, b: string)
    requires AllSpace(w)
    ensures Words(w + b) == Words(b)
  {
    if |w| > 0 {
      assert (w + b)[0] == w[0] && (w + b)[1..] == w[1..] + b;
      WordsAfterSpace(w[1..], b);
    } else {
      assert w + b == b;
    }
  }

  /**
   * Two words separated by any non-empty run of white space compact to the two
   * words with exactly one space between them, as "a  b" and "a\tb" give "a b".
   */
  lemma {:induction false} InteriorRunIsOneSpace(a: string, w: string, b: string)
    requires a != "" && b != "" && w != "" && AllSpace(w)
    requires forall i :: 0 <= i < |a| ==> !IsSpace(a[i])
    requires forall i :: 0 <= i < |b| ==> !IsSpace(b[i])
    ensures CompactWs(a + w + b) == a + " " + b
  {
    var s := a + w + b;
    assert s == a + (w + b);
    WordLengthOfWord(a, w + b);
    assert s[0] == a[0] && s[..|a|] == a && s[|a|..] == w + b;
    assert Words(s) == [a] + Words(w + b);
    WordsAfterSpace(w, b);
    WordLengthOfWord(b, "");
    assert b + "" == b && b[..|b|] == b && b[|b|..] == "";
    assert Words(b) == [b];
    JoinCons(a, [b], ' ');
    CompactWsJoinsWords(s);
  }
}
