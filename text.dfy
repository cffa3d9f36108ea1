/**
 * The JavaScript string primitives the autograder relies on: white space as
 * `String.prototype.trim` and the regular-expression class `\s` see it,
 * `trim`, `split` and `join` on a one-character separator, ASCII
 * `toLowerCase` and `includes`.
 */
module Text {

  /** White space and line terminators, as `trim` and `\s` define them. */
  predicate IsSpace(c: char) {
    || c == '\t' || c == '\n' || c == '\U{000B}' || c == '\U{000C}' || c == '\r'
    || c == ' ' || c == '\U{00A0}' || c == '\U{1680}'
    || ('\U{2000}' <= c <= '\U{200A}')
    || c == '\U{2028}' || c == '\U{2029}' || c == '\U{202F}' || c == '\U{205F}'
    || c == '\U{3000}' || c == '\U{FEFF}'
  }

  /** Every character of `s` is white space. */
  predicate AllSpace(s: string) {
    |s| == 0 || (IsSpace(s[0]) && AllSpace(s[1..]))
  }

  lemma {:induction false} AllSpaceAppend(a: string, c: char)
    requires AllSpace(a) && IsSpace(c)
    ensures AllSpace(a + [c])
  {
    if |a| > 0 {
      assert (a + [c])[1..] == a[1..] + [c];
      AllSpaceAppend(a[1..], c);
    }
  }

  /** Neither end of `s` is white space. */
  predicate IsTrimmed(s: string) {
    s == [] || (!IsSpace(s[0]) && !IsSpace(s[|s| - 1]))
  }

  /** `s` with its leading white space removed. */
  function TrimStart(s: string): (r: string)
    ensures |r| <= |s|
    ensures r == [] || !IsSpace(r[0])
  {
    if |s| > 0 && IsSpace(s[0]) then TrimStart(s[1..]) else s
  }

  /** `TrimStart` cuts a prefix of white space and keeps the rest as it is. */
  lemma {:induction false} TrimStartCuts(s: string)
    ensures var r := TrimStart(s);
      r == s[|s| - |r|..] && AllSpace(s[..|s| - |r|])
  {
    if |s| > 0 && IsSpace(s[0]) {
      var r := TrimStart(s[1..]);
      TrimStartCuts(s[1..]);
      assert s[1..][|s| - 1 - |r|..] == s[|s| - |r|..];
      assert s[..|s| - |r|][1..] == s[1..][..|s| - 1 - |r|];
    }
  }

  /** `s` with its trailing white space removed. */
  function TrimEnd(s: string): (r: string)
    ensures |r| <= |s|
    ensures r == [] || !IsSpace(r[|r| - 1])
  {
    if |s| > 0 && IsSpace(s[|s| - 1]) then TrimEnd(s[..|s| - 1]) else s
  }

  /** `TrimEnd` cuts a suffix of white space and keeps the rest as it is. */
  lemma {:induction false} TrimEndCuts(s: string)
    ensures var r := TrimEnd(s);
      r == s[..|r|] && AllSpace(s[|r|..])
  {
    if |s| > 0 && IsSpace(s[|s| - 1]) {
      var r := TrimEnd(s[..|s| - 1]);
      TrimEndCuts(s[..|s| - 1]);
      assert s[..|s| - 1][..|r|] == s[..|r|];
      assert s[..|s| - 1][|r|..] + [s[|s| - 1]] == s[|r|..];
      AllSpaceAppend(s[..|s| - 1][|r|..], s[|s| - 1]);
    }
  }

  /** JavaScript's `s.trim()`: white space cut from both ends. */
  function Trim(s: string): (r: string)
    ensures IsTrimmed(r)
  {
    var t := TrimStart(s);
    var r := TrimEnd(t);
    assert IsTrimmed(r) by {
      if r != [] {
        TrimEndCuts(t);
        assert r[0] == t[0];
      }
    }
    r
  }

  /** A prefix of a suffix is a slice, and what follows it in the suffix follows it in the whole. */
  lemma {:induction false} SliceOfSuffix(s: string, i: nat, t: string, r: string)
    requires i <= |s| && t == s[i..] && |r| <= |t| && r == t[..|r|]
    ensures i + |r| <= |s| && r == s[i..i + |r|] && s[i + |r|..] == t[|r|..]
  {
    assert s[i..i + |r|] == s[i..][..|r|];
    assert s[i + |r|..] == s[i..][|r|..];
  }

  /** What `trim` leaves is a slice of the original with only white space on either side. */
  lemma {:induction false} TrimIsSlice(s: string)
    ensures var r := Trim(s); var i := |s| - |TrimStart(s)|;
      && i + |r| <= |s| && r == s[i..i + |r|]
      && AllSpace(s[..i]) && AllSpace(s[i + |r|..])
  {
    var t := TrimStart(s);
    var r := TrimEnd(t);
    assert r == Trim(s);
    var i := |s| - |t|;
    assert t == s[i..] && AllSpace(s[..i]) by {
      TrimStartCuts(s);
    }
    assert r == t[..|r|] && AllSpace(t[|r|..]) by {
      TrimEndCuts(t);
    }
    SliceOfSuffix(s, i, t, r);
  }

  lemma TrimOfTrimmed(s: string)
    requires IsTrimmed(s)
    ensures Trim(s) == s
  {
  }

  /** JavaScript's `s.length`: UTF-16 code units, two for each character above U+FFFF. */
  function Utf16Length(s: string): (n: nat)
    ensures |s| <= n <= 2 * |s|
  {
    if |s| == 0 then 0
    else (if s[0] as int > 0xFFFF then 2 else 1) + Utf16Length(s[1..])
  }

  /** A text of Basic Multilingual Plane characters has one code unit per character. */
  lemma {:induction false} Utf16LengthOfBmp(s: string)
    requires forall i :: 0 <= i < |s| ==> s[i] as int <= 0xFFFF
    ensures Utf16Length(s) == |s|
  {
    if |s| > 0 {
      Utf16LengthOfBmp(s[1..]);
    }
  }

  /** A text of characters above U+FFFF has two code units per character. */
  lemma {:induction false} Utf16LengthOfAstral(s: string)
    requires forall i :: 0 <= i < |s| ==> s[i] as int > 0xFFFF
    ensures Utf16Length(s) == 2 * |s|
  {
    if |s| > 0 {
      Utf16LengthOfAstral(s[1..]);
    }
  }

  /** JavaScript's `s.split(d)` for a one-character separator: never an empty list. */
  function Split(s: string, d: char): (parts: seq<string>)
    ensures |parts| >= 1
  {
    if |s| == 0 then [""]
    else if s[0] == d then [""] + Split(s[1..], d)
    else
      var rest := Split(s[1..], d);
      [[s[0]] + rest[0]] + rest[1..]
  }

  /** No part of a split contains the separator. */
  lemma {:induction false} SplitPartsLackSeparator(s: string, d: char)
    ensures forall p :: p in Split(s, d) ==> d !in p
  {
    if |s| > 0 {
      var rest := Split(s[1..], d);
      SplitPartsLackSeparator(s[1..], d);
      if s[0] != d {
        assert rest[0] in rest;
        assert forall p :: p in rest[1..] ==> p in rest;
      }
    }
  }

  /** JavaScript's `parts.join(d)`. */
  function Join(parts: seq<string>, d: char): string {
    if |parts| == 0 then ""
    else if |parts| == 1 then parts[0]
    else parts[0] + [d] + Join(parts[1..], d)
  }

  lemma {:induction false} JoinCons(p: string, parts: seq<string>, d: char)
    requires |parts| >= 1
    ensures Join([p] + parts, d) == p + [d] + Join(parts, d)
  {
    assert ([p] + parts)[1..] == parts;
  }

  /** Splitting and re-joining gives back the original string. */
  lemma {:induction false} JoinSplit(s: string, d: char)
    ensures Join(Split(s, d), d) == s
  {
    if |s| > 0 {
      var rest := Split(s[1..], d);
      assert Join(rest, d) == s[1..] by {
        JoinSplit(s[1..], d);
      }
      assert s == [s[0]] + s[1..];
      if s[0] == d {
        assert Split(s, d) == [""] + rest;
        JoinCons("", rest, d);
      } else if |rest| == 1 {
        assert Split(s, d) == [[s[0]] + rest[0]];
      } else {
        assert Split(s, d) == [[s[0]] + rest[0]] + rest[1..];
        assert Join(Split(s, d), d) == [s[0]] + rest[0] + [d] + Join(rest[1..], d) by {
          JoinCons([s[0]] + rest[0], rest[1..], d);
        }
        assert Join(rest, d) == rest[0] + [d] + Join(rest[1..], d) by {
          assert rest == [rest[0]] + rest[1..];
          JoinCons(rest[0], rest[1..], d);
        }
      }
    }
  }

  /** A string without the separator splits into itself alone. */
  lemma {:induction false} SplitWithout(a: string, d: char)
    requires d !in a
    ensures Split(a, d) == [a]
  {
    if |a| > 0 {
      SplitWithout(a[1..], d);
      assert [a[0]] + a[1..] == a;
    }
  }

  /** The first separator ends the first part. */
  lemma {:induction false} SplitAtFirst(a: string, d: char, rest: string)
    requires d !in a
    ensures Split(a + [d] + rest, d) == [a] + Split(rest, d)
  {
    var s := a + [d] + rest;
    if |a| == 0 {
      assert s[1..] == rest;
    } else {
      assert s[1..] == a[1..] + [d] + rest;
      SplitAtFirst(a[1..], d, rest);
      assert [a[0]] + a[1..] == a;
    }
  }

  /** Joining parts that hold no separator and splitting again gives back the parts. */
  lemma {:induction false} SplitJoin(parts: seq<string>, d: char)
    requires |parts| >= 1
    requires forall p :: p in parts ==> d !in p
    ensures Split(Join(parts, d), d) == parts
  {
    if |parts| == 1 {
      SplitWithout(parts[0], d);
    } else {
      assert parts[0] in parts;
      SplitJoin(parts[1..], d);
      SplitAtFirst(parts[0], d, Join(parts[1..], d));
      assert parts == [parts[0]] + parts[1..];
    }
  }

  /** A string holding the separator splits into at least two parts. */
  lemma {:induction false} SplitHasTwo(s: string, d: char)
    requires d in s
    ensures |Split(s, d)| >= 2
  {
    if s[0] != d {
      assert d in s[1..] by {
        var k :| 0 <= k < |s| && s[k] == d;
        assert s[1..][k - 1] == d;
      }
      SplitHasTwo(s[1..], d);
    }
  }

  /** The last part of a split is whatever follows the last separator. */
  lemma {:induction false} LastOfSplit(a: string, d: char, b: string)
    requires d !in b
    ensures var parts := Split(a + [d] + b, d); parts[|parts| - 1] == b
  {
    var s := a + [d] + b;
    if |a| == 0 {
      assert s == [d] + b && s[1..] == b;
      SplitWithout(b, d);
    } else {
      assert s[1..] == a[1..] + [d] + b;
      LastOfSplit(a[1..], d, b);
      var rest := Split(s[1..], d);
      assert d in s[1..] by {
        assert s[1..][|a| - 1] == d;
      }
      SplitHasTwo(s[1..], d);
      if s[0] == d {
        assert Split(s, d) == [""] + rest;
      } else {
        assert Split(s, d) == [[s[0]] + rest[0]] + rest[1..];
      }
    }
  }

  /** ASCII lower-casing of one character. */
  function LowerChar(c: char): (r: char)
    ensures 'A' <= c <= 'Z' ==> 'a' <= r <= 'z'
    ensures !('A' <= c <= 'Z') ==> r == c
  {
    if 'A' <= c <= 'Z' then (c as int + 32) as char else c
  }

  /** `s.toLowerCase()` on the ASCII letters. */
  function ToLower(s: string): (r: string)
    ensures |r| == |s|
  {
    if |s| == 0 then "" else [LowerChar(s[0])] + ToLower(s[1..])
  }

  /** Lower-casing works character by character. */
  lemma {:induction false} ToLowerAt(s: string)
    ensures forall k :: 0 <= k < |s| ==> ToLower(s)[k] == LowerChar(s[k])
  {
    if |s| > 0 {
      ToLowerAt(s[1..]);
    }
  }

  lemma {:induction false} ToLowerConcat(a: string, b: string)
    ensures ToLower(a + b) == ToLower(a) + ToLower(b)
  {
    ToLowerAt(a + b);
    ToLowerAt(a);
    ToLowerAt(b);
    assert forall k :: 0 <= k < |a + b| ==> ToLower(a + b)[k] == (ToLower(a) + ToLower(b))[k];
  }

  lemma {:induction false} ToLowerIdempotent(s: string)
    ensures ToLower(ToLower(s)) == ToLower(s)
  {
    ToLowerAt(s);
    ToLowerAt(ToLower(s));
    assert forall k :: 0 <= k < |s| ==> ToLower(ToLower(s))[k] == ToLower(s)[k];
  }

  /** `needle` is a substring of `hay`. */
  ghost predicate Occurs(needle: string, hay: string) {
    exists i :: 0 <= i <= |hay| && needle <= hay[i..]
  }

  /** JavaScript's `hay.includes(needle)`: tries each starting position in turn. */
  function Includes(hay: string, needle: string): bool {
    if needle <= hay then true
    else if |hay| == 0 then false
    else Includes(hay[1..], needle)
  }

  /** `Includes` finds exactly the substrings. */
  lemma {:induction false} IncludesIffOccurs(hay: string, needle: string)
    ensures Includes(hay, needle) <==> Occurs(needle, hay)
  {
    if needle <= hay {
      assert hay[0..] == hay;
    } else if |hay| > 0 {
      OccursShift(needle, hay);
      IncludesIffOccurs(hay[1..], needle);
    }
  }

  /** When `needle` is not a prefix, it occurs in `hay` exactly when it occurs after the first character. */
  lemma {:induction false} OccursShift(needle: string, hay: string)
    requires |hay| > 0 && !(needle <= hay)
    ensures Occurs(needle, hay) <==> Occurs(needle, hay[1..])
  {
    if Occurs(needle, hay) {
      var i :| 0 <= i <= |hay| && needle <= hay[i..];
      assert i != 0 by { assert hay[0..] == hay; }
      assert hay[1..][i - 1..] == hay[i..];
    }
    if Occurs(needle, hay[1..]) {
      var j :| 0 <= j <= |hay[1..]| && needle <= hay[1..][j..];
      assert hay[1..][j..] == hay[j + 1..];
    }
  }

  /** A substring is no longer than the text it occurs in. */
  lemma OccursNeedsRoom(needle: string, hay: string)
    ensures Occurs(needle, hay) ==> |needle| <= |hay|
  {
  }

  /** A substring of one piece is a substring of any concatenation containing it. */
  lemma {:induction false} OccursInConcat(needle: string, a: string, b: string)
    requires Occurs(needle, a)
    ensures Occurs(needle, a + b) && Occurs(needle, b + a)
  {
    var i :| 0 <= i <= |a| && needle <= a[i..];
    assert (a + b)[i..] == a[i..] + b;
    assert (b + a)[|b| + i..] == a[i..];
  }
}
