/** The JavaScript string built-ins the helpers rely on: `split` on one character, `join`,
    a global replace of a literal pattern, Ramda's `reduce(concat, "")`, and the case maps
    and character classes of regular expressions. Letters are ASCII: the case maps change
    `A`-`Z` and `a`-`z` only. */
module JsStrings {

  /** `toLowerCase` of one character. */
  function Lower(c: char): char
  {
    if 'A' <= c <= 'Z' then (c as int + 32) as char else c
  }

  /** `toUpperCase` of one character. */
  function Upper(c: char): char
  {
    if 'a' <= c <= 'z' then (c as int - 32) as char else c
  }

  /** An ASCII capital letter. */
  predicate IsUpperLetter(c: char)
  {
    'A' <= c <= 'Z'
  }

  /** Lower-casing undoes upper-casing: both give the same lower-case letter. */
  lemma LowerUpper(c: char)
    ensures Lower(Upper(c)) == Lower(c)
    ensures Lower(Lower(c)) == Lower(c)
    ensures !IsUpperLetter(Lower(c))
  {
  }

  /** `str.toLowerCase()`: every character lower-cased, nothing else changed. */
  function LowerStr(s: string): (r: string)
    ensures |r| == |s|
    ensures forall i :: 0 <= i < |s| ==> r[i] == Lower(s[i])
  {
    if s == [] then [] else [Lower(s[0])] + LowerStr(s[1..])
  }

  /** Lower-casing distributes over concatenation. */
  lemma LowerStrConcat(a: string, b: string)
    ensures LowerStr(a + b) == LowerStr(a) + LowerStr(b)
  {
    var l, r := LowerStr(a + b), LowerStr(a) + LowerStr(b);
    forall i | 0 <= i < |a + b| ensures l[i] == r[i] {
      if i >= |a| {
        assert (a + b)[i] == b[i - |a|];
      }
    }
  }

  /** A lower-cased string holds no capital letter, and lower-casing it again changes
      nothing. */
  lemma LowerStrLower(s: string)
    ensures forall i :: 0 <= i < |s| ==> !IsUpperLetter(LowerStr(s)[i])
    ensures LowerStr(LowerStr(s)) == LowerStr(s)
  {
    forall i | 0 <= i < |s| ensures !IsUpperLetter(LowerStr(s)[i]) && Lower(Lower(s[i])) == Lower(s[i]) {
      LowerUpper(s[i]);
    }
  }

  /** A character of the regular-expression class `\s`. */
  predicate IsSpace(c: char)
  {
    || '\U{0009}' <= c <= '\U{000D}' || c == ' ' || c == '\U{00A0}' || c == '\U{1680}'
    || '\U{2000}' <= c <= '\U{200A}' || c == '\U{2028}' || c == '\U{2029}' || c == '\U{202F}'
    || c == '\U{205F}' || c == '\U{3000}' || c == '\U{FEFF}'
  }

  /** A character the regular-expression `.` does not match. */
  predicate IsLineTerminator(c: char)
  {
    c == '\n' || c == '\r' || c == '\U{2028}' || c == '\U{2029}'
  }

  /** No case map turns a character into white space or out of it. */
  lemma CaseKeepsSpace(c: char)
    ensures IsSpace(Lower(c)) <==> IsSpace(c)
    ensures IsSpace(Upper(c)) <==> IsSpace(c)
    ensures IsLineTerminator(Lower(c)) <==> IsLineTerminator(c)
  {
  }

  /** `s.split(sep)` for a one-character separator: the pieces between the separators,
      one more than there are separators (`"".split(sep)` is `[""]`). */
  function Split(s: string, sep: char): (r: seq<string>)
    ensures |r| >= 1
    ensures forall k :: 0 <= k < |r| ==> sep !in r[k]
  {
    if s == [] then [[]]
    else
      var rest := Split(s[1..], sep);
      if s[0] == sep then [[]] + rest else [[s[0]] + rest[0]] + rest[1..]
  }

  /** `pieces.join(sep)`: the pieces with `sep` between neighbours; `[].join(sep)` is the
      empty string. */
  function Join(pieces: seq<string>, sep: string): string
  {
    if pieces == [] then []
    else if |pieces| == 1 then pieces[0]
    else pieces[0] + sep + Join(pieces[1..], sep)
  }

  /** Joining the pieces of a split with the separator gives back the string. */
  lemma {:induction false} JoinSplit(s: string, sep: char)
    ensures Join(Split(s, sep), [sep]) == s
  {
    if s != [] {
      JoinSplit(s[1..], sep);
      var rest := Split(s[1..], sep);
      if s[0] == sep {
        assert Split(s, sep) == [[]] + rest;
      } else {
        var r := Split(s, sep);
        assert r == [[s[0]] + rest[0]] + rest[1..];
        if |rest| == 1 {
          assert r == [[s[0]] + rest[0]];
        } else {
          assert r[1..] == rest[1..];
          assert Join(rest, [sep]) == rest[0] + [sep] + Join(rest[1..], [sep]);
        }
      }
    }
  }

  /** Splitting the join of separator-free pieces gives back the pieces. */
  lemma {:induction false} SplitJoin(pieces: seq<string>, sep: char)
    requires |pieces| >= 1
    requires forall k :: 0 <= k < |pieces| ==> sep !in pieces[k]
    ensures Split(Join(pieces, [sep]), sep) == pieces
  {
    if |pieces| == 1 {
      SplitFree(pieces[0], sep);
    } else {
      SplitJoin(pieces[1..], sep);
      SplitAfter(pieces[0], Join(pieces[1..], [sep]), sep);
      assert Join(pieces, [sep]) == pieces[0] + [sep] + Join(pieces[1..], [sep]);
      assert [pieces[0]] + pieces[1..] == pieces;
    }
  }

  /** A string without the separator is split into itself. */
  lemma {:induction false} SplitFree(s: string, sep: char)
    requires sep !in s
    ensures Split(s, sep) == [s]
  {
    if s != [] {
      SplitFree(s[1..], sep);
      assert [s[0]] + s[1..] == s;
    }
  }

  /** Splitting `a + sep + b`, where `a` holds no separator, gives `a` and then the pieces
      of `b`. */
  lemma {:induction false} SplitAfter(a: string, b: string, sep: char)
    requires sep !in a
    ensures Split(a + [sep] + b, sep) == [a] + Split(b, sep)
  {
    if a == [] {
      assert a + [sep] + b == [sep] + b;
    } else {
      SplitAfter(a[1..], b, sep);
      assert (a + [sep] + b)[1..] == a[1..] + [sep] + b;
      assert [a[0]] + a[1..] == a;
    }
  }

  /** Splitting `a + sep + b` gives the pieces of `a` followed by the pieces of `b`. */
  lemma {:induction false} SplitConcat(a: string, b: string, sep: char)
    ensures Split(a + [sep] + b, sep) == Split(a, sep) + Split(b, sep)
  {
    if a == [] {
      assert a + [sep] + b == [sep] + b;
    } else {
      SplitConcat(a[1..], b, sep);
      SplitConcatStep(a, b, sep);
    }
  }

  /** One step of `SplitConcat`: the first character of `a` either starts a new piece or
      joins the first piece of the rest. */
  lemma SplitConcatStep(a: string, b: string, sep: char)
    requires a != []
    requires Split(a[1..] + [sep] + b, sep) == Split(a[1..], sep) + Split(b, sep)
    ensures Split(a + [sep] + b, sep) == Split(a, sep) + Split(b, sep)
  {
    var t, rest, tail := a + [sep] + b, Split(a[1..], sep), Split(b, sep);
    assert t[0] == a[0] && t[1..] == a[1..] + [sep] + b;
    SplitPieces(t, a, sep, rest, tail);
  }

  /** Two strings with the same first character, where the rest of the first splits into
      the pieces of the rest of the second followed by `tail`, split the same way. */
  lemma SplitPieces(t: string, a: string, sep: char, rs: seq<string>, tail: seq<string>)
    requires t != [] && a != [] && t[0] == a[0]
    requires Split(a[1..], sep) == rs && Split(t[1..], sep) == rs + tail
    ensures Split(t, sep) == Split(a, sep) + tail
  {
    if a[0] != sep {
      SplitPiecesJoined(t, a, sep, rs, tail);
    }
  }

  /** `SplitPieces` when the shared first character is not the separator: it joins the
      first piece. */
  lemma SplitPiecesJoined(t: string, a: string, sep: char, rs: seq<string>, tail: seq<string>)
    requires t != [] && a != [] && t[0] == a[0] && a[0] != sep
    requires Split(a[1..], sep) == rs && Split(t[1..], sep) == rs + tail
    ensures Split(t, sep) == Split(a, sep) + tail
  {
    assert (rs + tail)[1..] == rs[1..] + tail;
  }

  /** There is one more piece than there are separators. */
  lemma {:induction false} SplitCount(s: string, sep: char)
    ensures |Split(s, sep)| == multiset(s)[sep] + 1
  {
    if s != [] {
      SplitCount(s[1..], sep);
      assert s == [s[0]] + s[1..];
    }
  }

  /** `R.reduce(R.concat, "", strings)`: the strings concatenated from left to right. */
  function ArrToStr(strings: seq<string>): string
  {
    if strings == [] then []
    else ArrToStr(strings[..|strings| - 1]) + strings[|strings| - 1]
  }

  /** Concatenating a list is concatenating its parts' concatenations. */
  lemma {:induction false} ArrToStrAppend(a: seq<string>, b: seq<string>)
    ensures ArrToStr(a + b) == ArrToStr(a) + ArrToStr(b)
    decreases |b|
  {
    if b == [] {
      assert a + b == a;
    } else {
      var front, last := b[..|b| - 1], b[|b| - 1];
      ArrToStrAppend(a, front);
      assert (a + b)[..|a + b| - 1] == a + front;
      assert ArrToStr(a + b) == ArrToStr(a + front) + last;
      assert ArrToStr(b) == ArrToStr(front) + last;
    }
  }

  /** The concatenation of a list, first element first. */
  lemma ArrToStrCons(s: string, rest: seq<string>)
    ensures ArrToStr([s] + rest) == s + ArrToStr(rest)
  {
    ArrToStrAppend([s], rest);
    assert ArrToStr([s]) == ArrToStr([]) + s;
  }

  /** `s` begins with `p`. */
  predicate StartsWith(s: string, p: string)
  {
    |p| <= |s| && s[..|p|] == p
  }

  /** `pat` occurs somewhere in `s`. */
  predicate Contains(s: string, pat: string)
  {
    exists i :: 0 <= i <= |s| - |pat| && StartsWith(s[i..], pat)
  }

  /** `s.replace(/pat/g, rep)` for a pattern without special characters and a replacement
      without `$` patterns: the occurrences of `pat` found scanning from the left, each
      scan resuming after the occurrence it replaced, become `rep`. */
  function ReplaceAll(s: string, pat: string, rep: string): string
    requires |pat| > 0
  {
    if |s| < |pat| then s
    else if StartsWith(s, pat) then rep + ReplaceAll(s[|pat|..], pat, rep)
    else [s[0]] + ReplaceAll(s[1..], pat, rep)
  }

  /** A string in which the pattern does not occur is returned unchanged. */
  lemma {:induction false} ReplaceAbsent(s: string, pat: string, rep: string)
    requires |pat| > 0
    requires !Contains(s, pat)
    ensures ReplaceAll(s, pat, rep) == s
  {
    if |s| >= |pat| {
      assert !StartsWith(s[0..], pat);
      assert s[0..] == s;
      assert !Contains(s[1..], pat) by {
        forall i | 0 <= i <= |s[1..]| - |pat| ensures !StartsWith(s[1..][i..], pat) {
          assert s[1..][i..] == s[i + 1..];
        }
      }
      ReplaceAbsent(s[1..], pat, rep);
      assert [s[0]] + s[1..] == s;
    }
  }

  /** The first occurrence of the pattern is replaced, and the scan resumes after it. */
  lemma {:induction false} ReplaceFirst(a: string, b: string, pat: string, rep: string)
    requires |pat| > 0
    requires forall i :: 0 <= i < |a| ==> !StartsWith((a + pat + b)[i..], pat)
    ensures ReplaceAll(a + pat + b, pat, rep) == a + rep + ReplaceAll(b, pat, rep)
  {
    var s := a + pat + b;
    if a == [] {
      assert s == pat + b;
      ReplaceAtMatch(pat, b, rep);
    } else {
      NoEarlierMatch(a, b, pat);
      ReplaceFirst(a[1..], b, pat, rep);
      ReplaceNoMatchAt(s, pat, rep);
      var tail := ReplaceAll(b, pat, rep);
      assert [a[0]] + (a[1..] + rep + tail) == a + rep + tail;
    }
  }

  /** A string that does not start with the pattern keeps its first character. */
  lemma ReplaceNoMatchAt(s: string, pat: string, rep: string)
    requires |pat| > 0 && |s| >= |pat| && !StartsWith(s, pat)
    ensures ReplaceAll(s, pat, rep) == [s[0]] + ReplaceAll(s[1..], pat, rep)
  {
  }

  /** A string that starts with the pattern has it replaced first. */
  lemma ReplaceAtMatch(pat: string, b: string, rep: string)
    requires |pat| > 0
    ensures ReplaceAll(pat + b, pat, rep) == rep + ReplaceAll(b, pat, rep)
  {
    var s := pat + b;
    assert StartsWith(s, pat);
    assert s[|pat|..] == b;
  }

  /** Dropping the first character keeps the pattern from starting before `pat`. */
  lemma NoEarlierMatch(a: string, b: string, pat: string)
    requires a != []
    requires forall i :: 0 <= i < |a| ==> !StartsWith((a + pat + b)[i..], pat)
    ensures (a + pat + b)[1..] == a[1..] + pat + b
    ensures !StartsWith(a + pat + b, pat)
    ensures forall i :: 0 <= i < |a[1..]| ==> !StartsWith((a[1..] + pat + b)[i..], pat)
  {
    var s := a + pat + b;
    assert s[1..] == a[1..] + pat + b;
    assert s[0..] == s;
    forall i | 0 <= i < |a[1..]| ensures !StartsWith((a[1..] + pat + b)[i..], pat) {
      assert (a[1..] + pat + b)[i..] == s[i + 1..];
    }
  }

  /** A replacement no longer than the pattern never lengthens the string; one of the same
      length keeps it. */
  lemma {:induction false} ReplaceLength(s: string, pat: string, rep: string)
    requires |pat| > 0
    ensures |rep| <= |pat| ==> |ReplaceAll(s, pat, rep)| <= |s|
    ensures |rep| == |pat| ==> |ReplaceAll(s, pat, rep)| == |s|
    decreases |s|
  {
    if |s| >= |pat| {
      if StartsWith(s, pat) {
        ReplaceLength(s[|pat|..], pat, rep);
      } else {
        ReplaceLength(s[1..], pat, rep);
      }
    }
  }

  /** Replacing the pattern by itself changes nothing: a sanity property of the scan, not
      a use the page generator makes of it. */
  lemma {:induction false} ReplaceBySelf(s: string, pat: string)
    requires |pat| > 0
    ensures ReplaceAll(s, pat, pat) == s
    decreases |s|
  {
    if |s| >= |pat| {
      if StartsWith(s, pat) {
        ReplaceBySelf(s[|pat|..], pat);
        assert s[..|pat|] + s[|pat|..] == s;
      } else {
        ReplaceBySelf(s[1..], pat);
        assert [s[0]] + s[1..] == s;
      }
    }
  }

  /** A tail that cannot end an occurrence of the pattern (it lacks the pattern's last
      character) is kept as it is. */
  lemma {:induction false} ReplaceKeepsTail(a: string, t: string, pat: string, rep: string)
    requires |pat| > 0
    requires pat[|pat| - 1] !in t
    ensures ReplaceAll(a + t, pat, rep) == ReplaceAll(a, pat, rep) + t
    decreases |a|
  {
    var s := a + t;
    if |s| < |pat| {
      assert ReplaceAll(a, pat, rep) == a;
    } else if StartsWith(s, pat) {
      if |a| < |pat| {
        assert false;
      }
      assert a[..|pat|] == s[..|pat|];
      assert s[|pat|..] == a[|pat|..] + t;
      ReplaceKeepsTail(a[|pat|..], t, pat, rep);
    } else if a == [] {
      if |t| >= |pat| {
        ReplaceAbsent(t, pat, rep);
      }
      ReplaceTailAbsent(t, pat, rep);
      assert s == t;
    } else {
      assert s[1..] == a[1..] + t;
      ReplaceKeepsTail(a[1..], t, pat, rep);
      if |a| >= |pat| {
        assert a[..|pat|] == s[..|pat|];
      } else {
        assert ReplaceAll(a, pat, rep) == a;
        assert ReplaceAll(a[1..], pat, rep) == a[1..];
        assert [a[0]] + a[1..] == a;
      }
    }
  }

  /** A string lacking the pattern's last character is returned unchanged. */
  lemma {:induction false} ReplaceTailAbsent(t: string, pat: string, rep: string)
    requires |pat| > 0
    requires pat[|pat| - 1] !in t
    ensures ReplaceAll(t, pat, rep) == t
  {
    forall i | 0 <= i <= |t| - |pat| ensures !StartsWith(t[i..], pat) {
    }
    ReplaceAbsent(t, pat, rep);
  }
}
