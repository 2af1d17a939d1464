/** The string helpers of the page generator: file names, title case, template tags, the
    "The" rewriting of suburb names, the footer link lists and breadcrumbs, and the lookup
    of a suburb's nearby list in the cache the cacher builds. */
module PageGen {
  import opened Wrappers
  import opened Seqs
  import opened JsStrings
  import NearbyCacher
  import Geo

  /** `spacesToHyphens` (`R.replace(/\s/g, "-")`): every white-space character becomes a
      hyphen, every other character is kept. */
  function SpacesToHyphens(s: string): (r: string)
    ensures |r| == |s|
    ensures forall i :: 0 <= i < |s| ==> r[i] == if IsSpace(s[i]) then '-' else s[i]
  {
    if s == [] then [] else [if IsSpace(s[0]) then '-' else s[0]] + SpacesToHyphens(s[1..])
  }

  /** Hyphenating leaves no white space, and hyphenating again changes nothing. */
  lemma SpacesToHyphensNoSpace(s: string)
    ensures forall i :: 0 <= i < |s| ==> !IsSpace(SpacesToHyphens(s)[i])
    ensures SpacesToHyphens(SpacesToHyphens(s)) == SpacesToHyphens(s)
  {
  }

  /** The replacement loop of `toTitleCase` over a lower-cased string: scanning from the
      left, a match of `^(.)` (at the start) or `[\s-](.)` is upper-cased as a whole and
      the scan resumes after it; `.` does not match a line terminator. A run of separators
      is therefore consumed two characters at a time: `"a  b"` gives `"A  b"`, since the
      second space is the `(.)` of the first match, while `"a   b"` gives `"A   B"`. */
  function Capitalize(s: string, atStart: bool): (r: string)
    ensures |r| == |s|
    ensures forall i :: 0 <= i < |s| ==> r[i] == s[i] || r[i] == Upper(s[i])
    decreases |s|
  {
    if s == [] then []
    else if atStart && !IsLineTerminator(s[0]) then [Upper(s[0])] + Capitalize(s[1..], false)
    else if |s| >= 2 && (IsSpace(s[0]) || s[0] == '-') && !IsLineTerminator(s[1]) then
      [Upper(s[0]), Upper(s[1])] + Capitalize(s[2..], false)
    else [s[0]] + Capitalize(s[1..], false)
  }

  /** `toTitleCase`: the string lower-cased, then the first character and the character
      after each matched white space or hyphen upper-cased. */
  function TitleCase(s: string): string
  {
    Capitalize(LowerStr(s), true)
  }

  /** Title case keeps the length, changes only the case of letters, and upper-cases the
      first character unless it is a line terminator. */
  lemma TitleCaseShape(s: string)
    ensures |TitleCase(s)| == |s|
    ensures forall i :: 0 <= i < |s| ==>
      TitleCase(s)[i] == Lower(s[i]) || TitleCase(s)[i] == Upper(Lower(s[i]))
    ensures forall i :: 0 <= i < |s| ==> Lower(TitleCase(s)[i]) == Lower(s[i])
    ensures |s| > 0 && !IsLineTerminator(s[0]) ==> TitleCase(s)[0] == Upper(s[0])
  {
    forall i | 0 <= i < |s| ensures Lower(TitleCase(s)[i]) == Lower(s[i]) {
      LowerUpper(Lower(s[i]));
      LowerUpper(s[i]);
    }
    if |s| > 0 && !IsLineTerminator(s[0]) {
      CaseKeepsSpace(s[0]);
    }
  }

  /** A character the title-case pattern `[\s-]` matches. */
  predicate IsSeparator(c: char)
  {
    IsSpace(c) || c == '-'
  }

  /** The first character of a scan that is not at the start is kept: a separator keeps
      its case under `Upper`, every other character is copied. */
  lemma CapitalizeFirst(t: string)
    requires t != []
    ensures Capitalize(t, false)[0] == t[0]
  {
  }

  /** Which characters the replacement upper-cases. Past the first position, a character
      after a non-separator is copied; a character that is not a line terminator, after a
      separator that the scan reaches (one after a non-separator, or the first character of
      a scan not at the start), is upper-cased. */
  lemma {:induction false} CapitalizeAt(t: string, b: bool, i: nat)
    requires 1 <= i < |t|
    ensures !IsSeparator(t[i - 1]) ==> Capitalize(t, b)[i] == t[i]
    ensures (IsSeparator(t[i - 1]) && !IsLineTerminator(t[i]) &&
             ((i >= 2 && !IsSeparator(t[i - 2])) || (i == 1 && !b))) ==>
      Capitalize(t, b)[i] == Upper(t[i])
    decreases |t|, 2
  {
    if b && !IsLineTerminator(t[0]) {
      CapitalizeAtStart(t, b, i);
    } else if |t| >= 2 && IsSeparator(t[0]) && !IsLineTerminator(t[1]) {
      CapitalizeAtPair(t, b, i);
    } else {
      CapitalizeAtCopy(t, b, i);
    }
  }

  /** The two facts `CapitalizeAt` states about position `i`. */
  ghost predicate ScannedAt(t: string, b: bool, i: nat)
    requires 1 <= i < |t|
  {
    && (!IsSeparator(t[i - 1]) ==> Capitalize(t, b)[i] == t[i])
    && ((IsSeparator(t[i - 1]) && !IsLineTerminator(t[i]) &&
         ((i >= 2 && !IsSeparator(t[i - 2])) || (i == 1 && !b))) ==>
        Capitalize(t, b)[i] == Upper(t[i]))
  }

  /** `CapitalizeAt` when the scan is at the start and matches `^(.)`. */
  lemma {:induction false} CapitalizeAtStart(t: string, b: bool, i: nat)
    requires 1 <= i < |t| && b && !IsLineTerminator(t[0])
    ensures ScannedAt(t, b, i)
    decreases |t|, 1
  {
    assert Capitalize(t, b) == [Upper(t[0])] + Capitalize(t[1..], false);
    CapitalizeShift(t[1..], i - 1);
  }

  /** `CapitalizeAt` when the scan matches `[\s-](.)` at its first two characters. */
  lemma {:induction false} CapitalizeAtPair(t: string, b: bool, i: nat)
    requires 1 <= i < |t| && !(b && !IsLineTerminator(t[0]))
    requires IsSeparator(t[0]) && !IsLineTerminator(t[1])
    ensures ScannedAt(t, b, i)
    decreases |t|, 1
  {
    if i >= 2 {
      CapitalizeAtPairRest(t, b, i);
    } else {
      assert Capitalize(t, b)[1] == Upper(t[1]);
    }
  }

  /** `CapitalizeAtPair` past the two matched characters. */
  lemma {:induction false} CapitalizeAtPairRest(t: string, b: bool, i: nat)
    requires 2 <= i < |t| && !(b && !IsLineTerminator(t[0]))
    requires IsSeparator(t[0]) && !IsLineTerminator(t[1])
    ensures ScannedAt(t, b, i)
    decreases |t|, 0
  {
    assert Capitalize(t, b) == [Upper(t[0]), Upper(t[1])] + Capitalize(t[2..], false);
    CapitalizeShift(t[2..], i - 2);
  }

  /** `CapitalizeAt` when the first character is copied and the scan moves on by one. */
  lemma {:induction false} CapitalizeAtCopy(t: string, b: bool, i: nat)
    requires 1 <= i < |t| && !(b && !IsLineTerminator(t[0]))
    requires !(IsSeparator(t[0]) && !IsLineTerminator(t[1]))
    ensures ScannedAt(t, b, i)
    decreases |t|, 1
  {
    assert Capitalize(t, b) == [t[0]] + Capitalize(t[1..], false);
    CapitalizeShift(t[1..], i - 1);
  }

  /** The facts of `CapitalizeAt` for the rest of a scan, one or two characters on. */
  lemma {:induction false} CapitalizeShift(t: string, j: nat)
    requires j < |t|
    ensures j == 0 ==> Capitalize(t, false)[0] == t[0]
    ensures j >= 1 && !IsSeparator(t[j - 1]) ==> Capitalize(t, false)[j] == t[j]
    ensures j >= 1 && IsSeparator(t[j - 1]) && !IsLineTerminator(t[j]) && (j == 1 || !IsSeparator(t[j - 2])) ==>
      Capitalize(t, false)[j] == Upper(t[j])
    decreases |t|, 3
  {
    if j == 0 {
      CapitalizeFirst(t);
    } else {
      CapitalizeAt(t, false, j);
    }
  }

  /** Title case upper-cases the character after a white space or hyphen that follows
      another character, and lower-cases every character after any other character. */
  lemma TitleCaseAt(s: string, i: nat)
    requires i < |s|
    ensures 2 <= i && IsSeparator(s[i - 1]) && !IsSeparator(s[i - 2]) && !IsLineTerminator(s[i]) ==>
      TitleCase(s)[i] == Upper(Lower(s[i]))
    ensures 0 < i && !IsSeparator(s[i - 1]) ==> TitleCase(s)[i] == Lower(s[i])
  {
    if 0 < i {
      var t := LowerStr(s);
      CaseKeepsSpace(s[i - 1]);
      CaseKeepsSpace(s[i]);
      if i >= 2 {
        CaseKeepsSpace(s[i - 2]);
      }
      CapitalizeAt(t, true, i);
    }
  }

  /** Title case is idempotent. */
  lemma TitleCaseIdempotent(s: string)
    ensures TitleCase(TitleCase(s)) == TitleCase(s)
  {
    TitleCaseShape(s);
    LowerStrLower(s);
    assert LowerStr(TitleCase(s)) == LowerStr(s);
  }

  /** The suffix of every generated file name. */
  const HtmlSuffix: string := ".html"

  /** `filenameMake`: the name hyphenated, with `.html` appended, lower-cased. */
  function FilenameMake(name: string): string
  {
    LowerStr(SpacesToHyphens(name) + HtmlSuffix)
  }

  /** A file name is the hyphenated, lower-cased name followed by `.html`; it holds no
      capital letter and no white space. */
  lemma FilenameShape(name: string)
    ensures FilenameMake(name) == LowerStr(SpacesToHyphens(name)) + HtmlSuffix
    ensures |FilenameMake(name)| == |name| + |HtmlSuffix|
    ensures forall i :: 0 <= i < |FilenameMake(name)| ==>
      !IsUpperLetter(FilenameMake(name)[i]) && !IsSpace(FilenameMake(name)[i])
  {
    var h := SpacesToHyphens(name);
    LowerWithSuffix(h);
    LowerStrLower(h + HtmlSuffix);
    SpacesToHyphensNoSpace(name);
    LowerKeepsNoSpace(h);
    assert forall i :: 0 <= i < |HtmlSuffix| ==> !IsSpace(HtmlSuffix[i]);
  }

  /** Lower-casing a string without white space gives one without white space. */
  lemma LowerKeepsNoSpace(t: string)
    requires forall i :: 0 <= i < |t| ==> !IsSpace(t[i])
    ensures forall i :: 0 <= i < |t| ==> !IsSpace(LowerStr(t)[i])
  {
    forall i | 0 <= i < |t| ensures !IsSpace(LowerStr(t)[i]) {
      CaseKeepsSpace(t[i]);
    }
  }

  /** `R.filter(R.compose(R.not, R.isEmpty))` on a list of strings: the non-empty ones, in
      order. */
  function DropEmpty(pieces: seq<string>): (r: seq<string>)
    ensures forall k :: 0 <= k < |r| ==> r[k] != []
    ensures forall x :: x in r <==> x in pieces && x != []
  {
    if pieces == [] then []
    else if pieces[0] == [] then DropEmpty(pieces[1..])
    else [pieces[0]] + DropEmpty(pieces[1..])
  }

  /** `strToArr`: the non-empty lines of a string, in order. */
  function StrToArr(s: string): (r: seq<string>)
    ensures forall k :: 0 <= k < |r| ==> r[k] != [] && '\n' !in r[k]
  {
    var r := DropEmpty(Split(s, '\n'));
    assert forall k :: 0 <= k < |r| ==> r[k] in Split(s, '\n');
    r
  }

  /** Concatenating the pieces of a split gives the string without its separators. */
  lemma {:induction false} ArrToStrSplit(s: string, sep: char)
    ensures ArrToStr(Split(s, sep)) == Without(sep, s)
  {
    if s != [] {
      ArrToStrSplit(s[1..], sep);
      ArrToStrSplitStep(s, sep);
      assert s == [s[0]] + s[1..];
    }
  }

  /** Splitting one more character adds it to the concatenation unless it is the
      separator. */
  lemma ArrToStrSplitStep(s: string, sep: char)
    requires s != []
    ensures ArrToStr(Split(s, sep)) == (if s[0] == sep then [] else [s[0]]) + ArrToStr(Split(s[1..], sep))
  {
    var rest := Split(s[1..], sep);
    assert [rest[0]] + rest[1..] == rest;
    ArrToStrCons(rest[0], rest[1..]);
    if s[0] == sep {
      ArrToStrCons([], rest);
    } else {
      ArrToStrCons([s[0]] + rest[0], rest[1..]);
    }
  }

  /** Dropping the empty strings does not change the concatenation. */
  lemma {:induction false} ArrToStrDropEmpty(pieces: seq<string>)
    ensures ArrToStr(DropEmpty(pieces)) == ArrToStr(pieces)
  {
    if pieces != [] {
      ArrToStrDropEmpty(pieces[1..]);
      ArrToStrCons(pieces[0], pieces[1..]);
      assert [pieces[0]] + pieces[1..] == pieces;
      if pieces[0] != [] {
        ArrToStrCons(pieces[0], DropEmpty(pieces[1..]));
      }
    }
  }

  /** A list without empty strings is kept whole. */
  lemma {:induction false} DropEmptyNone(pieces: seq<string>)
    requires forall k :: 0 <= k < |pieces| ==> pieces[k] != []
    ensures DropEmpty(pieces) == pieces
  {
    if pieces != [] {
      DropEmptyNone(pieces[1..]);
      assert [pieces[0]] + pieces[1..] == pieces;
    }
  }

  /** Dropping the empty strings distributes over concatenation: the kept strings keep
      their order and their multiplicity. */
  lemma {:induction false} DropEmptyConcat(a: seq<string>, b: seq<string>)
    ensures DropEmpty(a + b) == DropEmpty(a) + DropEmpty(b)
  {
    if a == [] {
      assert a + b == b;
    } else {
      assert (a + b)[0] == a[0] && (a + b)[1..] == a[1..] + b;
      DropEmptyConcat(a[1..], b);
    }
  }

  /** The lines kept by `strToArr` hold every character of the string except the newlines,
      in order. Joining newline-free lines with newlines and splitting again gives back
      exactly the non-empty ones, in order; when none is empty, all of them. */
  lemma StrToArrRoundTrip(s: string, ls: seq<string>)
    ensures ArrToStr(StrToArr(s)) == Without('\n', s)
    ensures (forall k :: 0 <= k < |ls| ==> '\n' !in ls[k]) ==> StrToArr(Join(ls, "\n")) == DropEmpty(ls)
    ensures (forall k :: 0 <= k < |ls| ==> ls[k] != [] && '\n' !in ls[k]) ==> StrToArr(Join(ls, "\n")) == ls
  {
    ArrToStrDropEmpty(Split(s, '\n'));
    ArrToStrSplit(s, '\n');
    if forall k :: 0 <= k < |ls| ==> '\n' !in ls[k] {
      if ls == [] {
        assert Split([], '\n') == [[]];
      } else {
        SplitJoin(ls, '\n');
      }
    }
    if forall k :: 0 <= k < |ls| ==> ls[k] != [] && '\n' !in ls[k] {
      DropEmptyNone(ls);
    }
  }

  /** The lines of `a + "\n" + b` are the lines of `a` followed by the lines of `b`; with
      `StrToArrRoundTrip` this fixes the result on every string, a trailing newline
      included. */
  lemma StrToArrConcat(a: string, b: string)
    ensures StrToArr(a + "\n" + b) == StrToArr(a) + StrToArr(b)
  {
    SplitConcat(a, b, '\n');
    DropEmptyConcat(Split(a, '\n'), Split(b, '\n'));
  }

  /** The template tag `{{key}}`. */
  function Tag(key: string): string
  {
    "{{" + key + "}}"
  }

  /** `filter(key, value)` applied to a template: every `{{key}}` found scanning from the
      left is replaced by `value`. The key is an identifier and the value holds no `$`. */
  function Filter(key: string, value: string, template: string): string
  {
    ReplaceAll(template, Tag(key), value)
  }

  /** A template without the tag is returned unchanged; the first tag in a template is
      replaced and the rest of the template is filled after it. The last clause, filling in
      the tag itself, is a sanity property of the replace only: no call fills a tag with
      its own text. */
  lemma FilterTags(key: string, value: string, before: string, after: string, template: string)
    ensures !Contains(template, Tag(key)) ==> Filter(key, value, template) == template
    ensures (forall i :: 0 <= i < |before| ==> !StartsWith((before + Tag(key) + after)[i..], Tag(key))) ==>
      Filter(key, value, before + Tag(key) + after) == before + value + Filter(key, value, after)
    ensures Filter(key, Tag(key), template) == template
  {
    if !Contains(template, Tag(key)) {
      ReplaceAbsent(template, Tag(key), value);
    }
    if forall i :: 0 <= i < |before| ==> !StartsWith((before + Tag(key) + after)[i..], Tag(key)) {
      ReplaceFirst(before, after, Tag(key), value);
    }
    ReplaceBySelf(template, Tag(key));
  }

  /** `theToLower`: every `The` becomes `the`. */
  function TheToLower(s: string): string
  {
    ReplaceAll(s, "The", "the")
  }

  /** Exactly the `T` that begins a `The` is lower-cased. */
  lemma {:induction false} TheToLowerAt(s: string)
    ensures LowerThe(s, TheToLower(s))
  {
    if |s| >= 3 {
      if StartsWith(s, "The") {
        TheToLowerAt(s[3..]);
        TheToLowerAtMatch(s);
      } else {
        TheToLowerAt(s[1..]);
        TheToLowerAtSkip(s);
      }
    } else {
      TheToLowerAtShort(s);
    }
  }

  /** A string too short to hold a `The` is kept. */
  lemma TheToLowerAtShort(s: string)
    requires |s| < 3
    ensures LowerThe(s, TheToLower(s))
  {
    assert TheToLower(s) == s;
    forall i | 0 <= i < |s| ensures !StartsWith(s[i..], "The") {
      assert |s[i..]| < 3;
    }
  }

  /** `r` is `s` with exactly the `T` that begins each `The` lower-cased. */
  predicate LowerThe(s: string, r: string)
  {
    && |r| == |s|
    && forall i :: 0 <= i < |s| ==> r[i] == if StartsWith(s[i..], "The") then 't' else s[i]
  }

  /** A `The` at the start becomes `the` and the scan goes on after it. */
  lemma TheToLowerAtMatch(s: string)
    requires |s| >= 3 && StartsWith(s, "The")
    requires LowerThe(s[3..], TheToLower(s[3..]))
    ensures LowerThe(s, TheToLower(s))
  {
    var r, rest := TheToLower(s), TheToLower(s[3..]);
    assert r == "the" + rest;
    assert s[..3] == "The";
    forall i | 0 <= i < 3 ensures r[i] == if StartsWith(s[i..], "The") then 't' else s[i] {
      if i > 0 {
        assert s[i..][0] == s[i] != 'T';
      }
    }
    forall i | 3 <= i < |s| ensures r[i] == if StartsWith(s[i..], "The") then 't' else s[i] {
      assert r[i] == rest[i - 3];
      assert s[i..] == s[3..][i - 3..];
    }
  }

  /** A first character that does not begin a `The` is kept and the scan goes on after
      it. */
  lemma TheToLowerAtSkip(s: string)
    requires |s| >= 3 && !StartsWith(s, "The")
    requires LowerThe(s[1..], TheToLower(s[1..]))
    ensures LowerThe(s, TheToLower(s))
  {
    var r := TheToLower(s);
    assert r == [s[0]] + TheToLower(s[1..]);
    forall i | 1 <= i < |s| ensures r[i] == if StartsWith(s[i..], "The") then 't' else s[i] {
      assert s[i..] == s[1..][i - 1..];
    }
  }

  /** No `The` is left after `theToLower`, and the length is kept. */
  lemma TheToLowerNoThe(s: string)
    ensures |TheToLower(s)| == |s|
    ensures !Contains(TheToLower(s), "The")
  {
    TheToLowerAt(s);
    var r := TheToLower(s);
    forall i | 0 <= i <= |r| - 3 ensures !StartsWith(r[i..], "The") {
      assert r[i..][..3] == [r[i], r[i + 1], r[i + 2]];
      assert s[i..][..3] == [s[i], s[i + 1], s[i + 2]];
      assert r[i] == if StartsWith(s[i..], "The") then 't' else s[i];
      assert r[i + 1] == if StartsWith(s[i + 1..], "The") then 't' else s[i + 1];
    }
  }

  /** `noThe`: `the `, `the-`, `The ` and `The-` removed, in that order. */
  function NoThe(s: string): string
  {
    ReplaceAll(ReplaceAll(ReplaceAll(ReplaceAll(s, "the ", ""), "the-", ""), "The ", ""), "The-", "")
  }

  /** `noThe` never lengthens a string, and changes none without any of its patterns. */
  lemma NoTheShape(s: string)
    ensures |NoThe(s)| <= |s|
    ensures !Contains(s, "the ") && !Contains(s, "the-") && !Contains(s, "The ") && !Contains(s, "The-") ==>
      NoThe(s) == s
  {
    var s1 := ReplaceAll(s, "the ", "");
    var s2 := ReplaceAll(s1, "the-", "");
    var s3 := ReplaceAll(s2, "The ", "");
    ReplaceLength(s, "the ", "");
    ReplaceLength(s1, "the-", "");
    ReplaceLength(s2, "The ", "");
    ReplaceLength(s3, "The-", "");
    if !Contains(s, "the ") && !Contains(s, "the-") && !Contains(s, "The ") && !Contains(s, "The-") {
      ReplaceAbsent(s, "the ", "");
      ReplaceAbsent(s, "the-", "");
      ReplaceAbsent(s, "The ", "");
      ReplaceAbsent(s, "The-", "");
    }
  }

  /** `noThe` keeps a tail without spaces and hyphens: no pattern can end inside it. */
  lemma NoTheKeepsTail(a: string, t: string)
    requires ' ' !in t && '-' !in t
    ensures NoThe(a + t) == NoThe(a) + t
  {
    var a1 := ReplaceAll(a, "the ", "");
    var a2 := ReplaceAll(a1, "the-", "");
    var a3 := ReplaceAll(a2, "The ", "");
    ReplaceKeepsTail(a, t, "the ", "");
    ReplaceKeepsTail(a1, t, "the-", "");
    ReplaceKeepsTail(a2, t, "The ", "");
    ReplaceKeepsTail(a3, t, "The-", "");
  }

  /** The link target of an area: `R.toLower(path + noThe(filenameMake(x)))`. */
  function Href(path: string, x: string): string
  {
    LowerStr(path + NoThe(FilenameMake(x)))
  }

  /** Lower-casing leaves the `.html` suffix as it is. */
  lemma LowerWithSuffix(u: string)
    ensures LowerStr(u + HtmlSuffix) == LowerStr(u) + HtmlSuffix
  {
    LowerStrConcat(u, HtmlSuffix);
    assert LowerStr(HtmlSuffix) == HtmlSuffix;
  }

  /** `noThe` of a file name removes the patterns from the part before `.html` only. */
  lemma NoTheFilename(x: string)
    ensures NoThe(FilenameMake(x)) == NoThe(LowerStr(SpacesToHyphens(x))) + HtmlSuffix
  {
    FilenameShape(x);
    NoTheKeepsTail(LowerStr(SpacesToHyphens(x)), HtmlSuffix);
  }

  /** Every link target is lower case and ends with `.html`. */
  lemma HrefShape(path: string, x: string)
    ensures forall i :: 0 <= i < |Href(path, x)| ==> !IsUpperLetter(Href(path, x)[i])
    ensures |Href(path, x)| >= |HtmlSuffix|
    ensures Href(path, x)[|Href(path, x)| - |HtmlSuffix|..] == HtmlSuffix
  {
    var u := path + NoThe(LowerStr(SpacesToHyphens(x)));
    NoTheFilename(x);
    assert path + NoThe(FilenameMake(x)) == u + HtmlSuffix;
    LowerWithSuffix(u);
    LowerStrLower(u + HtmlSuffix);
  }

  /** One list item of `arrToLinks`. */
  function LinkOf(path: string, x: string): string
  {
    "<li><a href='/" + Href(path, x) + "'>" + TitleCase(x) + " \U{00BB}</a></li>"
  }

  /** The list items of all areas, in order. */
  function Links(path: string, arr: seq<string>): (r: seq<string>)
    ensures |r| == |arr|
    ensures forall k :: 0 <= k < |arr| ==> r[k] == LinkOf(path, arr[k])
  {
    if arr == [] then [] else [LinkOf(path, arr[0])] + Links(path, arr[1..])
  }

  /** `arrToLinks`: the list items joined with single spaces. */
  function ArrToLinks(path: string, arr: seq<string>): string
  {
    Join(Links(path, arr), " ")
  }

  /** The links of a list are the link of its head followed by a space and the links of its
      tail; there are none for an empty list. */
  lemma ArrToLinksShape(path: string, arr: seq<string>)
    ensures arr == [] ==> ArrToLinks(path, arr) == ""
    ensures |arr| == 1 ==> ArrToLinks(path, arr) == LinkOf(path, arr[0])
    ensures |arr| > 1 ==> ArrToLinks(path, arr) == LinkOf(path, arr[0]) + " " + ArrToLinks(path, arr[1..])
  {
    if |arr| > 1 {
      assert Links(path, arr)[1..] == Links(path, arr[1..]);
    }
  }

  /** `addUl(id, html)` as written. Its test `id === true` compares the id with the boolean
      `true`; every call passes a string id, for which a strict comparison with a boolean is
      false, so the test is written here as `false` and the list never gets an id
      attribute. */
  function AddUl(id: string, html: string): string
  {
    "<ul " + (if false then "id=\"" + id + "\"" else "") + ">" + html + "</ul>"
  }

  /** As written, the id is ignored: every id gives `<ul >`, and two different ids give the
      same list. */
  lemma AddUlIgnoresId(id: string, html: string)
    ensures AddUl(id, html) == "<ul >" + html + "</ul>"
    ensures AddUl("footer-buy", html) == AddUl("footer-sell", html)
  {
  }

  /** `addUl` with the evidently intended test on the id: a non-empty id becomes the list's
      id attribute. */
  function AddUlFixed(id: string, html: string): string
  {
    "<ul " + (if id != "" then "id=\"" + id + "\"" else "") + ">" + html + "</ul>"
  }

  /** The corrected list carries its non-empty id: different ids give different lists. */
  lemma AddUlFixedKeepsId(id1: string, id2: string, html: string)
    ensures id1 != "" ==> StartsWith(AddUlFixed(id1, html), "<ul id=\"" + id1 + "\"")
    ensures id1 != "" && id2 != "" && AddUlFixed(id1, html) == AddUlFixed(id2, html) ==> id1 == id2
  {
    if id1 != "" {
      var u := AddUlFixed(id1, html);
      assert u == ("<ul id=\"" + id1 + "\"") + (">" + html + "</ul>");
      if id2 != "" && u == AddUlFixed(id2, html) {
        AddUlIdPrefix(id1, id2, html);
      }
    }
  }

  /** Two corrected lists with non-empty ids agree only when the ids do. */
  lemma AddUlIdPrefix(id1: string, id2: string, html: string)
    requires id1 != "" && id2 != ""
    requires AddUlFixed(id1, html) == AddUlFixed(id2, html)
    ensures id1 == id2
  {
    var u := AddUlFixed(id1, html);
    var v := AddUlFixed(id2, html);
    assert u == "<ul id=\"" + id1 + "\">" + html + "</ul>";
    assert v == "<ul id=\"" + id2 + "\">" + html + "</ul>";
    assert |id1| == |id2|;
    forall i | 0 <= i < |id1| ensures id1[i] == id2[i] {
      assert u[8 + i] == id1[i];
      assert v[8 + i] == id2[i];
    }
  }

  /** `footerUl`: the links of the areas in an unordered list. */
  function FooterUl(id: string, path: string, arr: seq<string>): string
  {
    AddUl(id, ArrToLinks(path, arr))
  }

  const BreadcrumbsOpen: string := "<span class=\"footerBreadcrumbs text-center block\">"
  const BreadcrumbsClose: string := "</span>"
  const BreadcrumbsSeparator: string := "<span class=\"fa fa-angle-right footerSeparator\"></span>"
  const HomeBreadcrumb: string := "<a class=\"nowrap\" href=\"/index.html\">Home</a>"

  /** `footerBreadcrumbsOpener`: the opening tag and the home link before the crumbs. */
  function Opener(content: seq<string>): seq<string>
  {
    [BreadcrumbsOpen + HomeBreadcrumb] + content
  }

  /** `footerBreadcrumbsCloser`: the closing tag after the crumbs. */
  function Closer(content: seq<string>): seq<string>
  {
    content + [BreadcrumbsClose]
  }

  /** `R.intersperse(sep, arr)`: `sep` between every two neighbours. */
  function Intersperse(sep: string, arr: seq<string>): (r: seq<string>)
    ensures arr == [] ==> r == []
    ensures arr != [] ==> |r| == 2 * |arr| - 1
  {
    if |arr| <= 1 then arr else [arr[0], sep] + Intersperse(sep, arr[1..])
  }

  /** The elements sit at the even positions of the interspersed list, in order, and the
      separator at every odd position. */
  lemma {:induction false} IntersperseAt(sep: string, arr: seq<string>)
    ensures forall k :: 0 <= k < |arr| ==> Intersperse(sep, arr)[2 * k] == arr[k]
    ensures forall k :: 0 <= k < |arr| - 1 ==> Intersperse(sep, arr)[2 * k + 1] == sep
  {
    if |arr| > 1 {
      IntersperseAt(sep, arr[1..]);
      var rest := Intersperse(sep, arr[1..]);
      var r := Intersperse(sep, arr);
      forall k | 1 <= k < |arr| ensures r[2 * k] == arr[k] {
        assert r[2 * k] == rest[2 * (k - 1)];
        assert arr[k] == arr[1..][k - 1];
      }
      forall k | 1 <= k < |arr| - 1 ensures r[2 * k + 1] == sep {
        assert r[2 * k + 1] == rest[2 * (k - 1) + 1];
      }
    }
  }

  /** `footerBreadcrumbsMake`: open, separate, close, concatenate. */
  function FooterBreadcrumbsMake(arr: seq<string>): string
  {
    ArrToStr(Closer(Intersperse(BreadcrumbsSeparator, Opener(arr))))
  }

  /** Each element preceded by the separator, concatenated. */
  function Separated(sep: string, arr: seq<string>): string
  {
    if arr == [] then [] else sep + arr[0] + Separated(sep, arr[1..])
  }

  /** The breadcrumbs are the opening tag and the home link, then every crumb preceded by a
      separator, then the closing tag: one separator per crumb and none before the close. */
  lemma FooterBreadcrumbsShape(arr: seq<string>)
    ensures FooterBreadcrumbsMake(arr) ==
      BreadcrumbsOpen + HomeBreadcrumb + Separated(BreadcrumbsSeparator, arr) + BreadcrumbsClose
    ensures |Intersperse(BreadcrumbsSeparator, Opener(arr))| == 2 * |arr| + 1
  {
    IntersperseConcat(BreadcrumbsSeparator, BreadcrumbsOpen + HomeBreadcrumb, arr);
    ArrToStrAppend(Intersperse(BreadcrumbsSeparator, Opener(arr)), [BreadcrumbsClose]);
    assert ArrToStr([BreadcrumbsClose]) == ArrToStr([]) + BreadcrumbsClose;
  }

  /** Concatenating the interspersed list gives the head and then every later element
      preceded by the separator. */
  lemma {:induction false} IntersperseConcat(sep: string, head: string, arr: seq<string>)
    ensures ArrToStr(Intersperse(sep, [head] + arr)) == head + Separated(sep, arr)
    decreases |arr|
  {
    if arr == [] {
      assert ArrToStr([head]) == ArrToStr([]) + head;
    } else {
      var rest := Intersperse(sep, arr);
      IntersperseConcat(sep, arr[0], arr[1..]);
      assert [arr[0]] + arr[1..] == arr;
      assert ArrToStr(rest) == arr[0] + Separated(sep, arr[1..]);
      assert ([head] + arr)[1..] == arr;
      assert Intersperse(sep, [head] + arr) == [head, sep] + rest;
      ArrToStrAppend([head, sep], rest);
      ArrToStrPair(head, sep);
    }
  }

  /** The concatenation of two strings as a list. */
  lemma ArrToStrPair(a: string, b: string)
    ensures ArrToStr([a, b]) == a + b
  {
    assert [a, b][..1] == [a];
    assert ArrToStr([a]) == ArrToStr([]) + a;
  }

  /** `getNearbyArr(name, cache)`: the value of the first cache entry whose key is `name`,
      or nothing when no entry has that key. */
  function GetNearbyArr(name: string, cache: seq<NearbyCacher.CacheEntry>): (r: Option<seq<string>>)
    ensures r.None? <==> forall i :: 0 <= i < |cache| ==> cache[i].key != name
    ensures r.Some? ==> exists i :: (0 <= i < |cache| && cache[i].key == name && cache[i].names == r.value
      && forall j :: 0 <= j < i ==> cache[j].key != name)
  {
    if cache == [] then None
    else if cache[0].key == name then Some(cache[0].names)
    else
      var r := GetNearbyArr(name, cache[1..]);
      assert forall i :: 1 <= i < |cache| ==> cache[i] == cache[1..][i - 1];
      if r.Some? then
        var i :| 0 <= i < |cache[1..]| && cache[1..][i].key == name && cache[1..][i].names == r.value
          && forall j :: 0 <= j < i ==> cache[1..][j].key != name;
        assert cache[i + 1].key == name && cache[i + 1].names == r.value;
        r
      else r
  }

  /** On the cacher's output, the lookup of a name finds the nearby list of the first
      record with that name, and nothing for a name no record has. */
  lemma NearbyArrOfCache(name: string, length: nat, obj: seq<NearbyCacher.Location>,
                         getDistance: Geo.GetDistance, cache: seq<NearbyCacher.CacheEntry>)
    requires |cache| == |obj|
    requires forall i :: 0 <= i < |obj| ==>
      cache[i] == NearbyCacher.CacheEntry(obj[i].nme, NearbyCacher.NearbySuburbsArr(obj[i], length, obj, getDistance))
    ensures GetNearbyArr(name, cache).None? <==> forall i :: 0 <= i < |obj| ==> obj[i].nme != name
    ensures forall i :: 0 <= i < |obj| && obj[i].nme == name && (forall j :: 0 <= j < i ==> obj[j].nme != name) ==>
      GetNearbyArr(name, cache) == Some(NearbyCacher.NearbySuburbsArr(obj[i], length, obj, getDistance))
  {
    LookupByName(name, obj, cache);
  }

  /** A cache keyed by the records' names, in record order, answers for a name exactly
      when some record has it, with the entry of the first such record. */
  lemma LookupByName(name: string, obj: seq<NearbyCacher.Location>, cache: seq<NearbyCacher.CacheEntry>)
    requires |cache| == |obj|
    requires forall i :: 0 <= i < |obj| ==> cache[i].key == obj[i].nme
    ensures GetNearbyArr(name, cache).None? <==> forall i :: 0 <= i < |obj| ==> obj[i].nme != name
    ensures forall i :: 0 <= i < |obj| && obj[i].nme == name && (forall j :: 0 <= j < i ==> obj[j].nme != name) ==>
      GetNearbyArr(name, cache) == Some(cache[i].names)
  {
    forall i | 0 <= i < |obj| && obj[i].nme == name && (forall j :: 0 <= j < i ==> obj[j].nme != name)
      ensures GetNearbyArr(name, cache) == Some(cache[i].names)
    {
      GetNearbyArrFirst(name, cache, i);
    }
  }

  /** The lookup answers the value of the first entry with the key. */
  lemma {:induction false} GetNearbyArrFirst(name: string, cache: seq<NearbyCacher.CacheEntry>, i: nat)
    requires i < |cache| && cache[i].key == name
    requires forall j :: 0 <= j < i ==> cache[j].key != name
    ensures GetNearbyArr(name, cache) == Some(cache[i].names)
  {
    if i > 0 {
      GetNearbyArrFirst(name, cache[1..], i - 1);
    }
  }
}
