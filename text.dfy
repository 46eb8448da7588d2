/** The string operations the category pipeline applies to subject tags:
    substring search, the prefix substitution, `split("--")`, `strip(" ")`
    and `title()`. */
module Text {

  // ---------------------------------------------------------------------
  // Substring search (`sub in s`)
  // ---------------------------------------------------------------------

  predicate Contains(s: string, sub: string)
    decreases |s|
  {
    if |s| < |sub| then false
    else if s[..|sub|] == sub then true
    else Contains(s[1..], sub)
  }

  /** `sub` occurs in `s` starting at position k. */
  predicate OccursAt(s: string, sub: string, k: int)
  {
    0 <= k && k + |sub| <= |s| && s[k..k + |sub|] == sub
  }

  /** `sub in s` holds exactly when `sub` occurs at some position of `s`. */
  lemma {:induction false} ContainsAt(s: string, sub: string)
    ensures Contains(s, sub) <==> exists k :: OccursAt(s, sub, k)
    decreases |s|
  {
    if |s| < |sub| {
    } else if s[..|sub|] == sub {
      assert OccursAt(s, sub, 0);
    } else {
      ContainsAt(s[1..], sub);
      if Contains(s[1..], sub) {
        var k :| OccursAt(s[1..], sub, k);
        assert s[1..][k..k + |sub|] == s[k + 1..k + 1 + |sub|];
        assert OccursAt(s, sub, k + 1);
      }
      if exists k :: OccursAt(s, sub, k) {
        var k :| OccursAt(s, sub, k);
        assert k != 0;
        assert s[1..][k - 1..k - 1 + |sub|] == s[k..k + |sub|];
        assert OccursAt(s[1..], sub, k - 1);
      }
    }
  }

  /** What occurs in a slice of `s` occurs in `s`. */
  lemma ContainsInSlice(s: string, i: nat, j: nat, sub: string)
    requires i <= j <= |s|
    requires Contains(s[i..j], sub)
    ensures Contains(s, sub)
  {
    ContainsAt(s[i..j], sub);
    var k :| OccursAt(s[i..j], sub, k);
    forall m | 0 <= m < |sub| ensures s[i + k..i + k + |sub|][m] == sub[m] {
      assert s[i..j][k..k + |sub|][m] == s[i + k + m];
    }
    assert OccursAt(s, sub, i + k);
    ContainsAt(s, sub);
  }

  // ---------------------------------------------------------------------
  // re.sub(r"Amazon.com -- ", " ", s)
  // ---------------------------------------------------------------------

  /** The regular expression `Amazon.com -- ` matches at the start of `s`.
      Its `.` is a wildcard: it stands for any character but a newline. */
  predicate AmazonAt(s: string)
  {
    |s| >= 14 && s[..6] == "Amazon" && s[6] != '\n' && s[7..14] == "com -- "
  }

  /** The pattern matches somewhere in `s`. */
  predicate HasAmazon(s: string)
  {
    exists i :: 0 <= i < |s| && AmazonAt(s[i..])
  }

  /** `re.sub(r"Amazon.com -- ", " ", s)`: the text is scanned left to right;
      each match is replaced by one space and scanning resumes after it. */
  function SubAmazon(s: string): string
    decreases |s|
  {
    if |s| == 0 then ""
    else if AmazonAt(s) then " " + SubAmazon(s[14..])
    else [s[0]] + SubAmazon(s[1..])
  }

  lemma {:induction false} SubAmazonNoMatch(s: string)
    requires !HasAmazon(s)
    ensures SubAmazon(s) == s
    decreases |s|
  {
    if |s| > 0 {
      assert s[0..] == s;
      assert !AmazonAt(s);
      forall i | 0 <= i < |s[1..]| ensures !AmazonAt(s[1..][i..]) {
        assert s[1..][i..] == s[i + 1..];
      }
      SubAmazonNoMatch(s[1..]);
    }
  }

  lemma {:induction false} SubAmazonShrinks(s: string)
    ensures |SubAmazon(s)| <= |s|
    ensures HasAmazon(s) ==> |SubAmazon(s)| < |s|
    decreases |s|
  {
    if |s| > 0 {
      if AmazonAt(s) {
        SubAmazonShrinks(s[14..]);
      } else {
        SubAmazonShrinks(s[1..]);
        if HasAmazon(s) {
          var i :| 0 <= i < |s| && AmazonAt(s[i..]);
          assert i != 0;
          assert s[1..][i - 1..] == s[i..];
        }
      }
    }
  }

  /** The substitution changes a tag exactly when the pattern occurs in it. */
  lemma SubAmazonChanges(s: string)
    ensures SubAmazon(s) != s <==> HasAmazon(s)
  {
    SubAmazonShrinks(s);
    if !HasAmazon(s) {
      SubAmazonNoMatch(s);
    }
  }

  /** A text shorter than the pattern is left as it is. */
  lemma SubAmazonShort(s: string)
    requires |s| < 14
    ensures SubAmazon(s) == s
  {
    SubAmazonNoMatch(s);
  }

  /** The attribution prefix the cleanup removes, as it appears in tags. */
  const ATTRIBUTION: string := "Amazon.com -- "

  /** Whatever character stands for the `.`, the prefix at the front is
      replaced by one space and the rest is processed in turn. */
  lemma SubAmazonDotted(c: char, t: string)
    requires c != '\n'
    ensures SubAmazon("Amazon" + [c] + "com -- " + t) == " " + SubAmazon(t)
  {
    var s := "Amazon" + [c] + "com -- " + t;
    assert s[..6] == "Amazon";
    assert s[6] == c;
    assert s[7..14] == "com -- ";
    assert s[14..] == t;
  }

  /** A tag that starts with the attribution prefix loses it to one space. */
  lemma SubAmazonLeading(t: string)
    ensures SubAmazon(ATTRIBUTION + t) == " " + SubAmazon(t)
  {
    SubAmazonDotted('.', t);
    assert "Amazon" + ['.'] + "com -- " == ATTRIBUTION;
    assert "Amazon" + ['.'] + "com -- " + t == ATTRIBUTION + t;
  }

  /** The `.` of the pattern is a wildcard: a misspelt prefix is removed too. */
  lemma SubAmazonWildcard(t: string)
    ensures SubAmazon("Amazon-com -- " + t) == " " + SubAmazon(t)
  {
    SubAmazonDotted('-', t);
    assert "Amazon" + ['-'] + "com -- " == "Amazon-com -- ";
    assert "Amazon" + ['-'] + "com -- " + t == "Amazon-com -- " + t;
  }

  /** Text in front of the first match is copied unchanged. */
  lemma {:induction false} SubAmazonCopies(p: string, t: string)
    requires forall i :: 0 <= i < |p| ==> !AmazonAt((p + t)[i..])
    ensures SubAmazon(p + t) == p + SubAmazon(t)
    decreases |p|
  {
    if |p| > 0 {
      assert (p + t)[0..] == p + t;
      assert (p + t)[1..] == p[1..] + t;
      forall i | 0 <= i < |p[1..]| ensures !AmazonAt((p[1..] + t)[i..]) {
        assert (p[1..] + t)[i..] == (p + t)[i + 1..];
      }
      SubAmazonCopies(p[1..], t);
    }
  }

  /** A text whose eleventh character is not a space does not start with a
      match. */
  lemma NotAmazonAtSpace(u: string)
    requires |u| > 10 && u[10] != ' '
    ensures !AmazonAt(u)
  {
    assert |u| >= 14 ==> u[7..14][3] == u[10];
  }

  /** A text that does not begin with `A` does not start with a match. */
  lemma NotAmazonAtLead(u: string)
    requires |u| > 0 && u[0] != 'A'
    ensures !AmazonAt(u)
  {
    assert |u| >= 14 ==> u[..6][0] == u[0];
  }

  /** After a leading `A`, a text without any `A` holds no match. */
  lemma NoInnerAmazon(q: string, t: string)
    requires 'A' !in q
    ensures forall i :: 1 <= i <= |q| ==> !AmazonAt((("A" + q) + t)[i..])
  {
    forall i | 1 <= i <= |q| ensures !AmazonAt((("A" + q) + t)[i..]) {
      assert (("A" + q) + t)[i..][0] == q[i - 1];
      NotAmazonAtLead((("A" + q) + t)[i..]);
    }
  }

  /** An `A` followed by nine characters other than `A`, in front of a text
      starting with `A`, holds no match of its own, so it is copied. */
  lemma FrontCopiedWhenLacking(q: string, t: string)
    requires |q| == 9 && 'A' !in q && |t| > 0 && t[0] == 'A'
    ensures SubAmazon(("A" + q) + t) == ("A" + q) + SubAmazon(t)
  {
    var p := "A" + q;
    assert (p + t)[10] == 'A';
    NotAmazonAtSpace(p + t);
    NoInnerAmazon(q, t);
    assert (p + t)[0..] == p + t;
    SubAmazonCopies(p, t);
  }

  /** The tail of `Amazon.com` holds no `A`. The literal comes in as the
      parameter `q` so that the example's proof reasons about `q` and not
      about the characters of the literal, which keeps it cheap. */
  lemma MazonLacksA(q: string)
    requires q == "mazon.com"
    ensures 'A' !in q
  {
  }

  /** `-- ` in front of a text holds no match, so it is copied. */
  lemma SubAmazonDashesCopied(x: string)
    ensures SubAmazon("-- " + x) == "-- " + SubAmazon(x)
  {
    var q := "-- ";
    forall i | 0 <= i < |q| ensures !AmazonAt((q + x)[i..]) {
      assert (q + x)[i..][0] == q[i];
    }
    SubAmazonCopies(q, x);
  }

  /** One pass does not remove every occurrence: the space that replaces an
      inner match can complete a new one with the text around it, whatever
      follows. */
  lemma SubAmazonCanLeaveMatch(x: string)
    ensures SubAmazon("Amazon.comAmazon.com -- -- " + x) == ATTRIBUTION + SubAmazon(x)
    ensures AmazonAt(SubAmazon("Amazon.comAmazon.com -- -- " + x))
  {
    var q := "mazon.com";
    MazonLacksA(q);
    var t := ATTRIBUTION + ("-- " + x);
    CanLeaveInput(q, x);
    FrontCopiedWhenLacking(q, t);
    SubAmazonLeading("-- " + x);
    SubAmazonDashesCopied(x);
    CanLeaveOutput(q, SubAmazon(x));
    AttributionMatches(SubAmazon(x));
  }

  /** The input of the example, taken apart (`q` stands for the literal,
      as in `MazonLacksA`). */
  lemma CanLeaveInput(q: string, x: string)
    requires q == "mazon.com"
    ensures ("A" + q) + (ATTRIBUTION + ("-- " + x)) == "Amazon.comAmazon.com -- -- " + x
  {
  }

  /** The output of the example, put back together (`q` stands for the
      literal, as in `MazonLacksA`). */
  lemma CanLeaveOutput(q: string, y: string)
    requires q == "mazon.com"
    ensures ("A" + q) + (" " + ("-- " + y)) == ATTRIBUTION + y
  {
  }

  /** The attribution matches the pattern, whatever follows it. */
  lemma AttributionMatches(y: string)
    ensures AmazonAt(ATTRIBUTION + y)
  {
    var r := ATTRIBUTION + y;
    assert r[..6] == "Amazon" && r[6] == '.' && r[7..14] == "com -- ";
  }

  // ---------------------------------------------------------------------
  // s.split(sep)
  // ---------------------------------------------------------------------

  /** `s.split(sep)`: the text between non-overlapping occurrences of `sep`,
      found left to right. */
  function Split(s: string, sep: string): (parts: seq<string>)
    requires |sep| > 0
    ensures |parts| >= 1
    ensures parts[0] <= s
    decreases |s|
  {
    if |s| < |sep| then [s]
    else if s[..|sep|] == sep then [""] + Split(s[|sep|..], sep)
    else
      var rest := Split(s[1..], sep);
      [[s[0]] + rest[0]] + rest[1..]
  }

  /** A text in which the first character of `sub` never occurs does not
      contain `sub`. */
  lemma NoLeadNoContains(s: string, sub: string)
    requires |sub| > 0 && sub[0] !in s
    ensures !Contains(s, sub)
  {
    ContainsAt(s, sub);
  }

  /** A text without the separator is its own single part. */
  lemma {:induction false} SplitWithoutSeparator(s: string, sep: string)
    requires |sep| > 0 && !Contains(s, sep)
    ensures Split(s, sep) == [s]
    decreases |s|
  {
    if |s| >= |sep| {
      SplitWithoutSeparator(s[1..], sep);
      assert [s[0]] + s[1..] == s;
    }
  }

  /** `sep.join(parts)` */
  function Join(parts: seq<string>, sep: string): string
    requires |parts| >= 1
    decreases |parts|
  {
    if |parts| == 1 then parts[0] else parts[0] + sep + Join(parts[1..], sep)
  }

  lemma JoinConsFirst(c: char, parts: seq<string>, sep: string)
    requires |parts| >= 1
    ensures Join([[c] + parts[0]] + parts[1..], sep) == [c] + Join(parts, sep)
  {
    var q := [[c] + parts[0]] + parts[1..];
    if |parts| > 1 {
      assert q[1..] == parts[1..];
    }
  }

  /** Splitting loses nothing: joining the parts with the separator gives
      back the text. */
  lemma {:induction false} SplitJoin(s: string, sep: string)
    requires |sep| > 0
    ensures Join(Split(s, sep), sep) == s
    decreases |s|
  {
    if |s| < |sep| {
    } else if s[..|sep|] == sep {
      SplitJoin(s[|sep|..], sep);
      var rest := Split(s[|sep|..], sep);
      assert ([""] + rest)[1..] == rest;
      assert Join([""] + rest, sep) == "" + sep + Join(rest, sep);
      assert s == sep + s[|sep|..];
    } else {
      SplitJoin(s[1..], sep);
      JoinConsFirst(s[0], Split(s[1..], sep), sep);
      assert s == [s[0]] + s[1..];
    }
  }

  /** No part of a split still contains the separator. */
  lemma {:induction false} SplitPartsFree(s: string, sep: string)
    requires |sep| > 0
    ensures forall p :: p in Split(s, sep) ==> !Contains(p, sep)
    decreases |s|
  {
    if |s| < |sep| {
    } else if s[..|sep|] == sep {
      SplitPartsFree(s[|sep|..], sep);
    } else {
      var rest := Split(s[1..], sep);
      SplitPartsFree(s[1..], sep);
      var q := [s[0]] + rest[0];
      assert q <= s;
      if |q| >= |sep| {
        assert q[..|sep|] == s[..|sep|];
        assert q[1..] == rest[0];
      }
      assert !Contains(q, sep);
    }
  }

  /** `str.split` cuts at the leftmost occurrence: when there is more than
      one part, the separator occurs right after the first part, and no
      earlier occurrence starts before that position. */
  lemma {:induction false} SplitFirstCut(s: string, sep: string)
    requires |sep| > 0 && |Split(s, sep)| > 1
    ensures OccursAt(s, sep, |Split(s, sep)[0]|)
    ensures !Contains(s[..|Split(s, sep)[0]| + |sep| - 1], sep)
    decreases |s|
  {
    if s[..|sep|] == sep {
      assert Split(s, sep)[0] == "";
    } else {
      var rest := Split(s[1..], sep);
      SplitFirstCut(s[1..], sep);
      var m := |rest[0]|;
      assert |Split(s, sep)[0]| == m + 1;
      OccursShift(s, sep, m);
      var t := s[..m + |sep|];
      assert t[..|sep|] == s[..|sep|];
      assert t[1..] == s[1..][..m + |sep| - 1];
    }
  }

  /** An occurrence in the tail of `s` is one in `s`, a position later. */
  lemma OccursShift(s: string, sub: string, m: int)
    requires |s| > 0 && OccursAt(s[1..], sub, m)
    ensures OccursAt(s, sub, m + 1)
  {
    forall j | 0 <= j < |sub| ensures s[m + 1 + j] == sub[j] {
      assert s[1..][m..m + |sub|][j] == sub[j];
    }
  }

  // ---------------------------------------------------------------------
  // s.strip(" ")
  // ---------------------------------------------------------------------

  function StripLeft(s: string): (r: string)
    ensures |r| <= |s| && r == s[|s| - |r|..]
    ensures |r| > 0 ==> r[0] != ' '
    ensures forall k :: 0 <= k < |s| - |r| ==> s[k] == ' '
    decreases |s|
  {
    if |s| > 0 && s[0] == ' ' then StripLeft(s[1..]) else s
  }

  function StripRight(s: string): (r: string)
    ensures |r| <= |s| && r == s[..|r|]
    ensures |r| > 0 ==> r[|r| - 1] != ' '
    ensures forall k :: |r| <= k < |s| ==> s[k] == ' '
    decreases |s|
  {
    if |s| > 0 && s[|s| - 1] == ' ' then StripRight(s[..|s| - 1]) else s
  }

  /** `s.strip(" ")`: spaces (and only spaces) removed at both ends. */
  function Strip(s: string): string
  {
    StripRight(StripLeft(s))
  }

  /** `r` is the slice of `s` from position i, with only spaces around it. */
  predicate TrimmedFrom(s: string, r: string, i: int)
  {
    && 0 <= i && i + |r| <= |s| && r == s[i..i + |r|]
    && (forall k :: 0 <= k < i ==> s[k] == ' ')
    && (forall k :: i + |r| <= k < |s| ==> s[k] == ' ')
  }

  /** The stripped text neither starts nor ends with a space. */
  lemma StripEnds(s: string)
    ensures |Strip(s)| > 0 ==> Strip(s)[0] != ' ' && Strip(s)[|Strip(s)| - 1] != ' '
  {
    var l := StripLeft(s);
    var r := StripRight(l);
    assert |r| > 0 ==> r[0] == l[0];
  }

  /** The stripped text sits in `s` right after the leading spaces. */
  lemma StripSliceBody(s: string)
    ensures |s| - |StripLeft(s)| + |Strip(s)| <= |s|
    ensures Strip(s) == s[|s| - |StripLeft(s)|..|s| - |StripLeft(s)| + |Strip(s)|]
  {
    var l := StripLeft(s);
    var r := StripRight(l);
    var i := |s| - |l|;
    PrefixOfSuffix(s, i, |r|);
  }

  /** A prefix of a suffix is a slice. */
  lemma PrefixOfSuffix<T>(s: seq<T>, i: nat, n: nat)
    requires i + n <= |s|
    ensures s[i..][..n] == s[i..i + n]
  {
  }

  /** Only spaces follow the stripped text in `s`. */
  lemma StripSliceTail(s: string)
    ensures forall k :: |s| - |StripLeft(s)| + |Strip(s)| <= k < |s| ==> s[k] == ' '
  {
    var l := StripLeft(s);
    var r := StripRight(l);
    var i := |s| - |l|;
    forall k | i + |r| <= k < |s| ensures s[k] == ' ' {
      assert |r| <= k - i < |l|;
      assert s[k] == l[k - i];
    }
  }

  /** The stripped text is a slice of `s` with only spaces around it. */
  lemma StripSlice(s: string)
    ensures TrimmedFrom(s, Strip(s), |s| - |StripLeft(s)|)
  {
    StripSliceBody(s);
    StripSliceTail(s);
  }

  /** The stripped text is a slice of `s` with only spaces around it, and it
      neither starts nor ends with a space. */
  lemma StripTrims(s: string)
    ensures |Strip(s)| > 0 ==> Strip(s)[0] != ' ' && Strip(s)[|Strip(s)| - 1] != ' '
    ensures exists i :: TrimmedFrom(s, Strip(s), i)
  {
    StripEnds(s);
    StripSlice(s);
  }

  /** A text that neither starts nor ends with a space is its own strip. */
  lemma StripUnspaced(s: string)
    requires |s| > 0 && s[0] != ' ' && s[|s| - 1] != ' '
    ensures Strip(s) == s
  {
    assert StripLeft(s) == s;
  }

  /** Stripping cannot create an occurrence of a separator. */
  lemma StripKeepsFree(s: string, sep: string)
    requires !Contains(s, sep)
    ensures !Contains(Strip(s), sep)
  {
    StripTrims(s);
    var r := Strip(s);
    var i :| TrimmedFrom(s, r, i);
    if Contains(r, sep) {
      ContainsInSlice(s, i, i + |r|, sep);
    }
  }

  // ---------------------------------------------------------------------
  // s.title()
  // ---------------------------------------------------------------------

  predicate IsUpper(c: char) { 'A' <= c <= 'Z' }

  predicate IsLower(c: char) { 'a' <= c <= 'z' }

  predicate IsLetter(c: char) { IsUpper(c) || IsLower(c) }

  function ToUpper(c: char): char
  {
    if IsLower(c) then (c as int - 32) as char else c
  }

  function ToLower(c: char): char
  {
    if IsUpper(c) then (c as int + 32) as char else c
  }

  /** Whether the character before position k of `s` is a letter, where
      `afterLetter` tells whether a letter came just before `s`. */
  predicate PrevLetter(s: string, k: nat, afterLetter: bool)
    requires k < |s|
  {
    if k == 0 then afterLetter else IsLetter(s[k - 1])
  }

  /** `title()` on the rest of a text, `afterLetter` telling whether the
      character just before it was a letter. */
  function TitleFrom(s: string, afterLetter: bool): (r: string)
    ensures |r| == |s|
    ensures forall k :: 0 <= k < |s| ==> (IsLetter(r[k]) <==> IsLetter(s[k]))
    ensures forall k :: 0 <= k < |s| && !IsLetter(s[k]) ==> r[k] == s[k]
    ensures forall k :: 0 <= k < |s| ==> ToLower(r[k]) == ToLower(s[k])
    decreases |s|
  {
    if |s| == 0 then ""
    else
      var c := if !IsLetter(s[0]) then s[0]
               else if afterLetter then ToLower(s[0])
               else ToUpper(s[0]);
      [c] + TitleFrom(s[1..], IsLetter(s[0]))
  }

  /** `s.title()` for ASCII text: a letter that follows a letter is made
      lower case, every other letter upper case; other characters stay. */
  function Title(s: string): string
  {
    TitleFrom(s, false)
  }

  /** The letter at position k, if any, is upper case exactly when no
      letter precedes it. */
  predicate CasedAt(s: string, k: int)
    requires 0 <= k < |s|
  {
    IsLetter(s[k]) ==> if k > 0 && IsLetter(s[k - 1]) then IsLower(s[k]) else IsUpper(s[k])
  }

  /** Title case: every letter is upper case exactly when no letter precedes it. */
  predicate IsTitleCased(s: string)
  {
    forall k :: 0 <= k < |s| ==> CasedAt(s, k)
  }

  lemma {:induction false} TitleFromCases(s: string, afterLetter: bool)
    ensures forall k :: 0 <= k < |s| && IsLetter(s[k]) ==>
      if PrevLetter(s, k, afterLetter) then IsLower(TitleFrom(s, afterLetter)[k])
      else IsUpper(TitleFrom(s, afterLetter)[k])
    decreases |s|
  {
    if |s| > 0 {
      TitleFromCases(s[1..], IsLetter(s[0]));
      var r := TitleFrom(s, afterLetter);
      forall k | 0 < k < |s| && IsLetter(s[k])
        ensures if PrevLetter(s, k, afterLetter) then IsLower(r[k]) else IsUpper(r[k])
      {
        assert r[k] == TitleFrom(s[1..], IsLetter(s[0]))[k - 1];
        assert PrevLetter(s, k, afterLetter) == PrevLetter(s[1..], k - 1, IsLetter(s[0]));
      }
    }
  }

  /** The result of `title()` is title-cased. */
  lemma TitleIsTitleCased(s: string)
    ensures IsTitleCased(Title(s))
  {
    TitleFromCases(s, false);
    var r := Title(s);
    forall k | 0 <= k < |r| ensures CasedAt(r, k) {
      assert PrevLetter(s, k, false) == (k > 0 && IsLetter(r[k - 1]));
    }
  }

  lemma {:induction false} TitleFromFixes(s: string, afterLetter: bool)
    requires forall k :: 0 <= k < |s| && IsLetter(s[k]) ==>
      if PrevLetter(s, k, afterLetter) then IsLower(s[k]) else IsUpper(s[k])
    ensures TitleFrom(s, afterLetter) == s
    decreases |s|
  {
    if |s| > 0 {
      forall k | 0 <= k < |s[1..]| && IsLetter(s[1..][k])
        ensures if PrevLetter(s[1..], k, IsLetter(s[0])) then IsLower(s[1..][k]) else IsUpper(s[1..][k])
      {
        assert PrevLetter(s[1..], k, IsLetter(s[0])) == PrevLetter(s, k + 1, afterLetter);
      }
      TitleFromFixes(s[1..], IsLetter(s[0]));
      assert s == [s[0]] + s[1..];
    }
  }

  /** Text already in title case is left as it is. */
  lemma TitleFixesTitleCased(s: string)
    requires IsTitleCased(s)
    ensures Title(s) == s
  {
    forall k | 0 <= k < |s| && IsLetter(s[k])
      ensures if PrevLetter(s, k, false) then IsLower(s[k]) else IsUpper(s[k])
    {
      assert CasedAt(s, k);
    }
    TitleFromFixes(s, false);
  }

  /** `title()` is idempotent. */
  lemma TitleIdempotent(s: string)
    ensures Title(Title(s)) == Title(s)
  {
    TitleIsTitleCased(s);
    TitleFixesTitleCased(Title(s));
  }
}
