/** The two string operations the dashboards rely on: Python's ordering of
    `str` values (which pandas uses to sort a string group key) and
    `str.title()`, both over the ASCII letters. */
module Text {

  predicate IsUpper(c: char)
  {
    'A' <= c <= 'Z'
  }

  predicate IsLower(c: char)
  {
    'a' <= c <= 'z'
  }

  predicate IsLetter(c: char)
  {
    IsUpper(c) || IsLower(c)
  }

  function ToUpper(c: char): (u: char)
    ensures IsLetter(u) <==> IsLetter(c)
    ensures IsLetter(c) ==> IsUpper(u)
    ensures IsLetter(c) ==> u as int - 'A' as int == if IsUpper(c) then c as int - 'A' as int else c as int - 'a' as int
    ensures !IsLetter(c) ==> u == c
  {
    if IsLower(c) then (c as int - 32) as char else c
  }

  function ToLower(c: char): (l: char)
    ensures IsLetter(l) <==> IsLetter(c)
    ensures IsLetter(c) ==> IsLower(l)
    ensures IsLetter(c) ==> l as int - 'a' as int == if IsLower(c) then c as int - 'a' as int else c as int - 'A' as int
    ensures !IsLetter(c) ==> l == c
  {
    if IsUpper(c) then (c as int + 32) as char else c
  }

  /** The two strings differ at most in the case of their letters. */
  predicate EqualIgnoringCase(a: string, b: string)
  {
    |a| == |b| && forall i :: 0 <= i < |a| ==> ToLower(a[i]) == ToLower(b[i])
  }

  /** How `str.title()` cases one character, given whether the character
      before it is a letter: a letter right after a letter becomes lower case,
      any other letter upper case, and a character that is not a letter is
      kept. */
  function TitleCase(c: char, afterLetter: bool): char
  {
    if !IsLetter(c) then c
    else if afterLetter then ToLower(c)
    else ToUpper(c)
  }

  /** The character `str.title()` puts at position `i` of `s`. */
  function TitleCaseAt(s: string, i: nat): char
    requires i < |s|
  {
    TitleCase(s[i], i > 0 && IsLetter(s[i - 1]))
  }

  /** `str.title()` over the rest of a string, where `afterLetter` says
      whether the character before `s` was a letter. */
  function TitleFrom(s: string, afterLetter: bool): (r: string)
    ensures |r| == |s|
    ensures forall i :: 0 <= i < |s| ==>
      r[i] == TitleCase(s[i], if i == 0 then afterLetter else IsLetter(s[i - 1]))
  {
    if s == [] then []
    else
      var rest := TitleFrom(s[1..], IsLetter(s[0]));
      var r := [TitleCase(s[0], afterLetter)] + rest;
      assert forall j :: 0 <= j < |s| - 1 ==> s[1..][j] == s[j + 1];
      assert forall i :: 1 <= i < |s| ==> r[i] == rest[i - 1];
      r
  }

  /** Python's `str.title()` restricted to ASCII letters. */
  function Title(s: string): (r: string)
    ensures |r| == |s|
    ensures forall i :: 0 <= i < |s| ==> r[i] == TitleCaseAt(s, i)
  {
    TitleFrom(s, false)
  }

  /** `s` is already in title case. */
  predicate IsTitled(s: string)
  {
    forall i :: 0 <= i < |s| ==> TitleCaseAt(s, i) == s[i]
  }

  /** A capital letter followed by lower-case letters only. */
  predicate IsCapitalized(w: string)
  {
    |w| > 0 && IsUpper(w[0]) && forall i :: 1 <= i < |w| ==> IsLower(w[i])
  }

  /** A capitalized word is in title case. */
  lemma TitledWord(w: string)
    requires IsCapitalized(w)
    ensures IsTitled(w)
  {
  }

  /** Two capitalized words joined by a space are in title case. */
  lemma TitledWords(a: string, b: string)
    requires IsCapitalized(a) && IsCapitalized(b)
    ensures IsTitled(a + " " + b)
  {
    var s := a + " " + b;
    forall i | 0 <= i < |s|
      ensures TitleCaseAt(s, i) == s[i]
    {
      if i < |a| {
        assert s[i] == a[i] && (i > 0 ==> s[i - 1] == a[i - 1]);
      } else if i > |a| {
        assert s[i] == b[i - |a| - 1];
        assert i - 1 > |a| ==> s[i - 1] == b[i - |a| - 2];
      }
    }
  }

  /** Title-casing is a fixed point exactly on the strings already titled. */
  lemma TitleFixesTitled(s: string)
    ensures Title(s) == s <==> IsTitled(s)
  {
  }

  /** The result of `str.title()` is in title case, so a second call changes nothing. */
  lemma TitleIdempotent(s: string)
    ensures IsTitled(Title(s))
    ensures Title(Title(s)) == Title(s)
  {
    var r := Title(s);
    forall i | 0 <= i < |r|
      ensures TitleCaseAt(r, i) == r[i]
    {
      assert IsLetter(r[i]) <==> IsLetter(s[i]);
      assert i > 0 ==> (IsLetter(r[i - 1]) <==> IsLetter(s[i - 1]));
    }
    TitleFixesTitled(r);
  }

  /** `str.title()` ignores the case it is given: strings that differ only in
      the case of their letters title-case to the same string. */
  lemma TitleIgnoresCase(a: string, b: string)
    requires EqualIgnoringCase(a, b)
    ensures Title(a) == Title(b)
  {
    forall i | 0 <= i < |a|
      ensures TitleCaseAt(a, i) == TitleCaseAt(b, i)
    {
      LowerDecidesLetter(a[i], b[i]);
      if i > 0 {
        LowerDecidesLetter(a[i - 1], b[i - 1]);
      }
    }
  }

  /** Two characters with the same lower-case form are both letters or both
      not, and then they have the same upper-case form too. */
  lemma LowerDecidesLetter(c: char, d: char)
    requires ToLower(c) == ToLower(d)
    ensures IsLetter(c) <==> IsLetter(d)
    ensures ToUpper(c) == ToUpper(d)
  {
  }

  /** Python's `<` on `str`: lexicographic by code point, a proper prefix
      coming first. */
  predicate LexLess(a: string, b: string)
  {
    if a == [] then b != []
    else b != [] && (a[0] < b[0] || (a[0] == b[0] && LexLess(a[1..], b[1..])))
  }

  lemma {:induction false} LexLessIrreflexive(a: string)
    ensures !LexLess(a, a)
  {
    if a != [] {
      LexLessIrreflexive(a[1..]);
    }
  }

  lemma {:induction false} LexLessTransitive(a: string, b: string, c: string)
    requires LexLess(a, b) && LexLess(b, c)
    ensures LexLess(a, c)
  {
    if a != [] && a[0] == b[0] && b[0] == c[0] {
      LexLessTransitive(a[1..], b[1..], c[1..]);
    }
  }

  lemma {:induction false} LexLessTotal(a: string, b: string)
    ensures a == b || LexLess(a, b) || LexLess(b, a)
  {
    if a != [] && b != [] && a[0] == b[0] {
      LexLessTotal(a[1..], b[1..]);
      if a[1..] == b[1..] {
        assert a == [a[0]] + a[1..] && b == [b[0]] + b[1..];
      }
    }
  }

  /** Python's string order stated without recursion: `a` comes first when it
      is a proper prefix of `b`, or when at the first position where they
      differ its character is the smaller. */
  lemma {:induction false} LexLessMeans(a: string, b: string)
    ensures LexLess(a, b) <==>
      (|a| < |b| && a == b[..|a|]) ||
      exists k :: 0 <= k < |a| && k < |b| && a[..k] == b[..k] && a[k] < b[k]
  {
    if a != [] && b != [] {
      var a', b' := a[1..], b[1..];
      LexLessMeans(a', b');
      if LexLess(a, b) && a[0] == b[0] {
        if |a'| < |b'| && a' == b'[..|a'|] {
          assert a == [a[0]] + a' && b[..|a|] == [b[0]] + b'[..|a'|];
        } else {
          var k' :| 0 <= k' < |a'| && k' < |b'| && a'[..k'] == b'[..k'] && a'[k'] < b'[k'];
          assert a[..k' + 1] == [a[0]] + a'[..k'] && b[..k' + 1] == [b[0]] + b'[..k'];
          assert a[k' + 1] < b[k' + 1];
        }
      } else if LexLess(a, b) {
        assert a[..0] == b[..0];
      }
      if |a| < |b| && a == b[..|a|] {
        assert a[0] == b[0];
        assert a' == b'[..|a'|];
      }
      if exists k :: 0 <= k < |a| && k < |b| && a[..k] == b[..k] && a[k] < b[k] {
        var k :| 0 <= k < |a| && k < |b| && a[..k] == b[..k] && a[k] < b[k];
        if k > 0 {
          assert a[0] == a[..k][0] == b[..k][0] == b[0];
          assert a'[..k - 1] == a[1..k] == b[1..k] == b'[..k - 1];
          assert a'[k - 1] < b'[k - 1];
        }
      }
    }
  }
}
