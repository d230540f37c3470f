/** What patterns mean for the reader of their text: the characters that each atom matches, which
    characters stand for themselves, and the strings that plain texts match. */
module RegexTexts {
  import opened Buckets
  import opened RegexPatterns

  // ----- Characters, by their codes -----

  predicate PunctuationCode(n: int) {
    33 <= n <= 47 || 58 <= n <= 64 || 91 <= n <= 96 || 123 <= n <= 126
  }

  predicate WordCode(n: int) {
    48 <= n <= 57 || 65 <= n <= 90 || n == 95 || 97 <= n <= 122
  }

  predicate SpaceCode(n: int) {
    9 <= n <= 13 || n == 32
  }

  /** The characters that mean themselves, or `.`, when no backslash stands before them. */
  predicate OrdinaryChar(c: char) {
    && c != '\0' && c != '\\' && c != '^' && c != '$' && c != '(' && c != ')' && c != '[' && c != ']'
    && c != '{' && c != '}' && c != '|' && c != '?' && c != '*' && c != '+'
  }

  predicate EscapeLetter(c: char) {
    || c == 'd' || c == 'D' || c == 'f' || c == 'n' || c == 'r' || c == 's' || c == 'S' || c == 't'
    || c == 'v' || c == 'w' || c == 'W'
  }

  const MARKS: string := "^-!\"#$%&'()*+,./:;<=>?@[\\]_`{|}~"

  const MARK_CODES: seq<int> :=
    [94, 45, 33, 34, 35, 36, 37, 38, 39, 40, 41, 42, 43, 44, 46, 47,
     58, 59, 60, 61, 62, 63, 64, 91, 92, 93, 95, 96, 123, 124, 125, 126]

  lemma CodeTable()
    ensures |MARKS| == |MARK_CODES| == 32 && forall i :: 0 <= i < 32 ==> MARKS[i] as int == MARK_CODES[i]
  {
  }

  lemma CodesOfMarks(n: int)
    ensures n in MARK_CODES <==> PunctuationCode(n)
  {
  }

  lemma PunctuationMarks(c: char)
    ensures IsAsciiPunct(c) <==> PunctuationCode(c as int)
  {
    CodeTable();
    CodesOfMarks(c as int);
    hide MARKS, MARK_CODES;
    assert c in MARKS <==> c as int in MARK_CODES by {
      if c as int in MARK_CODES {
        var i :| 0 <= i < |MARK_CODES| && MARK_CODES[i] == c as int;
        assert MARKS[i] == c;
      }
    }
    assert IsAsciiPunct(c) <==> c != '\0' && c in MARKS by {
      AsMarks(c);
    }
  }

  lemma AsMarks(c: char)
    ensures IsAsciiPunct(c) <==> c != '\0' && c in MARKS
  {
  }

  lemma Spaces(c: char)
    ensures IsAsciiWhiteSpace(c) <==> SpaceCode(c as int)
  {
    var s := " \U{c}\n\r\t\U{b}";
    assert s[0] == ' ' && s[1] as int == 12 && s[2] as int == 10;
    assert s[3] as int == 13 && s[4] as int == 9 && s[5] as int == 11;
  }

  /** `.` matches every character but the newline, and any other unescaped atom exactly itself. */
  lemma PlainAtom(p: char, c: char)
    ensures AtomMatchesChar(false, '.', c) <==> c as int != 10
    ensures p != '.' ==> (AtomMatchesChar(false, p, c) <==> c == p)
  {
  }

  /** An escaped punctuation mark matches exactly itself, and the letters name classes of characters,
      their complements, or one control character; nothing else is an escape. */
  lemma EscapedAtom(p: char, c: char)
    ensures PunctuationCode(p as int) ==> (AtomMatchesChar(true, p, c) <==> c == p)
    ensures !PunctuationCode(p as int) && !EscapeLetter(p) ==> !AtomMatchesChar(true, p, c)
    ensures AtomMatchesChar(true, 'd', c) <==> 48 <= c as int <= 57
    ensures AtomMatchesChar(true, 'D', c) <==> c as int < 48 || c as int > 57
    ensures AtomMatchesChar(true, 's', c) <==> SpaceCode(c as int)
    ensures AtomMatchesChar(true, 'S', c) <==> !SpaceCode(c as int)
    ensures AtomMatchesChar(true, 'w', c) <==> WordCode(c as int)
    ensures AtomMatchesChar(true, 'W', c) <==> !WordCode(c as int)
    ensures AtomMatchesChar(true, 'f', c) <==> c as int == 12
    ensures AtomMatchesChar(true, 'n', c) <==> c as int == 10
    ensures AtomMatchesChar(true, 'r', c) <==> c as int == 13
    ensures AtomMatchesChar(true, 't', c) <==> c as int == 9
    ensures AtomMatchesChar(true, 'v', c) <==> c as int == 11
  {
    PunctuationMarks(p);
    Spaces(c);
  }

  lemma OrdinaryIsNotSpecial(c: char)
    ensures OrdinaryChar(c) <==> c != '\0' && !IsSpecial(c)
  {
    var s := "^$()[]{}|?*+";
    assert s[0] == '^' && s[1] == '$' && s[2] == '(' && s[3] == ')' && s[4] == '[' && s[5] == ']';
    assert s[6] == '{' && s[7] == '}' && s[8] == '|' && s[9] == '?' && s[10] == '*' && s[11] == '+';
  }

  lemma Escapes(c: char)
    ensures IsValidEscape(c) <==> PunctuationCode(c as int) || EscapeLetter(c)
  {
    PunctuationMarks(c);
    var s := "dDfnrsStvwW";
    assert s[0] == 'd' && s[1] == 'D' && s[2] == 'f' && s[3] == 'n' && s[4] == 'r' && s[5] == 's';
    assert s[6] == 'S' && s[7] == 't' && s[8] == 'v' && s[9] == 'w' && s[10] == 'W';
  }

  // ----- Texts of ordinary characters -----

  predicate Ordinary(w: CString) {
    forall i :: 0 <= i < |w| ==> OrdinaryChar(w[i])
  }

  /** The string is the text, with any character but the newline where the text has a dot. */
  predicate Reads(w: CString, s: string) {
    |s| == |w| && forall i :: 0 <= i < |w| ==> s[i] == w[i] || (w[i] == '.' && s[i] as int != 10)
  }

  /** Some part of the string reads as the text. */
  ghost predicate Contains(s: string, w: CString) {
    exists i {:trigger s[i..]} :: 0 <= i <= |s| - |w| && Reads(w, s[i..][..|w|])
  }

  ghost function PlainItems(w: CString): (items: seq<Item>)
    ensures |items| == |w|
  {
    seq(|w|, i requires 0 <= i < |w| => Item(false, w[i], Once))
  }

  lemma {:induction false} PlainItemsText(w: CString)
    requires Ordinary(w)
    ensures WfItems(PlainItems(w)) && ItemsText(PlainItems(w)) == w
    decreases |w|
  {
    hide IsSpecial, OrdinaryChar;
    forall k | 0 <= k < |w|
      ensures WfItem(PlainItems(w)[k])
    {
      OrdinaryIsNotSpecial(w[k]);
    }
    if w == "" {
    } else {
      PlainItemsText(w[1..]);
      assert PlainItems(w)[1..] == PlainItems(w[1..]);
    }
  }

  lemma {:induction false} PlainLanguage(w: CString, s: string)
    ensures InLanguage(PlainItems(w), s) <==> Reads(w, s)
    decreases |w|
  {
    if w == "" {
    } else {
      var items := PlainItems(w);
      assert items[1..] == PlainItems(w[1..]);
      if s != "" {
        PlainLanguage(w[1..], s[1..]);
        PlainAtom(w[0], s[0]);
        assert Reads(w, s) <==> AtomMatchesChar(false, w[0], s[0]) && Reads(w[1..], s[1..]);
        assert ItemMatches(items[0], s[..1]) <==> AtomMatchesChar(false, w[0], s[0]);
      }
    }
  }

  /** The text between anchors. */
  function Between(caret: bool, w: CString, dollar: bool): CString {
    (if caret then "^" else "") + w + (if dollar then "$" else "")
  }

  lemma PlainPattern(caret: bool, w: CString, dollar: bool)
    requires Ordinary(w)
    ensures Parse(Between(caret, w, dollar)) == Some(Pattern(caret, PlainItems(w), dollar))
  {
    hide Parse, ItemsText, WfItems, Ordinary;
    PlainItemsText(w);
    var p := Pattern(caret, PlainItems(w), dollar);
    ParseInvertsText(p);
    assert Text(p) == Between(caret, w, dollar);
  }

  /** A text of ordinary characters matches exactly the strings that contain it, at the start behind
      `^` and at the end before `$`. */
  lemma PlainMatches(caret: bool, w: CString, dollar: bool, s: string)
    requires Ordinary(w)
    ensures Parse(Between(caret, w, dollar)).Some?
    ensures Matches(Parse(Between(caret, w, dollar)).value, s) <==>
      exists i {:trigger s[i..]} :: 0 <= i <= |s| - |w| && Reads(w, s[i..][..|w|])
        && (caret ==> i == 0) && (dollar ==> i + |w| == |s|)
  {
    PlainPattern(caret, w, dollar);
    hide Parse;
    forall i | 0 <= i <= |s|
      ensures MatchesHead(Tail(PlainItems(w), dollar), s[i..]) <==>
        i <= |s| - |w| && Reads(w, s[i..][..|w|]) && (dollar ==> i + |w| == |s|)
    {
      PlainHead(w, dollar, s[i..]);
    }
  }

  lemma PlainHead(w: CString, dollar: bool, s: string)
    ensures MatchesHead(Tail(PlainItems(w), dollar), s) <==>
      |w| <= |s| && Reads(w, s[..|w|]) && (dollar ==> |w| == |s|)
  {
    forall k | 0 <= k <= |s|
      ensures InLanguage(PlainItems(w), s[..k]) <==> k == |w| && Reads(w, s[..|w|])
    {
      PlainLanguage(w, s[..k]);
    }
  }

  /** Without anchors. */
  lemma PlainContained(w: CString, s: string)
    requires Ordinary(w)
    ensures Parse(w).Some?
    ensures Matches(Parse(w).value, s) <==> Contains(s, w)
  {
    assert Between(false, w, false) == w;
    PlainMatches(false, w, false, s);
  }

  lemma PlainWhole(w: CString)
    requires Ordinary(w)
    ensures Parse(w) == Some(Pattern(false, PlainItems(w), false))
  {
    assert Between(false, w, false) == w;
    PlainPattern(false, w, false);
  }

  // ----- Texts of one atom -----

  lemma OneItem(i: Item)
    requires WfItem(i)
    ensures Parse(ItemText(i)) == Some(Pattern(false, [i], false))
  {
    var p := Pattern(false, [i], false);
    ParseInvertsText(p);
    assert ItemsText([i]) == ItemText(i) + ItemsText([]);
    assert Text(p) == ItemText(i);
  }

  lemma OneItemLanguage(i: Item, s: string)
    ensures InLanguage([i], s) <==> ItemMatches(i, s)
  {
    assert [i][1..] == [];
    assert s[..|s|] == s;
    assert InLanguage([i], s) <==>
      exists k {:trigger s[..k]} :: 0 <= k <= |s| && ItemMatches(i, s[..k]) && s[k..] == "";
  }

  /** Which texts of one or two characters are patterns: all but the special characters alone, and behind
      a backslash the punctuation marks and eleven letters. */
  lemma ShortPatterns(c: char)
    requires c != '\0'
    ensures Parse([c]).Some? <==> OrdinaryChar(c) || c == '^' || c == '$'
    ensures Parse(['\\', c]).Some? <==> PunctuationCode(c as int) || EscapeLetter(c)
  {
    hide IsSpecial, IsValidEscape, OrdinaryChar;
    OrdinaryIsNotSpecial(c);
    Escapes(c);
    RepeatChars(c);
    RepeatChars('\\');
    var s, t := [c], ['\\', c];
    assert s[1..] == "" && t[2..] == "";
    assert ParseTail("").Some?;
  }
}
