/** The matcher for simple regular expressions, its validator, and the class that keeps a pattern
    and its anchored form.  A pointer into a string is modelled as the suffix it points to. */
module SimpleRegex {
  import opened Buckets
  import opened RegexPatterns
  import opened RegexTexts

  /** `static_cast<size_t>(-1)`. */
  const SIZE_MAX: nat := 0xFFFF_FFFF_FFFF_FFFF

  // ----- Validation -----

  /** No syntax error at the unescaped character at position i. */
  predicate Acceptable(s: CString, i: nat, prevRepeatable: bool)
    requires i < |s|
  {
    && !(s[i] == '^' && i > 0)
    && !(s[i] == '$' && At(s, i + 1) != '\0')
    && !IsInSet(s[i], "()[]{}|")
    && !(IsRepeat(s[i]) && !prevRepeatable)
  }

  /** No syntax error from position i on. */
  predicate Scan(s: CString, i: nat, prevRepeatable: bool)
    decreases |s| - i
  {
    if i >= |s| then true
    else if s[i] == '\\' then At(s, i + 1) != '\0' && IsValidEscape(s[i + 1]) && Scan(s, i + 2, true)
    else Acceptable(s, i, prevRepeatable) && Scan(s, i + 1, !IsInSet(s[i], "^$?*+"))
  }

  lemma SpecialChars(c: char)
    requires c != '\0'
    ensures IsSpecial(c) <==> c == '\\' || c == '^' || c == '$' || IsInSet(c, "()[]{}|") || IsRepeat(c)
    ensures IsInSet(c, "^$?*+") <==> c == '^' || c == '$' || IsRepeat(c)
    ensures IsInSet(c, "()[]{}|") ==> !IsRepeat(c) && c != '^' && c != '$' && c != '\\'
  {
    RepeatChars(c);
    var s, t, u := "^$()[]{}|?*+", "()[]{}|", "^$?*+";
    assert s == "^$" + t + "?*+";
    assert u == "^$" + "?*+";
  }

  lemma ScanRepeat(s: CString, j: nat)
    requires j < |s| && IsRepeat(s[j])
    ensures Scan(s, j, true) <==> Scan(s, j + 1, false)
  {
    hide IsInSet, IsRepeat;
    SpecialChars(s[j]);
    RepeatChars(s[j]);
  }

  lemma ScanAtom(s: CString, i: nat, prevRepeatable: bool)
    requires i < |s| && AtomLength(s[i..]) > 0
    ensures Scan(s, i, prevRepeatable) <==> Scan(s, i + AtomLength(s[i..]), true)
  {
    hide IsInSet, IsRepeat, IsSpecial, IsValidEscape;
    SpecialChars(s[i]);
  }

  lemma ScanStuck(s: CString, i: nat, prevRepeatable: bool)
    requires i < |s| && AtomLength(s[i..]) == 0 && s[i..] != "$"
    requires IsRepeat(s[i]) ==> !prevRepeatable
    requires i == 0 ==> s[0] != '^'
    ensures !Scan(s, i, prevRepeatable)
  {
    hide IsInSet, IsRepeat, IsSpecial, IsValidEscape;
    SpecialChars(s[i]);
    if s[i] == '$' {
      assert s[i..] == "$" + s[i + 1..];
    }
  }

  /** Where no repetition is pending, the scan accepts what can be read as items and `$`. */
  lemma {:induction false} ScanIsParseTail(s: CString, i: nat, prevRepeatable: bool)
    requires i <= |s| && (i < |s| && IsRepeat(s[i]) ==> !prevRepeatable)
    requires i == 0 && s != "" ==> s[0] != '^'
    ensures Scan(s, i, prevRepeatable) <==> ParseTail(s[i..]).Some?
    decreases |s| - i
  {
    var t := s[i..];
    if i == |s| {
    } else if t == "$" {
      LastDollar(s, i, prevRepeatable);
    } else if AtomLength(t) == 0 {
      ScanStuck(s, i, prevRepeatable);
    } else {
      hide AtomLength, IsRepeat, Scan, HeadItem;
      var j := i + AtomLength(t);
      ScanAtom(s, i, prevRepeatable);
      assert t[AtomLength(t)..] == s[j..];
      if j < |s| && IsRepeat(s[j]) {
        ScanRepeat(s, j);
        assert AfterHead(t) == s[j + 1..];
        ScanIsParseTail(s, j + 1, false);
      } else {
        assert AfterHead(t) == s[j..];
        ScanIsParseTail(s, j, true);
      }
    }
  }

  lemma LastDollar(s: CString, i: nat, prevRepeatable: bool)
    requires i < |s| && s[i..] == "$"
    ensures Scan(s, i, prevRepeatable)
  {
    SpecialChars('$');
    RepeatChars('$');
    assert s[i] == s[i..][0];
  }

  lemma ScanIsParse(s: CString)
    ensures Scan(s, 0, false) <==> Parse(s).Some?
  {
    if s != "" && s[0] == '^' {
      SpecialChars('^');
      RepeatChars('^');
      ScanIsParseTail(s, 1, false);
    } else {
      assert s[0..] == s;
      ScanIsParseTail(s, 0, false);
    }
  }

  lemma ShortTexts(s: CString)
    ensures |s| == 1 ==> (Parse(s).Some? <==> OrdinaryChar(s[0]) || s[0] == '^' || s[0] == '$')
    ensures |s| == 2 && s[0] == '\\' ==> (Parse(s).Some? <==> PunctuationCode(s[1] as int) || EscapeLetter(s[1]))
    ensures Ordinary(s) ==> Parse(s).Some?
  {
    hide Parse, OrdinaryChar, PunctuationCode, EscapeLetter;
    if |s| == 1 {
      ShortPatterns(s[0]);
      assert s == [s[0]];
    }
    if |s| == 2 && s[0] == '\\' {
      ShortPatterns(s[1]);
      assert s == ['\\', s[1]];
    }
    if Ordinary(s) {
      PlainContained(s, "");
    }
  }

  /** Accepts exactly the texts of patterns: all texts of ordinary characters, and behind a backslash
      the punctuation marks and eleven letters. */
  method ValidateRegex(regex: Option<CString>) returns (valid: bool)
    ensures valid <==> regex.Some? && Parse(regex.value).Some?
    ensures regex.Some? && Ordinary(regex.value) ==> valid
    ensures regex.Some? && |regex.value| == 1 ==>
      (valid <==> OrdinaryChar(regex.value[0]) || regex.value == "^" || regex.value == "$")
    ensures regex.Some? && |regex.value| == 2 && regex.value[0] == '\\' ==>
      (valid <==> PunctuationCode(regex.value[1] as int) || EscapeLetter(regex.value[1]))
  {
    hide Parse, Ordinary, OrdinaryChar, PunctuationCode, EscapeLetter, IsAsciiPunct;
    if regex == None {
      return false;
    }
    var s := regex.value;
    ShortTexts(s);
    ScanIsParse(s);
    valid := true;
    var prevRepeatable := false;
    var i := 0;
    while At(s, i) != '\0'
      invariant i <= |s|
      invariant valid && Scan(s, i, prevRepeatable) <==> Scan(s, 0, false)
      decreases |s| - i
    {
      if s[i] == '\\' {
        i := i + 1;
        if At(s, i) == '\0' {
          return false;
        }
        if !IsValidEscape(s[i]) {
          valid := false;
        }
        prevRepeatable := true;
      } else {
        var ch := s[i];
        if ch == '^' && i > 0 {
          valid := false;
        } else if ch == '$' && At(s, i + 1) != '\0' {
          valid := false;
        } else if IsInSet(ch, "()[]{}|") {
          valid := false;
        } else if IsRepeat(ch) && !prevRepeatable {
          valid := false;
        }
        prevRepeatable := !IsInSet(ch, "^$?*+");
      }
      i := i + 1;
    }
  }

  // ----- Matching -----

  /** An atom may take n characters exactly when that many are allowed and all of them match. */
  lemma TakesWhenAllowed(item: Item, t: Tail, str: string, n: nat)
    requires n <= |str| && forall k :: 0 <= k < n ==> AtomMatchesChar(item.escaped, item.c, str[k])
    ensures TakesThen(item, t, str, n) <==> item.rep.Allows(n) && MatchesHead(t, str[n..])
  {
  }

  lemma CannotTake(item: Item, t: Tail, str: string, n: nat, k: nat)
    requires k < n && (k >= |str| || !AtomMatchesChar(item.escaped, item.c, str[k]))
    ensures !TakesThen(item, t, str, n)
  {
    if n <= |str| {
      assert str[..n][k] == str[k];
    }
  }

  /** A repeated atom and the rest of a pattern match at the head. */
  method MatchRepetitionAndRegexAtHead(escaped: bool, c: char, repeat: char, regex: CString, str: CString)
      returns (m: bool)
    requires IsRepeat(repeat) && ParseTail(regex).Some? && |str| < SIZE_MAX
    ensures m <==> exists n: nat ::
      TakesThen(Item(escaped, c, RepeatOf(repeat)), ParseTail(regex).value, str, n)
    decreases |regex|, 1
  {
    hide AtomMatchesChar, MatchesHead, ParseTail, TakesThen;
    RepeatChars(repeat);
    ghost var item, t := Item(escaped, c, RepeatOf(repeat)), ParseTail(regex).value;
    var minCount := if repeat == '+' then 1 else 0;
    var maxCount := if repeat == '?' then 1 else SIZE_MAX - 1;
    var i := 0;
    while i <= maxCount
      invariant i <= |str|
      invariant forall k :: 0 <= k < i ==> AtomMatchesChar(escaped, c, str[k])
      invariant forall n: nat :: n < i ==> !TakesThen(item, t, str, n)
      invariant i <= maxCount + 1
      decreases |str| - i
    {
      TakesWhenAllowed(item, t, str, i);
      if i >= minCount {
        var rest := MatchRegexAtHead(regex, str[i..]);
        if rest {
          assert TakesThen(item, t, str, i);
          return true;
        }
      }
      if At(str, i) == '\0' || !AtomMatchesChar(escaped, c, str[i]) {
        forall n: nat | n > i
          ensures !TakesThen(item, t, str, n)
        {
          CannotTake(item, t, str, n, i);
        }
        return false;
      }
      i := i + 1;
    }
    forall n: nat | n >= i
      ensures !TakesThen(item, t, str, n)
    {
      TooMany(item, t, str, n);
    }
    return false;
  }

  lemma TooMany(item: Item, t: Tail, str: string, n: nat)
    requires item.rep == Optional && n >= 2
    ensures !TakesThen(item, t, str, n)
  {
  }

  /** A pattern without `^` matches at the head. */
  method MatchRegexAtHead(regex: CString, str: CString) returns (m: bool)
    requires ParseTail(regex).Some? && |str| < SIZE_MAX
    ensures m <==> MatchesHead(ParseTail(regex).value, str)
    decreases |regex|, 0
  {
    hide AtomMatchesChar, MatchesHead, IsSpecial, IsInSet, IsValidEscape, IsRepeat, TakesThen;
    if At(regex, 0) == '\0' {
      MatchesHeadEmpty(false, str);
      return true;
    }
    SpecialChars('$');
    if regex[0] == '$' {
      MatchesHeadEmpty(true, str);
      return At(str, 0) == '\0';
    }
    ghost var item, t := HeadItem(regex), ParseTail(AfterHead(regex)).value;
    MatchesHeadStep(item, t, str);
    var escaped := regex[0] == '\\';
    var rest := if escaped then regex[1..] else regex;
    assert AtomLength(regex) > 0 && regex[AtomLength(regex)..] == rest[1..];
    RepeatChars(At(rest, 1));
    if IsRepeat(At(rest, 1)) {
      m := MatchRepetitionAndRegexAtHead(escaped, rest[0], rest[1], rest[2..], str);
    } else {
      SingleAtom(item, t, str);
      if At(str, 0) != '\0' && AtomMatchesChar(escaped, rest[0], str[0]) {
        m := MatchRegexAtHead(rest[1..], str[1..]);
      } else {
        m := false;
      }
    }
  }

  /** An atom without repetition takes one character. */
  lemma SingleAtom(item: Item, t: Tail, str: string)
    requires item.rep == Once
    ensures (exists n: nat :: TakesThen(item, t, str, n)) <==>
      str != "" && AtomMatchesChar(item.escaped, item.c, str[0]) && MatchesHead(t, str[1..])
  {
    if str != "" && AtomMatchesChar(item.escaped, item.c, str[0]) && MatchesHead(t, str[1..]) {
      assert TakesThen(item, t, str, 1);
    }
    if n: nat :| TakesThen(item, t, str, n) {
      assert n == 1 && str[..1][0] == str[0];
    }
  }

  /** The pattern matches some substring; for ordinary characters, the string contains the text, with any
      character but the newline for a dot. */
  method MatchRegexAnywhere(regex: Option<CString>, str: Option<CString>) returns (m: bool)
    requires regex.Some? ==> Parse(regex.value).Some?
    requires str.Some? ==> |str.value| < SIZE_MAX
    ensures m <==> regex.Some? && str.Some? && Matches(Parse(regex.value).value, str.value)
    ensures regex.Some? && str.Some? && Ordinary(regex.value) ==> (m <==> Contains(str.value, regex.value))
  {
    hide MatchesHead, ParseTail;
    if regex == None || str == None {
      return false;
    }
    var r, s := regex.value, str.value;
    if Ordinary(r) {
      PlainContained(r, s);
    }
    ghost var p := Parse(r).value;
    ghost var t := Tail(p.items, p.dollar);
    assert s[0..] == s;
    if At(r, 0) == '^' {
      m := MatchRegexAtHead(r[1..], s);
      return;
    }
    var i := 0;
    while true
      invariant i <= |s|
      invariant forall j {:trigger s[j..]} :: 0 <= j < i ==> !MatchesHead(t, s[j..])
      decreases |s| - i
    {
      m := MatchRegexAtHead(r, s[i..]);
      if m {
        return true;
      }
      if At(s, i) == '\0' {
        break;
      }
      i := i + 1;
    }
    return false;
  }

  // ----- The class -----

  /** The pattern ends in an escaped `$`, which the anchoring step takes for an anchor. */
  predicate EndsInEscapedDollar(p: Pattern) {
    && !p.dollar && |p.items| > 0
    && p.items[|p.items| - 1].escaped && p.items[|p.items| - 1].c == '$' && p.items[|p.items| - 1].rep == Once
  }

  /** The pattern with `^` in front and `$` behind, unless its text already begins or ends so. */
  function Anchored(s: CString): CString {
    (if At(s, 0) == '^' then "" else "^") + s + (if s == "" || s[|s| - 1] != '$' then "$" else "")
  }

  lemma {:induction false} ItemsTextLast(items: seq<Item>)
    requires WfItems(items)
    ensures var w := ItemsText(items);
      w != "" && w[|w| - 1] == '$' <==> EndsInEscapedDollar(Pattern(false, items, false))
    decreases |items|
  {
    hide IsSpecial, IsInSet, IsValidEscape, IsRepeat;
    if items == [] {
    } else {
      var i, rest := items[0], items[1..];
      ItemsTextLast(rest);
      RepeatChars('$');
      var w, v := ItemText(i), ItemsText(rest);
      assert w[|w| - 1] == if i.rep == Once then i.c else i.rep.Text()[0];
      if rest == [] {
        assert w + v == w;
      } else {
        assert rest[|rest| - 1] == items[|items| - 1];
        assert v != "" by {
          assert v == ItemText(rest[0]) + ItemsText(rest[1..]);
        }
        assert (w + v)[|w + v| - 1] == v[|v| - 1];
      }
    }
  }

  lemma TextEnds(p: Pattern)
    requires WfItems(p.items)
    ensures At(Text(p), 0) == '^' <==> p.caret
    ensures var s := Text(p); s != "" && s[|s| - 1] == '$' <==> p.dollar || EndsInEscapedDollar(p)
  {
    var s, w := Text(p), ItemsText(p.items);
    TailStart(p.items, p.dollar);
    ItemsTextLast(p.items);
    if !p.dollar && w != "" {
      assert s[|s| - 1] == w[|w| - 1];
    }
  }

  /** The anchored text is that of the anchored pattern, except that a pattern which ends in an
      escaped `$` gets no anchor at its end. */
  lemma AnchoredPattern(s: CString)
    requires Parse(s).Some?
    ensures var p := Parse(s).value; Parse(Anchored(s)) == Some(Pattern(true, p.items, !EndsInEscapedDollar(p)))
  {
    hide Parse, IsSpecial, IsInSet, IsValidEscape, IsRepeat, ItemsText;
    var p := Parse(s).value;
    TextInvertsParse(s);
    TextEnds(p);
    var q := Pattern(true, p.items, !EndsInEscapedDollar(p));
    ParseInvertsText(q);
    assert Anchored(s) == Text(q);
  }

  /** A character that the atom matches. */
  function Sample(i: Item): char {
    if i.escaped then
      match i.c
      case 'd' => '0'
      case 'D' => 'a'
      case 'f' => '\U{c}'
      case 'n' => '\n'
      case 'r' => '\r'
      case 's' => ' '
      case 'S' => 'a'
      case 't' => '\t'
      case 'v' => '\U{b}'
      case 'w' => 'a'
      case 'W' => ' '
      case _ => i.c
    else i.c
  }

  lemma SampleMatches(i: Item)
    requires WfItem(i)
    ensures AtomMatchesChar(i.escaped, i.c, Sample(i)) && Sample(i) != '\0'
  {
    var spaces, letters := " \U{c}\n\r\t\U{b}", "dDfnrsStvwW";
    assert spaces[0] == ' ';
    assert IsInSet(i.c, letters) ==> i.c in ['d', 'D', 'f', 'n', 'r', 's', 'S', 't', 'v', 'w', 'W'];
  }

  /** Every well-formed pattern denotes some word. */
  lemma {:induction false} SampleWord(items: seq<Item>) returns (w: CString)
    requires WfItems(items)
    ensures InLanguage(items, w) && |w| == |items|
    decreases |items|
  {
    if items == [] {
      w := "";
    } else {
      var rest := SampleWord(items[1..]);
      SampleMatches(items[0]);
      w := [Sample(items[0])] + rest;
      assert w[..1] == [Sample(items[0])] && w[1..] == rest;
    }
  }

  /** Words of a pattern that ends in an escaped `$` end in `$`. */
  lemma {:induction false} WordsEndInDollar(items: seq<Item>, w: string)
    requires EndsInEscapedDollar(Pattern(false, items, false)) && InLanguage(items, w)
    ensures w != "" && w[|w| - 1] == '$'
    decreases |items|
  {
    var k :| 0 <= k <= |w| && ItemMatches(items[0], w[..k]) && InLanguage(items[1..], w[k..]);
    if |items| == 1 {
      assert k == 1 && w[k..] == "";
      assert w[..1][0] == w[0];
    } else {
      WordsEndInDollar(items[1..], w[k..]);
    }
  }

  lemma WholeWord(items: seq<Item>, s: string)
    ensures Matches(Pattern(true, items, true), s) <==> InLanguage(items, s)
    ensures Matches(Pattern(true, items, false), s) <==>
      exists k {:trigger s[..k]} :: 0 <= k <= |s| && InLanguage(items, s[..k])
  {
    assert s[0..] == s && s[..|s|] == s;
  }

  /** What a full match finds: the whole string, or a prefix when the anchor at the end is missing. */
  ghost predicate FullyMatches(p: Pattern, s: string) {
    if EndsInEscapedDollar(p)
    then exists k {:trigger s[..k]} :: 0 <= k <= |s| && InLanguage(p.items, s[..k])
    else InLanguage(p.items, s)
  }

  /** A full match means membership of the whole string in the language, for all strings, if and
      only if the pattern does not end in an escaped `$`. */
  lemma FullMatchExactness(p: Pattern)
    requires WfItems(p.items)
    ensures (forall s: CString :: FullyMatches(p, s) <==> InLanguage(p.items, s)) <==> !EndsInEscapedDollar(p)
  {
    if EndsInEscapedDollar(p) {
      hide InLanguage, EndsInEscapedDollar;
      var w := SampleWord(p.items);
      var s: CString := w + "x";
      assert s[..|w|] == w;
      assert FullyMatches(p, s);
      if InLanguage(p.items, s) {
        SameEnding(p);
        WordsEndInDollar(p.items, s);
      }
    }
  }

  lemma SameEnding(p: Pattern)
    requires EndsInEscapedDollar(p)
    ensures EndsInEscapedDollar(Pattern(false, p.items, false))
  {
  }

  /** The smallest such pattern, `\$`, fully matches `$x`. */
  lemma EscapedDollarExample()
    ensures var p := Pattern(false, [Item(true, '$', Once)], false);
      && Parse("\\$") == Some(p) && Parse(Anchored("\\$")) == Some(Pattern(true, p.items, false))
      && FullyMatches(p, "$x") && !InLanguage(p.items, "$x")
  {
    var i := Item(true, '$', Once);
    var p := Pattern(false, [i], false);
    DollarEscape();
    hide IsSpecial, IsInSet, IsValidEscape, IsRepeat, Parse;
    assert Text(p) == "\\$" by {
      assert ItemsText([i]) == ItemText(i) + ItemsText([]);
    }
    ParseInvertsText(p);
    AnchoredPattern("\\$");
    assert "$x"[..1] == "$" && "$"[..1] == "$" && "$"[1..] == "";
    assert ItemMatches(i, "$") by {
      DollarMatches();
    }
    assert InLanguage(p.items, "$");
    if InLanguage(p.items, "$x") {
      WordsEndInDollar(p.items, "$x");
    }
  }

  lemma DollarEscape()
    ensures WfItem(Item(true, '$', Once))
  {
    var punct := "^-!\"#$%&'()*+,./:;<=>?@[\\]_`{|}~";
    assert punct[5] == '$';
  }

  lemma DollarMatches()
    ensures AtomMatchesChar(true, '$', '$')
  {
    DollarEscape();
    SampleMatches(Item(true, '$', Once));
  }

  /** A text of ordinary characters fully matches exactly the strings that read as the text. */
  lemma PlainFullMatch(w: CString, s: string)
    requires Ordinary(w)
    ensures Parse(w).Some? && (FullyMatches(Parse(w).value, s) <==> Reads(w, s))
  {
    hide Parse, InLanguage;
    PlainWhole(w);
    PlainLanguage(w, s);
  }

  /** One atom with its repetition fully matches the strings of an allowed length all of whose
      characters match the atom. */
  lemma OneItemFullMatch(i: Item, s: string)
    requires WfItem(i) && !EndsInEscapedDollar(Pattern(false, [i], false))
    ensures Parse(ItemText(i)).Some?
    ensures FullyMatches(Parse(ItemText(i)).value, s) <==>
      i.rep.Allows(|s|) && forall k :: 0 <= k < |s| ==> AtomMatchesChar(i.escaped, i.c, s[k])
  {
    hide Parse, InLanguage;
    OneItem(i);
    OneItemLanguage(i, s);
  }

  /** A repeated character fully matches the runs of it: of length at most one behind `?`, of any length
      behind `*`, and not the empty one behind `+`. */
  lemma RepeatedCharacter(a: char, s: string)
    requires OrdinaryChar(a) && a != '.'
    ensures Parse([a, '?']).Some? && Parse([a, '*']).Some? && Parse([a, '+']).Some?
    ensures FullyMatches(Parse([a, '?']).value, s) <==> s == "" || s == [a]
    ensures FullyMatches(Parse([a, '*']).value, s) <==> forall k :: 0 <= k < |s| ==> s[k] == a
    ensures FullyMatches(Parse([a, '+']).value, s) <==> s != "" && forall k :: 0 <= k < |s| ==> s[k] == a
  {
    hide Parse, FullyMatches, OrdinaryChar, IsSpecial;
    OrdinaryIsNotSpecial(a);
    OneItemFullMatch(Item(false, a, Optional), s);
    OneItemFullMatch(Item(false, a, Star), s);
    OneItemFullMatch(Item(false, a, Plus), s);
    assert forall r: Repeat :: ItemText(Item(false, a, r)) == [a] + r.Text();
    assert [a] + "?" == [a, '?'] && [a] + "*" == [a, '*'] && [a] + "+" == [a, '+'];
  }

  /** An escape by itself fully matches the strings of one character that it stands for; the escaped `$`
      alone also matches longer ones. */
  lemma EscapeAlone(c: char, s: string)
    requires (PunctuationCode(c as int) || EscapeLetter(c)) && c != '$'
    ensures Parse(['\\', c]).Some?
    ensures FullyMatches(Parse(['\\', c]).value, s) <==> |s| == 1 && AtomMatchesChar(true, c, s[0])
  {
    hide Parse, FullyMatches, PunctuationCode, EscapeLetter, AtomMatchesChar, IsValidEscape;
    Escapes(c);
    EscapeIsCharacter(c);
    var i := Item(true, c, Once);
    OneItemFullMatch(i, s);
    assert ItemText(i) == ['\\', c];
  }

  lemma EscapeIsCharacter(c: char)
    requires PunctuationCode(c as int) || EscapeLetter(c)
    ensures c != '\0'
  {
  }

  class RE {
    var pattern: Option<CString>
    var fullPattern: Option<CString>
    var isValid: bool

    /** A valid pattern is kept together with its anchored text. */
    ghost predicate Valid()
      reads this
    {
      && (isValid <==> pattern.Some? && Parse(pattern.value).Some?)
      && (isValid ==> fullPattern == Some(Anchored(pattern.value)))
    }

    constructor (regex: Option<CString>)
      ensures Valid() && pattern == regex
    {
      pattern, fullPattern, isValid := None, None, false;
      new;
      Init(regex);
    }

    /** Validates the pattern and, if it is valid, prepares its anchored text. */
    method Init(regex: Option<CString>)
      modifies this
      ensures Valid() && pattern == regex
    {
      pattern, fullPattern := regex, None;
      isValid := ValidateRegex(regex);
      if !isValid {
        return;
      }
      var buffer := WriteAnchored(regex.value);
      fullPattern := Some(buffer);
    }

    /** Writes the anchored text to a buffer of three more characters. */
    static method WriteAnchored(s: CString) returns (r: CString)
      ensures r == Anchored(s)
    {
      var len := |s|;
      var buffer := new char[len + 3](i => '\0');
      var n := 0;
      if At(s, 0) != '^' {
        buffer[n] := '^';
        n := n + 1;
      }
      ghost var start: string := if At(s, 0) == '^' then "" else "^";
      var i := 0;
      while i < len
        invariant i <= len && buffer[..n + i] == start + s[..i]
      {
        buffer[n + i] := s[i];
        i := i + 1;
      }
      n := n + len;
      assert buffer[..n] == start + s;
      if len == 0 || s[len - 1] != '$' {
        buffer[n] := '$';
        n := n + 1;
      }
      buffer[n] := '\0';
      assert buffer[..n] == Anchored(s);
      r := buffer[..n];
    }

    static method FullMatch(str: Option<CString>, re: RE) returns (m: bool)
      requires re.Valid() && (str.Some? ==> |str.value| < SIZE_MAX)
      ensures m <==> re.isValid && str.Some? && FullyMatches(Parse(re.pattern.value).value, str.value)
      ensures re.pattern.Some? && str.Some? && Ordinary(re.pattern.value) ==>
        (m <==> Reads(re.pattern.value, str.value))
    {
      if re.pattern.Some? && str.Some? && Ordinary(re.pattern.value) {
        PlainFullMatch(re.pattern.value, str.value);
      }
      if !re.isValid {
        return false;
      }
      AnchoredPattern(re.pattern.value);
      m := MatchRegexAnywhere(re.fullPattern, str);
      if str.Some? {
        WholeWord(Parse(re.pattern.value).value.items, str.value);
      }
    }

    static method PartialMatch(str: Option<CString>, re: RE) returns (m: bool)
      requires re.Valid() && (str.Some? ==> |str.value| < SIZE_MAX)
      ensures m <==> re.isValid && str.Some? && Matches(Parse(re.pattern.value).value, str.value)
      ensures re.pattern.Some? && str.Some? && Ordinary(re.pattern.value) ==>
        (m <==> Contains(str.value, re.pattern.value))
    {
      if re.pattern.Some? && Ordinary(re.pattern.value) {
        PlainContained(re.pattern.value, "");
      }
      if !re.isValid {
        return false;
      }
      m := MatchRegexAnywhere(re.pattern, str);
    }
  }
}
