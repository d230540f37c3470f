/** Simple regular expressions: their syntax trees, how a tree is written as a pattern, and the
    language it denotes. */
module RegexPatterns {
  import opened Buckets

  /** A string without the terminating zero. */
  type CString = s: string | forall i :: 0 <= i < |s| ==> s[i] != '\0'

  /** The character at position i, which is zero at the end. */
  function At(s: CString, i: nat): char
    requires i <= |s|
  {
    if i < |s| then s[i] else '\0'
  }

  // ----- Characters -----

  predicate IsInSet(c: char, s: string) {
    c != '\0' && c in s
  }

  predicate IsAsciiDigit(c: char) {
    '0' <= c <= '9'
  }

  predicate IsAsciiPunct(c: char) {
    IsInSet(c, "^-!\"#$%&'()*+,./:;<=>?@[\\]_`{|}~")
  }

  predicate IsRepeat(c: char) {
    IsInSet(c, "?*+")
  }

  predicate IsAsciiWhiteSpace(c: char) {
    IsInSet(c, " \U{c}\n\r\t\U{b}")
  }

  predicate IsAsciiWordChar(c: char) {
    'a' <= c <= 'z' || 'A' <= c <= 'Z' || '0' <= c <= '9' || c == '_'
  }

  predicate IsValidEscape(c: char) {
    IsAsciiPunct(c) || IsInSet(c, "dDfnrsStvwW")
  }

  predicate AtomMatchesChar(escaped: bool, p: char, c: char) {
    if escaped then
      match p
      case 'd' => IsAsciiDigit(c)
      case 'D' => !IsAsciiDigit(c)
      case 'f' => c == '\U{c}'
      case 'n' => c == '\n'
      case 'r' => c == '\r'
      case 's' => IsAsciiWhiteSpace(c)
      case 'S' => !IsAsciiWhiteSpace(c)
      case 't' => c == '\t'
      case 'v' => c == '\U{b}'
      case 'w' => IsAsciiWordChar(c)
      case 'W' => !IsAsciiWordChar(c)
      case _ => IsAsciiPunct(p) && p == c
    else
      (p == '.' && c != '\n') || p == c
  }

  // ----- Trees -----

  datatype Repeat = Once | Optional | Star | Plus {
    /** How it is written behind an atom. */
    function Text(): CString {
      match this
      case Once => ""
      case Optional => "?"
      case Star => "*"
      case Plus => "+"
    }

    /** Whether n occurrences of the atom are allowed. */
    predicate Allows(n: nat) {
      match this
      case Once => n == 1
      case Optional => n <= 1
      case Star => true
      case Plus => n >= 1
    }
  }

  function RepeatOf(c: char): Repeat
    requires IsRepeat(c)
  {
    if c == '?' then Optional else if c == '*' then Star else Plus
  }

  /** An atom with its repetition. */
  datatype Item = Item(escaped: bool, c: char, rep: Repeat)

  /** Characters that are no atoms by themselves. */
  predicate IsSpecial(c: char) {
    c == '\\' || IsInSet(c, "^$()[]{}|?*+")
  }

  predicate WfItem(i: Item) {
    i.c != '\0' && if i.escaped then IsValidEscape(i.c) else !IsSpecial(i.c)
  }

  predicate WfItems(items: seq<Item>) {
    forall k :: 0 <= k < |items| ==> WfItem(items[k])
  }

  /** A pattern: `^` or not, atoms with their repetitions, `$` or not. */
  datatype Pattern = Pattern(caret: bool, items: seq<Item>, dollar: bool)

  function ItemText(i: Item): CString
    requires WfItem(i)
  {
    (if i.escaped then ['\\', i.c] else [i.c]) + i.rep.Text()
  }

  function ItemsText(items: seq<Item>): CString
    requires WfItems(items)
  {
    if items == [] then "" else ItemText(items[0]) + ItemsText(items[1..])
  }

  function Text(p: Pattern): CString
    requires WfItems(p.items)
  {
    (if p.caret then "^" else "") + TailText(p.items, p.dollar)
  }

  function TailText(items: seq<Item>, dollar: bool): CString
    requires WfItems(items)
  {
    ItemsText(items) + if dollar then "$" else ""
  }

  // ----- Parsing -----

  datatype Tail = Tail(items: seq<Item>, dollar: bool)

  /** Number of characters of the atom at the head, or 0 when there is none. */
  function AtomLength(s: CString): (n: nat)
    requires s != ""
    ensures n <= |s|
  {
    if s[0] == '\\' then (if |s| >= 2 && IsValidEscape(s[1]) then 2 else 0)
    else if IsSpecial(s[0]) then 0
    else 1
  }

  function RepeatAt(s: CString): Repeat {
    if s != "" && IsRepeat(s[0]) then RepeatOf(s[0]) else Once
  }

  function HeadItem(s: CString): Item
    requires s != "" && AtomLength(s) > 0
  {
    var n := AtomLength(s);
    Item(n == 2, s[n - 1], RepeatAt(s[n..]))
  }

  /** The part of the pattern behind the first atom and its repetition. */
  function AfterHead(s: CString): (t: CString)
    requires s != "" && AtomLength(s) > 0
    ensures |t| < |s|
  {
    var t := s[AtomLength(s)..];
    if t != "" && IsRepeat(t[0]) then t[1..] else t
  }

  /** Reads a pattern without `^`. */
  function ParseTail(s: CString): Option<Tail>
    decreases |s|
  {
    if s == "" then Some(Tail([], false))
    else if s == "$" then Some(Tail([], true))
    else if AtomLength(s) == 0 then None
    else
      match ParseTail(AfterHead(s))
      case None => None
      case Some(t) => Some(Tail([HeadItem(s)] + t.items, t.dollar))
  }

  function Parse(s: CString): Option<Pattern> {
    var caret := s != "" && s[0] == '^';
    match ParseTail(if caret then s[1..] else s)
    case None => None
    case Some(t) => Some(Pattern(caret, t.items, t.dollar))
  }

  lemma RepeatChars(c: char)
    ensures IsRepeat(c) <==> c == '?' || c == '*' || c == '+'
    ensures IsRepeat(c) ==> IsSpecial(c) && RepeatOf(c).Text() == [c]
    ensures IsSpecial('^') && IsSpecial('$') && IsSpecial('\\') && !IsRepeat('$') && !IsRepeat('^') && !IsRepeat('\\')
  {
    var s := "?*+";
    assert s[0] == '?' && s[1] == '*' && s[2] == '+';
    var t := "^$()[]{}|?*+";
    assert t[0] == '^' && t[1] == '$' && t[9] == '?' && t[10] == '*' && t[11] == '+';
  }

  /** What is read is what was written. */
  lemma {:induction false} ParseTailSound(s: CString)
    requires ParseTail(s).Some?
    ensures WfItems(ParseTail(s).value.items)
    ensures TailText(ParseTail(s).value.items, ParseTail(s).value.dollar) == s
    decreases |s|
  {
    hide IsSpecial, IsInSet, IsValidEscape, IsRepeat, AtomLength, HeadItem, AfterHead;
    if s != "" && s != "$" {
      var h, t := HeadItem(s), AfterHead(s);
      ParseTailSound(t);
      HeadItemText(s);
      var v := ParseTail(t).value;
      var items := [h] + v.items;
      assert items[1..] == v.items;
      assert ItemsText(items) == ItemText(h) + ItemsText(v.items);
      assert TailText(items, v.dollar) == ItemText(h) + TailText(v.items, v.dollar);
    }
  }

  lemma HeadItemText(s: CString)
    requires s != "" && AtomLength(s) > 0
    ensures WfItem(HeadItem(s)) && ItemText(HeadItem(s)) + AfterHead(s) == s
  {
    hide IsInSet, IsValidEscape;
    var n := AtomLength(s);
    var t := s[n..];
    if t != "" {
      RepeatChars(t[0]);
    }
    assert s == s[..n] + t;
  }

  /** Behind an item comes no repetition. */
  lemma TailStart(items: seq<Item>, dollar: bool)
    requires WfItems(items)
    ensures var s := TailText(items, dollar); s != "" ==> !IsRepeat(s[0]) && s[0] != '^'
  {
    if items == [] {
      RepeatChars('$');
    } else {
      var i := items[0];
      RepeatChars(i.c);
      RepeatChars('\\');
      var s := TailText(items, dollar);
      assert s[0] == ItemText(i)[0];
    }
  }

  /** A well-formed item followed by the rest of a pattern is read as that item. */
  lemma ReadItem(i: Item, t: CString)
    requires WfItem(i) && (t != "" ==> !IsRepeat(t[0]))
    ensures var s := ItemText(i) + t; s != "$" && AtomLength(s) > 0 && HeadItem(s) == i && AfterHead(s) == t
  {
    hide IsSpecial, IsInSet, IsValidEscape, IsRepeat;
    var s := ItemText(i) + t;
    RepeatChars('\\');
    RepeatChars(i.c);
    var n := if i.escaped then 2 else 1;
    assert AtomLength(s) == n && s[n - 1] == i.c;
    assert s[n..] == i.rep.Text() + t;
    if i.rep != Once {
      var r := i.rep.Text();
      RepeatChars(r[0]);
      assert s[n..][1..] == t;
    } else {
      assert s[n..] == t;
    }
  }

  lemma {:induction false} ParseTailComplete(items: seq<Item>, dollar: bool)
    requires WfItems(items)
    ensures ParseTail(TailText(items, dollar)) == Some(Tail(items, dollar))
    decreases |items|
  {
    var s := TailText(items, dollar);
    if items == [] {
      assert s == if dollar then "$" else "";
    } else {
      var t := TailText(items[1..], dollar);
      assert s == ItemText(items[0]) + t;
      TailStart(items[1..], dollar);
      ReadItem(items[0], t);
      ParseTailComplete(items[1..], dollar);
      assert items == [items[0]] + items[1..];
    }
  }

  /** Reading inverts writing and writing inverts reading: every pattern text has one tree. */
  lemma ParseInvertsText(p: Pattern)
    requires WfItems(p.items)
    ensures Parse(Text(p)) == Some(p)
  {
    var t := TailText(p.items, p.dollar);
    ParseTailComplete(p.items, p.dollar);
    TailStart(p.items, p.dollar);
    if p.caret {
      assert Text(p)[1..] == t;
    } else {
      assert Text(p) == t;
    }
  }

  lemma TextInvertsParse(s: CString)
    requires Parse(s).Some?
    ensures WfItems(Parse(s).value.items) && Text(Parse(s).value) == s
  {
    var caret := s != "" && s[0] == '^';
    ParseTailSound(if caret then s[1..] else s);
  }

  // ----- Language -----

  predicate ItemMatches(i: Item, w: string) {
    i.rep.Allows(|w|) && forall k :: 0 <= k < |w| ==> AtomMatchesChar(i.escaped, i.c, w[k])
  }

  /** The word is a concatenation of one word for each item. */
  ghost predicate InLanguage(items: seq<Item>, w: string) {
    if items == [] then w == ""
    else exists k {:trigger w[..k]} :: 0 <= k <= |w| && ItemMatches(items[0], w[..k]) && InLanguage(items[1..], w[k..])
  }

  /** Some prefix is in the language; all of the string, if the pattern ends in `$`. */
  ghost predicate MatchesHead(t: Tail, s: string) {
    exists k {:trigger s[..k]} :: 0 <= k <= |s| && InLanguage(t.items, s[..k]) && (t.dollar ==> k == |s|)
  }

  /** Some substring is in the language; it starts at the beginning if the pattern has `^` and
      stops at the end if it has `$`. */
  ghost predicate Matches(p: Pattern, s: string) {
    exists i {:trigger s[i..]} :: 0 <= i <= |s| && (p.caret ==> i == 0) && MatchesHead(Tail(p.items, p.dollar), s[i..])
  }

  lemma MatchesHeadEmpty(dollar: bool, s: string)
    ensures MatchesHead(Tail([], dollar), s) <==> (dollar ==> s == "")
  {
    if dollar {
      assert s[..|s|] == s;
    } else {
      assert s[..0] == "";
    }
  }

  ghost predicate TakesThen(i: Item, t: Tail, s: string, n: nat) {
    n <= |s| && ItemMatches(i, s[..n]) && MatchesHead(t, s[n..])
  }

  lemma MatchesHeadSplit(i: Item, t: Tail, s: string, k: nat, n: nat)
    requires n <= k <= |s| && ItemMatches(i, s[..k][..n]) && InLanguage(t.items, s[..k][n..]) && (t.dollar ==> k == |s|)
    ensures TakesThen(i, t, s, n)
  {
    assert s[..k][..n] == s[..n];
    assert s[..k][n..] == s[n..][..k - n];
  }

  lemma MatchesHeadJoin(i: Item, t: Tail, s: string, n: nat)
    requires TakesThen(i, t, s, n)
    ensures MatchesHead(Tail([i] + t.items, t.dollar), s)
  {
    var rest := s[n..];
    var j :| 0 <= j <= |rest| && InLanguage(t.items, rest[..j]) && (t.dollar ==> j == |rest|);
    var w := s[..n + j];
    assert w[..n] == s[..n] && w[n..] == rest[..j];
    assert ([i] + t.items)[1..] == t.items;
    assert InLanguage([i] + t.items, w);
  }

  /** A pattern matches at the head when its first item takes some characters and the rest of the
      pattern matches behind them. */
  lemma MatchesHeadStep(i: Item, t: Tail, s: string)
    ensures MatchesHead(Tail([i] + t.items, t.dollar), s) <==> exists n: nat :: TakesThen(i, t, s, n)
  {
    var items := [i] + t.items;
    assert items[1..] == t.items;
    if MatchesHead(Tail(items, t.dollar), s) {
      var k :| 0 <= k <= |s| && InLanguage(items, s[..k]) && (t.dollar ==> k == |s|);
      var w := s[..k];
      var n :| 0 <= n <= |w| && ItemMatches(items[0], w[..n]) && InLanguage(items[1..], w[n..]);
      MatchesHeadSplit(i, t, s, k, n);
    }
    if n: nat :| TakesThen(i, t, s, n) {
      MatchesHeadJoin(i, t, s, n);
    }
  }
}
