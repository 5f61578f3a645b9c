/** grep's matcher for the patterns of chapter 9 of "The Practice of Programming", against the language they denote. */
module Regex {

  /** A C string: its characters, without the NUL that ends it. */
  type CString = s: seq<char> | '\0' !in s witness []

  // ---------------------------------------------------------------- what a pattern means

  /** c, c*, or the end of the text. */
  datatype Item = One(c: char) | Star(c: char) | End

  /** A pattern without its leading ^ as a list of items; $ is the end of the text in last place only. */
  function Items(re: seq<char>): seq<Item> {
    if re == [] then []
    else if |re| >= 2 && re[1] == '*' then [Star(re[0])] + Items(re[2..])
    else if re == ['$'] then [End]
    else [One(re[0])] + Items(re[1..])
  }

  /** The period stands for any character. */
  predicate Fits(c: char, d: char) { c == '.' || c == d }

  /** The strings that one item denotes. */
  predicate Denotes(item: Item, p: seq<char>) {
    match item
    case One(c) => |p| == 1 && Fits(c, p[0])
    case Star(c) => forall k :: 0 <= k < |p| ==> Fits(c, p[k])
    case End => p == []
  }

  function Joined(ps: seq<seq<char>>): seq<char> {
    if ps == [] then [] else ps[0] + Joined(ps[1..])
  }

  /** u is made of one piece for each item. */
  ghost predicate InLanguage(items: seq<Item>, u: seq<char>) {
    exists ps: seq<seq<char>> :: Splits(items, u, ps)
  }

  ghost predicate Splits(items: seq<Item>, u: seq<char>, ps: seq<seq<char>>) {
    |ps| == |items| && Joined(ps) == u && forall i :: 0 <= i < |items| ==> Denotes(items[i], ps[i])
  }

  predicate HasEnd(items: seq<Item>) {
    items != [] && items[|items| - 1] == End
  }

  /** Some prefix of the text is in the language, the whole text if the pattern ends in $. */
  ghost predicate Accepts(items: seq<Item>, text: seq<char>) {
    exists n :: 0 <= n <= |text| && PrefixIn(items, text, n)
  }

  ghost predicate PrefixIn(items: seq<Item>, text: seq<char>, n: nat)
    requires n <= |text|
  {
    InLanguage(items, text[..n]) && (HasEnd(items) ==> n == |text|)
  }

  /** What match decides: from the start of the text for a leading ^, else from some place in it. */
  ghost predicate Found(re: seq<char>, text: seq<char>) {
    if re != [] && re[0] == '^' then Accepts(Items(re[1..]), text)
    else exists k :: 0 <= k <= |text| && Accepts(Items(re), text[k..])
  }

  // ---------------------------------------------------------------- the language, item by item

  /** The language of a list is that of its first item followed by that of the rest. */
  lemma {:induction false} FirstPiece(item: Item, rest: seq<Item>, u: seq<char>, k: nat)
    requires k <= |u| && Denotes(item, u[..k]) && InLanguage(rest, u[k..])
    ensures InLanguage([item] + rest, u)
  {
    var ps :| Splits(rest, u[k..], ps);
    var qs := [u[..k]] + ps;
    assert qs[1..] == ps;
    assert Joined(qs) == u[..k] + u[k..] == u;
    assert Splits([item] + rest, u, qs);
  }

  lemma {:induction false} FirstPieceBack(item: Item, rest: seq<Item>, u: seq<char>) returns (k: nat)
    requires InLanguage([item] + rest, u)
    ensures k <= |u| && Denotes(item, u[..k]) && InLanguage(rest, u[k..])
  {
    var qs :| Splits([item] + rest, u, qs);
    assert u == qs[0] + Joined(qs[1..]);
    k := |qs[0]|;
    assert ([item] + rest)[0] == item && u[..k] == qs[0] && u[k..] == Joined(qs[1..]);
    assert forall i :: 0 <= i < |rest| ==> Denotes(rest[i], qs[1..][i]) by {
      forall i | 0 <= i < |rest| ensures Denotes(rest[i], qs[1..][i]) {
        assert ([item] + rest)[i + 1] == rest[i] && Denotes(([item] + rest)[i + 1], qs[i + 1]);
      }
    }
    assert Splits(rest, u[k..], qs[1..]);
  }

  lemma {:induction false} AcceptsNothing(text: seq<char>)
    ensures Accepts([], text)
  {
    assert Splits([], text[..0], []);
    assert PrefixIn([], text, 0);
  }

  lemma {:induction false} AcceptsEnd(text: seq<char>)
    ensures Accepts([End], text) <==> text == []
  {
    if Accepts([End], text) {
      var n :| 0 <= n <= |text| && PrefixIn([End], text, n);
      assert [End] + [] == [End];
      var k := FirstPieceBack(End, [], text[..n]);
      var ps :| Splits([], text[..n][k..], ps);
    }
    if text == [] {
      assert Joined([[]]) == [];
      assert Splits([End], text[..0], [[]]);
      assert PrefixIn([End], text, 0);
    }
  }

  /** A prefix that starts with a piece of k characters. */
  lemma {:induction false} AcceptsAfter(item: Item, rest: seq<Item>, text: seq<char>, k: nat)
    requires k <= |text| && Denotes(item, text[..k]) && Accepts(rest, text[k..]) && (item == End ==> HasEnd(rest))
    ensures Accepts([item] + rest, text)
  {
    var n :| 0 <= n <= |text[k..]| && PrefixIn(rest, text[k..], n);
    assert text[..k + n][..k] == text[..k] && text[..k + n][k..] == text[k..][..n];
    FirstPiece(item, rest, text[..k + n], k);
    assert PrefixIn([item] + rest, text, k + n);
  }

  lemma {:induction false} AcceptsAfterBack(item: Item, rest: seq<Item>, text: seq<char>) returns (k: nat)
    requires Accepts([item] + rest, text)
    ensures k <= |text| && Denotes(item, text[..k]) && Accepts(rest, text[k..])
  {
    var n :| 0 <= n <= |text| && PrefixIn([item] + rest, text, n);
    k := FirstPieceBack(item, rest, text[..n]);
    assert text[..n][..k] == text[..k] && text[..n][k..] == text[k..][..n - k];
    assert HasEnd(rest) ==> HasEnd([item] + rest);
    assert PrefixIn(rest, text[k..], n - k);
  }

  lemma {:induction false} AcceptsOne(c: char, rest: seq<Item>, text: seq<char>)
    ensures Accepts([One(c)] + rest, text) <==> text != [] && Fits(c, text[0]) && Accepts(rest, text[1..])
  {
    if Accepts([One(c)] + rest, text) {
      var k := AcceptsAfterBack(One(c), rest, text);
    }
    if text != [] && Fits(c, text[0]) && Accepts(rest, text[1..]) {
      AcceptsAfter(One(c), rest, text, 1);
    }
  }

  lemma {:induction false} AcceptsStar(c: char, rest: seq<Item>, text: seq<char>)
    ensures Accepts([Star(c)] + rest, text) <==>
      Accepts(rest, text) || (text != [] && Fits(c, text[0]) && Accepts([Star(c)] + rest, text[1..]))
  {
    if Accepts([Star(c)] + rest, text) {
      var k := AcceptsAfterBack(Star(c), rest, text);
      if k == 0 {
        assert text[0..] == text;
      } else {
        assert text[..k][0] == text[0] && text[1..][..k - 1] == text[..k][1..] && text[1..][k - 1..] == text[k..];
        AcceptsAfter(Star(c), rest, text[1..], k - 1);
      }
    }
    if Accepts(rest, text) {
      assert text[0..] == text;
      AcceptsAfter(Star(c), rest, text, 0);
    }
    if text != [] && Fits(c, text[0]) && Accepts([Star(c)] + rest, text[1..]) {
      var k := AcceptsAfterBack(Star(c), rest, text[1..]);
      assert text[..k + 1] == [text[0]] + text[1..][..k] && text[k + 1..] == text[1..][k..];
      AcceptsAfter(Star(c), rest, text, k + 1);
    }
  }

  // ---------------------------------------------------------------- the matcher

  /** The character at the pointer, NUL at the end. */
  function At(s: CString, i: nat): char {
    if i < |s| then s[i] else '\0'
  }

  /** matchhere decides whether the pattern matches at the beginning of the text. */
  method MatchHere(re: CString, text: CString) returns (b: bool)
    ensures b <==> Accepts(Items(re), text)
    decreases |re|, 0
  {
    if At(re, 0) == '\0' {
      AcceptsNothing(text);
      return true;
    }
    if At(re, 1) == '*' {
      b := MatchStar(re[0], re[2..], text);
      return;
    }
    if At(re, 0) == '$' && At(re, 1) == '\0' {
      assert re == ['$'];
      AcceptsEnd(text);
      return At(text, 0) == '\0';
    }
    AcceptsOne(re[0], Items(re[1..]), text);
    if At(text, 0) != '\0' && (re[0] == '.' || re[0] == At(text, 0)) {
      b := MatchHere(re[1..], text[1..]);
      return;
    }
    return false;
  }

  /** matchstar decides whether c*re matches at the beginning of the text. */
  method MatchStar(c: char, re: CString, text: CString) returns (b: bool)
    ensures b <==> Accepts([Star(c)] + Items(re), text)
    decreases |re|, 1
  {
    var t: CString := text;
    while true
      invariant Accepts([Star(c)] + Items(re), text) <==> Accepts([Star(c)] + Items(re), t)
      decreases |t|
    {
      AcceptsStar(c, Items(re), t);
      b := MatchHere(re, t);
      if b {
        return true;
      }
      if !(At(t, 0) != '\0' && (At(t, 0) == c || c == '.')) {
        return false;
      }
      t := t[1..];
    }
  }

  /** match decides whether the pattern matches anywhere in the text. */
  method Match(re: CString, text: CString) returns (b: bool)
    ensures b <==> Found(re, text)
  {
    if At(re, 0) == '^' {
      b := MatchHere(re[1..], text);
      return;
    }
    var k := 0;
    while true
      invariant k <= |text| && forall j :: 0 <= j < k ==> !Accepts(Items(re), text[j..])
      decreases |text| - k
    {
      b := MatchHere(re, text[k..]);
      if b {
        return true;
      }
      if At(text[k..], 0) == '\0' {
        return false;
      }
      k := k + 1;
    }
  }
}
