/** grep's matcher for ^, $, . and *. Strings are C strings, written without their final NUL. */
module Grep {

  /** One item of a pattern; the character '.' stands for any. */
  datatype Item = One(c: char) | Star(c: char)

  predicate Fits(c: char, t: char) { c == '.' || c == t }

  // --------------------------------------------------- the language of a pattern

  ghost predicate ItemLang(item: Item, s: string) {
    match item
    case One(c) => |s| == 1 && Fits(c, s[0])
    case Star(c) => forall i :: 0 <= i < |s| ==> Fits(c, s[i])
  }

  /** `s` is a concatenation of strings, one for each item. */
  ghost predicate Lang(items: seq<Item>, s: string)
    decreases |items|
  {
    if items == [] then s == []
    else exists k :: 0 <= k <= |s| && Cut(items[0], s, k) && Lang(items[1..], s[k..])
  }

  ghost predicate Cut(item: Item, s: string, k: nat)
    requires k <= |s|
  {
    ItemLang(item, s[..k])
  }

  // ------------------------------------------------------- patterns and their text

  /** A pattern after its ^: the items, and whether a final $ ends it. */
  datatype Parsed = Parsed(items: seq<Item>, end: bool)

  function ItemText(item: Item): (s: string)
    ensures s != [] && s[0] == item.c
  {
    match item
    case One(c) => [c]
    case Star(c) => [c, '*']
  }

  /** The pattern as it is written. */
  function Show(p: Parsed): string
    decreases |p.items|
  {
    if p.items == [] then (if p.end then "$" else "")
    else ItemText(p.items[0]) + Show(Parsed(p.items[1..], p.end))
  }

  /** Items that can be read off their text: a single character is not followed by the
      character '*', and '$' as the last one means the end of the text. */
  ghost predicate Clear(p: Parsed) {
    && (forall k :: 0 <= k < |p.items| - 1 && p.items[k].One? ==> p.items[k+1].c != '*')
    && (!p.end && p.items != [] ==> p.items[|p.items|-1] != One('$'))
  }

  /** The items of a pattern, found from the left. */
  function Parse(re: string): Parsed
    decreases |re|
  {
    if re == [] then Parsed([], false)
    else if |re| > 1 && re[1] == '*' then Cons(Star(re[0]), Parse(re[2..]))
    else if re == "$" then Parsed([], true)
    else Cons(One(re[0]), Parse(re[1..]))
  }

  function Cons(item: Item, p: Parsed): Parsed { Parsed([item] + p.items, p.end) }

  /** What may stand in front of a pattern whose text is `s`. */
  ghost predicate Before(item: Item, s: string) {
    item.One? ==> if s == [] then item.c != '$' else s[0] != '*'
  }

  lemma ConsShow(item: Item, p: Parsed)
    ensures Show(Cons(item, p)) == ItemText(item) + Show(p)
  {
    assert Cons(item, p).items[1..] == p.items;
  }

  /** A pattern is clear if each item is clear of what follows it. */
  lemma ConsClear(item: Item, p: Parsed)
    ensures Clear(Cons(item, p)) <==> Clear(p) && Before(item, Show(p))
  {
    var q := Cons(item, p);
    assert forall k :: 0 <= k < |p.items| ==> q.items[k+1] == p.items[k];
    if p.items == [] {
      assert Show(p) == if p.end then "$" else "";
    } else {
      assert Show(p)[0] == p.items[0].c;
      assert q.items[0] == item && q.items[1] == p.items[0];
      assert q.items[|q.items|-1] == p.items[|p.items|-1];
    }
  }

  /** Every text is that of a clear pattern, the one that Parse finds. */
  lemma {:induction false} ParseIs(re: string)
    ensures Clear(Parse(re)) && Show(Parse(re)) == re
    decreases |re|
  {
    if re == [] {
    } else if |re| > 1 && re[1] == '*' {
      ParseIs(re[2..]);
      ConsIs(Star(re[0]), re[2..], re);
    } else if re != "$" {
      ParseIs(re[1..]);
      ConsIs(One(re[0]), re[1..], re);
    }
  }

  lemma ConsIs(item: Item, s: string, re: string)
    requires Clear(Parse(s)) && Show(Parse(s)) == s && Before(item, s) && re == ItemText(item) + s
    ensures Clear(Parse(re)) && Show(Parse(re)) == re
  {
    ConsParse(item, s);
    ConsClear(item, Parse(s));
    ConsShow(item, Parse(s));
  }

  /** And of no other. */
  lemma {:induction false} ParseShow(p: Parsed)
    requires Clear(p)
    ensures Parse(Show(p)) == p
    decreases |p.items|
  {
    if p.items != [] {
      var item, rest := p.items[0], Parsed(p.items[1..], p.end);
      assert p == Cons(item, rest);
      ConsClear(item, rest);
      ParseShow(rest);
      ConsParse(item, Show(rest));
    }
  }

  lemma ConsParse(item: Item, s: string)
    requires Before(item, s)
    ensures Parse(ItemText(item) + s) == Cons(item, Parse(s))
  {
    var re := ItemText(item) + s;
    match item
    case One(c) => assert re[1..] == s;
    case Star(c) => assert re[2..] == s;
  }

  /** A whole pattern: whether ^ begins it, and the rest. */
  datatype Pattern = Pattern(begin: bool, body: Parsed)

  function ShowAll(q: Pattern): string { (if q.begin then "^" else "") + Show(q.body) }

  ghost predicate ClearAll(q: Pattern) {
    Clear(q.body) && (!q.begin ==> Show(q.body) == [] || Show(q.body)[0] != '^')
  }

  function ParseAll(re: string): Pattern {
    if re != [] && re[0] == '^' then Pattern(true, Parse(re[1..])) else Pattern(false, Parse(re))
  }

  lemma ParseAllIs(re: string)
    ensures ClearAll(ParseAll(re)) && ShowAll(ParseAll(re)) == re
  {
    if re != [] && re[0] == '^' { ParseIs(re[1..]); } else { ParseIs(re); }
  }

  lemma ParseShowAll(q: Pattern)
    requires ClearAll(q)
    ensures ParseAll(ShowAll(q)) == q
  {
    if q.begin { assert ShowAll(q)[1..] == Show(q.body); } else { assert ShowAll(q) == Show(q.body); }
    ParseShow(q.body);
  }

  // ------------------------------------------------------------------ where it matches

  ghost predicate Prefix(p: Parsed, s: string, j: nat)
    requires j <= |s|
  {
    Lang(p.items, s[..j]) && (p.end ==> j == |s|)
  }

  /** The pattern matches at the beginning of `s`. */
  ghost predicate Here(p: Parsed, s: string) {
    exists j :: 0 <= j <= |s| && Prefix(p, s, j)
  }

  /** Some substring of the text, where the anchors allow it, is in the language. */
  ghost predicate Accepts(q: Pattern, text: string) {
    exists i :: SubstringAt(q.body, text, i) && (q.begin ==> i == 0)
  }

  ghost predicate SubstringAt(p: Parsed, text: string, i: nat) {
    exists j :: i <= j <= |text| && Substring(p, text, i, j)
  }

  ghost predicate Substring(p: Parsed, text: string, i: nat, j: nat)
    requires i <= j <= |text|
  {
    Lang(p.items, text[i..j]) && (p.end ==> j == |text|)
  }

  // -------------------------------------------------------------------- matching

  /** match: 1 exactly when a substring of the text is in the language of the pattern that `re`
      is the text of. */
  method Match(re: string, text: string) returns (b: bool)
    ensures b <==> Accepts(ParseAll(re), text)
    ensures forall q :: ClearAll(q) && ShowAll(q) == re ==> (b <==> Accepts(q, text))
  {
    forall q | ClearAll(q) && ShowAll(q) == re ensures ParseAll(re) == q { ParseShowAll(q); }
    if |re| > 0 && re[0] == '^' {
      b := MatchHere(re[1..], text);
      HereIsSubstring(Parse(re[1..]), text, 0);
      assert text[0..] == text;
      return;
    }
    var i := 0;
    while true
      invariant 0 <= i <= |text| && forall k :: 0 <= k < i ==> !SubstringAt(Parse(re), text, k)
      decreases |text| - i
    {
      b := MatchHere(re, text[i..]);
      HereIsSubstring(Parse(re), text, i);
      if b || i == |text| { return; }
      i := i + 1;
    }
  }

  /** matchhere: search at the beginning of the text. */
  method MatchHere(re: string, text: string) returns (b: bool)
    ensures b <==> Here(Parse(re), text)
    ensures forall p :: Clear(p) && Show(p) == re ==> (b <==> Here(p, text))
    decreases |re|, 0
  {
    forall p | Clear(p) && Show(p) == re ensures Parse(re) == p { ParseShow(p); }
    if |re| == 0 {
      EmptyHere(text);
      return true;
    }
    if |re| > 1 && re[1] == '*' {
      b := MatchStar(re[0], re[2..], text);
    } else if re == "$" {
      EndHere(text);
      b := |text| == 0;
    } else {
      OneHere(re[0], Parse(re[1..]), text);
      if |text| > 0 && (re[0] == '.' || re[0] == text[0]) {
        b := MatchHere(re[1..], text[1..]);
      } else {
        b := false;
      }
    }
  }

  /** matchstar: search for c* and then `re`, shortest first. */
  method MatchStar(c: char, re: string, text: string) returns (b: bool)
    ensures b <==> Here(Parsed([Star(c)] + Parse(re).items, Parse(re).end), text)
    decreases |re|, 1
  {
    StarHere(c, Parse(re), text);
    var i := 0;
    while true
      invariant 0 <= i <= |text| && forall k :: 0 <= k < i ==> Fits(c, text[k])
      invariant forall k :: 0 <= k < i ==> !StarSplit(c, Parse(re), text, k)
      decreases |text| - i
    {
      b := MatchHere(re, text[i..]);
      if b {
        assert StarSplit(c, Parse(re), text, i);
        return;
      }
      if i == |text| || !(text[i] == c || c == '.') {
        assert forall k :: i < k <= |text| ==> !StarSplit(c, Parse(re), text, k);
        return;
      }
      i := i + 1;
    }
  }

  // ---------------------------------------------------------- item by item

  lemma HereIsSubstring(p: Parsed, text: string, i: nat)
    requires i <= |text|
    ensures Here(p, text[i..]) <==> SubstringAt(p, text, i)
  {
    if j :| 0 <= j <= |text[i..]| && Prefix(p, text[i..], j) {
      assert text[i..][..j] == text[i..i+j];
      assert Substring(p, text, i, i + j);
    }
    if j :| i <= j <= |text| && Substring(p, text, i, j) {
      assert text[i..][..j-i] == text[i..j];
      assert Prefix(p, text[i..], j - i);
    }
  }

  lemma EmptyHere(s: string)
    ensures Here(Parsed([], false), s)
  {
    assert Prefix(Parsed([], false), s, 0);
  }

  lemma EndHere(s: string)
    ensures Here(Parsed([], true), s) <==> s == []
  {
    if s == [] { assert Prefix(Parsed([], true), s, 0); }
  }

  /** The rest of the pattern after one character. */
  lemma OneHere(c: char, p: Parsed, s: string)
    ensures Here(Parsed([One(c)] + p.items, p.end), s) <==> |s| > 0 && Fits(c, s[0]) && Here(p, s[1..])
  {
    var q := Parsed([One(c)] + p.items, p.end);
    assert q.items[1..] == p.items;
    if j :| 0 <= j <= |s| && Prefix(q, s, j) {
      var k :| 0 <= k <= |s[..j]| && Cut(One(c), s[..j], k) && Lang(p.items, s[..j][k..]);
      assert s[..j][1..] == s[1..][..j-1];
      assert Prefix(p, s[1..], j - 1);
    }
    if |s| > 0 && Fits(c, s[0]) && Here(p, s[1..]) {
      var j :| 0 <= j <= |s[1..]| && Prefix(p, s[1..], j);
      assert s[..j+1][1..] == s[1..][..j];
      assert Cut(One(c), s[..j+1], 1);
      assert Prefix(q, s, j + 1);
    }
  }

  /** `k` characters for the star, the rest of the pattern after them. */
  ghost predicate StarSplit(c: char, p: Parsed, s: string, k: nat) {
    k <= |s| && (forall i :: 0 <= i < k ==> Fits(c, s[i])) && Here(p, s[k..])
  }

  lemma StarHere(c: char, p: Parsed, s: string)
    ensures Here(Parsed([Star(c)] + p.items, p.end), s) <==> exists k :: StarSplit(c, p, s, k)
  {
    var q := Parsed([Star(c)] + p.items, p.end);
    assert q.items[1..] == p.items;
    if j :| 0 <= j <= |s| && Prefix(q, s, j) {
      var k :| 0 <= k <= |s[..j]| && Cut(Star(c), s[..j], k) && Lang(p.items, s[..j][k..]);
      assert s[..j][k..] == s[k..][..j-k];
      assert Prefix(p, s[k..], j - k);
      assert forall i :: 0 <= i < k ==> s[i] == s[..j][..k][i];
      assert StarSplit(c, p, s, k);
    }
    if k: nat :| StarSplit(c, p, s, k) {
      var j :| 0 <= j <= |s[k..]| && Prefix(p, s[k..], j);
      assert s[..k+j][k..] == s[k..][..j];
      assert Cut(Star(c), s[..k+j], k);
      assert Prefix(q, s, k + j);
    }
  }

  // --------------------------------------------------------- what patterns look for

  /** The text from `i` on begins with `w`, where a '.' stands for any character. */
  ghost predicate Occurs(w: string, text: string, i: nat) {
    i + |w| <= |text| && forall k :: 0 <= k < |w| ==> w[k] == '.' || w[k] == text[i + k]
  }

  function Ones(w: string): seq<Item> {
    if w == [] then [] else [One(w[0])] + Ones(w[1..])
  }

  lemma {:induction false} ParseWord(w: string)
    requires '*' !in w && (w != [] ==> w[|w|-1] != '$')
    ensures Parse(w) == Parsed(Ones(w), false)
    decreases |w|
  {
    if w != [] {
      ParseWord(w[1..]);
      assert |w| > 1 ==> w[1] in w;
    }
  }

  lemma {:induction false} WordLang(w: string, s: string)
    ensures Lang(Ones(w), s) <==> |s| == |w| && Occurs(w, s, 0)
    decreases |w|
  {
    if w != [] {
      assert Ones(w)[1..] == Ones(w[1..]);
      if s != [] {
        WordLang(w[1..], s[1..]);
        assert Occurs(w, s, 0) <==> (w[0] == '.' || w[0] == s[0]) && Occurs(w[1..], s[1..], 0);
        assert Cut(One(w[0]), s, 1) <==> w[0] == '.' || w[0] == s[0];
      }
    }
  }

  /** A word without special characters but '.' is searched for as a substring. */
  lemma WordSearch(w: string, text: string)
    requires '*' !in w && (w != [] ==> w[0] != '^' && w[|w|-1] != '$')
    ensures Accepts(ParseAll(w), text) <==> exists i :: Occurs(w, text, i)
  {
    ParseWord(w);
    forall i: nat ensures SubstringAt(Parsed(Ones(w), false), text, i) <==> Occurs(w, text, i) { WordAt(w, text, i); }
    assert ParseAll(w) == Pattern(false, Parsed(Ones(w), false));
  }

  lemma WordAt(w: string, text: string, i: nat)
    ensures SubstringAt(Parsed(Ones(w), false), text, i) <==> Occurs(w, text, i)
  {
    var p := Parsed(Ones(w), false);
    if SubstringAt(p, text, i) {
      var j :| i <= j <= |text| && Substring(p, text, i, j);
      WordLang(w, text[i..j]);
    }
    if Occurs(w, text, i) {
      WordLang(w, text[i..i+|w|]);
      assert Substring(p, text, i, i + |w|);
    }
  }

  /** The pattern ^c*$ asks for a text of nothing but `c`, or of anything if `c` is '.'. */
  lemma StarLine(c: char, text: string)
    ensures Accepts(ParseAll(['^', c, '*', '$']), text) <==> forall k :: 0 <= k < |text| ==> c == '.' || text[k] == c
  {
    var re := [c, '*', '$'];
    assert ['^', c, '*', '$'][1..] == re && re[2..] == "$";
    var p := Parsed([Star(c)], true);
    assert Parse(re) == p;
    StarHere(c, Parsed([], true), text);
    HereIsSubstring(p, text, 0);
    assert text[0..] == text;
    forall k: nat | k <= |text| ensures Here(Parsed([], true), text[k..]) <==> k == |text| { EndHere(text[k..]); }
    if forall k :: 0 <= k < |text| ==> Fits(c, text[k]) { assert StarSplit(c, Parsed([], true), text, |text|); }
    assert ParseAll(['^', c, '*', '$']) == Pattern(true, p);
  }
}
