/** The regular expression matcher of user/grep.c, after Kernighan and Pike. Strings are the
    characters before the terminating NUL. */
module Grep {

  // ----- what a pattern means -----

  /** A character stands for itself, '.' for any character. */
  datatype Item = One(c: char) | Star(c: char) | End

  function Items(re: string): seq<Item> {
    if re == "" then []
    else if |re| >= 2 && re[1] == '*' then [Star(re[0])] + Items(re[2..])
    else if re == "$" then [End]
    else [One(re[0])] + Items(re[1..])
  }

  /** The text of an item; End is the last dollar sign. */
  function Spelling(item: Item): string {
    match item case One(c) => [c] case Star(c) => [c, '*'] case End => "$"
  }

  function Print(items: seq<Item>): string {
    if items == [] then "" else Spelling(items[0]) + Print(items[1..])
  }

  /** Nothing in front can take item i, and what follows cannot take it for something else: End is
      last, a last character is no dollar sign, and no star follows a character. */
  predicate Readable(items: seq<Item>) {
    items == [] || (Stays(items) && Readable(items[1..]))
  }

  predicate Stays(items: seq<Item>)
    requires items != []
  {
    match items[0]
    case End => |items| == 1
    case One(c) => if |items| == 1 then c != '$' else Spelling(items[1])[0] != '*'
    case Star(_) => true
  }

  lemma PrintFirst(item: Item, items: seq<Item>)
    ensures Print([item] + items) == Spelling(item) + Print(items)
    ensures items != [] ==> Print(items) != "" && Print(items)[0] == Spelling(items[0])[0]
    ensures Readable([item] + items) <==> Stays([item] + items) && Readable(items)
  {
    assert ([item] + items)[1..] == items;
  }

  /** Every pattern is the text of its items. */
  lemma {:induction false} PrintItems(re: string)
    ensures Print(Items(re)) == re && Readable(Items(re))
  {
    if re == "" {
    } else if |re| >= 2 && re[1] == '*' {
      PrintItems(re[2..]);
      PrintFirst(Star(re[0]), Items(re[2..]));
    } else if re == "$" {
      PrintFirst(End, []);
    } else {
      PrintItems(re[1..]);
      PrintFirst(One(re[0]), Items(re[1..]));
    }
  }

  /** Reading back a printed list of items gives that list exactly when it is a readable one. */
  lemma {:induction false} ItemsPrint(items: seq<Item>)
    ensures Items(Print(items)) == items <==> Readable(items)
  {
    if Readable(items) {
      ReadsBack(items);
    }
    PrintItems(Print(items));
  }

  lemma {:induction false} ReadsBack(items: seq<Item>)
    requires Readable(items)
    ensures Items(Print(items)) == items
  {
    if items != [] {
      var rest := items[1..];
      assert items == [items[0]] + rest;
      PrintFirst(items[0], rest);
      ReadsBack(rest);
      var re := Print(items);
      if items[0].Star? {
        assert re[2..] == Print(rest);
      } else {
        assert re[1..] == Print(rest);
      }
    }
  }

  predicate Agrees(c: char, x: char) { c == '.' || c == x }

  /** The strings an item stands for. */
  ghost predicate Denotes(item: Item, w: string) {
    match item
    case One(c) => |w| == 1 && Agrees(c, w[0])
    case Star(c) => forall i :: 0 <= i < |w| ==> Agrees(c, w[i])
    case End => w == ""
  }

  function Concat(ws: seq<string>): string {
    if ws == [] then "" else ws[0] + Concat(ws[1..])
  }

  /** w is made of one string for each item, and nothing follows w when the last item is End. */
  ghost predicate Spelled(items: seq<Item>, ws: seq<string>, w: string, rest: string) {
    && |ws| == |items| && (forall i :: 0 <= i < |ws| ==> Denotes(items[i], ws[i])) && Concat(ws) == w
    && (items != [] && items[|items| - 1] == End ==> rest == "")
  }

  ghost predicate Accepts(items: seq<Item>, w: string, rest: string) {
    exists ws :: Spelled(items, ws, w, rest)
  }

  /** Some prefix of the text is accepted. */
  ghost predicate Begins(items: seq<Item>, text: string) {
    exists k :: 0 <= k <= |text| && Accepts(items, text[..k], text[k..])
  }

  /** A substring is accepted; one at the start when the pattern begins with a caret. */
  ghost predicate Means(re: string, text: string) {
    if re != "" && re[0] == '^' then Begins(Items(re[1..]), text)
    else exists i, j :: 0 <= i <= j <= |text| && Accepts(Items(re), text[i..j], text[j..])
  }

  /** What the special characters mean. */
  lemma Specials(re: string, text: string, x: char)
    ensures Means("^" + re, text) <==> Begins(Items(re), text)
    ensures Items(".") == [One('.')] && Denotes(One('.'), [x])
    ensures Items([x, '*']) == [Star(x)] && (x != '$' ==> Items([x]) == [One(x)]) && Items("$") == [End]
    ensures x != '.' ==> forall y: char :: Denotes(One(x), [y]) <==> y == x
  {
    assert ("^" + re)[1..] == re;
  }

  // ----- the cases of matchhere -----

  lemma BeginsEmpty(text: string)
    ensures Begins([], text)
  {
    assert Spelled([], [], text[..0], text[0..]);
    assert Accepts([], text[..0], text[0..]);
  }

  lemma BeginsEnd(text: string)
    ensures Begins([End], text) <==> text == ""
  {
    if text == "" {
      assert Concat([""]) == "";
      assert Spelled([End], [""], text[..0], text[0..]);
      assert Accepts([End], text[..0], text[0..]);
    }
    if k :| 0 <= k <= |text| && Accepts([End], text[..k], text[k..]) {
      var ws :| Spelled([End], ws, text[..k], text[k..]);
      assert ws == [""] && Concat(ws[1..]) == "";
    }
  }

  /** A first item takes a prefix that it denotes; the rest of the pattern begins what is left. */
  lemma BeginsCons(item: Item, items: seq<Item>, text: string)
    requires item != End
    ensures Begins([item] + items, text) <==> exists n :: 0 <= n <= |text| && Denotes(item, text[..n]) && Begins(items, text[n..])
  {
    if n :| 0 <= n <= |text| && Denotes(item, text[..n]) && Begins(items, text[n..]) {
      BeginsConsIf(item, items, text, n);
    }
    if Begins([item] + items, text) {
      var n := BeginsConsOnly(item, items, text);
    }
  }

  lemma BeginsConsIf(item: Item, items: seq<Item>, text: string, n: nat)
    requires item != End && n <= |text| && Denotes(item, text[..n]) && Begins(items, text[n..])
    ensures Begins([item] + items, text)
  {
    var rest := text[n..];
    var k :| 0 <= k <= |rest| && Accepts(items, rest[..k], rest[k..]);
    var ws :| Spelled(items, ws, rest[..k], rest[k..]);
    var all := [text[..n]] + ws;
    assert all[1..] == ws;
    assert text[..n] + rest[..k] == text[..n + k] && rest[k..] == text[n + k..];
    assert Spelled([item] + items, all, text[..n + k], text[n + k..]);
    assert Accepts([item] + items, text[..n + k], text[n + k..]);
  }

  lemma BeginsConsOnly(item: Item, items: seq<Item>, text: string) returns (n: nat)
    requires item != End && Begins([item] + items, text)
    ensures n <= |text| && Denotes(item, text[..n]) && Begins(items, text[n..])
  {
    var k :| 0 <= k <= |text| && Accepts([item] + items, text[..k], text[k..]);
    var ws :| Spelled([item] + items, ws, text[..k], text[k..]);
    n := |ws[0]|;
    var tail := Concat(ws[1..]);
    assert text[..k] == ws[0] + tail;
    assert text[..n] == text[..k][..n] == ws[0];
    var rest := text[n..];
    assert rest[..k - n] == text[..k][n..] == tail && rest[k - n..] == text[k..];
    assert Denotes(([item] + items)[0], ws[0]);
    forall i | 0 <= i < |ws[1..]| ensures Denotes(items[i], ws[1..][i]) {
      assert ([item] + items)[i + 1] == items[i];
    }
    assert Spelled(items, ws[1..], rest[..k - n], rest[k - n..]);
    assert Accepts(items, rest[..k - n], rest[k - n..]);
  }

  lemma BeginsOne(c: char, items: seq<Item>, text: string)
    ensures Begins([One(c)] + items, text) <==> text != "" && Agrees(c, text[0]) && Begins(items, text[1..])
  {
    BeginsCons(One(c), items, text);
    if text != "" && Agrees(c, text[0]) && Begins(items, text[1..]) {
      assert Denotes(One(c), text[..1]);
    }
  }

  /** A match somewhere in the text is a match at the start of a suffix. */
  lemma MeansSuffix(re: string, text: string)
    requires re == "" || re[0] != '^'
    ensures Means(re, text) <==> exists i :: 0 <= i <= |text| && Begins(Items(re), text[i..])
  {
    if i, j :| 0 <= i <= j <= |text| && Accepts(Items(re), text[i..j], text[j..]) {
      var t := text[i..];
      assert t[..j - i] == text[i..j] && t[j - i..] == text[j..];
      assert Begins(Items(re), text[i..]);
    }
    if i :| 0 <= i <= |text| && Begins(Items(re), text[i..]) {
      var t := text[i..];
      var k :| 0 <= k <= |t| && Accepts(Items(re), t[..k], t[k..]);
      assert t[..k] == text[i..i + k] && t[k..] == text[i + k..];
      assert Accepts(Items(re), text[i..i + k], text[i + k..]);
    }
  }

  // ----- the matcher -----

  method Match(re: string, text: string) returns (found: bool)
    ensures found <==> Means(re, text)
  {
    if re != "" && re[0] == '^' {
      found := MatchHere(re[1..], text);
      return;
    }
    MeansSuffix(re, text);
    var i := 0;
    while true
      invariant 0 <= i <= |text|
      invariant forall k :: 0 <= k < i ==> !Begins(Items(re), text[k..])
      decreases |text| - i
    {
      var here := MatchHere(re, text[i..]);
      if here {
        return true;
      }
      if i == |text| { // *text++ is the NUL
        break;
      }
      i := i + 1;
    }
    return false;
  }

  /** matchhere: does the pattern match at the beginning of text? */
  method MatchHere(re: string, text: string) returns (found: bool)
    ensures found <==> Begins(Items(re), text)
    decreases |re|, 0
  {
    if re == "" {
      BeginsEmpty(text);
      return true;
    }
    if |re| >= 2 && re[1] == '*' {
      found := MatchStar(re[0], re[2..], text);
      return;
    }
    if re == "$" {
      BeginsEnd(text);
      return text == "";
    }
    BeginsOne(re[0], Items(re[1..]), text);
    if text != "" && (re[0] == '.' || re[0] == text[0]) {
      found := MatchHere(re[1..], text[1..]);
      return;
    }
    return false;
  }

  /** matchstar: c* and then re at the beginning of text. */
  method MatchStar(c: char, re: string, text: string) returns (found: bool)
    ensures found <==> Begins([Star(c)] + Items(re), text)
    decreases |re|, 1
  {
    BeginsCons(Star(c), Items(re), text);
    var i := 0;
    while true
      invariant 0 <= i <= |text|
      invariant Denotes(Star(c), text[..i])
      invariant forall k :: 0 <= k < i ==> !Begins(Items(re), text[k..])
      decreases |text| - i
    {
      var here := MatchHere(re, text[i..]);
      if here {
        return true;
      }
      if !(i < |text| && (text[i] == c || c == '.')) {
        break;
      }
      i := i + 1;
    }
    return false;
  }
}
