/** Whole scripts: statements with comments anywhere outside quotes, blanks around them, and empty ones between. */
module SqlScripts {
  import opened Wrappers
  import opened SqlSplit
  import opened SqlRoundTrip

  // ----- trimming -----

  predicate AllSpace(s: string) {
    forall i :: 0 <= i < |s| ==> IsSpace(s[i])
  }

  /** White space below 128: tab, line feed, vertical tab, form feed, carriage return and blank. */
  lemma AsciiSpaces(c: char)
    requires c as int < 128
    ensures IsSpace(c) <==> c in {'\t', '\n', 11 as char, 12 as char, '\r', ' '}
  {
  }

  /** Trimming takes white space from both ends and nothing else. */
  lemma TrimExact(s: string) returns (a: string, b: string)
    ensures s == a + Trim(s) + b && AllSpace(a) && AllSpace(b)
    ensures Trim(s) == [] || (!IsSpace(Trim(s)[0]) && !IsSpace(Trim(s)[|Trim(s)| - 1]))
  {
    hide IsSpace;
    a := TrimStartExact(s);
    b := TrimEndExact(TrimStart(s));
    TrimStartNeat(s);
    TrimEndNeat(TrimStart(s));
  }

  lemma {:induction false} TrimStartExact(s: string) returns (a: string)
    ensures s == a + TrimStart(s) && AllSpace(a)
  {
    hide IsSpace;
    a := [];
    if s != [] && IsSpace(s[0]) {
      a := TrimStartExact(s[1..]);
      a := [s[0]] + a;
    }
  }

  lemma {:induction false} TrimEndExact(s: string) returns (b: string)
    ensures s == TrimEnd(s) + b && AllSpace(b)
  {
    hide IsSpace;
    b := [];
    if s != [] && IsSpace(s[|s| - 1]) {
      b := TrimEndExact(s[..|s| - 1]);
      b := b + [s[|s| - 1]];
    }
  }

  // ----- items -----

  /** A token, a block comment, or a line comment with its line feed. */
  datatype Item = Code(token: Token) | Block(comment: Comment) | Line(text: string)

  function ItemText(i: Item): (s: string)
    ensures s != []
  {
    match i
    case Code(t) => TextOf(t)
    case Block(c) => CommentText(c)
    case Line(text) => "--" + text + "\n"
  }

  /** What is left of an item: of a line comment its line feed. */
  function Kept(i: Item): string {
    match i
    case Code(t) => TextOf(t)
    case Block(_) => ""
    case Line(_) => "\n"
  }

  function ItemsText(items: seq<Item>): string {
    if items == [] then [] else ItemText(items[0]) + ItemsText(items[1..])
  }

  function AllKept(items: seq<Item>): string {
    if items == [] then [] else Kept(items[0]) + AllKept(items[1..])
  }

  predicate GoodItem(i: Item) {
    match i
    case Code(t) => GoodToken(t)
    case Block(c) => GoodComment(c)
    case Line(text) => '\n' !in text
  }

  /** The item and the character behind it do not read as something else. */
  predicate Fits(i: Item, next: char) {
    && (i.Code? && i.token.Char? ==> !Clash(i.token.c, next))
    && (i.Code? && i.token.Literal? ==> next != '\'')
  }

  predicate GoodItems(items: seq<Item>) {
    && (forall k :: 0 <= k < |items| ==> GoodItem(items[k]))
    && (forall k :: 0 <= k < |items| - 1 ==> Fits(items[k], ItemText(items[k + 1])[0]))
  }

  lemma ReadLine(text: string, rest: string, current: string, done: seq<string>)
    requires '\n' !in text
    ensures Run("--" + text + "\n" + rest, Outside(current, done)) == Run(rest, Outside(current + "\n", done))
  {
    hide Run;
    var tail := "\n" + rest;
    assert "--" + text + "\n" + rest == ['-'] + ("-" + text + tail);
    TakeOne('-', "-" + text + tail, Outside(current, done));
    SkipLineText("-" + text, tail, current, done);
    assert tail == ['\n'] + rest;
    TakeOne('\n', rest, Scan(current, false, false, true, 0, done));
  }

  lemma ReadItem(i: Item, rest: string, current: string, done: seq<string>)
    requires GoodItem(i) && (rest != [] ==> Fits(i, rest[0]))
    ensures Run(ItemText(i) + rest, Outside(current, done)) == Run(rest, Outside(current + Kept(i), done))
  {
    hide Run, GoodToken, GoodComment, CommentText, TextOf, Clash;
    match i
    case Code(t) =>
      ReadToken(t, rest, current, done);
    case Block(c) =>
      SkipComment(c, rest, current, done);
      assert current + "" == current;
    case Line(text) =>
      ReadLine(text, rest, current, done);
  }

  lemma {:induction false} ReadItems(items: seq<Item>, rest: string, current: string, done: seq<string>)
    requires GoodItems(items) && Follows(rest)
    ensures Run(ItemsText(items) + rest, Outside(current, done)) == Run(rest, Outside(current + AllKept(items), done))
    decreases |items|
  {
    hide Run, ItemText, GoodItem, Kept;
    if items == [] {
      assert ItemsText(items) + rest == rest && current + AllKept(items) == current;
    } else {
      var tail := ItemsText(items[1..]) + rest;
      assert ItemsText(items) + rest == ItemText(items[0]) + tail;
      if tail != [] {
        TailFollows(items, rest);
      }
      ReadItem(items[0], tail, current, done);
      ReadItems(items[1..], rest, current + Kept(items[0]), done);
      assert current + Kept(items[0]) + AllKept(items[1..]) == current + AllKept(items);
    }
  }

  lemma TailFollows(items: seq<Item>, rest: string)
    requires items != [] && GoodItems(items) && Follows(rest) && ItemsText(items[1..]) + rest != []
    ensures Fits(items[0], (ItemsText(items[1..]) + rest)[0])
  {
    hide ItemText, GoodItem;
    var tail := ItemsText(items[1..]) + rest;
    if |items| > 1 {
      assert tail[0] == ItemText(items[1])[0];
      assert Fits(items[0], ItemText(items[0 + 1])[0]);
    } else {
      assert tail == rest;
    }
  }

  // ----- scripts -----

  /** The statements' texts with a terminator between them. */
  function ScriptText(list: seq<seq<Item>>): string {
    if list == [] then []
    else if |list| == 1 then ItemsText(list[0])
    else ItemsText(list[0]) + ";" + ScriptText(list[1..])
  }

  /** What is left of the statements, trimmed, without the empty ones. */
  function Yield(list: seq<seq<Item>>): seq<string> {
    if list == [] then []
    else
      var s := Trim(AllKept(list[0]));
      (if s == "" then [] else [s]) + Yield(list[1..])
  }

  lemma StatementRead(items: seq<Item>, rest: string, done: seq<string>)
    requires GoodItems(items)
    ensures Outcome(ItemsText(items) + (";" + rest), Outside("", done))
         == Outcome(rest, Outside("", Flushed(Outside(AllKept(items), done))))
    ensures Outcome(ItemsText(items), Outside("", done)) == Flushed(Outside(AllKept(items), done))
  {
    hide Run, GoodItems, ItemsText, AllKept, Flushed;
    var kept := AllKept(items);
    assert ItemsText(items) + [] == ItemsText(items) && "" + kept == kept;
    ReadItems(items, ";" + rest, "", done);
    Terminate(rest, kept, done);
    ReadItems(items, [], "", done);
    NothingLeft(Outside(kept, done));
  }

  lemma {:induction false} ScriptRead(list: seq<seq<Item>>, done: seq<string>)
    requires list != [] && forall i :: 0 <= i < |list| ==> GoodItems(list[i])
    ensures Outcome(ScriptText(list), Outside("", done)) == done + Yield(list)
    decreases |list|
  {
    hide Outcome, GoodItems, ItemsText, AllKept, Trim, Yield;
    var more := Flushed(Outside(AllKept(list[0]), done));
    FlushedYield(list, done);
    if |list| == 1 {
      StatementRead(list[0], "", done);
      assert ScriptText(list) == ItemsText(list[0]);
      YieldNone(list[1..]);
    } else {
      var rest := ScriptText(list[1..]);
      StatementRead(list[0], rest, done);
      assert ScriptText(list) == ItemsText(list[0]) + (";" + rest);
      ScriptRead(list[1..], more);
    }
  }

  lemma YieldNone(list: seq<seq<Item>>)
    requires list == []
    ensures Yield(list) == []
  {
  }

  lemma FlushedYield(list: seq<seq<Item>>, done: seq<string>)
    requires list != []
    ensures done + Yield(list) == Flushed(Outside(AllKept(list[0]), done)) + Yield(list[1..])
  {
    hide Trim, AllKept;
    var s, more := Trim(AllKept(list[0])), Yield(list[1..]);
    assert done + ([s] + more) == done + [s] + more && done + ([] + more) == done + more;
  }

  /** Comments are stripped wherever they stand outside quotes, white space around statements and empty statements are
      dropped, and everything else comes out as it went in. */
  lemma ScriptSplit(list: seq<seq<Item>>)
    requires forall i :: 0 <= i < |list| ==> GoodItems(list[i])
    ensures Statements(ScriptText(list)) == Yield(list)
  {
    if list == [] {
      NothingLeft(INITIAL);
      EmptyTrim();
    } else {
      ScriptRead(list, []);
    }
  }
}
