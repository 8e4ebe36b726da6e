/** Splitting undoes joining, and comments between statements do not matter. */
module SqlRoundTrip {
  import opened Wrappers
  import opened SqlSplit

  // ----- statements by grammar -----

  datatype Token =
    | Char(c: char)              // a character outside quotes
    | Literal(body: string)      // a quoted literal with this content
    | Dollars(body: string)      // a dollar-quoted block with this content

  function Escaped(body: string): string {
    if body == [] then []
    else (if body[0] == '\'' then "''" else [body[0]]) + Escaped(body[1..])
  }

  function TextOf(t: Token): (s: string)
    ensures s != []
  {
    match t
    case Char(c) => [c]
    case Literal(body) => "'" + Escaped(body) + "'"
    case Dollars(body) => "$$" + body + "$$"
  }

  function Text(ts: seq<Token>): string {
    if ts == [] then [] else TextOf(ts[0]) + Text(ts[1..])
  }

  /** Whether an odd number of `$$` pairs is met when reading from the left. */
  function OddDollars(s: string): bool
    decreases |s|
  {
    if |s| >= 2 && s[0] == '$' && s[1] == '$' then !OddDollars(s[2..])
    else if s == [] then false
    else OddDollars(s[1..])
  }

  predicate HasDollars(s: string) {
    exists i :: 0 <= i < |s| - 1 && s[i] == '$' && s[i + 1] == '$'
  }

  /** A token on its own: no terminator or quote outside quotes, `$$` in a literal only in pairs, none in a block. */
  predicate GoodToken(t: Token) {
    match t
    case Char(c) => c != ';' && c != '\''
    case Literal(body) => !OddDollars(body)
    case Dollars(body) => !HasDollars(body + "$")
  }

  predicate Clash(a: char, b: char) {
    (a == '-' && b == '-') || (a == '/' && b == '*') || (a == '$' && b == '$')
  }

  /** Neighbours do not read as a comment opener, a `$$` or an escaped quote. */
  predicate GoodPair(a: Token, b: Token) {
    && !(a.Literal? && b.Literal?)
    && (a.Char? ==> !Clash(a.c, TextOf(b)[0]))
  }

  predicate GoodTokens(ts: seq<Token>) {
    && (forall i :: 0 <= i < |ts| ==> GoodToken(ts[i]))
    && (forall i :: 0 <= i < |ts| - 1 ==> GoodPair(ts[i], ts[i + 1]))
  }

  // ----- reading tokens -----

  /** The scan outside quotes and comments. */
  function Outside(current: string, done: seq<string>): Scan {
    Scan(current, false, false, false, 0, done)
  }

  /** What follows a statement: the end of the script or a terminator. */
  predicate Follows(rest: string) {
    rest == [] || rest[0] == ';'
  }

  lemma TakeOne(c: char, s: string, st: Scan)
    requires Turn(c, if s == [] then None else Some(s[0]), st).0 == 1
    ensures Run([c] + s, st) == Run(s, Turn(c, if s == [] then None else Some(s[0]), st).1)
  {
    hide Turn;
    assert ([c] + s)[1..] == s;
  }

  lemma TakeTwo(c: char, d: char, s: string, st: Scan)
    requires Turn(c, Some(d), st).0 == 2
    ensures Run([c, d] + s, st) == Run(s, Turn(c, Some(d), st).1)
  {
    hide Turn;
    assert ([c, d] + s)[2..] == s;
  }

  /** Inside a literal, `$$` pairs switch the block flag on and off. */
  function InLiteral(current: string, dollar: bool, done: seq<string>): Scan {
    Scan(current, dollar, true, false, 0, done)
  }

  lemma {:induction false} ReadLiteralBody(body: string, rest: string, current: string, dollar: bool, done: seq<string>)
    requires rest != [] && rest[0] == '\''
    ensures Run(Escaped(body) + rest, InLiteral(current, dollar, done))
         == Run(rest, InLiteral(current + Escaped(body), dollar != OddDollars(body), done))
    decreases |body|
  {
    hide Run;
    var all := Escaped(body) + rest;
    if body == [] {
      assert all == rest && current + Escaped(body) == current;
    } else if |body| >= 2 && body[0] == '$' && body[1] == '$' {
      EscapedPair(body);
      ReadLiteralBody(body[2..], rest, current + "$$", !dollar, done);
      assert all == ['$', '$'] + (Escaped(body[2..]) + rest);
      TakeTwo('$', '$', Escaped(body[2..]) + rest, InLiteral(current, dollar, done));
      assert current + Escaped(body) == current + "$$" + Escaped(body[2..]);
    } else if body[0] == '\'' {
      ReadQuote(Escaped(body[1..]) + rest, current, dollar, done);
      ReadLiteralBody(body[1..], rest, current + "''", dollar, done);
      assert all == "''" + (Escaped(body[1..]) + rest);
      assert current + Escaped(body) == current + "''" + Escaped(body[1..]);
    } else {
      var tail := Escaped(body[1..]) + rest;
      NextIn(body, rest);
      assert all == [body[0]] + tail;
      TakeOne(body[0], tail, InLiteral(current, dollar, done));
      ReadLiteralBody(body[1..], rest, current + [body[0]], dollar, done);
      assert current + Escaped(body) == current + [body[0]] + Escaped(body[1..]);
    }
  }

  lemma EscapedPair(body: string)
    requires |body| >= 2 && body[0] == '$' && body[1] == '$'
    ensures Escaped(body) == "$$" + Escaped(body[2..])
  {
    assert body[1..][1..] == body[2..];
  }

  /** A `$` in a literal that is not followed by another is not followed by one after escaping either. */
  lemma NextIn(body: string, rest: string)
    requires body != [] && rest != [] && rest[0] == '\'' && !(|body| >= 2 && body[0] == '$' && body[1] == '$')
    ensures var tail := Escaped(body[1..]) + rest; tail != [] && (body[0] == '$' ==> tail[0] != '$')
  {
  }

  /** An escaped quote is copied whether or not the block flag is on. */
  lemma ReadQuote(rest: string, current: string, dollar: bool, done: seq<string>)
    requires rest != []
    ensures Run("''" + rest, InLiteral(current, dollar, done)) == Run(rest, InLiteral(current + "''", dollar, done))
  {
    hide Run;
    if dollar {
      assert "''" + rest == ['\''] + ("'" + rest) && "'" + rest == ['\''] + rest;
      TakeOne('\'', "'" + rest, InLiteral(current, dollar, done));
      TakeOne('\'', rest, InLiteral(current + "'", dollar, done));
      assert current + "'" + "'" == current + "''";
    } else {
      assert "''" + rest == ['\'', '\''] + rest;
      TakeTwo('\'', '\'', rest, InLiteral(current, dollar, done));
    }
  }

  /** A literal is read to its closing quote exactly when its `$$` pairs match up; otherwise the scan is left inside
      it. */
  lemma ReadLiteral(body: string, rest: string, current: string, done: seq<string>)
    requires rest == [] || rest[0] != '\''
    ensures Run(TextOf(Literal(body)) + rest, Outside(current, done))
         == Run(rest, if OddDollars(body) then InLiteral(current + TextOf(Literal(body)), true, done)
                      else Outside(current + TextOf(Literal(body)), done))
  {
    hide Run, OddDollars, Escaped, Turn;
    var text, odd := TextOf(Literal(body)), OddDollars(body);
    var inner := Escaped(body) + ("'" + rest);
    assert text + rest == ['\''] + inner;
    OpenQuote(inner, current, done);
    ReadLiteralBody(body, "'" + rest, current + "'", false, done);
    CloseQuote(rest, current + "'" + Escaped(body), odd, done);
    assert current + "'" + Escaped(body) + "'" == current + text;
  }

  /** A closing quote closes the literal unless the block flag is on. */
  lemma CloseQuote(rest: string, current: string, dollar: bool, done: seq<string>)
    requires rest == [] || rest[0] != '\''
    ensures Run("'" + rest, InLiteral(current, dollar, done))
         == Run(rest, if dollar then InLiteral(current + "'", true, done) else Outside(current + "'", done))
  {
    hide Run;
    assert "'" + rest == ['\''] + rest;
    TakeOne('\'', rest, InLiteral(current, dollar, done));
    assert current + ['\''] == current + "'";
  }

  lemma OpenQuote(inner: string, current: string, done: seq<string>)
    ensures Run(['\''] + inner, Outside(current, done)) == Run(inner, InLiteral(current + "'", false, done))
  {
    hide Run;
    TakeOne('\'', inner, Outside(current, done));
    assert current + ['\''] == current + "'";
  }

  /** The scan inside a dollar-quoted block. */
  function InBlock(current: string, done: seq<string>): Scan {
    Scan(current, true, false, false, 0, done)
  }

  lemma {:induction false} ReadBlockBody(body: string, rest: string, current: string, done: seq<string>)
    requires !HasDollars(body + "$")
    ensures Run(body + "$$" + rest, InBlock(current, done)) == Run(rest, Outside(current + body + "$$", done))
    decreases |body|
  {
    hide Run;
    var all := body + "$$" + rest;
    if body == [] {
      assert all == ['$', '$'] + rest;
      TakeTwo('$', '$', rest, InBlock(current, done));
      assert current + body + "$$" == current + "$$";
    } else {
      var tail := body[1..] + "$$" + rest;
      assert all == [body[0]] + tail;
      NotAPair(body, rest);
      TakeOne(body[0], tail, InBlock(current, done));
      ReadBlockBody(body[1..], rest, current + [body[0]], done);
      assert current + [body[0]] + body[1..] + "$$" == current + body + "$$";
    }
  }

  lemma NotAPair(body: string, rest: string)
    requires body != [] && !HasDollars(body + "$")
    ensures var tail := body[1..] + "$$" + rest; !(body[0] == '$' && tail[0] == '$')
    ensures !HasDollars(body[1..] + "$")
  {
    var s, t := body + "$", body[1..] + "$";
    assert s[1..] == t;
    assert (body[1..] + "$$" + rest)[0] == s[1];
    assert !(s[0] == '$' && s[1] == '$');
  }

  lemma ReadToken(t: Token, rest: string, current: string, done: seq<string>)
    requires GoodToken(t)
    requires t.Char? && rest != [] ==> !Clash(t.c, rest[0])
    requires t.Literal? && rest != [] ==> rest[0] != '\''
    ensures Run(TextOf(t) + rest, Outside(current, done)) == Run(rest, Outside(current + TextOf(t), done))
  {
    hide Run, OddDollars, HasDollars;
    match t
    case Char(c) =>
      TakeOne(c, rest, Outside(current, done));
    case Literal(body) =>
      ReadLiteral(body, rest, current, done);
    case Dollars(body) =>
      ReadBlock(body, rest, current, done);
  }

  lemma ReadBlock(body: string, rest: string, current: string, done: seq<string>)
    requires !HasDollars(body + "$")
    ensures Run(TextOf(Dollars(body)) + rest, Outside(current, done))
        == Run(rest, Outside(current + TextOf(Dollars(body)), done))
  {
    hide Run, HasDollars;
    assert TextOf(Dollars(body)) + rest == ['$', '$'] + (body + "$$" + rest);
    TakeTwo('$', '$', body + "$$" + rest, Outside(current, done));
    ReadBlockBody(body, rest, current + "$$", done);
    assert current + "$$" + body + "$$" == current + TextOf(Dollars(body));
  }

  /** A well-formed statement is read into `current` as a whole. */
  lemma {:induction false} ReadTokens(ts: seq<Token>, rest: string, current: string, done: seq<string>)
    requires GoodTokens(ts) && Follows(rest)
    ensures Run(Text(ts) + rest, Outside(current, done)) == Run(rest, Outside(current + Text(ts), done))
    decreases |ts|
  {
    hide Run, TextOf, GoodToken, Clash;
    if ts == [] {
      assert Text(ts) + rest == rest && current + Text(ts) == current;
    } else {
      var tail := Text(ts[1..]) + rest;
      assert Text(ts) + rest == TextOf(ts[0]) + tail;
      TailFits(ts, rest);
      ReadToken(ts[0], tail, current, done);
      ReadTokens(ts[1..], rest, current + TextOf(ts[0]), done);
      assert current + TextOf(ts[0]) + Text(ts[1..]) == current + Text(ts);
    }
  }

  lemma TailFits(ts: seq<Token>, rest: string)
    requires ts != [] && GoodTokens(ts) && Follows(rest)
    ensures var tail := Text(ts[1..]) + rest;
            && (ts[0].Char? && tail != [] ==> !Clash(ts[0].c, tail[0]))
            && (ts[0].Literal? && tail != [] ==> tail[0] != '\'')
  {
    hide Escaped, OddDollars, HasDollars;
    var tail := Text(ts[1..]) + rest;
    if |ts| > 1 {
      assert GoodPair(ts[0], ts[1]);
      assert tail[0] == TextOf(ts[1])[0];
      FirstOf(ts[1]);
    }
  }

  lemma FirstOf(t: Token)
    requires GoodToken(t)
    ensures TextOf(t)[0] == '\'' <==> t.Literal?
  {
  }

  // ----- splitting undoes joining -----

  /** A statement of the list: well formed, not empty, without white space at its ends. */
  predicate GoodStatement(ts: seq<Token>) {
    && GoodTokens(ts) && Text(ts) != []
    && !IsSpace(Text(ts)[0]) && !IsSpace(Text(ts)[|Text(ts)| - 1])
  }

  function Texts(list: seq<seq<Token>>): (r: seq<string>)
    ensures |r| == |list|
  {
    if list == [] then [] else [Text(list[0])] + Texts(list[1..])
  }

  /** The statements with a terminator between them. */
  function Joined(texts: seq<string>): string {
    if texts == [] then []
    else if |texts| == 1 then texts[0]
    else texts[0] + ";" + Joined(texts[1..])
  }

  lemma TrimKeeps(s: string)
    requires s != [] && !IsSpace(s[0]) && !IsSpace(s[|s| - 1])
    ensures Trim(s) == s
  {
  }

  lemma Terminate(rest: string, current: string, done: seq<string>)
    ensures Run(";" + rest, Outside(current, done)) == Run(rest, Outside("", Flushed(Outside(current, done))))
  {
    hide Run, Flushed;
    assert ";" + rest == [';'] + rest;
    TakeOne(';', rest, Outside(current, done));
  }

  /** A good statement with nothing in `current` is what gets flushed. */
  lemma FlushStatement(ts: seq<Token>, done: seq<string>)
    requires GoodStatement(ts)
    ensures Flushed(Outside("" + Text(ts), done)) == done + [Text(ts)]
  {
    hide GoodTokens, IsSpace, Trim, Text;
    assert "" + Text(ts) == Text(ts);
    TrimKeeps(Text(ts));
  }

  lemma ReadStatement(ts: seq<Token>, rest: string, done: seq<string>)
    requires GoodStatement(ts)
    ensures Outcome(Text(ts) + (";" + rest), Outside("", done)) == Outcome(rest, Outside("", done + [Text(ts)]))
    ensures Outcome(Text(ts), Outside("", done)) == done + [Text(ts)]
  {
    hide Run, GoodTokens, IsSpace, Trim, Text, Flushed;
    ReadTokens(ts, ";" + rest, "", done);
    Terminate(rest, "" + Text(ts), done);
    FlushStatement(ts, done);
    ReadTokens(ts, [], "", done);
    assert Text(ts) + [] == Text(ts);
    NothingLeft(Outside("" + Text(ts), done));
  }

  lemma {:induction false} ReadList(list: seq<seq<Token>>, done: seq<string>)
    requires forall i :: 0 <= i < |list| ==> GoodStatement(list[i])
    ensures Outcome(Joined(Texts(list)), Outside("", done)) == done + Texts(list)
    decreases |list|
  {
    hide GoodStatement, Outcome, Text, Joined, Texts;
    if list == [] {
      NothingRead(list, done);
    } else {
      JoinedStep(list);
      ReadStatement(list[0], Joined(Texts(list[1..])), done);
      if |list| > 1 {
        ReadList(list[1..], done + [Text(list[0])]);
        assert done + [Text(list[0])] + Texts(list[1..]) == done + ([Text(list[0])] + Texts(list[1..]));
      }
    }
  }

  lemma NothingRead(list: seq<seq<Token>>, done: seq<string>)
    requires list == []
    ensures Outcome(Joined(Texts(list)), Outside("", done)) == done + Texts(list)
  {
    NothingLeft(Outside("", done));
    EmptyTrim();
  }

  lemma JoinedStep(list: seq<seq<Token>>)
    requires list != []
    ensures Texts(list) == [Text(list[0])] + Texts(list[1..])
    ensures |list| == 1 ==> Texts(list) == [Text(list[0])] && Joined(Texts(list)) == Text(list[0])
    ensures |list| > 1 ==> Joined(Texts(list)) == Text(list[0]) + (";" + Joined(Texts(list[1..])))
  {
    hide Text, Joined;
    var first, rest := Text(list[0]), Texts(list[1..]);
    if |list| > 1 {
      JoinedMore(first, rest);
    } else {
      assert rest == [];
      assert [first] + rest == [first];
      JoinedAlone(first);
    }
  }

  lemma JoinedMore(first: string, rest: seq<string>)
    requires rest != []
    ensures Joined([first] + rest) == first + (";" + Joined(rest))
  {
    assert ([first] + rest)[1..] == rest;
    assert first + ";" + Joined(rest) == first + (";" + Joined(rest));
  }

  lemma JoinedAlone(first: string)
    ensures Joined([first]) == first
  {
  }

  lemma EmptyTrim()
    ensures Trim("") == ""
  {
  }

  /** Splitting the joined statements gives back exactly the statements. */
  lemma SplitUndoesJoin(list: seq<seq<Token>>)
    requires forall i :: 0 <= i < |list| ==> GoodStatement(list[i])
    ensures Statements(Joined(Texts(list))) == Texts(list)
  {
    ReadList(list, []);
  }

  /** The condition on literals is needed: with an odd number of `$$` pairs in its only literal a statement swallows its
      terminator, whatever follows. */
  lemma OddLiteralSwallows(body: string, rest: string)
    requires OddDollars(body)
    ensures Run(TextOf(Literal(body)) + (";" + rest), INITIAL)
        == Run(rest, InLiteral(TextOf(Literal(body)) + ";", true, []))
  {
    hide Run;
    ReadLiteral(body, ";" + rest, "", []);
    var text := TextOf(Literal(body));
    assert "" + text == text;
    assert ";" + rest == [';'] + rest;
    TakeOne(';', rest, InLiteral(text, true, []));
    assert text + [';'] == text + ";";
  }

  // ----- comments between statements -----

  datatype Part = Plain(c: char) | Nested(comment: Comment)
  datatype Comment = Comment(parts: seq<Part>)

  function CommentText(c: Comment): string
    decreases c, 1
  {
    "/*" + PartsText(c.parts) + "*/"
  }

  function PartsText(ps: seq<Part>): string
    decreases ps, 0
  {
    if ps == [] then [] else PartText(ps[0]) + PartsText(ps[1..])
  }

  function PartText(p: Part): (s: string)
    ensures s != []
    decreases p, 0
  {
    match p
    case Plain(c) => [c]
    case Nested(inner) => CommentText(inner)
  }

  /** The text of a comment reads as its structure says: no opener or closer arises between neighbours. */
  predicate GoodComment(c: Comment)
    decreases c, 1
  {
    GoodParts(c.parts)
  }

  predicate GoodParts(ps: seq<Part>)
    decreases ps, 0
  {
    ps == [] || (GoodPart(ps[0]) && PartFits(ps[0], First(ps[1..])) && GoodParts(ps[1..]))
  }

  predicate GoodPart(p: Part)
    decreases p, 0
  {
    p.Plain? || GoodComment(p.comment)
  }

  /** The character that follows, counting the closer of the comment. */
  function First(ps: seq<Part>): char {
    if ps == [] then '*' else PartText(ps[0])[0]
  }

  predicate PartFits(p: Part, next: char) {
    p.Plain? ==> !(p.c == '/' && next == '*') && !(p.c == '*' && next == '/')
  }

  function InComment(current: string, depth: nat, done: seq<string>): Scan {
    Scan(current, false, false, false, depth, done)
  }

  lemma {:induction false} SkipParts(ps: seq<Part>, rest: string, current: string, depth: nat, done: seq<string>)
    requires GoodParts(ps) && depth > 0 && rest != [] && rest[0] == '*'
    ensures Run(PartsText(ps) + rest, InComment(current, depth, done)) == Run(rest, InComment(current, depth, done))
    decreases ps, 0
  {
    hide Run, PartText, GoodPart, PartFits;
    if ps == [] {
      assert PartsText(ps) + rest == rest;
    } else {
      var tail := PartsText(ps[1..]) + rest;
      assert PartsText(ps) + rest == PartText(ps[0]) + tail;
      assert tail[0] == First(ps[1..]);
      SkipPart(ps[0], tail, current, depth, done);
      SkipParts(ps[1..], rest, current, depth, done);
    }
  }

  lemma {:induction false} SkipPart(p: Part, tail: string, current: string, depth: nat, done: seq<string>)
    requires GoodPart(p) && depth > 0 && tail != [] && PartFits(p, tail[0])
    ensures Run(PartText(p) + tail, InComment(current, depth, done)) == Run(tail, InComment(current, depth, done))
    decreases p, 0
  {
    hide Run;
    match p
    case Plain(c) =>
      TakeOne(c, tail, InComment(current, depth, done));
    case Nested(inner) =>
      SkipNested(inner, tail, current, depth, done);
  }

  /** A comment nested in another is skipped. */
  lemma {:induction false} SkipNested(c: Comment, rest: string, current: string, depth: nat, done: seq<string>)
    requires GoodComment(c) && depth > 0
    ensures Run(CommentText(c) + rest, InComment(current, depth, done)) == Run(rest, InComment(current, depth, done))
    decreases c, 1
  {
    hide Run;
    var inner := PartsText(c.parts) + ("*/" + rest);
    assert CommentText(c) + rest == ['/', '*'] + inner;
    TakeTwo('/', '*', inner, InComment(current, depth, done));
    SkipParts(c.parts, "*/" + rest, current, depth + 1, done);
    assert "*/" + rest == ['*', '/'] + rest;
    TakeTwo('*', '/', rest, InComment(current, depth + 1, done));
  }

  /** A comment outside quotes is skipped. */
  lemma SkipComment(c: Comment, rest: string, current: string, done: seq<string>)
    requires GoodComment(c)
    ensures Run(CommentText(c) + rest, Outside(current, done)) == Run(rest, Outside(current, done))
  {
    hide Run;
    var inner := PartsText(c.parts) + ("*/" + rest);
    assert CommentText(c) + rest == ['/', '*'] + inner;
    TakeTwo('/', '*', inner, Outside(current, done));
    SkipParts(c.parts, "*/" + rest, current, 1, done);
    assert "*/" + rest == ['*', '/'] + rest;
    TakeTwo('*', '/', rest, InComment(current, 1, done));
  }

  /** The script `a` ends right behind a terminator outside quotes and comments. */
  predicate AfterTerminator(a: string) {
    var st := Run(a, INITIAL);
    a != [] && a[|a| - 1] == ';' && !st.dollar && !st.quote && !st.line && st.depth == 0
  }

  /** No token straddles a semicolon, so the scan of `a + b` is that of `a` followed by that of `b`. */
  lemma {:induction false} RunOn(a: string, b: string, st: Scan)
    requires a != [] && a[|a| - 1] == ';'
    ensures Run(a + b, st) == Run(b, Run(a, st))
    decreases |a|
  {
    hide Flushed;
    var (n, st') := Turn(a[0], Peek(a, 0), st);
    assert Turn((a + b)[0], Peek(a + b, 0), st) == (n, st') by {
      SemicolonAlone(a, b, st);
    }
    assert (a + b)[n..] == a[n..] + b;
    if |a| > n {
      RunOn(a[n..], b, st');
    }
  }

  lemma SemicolonAlone(a: string, b: string, st: Scan)
    requires a != [] && a[|a| - 1] == ';'
    ensures Turn((a + b)[0], Peek(a + b, 0), st) == Turn(a[0], Peek(a, 0), st)
  {
    hide Flushed;
  }

  /** A balanced, possibly nested block comment right behind a terminator never changes the statements. */
  lemma CommentUnobservable(a: string, c: Comment, b: string)
    requires AfterTerminator(a) && GoodComment(c)
    ensures Statements(a + CommentText(c) + b) == Statements(a + b)
  {
    hide Run, GoodComment, CommentText;
    var st := Run(a, INITIAL);
    assert a + CommentText(c) + b == a + (CommentText(c) + b);
    RunOn(a, CommentText(c) + b, INITIAL);
    RunOn(a, b, INITIAL);
    SkipComment(c, b, st.current, st.done);
  }

  // ----- line comments, and what every script yields -----

  lemma {:induction false} SkipLineText(text: string, rest: string, current: string, done: seq<string>)
    requires '\n' !in text
    ensures Run(text + rest, Scan(current, false, false, true, 0, done))
        == Run(rest, Scan(current, false, false, true, 0, done))
    decreases |text|
  {
    hide Run;
    if text == [] {
      assert text + rest == rest;
    } else {
      assert text + rest == [text[0]] + (text[1..] + rest);
      assert text[0] in text;
      TakeOne(text[0], text[1..] + rest, Scan(current, false, false, true, 0, done));
      SkipLineText(text[1..], rest, current, done);
    }
  }

  /** A line comment right behind a terminator never changes the statements, whatever its text. */
  lemma LineCommentUnobservable(a: string, text: string, b: string)
    requires AfterTerminator(a) && '\n' !in text
    ensures Statements(a + ("--" + text + "\n" + b)) == Statements(a + ("\n" + b))
  {
    hide Run;
    var st := Run(a, INITIAL);
    var rest := "\n" + b;
    RunOn(a, "--" + text + rest, INITIAL);
    RunOn(a, rest, INITIAL);
    assert "--" + text + "\n" + b == "--" + text + rest;
    assert "--" + text + rest == ['-'] + ("-" + text + rest);
    TakeOne('-', "-" + text + rest, Outside(st.current, st.done));
    SkipLineText("-" + text, rest, st.current, st.done);
    LineEnds(rest, Outside(st.current, st.done));
  }

  /** A statement as it may be returned. */
  predicate Neat(s: string) {
    s != [] && !IsSpace(s[0]) && !IsSpace(s[|s| - 1])
  }

  predicate AllNeat(list: seq<string>) {
    forall i :: 0 <= i < |list| ==> Neat(list[i])
  }

  lemma {:induction false} TrimStartNeat(s: string)
    ensures var t := TrimStart(s); t == [] || !IsSpace(t[0])
  {
    if s != [] && IsSpace(s[0]) {
      TrimStartNeat(s[1..]);
    }
  }

  lemma {:induction false} TrimEndNeat(s: string)
    ensures var t := TrimEnd(s); t == [] || (t[0] == s[0] && !IsSpace(t[|t| - 1]))
  {
    if s != [] && IsSpace(s[|s| - 1]) {
      TrimEndNeat(s[..|s| - 1]);
    }
  }

  lemma FlushedNeat(st: Scan)
    requires AllNeat(st.done)
    ensures AllNeat(Flushed(st))
  {
    TrimStartNeat(st.current);
    TrimEndNeat(TrimStart(st.current));
  }

  lemma {:induction false} RunNeat(s: string, st: Scan)
    requires AllNeat(st.done)
    ensures AllNeat(Run(s, st).done)
    decreases |s|
  {
    hide AllNeat, Flushed;
    if s != [] {
      FlushedNeat(st.(line := false));
      var (n, st') := Turn(s[0], Peek(s, 0), st);
      RunNeat(s[n..], st');
    }
  }

  /** From every script, however malformed, only non-empty statements without white space at their ends come out. */
  lemma AlwaysNeat(sql: string)
    ensures AllNeat(Statements(sql))
  {
    RunNeat(sql, INITIAL);
    FlushedNeat(Run(sql, INITIAL));
  }
}
