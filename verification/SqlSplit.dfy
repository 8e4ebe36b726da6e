/** `split_sql_statements`. */
module SqlSplit {
  import opened Wrappers

  /** Unicode white space, as `trim` sees it. */
  predicate IsSpace(c: char) {
    var n := c as int;
    || 9 <= n <= 13 || n == 0x20 || n == 0x85 || n == 0xA0 || n == 0x1680 || 0x2000 <= n <= 0x200A
    || n == 0x2028 || n == 0x2029 || n == 0x202F || n == 0x205F || n == 0x3000
  }

  function TrimStart(s: string): string {
    if s != [] && IsSpace(s[0]) then TrimStart(s[1..]) else s
  }

  function TrimEnd(s: string): string {
    if s != [] && IsSpace(s[|s| - 1]) then TrimEnd(s[..|s| - 1]) else s
  }

  function Trim(s: string): string {
    TrimEnd(TrimStart(s))
  }

  /** The variables of the scan; `line` is set inside a line comment. */
  datatype Scan = Scan(current: string, dollar: bool, quote: bool, line: bool, depth: nat, done: seq<string>)

  const INITIAL := Scan("", false, false, false, 0, [])

  function Flushed(st: Scan): seq<string> {
    var t := Trim(st.current);
    if t == [] then st.done else st.done + [t]
  }

  /** The character behind position `i`. */
  function Peek(s: string, i: nat): Option<char> {
    if i + 1 < |s| then Some(s[i + 1]) else None
  }

  /** One turn of the scan at character `c` with `next` behind it: how many characters it takes, and the new state. */
  function Turn(c: char, next: Option<char>, st: Scan): (r: (nat, Scan))
    ensures r.0 == 1 || (r.0 == 2 && next.Some?)
  {
    if st.depth > 0 then
      if c == '/' && next == Some('*') then (2, st.(depth := st.depth + 1))
      else if c == '*' && next == Some('/') then (2, st.(depth := st.depth - 1))
      else (1, st)
    else if st.line && c != '\n' then (1, st)
    else TurnOutside(c, next, st.(line := false))
  }

  /** A turn outside comments. */
  function TurnOutside(c: char, next: Option<char>, st: Scan): (r: (nat, Scan))
    ensures r.0 == 1 || (r.0 == 2 && next.Some?)
  {
    if c == '-' && next == Some('-') && !st.dollar && !st.quote then (1, st.(line := true))
    else if c == '/' && next == Some('*') && !st.dollar && !st.quote then (2, st.(depth := 1))
    else if c == '$' && next == Some('$') then (2, st.(dollar := !st.dollar, current := st.current + "$$"))
    else if !st.dollar && c == '\'' then
      if st.quote && next == Some('\'') then (2, st.(current := st.current + "''"))
      else (1, st.(quote := !st.quote, current := st.current + [c]))
    else if c == ';' && !st.dollar && !st.quote then (1, st.(done := Flushed(st), current := ""))
    else (1, st.(current := st.current + [c]))
  }

  function Run(s: string, st: Scan): Scan
    decreases |s|
  {
    if s == [] then st
    else
      var (n, st') := Turn(s[0], Peek(s, 0), st);
      Run(s[n..], st')
  }

  /** The scan of the rest of a script, one turn later. */
  lemma TurnAt(s: string, i: nat, st: Scan)
    requires i < |s|
    ensures var (n, st') := Turn(s[i], Peek(s, i), st);
            i + n <= |s| && Run(s[i..], st) == Run(s[i + n..], st')
  {
    hide Turn;
    var (n, _) := Turn(s[i], Peek(s, i), st);
    assert s[i..][n..] == s[i + n..];
    assert Peek(s[i..], 0) == Peek(s, i);
  }

  /** The statements once the rest `s` of the script has been scanned. */
  function Outcome(s: string, st: Scan): seq<string> {
    Flushed(Run(s, st))
  }

  /** The statements of a script. */
  function Statements(sql: string): seq<string> {
    Outcome(sql, INITIAL)
  }

  method SplitSqlStatements(sql: string) returns (statements: seq<string>)
    ensures statements == Statements(sql)
  {
    hide Run, Trim;
    statements := [];
    var current := "";
    var inDollar, inSingleQuote, depth: nat := false, false, 0;
    var i := 0;
    while i < |sql|
      invariant 0 <= i <= |sql|
      invariant Outcome(sql[i..], Scan(current, inDollar, inSingleQuote, false, depth, statements)) == Statements(sql)
    {
      var c := sql[i];
      TurnAt(sql, i, Scan(current, inDollar, inSingleQuote, false, depth, statements));
      if depth > 0 {
        if c == '/' && i + 1 < |sql| && sql[i + 1] == '*' {
          depth := depth + 1;
          i := i + 2;
          continue;
        }
        if c == '*' && i + 1 < |sql| && sql[i + 1] == '/' {
          depth := depth - 1;
          i := i + 2;
          continue;
        }
        i := i + 1;
        continue;
      }
      if c == '-' && i + 1 < |sql| && sql[i + 1] == '-' && !inDollar && !inSingleQuote {
        ghost var st := Scan(current, inDollar, inSingleQuote, false, 0, statements);
        i := SkipLine(sql, i, st);
        continue;
      }
      if c == '/' && i + 1 < |sql| && sql[i + 1] == '*' && !inDollar && !inSingleQuote {
        depth := 1;
        i := i + 2;
        continue;
      }
      if !inDollar && c == '$' && i + 1 < |sql| && sql[i + 1] == '$' {
        inDollar := true;
        current := current + "$$";
        i := i + 2;
        continue;
      }
      if inDollar && c == '$' && i + 1 < |sql| && sql[i + 1] == '$' {
        inDollar := false;
        current := current + "$$";
        i := i + 2;
        continue;
      }
      if !inDollar && c == '\'' {
        if inSingleQuote && i + 1 < |sql| && sql[i + 1] == '\'' {
          current := current + "''";
          i := i + 2;
          continue;
        }
        inSingleQuote := !inSingleQuote;
        current := current + [c];
        i := i + 1;
        continue;
      }
      if c == ';' && !inDollar && !inSingleQuote {
        var statement := Trim(current);
        if statement != "" {
          statements := statements + [statement];
        }
        current := "";
        i := i + 1;
        continue;
      }
      current := current + [c];
      i := i + 1;
    }
    assert sql[i..] == [];
    NothingLeft(Scan(current, inDollar, inSingleQuote, false, depth, statements));
    var statement := Trim(current);
    if statement != "" {
      statements := statements + [statement];
    }
  }

  lemma NothingLeft(st: Scan)
    ensures Outcome([], st) == Flushed(st)
  {
  }

  /** The inner loop over a line comment. */
  method SkipLine(sql: string, at: nat, ghost st: Scan) returns (i: nat)
    requires at + 1 < |sql| && sql[at] == '-' && sql[at + 1] == '-' && !st.dollar && !st.quote && !st.line &&
        st.depth == 0
    ensures at < i <= |sql| && Outcome(sql[i..], st) == Outcome(sql[at..], st)
  {
    hide Run;
    i := at;
    ghost var inside := st.(line := true);
    while i < |sql| && sql[i] != '\n'
      invariant at <= i <= |sql|
      invariant i > at ==> Run(sql[i..], inside) == Run(sql[at..], st)
    {
      TurnAt(sql, i, if i == at then st else inside);
      i := i + 1;
    }
    LineEnds(sql[i..], st);
  }

  /** At the end of the line or of the script a line comment leaves no trace. */
  lemma LineEnds(s: string, st: Scan)
    requires !st.line && st.depth == 0 && (s == [] || s[0] == '\n')
    ensures Outcome(s, st.(line := true)) == Outcome(s, st)
  {
    if s != [] {
      assert Turn(s[0], Peek(s, 0), st.(line := true)) == Turn(s[0], Peek(s, 0), st);
    }
  }
}
