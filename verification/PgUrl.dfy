/** `parse_pg_url`. */
module PgUrl {
  import opened Wrappers

  datatype Parts = Parts(host: string, port: nat, user: string, password: Option<string>, dbname: string)

  datatype Error = BadScheme | NoHost | BadPort

  /** Position of the first `c`, or the length. */
  function First(s: string, c: char): (i: nat)
    ensures i <= |s| && c !in s[..i] && (i < |s| ==> s[i] == c)
  {
    if s == [] || s[0] == c then 0
    else
      var i := 1 + First(s[1..], c);
      assert s[..i] == [s[0]] + s[1..][..i - 1];
      i
  }

  /** Position of the last `c`, if there is one. */
  function Last(s: string, c: char): (i: Option<nat>)
    ensures i.None? ==> c !in s
    ensures i.Some? ==> i.value < |s| && s[i.value] == c && c !in s[i.value + 1..]
  {
    if s == [] then None
    else if s[|s| - 1] == c then Some(|s| - 1)
    else
      var n := |s| - 1;
      var i := Last(s[..n], c);
      assert i.None? ==> s == s[..n] + [s[n]];
      if i.Some? then DropLast(s, n, i.value); i else i
  }

  lemma DropLast(s: string, n: nat, k: nat)
    requires n == |s| - 1 && k < n
    ensures s[k + 1..] == s[..n][k + 1..] + [s[n]] && s[..n][k] == s[k]
  {
  }

  function SplitOnce(s: string, c: char): Option<(string, string)> {
    var i := First(s, c);
    if i < |s| then Some((s[..i], s[i + 1..])) else None
  }

  function RSplitOnce(s: string, c: char): Option<(string, string)> {
    match Last(s, c)
    case None => None
    case Some(i) => Some((s[..i], s[i + 1..]))
  }

  function StripPrefix(s: string, prefix: string): Option<string> {
    if prefix <= s then Some(s[|prefix|..]) else None
  }

  predicate IsDigit(c: char) {
    '0' <= c <= '9'
  }

  predicate AllDigits(s: string) {
    forall i :: 0 <= i < |s| ==> IsDigit(s[i])
  }

  function Value(s: string): nat
    requires AllDigits(s)
  {
    if s == [] then 0 else 10 * Value(s[..|s| - 1]) + (s[|s| - 1] as int - '0' as int)
  }

  /** `parse::<u16>`: an optional plus sign and at least one digit. */
  function ParsePort(s: string): (r: Option<nat>)
    ensures r.Some? ==> r.value <= 0xFFFF
  {
    var digits := if s != [] && s[0] == '+' then s[1..] else s;
    if digits == [] || !AllDigits(digits) || Value(digits) > 0xFFFF then None else Some(Value(digits))
  }

  function ParsePgUrl(url: string): Result<Parts, Error> {
    var full := StripPrefix(url, "postgres://");
    var stripped := if full.Some? then full else StripPrefix(url, "postgresql://");
    if stripped.None? then Err(BadScheme)
    else ParseRest(stripped.value[..First(stripped.value, '?')])
  }

  /** What follows the scheme, without a query string. */
  function ParseRest(rest: string): Result<Parts, Error> {
    var (authority, db) := CutPath(rest);
    var (userinfo, hostport) := CutUser(authority);
    var (user, password) := ParseUser(userinfo);
    match ParseHost(hostport)
    case Err(e) => Err(e)
    case Ok((host, port)) => Ok(Parts(host, port, user, password, if db == "" then "postgres" else db))
  }

  function CutPath(rest: string): (string, string) {
    match SplitOnce(rest, '/')
    case Some(p) => p
    case None => (rest, "")
  }

  function CutUser(authority: string): (Option<string>, string) {
    match RSplitOnce(authority, '@')
    case Some((u, h)) => (Some(u), h)
    case None => (None, authority)
  }

  function ParseHost(hostport: string): Result<(string, nat), Error> {
    if hostport == "" then Err(NoHost)
    else
      match RSplitOnce(hostport, ':')
      case None => Ok((hostport, 5432))
      case Some((h, p)) =>
        match ParsePort(p)
        case None => Err(BadPort)
        case Some(port) => if h == "" then Err(NoHost) else Ok((h, port))
  }

  function ParseUser(userinfo: Option<string>): (string, Option<string>) {
    match userinfo
    case None => ("postgres", None)
    case Some(ui) =>
      match SplitOnce(ui, ':')
      case Some((u, p)) => (u, Some(p))
      case None => (ui, None)
  }

  // ----- printing -----

  function Decimal(n: nat): (s: string)
    ensures s != [] && AllDigits(s)
  {
    var last := ['0' + (n % 10) as char];
    if n < 10 then last else Decimal(n / 10) + last
  }

  function Print(p: Parts): string {
    "postgres://" + UserText(p) + "@" + p.host + ":" + Decimal(p.port) + "/" + p.dbname
  }

  function UserText(p: Parts): string {
    if p.password.Some? then p.user + ":" + p.password.value else p.user
  }

  predicate Lacks(s: string, cs: set<char>) {
    forall c :: c in cs ==> c !in s
  }

  /** Parts that the URL syntax can carry; a password may hold `@` and `:`, a database name `/`. */
  predicate Good(p: Parts) {
    && Lacks(p.user, {':', '/', '?'}) && (p.password.Some? ==> Lacks(p.password.value, {'/', '?'}))
    && p.host != "" && Lacks(p.host, {'@', '/', '?'})
    && p.port <= 0xFFFF
    && p.dbname != "" && '?' !in p.dbname
  }

  // ----- the round trip -----

  lemma {:induction false} DecimalValue(n: nat)
    ensures Value(Decimal(n)) == n
  {
    if n >= 10 {
      DecimalValue(n / 10);
      var s := Decimal(n);
      assert s[..|s| - 1] == Decimal(n / 10);
    } else {
      assert Decimal(n)[..0] == [];
    }
  }

  lemma {:induction false} FirstAt(a: string, c: char, b: string)
    requires c !in a
    ensures First(a + [c] + b, c) == |a|
  {
    var s := a + [c] + b;
    assert s[|a|] == c;
  }

  lemma LastAt(a: string, c: char, b: string)
    requires c !in b
    ensures Last(a + [c] + b, c) == Some(|a|)
  {
    var s := a + [c] + b;
    assert s[|a|] == c;
  }

  lemma SplitAt(a: string, c: char, b: string)
    ensures c !in a ==> SplitOnce(a + [c] + b, c) == Some((a, b))
    ensures c !in b ==> RSplitOnce(a + [c] + b, c) == Some((a, b))
  {
    var s := a + [c] + b;
    assert s[..|a|] == a && s[|a| + 1..] == b;
    if c !in a {
      FirstAt(a, c, b);
    }
    if c !in b {
      LastAt(a, c, b);
    }
  }

  lemma NoSplit(a: string, c: char)
    requires c !in a
    ensures SplitOnce(a, c) == None && RSplitOnce(a, c) == None && First(a, c) == |a|
  {
  }

  lemma DecimalLacks(n: nat)
    ensures Lacks(Decimal(n), {'@', '/', '?', ':', '+'})
  {
    var s := Decimal(n);
    forall i | 0 <= i < |s| ensures s[i] !in {'@', '/', '?', ':', '+'} {
      assert IsDigit(s[i]);
    }
  }

  lemma UserBack(p: Parts)
    requires ':' !in p.user
    ensures ParseUser(Some(UserText(p))) == (p.user, p.password)
  {
    if p.password.Some? {
      assert UserText(p) == p.user + [':'] + p.password.value;
      SplitAt(p.user, ':', p.password.value);
    } else {
      NoSplit(p.user, ':');
    }
  }

  lemma PortBack(n: nat)
    requires n <= 0xFFFF
    ensures ParsePort(Decimal(n)) == Some(n)
  {
    DecimalValue(n);
    DecimalLacks(n);
  }

  /** Good parts are read back from their printed URL. */
  lemma GoodRoundTrip(p: Parts)
    requires Good(p)
    ensures ParsePgUrl(Print(p)) == Ok(p)
  {
    hide Decimal, First, Last;
    var user, hp := UserText(p), p.host + [':'] + Decimal(p.port);
    var authority := user + ['@'] + hp;
    var rest := authority + ['/'] + p.dbname;
    assert Print(p) == "postgres://" + rest;
    DecimalLacks(p.port);
    assert Lacks(user, {'/', '?'}) by {
      UserLacks(p);
    }
    assert Lacks(hp, {'@', '/', '?'}) by {
      HostLacks(p.host, Decimal(p.port));
    }
    assert Lacks(authority, {'/', '?'}) by {
      AuthorityLacks(user, hp);
    }
    NoQuestion(authority, p.dbname);
    assert rest[..|rest|] == rest;
    SplitAt(authority, '/', p.dbname);
    SplitAt(user, '@', hp);
    SplitAt(p.host, ':', Decimal(p.port));
    UserBack(p);
    PortBack(p.port);
  }

  lemma UserLacks(p: Parts)
    requires Good(p)
    ensures Lacks(UserText(p), {'/', '?'})
  {
  }

  lemma HostLacks(host: string, port: string)
    requires Lacks(host, {'@', '/', '?'}) && Lacks(port, {'@', '/', '?', ':', '+'})
    ensures Lacks(host + [':'] + port, {'@', '/', '?'})
  {
  }

  lemma AuthorityLacks(user: string, hp: string)
    requires Lacks(user, {'/', '?'}) && Lacks(hp, {'@', '/', '?'})
    ensures Lacks(user + ['@'] + hp, {'/', '?'})
  {
  }

  lemma NoQuestion(authority: string, db: string)
    requires Lacks(authority, {'/', '?'}) && '?' !in db
    ensures var rest := authority + ['/'] + db; First(rest, '?') == |rest|
  {
    var rest := authority + ['/'] + db;
    NoSplit(rest, '?');
  }

  /** Whatever the parser accepts has good parts. */
  lemma ParsedIsGood(url: string)
    requires ParsePgUrl(url).Ok?
    ensures Good(ParsePgUrl(url).value)
  {
    hide First, Last, ParseRest, Good;
    var full := StripPrefix(url, "postgres://");
    var s := if full.Some? then full.value else StripPrefix(url, "postgresql://").value;
    RestIsGood(s[..First(s, '?')]);
  }

  lemma RestIsGood(rest: string)
    requires '?' !in rest && ParseRest(rest).Ok?
    ensures Good(ParseRest(rest).value)
  {
    hide CutPath, CutUser, ParseUser, ParseHost, Lacks;
    var (authority, db) := CutPath(rest);
    PathIsGood(rest);
    var (userinfo, hostport) := CutUser(authority);
    UserIsGood(authority);
    HostIsGood(hostport);
  }

  lemma PathIsGood(rest: string)
    requires '?' !in rest
    ensures var (authority, db) := CutPath(rest); Lacks(authority, {'/', '?'}) && '?' !in db
  {
    hide SplitOnce;
    SplitParts(rest, '/');
  }

  lemma UserIsGood(authority: string)
    requires Lacks(authority, {'/', '?'})
    ensures var (userinfo, hostport) := CutUser(authority);
            var (user, password) := ParseUser(userinfo);
            && Lacks(hostport, {'@', '/', '?'})
            && Lacks(user, {':', '/', '?'}) && (password.Some? ==> Lacks(password.value, {'/', '?'}))
  {
    hide SplitOnce, RSplitOnce;
    SplitParts(authority, '@');
    var (userinfo, _) := CutUser(authority);
    if userinfo.Some? {
      SplitParts(userinfo.value, ':');
    }
  }

  lemma HostIsGood(hostport: string)
    requires Lacks(hostport, {'@', '/', '?'}) && ParseHost(hostport).Ok?
    ensures var (host, port) := ParseHost(hostport).value; host != "" && Lacks(host, {'@', '/', '?'}) && port <= 0xFFFF
  {
    hide RSplitOnce, Value;
    SplitParts(hostport, ':');
  }

  /** The parts of a split are parts of the whole, and lack the separator on the side that was searched. */
  lemma SplitParts(s: string, c: char)
    ensures var f, l := SplitOnce(s, c), RSplitOnce(s, c);
            && (f.None? ==> c !in s) && (l.None? ==> c !in s)
            && (f.Some? ==> c !in f.value.0) && (l.Some? ==> c !in l.value.1)
            && (f.Some? ==> forall d :: d in f.value.0 || d in f.value.1 ==> d in s)
            && (l.Some? ==> forall d :: d in l.value.0 || d in l.value.1 ==> d in s)
  {
    hide First, Last;
    assert s[..|s|] == s;
  }

  /** Printing and parsing are inverse exactly on the parts that the syntax can carry. */
  lemma RoundTripExact(p: Parts)
    ensures ParsePgUrl(Print(p)) == Ok(p) <==> Good(p)
  {
    hide ParsePgUrl, Print, Good;
    if Good(p) {
      GoodRoundTrip(p);
    }
    if ParsePgUrl(Print(p)) == Ok(p) {
      ParsedIsGood(Print(p));
    }
  }

  // ----- every form of a URL -----

  datatype User = User(name: string, password: Option<string>)

  /** A URL as it may be written, with or without user, port, path and query. */
  datatype Form = Form(user: Option<User>, host: string, port: Option<nat>, db: Option<string>, query: Option<string>)

  function Prefixed(sep: string, part: Option<string>): string {
    if part.Some? then sep + part.value else ""
  }

  function HostText(f: Form): string {
    if f.port.Some? then f.host + ":" + Decimal(f.port.value) else f.host
  }

  function AuthorityText(f: Form): string {
    match f.user
    case None => HostText(f)
    case Some(User(name, password)) => name + Prefixed(":", password) + "@" + HostText(f)
  }

  function FormText(f: Form): string {
    AuthorityText(f) + Prefixed("/", f.db)
  }

  /** No part holds a separator that ends it. */
  predicate GoodForm(f: Form) {
    && (f.user.Some? ==>
          && Lacks(f.user.value.name, {':', '/', '?'})
          && (f.user.value.password.Some? ==> Lacks(f.user.value.password.value, {'/', '?'})))
    && Lacks(f.host, {'@', '/', '?'}) && (f.port.None? ==> ':' !in f.host)
    && (f.db.Some? ==> '?' !in f.db.value)
  }

  /** The defaults: user and database `postgres`, port 5432, no password. */
  function Meant(f: Form): Result<Parts, Error> {
    if f.port.Some? && f.port.value > 65535 then Err(BadPort)
    else if f.host == "" then Err(NoHost)
    else
      Ok(Parts(f.host,
               if f.port.Some? then f.port.value else 5432,
               if f.user.Some? then f.user.value.name else "postgres",
               if f.user.Some? then f.user.value.password else None,
               if f.db.None? || f.db.value == "" then "postgres" else f.db.value))
  }

  lemma UserRead(u: User)
    requires ':' !in u.name
    ensures ParseUser(Some(u.name + Prefixed(":", u.password))) == (u.name, u.password)
  {
    hide First;
    if u.password.Some? {
      assert u.name + Prefixed(":", u.password) == u.name + [':'] + u.password.value;
      SplitAt(u.name, ':', u.password.value);
    } else {
      assert u.name + Prefixed(":", u.password) == u.name;
      NoSplit(u.name, ':');
    }
  }

  lemma HostRead(f: Form)
    requires GoodForm(f)
    ensures ParseHost(HostText(f))
         == if f.port.Some? && f.port.value > 65535 then Err(BadPort)
            else if f.host == "" then Err(NoHost)
            else Ok((f.host, if f.port.Some? then f.port.value else 5432))
  {
    hide First, Last;
    if f.port.Some? {
      var n := f.port.value;
      assert HostText(f) == f.host + [':'] + Decimal(n);
      DecimalLacks(n);
      DecimalValue(n);
      SplitAt(f.host, ':', Decimal(n));
    } else {
      NoSplit(f.host, ':');
    }
  }

  lemma AuthorityRead(f: Form)
    requires GoodForm(f)
    ensures var (userinfo, hostport) := CutUser(AuthorityText(f));
            && hostport == HostText(f)
            && userinfo == if f.user.None? then None
                           else Some(f.user.value.name + Prefixed(":", f.user.value.password))
    ensures Lacks(AuthorityText(f), {'/', '?'})
  {
    hide First, Last;
    HostTextLacks(f);
    match f.user
    case None => NoSplit(HostText(f), '@');
    case Some(User(name, password)) =>
      var info := name + Prefixed(":", password);
      assert AuthorityText(f) == info + ['@'] + HostText(f);
      SplitAt(info, '@', HostText(f));
      AuthorityLacks(info, HostText(f));
  }

  lemma HostTextLacks(f: Form)
    requires GoodForm(f)
    ensures Lacks(HostText(f), {'@', '/', '?'})
  {
    if f.port.Some? {
      DecimalLacks(f.port.value);
      assert HostText(f) == f.host + [':'] + Decimal(f.port.value);
    }
  }

  lemma PathRead(authority: string, db: Option<string>)
    requires Lacks(authority, {'/', '?'}) && (db.Some? ==> '?' !in db.value)
    ensures var rest := authority + Prefixed("/", db);
            CutPath(rest) == (authority, if db.Some? then db.value else "") && '?' !in rest
  {
    hide First, Last;
    if db.Some? {
      assert authority + Prefixed("/", db) == authority + ['/'] + db.value;
      SplitAt(authority, '/', db.value);
    } else {
      assert authority + Prefixed("/", db) == authority;
      NoSplit(authority, '/');
    }
  }

  lemma RestRead(f: Form)
    requires GoodForm(f)
    ensures ParseRest(FormText(f)) == Meant(f) && '?' !in FormText(f)
  {
    hide CutPath, ParseHost, ParseUser, CutUser, AuthorityText, HostText, Prefixed, Lacks;
    AuthorityRead(f);
    HostRead(f);
    PathRead(AuthorityText(f), f.db);
    UserlessRead();
    if f.user.Some? {
      assert ':' !in f.user.value.name by {
        LacksOne(f.user.value.name, ':', {':', '/', '?'});
      }
      UserRead(f.user.value);
    }
  }

  lemma UserlessRead()
    ensures ParseUser(None) == ("postgres", None)
  {
  }

  lemma LacksOne(s: string, c: char, cs: set<char>)
    requires Lacks(s, cs) && c in cs
    ensures c !in s
  {
  }

  /** Both schemes are accepted, a query string is dropped, and what is left out has its default. */
  lemma FormsParsed(scheme: string, f: Form)
    requires scheme in {"postgres://", "postgresql://"} && GoodForm(f)
    ensures ParsePgUrl(scheme + FormText(f) + Prefixed("?", f.query)) == Meant(f)
  {
    hide First, ParseRest, FormText, Meant;
    RestRead(f);
    var rest := FormText(f) + Prefixed("?", f.query);
    var url := scheme + FormText(f) + Prefixed("?", f.query);
    assert url == scheme + rest;
    StripsScheme(scheme, rest);
    if f.query.Some? {
      assert rest == FormText(f) + ['?'] + f.query.value;
      FirstAt(FormText(f), '?', f.query.value);
      assert rest[..|FormText(f)|] == FormText(f);
    } else {
      assert rest == FormText(f);
      NoSplit(rest, '?');
      assert rest[..|rest|] == rest;
    }
  }

  lemma StripsScheme(scheme: string, rest: string)
    requires scheme in {"postgres://", "postgresql://"}
    ensures var full := StripPrefix(scheme + rest, "postgres://");
            (if full.Some? then full else StripPrefix(scheme + rest, "postgresql://")) == Some(rest)
  {
    var url := scheme + rest;
    assert url[..|scheme|] == scheme && url[|scheme|..] == rest;
    if scheme == "postgresql://" {
      assert url[8] == 'q' && "postgres://"[8] == ':';
    }
  }

  /** Every other scheme is refused. */
  lemma SchemeRefused(url: string)
    ensures ParsePgUrl(url) == Err(BadScheme) <==> !("postgres://" <= url) && !("postgresql://" <= url)
  {
    hide First, CutPath, CutUser, ParseUser;
  }

  /** A port is a number, with or without a plus sign. */
  lemma PortsRead(host: string, text: string)
    requires ':' !in text
    ensures text != "" && text[0] == '+' && AllDigits(text[1..]) && text[1..] != "" && Value(text[1..]) <= 65535 &&
        host != ""
      ==> ParseHost(host + ":" + text) == Ok((host, Value(text[1..])))
    ensures text == "" || text == "+" || (exists i :: 1 <= i < |text| && !('0' <= text[i] <= '9'))
      ==> ParseHost(host + ":" + text) == Err(BadPort)
  {
    hide First, Last;
    assert host + ":" + text == host + [':'] + text;
    SplitAt(host, ':', text);
    if i :| 1 <= i < |text| && !('0' <= text[i] <= '9') {
      assert text[1..][i - 1] == text[i];
    }
  }
}
