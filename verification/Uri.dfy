/** The URI splitter of the HTTP client (section 3 of RFC 3986) and the texts it accepts. */
module Uri {
  import opened Bytes
  import opened HeaderFields

  datatype Uri = Uri(scheme: Bytes, user: Bytes, password: Bytes, host: Bytes, port: Bytes,
                     path: Bytes, query: Bytes, fragment: Bytes)

  const SLASHES: Bytes := "://"
  const ROOT: Bytes := "/"

  // ----- the splitter -----

  predicate IsScheme(s: Bytes) {
    s != [] && IsAlphaChar(s[0]) && AllAre(s, SchemeText)
  }

  /** User, password, host and port. */
  function Authority(a: Bytes): (Bytes, Bytes, Bytes, Bytes) {
    var at := CutAt(a, '@');
    var user := if at.found then CutAt(at.head, ':') else Cut([], false, []);
    var host := CutAt(if at.found then at.tail else a, ':');
    (user.head, user.tail, host.head, host.tail)
  }

  function AfterScheme(scheme: Bytes, rest: Bytes): Uri {
    var fragment := CutAt(rest, '#');
    var query := CutAt(fragment.head, '?');
    var path := CutAt(query.head, '/');
    var (user, password, host, port) := Authority(path.head);
    Uri(scheme, user, password, host, port, ROOT + path.tail, query.tail, fragment.tail)
  }

  function Split(s: Bytes): Result<Uri> {
    var n := Span(s, SchemeText);
    if n == 0 || !IsAlphaChar(s[0]) || n + 3 > |s| || s[n..n + 3] != SLASHES then Err("Invalid scheme")
    else Ok(AfterScheme(s[..n], s[n + 3..]))
  }

  /** The part of `parseUri` that takes user information, host and port apart. */
  method ParseAuthority(authority: Bytes) returns (user: Bytes, password: Bytes, host: Bytes, port: Bytes)
    ensures (user, password, host, port) == Authority(authority)
  {
    hide CutAt;
    user, password, host, port := [], [], authority, [];
    var hostPosition := Find(authority, '@');
    if hostPosition < |authority| {
      var userinfo := authority[..hostPosition];
      var passwordPosition := Find(userinfo, ':');
      if passwordPosition < |userinfo| {
        user := userinfo[..passwordPosition];
        password := userinfo[passwordPosition + 1..];
      } else {
        user := userinfo;
      }
      host := authority[hostPosition + 1..];
    }
    var portPosition := Find(host, ':');
    if portPosition < |host| {
      port := host[portPosition + 1..];
      host := host[..portPosition];
    }
  }

  /** The part of `parseUri` before the authority: the scheme, and the position behind the slashes. */
  method ParseScheme(s: Bytes) returns (r: Result<(Bytes, nat)>)
    ensures Split(s).Err? ==> r == Err("Invalid scheme")
    ensures Split(s).Ok? ==> r.Ok? && r.value.1 <= |s| && Split(s) == Ok(AfterScheme(r.value.0, s[r.value.1..]))
  {
    hide Span, Is, IsAlphaChar, AfterScheme;
    if |s| == 0 || !IsAlphaChar(s[0]) {
      return Err("Invalid scheme");
    }
    AlphaIsScheme(s[0]);
    var scheme: Bytes := [s[0]];
    var i := 1;
    while i < |s| && Is(s[i], SchemeText)
      invariant 1 <= i <= |s|
      invariant scheme == s[..i] && AllAre(scheme, SchemeText)
    {
      scheme := scheme + [s[i]];
      i := i + 1;
    }
    assert s == scheme + s[i..];
    SpanIs(scheme, s[i..], SchemeText);
    if i == |s| || s[i] != ':' {
      return Err("Invalid scheme");
    }
    if i + 1 == |s| || s[i + 1] != '/' {
      return Err("Invalid scheme");
    }
    if i + 2 == |s| || s[i + 2] != '/' {
      return Err("Invalid scheme");
    }
    assert s[i..i + 3] == SLASHES;
    return Ok((scheme, i + 3));
  }

  /** `parseUri`. */
  method ParseUri(s: Bytes) returns (r: Result<Uri>)
    ensures r == Split(s)
  {
    hide CutAt, Split;
    SplitFails(s);
    var start := ParseScheme(s);
    if start.Err? {
      return Err(start.error);
    }
    var (scheme, i) := start.value;
    var authority := s[i..];
    var fragment, query, path: Bytes := [], [], ROOT;
    ghost var cut1 := CutAt(authority, '#');
    var fragmentPosition := Find(authority, '#');
    if fragmentPosition < |authority| {
      fragment := authority[fragmentPosition + 1..];
      authority := authority[..fragmentPosition];
    }
    assert fragment == cut1.tail && authority == cut1.head;
    ghost var cut2 := CutAt(authority, '?');
    var queryPosition := Find(authority, '?');
    if queryPosition < |authority| {
      query := authority[queryPosition + 1..];
      authority := authority[..queryPosition];
    }
    assert query == cut2.tail && authority == cut2.head;
    ghost var cut3 := CutAt(authority, '/');
    var pathPosition := Find(authority, '/');
    if pathPosition < |authority| {
      path := authority[pathPosition..];
      assert path == ROOT + authority[pathPosition + 1..];
      authority := authority[..pathPosition];
    }
    assert path == ROOT + cut3.tail && authority == cut3.head;
    var user, password, host, port := ParseAuthority(authority);
    return Ok(Uri(scheme, user, password, host, port, path, query, fragment));
  }

  lemma SplitFails(s: Bytes)
    ensures Split(s).Err? ==> Split(s) == Err("Invalid scheme")
  {
  }

  lemma AlphaIsScheme(c: byte)
    ensures IsAlphaChar(c) ==> Is(c, SchemeText)
  {
  }

  // ----- exactly which texts split, and into what -----

  /** Which delimiters a text has. */
  datatype Shape = Shape(userinfo: bool, password: bool, port: bool, path: bool, query: bool, fragment: bool)

  /** The components avoid the delimiters that would end them, and what is absent is empty (or the root path). */
  predicate Fits(u: Uri, sh: Shape) {
    FitsButForSigns(u, sh) && (sh.userinfo || ('@' !in u.host && '@' !in u.port))
  }

  /** The same without the one condition that ties the host and port to the user information. */
  predicate FitsButForSigns(u: Uri, sh: Shape) {
    && IsScheme(u.scheme)
    && '#' !in u.query && (sh.query || u.query == [])
    && (sh.fragment || u.fragment == [])
    && u.path != [] && u.path[0] == '/' && '?' !in u.path && '#' !in u.path && (sh.path || u.path == ROOT)
    && AvoidsPath(u.user) && '@' !in u.user && ':' !in u.user && (sh.userinfo || u.user == [])
    && AvoidsPath(u.password) && '@' !in u.password && (sh.password || u.password == [])
    && (sh.password ==> sh.userinfo)
    && AvoidsPath(u.host) && ':' !in u.host
    && AvoidsPath(u.port) && (sh.port || u.port == [])
  }

  predicate AvoidsPath(s: Bytes) {
    '/' !in s && '?' !in s && '#' !in s
  }

  function AuthorityText(u: Uri, sh: Shape): Bytes {
    var hostport := Join(u.host, sh.port, ':', u.port);
    if sh.userinfo then Join(Join(u.user, sh.password, ':', u.password), true, '@', hostport) else hostport
  }

  function PathText(u: Uri, sh: Shape): Bytes
    requires u.path != []
  {
    Join(AuthorityText(u, sh), sh.path, '/', if sh.path then u.path[1..] else [])
  }

  function QueryText(u: Uri, sh: Shape): Bytes
    requires u.path != []
  {
    Join(PathText(u, sh), sh.query, '?', u.query)
  }

  /** The text of a URI with the given delimiters. */
  function Text(u: Uri, sh: Shape): Bytes
    requires u.path != []
  {
    u.scheme + (SLASHES + Join(QueryText(u, sh), sh.fragment, '#', u.fragment))
  }

  lemma SplitsAuthority(u: Uri, sh: Shape)
    requires Fits(u, sh)
    ensures Authority(AuthorityText(u, sh)) == (u.user, u.password, u.host, u.port)
  {
    hide CutAt;
    CutUndoesJoin(u.host, sh.port, ':', u.port);
    CutUndoesJoin(u.user, sh.password, ':', u.password);
    var hostport := Join(u.host, sh.port, ':', u.port);
    if sh.userinfo {
      CutUndoesJoin(Join(u.user, sh.password, ':', u.password), true, '@', hostport);
    } else {
      CutUndoesJoin(hostport, false, '@', []);
    }
  }

  lemma AuthorityAvoidsPath(u: Uri, sh: Shape)
    ensures FitsButForSigns(u, sh) ==> AvoidsPath(AuthorityText(u, sh))
  {
  }

  lemma SplitsAfterScheme(scheme: Bytes, rest: Bytes)
    requires IsScheme(scheme)
    ensures Split(scheme + (SLASHES + rest)) == Ok(AfterScheme(scheme, rest))
  {
    hide Span, AfterScheme;
    var s := scheme + (SLASHES + rest);
    var n := |scheme|;
    SpanIs(scheme, SLASHES + rest, SchemeText);
    assert s[n..] == SLASHES + rest;
    assert s[..n] == scheme && s[n..n + 3] == s[n..][..3] == SLASHES && s[n + 3..] == s[n..][3..] == rest;
  }

  /** Everything but the authority is split as it was put together. */
  lemma SplitsAroundAuthority(u: Uri, sh: Shape)
    requires FitsButForSigns(u, sh)
    ensures var (user, password, host, port) := Authority(AuthorityText(u, sh));
            Split(Text(u, sh)) == Ok(Uri(u.scheme, user, password, host, port, u.path, u.query, u.fragment))
  {
    hide CutAt, Span, Authority, AuthorityText, AvoidsPath, Split;
    SplitsAfterScheme(u.scheme, Join(QueryText(u, sh), sh.fragment, '#', u.fragment));
    AuthorityAvoidsPath(u, sh);
    CutUndoesJoin(QueryText(u, sh), sh.fragment, '#', u.fragment);
    CutUndoesJoin(PathText(u, sh), sh.query, '?', u.query);
    CutUndoesJoin(AuthorityText(u, sh), sh.path, '/', if sh.path then u.path[1..] else []);
    assert ROOT + (if sh.path then u.path[1..] else []) == u.path;
  }

  lemma SplitsText(u: Uri, sh: Shape)
    requires Fits(u, sh)
    ensures Split(Text(u, sh)) == Ok(u)
  {
    hide Split, Text, Authority, AuthorityText, FitsButForSigns;
    FitsHasPath(u);
    SplitsAroundAuthority(u, sh);
    SplitsAuthority(u, sh);
  }

  lemma CutAvoidsPath(s: Bytes, c: byte)
    requires AvoidsPath(s)
    ensures AvoidsPath(CutAt(s, c).head) && AvoidsPath(CutAt(s, c).tail)
  {
    CutKeepsOut(s, c, '/');
    CutKeepsOut(s, c, '?');
    CutKeepsOut(s, c, '#');
  }

  lemma AuthorityWas(a: Bytes, u: Uri) returns (userinfo: bool, password: bool, port: bool)
    requires AvoidsPath(a) && Authority(a) == (u.user, u.password, u.host, u.port)
    ensures AuthorityText(u, Shape(userinfo, password, port, true, true, true)) == a
    ensures AvoidsPath(u.user) && '@' !in u.user && ':' !in u.user && (userinfo || u.user == [])
    ensures AvoidsPath(u.password) && '@' !in u.password && (password || u.password == []) && (password ==> userinfo)
    ensures AvoidsPath(u.host) && ':' !in u.host && (userinfo || '@' !in u.host)
    ensures AvoidsPath(u.port) && (port || u.port == []) && (userinfo || '@' !in u.port)
  {
    hide CutAt;
    var at := CutAt(a, '@');
    JoinUndoesCut(a, '@');
    CutAvoidsPath(a, '@');
    userinfo := at.found;
    password := at.found && CutAt(at.head, ':').found;
    JoinUndoesCut(at.head, ':');
    CutAvoidsPath(at.head, ':');
    CutKeepsOut(at.head, ':', '@');
    var hostport := if at.found then at.tail else a;
    port := CutAt(hostport, ':').found;
    JoinUndoesCut(hostport, ':');
    CutAvoidsPath(hostport, ':');
    if !at.found {
      CutKeepsOut(hostport, ':', '@');
    }
  }

  lemma SplitWasText(s: Bytes) returns (sh: Shape)
    requires Split(s).Ok?
    ensures Fits(Split(s).value, sh) && s == Text(Split(s).value, sh)
  {
    hide CutAt, Span, Authority, AuthorityText, Join, AvoidsPath;
    var u := Split(s).value;
    var n := Span(s, SchemeText);
    SpanIsLongest(s, SchemeText);
    var rest := s[n + 3..];
    assert s == s[..n] + (SLASHES + rest);
    var fragment := CutAt(rest, '#');
    JoinUndoesCut(rest, '#');
    var query := CutAt(fragment.head, '?');
    JoinUndoesCut(fragment.head, '?');
    CutKeepsOut(fragment.head, '?', '#');
    var path := CutAt(query.head, '/');
    JoinUndoesCut(query.head, '/');
    CutKeepsOut(query.head, '/', '#');
    CutKeepsOut(query.head, '/', '?');
    AvoidsAll(path.head);
    var userinfo, password, port := AuthorityWas(path.head, u);
    sh := Shape(userinfo, password, port, path.found, query.found, fragment.found);
    AuthorityIgnoresRest(u, sh, Shape(userinfo, password, port, true, true, true));
    assert u.path[1..] == path.tail;
  }

  lemma AvoidsAll(s: Bytes)
    ensures '/' !in s && '?' !in s && '#' !in s ==> AvoidsPath(s)
  {
  }

  lemma AuthorityIgnoresRest(u: Uri, sh: Shape, sh': Shape)
    requires sh.userinfo == sh'.userinfo && sh.password == sh'.password && sh.port == sh'.port
    ensures AuthorityText(u, sh) == AuthorityText(u, sh')
  {
  }

  /** The language of the splitter: it returns `u` on exactly the texts of `u`, under every choice of delimiters. */
  lemma SplitsExactly(s: Bytes, u: Uri)
    ensures Split(s) == Ok(u) <==> exists sh: Shape :: Fits(u, sh) && s == Text(u, sh)
  {
    hide Split, Fits, Text;
    if Split(s) == Ok(u) {
      var sh := SplitWasText(s);
    }
    FitsHasPath(u);
    forall sh: Shape | Fits(u, sh) && s == Text(u, sh) ensures Split(s) == Ok(u) {
      SplitsText(u, sh);
    }
  }

  lemma FitsHasPath(u: Uri)
    ensures forall sh: Shape :: Fits(u, sh) ==> u.path != []
  {
  }

  // ----- print, and parse back -----

  /** Print a delimiter only before a component that is not empty; always print the path. */
  function Canonical(u: Uri): Shape {
    Shape(u.user != [] || u.password != [], u.password != [], u.port != [], true, u.query != [], u.fragment != [])
  }

  /**
   * Parse, then print: compared with the text that was read, the canonical text has the root path inserted and
   * delimiters of empty components dropped, and nothing else changed.
   */
  lemma CanonicalDropsEmpty(s: Bytes) returns (sh: Shape)
    requires Split(s).Ok?
    ensures var u := Split(s).value;
            var c := Canonical(u);
            && u.path != [] && s == Text(u, sh)
            && (sh.userinfo != c.userinfo ==> sh.userinfo && u.user == [] && u.password == [])
            && (sh.password != c.password ==> sh.password && u.password == [])
            && (sh.port != c.port ==> sh.port && u.port == [])
            && (sh.path != c.path ==> c.path && u.path == ROOT)
            && (sh.query != c.query ==> sh.query && u.query == [])
            && (sh.fragment != c.fragment ==> sh.fragment && u.fragment == [])
  {
    hide Split, Text, AvoidsPath, IsScheme;
    sh := SplitWasText(s);
  }

  /**
   * Print, then parse, of a URI that was parsed: the same URI comes back, except when an empty user information
   * was dropped in front of a host or port that holds an at sign.
   */
  lemma ReassemblyExactly(s: Bytes)
    requires Split(s).Ok?
    ensures var u := Split(s).value;
            u.path != [] &&
            (Split(Text(u, Canonical(u))) == Ok(u) <==>
             u.user != [] || u.password != [] || ('@' !in u.host && '@' !in u.port))
  {
    hide Split, Text, AvoidsPath, IsScheme, Authority;
    var u := Split(s).value;
    var sh := SplitWasText(s);
    var c := Canonical(u);
    if u.user != [] || u.password != [] || ('@' !in u.host && '@' !in u.port) {
      SplitsText(u, c);
    } else {
      SplitsAroundAuthority(u, c);
      SignIsTaken(u.host, c.port, u.port);
    }
  }

  /** Without user information of its own, a host or port with an at sign does not come back as it was. */
  lemma SignIsTaken(host: Bytes, present: bool, port: Bytes)
    requires present == (port != []) && ('@' in host || '@' in port)
    ensures Authority(Join(host, present, ':', port)).2 != host || Authority(Join(host, present, ':', port)).3 != port
  {
    hide CutAt;
    var s := Join(host, present, ':', port);
    assert '@' in host ==> '@' in s;
    assert present ==> forall x :: x in port ==> x in s;
    var at := CutAt(s, '@');
    JoinUndoesCut(s, '@');
    assert at.found;
    var tail := CutAt(at.tail, ':');
    JoinUndoesCut(at.tail, ':');
    assert |s| == |at.head| + 1 + |at.tail|;
  }

  const TWO_SIGNS: Bytes := "http://@a@b"
  const SCHEME: Bytes := "http"
  const HOST: Bytes := "a@b"

  /** An empty user part in front of a host with an at sign: the text splits, and its canonical print splits otherwise. */
  lemma ReassemblyFails()
    ensures var u := Uri(SCHEME, [], [], HOST, [], ROOT, [], []);
            Split(TWO_SIGNS) == Ok(u) && Split(Text(u, Canonical(u))) != Ok(u)
  {
    hide Split, Authority;
    var u := Uri(SCHEME, [], [], HOST, [], ROOT, [], []);
    var sh := Shape(true, false, false, false, false, false);
    assert AuthorityText(u, sh) == "@a@b";
    assert TWO_SIGNS == Text(u, sh);
    SplitsText(u, sh);
    ReassemblyExactly(TWO_SIGNS);
  }
}
