/** The request printer of the HTTP client, and what a server reads from its output. */
module RequestFraming {
  import opened Bytes
  import opened Numbers
  import opened HeaderFields
  import opened MessageHead
  import Base64
  import Response
  import Uri

  const HTTP: Bytes := "http"
  const HOST: Bytes := "Host"
  const LENGTH: Bytes := "Content-Length"
  const AUTHORIZATION: Bytes := "Authorization"
  const BASIC: Bytes := "Basic "
  const QUESTION: Bytes := "?"
  const HTTP11: Bytes := " HTTP/1.1"

  /** Path and query. */
  function Target(u: Uri.Uri): Bytes {
    u.path + if u.query == [] then [] else QUESTION + u.query
  }

  function Octets(s: Bytes): (r: seq<octet>)
    ensures |r| == |s| && forall i :: 0 <= i < |s| ==> r[i] == s[i] as int
  {
    seq(|s|, i requires 0 <= i < |s| => s[i] as int)
  }

  function UserInfo(u: Uri.Uri): Bytes {
    u.user + (COLON + u.password)
  }

  predicate HasCredentials(u: Uri.Uri) {
    u.user != [] || u.password != []
  }

  /** The fields the printer adds to the caller's. */
  function Added(u: Uri.Uri, size: nat): seq<Field> {
    [Field(HOST, u.host), Field(LENGTH, Print(size, 10))] +
    if HasCredentials(u) then [Field(AUTHORIZATION, BASIC + Base64.Encode(Octets(UserInfo(u))))] else []
  }

  /** The request line without its line end. */
  function RequestLine(verb: Bytes, target: Bytes): Bytes {
    verb + (SPACE + (target + HTTP11))
  }

  function Request(u: Uri.Uri, verb: Bytes, body: Bytes, fields: seq<Field>): Bytes {
    MessageHead.Head(RequestLine(verb, Target(u)), fields + Added(u, |body|), body)
  }

  // ----- the printer as the source runs it -----

  /** The bit pattern of an octet, counted up from zero. */
  function Bits(x: octet): (b: bv8)
    ensures b as int == x
  {
    if x == 0 then 0
    else
      var b := Bits(x - 1);
      b + 1
  }

  /** The userinfo octets as the encoder reads them. */
  method Cast(s: Bytes) returns (r: seq<bv8>)
    ensures Base64.Octets(r) == Octets(s)
  {
    r := [];
    for i := 0 to |s|
      invariant |r| == i && forall k :: 0 <= k < i ==> r[k] as int == s[k] as int
    {
      r := r + [Bits(s[i] as int)];
    }
  }

  predicate AllAcceptable(fs: seq<Field>) {
    forall i :: 0 <= i < |fs| ==> Acceptable(fs[i])
  }

  /** `encodeHtml`. */
  method EncodeHtml(u: Uri.Uri, verb: Bytes, body: Bytes, headerFields: seq<Field>) returns (r: Result<Bytes>)
    ensures r.Ok? <==> u.scheme == HTTP && AllAcceptable(headerFields) && AllAre(u.host, FieldText)
    ensures r.Ok? ==> r.value == Request(u, verb, body, headerFields)
    ensures r.Err? ==> if u.scheme != HTTP then r.error == "Only HTTP scheme is supported"
                       else FirstFault(headerFields + Added(u, |body|), r.error)
  {
    hide Base64.Encode, Base64.Octets, Print, Lines, AllAre;
    if u.scheme != HTTP {
      return Err("Only HTTP scheme is supported");
    }
    var requestTarget := u.path + if u.query == [] then [] else QUESTION + u.query;
    var fields := headerFields + [Field(HOST, u.host)];
    fields := fields + [Field(LENGTH, Print(|body|, 10))];
    if u.user != [] || u.password != [] {
      var userinfo := u.user + (COLON + u.password);
      var cast := Cast(userinfo);
      var encoded := Base64.EncodeBase64(cast);
      fields := fields + [Field(AUTHORIZATION, BASIC + encoded)];
    }
    assert fields == headerFields + Added(u, |body|);
    AddedAccepted(u, |body|, headerFields);
    var lines := EncodeHeaderFields(fields);
    if lines.Err? {
      return Err(lines.error);
    }
    r := Ok((RequestLine(verb, requestTarget) + CRLF + lines.value + CRLF) + body);
    Reassociate(RequestLine(verb, requestTarget), lines.value, body);
  }

  lemma Reassociate(start: Bytes, lines: Bytes, body: Bytes)
    ensures (start + CRLF + lines + CRLF) + body == start + (CRLF + (lines + (CRLF + body)))
  {
    assert (start + CRLF + lines + CRLF) + body == (start + CRLF) + ((lines + CRLF) + body);
    assert (lines + CRLF) + body == lines + (CRLF + body);
    assert (start + CRLF) + (lines + (CRLF + body)) == start + (CRLF + (lines + (CRLF + body)));
  }

  lemma NumeralIsFieldText(s: Bytes)
    requires IsNumeral(s, 10)
    ensures AllAre(s, FieldText)
  {
    assert forall i :: 0 <= i < |s| ==> Digit(s[i], 10).Some?;
  }

  lemma EncodedIsFieldText(s: seq<octet>)
    ensures AllAre(Base64.Encode(s), FieldText)
  {
    hide Base64.Encode;
    Base64.EncodedShape(s);
    var t := Base64.Encode(s);
    forall i | 0 <= i < |t| ensures Is(t[i], FieldText) {
      assert t[i] == Base64.PAD || Base64.SymbolValue(t[i]).Some?;
    }
  }

  lemma NamesAreTokens()
    ensures AllAre(HOST, Token) && AllAre(LENGTH, Token) && AllAre(AUTHORIZATION, Token) && AllAre(BASIC, FieldText)
  {
  }

  lemma JoinFieldText(a: Bytes, b: Bytes)
    ensures AllAre(a, FieldText) && AllAre(b, FieldText) ==> AllAre(a + b, FieldText)
  {
  }

  lemma AddedShape(u: Uri.Uri, size: nat)
    ensures Acceptable(Added(u, size)[0]) <==> AllAre(u.host, FieldText)
    ensures forall i :: 1 <= i < |Added(u, size)| ==> Acceptable(Added(u, size)[i])
  {
    hide Base64.Encode, Print, AllAre;
    NamesAreTokens();
    NumeralIsFieldText(Print(size, 10));
    var e := Base64.Encode(Octets(UserInfo(u)));
    EncodedIsFieldText(Octets(UserInfo(u)));
    JoinFieldText(BASIC, e);
  }

  /** The added fields are always fit to print, except that the host may not be. */
  lemma AddedAccepted(u: Uri.Uri, size: nat, fields: seq<Field>)
    ensures AllAcceptable(fields + Added(u, size)) <==> AllAcceptable(fields) && AllAre(u.host, FieldText)
  {
    hide Acceptable, AllAre;
    AddedShape(u, size);
    var added := Added(u, size);
    var all := fields + added;
    assert forall i :: 0 <= i < |fields| ==> all[i] == fields[i];
    assert forall i :: 0 <= i < |added| ==> all[|fields| + i] == added[i];
    if AllAcceptable(fields) && Acceptable(added[0]) {
      forall i | 0 <= i < |all| ensures Acceptable(all[i]) {
        assert all[i] == if i < |fields| then fields[i] else added[i - |fields|];
      }
    }
  }

  // ----- framing -----

  /** An empty line in the request line comes from the method or the target. */
  lemma BlankInRequestLine(verb: Bytes, target: Bytes)
    ensures HasBlank(RequestLine(verb, target)) <==> HasBlank(verb) || HasBlank(target)
  {
    var s := RequestLine(verb, target);
    var n := |verb| + 1;
    assert forall i :: 0 <= i < |s| ==>
      s[i] == if i < |verb| then verb[i] else if i == |verb| then ' '
              else if i - n < |target| then target[i - n] else HTTP11[i - n - |target|];
    forall j: nat
      ensures OccursAt(s, BLANK, j) <==> OccursAt(verb, BLANK, j) || (j >= n && OccursAt(target, BLANK, j - n))
    {
      BlankAt(s, j);
      BlankAt(verb, j);
      if j >= n { BlankAt(target, j - n); }
    }
    forall j: nat | OccursAt(target, BLANK, j) ensures HasBlank(s) {
      assert OccursAt(target, BLANK, j + n - n);
      assert OccursAt(s, BLANK, j + n);
    }
    forall j: nat | OccursAt(verb, BLANK, j) ensures HasBlank(s) {
      assert OccursAt(s, BLANK, j);
    }
  }

  lemma EndsInDigit(verb: Bytes, target: Bytes)
    ensures var s := RequestLine(verb, target); s != [] && s[|s| - 1] == '1'
  {
    assert HTTP11[|HTTP11| - 1] == '1';
  }

  /** Where the head of the request ends. */
  function HeadEnd(u: Uri.Uri, verb: Bytes, size: nat, fields: seq<Field>): nat {
    |RequestLine(verb, Target(u))| + |Lines(fields + Added(u, size))|
  }

  /**
   * Framing, exactly: the first empty line of the request is the end of its head, with the body octet for octet
   * behind it, if and only if neither the method nor the target holds an empty line.
   */
  lemma FramedExactly(u: Uri.Uri, verb: Bytes, body: Bytes, fields: seq<Field>)
    requires AllAcceptable(fields) && AllAre(u.host, FieldText)
    ensures var s := Request(u, verb, body, fields);
            var end := HeadEnd(u, verb, |body|, fields);
            && |s| == end + 4 + |body|
            && s[end + 4..] == body
            && (Search(s, BLANK) == end <==> !HasBlank(verb) && !HasBlank(Target(u)))
  {
    hide Acceptable, AllAre, Added, Search, Target;
    var start := RequestLine(verb, Target(u));
    var all := fields + Added(u, |body|);
    AddedAccepted(u, |body|, fields);
    AddedNotEmpty(u, |body|);
    BlankInRequestLine(verb, Target(u));
    EndsInDigit(verb, Target(u));
    if HasBlank(start) {
      EarlyBlank(start, CRLF + (Lines(all) + (CRLF + body)));
      assert Request(u, verb, body, fields)[|start| + |Lines(all)| + 4..] == body;
    } else {
      HeadEnds(start, all, body);
    }
  }

  const BLANK_PATH: Bytes := "/\r\n\r\n"
  const BLANK_URI: Bytes := "http://h/\r\n\r\n"
  const H: Bytes := "h"
  const GET: Bytes := "GET"

  /** A URI that is accepted with an empty line in its path: the head of its request ends too early. */
  lemma BlankTargetBreaksFraming(body: Bytes)
    ensures var u := Uri.Uri(HTTP, [], [], H, [], BLANK_PATH, [], []);
            Uri.Split(BLANK_URI) == Ok(u) && Search(Request(u, GET, body, []), BLANK) != HeadEnd(u, GET, |body|, [])
  {
    hide Search, Uri.Split;
    var u := Uri.Uri(HTTP, [], [], H, [], BLANK_PATH, [], []);
    var sh := Uri.Shape(false, false, false, true, false, false);
    assert Uri.AuthorityText(u, sh) == H;
    assert BLANK_URI == Uri.Text(u, sh);
    Uri.SplitsText(u, sh);
    assert OccursAt(Target(u), BLANK, 1) by { BlankAt(Target(u), 1); }
    FramedExactly(u, GET, body, []);
  }

  lemma AddedNotEmpty(u: Uri.Uri, size: nat)
    ensures Added(u, size) != []
  {
  }

  lemma EarlyBlank(start: Bytes, more: Bytes)
    requires HasBlank(start)
    ensures Search(start + more, BLANK) < |start|
  {
    var j: nat :| OccursAt(start, BLANK, j);
    assert (start + more)[j..j + 4] == start[j..j + 4];
    assert OccursAt(start + more, BLANK, j);
    SearchFinds(start + more, BLANK);
  }

  // ----- what a server reads -----

  /** The request line, the fields and the body of a message, as a server takes it apart. */
  datatype Received = Received(line: Bytes, fields: seq<Field>, body: Bytes)

  function ReadRequest(s: Bytes): Option<Received> {
    var end := Search(s, BLANK);
    if end == |s| then None
    else
      var i := Search(s[..end + 2], CRLF);
      if i == end + 2 then None
      else
        match Fields(s[i + 2..end + 2])
        case Err(_) => None
        case Ok(fs) => Some(Received(s[..i], fs, s[end + 4..]))
  }

  /** The server gets back the request line, every field in normal form, and the body. */
  lemma RequestReadsBack(u: Uri.Uri, verb: Bytes, body: Bytes, fields: seq<Field>)
    requires AllAcceptable(fields) && AllAre(u.host, FieldText)
    requires '\r' !in verb && '\r' !in Target(u)
    ensures ReadRequest(Request(u, verb, body, fields)) ==
            Some(Received(RequestLine(verb, Target(u)), Normals(fields + Added(u, |body|)), body))
  {
    hide Acceptable, AllAre, Added, Search, Target, Fields, Normals, Lines;
    var s := Request(u, verb, body, fields);
    var start := RequestLine(verb, Target(u));
    var all := fields + Added(u, |body|);
    NoReturnNoBlank(verb);
    NoReturnNoBlank(Target(u));
    AddedAccepted(u, |body|, fields);
    AddedNotEmpty(u, |body|);
    BlankInRequestLine(verb, Target(u));
    EndsInDigit(verb, Target(u));
    NoReturnInLine(verb, Target(u));
    HeadEnds(start, all, body);
    SearchAfterLine(start, Lines(all));
    var end := |start| + |Lines(all)|;
    assert s[..end + 2] == start + CRLF + Lines(all);
    assert s[|start| + 2..end + 2] == s[..end + 2][|start| + 2..];
    assert s[..|start|] == s[..end + 2][..|start|];
    FieldsRoundTrip(all);
  }

  lemma NoReturnInLine(verb: Bytes, target: Bytes)
    ensures '\r' !in verb && '\r' !in target ==> '\r' !in RequestLine(verb, target)
  {
    assert '\r' !in HTTP11;
  }

  lemma DigitsAreTrimmed(s: Bytes)
    requires IsNumeral(s, 10)
    ensures Trim(s) == s
  {
    NumeralIsNotWhite(s);
    NothingToTrim(s);
  }

  lemma NumeralIsNotWhite(s: Bytes)
    requires IsNumeral(s, 10)
    ensures forall i :: 0 <= i < |s| ==> !Is(s[i], White)
  {
    assert forall i :: 0 <= i < |s| ==> Digit(s[i], 10).Some?;
  }

  const SMALL_HOST: Bytes := "host"
  const SMALL_AUTHORIZATION: Bytes := "authorization"

  lemma AddedNames()
    ensures Lower(HOST) == SMALL_HOST && Lower(LENGTH) == Response.CONTENT_LENGTH
    ensures Lower(AUTHORIZATION) == SMALL_AUTHORIZATION && SMALL_AUTHORIZATION != Response.CONTENT_LENGTH
  {
    assert |SMALL_AUTHORIZATION| != |Response.CONTENT_LENGTH|;
  }

  /**
   * The appended Content-Length is there with the body size as its value.  It is the last one, so that whatever
   * lengths the caller gave, the client's own reader gets the body size, modulo the word.
   */
  lemma LengthReadsBack(u: Uri.Uri, size: nat, fields: seq<Field>)
    ensures var all := Normals(fields + Added(u, size));
            && |all| >= |fields| + 2
            && all[|fields| + 1].name == Response.CONTENT_LENGTH && IsNumeral(all[|fields| + 1].value, 10)
            && Value(all[|fields| + 1].value, 10) == size
            && Response.LengthIs(all, size % WORD)
  {
    hide Print, Value, Base64.Encode, Trim, Lower, Normals, CutAt;
    var given := fields + Added(u, size);
    var all := Normals(given);
    var f := all[|fields| + 1];
    assert given[|fields| + 1] == Added(u, size)[1] == Field(LENGTH, Print(size, 10));
    assert HasCredentials(u) ==> given[|fields| + 2].name == AUTHORIZATION;
    PrintReadsBack(size, 10);
    DigitsAreTrimmed(Print(size, 10));
    AddedNames();
    assert forall j :: |fields| + 1 < j < |all| ==> all[j].name == Lower(given[j].name) == SMALL_AUTHORIZATION;
    assert Response.LastLength(all, |fields| + 1);
  }

  lemma CredentialsAreTrimmed(u: Uri.Uri)
    ensures var v := BASIC + Base64.Encode(Octets(UserInfo(u))); Trim(v) == v
  {
    hide Base64.Encode, Trim;
    var e := Base64.Encode(Octets(UserInfo(u)));
    Base64.EncodedShape(Octets(UserInfo(u)));
    var v := BASIC + e;
    assert |UserInfo(u)| > 0 && e != [];
    var c := e[|e| - 1];
    assert v[|v| - 1] == c && (c == Base64.PAD || Base64.SymbolValue(c).Some?);
    NothingToTrim(v);
  }

  /** The credentials come back from the Authorization field: its Base64 text decodes to user, colon, password. */
  lemma CredentialsReadBack(u: Uri.Uri, size: nat)
    requires HasCredentials(u)
    ensures var v := Added(u, size)[2].value;
            && v[..6] == BASIC && Base64.Decode(v[6..]) == Some(Octets(UserInfo(u)))
            && (CutAt(UserInfo(u), ':') == Cut(u.user, true, u.password) <==> ':' !in u.user)
  {
    hide Base64.Encode, Base64.Decode, CutAt, Print;
    var e := Base64.Encode(Octets(UserInfo(u)));
    Base64.DecodeUndoesEncode(Octets(UserInfo(u)));
    var v := Added(u, size)[2].value;
    assert v == BASIC + e && |BASIC| == 6;
    if ':' !in u.user {
      CutUndoesJoin(u.user, true, ':', u.password);
      assert COLON == [':'];
    } else {
      JoinUndoesCut(UserInfo(u), ':');
    }
  }

  /** Path and query come back from the target exactly when the path has no question mark of its own. */
  lemma TargetReadsBack(u: Uri.Uri)
    ensures CutAt(Target(u), '?') == Cut(u.path, u.query != [], u.query) <==> '?' !in u.path
  {
    hide CutAt;
    assert Target(u) == Join(u.path, u.query != [], '?', u.query);
    if '?' !in u.path {
      CutUndoesJoin(u.path, u.query != [], '?', u.query);
    } else {
      JoinUndoesCut(Target(u), '?');
    }
  }

  /** The target of a URI string that is accepted has none, so that its path and query always come back. */
  lemma ParsedTargetReadsBack(s: Bytes)
    requires Uri.Split(s).Ok?
    ensures var u := Uri.Split(s).value; CutAt(Target(u), '?') == Cut(u.path, u.query != [], u.query)
  {
    hide CutAt, Uri.Split, Uri.Text;
    var sh := Uri.SplitWasText(s);
    TargetReadsBack(Uri.Split(s).value);
  }

  /** The method comes back from the request line exactly when it has no space; the version ends the line. */
  lemma LineReadsBack(verb: Bytes, target: Bytes)
    ensures CutAt(RequestLine(verb, target), ' ') == Cut(verb, true, target + " HTTP/1.1") <==> ' ' !in verb
  {
    hide CutAt;
    assert RequestLine(verb, target) == Join(verb, true, ' ', target + HTTP11);
    if ' ' !in verb {
      CutUndoesJoin(verb, true, ' ', target + HTTP11);
    } else {
      JoinUndoesCut(RequestLine(verb, target), ' ');
    }
  }

  /** What a server finds in a request: everything the caller and the URI gave. */
  ghost predicate Tells(r: Received, u: Uri.Uri, verb: Bytes, body: Bytes, fields: seq<Field>) {
    && r.body == body
    && TellsLine(r.line, u, verb)
    && TellsFields(r.fields, u, |body|, fields)
  }

  /** Method, path and query. */
  ghost predicate TellsLine(line: Bytes, u: Uri.Uri, verb: Bytes) {
    exists target: Bytes ::
      && CutAt(line, ' ') == Cut(verb, true, target + " HTTP/1.1")
      && CutAt(target, '?') == Cut(u.path, u.query != [], u.query)
  }

  /** The caller's fields, then host, length and, with a user or a password, the credentials. */
  predicate TellsFields(all: seq<Field>, u: Uri.Uri, size: nat, fields: seq<Field>) {
    var n := |fields|;
    && |all| == n + (if u.user == [] && u.password == [] then 2 else 3)
    && all[..n] == Normals(fields)
    && all[n] == Field(SMALL_HOST, Trim(u.host))
    && all[n + 1].name == Response.CONTENT_LENGTH
    && IsNumeral(all[n + 1].value, 10) && Value(all[n + 1].value, 10) == size
    && (|all| == n + 3 ==> all[n + 2].name == SMALL_AUTHORIZATION && TellsUser(all[n + 2].value, u))
  }

  predicate TellsUser(v: Bytes, u: Uri.Uri) {
    |v| >= 6 && v[..6] == "Basic " && Base64.Decode(v[6..]) == Some(Octets(u.user + [':'] + u.password))
  }

  lemma UserIsTold(u: Uri.Uri, size: nat)
    requires HasCredentials(u)
    ensures TellsUser(Normal(Added(u, size)[2]).value, u) && Normal(Added(u, size)[2]).name == SMALL_AUTHORIZATION
  {
    hide Base64.Encode, Base64.Decode, Print, Trim, Lower;
    AddedNames();
    CredentialsAreTrimmed(u);
    assert UserInfo(u) == u.user + [':'] + u.password;
    var e := Base64.Encode(Octets(UserInfo(u)));
    Base64.DecodeUndoesEncode(Octets(UserInfo(u)));
    assert (BASIC + e)[..6] == BASIC && (BASIC + e)[6..] == e;
  }

  lemma FieldsAreTold(u: Uri.Uri, size: nat, fields: seq<Field>)
    ensures TellsFields(Normals(fields + Added(u, size)), u, size, fields)
  {
    hide Base64.Encode, Base64.Decode, Print, Value, Trim, Lower, TellsUser, IsNumeral;
    var n := |fields|;
    var given := fields + Added(u, size);
    var all := Normals(given);
    LengthReadsBack(u, size, fields);
    AddedNames();
    assert given[n] == Field(HOST, u.host);
    assert all[..n] == Normals(fields);
    if HasCredentials(u) {
      assert given[n + 2] == Added(u, size)[2];
      UserIsTold(u, size);
    }
  }

  /**
   * End to end: what the printer writes for a URI tells a server the method, the path, the query, the caller's
   * fields, the host, the length, the credentials if there are any, and the body, each in its place.
   */
  lemma ServerIsTold(u: Uri.Uri, verb: Bytes, body: Bytes, fields: seq<Field>)
    requires AllAcceptable(fields) && AllAre(u.host, FieldText)
    requires '\r' !in verb && ' ' !in verb
    requires '\r' !in u.path && '\r' !in u.query && '?' !in u.path
    ensures var m := ReadRequest(Request(u, verb, body, fields)); m.Some? && Tells(m.value, u, verb, body, fields)
  {
    hide Request, ReadRequest, AllAcceptable, AllAre, TellsFields, CutAt, Normals;
    RequestReadsBack(u, verb, body, fields);
    FieldsAreTold(u, |body|, fields);
    LineReadsBack(verb, Target(u));
    TargetReadsBack(u);
  }
}
