/** The receive loop of `Request::send`: status line, header fields, and either kind of body. */
module Response {
  import opened Bytes
  import opened Numbers
  import opened HeaderFields
  import opened MessageHead
  import opened ChunkedBody

  datatype Status = Status(major: nat, minor: nat, code: nat, reason: Bytes)

  datatype Answer = Answer(status: Option<Status>, fields: seq<Field>, body: Bytes)

  /** What the loop returns when it never saw the end of the header section. */
  const NOTHING := Answer(None, [], [])

  // ----- the status line -----

  const VERSION: Bytes := "HTTP/"
  const DOT: Bytes := "."

  /** A version, a three-digit code and a reason phrase, with any amount of text after them. */
  function StatusLine(s: Bytes): (r: Result<(Status, Bytes)>)
    ensures r.Ok? ==> |r.value.1| < |s|
  {
    if |s| < 6 || s[..5] != VERSION then Err("Invalid HTTP version")
    else if !IsDigitChar(s[5]) then Err("Invalid digit")
    else if |s| < 8 || s[6] != '.' then Err("Invalid HTTP version")
    else if !IsDigitChar(s[7]) then Err("Invalid digit")
    else if |s| == 8 || s[8] != ' ' then Err("Invalid status line")
    else AfterVersion(s[5] as int - '0' as int, s[7] as int - '0' as int, s[9..])
  }

  function AfterVersion(major: nat, minor: nat, s: Bytes): (r: Result<(Status, Bytes)>)
    ensures r.Ok? ==> |r.value.1| < |s|
  {
    if Span(s, Digits) != 3 then Err("Invalid status code")
    else if |s| == 3 || s[3] != ' ' then Err("Invalid status line")
    else
      assert IsNumeral(s[..3], 10) by { SpanIsLongest(s, Digits); DigitsAreNumeral(s[..3]); }
      var t := s[4..];
      var rest := Skip(t, FieldText);
      if |rest| >= 2 && rest[0] == '\r' && rest[1] == '\n' then
        Ok((Status(major, minor, Value(s[..3], 10), t[..Span(t, FieldText)]), rest[2..]))
      else Err("Invalid status line")
  }

  /** One more digit of the code. */
  lemma CodeStep(run: Bytes, c: byte)
    requires AllAre(run, Digits) && Is(c, Digits)
    ensures AllAre(run + [c], Digits) && IsNumeral(run, 10) && IsNumeral(run + [c], 10)
    ensures Value(run + [c], 10) == Value(run, 10) * 10 + (c as int - '0' as int)
  {
    DigitsAreNumeral(run);
    DigitsAreNumeral(run + [c]);
    assert (run + [c])[..|run|] == run;
  }

  /** `parseStatusCode`: a run of digits, read with a 16-bit accumulator that three digits cannot overflow. */
  method ParseStatusCode(s: Bytes) returns (i: nat, code: nat)
    ensures i == Span(s, Digits)
    ensures i == 3 ==> IsNumeral(s[..3], 10) && code == Value(s[..3], 10)
  {
    hide AllAre, IsNumeral, Value, Span, Skip;
    i, code := 0, 0;
    EmptyCode();
    while i < |s| && Is(s[i], Digits)
      invariant 0 <= i <= |s| && AllAre(s[..i], Digits) && IsNumeral(s[..i], 10)
      invariant i == 0 ==> code == 0
      invariant i == 1 ==> code < 10
      invariant i == 2 ==> code < 100
      invariant i == 3 ==> code < 1000
      invariant i <= 3 ==> code == Value(s[..i], 10)
    {
      CodeStep(s[..i], s[i]);
      assert s[..i + 1] == s[..i] + [s[i]];
      code := (code * 10 + (s[i] as int - '0' as int)) % 0x1_0000;
      i := i + 1;
    }
    assert s == s[..i] + s[i..];
    SpanIs(s[..i], s[i..], Digits);
  }

  lemma EmptyCode()
    ensures AllAre([], Digits) && IsNumeral([], 10) && Value([], 10) == 0
  {
  }

  /** `parseReasonPhrase`: everything up to a control character. */
  method ParseReasonPhrase(s: Bytes) returns (i: nat, reason: Bytes)
    ensures i == Span(s, FieldText) && reason == s[..i] && s[i..] == Skip(s, FieldText)
  {
    i, reason := 0, [];
    while i < |s| && Is(s[i], FieldText)
      invariant 0 <= i <= |s| && reason == s[..i] && AllAre(reason, FieldText)
    {
      reason := reason + [s[i]];
      i := i + 1;
    }
    assert s == s[..i] + s[i..];
    SpanIs(s[..i], s[i..], FieldText);
  }

  /** `parseStatusLine`. */
  method ParseStatusLine(s: Bytes) returns (r: Result<(Status, Bytes)>)
    ensures r == StatusLine(s)
  {
    hide Span, Skip, Value, IsNumeral;
    if |s| < 6 || s[..5] != VERSION {
      return Err("Invalid HTTP version");
    }
    if !IsDigitChar(s[5]) {
      return Err("Invalid digit");
    }
    if |s| < 8 || s[6] != '.' {
      return Err("Invalid HTTP version");
    }
    if !IsDigitChar(s[7]) {
      return Err("Invalid digit");
    }
    if |s| == 8 || s[8] != ' ' {
      return Err("Invalid status line");
    }
    var afterVersion := s[9..];
    var n, code := ParseStatusCode(afterVersion);
    if n != 3 {
      return Err("Invalid status code");
    }
    if |afterVersion| == 3 || afterVersion[3] != ' ' {
      return Err("Invalid status line");
    }
    var afterCode := afterVersion[4..];
    var i, reason := ParseReasonPhrase(afterCode);
    var rest := afterCode[i..];
    if |rest| < 2 || rest[0] != '\r' || rest[1] != '\n' {
      return Err("Invalid status line");
    }
    return Ok((Status(s[5] as int - '0' as int, s[7] as int - '0' as int, code, reason), rest[2..]));
  }

  lemma DigitsAreNumeral(s: Bytes)
    requires AllAre(s, Digits)
    ensures IsNumeral(s, 10)
  {
    forall i | 0 <= i < |s| ensures Digit(s[i], 10).Some? {
      assert Is(s[i], Digits);
    }
  }

  /** One digit for each part of the version, and three for the code. */
  predicate Printable(st: Status) {
    st.major < 10 && st.minor < 10 && st.code < 1000 && AllAre(st.reason, FieldText)
  }

  function CodeText(n: nat): (s: Bytes)
    requires n < 1000
    ensures |s| == 3
  {
    [DigitChar(n / 100), DigitChar(n / 10 % 10), DigitChar(n % 10)]
  }

  /** A status line without its line end. */
  function StatusText(st: Status): Bytes
    requires Printable(st)
  {
    VERSION + [DigitChar(st.major)] + DOT + [DigitChar(st.minor)] + SPACE + (CodeText(st.code) + (SPACE + st.reason))
  }

  lemma ThreeDigits(a: byte, b: byte, c: byte)
    requires AllAre([a, b, c], Digits)
    ensures IsNumeral([a, b, c], 10)
    ensures Value([a, b, c], 10) == (a as int - 48) * 100 + (b as int - 48) * 10 + (c as int - 48)
  {
    hide Value;
    var none: Bytes := [];
    EmptyCode();
    assert Is([a, b, c][0], Digits) && Is([a, b, c][1], Digits) && Is([a, b, c][2], Digits);
    CodeStep(none, a);
    CodeStep(none + [a], b);
    CodeStep(none + [a] + [b], c);
    assert [a, b, c] == none + [a] + [b] + [c];
  }

  lemma Hundreds(x: nat, y: nat, z: nat)
    ensures x < 10 && y < 10 && z < 10 ==>
              var n := x * 100 + y * 10 + z; n < 1000 && n / 100 == x && n / 10 % 10 == y && n % 10 == z
  {
    var n := x * 100 + y * 10 + z;
    if y < 10 && z < 10 {
      assert n / 10 == x * 10 + y;
      assert n / 100 == x;
    }
  }

  lemma HundredsOf(n: nat)
    ensures n == n / 100 * 100 + n / 10 % 10 * 10 + n % 10
  {
    assert n / 10 / 10 == n / 100;
  }

  lemma CodeReads(n: nat)
    requires n < 1000
    ensures AllAre(CodeText(n), Digits) && IsNumeral(CodeText(n), 10) && Value(CodeText(n), 10) == n
  {
    hide Value, IsNumeral;
    var s := CodeText(n);
    assert s == [s[0], s[1], s[2]];
    assert AllAre(s, Digits);
    ThreeDigits(s[0], s[1], s[2]);
    HundredsOf(n);
  }

  lemma CodeWasPrinted(s: Bytes)
    requires |s| == 3 && AllAre(s, Digits)
    ensures IsNumeral(s, 10) && Value(s, 10) < 1000 && CodeText(Value(s, 10)) == s
  {
    hide Value, IsNumeral, DigitChar;
    assert s == [s[0], s[1], s[2]];
    assert Is(s[0], Digits) && Is(s[1], Digits) && Is(s[2], Digits);
    ThreeDigits(s[0], s[1], s[2]);
    Hundreds(s[0] as int - 48, s[1] as int - 48, s[2] as int - 48);
    DigitPrintsBack(s[0]);
    DigitPrintsBack(s[1]);
    DigitPrintsBack(s[2]);
  }

  lemma ReadsAfterVersion(major: nat, minor: nat, digits: Bytes, reason: Bytes, rest: Bytes)
    requires |digits| == 3 && AllAre(digits, Digits) && AllAre(reason, FieldText)
    ensures IsNumeral(digits, 10)
    ensures AfterVersion(major, minor, digits + (SPACE + (reason + (CRLF + rest)))) ==
            Ok((Status(major, minor, Value(digits, 10), reason), rest))
  {
    hide Span, Skip, Value;
    var tail := reason + (CRLF + rest);
    var s := digits + (SPACE + tail);
    DigitsAreNumeral(digits);
    SpanIs(digits, SPACE + tail, Digits);
    assert s[..3] == digits && s[4..] == tail && s[3] == ' ';
    SpanIs(reason, CRLF + rest, FieldText);
    assert (CRLF + rest)[2..] == rest;
  }

  lemma StatusLineReassoc(st: Status, rest: Bytes)
    requires Printable(st)
    ensures var s := StatusText(st) + (CRLF + rest);
            && |s| > 9 && s[..5] == VERSION && s[5] == DigitChar(st.major) && s[6] == '.'
            && s[7] == DigitChar(st.minor) && s[8] == ' '
            && s[9..] == CodeText(st.code) + (SPACE + (st.reason + (CRLF + rest)))
  {
    hide CodeText;
    var version := VERSION + [DigitChar(st.major)] + DOT + [DigitChar(st.minor)] + SPACE;
    var code := CodeText(st.code);
    var s := StatusText(st) + (CRLF + rest);
    assert (code + (SPACE + st.reason)) + (CRLF + rest) == code + (SPACE + (st.reason + (CRLF + rest)));
    assert s == version + ((code + (SPACE + st.reason)) + (CRLF + rest));
    assert |version| == 9;
  }

  lemma ReadsStatusLine(st: Status, rest: Bytes)
    requires Printable(st)
    ensures StatusLine(StatusText(st) + (CRLF + rest)) == Ok((st, rest))
  {
    hide CodeText, StatusText, AfterVersion;
    StatusLineReassoc(st, rest);
    CodeReads(st.code);
    ReadsAfterVersion(st.major, st.minor, CodeText(st.code), st.reason, rest);
  }

  lemma AfterVersionWas(major: nat, minor: nat, s: Bytes)
    requires major < 10 && minor < 10 && AfterVersion(major, minor, s).Ok?
    ensures var (st, rest) := AfterVersion(major, minor, s).value;
            && st.major == major && st.minor == minor && Printable(st)
            && s == CodeText(st.code) + (SPACE + (st.reason + (CRLF + rest)))
  {
    hide Span, Value, CodeText;
    SpanIsLongest(s, Digits);
    CodeWasPrinted(s[..3]);
    var t := s[4..];
    SpanIsLongest(t, FieldText);
    var tail := t[Span(t, FieldText)..];
    assert s == s[..3] + (SPACE + t);
    assert t == t[..Span(t, FieldText)] + tail;
    assert tail == CRLF + tail[2..];
  }

  lemma DigitPrintsBack(c: byte)
    ensures IsDigitChar(c) ==> DigitChar(c as int - 48) == c
  {
  }

  lemma StatusLineWas(s: Bytes)
    requires StatusLine(s).Ok?
    ensures var (st, rest) := StatusLine(s).value; Printable(st) && s == StatusText(st) + (CRLF + rest)
  {
    hide AfterVersion, CodeText;
    var (st, rest) := StatusLine(s).value;
    AfterVersionWas(s[5] as int - 48, s[7] as int - 48, s[9..]);
    DigitPrintsBack(s[5]);
    DigitPrintsBack(s[7]);
    StatusLineReassoc(st, rest);
    SameInNine(s, StatusText(st) + (CRLF + rest));
  }

  lemma SameInNine(s: Bytes, t: Bytes)
    requires |s| >= 9 && |t| >= 9 && s[..5] == t[..5] && s[9..] == t[9..]
    requires s[5] == t[5] && s[6] == t[6] && s[7] == t[7] && s[8] == t[8]
    ensures s == t
  {
    assert s == s[..5] + [s[5], s[6], s[7], s[8]] + s[9..];
    assert t == t[..5] + [t[5], t[6], t[7], t[8]] + t[9..];
  }

  /** Exactly which texts are read as a status line, and to what. */
  lemma StatusLineExactly(s: Bytes, st: Status, rest: Bytes)
    ensures StatusLine(s) == Ok((st, rest)) <==> Printable(st) && s == StatusText(st) + (CRLF + rest)
  {
    hide StatusLine, StatusText, Printable;
    if Printable(st) {
      ReadsStatusLine(st, rest);
    }
    if StatusLine(s).Ok? {
      StatusLineWas(s);
    }
  }

  /** "HTTP/", a digit, a dot and a digit. */
  predicate StartsWithVersion(s: Bytes) {
    |s| >= 8 && s[..5] == "HTTP/" && s[5] in "0123456789" && s[6] == '.' && s[7] in "0123456789"
  }

  /** Which message a text gets that is no status line. */
  lemma StatusLineFaults(s: Bytes)
    requires StatusLine(s).Err?
    ensures StatusLine(s).error ==
            if StartsWithVersion(s) then
              if |s| > 8 && s[8] == ' ' && Span(s[9..], Digits) != 3 then "Invalid status code" else "Invalid status line"
            else if |s| >= 6 && s[..5] == "HTTP/" && (s[5] !in "0123456789" || (|s| >= 8 && s[6] == '.')) then "Invalid digit"
            else "Invalid HTTP version"
  {
    hide Span;
  }

  lemma StatusTextIsOneLine(st: Status)
    requires Printable(st)
    ensures StatusText(st) != [] && '\r' !in StatusText(st) && '\n' !in StatusText(st)
  {
    hide Value;
    CodeReads(st.code);
    assert forall i :: 0 <= i < |st.reason| ==> Is(st.reason[i], FieldText);
  }

  // ----- the header section -----

  /** What the fields say about the body. */
  datatype Framing = Framing(chunked: bool, length: Option<nat>)

  const TRANSFER_ENCODING: Bytes := "transfer-encoding"
  const CONTENT_LENGTH: Bytes := "content-length"
  const CHUNKED: Bytes := "chunked"

  /** The effect of one field on the framing; the length wraps at the word size. */
  function Interpret(f: Field, framing: Framing): Result<Framing> {
    if f.name == TRANSFER_ENCODING then
      if f.value == CHUNKED then Ok(framing.(chunked := true)) else Err("Unsupported transfer encoding: " + f.value)
    else if f.name == CONTENT_LENGTH then
      if IsNumeral(f.value, 10) then Ok(framing.(length := Some(Value(f.value, 10) % WORD))) else Err("Invalid digit")
    else Ok(framing)
  }

  /** The field loop: parse a field, interpret it, stop exactly at the end of the range. */
  function ReadFields(s: Bytes, framing: Framing): Result<(seq<Field>, Framing)>
    decreases |s|
  {
    match HeaderField(s)
    case Err(e) => Err(e)
    case Ok((f, rest)) =>
      match Interpret(f, framing)
      case Err(e) => Err(e)
      case Ok(framing') =>
        if rest == [] then Ok(([f], framing'))
        else
          match ReadFields(rest, framing')
          case Err(e) => Err(e)
          case Ok((fs, last)) => Ok(([f] + fs, last))
  }

  // ----- what a list of fields says about the body, without the loop -----

  predicate Has(fs: seq<Field>, name: Bytes) {
    exists i :: 0 <= i < |fs| && fs[i].name == name
  }

  /** The only transfer coding the client accepts is `chunked`, and a length has to be a decimal numeral. */
  predicate WellFramed(f: Field) {
    && (f.name == TRANSFER_ENCODING ==> f.value == CHUNKED)
    && (f.name == CONTENT_LENGTH ==> IsNumeral(f.value, 10))
  }

  predicate Framed(fs: seq<Field>) {
    forall i :: 0 <= i < |fs| ==> WellFramed(fs[i])
  }

  predicate LastLength(fs: seq<Field>, i: nat) {
    && i < |fs| && fs[i].name == CONTENT_LENGTH && IsNumeral(fs[i].value, 10)
    && forall j :: i < j < |fs| ==> fs[j].name != CONTENT_LENGTH
  }

  ghost predicate LengthIs(fs: seq<Field>, length: nat) {
    exists i: nat :: LastLength(fs, i) && length == Value(fs[i].value, 10) % WORD
  }

  /** Some transfer coding means chunked; the last length counts, and without one there is none. */
  ghost predicate Announces(fs: seq<Field>, g: Framing) {
    && (g.chunked <==> Has(fs, TRANSFER_ENCODING))
    && (g.length.Some? <==> Has(fs, CONTENT_LENGTH))
    && (g.length.Some? ==> LengthIs(fs, g.length.value))
  }

  /** The message for the first field that is not understood. */
  ghost predicate FramingFault(fs: seq<Field>, error: string) {
    exists i ::
      && 0 <= i < |fs| && !WellFramed(fs[i]) && (forall j :: 0 <= j < i ==> WellFramed(fs[j]))
      && error == if fs[i].name == TRANSFER_ENCODING then "Unsupported transfer encoding: " + fs[i].value
                  else "Invalid digit"
  }

  lemma NamesDiffer()
    ensures TRANSFER_ENCODING != CONTENT_LENGTH
  {
    assert |TRANSFER_ENCODING| != |CONTENT_LENGTH|;
  }

  lemma HasCons(fs: seq<Field>, name: Bytes)
    requires fs != []
    ensures Has(fs, name) <==> fs[0].name == name || Has(fs[1..], name)
  {
    if i :| 0 < i < |fs| && fs[i].name == name {
      assert fs[1..][i - 1].name == name;
    }
    if i :| 0 <= i < |fs[1..]| && fs[1..][i].name == name {
      assert fs[i + 1].name == name;
    }
  }

  lemma LengthCons(fs: seq<Field>, length: nat)
    requires fs != [] && Has(fs[1..], CONTENT_LENGTH) && LengthIs(fs[1..], length)
    ensures LengthIs(fs, length)
  {
    var i: nat :| LastLength(fs[1..], i) && length == Value(fs[1..][i].value, 10) % WORD;
    assert fs[i + 1] == fs[1..][i];
    forall j | i + 1 < j < |fs| ensures fs[j].name != CONTENT_LENGTH {
      assert fs[j] == fs[1..][j - 1];
    }
    assert LastLength(fs, i + 1);
  }

  lemma LengthHead(fs: seq<Field>)
    requires fs != [] && fs[0].name == CONTENT_LENGTH && IsNumeral(fs[0].value, 10) && !Has(fs[1..], CONTENT_LENGTH)
    ensures LengthIs(fs, Value(fs[0].value, 10) % WORD)
  {
    forall j | 0 < j < |fs| ensures fs[j].name != CONTENT_LENGTH {
      assert fs[j] == fs[1..][j - 1];
    }
    assert LastLength(fs, 0);
  }

  lemma FaultCons(fs: seq<Field>, error: string)
    requires fs != [] && WellFramed(fs[0]) && FramingFault(fs[1..], error)
    ensures FramingFault(fs, error)
  {
    hide WellFramed;
    var rest := fs[1..];
    var i :| && 0 <= i < |rest| && !WellFramed(rest[i]) && (forall j :: 0 <= j < i ==> WellFramed(rest[j]))
             && error == if rest[i].name == TRANSFER_ENCODING then "Unsupported transfer encoding: " + rest[i].value
                         else "Invalid digit";
    assert fs[i + 1] == rest[i];
    forall j | 0 <= j < i + 1 ensures WellFramed(fs[j]) {
      assert j > 0 ==> fs[j] == rest[j - 1];
    }
  }

  /** The framing of a list of fields, one field at a time. */
  function InterpretAll(fs: seq<Field>, framing: Framing): Result<Framing> {
    if fs == [] then Ok(framing)
    else
      match Interpret(fs[0], framing)
      case Err(e) => Err(e)
      case Ok(framing') => InterpretAll(fs[1..], framing')
  }

  /** What the fields say when `start` was known before them. */
  ghost predicate AnnouncesFrom(start: Framing, fs: seq<Field>, g: Framing) {
    && (g.chunked <==> start.chunked || Has(fs, TRANSFER_ENCODING))
    && if Has(fs, CONTENT_LENGTH) then g.length.Some? && LengthIs(fs, g.length.value) else g.length == start.length
  }

  lemma AnnouncesCons(start: Framing, fs: seq<Field>, g: Framing)
    requires fs != [] && Interpret(fs[0], start).Ok?
    requires AnnouncesFrom(Interpret(fs[0], start).value, fs[1..], g)
    ensures AnnouncesFrom(start, fs, g)
  {
    hide Has, LengthIs;
    NamesDiffer();
    HasCons(fs, TRANSFER_ENCODING);
    HasCons(fs, CONTENT_LENGTH);
    if Has(fs[1..], CONTENT_LENGTH) {
      LengthCons(fs, g.length.value);
    } else if fs[0].name == CONTENT_LENGTH {
      LengthHead(fs);
    }
  }

  lemma {:induction false} InterpretAllIs(fs: seq<Field>, start: Framing)
    ensures InterpretAll(fs, start).Ok? ==> Framed(fs) && AnnouncesFrom(start, fs, InterpretAll(fs, start).value)
    ensures InterpretAll(fs, start).Err? ==> !Framed(fs) && FramingFault(fs, InterpretAll(fs, start).error)
  {
    hide AnnouncesFrom, FramingFault, WellFramed;
    if fs == [] {
      NothingAnnounced(start);
    } else {
      InterpretIs(fs[0], start);
      match Interpret(fs[0], start)
      case Err(e) =>
        FaultHead(fs);
      case Ok(next) =>
        var rest := fs[1..];
        InterpretAllIs(rest, next);
        assert forall i :: 0 <= i < |rest| ==> rest[i] == fs[i + 1];
        match InterpretAll(rest, next) {
          case Ok(g) =>
            AnnouncesCons(start, fs, g);
            assert forall i :: 0 < i < |fs| ==> fs[i] == rest[i - 1];
          case Err(e) =>
            FaultCons(fs, e);
        }
    }
  }

  lemma NothingAnnounced(start: Framing)
    ensures AnnouncesFrom(start, [], start)
  {
  }

  lemma InterpretIs(f: Field, start: Framing)
    ensures Interpret(f, start).Ok? <==> WellFramed(f)
  {
    NamesDiffer();
  }

  lemma FaultHead(fs: seq<Field>)
    requires fs != [] && Interpret(fs[0], Framing(false, None)).Err?
    ensures FramingFault(fs, Interpret(fs[0], Framing(false, None)).error)
  {
    InterpretIs(fs[0], Framing(false, None));
  }

  lemma LengthIsThere(fs: seq<Field>, length: nat)
    requires LengthIs(fs, length)
    ensures Has(fs, CONTENT_LENGTH)
  {
    var i: nat :| LastLength(fs, i) && length == Value(fs[i].value, 10) % WORD;
  }

  lemma AnnouncedOnce(fs: seq<Field>, a: nat, b: nat)
    requires LengthIs(fs, a) && LengthIs(fs, b)
    ensures a == b
  {
    var i: nat :| LastLength(fs, i) && a == Value(fs[i].value, 10) % WORD;
    var j: nat :| LastLength(fs, j) && b == Value(fs[j].value, 10) % WORD;
    assert i == j;
  }

  /** One framing at most fits a list of fields, and a list of understood fields has one. */
  lemma FramingIsUnique(fs: seq<Field>, g: Framing, h: Framing)
    requires Announces(fs, g) && Announces(fs, h)
    ensures g == h
  {
    hide Has, LengthIs;
    if g.length.Some? {
      AnnouncedOnce(fs, g.length.value, h.length.value);
    }
  }

  /** The field loop parses like `Fields` and interprets what it parsed. */
  lemma {:induction false} ReadFieldsIs(s: Bytes, framing: Framing)
    ensures Fields(s).Err? ==> ReadFields(s, framing).Err?
    ensures Fields(s).Ok? ==>
            ReadFields(s, framing) == match InterpretAll(Fields(s).value, framing)
                                      case Ok(g) => Ok((Fields(s).value, g))
                                      case Err(e) => Err(e)
    decreases |s|
  {
    hide HeaderField, Interpret;
    if HeaderField(s).Ok? {
      var (f, rest) := HeaderField(s).value;
      if Interpret(f, framing).Ok? {
        var next := Interpret(f, framing).value;
        if rest == [] {
          var one: seq<Field> := [f];
          assert one[1..] == [];
        } else {
          ReadFieldsIs(rest, next);
          if Fields(rest).Ok? {
            assert ([f] + Fields(rest).value)[1..] == Fields(rest).value;
          }
        }
      }
    }
  }

  /**
   * The field loop on every text: it succeeds exactly when the text is a list of fields that are all understood,
   * and the framing is what those fields say.
   */
  lemma FramingExactly(s: Bytes, fs: seq<Field>, g: Framing)
    ensures ReadFields(s, Framing(false, None)) == Ok((fs, g)) <==> Fields(s) == Ok(fs) && Framed(fs) && Announces(fs, g)
    ensures Fields(s) == Ok(fs) && !Framed(fs) ==>
            ReadFields(s, Framing(false, None)).Err? && FramingFault(fs, ReadFields(s, Framing(false, None)).error)
  {
    hide ReadFields, Fields, InterpretAll, Framed, FramingFault, Has, LengthIs;
    var start := Framing(false, None);
    ReadFieldsIs(s, start);
    if Fields(s) == Ok(fs) {
      InterpretAllIs(fs, start);
      if Framed(fs) && Announces(fs, g) {
        FramingIsUnique(fs, g, InterpretAll(fs, start).value);
      }
    }
  }

  /** A complete head and the octets after it, no end of head yet, or an exception. */
  datatype HeadResult = NoEnd | BadHead(error: string) | HeadOf(status: Status, fields: seq<Field>, framing: Framing, rest: Bytes)

  function ReadHead(data: Bytes): HeadResult {
    var i := Search(data, BLANK);
    if i == |data| then NoEnd
    else
      match StatusLine(data[..i + 2])
      case Err(e) => BadHead(e)
      case Ok((status, s)) =>
        match ReadFields(s, Framing(false, None))
        case Err(e) => BadHead(e)
        case Ok((fields, framing)) => HeadOf(status, fields, framing, data[i + 4..])
  }

  // ----- the whole loop, as a function of the pieces `recv` returned -----

  /**
   * One non-empty `recv`; a list of them ends with the disconnect.  The loop is stated for pieces of any size,
   * so that a stream can be compared with the same stream uncut; `Fits` says which the buffer can hold.
   */
  type Piece = p: Bytes | p != [] witness " "

  /** The size of the receive buffer. */
  const BUFFER := 4096

  predicate Fits(pieces: seq<Bytes>) {
    forall i :: 0 <= i < |pieces| ==> |pieces[i]| <= BUFFER
  }

  function InvalidMessage(d: Decoder): string {
    if d.removeCrlf then "Invalid chunk" else "Invalid hex digit"
  }

  function Chunked(status: Status, fields: seq<Field>, run: (Decoder, Outcome)): Result<Answer> {
    if run.1.Invalid? then Err(InvalidMessage(run.0)) else Ok(Answer(Some(status), fields, run.0.body))
  }

  /** The length-delimited body: everything received, until it is at least as long as announced. */
  function Plain(length: Option<nat>, body: Bytes, pieces: seq<Bytes>): Bytes
    decreases |pieces|
  {
    if pieces == [] || (length.Some? && |body| >= length.value) then body
    else Plain(length, body + pieces[0], pieces[1..])
  }

  function Respond(pieces: seq<Piece>): Result<Answer> {
    if pieces == [] then Ok(NOTHING)
    else
      match ReadHead(pieces[0])
      case NoEnd => Ok(NOTHING)
      case BadHead(e) => Err(e)
      case HeadOf(status, fields, framing, rest) =>
        if framing.chunked then Chunked(status, fields, Receive(START, [rest] + pieces[1..]))
        else Ok(Answer(Some(status), fields, Plain(framing.length, rest, pieces[1..])))
  }

  /** The field loop as the source runs it, over the positions of the header range. */
  method ReadHeaderFields(s: Bytes) returns (r: Result<(seq<Field>, Framing)>)
    ensures r == ReadFields(s, Framing(false, None))
    ensures r.Ok? <==> Fields(s).Ok? && Framed(Fields(s).value)
    ensures r.Ok? ==> Fields(s) == Ok(r.value.0) && Announces(r.value.0, r.value.1)
  {
    r := ReadEachField(s);
    hide ReadFields, Fields, Framed, Announces;
    if r.Ok? {
      FramingExactly(s, r.value.0, r.value.1);
    } else if Fields(s).Ok? && Framed(Fields(s).value) {
      ReadFieldsIs(s, Framing(false, None));
      InterpretAllIs(Fields(s).value, Framing(false, None));
    }
  }

  method ReadEachField(s: Bytes) returns (r: Result<(seq<Field>, Framing)>)
    ensures r == ReadFields(s, Framing(false, None))
  {
    hide HeaderField;
    var fields: seq<Field> := [];
    var framing := Framing(false, None);
    var i := 0;
    assert s[0..] == s;
    assert ReadFields(s, framing).Ok? ==> fields + ReadFields(s, framing).value.0 == ReadFields(s, framing).value.0;
    while true
      invariant 0 <= i <= |s|
      invariant ReadFields(s, Framing(false, None)) ==
                match ReadFields(s[i..], framing)
                case Err(e) => Err(e)
                case Ok((fs, last)) => Ok((fields + fs, last))
      decreases |s| - i
    {
      var field := ParseHeaderField(s, i);
      if field.Err? {
        return Err(field.error);
      }
      var (next, f) := field.value;
      var framing' := Interpret(f, framing);
      if framing'.Err? {
        return Err(framing'.error);
      }
      ghost var before := fields;
      fields := fields + [f];
      framing := framing'.value;
      assert s[next..] == [] <==> next == |s|;
      if next == |s| {
        return Ok((fields, framing));
      }
      ghost var more := ReadFields(s[next..], framing);
      assert more.Ok? ==> before + ([f] + more.value.0) == fields + more.value.0;
      i := next;
    }
  }

  /** The receive loop as the source runs it. */
  method ReceiveResponse(pieces: seq<Piece>) returns (r: Result<Answer>)
    ensures r == Respond(pieces)
  {
    hide Drain, StatusLine, ReadFields, Fields, Framed, Announces;
    var response := NOTHING;
    var parsingBody := false;
    var framing := Framing(false, None);
    var receiver := new ChunkReceiver();
    var k := 0;
    ghost var status := Status(0, 0, 0, []);
    while k < |pieces|
      invariant 0 <= k <= |pieces|
      invariant parsingBody <==> k > 0
      invariant !parsingBody ==> response == NOTHING && receiver.State() == START
      invariant parsingBody ==> response.status == Some(status)
      invariant parsingBody && framing.chunked ==>
                  Respond(pieces) == Chunked(status, response.fields, Receive(receiver.State(), pieces[k..]))
      invariant parsingBody && !framing.chunked ==>
                  Respond(pieces) == Ok(response.(body := Plain(framing.length, response.body, pieces[k..]))) &&
                  !(framing.length.Some? && |response.body| >= framing.length.value)
      decreases |pieces| - k
    {
      var data: Bytes := pieces[k];
      if !parsingBody {
        var end := Search(data, BLANK);
        if end == |data| {
          break;
        }
        var line := ParseStatusLine(data[..end + 2]);
        if line.Err? {
          return Err(line.error);
        }
        var header := ReadHeaderFields(line.value.1);
        if header.Err? {
          return Err(header.error);
        }
        status := line.value.0;
        framing := header.value.1;
        response := Answer(Some(line.value.0), header.value.0, []);
        data := data[end + 4..];
        parsingBody := true;
        ReceiveStep(START, [data] + pieces[1..]);
        assert ([data] + pieces[1..])[1..] == pieces[1..];
        assert [] + data == data;
      } else {
        assert pieces[k..][1..] == pieces[k + 1..];
        ReceiveStep(receiver.State(), pieces[k..]);
      }
      if framing.chunked {
        var outcome := receiver.Feed(data);
        if outcome.Invalid? {
          return Err(InvalidMessage(receiver.State()));
        }
        if outcome.Done? {
          return Ok(response.(body := receiver.body));
        }
      } else {
        response := response.(body := response.body + data);
        if framing.length.Some? && |response.body| >= framing.length.value {
          return Ok(response);
        }
      }
      k := k + 1;
    }
    if parsingBody && framing.chunked {
      ReceiveNothing(receiver.State());
      return Ok(response.(body := receiver.body));
    }
    return Ok(response);
  }

  // ----- how the octets are cut -----

  /** A head that is complete, good or bad, does not change when more octets arrive. */
  lemma ReadHeadIsStable(data: Bytes, more: Bytes)
    requires !ReadHead(data).NoEnd?
    ensures match ReadHead(data)
            case HeadOf(status, fields, framing, rest) =>
              ReadHead(data + more) == HeadOf(status, fields, framing, rest + more)
            case bad => ReadHead(data + more) == bad
  {
    hide StatusLine, ReadFields, Search;
    var i := Search(data, BLANK);
    SearchIsStable(data, BLANK, more);
    assert (data + more)[..i + 2] == data[..i + 2];
    assert (data + more)[i + 4..] == data[i + 4..] + more;
  }

  /** A chunked response whose head is complete in the first `recv` does not depend on any later cut. */
  lemma ChunkedIgnoresCuts(pieces: seq<Piece>)
    requires pieces != [] && ReadHead(pieces[0]).HeadOf? && ReadHead(pieces[0]).framing.chunked
    ensures Concat(pieces) != [] && Respond(pieces) == Respond([Concat(pieces)])
  {
    hide ReadHead, Drain, Receive;
    var HeadOf(status, fields, framing, rest) := ReadHead(pieces[0]);
    var more := Concat(pieces[1..]);
    var whole: Bytes := pieces[0] + more;
    assert Concat(pieces) == whole;
    ReadHeadIsStable(pieces[0], more);
    StartWaits();
    var cut: seq<Bytes> := [rest] + pieces[1..];
    assert cut[1..] == pieces[1..];
    ReceiveIgnoresCuts(START, cut);
    var once: seq<Bytes> := [rest + more] + [];
    assert once[1..] == [];
    assert Concat(once) == rest + more == Concat(cut);
    ReceiveIgnoresCuts(START, once);
    assert [whole][1..] == [];
  }

  /** Is the body read from `rest` and `more` everything that arrives?  Only the last piece may reach the length. */
  predicate TakesAll(framing: Framing, rest: Bytes, more: seq<Bytes>) {
    more == [] || framing.length.None? || |rest + Concat(more[..|more| - 1])| < framing.length.value
  }

  lemma PlainTakesAll(framing: Framing, rest: Bytes, more: seq<Piece>)
    ensures Plain(framing.length, rest, more) == Plain(framing.length, rest + Concat(more), []) <==> TakesAll(framing, rest, more)
  {
    hide Plain;
    var k := PlainTakesWholePieces(framing.length, rest, more);
    assert Plain(framing.length, rest + Concat(more), []) == rest + Concat(more) by { PlainOfNothing(framing.length, rest + Concat(more)); }
    assert more[..|more|] == more;
    if k < |more| {
      ConcatGrows(more, k, |more| - 1);
      ConcatSnoc(more);
    } else if more != [] {
      assert |more| - 1 < k;
    }
  }

  lemma PlainOfNothing(length: Option<nat>, body: Bytes)
    ensures Plain(length, body, []) == body
  {
  }

  lemma {:induction false} ConcatSnoc(pieces: seq<Bytes>)
    requires pieces != []
    ensures Concat(pieces) == Concat(pieces[..|pieces| - 1]) + pieces[|pieces| - 1]
    decreases |pieces|
  {
    if |pieces| > 1 {
      ConcatSnoc(pieces[1..]);
      assert pieces[..|pieces| - 1][1..] == pieces[1..][..|pieces| - 2];
    }
  }

  /**
   * Do the cuts of `pieces` leave the response alone?  They do when no empty line ever arrives.  Otherwise the
   * first piece must hold it, and an unchunked body of announced length must not be complete before the last piece.
   */
  predicate CutsAreHarmless(pieces: seq<Piece>)
    requires pieces != []
  {
    Search(Concat(pieces), BLANK) == |Concat(pieces)| ||
    match ReadHead(pieces[0])
    case NoEnd => false
    case BadHead(_) => true
    case HeadOf(_, _, framing, rest) => framing.chunked || TakesAll(framing, rest, pieces[1..])
  }

  lemma PlainCutsMatter(pieces: seq<Piece>)
    requires pieces != [] && ReadHead(pieces[0]).HeadOf? && !ReadHead(pieces[0]).framing.chunked
    ensures Concat(pieces) != []
    ensures Respond(pieces) == Respond([Concat(pieces)]) <==>
            TakesAll(ReadHead(pieces[0]).framing, ReadHead(pieces[0]).rest, pieces[1..])
  {
    hide ReadHead, Plain, TakesAll;
    var HeadOf(status, fields, framing, rest) := ReadHead(pieces[0]);
    var more := Concat(pieces[1..]);
    var whole: Bytes := pieces[0] + more;
    assert Concat(pieces) == whole;
    ReadHeadIsStable(pieces[0], more);
    assert [whole][1..] == [];
    PlainTakesAll(framing, rest, pieces[1..]);
  }

  /** Exactly when the response is that of the uncut stream, for every response. */
  lemma CutsMatterExactly(pieces: seq<Piece>)
    requires pieces != []
    ensures Concat(pieces) != []
    ensures Respond(pieces) == Respond([Concat(pieces)]) <==> CutsAreHarmless(pieces)
  {
    hide StatusLine, ReadFields, Drain, Receive, Search, Plain, TakesAll, Chunked;
    var more := Concat(pieces[1..]);
    assert Concat(pieces) == pieces[0] + more;
    AnswersAHead(pieces);
    AnswersAHead([Concat(pieces)]);
    if !ReadHead(pieces[0]).NoEnd? {
      ReadHeadIsStable(pieces[0], more);
      if ReadHead(pieces[0]).HeadOf? {
        if ReadHead(pieces[0]).framing.chunked {
          ChunkedIgnoresCuts(pieces);
        } else {
          PlainCutsMatter(pieces);
        }
      }
    }
  }

  // ----- the receive buffer -----

  /** The stream in pieces that fill the buffer. */
  function Filled(stream: Bytes): (pieces: seq<Piece>)
    requires stream != []
    ensures pieces != [] && pieces[0] == if |stream| <= BUFFER then stream else stream[..BUFFER]
    decreases |stream|
  {
    if |stream| <= BUFFER then [stream] else [stream[..BUFFER]] + Filled(stream[BUFFER..])
  }

  lemma {:induction false} FilledIs(stream: Bytes)
    requires stream != []
    ensures Fits(Filled(stream)) && Concat(Filled(stream)) == stream
    decreases |stream|
  {
    if |stream| <= BUFFER {
      var one: seq<Bytes> := [stream];
      assert one[1..] == [];
      assert stream + [] == stream;
    } else {
      FilledIs(stream[BUFFER..]);
      assert Filled(stream)[1..] == Filled(stream[BUFFER..]);
      assert stream[..BUFFER] + stream[BUFFER..] == stream;
    }
  }

  lemma AnswersAHead(pieces: seq<Piece>)
    requires pieces != []
    ensures Respond(pieces) == Ok(NOTHING) <==> Search(pieces[0], BLANK) == |pieces[0]|
  {
    hide StatusLine, ReadFields, Drain, Receive, Search, Plain;
  }

  /** A head that is longer than the buffer is lost, however it arrives. */
  lemma LongHeadIsLost(pieces: seq<Piece>)
    requires Fits(pieces) && Search(Concat(pieces), BLANK) + 4 > BUFFER
    ensures Respond(pieces) == Ok(NOTHING)
  {
    hide Respond, Search;
    assert pieces != [];
    AnswersAHead(pieces);
    assert Concat(pieces) == pieces[0] + Concat(pieces[1..]);
    if Search(pieces[0], BLANK) < |pieces[0]| {
      SplitAtFirst(pieces[0], BLANK);
      SearchIsStable(pieces[0], BLANK, Concat(pieces[1..]));
      assert false;
    }
  }

  /** Exactly the heads of at most a buffer can be answered: there are pieces for those, and none for longer ones. */
  lemma HeadMustFit(stream: Bytes)
    requires Search(stream, BLANK) < |stream|
    ensures (exists pieces: seq<Piece> :: Fits(pieces) && Concat(pieces) == stream && Respond(pieces) != Ok(NOTHING)) <==>
            Search(stream, BLANK) + 4 <= BUFFER
  {
    hide Respond, Search;
    if Search(stream, BLANK) + 4 <= BUFFER {
      var pieces := Filled(stream);
      FilledIs(stream);
      AnswersAHead(pieces);
      BlankInPrefix(stream, pieces[0]);
    } else {
      forall pieces: seq<Piece> | Fits(pieces) && Concat(pieces) == stream ensures Respond(pieces) == Ok(NOTHING) {
        LongHeadIsLost(pieces);
      }
    }
  }

  lemma BlankInPrefix(stream: Bytes, first: Bytes)
    requires Search(stream, BLANK) < |stream| && first <= stream && Search(stream, BLANK) + 4 <= |first|
    ensures Search(first, BLANK) < |first|
  {
    hide Search;
    SearchFinds(stream, BLANK);
    var i := Search(stream, BLANK);
    assert first[i..i + 4] == stream[i..i + 4];
    assert OccursAt(first, BLANK, i);
    SearchFinds(first, BLANK);
  }

  // ----- printed responses come back -----

  /** Printed fields that are all understood come back in normal form, with the framing they announce. */
  lemma ReadsPrintedFields(fs: seq<Field>, g: Framing)
    requires fs != [] && forall i :: 0 <= i < |fs| ==> Acceptable(fs[i])
    requires Framed(Normals(fs)) && Announces(Normals(fs), g)
    ensures ReadFields(Lines(fs), Framing(false, None)) == Ok((Normals(fs), g))
  {
    hide ReadFields, Fields, Framed, Announces, Acceptable;
    FieldsRoundTrip(fs);
    FramingExactly(Lines(fs), Normals(fs), g);
  }

  /** A printed head is read back, and everything after the empty line is left for the body. */
  lemma ReadsPrintedHead(st: Status, fs: seq<Field>, g: Framing, rest: Bytes)
    requires Printable(st)
    requires fs != [] && forall i :: 0 <= i < |fs| ==> Acceptable(fs[i])
    requires Framed(Normals(fs)) && Announces(Normals(fs), g)
    ensures ReadHead(MessageHead.Head(StatusText(st), fs, rest)) == HeadOf(st, Normals(fs), g, rest)
  {
    hide ReadHead, StatusText, Acceptable, Normals, Printable, Framed, Announces, ReadFields;
    HeadIsRead(st, fs, rest);
    ReadsPrintedFields(fs, g);
  }

  lemma HeadIsRead(st: Status, fs: seq<Field>, rest: Bytes)
    requires Printable(st)
    requires fs != [] && forall i :: 0 <= i < |fs| ==> Acceptable(fs[i])
    ensures ReadHead(MessageHead.Head(StatusText(st), fs, rest)) ==
            match ReadFields(Lines(fs), Framing(false, None))
            case Ok((fields, framing)) => HeadOf(st, fields, framing, rest)
            case Err(e) => BadHead(e)
  {
    hide MessageHead.Head, Lines, HasBlank, StatusLine, ReadFields, StatusText, Acceptable, Search, Printable;
    var start := StatusText(st);
    StatusTextIsOneLine(st);
    NoReturnNoBlank(start);
    HeadEnds(start, fs, rest);
    assert start + CRLF + Lines(fs) == start + (CRLF + Lines(fs));
    ReadsStatusLine(st, Lines(fs));
  }

  /** A printed head with a field that is not understood makes the whole response an error about the first such field. */
  lemma FaultyHeadIsRefused(st: Status, fs: seq<Field>, first: Bytes, pieces: seq<Piece>)
    requires Printable(st)
    requires fs != [] && forall i :: 0 <= i < |fs| ==> Acceptable(fs[i])
    requires !Framed(Normals(fs))
    ensures MessageHead.Head(StatusText(st), fs, first) != []
    ensures var r := Respond([MessageHead.Head(StatusText(st), fs, first)] + pieces);
            r.Err? && FramingFault(Normals(fs), r.error)
  {
    hide ReadHead, StatusText, Acceptable, Normals, Printable, Framed, FramingFault, ReadFields, Fields, Lines, Announces;
    HeadIsRead(st, fs, first);
    FieldsRoundTrip(fs);
    FramingExactly(Lines(fs), Normals(fs), Framing(false, None));
  }

  /** A printed response whose head is longer than the buffer is lost in all pieces that can arrive. */
  lemma LongPrintedHeadIsLost(st: Status, fs: seq<Field>, rest: Bytes, pieces: seq<Piece>)
    requires Printable(st) && fs != [] && forall i :: 0 <= i < |fs| ==> Acceptable(fs[i])
    requires Fits(pieces) && Concat(pieces) == MessageHead.Head(StatusText(st), fs, rest)
    requires |StatusText(st)| + |Lines(fs)| + 4 > BUFFER
    ensures Respond(pieces) == Ok(NOTHING)
  {
    hide StatusText, Printable, Acceptable, Respond, Search, Lines, MessageHead.Head;
    StatusTextIsOneLine(st);
    NoReturnNoBlank(StatusText(st));
    HeadEnds(StatusText(st), fs, rest);
    LongHeadIsLost(pieces);
  }

  const WHOLE: Piece := "HTTP/1.1 200 OK\r\na: b\r\n\r\n"
  const FIRST: Piece := "HTT"
  const SECOND: Piece := "P/1.1 200 OK\r\na: b\r\n\r\n"
  const FINE: Bytes := "OK"
  const A: Bytes := "a"
  const B: Bytes := "b"

  /** A complete response is answered when it arrives at once, and lost when it is cut inside its head. */
  lemma CutHeadIsLost()
    ensures Respond([WHOLE]) == Ok(Answer(Some(Status(1, 1, 200, FINE)), [Field(A, B)], []))
    ensures WHOLE == FIRST + SECOND && Respond([FIRST, SECOND]) == Ok(NOTHING)
  {
    hide ReadHead;
    ShortHasNoEnd(FIRST);
    WholeIsRead();
    assert [WHOLE][1..] == [];
  }

  lemma WholeIsRead()
    ensures ReadHead(WHOLE) == HeadOf(Status(1, 1, 200, FINE), [Field(A, B)], Framing(false, None), [])
  {
    hide ReadHead, StatusText, Printable, Acceptable, Normals, Framed, Announces, MessageHead.Head;
    WholeIsHead();
    WholeIsAcceptable();
    ReadsPrintedHead(Status(1, 1, 200, FINE), [Field(A, B)], Framing(false, None), []);
  }

  lemma ShortHasNoEnd(s: Bytes)
    ensures |s| < 4 ==> ReadHead(s).NoEnd?
  {
    SearchFinds(s, BLANK);
  }

  lemma WholeIsHead()
    ensures Printable(Status(1, 1, 200, FINE))
    ensures MessageHead.Head(StatusText(Status(1, 1, 200, FINE)), [Field(A, B)], []) == WHOLE
  {
    var one: seq<Field> := [Field(A, B)];
    assert one[1..] == [];
    assert CodeText(200) == ['2', '0', '0'];
    assert Lines(one) == Line(one[0]) + [];
  }

  lemma WholeIsAcceptable()
    ensures Acceptable(Field(A, B)) && Normals([Field(A, B)]) == [Field(A, B)]
    ensures Framed([Field(A, B)]) && Announces([Field(A, B)], Framing(false, None))
  {
    assert Lower(A) == A && Trim(B) == B;
    assert |A| != |TRANSFER_ENCODING| && |A| != |CONTENT_LENGTH|;
  }

  lemma FramingOf(fs: seq<Field>) returns (g: Framing)
    requires Framed(fs)
    ensures Announces(fs, g)
  {
    hide Framed, Has, LengthIs, InterpretAll, FramingFault;
    InterpretAllIs(fs, Framing(false, None));
    g := InterpretAll(fs, Framing(false, None)).value;
  }

  /**
   * End to end: a status line, accepted fields that announce chunked coding, and chunks printed as section 4.1
   * of RFC 7230 says.  However the octets are cut after the head, the loop returns the status, the fields in
   * normal form and the concatenated chunks.  The first piece can hold the head when that fits the receive buffer
   * (`HeadMustFit`).
   */
  lemma ChunkedResponseRoundTrip(st: Status, fs: seq<Field>, datas: seq<Bytes>, tail: Bytes, first: Bytes, pieces: seq<Piece>)
    requires Printable(st)
    requires fs != [] && forall i :: 0 <= i < |fs| ==> Acceptable(fs[i])
    requires Framed(Normals(fs)) && Has(Normals(fs), TRANSFER_ENCODING)
    requires forall i :: 0 <= i < |datas| ==> 0 < |datas[i]| < WORD
    requires first + Concat(pieces) == Message(Sized(datas), Print(0, 16), tail)
    ensures MessageHead.Head(StatusText(st), fs, first) != []
    ensures Respond([MessageHead.Head(StatusText(st), fs, first)] + pieces) ==
            Ok(Answer(Some(st), Normals(fs), Concat(datas)))
  {
    hide StatusText, Acceptable, Printable, Normals, Lines, Receive, Drain, ReadHead, Message, Sized, Print, Framed, Has, LengthIs;
    var head := MessageHead.Head(StatusText(st), fs, first);
    var g := FramingOf(Normals(fs));
    ReadsPrintedHead(st, fs, g, first);
    var all: seq<Bytes> := [head] + pieces;
    assert all[1..] == pieces;
    var cut: seq<Bytes> := [first] + pieces;
    assert cut[1..] == pieces;
    assert Concat(cut) == first + Concat(pieces);
    ChunkedRoundTrip(datas, tail, cut);
  }

  /** A chunked body that is malformed after some whole chunks is an error that names the fault, however it is cut. */
  lemma FaultyChunksAreRefused(st: Status, fs: seq<Field>, chunks: seq<Chunk>, fault: Fault, first: Bytes, pieces: seq<Piece>)
    requires Printable(st)
    requires fs != [] && forall i :: 0 <= i < |fs| ==> Acceptable(fs[i])
    requires Framed(Normals(fs)) && Has(Normals(fs), TRANSFER_ENCODING)
    requires WellFormed(chunks) && fault.Valid() && first + Concat(pieces) == Wire(chunks) + fault.Text()
    ensures MessageHead.Head(StatusText(st), fs, first) != []
    ensures Respond([MessageHead.Head(StatusText(st), fs, first)] + pieces) ==
            Err(if fault.BadSize? then "Invalid hex digit" else "Invalid chunk")
  {
    hide StatusText, Acceptable, Printable, Normals, Lines, Receive, ReadHead, Wire, Framed, Has, LengthIs, WellFormed;
    var head := MessageHead.Head(StatusText(st), fs, first);
    var g := FramingOf(Normals(fs));
    ReadsPrintedHead(st, fs, g, first);
    var all: seq<Bytes> := [head] + pieces;
    assert all[1..] == pieces;
    var cut: seq<Bytes> := [first] + pieces;
    assert cut[1..] == pieces;
    assert Concat(cut) == first + Concat(pieces);
    FaultIsFound(chunks, fault, cut);
  }

  // ----- the length-delimited body -----

  /** The loop keeps whole pieces: it stops after the first one that reaches the announced length. */
  lemma {:induction false} PlainTakesWholePieces(length: Option<nat>, body: Bytes, pieces: seq<Bytes>) returns (k: nat)
    ensures k <= |pieces| && Plain(length, body, pieces) == body + Concat(pieces[..k])
    ensures k < |pieces| ==> length.Some? && |body + Concat(pieces[..k])| >= length.value
    ensures forall j :: 0 <= j < k ==> !(length.Some? && |body + Concat(pieces[..j])| >= length.value)
    decreases |pieces|
  {
    if pieces == [] || (length.Some? && |body| >= length.value) {
      k := 0;
      assert pieces[..0] == [];
      assert body + [] == body;
    } else {
      var m := PlainTakesWholePieces(length, body + pieces[0], pieces[1..]);
      k := m + 1;
      forall j | 0 < j <= k ensures body + Concat(pieces[..j]) == (body + pieces[0]) + Concat(pieces[1..][..j - 1]) {
        assert pieces[..j][1..] == pieces[1..][..j - 1];
      }
      assert pieces[..0] == [];
    }
  }

  lemma {:induction false} ConcatGrows(pieces: seq<Bytes>, j: nat, k: nat)
    requires j <= k <= |pieces|
    ensures Concat(pieces[..j]) <= Concat(pieces[..k])
    decreases |pieces|
  {
    if j > 0 {
      assert pieces[..j][1..] == pieces[1..][..j - 1] && pieces[..k][1..] == pieces[1..][..k - 1];
      ConcatGrows(pieces[1..], j - 1, k - 1);
    }
  }

  /** A body of exactly the announced length comes back whole, however it is cut. */
  lemma PlainIsExact(length: nat, body: Bytes, pieces: seq<Bytes>)
    requires |body + Concat(pieces)| == length
    ensures Plain(Some(length), body, pieces) == body + Concat(pieces)
  {
    hide Plain;
    var k := PlainTakesWholePieces(Some(length), body, pieces);
    assert pieces[..|pieces|] == pieces;
    ConcatGrows(pieces, k, |pieces|);
  }

  /**
   * End to end for a body of the announced length: it comes back whole, however it is cut after the head, which
   * again has to fit the receive buffer.
   */
  lemma LengthResponseRoundTrip(st: Status, fs: seq<Field>, first: Bytes, pieces: seq<Piece>)
    requires Printable(st)
    requires fs != [] && forall i :: 0 <= i < |fs| ==> Acceptable(fs[i])
    requires Framed(Normals(fs)) && !Has(Normals(fs), TRANSFER_ENCODING)
    requires LengthIs(Normals(fs), |first + Concat(pieces)|)
    ensures MessageHead.Head(StatusText(st), fs, first) != []
    ensures Respond([MessageHead.Head(StatusText(st), fs, first)] + pieces) ==
            Ok(Answer(Some(st), Normals(fs), first + Concat(pieces)))
  {
    hide StatusText, Acceptable, Printable, Framed, Has, LengthIs, Normals, Lines, Plain, ReadHead;
    var head := MessageHead.Head(StatusText(st), fs, first);
    LengthIsThere(Normals(fs), |first + Concat(pieces)|);
    ReadsPrintedHead(st, fs, Framing(false, Some(|first + Concat(pieces)|)), first);
    var all: seq<Bytes> := [head] + pieces;
    assert all[1..] == pieces;
    PlainIsExact(|first + Concat(pieces)|, first, pieces);
  }

  /** With neither a transfer coding nor a length, everything up to the disconnect is the body. */
  lemma CloseResponseRoundTrip(st: Status, fs: seq<Field>, first: Bytes, pieces: seq<Piece>)
    requires Printable(st)
    requires fs != [] && forall i :: 0 <= i < |fs| ==> Acceptable(fs[i])
    requires !Has(Normals(fs), TRANSFER_ENCODING) && !Has(Normals(fs), CONTENT_LENGTH)
    ensures MessageHead.Head(StatusText(st), fs, first) != []
    ensures Respond([MessageHead.Head(StatusText(st), fs, first)] + pieces) ==
            Ok(Answer(Some(st), Normals(fs), first + Concat(pieces)))
  {
    hide StatusText, Acceptable, Printable, LengthIs, Normals, Lines, Plain, ReadHead;
    var head := MessageHead.Head(StatusText(st), fs, first);
    ReadsPrintedHead(st, fs, Framing(false, None), first);
    var all: seq<Bytes> := [head] + pieces;
    assert all[1..] == pieces;
    var k := PlainTakesWholePieces(None, first, pieces);
    assert pieces[..k] == pieces;
  }

  /**
   * When more octets than announced arrive, the body has the announced length exactly when some cut falls
   * there; otherwise the loop returns the octets behind it too.
   */
  lemma PlainLengthNeedsCut(length: nat, body: Bytes, pieces: seq<Bytes>)
    requires |body + Concat(pieces)| >= length
    ensures |Plain(Some(length), body, pieces)| == length <==>
            exists j :: 0 <= j <= |pieces| && |body + Concat(pieces[..j])| == length
  {
    hide Plain;
    var k := PlainTakesWholePieces(Some(length), body, pieces);
    assert pieces[..|pieces|] == pieces;
    if j :| 0 <= j <= |pieces| && |body + Concat(pieces[..j])| == length {
      assert j >= k;
      ConcatGrows(pieces, k, j);
      if k == |pieces| {
        assert j == k;
      }
    }
  }

  /**
   * The same for responses: with a printed head that announces `length`, the body has that length exactly when
   * some cut falls there.
   */
  lemma LengthNeedsCut(st: Status, fs: seq<Field>, length: nat, first: Bytes, pieces: seq<Piece>)
    requires Printable(st)
    requires fs != [] && forall i :: 0 <= i < |fs| ==> Acceptable(fs[i])
    requires Framed(Normals(fs)) && !Has(Normals(fs), TRANSFER_ENCODING)
    requires LengthIs(Normals(fs), length)
    requires |first + Concat(pieces)| >= length
    ensures MessageHead.Head(StatusText(st), fs, first) != []
    ensures var r := Respond([MessageHead.Head(StatusText(st), fs, first)] + pieces);
            && r.Ok? && r.value.status == Some(st) && r.value.fields == Normals(fs)
            && (|r.value.body| == length <==> exists j :: 0 <= j <= |pieces| && |first + Concat(pieces[..j])| == length)
  {
    hide StatusText, Acceptable, Printable, Framed, Has, LengthIs, Normals, Lines, Plain, ReadHead;
    var head := MessageHead.Head(StatusText(st), fs, first);
    LengthIsThere(Normals(fs), length);
    ReadsPrintedHead(st, fs, Framing(false, Some(length)), first);
    var all: seq<Bytes> := [head] + pieces;
    assert all[1..] == pieces;
    PlainLengthNeedsCut(length, first, pieces);
  }

  const ONE: Bytes := "1"
  const ONE_OCTET := [Field(CONTENT_LENGTH, ONE)]

  lemma OneIsAnnounced()
    ensures Acceptable(ONE_OCTET[0]) && Normals(ONE_OCTET) == ONE_OCTET
    ensures Framed(ONE_OCTET) && Announces(ONE_OCTET, Framing(false, Some(1)))
  {
    assert Lower(CONTENT_LENGTH) == CONTENT_LENGTH && Trim(ONE) == ONE;
    NamesDiffer();
    assert ONE[..0] == [] && Value(ONE, 10) == 1;
    assert LastLength(ONE_OCTET, 0);
  }

  /** A response that announces one octet and arrives with two comes back with both. */
  lemma LengthIsExceeded(a: byte, b: byte)
    ensures Printable(Status(1, 1, 200, FINE))
    ensures var head := MessageHead.Head(StatusText(Status(1, 1, 200, FINE)), ONE_OCTET, [a, b]);
            head != [] && Respond([head]) == Ok(Answer(Some(Status(1, 1, 200, FINE)), ONE_OCTET, [a, b]))
  {
    hide StatusText, Acceptable, Framed, Announces, Normals, Lines, ReadHead;
    var st := Status(1, 1, 200, FINE);
    OneIsAnnounced();
    ReadsPrintedHead(st, ONE_OCTET, Framing(false, Some(1)), [a, b]);
    var head := MessageHead.Head(StatusText(st), ONE_OCTET, [a, b]);
    var one: seq<Bytes> := [head];
    assert one[1..] == [];
  }
}
