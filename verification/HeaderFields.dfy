/** Header fields of HTTP/1.1 messages: the printer and the parser with obsolete folding (section 3.2 of RFC 7230). */
module HeaderFields {
  import opened Bytes

  datatype Field = Field(name: Bytes, value: Bytes)

  // ----- character classes -----

  datatype CharClass = White | Digits | Token | FieldText | SchemeText

  predicate IsDigitChar(c: byte) { '0' <= c <= '9' }

  predicate IsAlphaChar(c: byte) { 'a' <= c <= 'z' || 'A' <= c <= 'Z' }

  predicate IsWhite(c: byte) { c == ' ' || c == '\t' }

  predicate IsTokenChar(c: byte) {
    || c == '!' || '#' <= c <= '\'' || c == '*' || c == '+' || c == '-' || c == '.' || '^' <= c <= '`'
    || c == '|' || c == '~' || IsDigitChar(c) || IsAlphaChar(c)
  }

  /** White space, visible characters and obsolete text: what a field value may hold. */
  predicate IsFieldChar(c: byte) { IsWhite(c) || '!' <= c <= '~' || 0x80 <= c as int }

  /** What a URI scheme may hold. */
  predicate IsSchemeChar(c: byte) { IsAlphaChar(c) || IsDigitChar(c) || c == '+' || c == '-' || c == '.' }

  predicate Is(c: byte, cls: CharClass) {
    match cls
    case White => IsWhite(c)
    case Digits => IsDigitChar(c)
    case Token => IsTokenChar(c)
    case FieldText => IsFieldChar(c)
    case SchemeText => IsSchemeChar(c)
  }

  predicate AllAre(s: Bytes, cls: CharClass) {
    forall i :: 0 <= i < |s| ==> Is(s[i], cls)
  }

  predicate Capital(c: byte) {
    65 <= c as int <= 90
  }

  /** `t` is `s` with every capital letter replaced by its small letter, 32 places further, and nothing else. */
  predicate SmallLetters(s: Bytes, t: Bytes) {
    |t| == |s| && forall i :: 0 <= i < |s| ==> t[i] as int == s[i] as int + if Capital(s[i]) then 32 else 0
  }

  function LowerChar(c: byte): byte {
    if 'A' <= c <= 'Z' then (c as int - 'A' as int + 'a' as int) as char else c
  }

  function Lower(s: Bytes): (t: Bytes)
    ensures |t| == |s| && forall i :: 0 <= i < |s| ==> t[i] == LowerChar(s[i])
  {
    seq(|s|, i requires 0 <= i < |s| => LowerChar(s[i]))
  }

  lemma LowerCharIs(c: byte)
    ensures !Capital(LowerChar(c)) && LowerChar(c) as int == c as int + if Capital(c) then 32 else 0
  {
  }

  lemma LowerIs(s: Bytes)
    ensures SmallLetters(s, Lower(s))
    ensures forall i :: 0 <= i < |s| ==> !Capital(Lower(s)[i])
  {
    hide LowerChar, Capital;
    forall i | 0 <= i < |s|
      ensures !Capital(Lower(s)[i]) && Lower(s)[i] as int == s[i] as int + if Capital(s[i]) then 32 else 0
    {
      LowerCharIs(s[i]);
    }
  }

  /** Equal up to the case of their letters. */
  predicate SameButCase(a: Bytes, b: Bytes) {
    |a| == |b| && forall i :: 0 <= i < |a| ==>
      || a[i] == b[i]
      || (Capital(a[i]) && b[i] as int == a[i] as int + 32)
      || (Capital(b[i]) && a[i] as int == b[i] as int + 32)
  }

  lemma CaseIsDropped(a: Bytes, b: Bytes)
    ensures Lower(a) == Lower(b) <==> SameButCase(a, b)
  {
    hide Lower, LowerChar;
    LowerIs(a);
    LowerIs(b);
    if Lower(a) == Lower(b) {
      assert forall i :: 0 <= i < |a| ==> Lower(a)[i] == Lower(b)[i];
    } else if SameButCase(a, b) {
      forall i | 0 <= i < |a| ensures Lower(a)[i] == Lower(b)[i] {
        assert Lower(a)[i] as int == Lower(b)[i] as int;
      }
    }
  }

  // ----- scanning -----

  /** The length of the longest prefix in one character class. */
  function Span(s: Bytes, cls: CharClass): (n: nat)
    ensures n <= |s|
  {
    if s == [] || !Is(s[0], cls) then 0 else 1 + Span(s[1..], cls)
  }

  lemma {:induction false} SpanIsLongest(s: Bytes, cls: CharClass)
    ensures AllAre(s[..Span(s, cls)], cls)
    ensures Span(s, cls) < |s| ==> !Is(s[Span(s, cls)], cls)
  {
    if s != [] && Is(s[0], cls) {
      SpanIsLongest(s[1..], cls);
      assert s[..Span(s, cls)] == [s[0]] + s[1..][..Span(s[1..], cls)];
    }
  }

  function Skip(s: Bytes, cls: CharClass): (t: Bytes)
    ensures |t| <= |s|
  {
    s[Span(s, cls)..]
  }

  lemma {:induction false} SpanIs(run: Bytes, rest: Bytes, cls: CharClass)
    requires AllAre(run, cls) && (rest == [] || !Is(rest[0], cls))
    ensures Span(run + rest, cls) == |run|
    ensures (run + rest)[..|run|] == run && Skip(run + rest, cls) == rest
  {
    if run == [] {
      assert run + rest == rest;
    } else {
      assert (run + rest)[0] == run[0] && (run + rest)[1..] == run[1..] + rest;
      SpanIs(run[1..], rest, cls);
    }
  }

  function TrimRight(s: Bytes): (t: Bytes) {
    if s == [] || !Is(s[|s| - 1], White) then s else TrimRight(s[..|s| - 1])
  }

  lemma {:induction false} TrimRightDropsWhite(s: Bytes)
    ensures TrimRight(s) <= s && AllAre(s[|TrimRight(s)|..], White)
    ensures TrimRight(s) == [] || !Is(TrimRight(s)[|TrimRight(s)| - 1], White)
  {
    if s != [] && Is(s[|s| - 1], White) {
      var t := TrimRight(s);
      TrimRightDropsWhite(s[..|s| - 1]);
      assert s[|t|..] == s[..|s| - 1][|t|..] + [s[|s| - 1]];
    }
  }

  /** Drop white space at both ends. */
  function Trim(s: Bytes): Bytes {
    TrimRight(Skip(s, White))
  }

  // ----- the parsers, on the octets from the current position: the value and what is left -----

  function FieldValue(s: Bytes): (r: (Bytes, Bytes))
    ensures |r.1| <= |s|
  {
    (TrimRight(s[..Span(s, FieldText)]), Skip(s, FieldText))
  }

  /** A line end followed by white space folds the next line into the value. */
  predicate StartsWithFold(s: Bytes) {
    |s| >= 3 && s[0] == '\r' && s[1] == '\n' && Is(s[2], White)
  }

  function FieldContent(s: Bytes): (r: (Bytes, Bytes))
    ensures |r.1| <= |s|
    decreases |s|
  {
    var (v, t) := FieldValue(s);
    if StartsWithFold(t) then
      var (w, u) := FieldContent(t[3..]);
      (v + SPACE + w, u)
    else (v, t)
  }

  function HeaderField(s: Bytes): (r: Result<(Field, Bytes)>)
    ensures r.Ok? ==> |r.value.1| < |s|
  {
    var n := Span(s, Token);
    if n == 0 then Err("Invalid token")
    else if n == |s| || s[n] != ':' then Err("Invalid header")
    else AfterColon(Lower(s[..n]), Skip(s[n + 1..], White))
  }

  function AfterColon(name: Bytes, s: Bytes): (r: Result<(Field, Bytes)>)
    ensures r.Ok? ==> |r.value.1| < |s|
  {
    var (v, t) := FieldContent(s);
    if |t| >= 2 && t[0] == '\r' && t[1] == '\n' then Ok((Field(name, v), t[2..])) else Err("Invalid header")
  }

  /** `parseHeaderField` iterated until the range is used up; at least one field is demanded. */
  function Fields(s: Bytes): Result<seq<Field>>
    decreases |s|
  {
    match HeaderField(s)
    case Err(e) => Err(e)
    case Ok((f, rest)) =>
      if rest == [] then Ok([f])
      else
        match Fields(rest)
        case Err(e) => Err(e)
        case Ok(fs) => Ok([f] + fs)
  }

  // ----- the loops of the source, proved against those functions -----

  method SkipWhiteSpaces(s: Bytes, begin: nat) returns (i: nat)
    requires begin <= |s|
    ensures i <= |s| && s[i..] == Skip(s[begin..], White)
  {
    i := begin;
    while i < |s| && Is(s[i], White)
      invariant begin <= i <= |s|
      invariant AllAre(s[begin..i], White)
    {
      assert s[begin..i + 1] == s[begin..i] + [s[i]];
      i := i + 1;
    }
    assert s[begin..] == s[begin..i] + s[i..];
    SpanIs(s[begin..i], s[i..], White);
  }

  method ParseToken(s: Bytes, begin: nat) returns (r: Result<(nat, Bytes)>)
    requires begin <= |s|
    ensures var n := Span(s[begin..], Token);
            r == if n == 0 then Err("Invalid token") else Ok((begin + n, s[begin..begin + n]))
  {
    var result: Bytes := [];
    var i := begin;
    while i < |s| && Is(s[i], Token)
      invariant begin <= i <= |s|
      invariant result == s[begin..i] && AllAre(result, Token)
    {
      result := result + [s[i]];
      i := i + 1;
    }
    assert s[begin..] == result + s[i..];
    SpanIs(result, s[i..], Token);
    if result == [] {
      return Err("Invalid token");
    }
    return Ok((i, result));
  }

  lemma {:induction false} TrimRightIs(s: Bytes, n: nat)
    requires n <= |s| && AllAre(s[n..], White) && (n == 0 || !Is(s[n - 1], White))
    ensures TrimRight(s) == s[..n]
  {
    if n == |s| {
      assert s[..n] == s;
    } else {
      var t := s[..|s| - 1];
      assert s[n..][|s| - 1 - n] == s[|s| - 1];
      forall i | 0 <= i < |t[n..]| ensures Is(t[n..][i], White) { assert t[n..][i] == s[n..][i]; }
      TrimRightIs(t, n);
    }
  }

  method ParseFieldValue(s: Bytes, begin: nat) returns (i: nat, result: Bytes)
    requires begin <= |s|
    ensures i <= |s| && (result, s[i..]) == FieldValue(s[begin..])
  {
    result := [];
    i := begin;
    while i < |s| && Is(s[i], FieldText)
      invariant begin <= i <= |s|
      invariant result == s[begin..i] && AllAre(result, FieldText)
    {
      result := result + [s[i]];
      i := i + 1;
    }
    ghost var whole := result;
    assert s[begin..] == whole + s[i..];
    SpanIs(whole, s[i..], FieldText);
    while result != [] && Is(result[|result| - 1], White)
      invariant result <= whole && AllAre(whole[|result|..], White)
    {
      result := result[..|result| - 1];
    }
    TrimRightIs(whole, |result|);
    assert result == whole[..|result|];
    assert s[begin..][..Span(s[begin..], FieldText)] == whole;
  }

  method ParseFieldContent(s: Bytes, begin: nat) returns (i: nat, result: Bytes)
    requires begin <= |s|
    ensures i <= |s| && (result, s[i..]) == FieldContent(s[begin..])
  {
    hide FieldValue, Is;
    result := [];
    i := begin;
    ghost var (value, rest) := FieldContent(s[begin..]);
    assert result + value == value;
    while true
      invariant begin <= i <= |s|
      invariant rest == FieldContent(s[i..]).1 && value == result + FieldContent(s[i..]).0
      decreases |s| - i
    {
      ghost var from := s[i..];
      ghost var before := result;
      var j, v := ParseFieldValue(s, i);
      result := result + v;
      assert StartsWithFold(s[j..]) == (j + 2 < |s| && s[j] == '\r' && s[j + 1] == '\n' && Is(s[j + 2], White));
      if j + 2 < |s| && s[j] == '\r' && s[j + 1] == '\n' && Is(s[j + 2], White) {
        assert s[j..][3..] == s[j + 3..];
        result := result + SPACE;
        i := j + 3;
        assert |s[j..]| <= |from|;
        assert before + (v + SPACE + FieldContent(s[i..]).0) == result + FieldContent(s[i..]).0;
      } else {
        i := j;
        return;
      }
    }
  }

  method LowerCase(s: Bytes) returns (t: Bytes)
    ensures t == Lower(s) && SmallLetters(s, t)
    ensures forall i :: 0 <= i < |t| ==> !Capital(t[i])
  {
    hide LowerChar, Capital, SmallLetters;
    t := s;
    var i := 0;
    while i < |t|
      invariant 0 <= i <= |t| == |s|
      invariant forall k :: 0 <= k < |s| ==> t[k] == if k < i then LowerChar(s[k]) else s[k]
    {
      t := t[i := LowerChar(t[i])];
      i := i + 1;
    }
    assert t == Lower(s);
    LowerIs(s);
  }

  lemma HeaderFieldAt(s: Bytes, begin: nat)
    requires begin <= |s|
    ensures var i := begin + Span(s[begin..], Token);
            HeaderField(s[begin..]) == if i == begin then Err("Invalid token")
                                       else if i == |s| || s[i] != ':' then Err("Invalid header")
                                       else AfterColon(Lower(s[begin..i]), Skip(s[i + 1..], White))
  {
    hide Span, Skip, AfterColon;
    var t := s[begin..];
    var i := begin + Span(t, Token);
    assert t[..i - begin] == s[begin..i];
    assert i < |s| ==> t[i - begin] == s[i] && t[i - begin + 1..] == s[i + 1..];
  }

  lemma AfterColonAt(s: Bytes, name: Bytes, from: Bytes, e: nat, value: Bytes)
    requires e <= |s| && FieldContent(from) == (value, s[e..])
    ensures AfterColon(name, from) == if e + 2 <= |s| && s[e] == '\r' && s[e + 1] == '\n'
                                      then Ok((Field(name, value), s[e + 2..])) else Err("Invalid header")
  {
    assert e + 2 <= |s| ==> s[e..][2..] == s[e + 2..];
  }

  method ParseHeaderField(s: Bytes, begin: nat) returns (r: Result<(nat, Field)>)
    requires begin <= |s|
    ensures match HeaderField(s[begin..])
            case Ok((f, rest)) => r.Ok? && r.value.1 == f && begin < r.value.0 <= |s| && s[r.value.0..] == rest
            case Err(e) => r == Err(e)
    ensures r.Ok? ==>
            var (name, n) := (r.value.1.name, begin + |r.value.1.name|);
            n < |s| && s[n] == ':' && SmallLetters(s[begin..n], name) && forall i :: 0 <= i < |name| ==> !Capital(name[i])
  {
    hide HeaderField, AfterColon, FieldContent, Span, Skip, SmallLetters;
    HeaderFieldAt(s, begin);
    var token := ParseToken(s, begin);
    if token.Err? {
      return Err(token.error);
    }
    var (i, name) := token.value;
    var fieldName := LowerCase(name);
    if i == |s| || s[i] != ':' {
      return Err("Invalid header");
    }
    var start := SkipWhiteSpaces(s, i + 1);
    assert |s[start..]| <= |s[i + 1..]|;
    var e, value := ParseFieldContent(s, start);
    assert |s[e..]| <= |s[start..]|;
    AfterColonAt(s, fieldName, s[start..], e, value);
    if e + 2 <= |s| && s[e] == '\r' && s[e + 1] == '\n' {
      return Ok((e + 2, Field(fieldName, value)));
    }
    return Err("Invalid header");
  }

  // ----- the printer -----

  predicate Acceptable(f: Field) {
    f.name != [] && AllAre(f.name, Token) && AllAre(f.value, FieldText)
  }

  function Line(f: Field): Bytes {
    f.name + COLON + SPACE + f.value + CRLF
  }

  function Lines(fs: seq<Field>): Bytes {
    if fs == [] then [] else Line(fs[0]) + Lines(fs[1..])
  }

  lemma LinesSnoc(fs: seq<Field>, f: Field)
    ensures Lines(fs + [f]) == Lines(fs) + Line(f)
  {
    if fs == [] {
      assert [f][1..] == [];
      assert Lines([f]) == Line(f) + [] == Line(f);
    } else {
      assert (fs + [f])[1..] == fs[1..] + [f];
      LinesSnoc(fs[1..], f);
    }
  }

  /** The message for the first field that may not be printed. */
  ghost predicate FirstFault(fs: seq<Field>, error: string) {
    exists i ::
      && 0 <= i < |fs| && !Acceptable(fs[i]) && (forall j :: 0 <= j < i ==> Acceptable(fs[j]))
      && error == if fs[i].name != [] && AllAre(fs[i].name, Token) then "Invalid header field value"
                  else "Invalid header field name"
  }

  /** `encodeHeaderFields`: throws on the first name or value with a character it may not hold. */
  method EncodeHeaderFields(fs: seq<Field>) returns (r: Result<Bytes>)
    ensures r.Ok? <==> forall i :: 0 <= i < |fs| ==> Acceptable(fs[i])
    ensures r.Ok? ==> r.value == Lines(fs)
    ensures r.Err? ==> FirstFault(fs, r.error)
  {
    hide Lines, Line, AllAre;
    var result: Bytes := [];
    assert fs[..0] == [] && Lines([]) == [] by { NoLines(); }
    for i := 0 to |fs|
      invariant result == Lines(fs[..i])
      invariant forall j :: 0 <= j < i ==> Acceptable(fs[j])
    {
      if fs[i].name == [] {
        return Err("Invalid header field name");
      }
      var ok := CheckEach(fs[i].name, Token);
      if !ok {
        return Err("Invalid header field name");
      }
      ok := CheckEach(fs[i].value, FieldText);
      if !ok {
        return Err("Invalid header field value");
      }
      LinesSnoc(fs[..i], fs[i]);
      LineIs(fs[i]);
      result := result + (fs[i].name + ": " + fs[i].value + "\r\n");
      assert fs[..i + 1] == fs[..i] + [fs[i]];
    }
    assert fs[..|fs|] == fs;
    return Ok(result);
  }

  lemma LineIs(f: Field)
    ensures Line(f) == f.name + ": " + f.value + "\r\n"
  {
    assert f.name + COLON + SPACE == f.name + ": ";
  }

  /** The loops over the characters of a name or a value. */
  method CheckEach(s: Bytes, cls: CharClass) returns (ok: bool)
    ensures ok <==> AllAre(s, cls)
  {
    hide Is;
    for k := 0 to |s|
      invariant AllAre(s[..k], cls)
    {
      if !Is(s[k], cls) {
        return false;
      }
      assert s[..k + 1] == s[..k] + [s[k]];
    }
    assert s[..|s|] == s;
    return true;
  }

  lemma NoLines()
    ensures Lines([]) == []
  {
  }

  // ----- exactly which texts parse, and to what -----

  /** A continuation line of a folded value: the white space that makes it one, and its text. */
  datatype Continuation = Continuation(white: byte, text: Bytes)

  predicate Foldable(conts: seq<Continuation>) {
    forall i :: 0 <= i < |conts| ==> Is(conts[i].white, White) && AllAre(conts[i].text, FieldText)
  }

  /** A value of one line or several, followed by `rest`. */
  function Folded(first: Bytes, conts: seq<Continuation>, rest: Bytes): Bytes
    decreases |conts|
  {
    first + if conts == [] then rest else CRLF + ([conts[0].white] + Folded(conts[0].text, conts[1..], rest))
  }

  /** Each fold reads as one space; white space before a line end is dropped. */
  function Unfolded(first: Bytes, conts: seq<Continuation>): Bytes
    decreases |conts|
  {
    if conts == [] then TrimRight(first) else TrimRight(first) + SPACE + Unfolded(conts[0].text, conts[1..])
  }

  /** What follows a field: the end, or something that does not look like one more fold. */
  predicate EndsField(rest: Bytes) {
    rest == [] || !Is(rest[0], White)
  }

  lemma ContentStep(first: Bytes, more: Bytes)
    requires AllAre(first, FieldText) && (more == [] || !Is(more[0], FieldText))
    ensures FieldContent(first + more) ==
            if StartsWithFold(more) then
              (TrimRight(first) + SPACE + FieldContent(more[3..]).0, FieldContent(more[3..]).1)
            else (TrimRight(first), more)
  {
    SpanIs(first, more, FieldText);
  }

  lemma {:induction false} ContentOfFolded(first: Bytes, conts: seq<Continuation>, rest: Bytes)
    requires AllAre(first, FieldText) && Foldable(conts)
    requires rest != [] && !Is(rest[0], FieldText) && !StartsWithFold(rest)
    ensures FieldContent(Folded(first, conts, rest)) == (Unfolded(first, conts), rest)
    decreases |conts|
  {
    if conts == [] {
      ContentStep(first, rest);
    } else {
      var tail := Folded(conts[0].text, conts[1..], rest);
      var more := CRLF + ([conts[0].white] + tail);
      assert more[3..] == tail;
      ContentStep(first, more);
      ContentOfFolded(conts[0].text, conts[1..], rest);
    }
  }

  lemma FoldedCons(first: Bytes, white: byte, text: Bytes, conts: seq<Continuation>, rest: Bytes)
    ensures var all := [Continuation(white, text)] + conts;
            && Folded(first, all, rest) == first + (CRLF + ([white] + Folded(text, conts, rest)))
            && Unfolded(first, all) == TrimRight(first) + SPACE + Unfolded(text, conts)
  {
    assert ([Continuation(white, text)] + conts)[1..] == conts;
  }

  lemma FoldedNil()
    ensures forall first: Bytes, rest: Bytes ::
              Folded(first, [], rest) == first + rest && Unfolded(first, []) == TrimRight(first)
  {
  }

  lemma SplitSpan(s: Bytes, cls: CharClass) returns (run: Bytes, rest: Bytes)
    ensures s == run + rest && AllAre(run, cls) && (rest == [] || !Is(rest[0], cls))
    ensures run == s[..Span(s, cls)] && rest == Skip(s, cls)
  {
    SpanIsLongest(s, cls);
    run, rest := s[..Span(s, cls)], Skip(s, cls);
  }

  lemma {:induction false} ContentWasFolded(s: Bytes) returns (first: Bytes, conts: seq<Continuation>, rest: Bytes)
    ensures AllAre(first, FieldText) && Foldable(conts) && !StartsWithFold(rest)
    ensures s == Folded(first, conts, rest) && FieldContent(s) == (Unfolded(first, conts), rest)
    decreases |s|
  {
    hide FieldContent, Is, Folded, Unfolded;
    FoldedNil();
    var more;
    first, more := SplitSpan(s, FieldText);
    ContentStep(first, more);
    if StartsWithFold(more) {
      var white, text, cs := more[2], [], [];
      text, cs, rest := ContentWasFolded(more[3..]);
      conts := [Continuation(white, text)] + cs;
      FoldedCons(first, white, text, cs, rest);
      assert more == CRLF + ([white] + more[3..]);
    } else {
      conts, rest := [], more;
    }
  }

  /** A header field as transmitted: a name, optional white space, and a value with any folds. */
  datatype Transmitted = Transmitted(name: Bytes, pad: Bytes, first: Bytes, conts: seq<Continuation>) {
    predicate Valid() {
      && name != [] && AllAre(name, Token) && AllAre(pad, White)
      && AllAre(first, FieldText) && EndsField(first)
      && Foldable(conts)
    }

    function Text(rest: Bytes): Bytes {
      name + (COLON + (pad + Folded(first, conts, CRLF + rest)))
    }

    function Read(): Field {
      Field(Lower(name), Unfolded(first, conts))
    }
  }

  lemma HeaderFieldStep(name: Bytes, pad: Bytes, content: Bytes)
    requires name != [] && AllAre(name, Token) && AllAre(pad, White) && EndsField(content)
    ensures HeaderField(name + (COLON + (pad + content))) == AfterColon(Lower(name), content)
  {
    var s := name + (COLON + (pad + content));
    SpanIs(name, COLON + (pad + content), Token);
    assert s[|name| + 1..] == pad + content;
    SpanIs(pad, content, White);
  }

  lemma FoldedStart(first: Bytes, conts: seq<Continuation>, rest: Bytes)
    requires EndsField(first)
    ensures EndsField(Folded(first, conts, CRLF + rest))
  {
    var s := Folded(first, conts, CRLF + rest);
    assert s[0] == if first != [] then first[0] else '\r';
  }

  lemma ParsesTransmitted(t: Transmitted, rest: Bytes)
    requires t.Valid() && EndsField(rest)
    ensures HeaderField(t.Text(rest)) == Ok((t.Read(), rest))
  {
    hide HeaderField, FieldContent, Folded, Unfolded;
    var content := Folded(t.first, t.conts, CRLF + rest);
    FoldedStart(t.first, t.conts, rest);
    HeaderFieldStep(t.name, t.pad, content);
    ContentOfFolded(t.first, t.conts, CRLF + rest);
    assert (CRLF + rest)[2..] == rest;
  }

  /** A field that parses has a name, a colon and white space before its content. */
  lemma HeaderWasRead(s: Bytes) returns (name: Bytes, pad: Bytes, content: Bytes)
    requires HeaderField(s).Ok?
    ensures name != [] && AllAre(name, Token) && AllAre(pad, White) && EndsField(content)
    ensures s == name + (COLON + (pad + content)) && HeaderField(s) == AfterColon(Lower(name), content)
  {
    hide Is, AfterColon;
    var afterName, u;
    name, afterName := SplitSpan(s, Token);
    u := s[|name| + 1..];
    assert afterName == s[|name|..] == COLON + u;
    pad, content := SplitSpan(u, White);
  }

  lemma ParsedWasTransmitted(s: Bytes) returns (t: Transmitted, rest: Bytes)
    requires HeaderField(s).Ok?
    ensures t.Valid() && EndsField(rest) && s == t.Text(rest) && HeaderField(s) == Ok((t.Read(), rest))
  {
    hide HeaderField, FieldContent, Unfolded, IsTokenChar, IsFieldChar;
    var name, pad, content := HeaderWasRead(s);
    var first, conts, tail := ContentWasFolded(content);
    t, rest := Transmitted(name, pad, first, conts), tail[2..];
    assert tail == CRLF + rest;
    assert first != [] ==> content[0] == first[0];
  }

  /** The language of the parser: it reads exactly the transmitted fields, and reads each one as its unfolded value. */
  lemma ParsesExactly(s: Bytes, f: Field, rest: Bytes)
    ensures HeaderField(s) == Ok((f, rest)) <==>
            exists t: Transmitted :: t.Valid() && EndsField(rest) && s == t.Text(rest) && f == t.Read()
  {
    if HeaderField(s) == Ok((f, rest)) {
      var t, r := ParsedWasTransmitted(s);
    }
    forall t: Transmitted | t.Valid() && EndsField(rest) && s == t.Text(rest) && f == t.Read()
      ensures HeaderField(s) == Ok((f, rest))
    {
      ParsesTransmitted(t, rest);
    }
  }

  /** The two errors: no name at all, or a name that is not followed by a colon, a value and a line end. */
  lemma RefusesExactly(s: Bytes)
    ensures HeaderField(s).Err? <==>
            !exists t: Transmitted, rest: Bytes :: t.Valid() && EndsField(rest) && s == t.Text(rest)
    ensures HeaderField(s).Err? ==>
            HeaderField(s).error == if s == [] || !Is(s[0], Token) then "Invalid token" else "Invalid header"
  {
    hide Is, FieldContent, Folded, Unfolded;
    if HeaderField(s).Ok? {
      var t, rest := ParsedWasTransmitted(s);
    } else {
      forall t: Transmitted, rest: Bytes | t.Valid() && EndsField(rest) ensures s != t.Text(rest) {
        ParsesTransmitted(t, rest);
      }
    }
  }

  /** Names that differ only in case read alike, whatever follows them. */
  lemma CaseIsIgnored(a: Bytes, b: Bytes, rest: Bytes)
    requires a != [] && AllAre(a, Token) && AllAre(b, Token) && SameButCase(a, b)
    ensures HeaderField(a + (COLON + rest)) == HeaderField(b + (COLON + rest))
  {
    hide HeaderField, Span, Skip, AfterColon, Is, Lower, SameButCase;
    assert |b| == |a| && Lower(a) == Lower(b) by { CaseIsDropped(a, b); assert |Lower(a)| == |a| && |Lower(b)| == |b|; }
    var pad, content := SplitSpan(rest, White);
    HeaderFieldStep(a, pad, content);
    HeaderFieldStep(b, pad, content);
  }

  // ----- printing and parsing back -----

  /** The form in which a printed field comes back. */
  function Normal(f: Field): Field {
    Field(Lower(f.name), Trim(f.value))
  }

  function Normals(fs: seq<Field>): (ns: seq<Field>)
    ensures |ns| == |fs| && forall i :: 0 <= i < |fs| ==> ns[i] == Normal(fs[i])
  {
    seq(|fs|, i requires 0 <= i < |fs| => Normal(fs[i]))
  }

  lemma ParsesLine(f: Field, rest: Bytes)
    requires Acceptable(f) && EndsField(rest)
    ensures HeaderField(Line(f) + rest) == Ok((Normal(f), rest))
  {
    hide HeaderField, Span, Skip, TrimRight, Is;
    var pad, first := SplitSpan(f.value, White);
    assert Is(' ', White) by { SpaceIsWhite(); }
    var t := Transmitted(f.name, SPACE + pad, first, []);
    assert forall i :: 0 <= i < |first| ==> first[i] == f.value[|pad| + i];
    LineWithPad(f.name, pad, first, rest);
    ParsesTransmitted(t, rest);
  }

  lemma LineWithPad(name: Bytes, pad: Bytes, first: Bytes, rest: Bytes)
    ensures Line(Field(name, pad + first)) + rest == name + (COLON + ((SPACE + pad) + (first + (CRLF + rest))))
  {
    var tail := CRLF + rest;
    assert (name + COLON + SPACE + (pad + first) + CRLF) + rest == (name + COLON + SPACE + (pad + first)) + tail;
    assert SPACE + ((pad + first) + tail) == (SPACE + pad) + (first + tail);
    assert ((name + COLON) + SPACE + (pad + first)) + tail == (name + COLON) + (SPACE + ((pad + first) + tail));
  }

  lemma SpaceIsWhite()
    ensures Is(' ', White)
  {
  }

  lemma TokenIsNotWhite(c: byte)
    ensures Is(c, Token) ==> !Is(c, White)
  {
  }

  lemma LinesStartWithToken(fs: seq<Field>)
    requires forall i :: 0 <= i < |fs| ==> Acceptable(fs[i])
    ensures EndsField(Lines(fs)) && (fs != [] ==> Lines(fs) != [])
  {
    hide Is;
    if fs != [] {
      assert Line(fs[0])[0] == fs[0].name[0];
      TokenIsNotWhite(fs[0].name[0]);
    }
  }

  lemma FieldsStep(s: Bytes, f: Field, rest: Bytes)
    requires HeaderField(s) == Ok((f, rest))
    ensures rest == [] ==> Fields(s) == Ok([f])
    ensures rest != [] && Fields(rest).Ok? ==> Fields(s) == Ok([f] + Fields(rest).value)
  {
  }

  /** Print, then parse: the same list with names in lower case and values trimmed, and nothing left over. */
  lemma {:induction false} FieldsRoundTrip(fs: seq<Field>)
    requires fs != []
    requires forall i :: 0 <= i < |fs| ==> Acceptable(fs[i])
    ensures Fields(Lines(fs)) == Ok(Normals(fs))
    decreases |fs|
  {
    hide HeaderField, Fields, Acceptable, Line, Normal, EndsField;
    var rest := fs[1..];
    LinesStartWithToken(rest);
    ParsesLine(fs[0], Lines(rest));
    FieldsStep(Lines(fs), Normal(fs[0]), Lines(rest));
    if rest == [] {
      assert Normals(fs) == [Normal(fs[0])];
    } else {
      FieldsRoundTrip(rest);
      assert [Normal(fs[0])] + Normals(rest) == Normals(fs);
    }
  }

  lemma NothingToTrim(s: Bytes)
    requires s == [] || (!Is(s[0], White) && !Is(s[|s| - 1], White))
    ensures Trim(s) == s
  {
    hide Is;
    assert Skip(s, White) == s;
  }

  lemma NormalIsStable(f: Field)
    requires Acceptable(f)
    ensures Acceptable(Normal(f)) && Normal(Normal(f)) == Normal(f)
  {
    var t := Skip(f.value, White);
    var v := Trim(f.value);
    SpanIsLongest(f.value, White);
    TrimRightDropsWhite(t);
    assert v != [] ==> v[0] == t[0];
    assert Skip(v, White) == v;
    TrimRightIs(v, |v|);
    assert Lower(Lower(f.name)) == Lower(f.name);
    forall i | 0 <= i < |v| ensures Is(v[i], FieldText) {
      assert v[i] == t[i] == f.value[Span(f.value, White) + i];
    }
  }

  /** The parsed list is a fixed point: another round of printing and parsing returns it unchanged. */
  lemma NormalFormIsFixed(fs: seq<Field>)
    requires fs != []
    requires forall i :: 0 <= i < |fs| ==> Acceptable(fs[i])
    ensures Fields(Lines(Normals(fs))) == Ok(Normals(fs))
  {
    forall i | 0 <= i < |fs| ensures Acceptable(Normals(fs)[i]) && Normal(Normals(fs)[i]) == Normals(fs)[i] {
      NormalIsStable(fs[i]);
    }
    FieldsRoundTrip(Normals(fs));
    assert Normals(Normals(fs)) == Normals(fs);
  }

  // ----- what the character classes are -----

  /** The classes by their members (sections 3.2.3 and 3.2.6 of RFC 7230, appendix B.1 of RFC 5234). */
  lemma ClassesAre(c: byte)
    ensures Is(c, White) <==> c in " \t"
    ensures Is(c, Digits) <==> c in "0123456789"
    ensures Is(c, Token) <==> c in "!#$%&'*+-.^_`|~" || c in "0123456789" || LetterCode(c as int)
    ensures Is(c, SchemeText) <==> c in "+-." || c in "0123456789" || LetterCode(c as int)
    ensures Is(c, FieldText) <==> c == '\t' || !(c as int < 32 || c as int == 127)
  {
  }

  predicate LetterCode(n: int) { 65 <= n <= 90 || 97 <= n <= 122 }
}
