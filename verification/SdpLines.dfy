/** Lines of a session description, as `WHIPSession::SDPForceCodecs` reads and writes them. */
module SdpLines {
  import opened Bytes

  type Line = Bytes

  const VIDEO: Bytes := "m=video"
  const RTPMAP: Bytes := "a=rtpmap"
  const RTCP_FB: Bytes := "a=rtcp-fb"
  const FMTP: Bytes := "a=fmtp"
  const SSRC: Bytes := "a=ssrc"

  // ----- splitting and joining texts -----

  /** `getline` until the stream fails: LF ends a line, and an unfinished last line counts if it is not empty. */
  function Lines(text: Bytes): seq<Line>
    decreases |text|
  {
    if text == [] then []
    else
      var r := CutAt(text, '\n');
      if r.found then
        assert |r.tail| < |text| by { JoinUndoesCut(text, '\n'); }
        [r.head] + Lines(r.tail)
      else [text]
  }

  /** What the output streams hold: every line followed by CRLF. */
  function Unlines(ls: seq<Line>): Bytes {
    if ls == [] then [] else Unlines(ls[..|ls| - 1]) + (ls[|ls| - 1] + CRLF)
  }

  lemma {:induction false} UnlinesConcat(a: seq<Line>, b: seq<Line>)
    ensures Unlines(a + b) == Unlines(a) + Unlines(b)
    decreases |b|
  {
    if b == [] {
      assert a + b == a;
      assert Unlines(a) + [] == Unlines(a);
    } else {
      var n := |b| - 1;
      assert (a + b)[..|a| + n] == a + b[..n];
      UnlinesConcat(a, b[..n]);
      assert (Unlines(a) + Unlines(b[..n])) + (b[n] + CRLF) == Unlines(a) + (Unlines(b[..n]) + (b[n] + CRLF));
    }
  }

  predicate OneLine(l: Line) {
    '\n' !in l
  }

  predicate AreLines(ls: seq<Line>) {
    forall i :: 0 <= i < |ls| ==> OneLine(ls[i])
  }

  lemma {:induction false} LinesAreLines(text: Bytes)
    ensures AreLines(Lines(text))
    decreases |text|
  {
    if text != [] {
      var r := CutAt(text, '\n');
      JoinUndoesCut(text, '\n');
      if r.found {
        LinesAreLines(r.tail);
      }
    }
  }

  /** Every line with `e` appended. */
  function Extend(ls: seq<Line>, e: Bytes): (r: seq<Line>)
    ensures |r| == |ls| && forall i :: 0 <= i < |ls| ==> r[i] == ls[i] + e
  {
    seq(|ls|, i requires 0 <= i < |ls| => ls[i] + e)
  }

  lemma UnlinesFirst(ls: seq<Line>)
    requires ls != []
    ensures Unlines(ls) == ls[0] + (CRLF + Unlines(ls[1..]))
  {
    assert ls == [ls[0]] + ls[1..];
    UnlinesConcat([ls[0]], ls[1..]);
    var one: seq<Line> := [ls[0]];
    assert one[..0] == [];
    assert Unlines(one) == ls[0] + CRLF;
    assert (ls[0] + CRLF) + Unlines(ls[1..]) == ls[0] + (CRLF + Unlines(ls[1..]));
  }

  const CR: Bytes := "\r"

  /** Written lines read back with the carriage return of their terminator at the end. */
  lemma {:induction false} WrittenReadsBack(ls: seq<Line>)
    requires AreLines(ls)
    ensures Lines(Unlines(ls)) == Extend(ls, CR)
    decreases |ls|
  {
    if ls == [] {
      assert Extend(ls, CR) == [];
    } else {
      UnlinesFirst(ls);
      var rest := Unlines(ls[1..]);
      var head := ls[0] + CR;
      assert ls[0] + (CRLF + rest) == head + (['\n'] + rest);
      CutUndoesJoin(head, true, '\n', rest);
      WrittenReadsBack(ls[1..]);
      assert Extend(ls, CR) == [head] + Extend(ls[1..], CR);
    }
  }

  // ----- positions: "not found" is the largest size_t, written -1 here because adding one to it gives zero -----

  /** `c` is at `i` and nowhere before. */
  predicate First(s: Bytes, c: byte, i: nat) {
    i < |s| && s[i] == c && forall j :: 0 <= j < i ==> s[j] != c
  }

  lemma HasFirst(s: Bytes, c: byte)
    requires c in s
    ensures exists i: nat :: i < |s| && First(s, c, i)
  {
    JoinUndoesCut(s, c);
    var head := CutAt(s, c).head;
    assert s[..|head|] == head;
    assert First(s, c, |head|);
  }

  function Position(s: Bytes, c: byte): (p: int)
    ensures -1 <= p < |s|
  {
    if c in s then
      HasFirst(s, c);
      assert forall i: nat, j: nat :: First(s, c, i) && First(s, c, j) ==> i == j;
      var i: nat :| i < |s| && First(s, c, i);
      i
    else -1
  }

  function PositionFrom(s: Bytes, c: byte, from: nat): (p: int)
    requires from <= |s|
    ensures p == -1 || from <= p < |s|
  {
    var p := Position(s[from..], c);
    if p < 0 then -1 else from + p
  }

  lemma PositionIs(s: Bytes, c: byte, p: nat)
    requires p < |s| && s[p] == c && c !in s[..p]
    ensures Position(s, c) == p
  {
    assert First(s, c, p);
  }

  lemma PositionNone(s: Bytes, c: byte)
    ensures c !in s ==> Position(s, c) == -1
  {
  }

  lemma PositionFinds(s: Bytes, c: byte)
    ensures Position(s, c) >= 0 ==> s[Position(s, c)] == c && c !in s[..Position(s, c)]
    ensures Position(s, c) < 0 ==> c !in s
  {
    if c in s {
      HasFirst(s, c);
    }
  }

  /** A position found early does not move when text is appended. */
  lemma PositionIsStable(s: Bytes, c: byte, more: Bytes)
    requires Position(s, c) >= 0
    ensures Position(s + more, c) == Position(s, c)
  {
    PositionFinds(s, c);
    var p := Position(s, c);
    assert (s + more)[..p] == s[..p];
    PositionIs(s + more, c, p);
  }

  /** `substr(p + 1, q - p - 1)` in unsigned arithmetic: a negative count takes everything that is left. */
  function Between(s: Bytes, p: int, q: int): Bytes
    requires -1 <= p < |s| && -1 <= q < |s|
  {
    if q > p then s[p + 1..q] else s[p + 1..]
  }

  // ----- classification -----

  datatype Kind = Video | Map(id: Bytes, codec: Bytes) | Attribute(id: Bytes) | Ssrc | Plain {
    predicate Codec?() { Map? || Attribute? }
    predicate Copied?() { Ssrc? || Plain? }
  }

  /** `find(pattern) != npos`. */
  predicate Contains(s: Bytes, pattern: Bytes) {
    exists i | 0 <= i <= |s| :: OccursAt(s, pattern, i)
  }

  /** `substr(9, space - 9)`; on a line of eight characters the call throws and no identifier is used. */
  function MapId(l: Line): Bytes {
    var space := Position(l, ' ');
    if |l| < 9 then [] else if space >= 9 then l[9..space] else l[9..]
  }

  function KindOf(l: Line): Kind {
    if Contains(l, VIDEO) then Video
    else if Contains(l, RTPMAP) then Map(MapId(l), Between(l, Position(l, ' '), Position(l, '/')))
    else if Contains(l, RTCP_FB) || Contains(l, FMTP) then Attribute(Between(l, Position(l, ':'), Position(l, ' ')))
    else if Contains(l, SSRC) then Ssrc
    else Plain
  }

  // ----- media lines -----

  /** The three searches for a space.  After a miss the next one starts at zero again. */
  function Cutoff(m: Line): (p: int)
    ensures -1 <= p < |m|
  {
    var first := Position(m, ' ');
    var second := PositionFrom(m, ' ', first + 1);
    PositionFrom(m, ' ', second + 1)
  }

  /** The media line without its formats. */
  function Prefix(m: Line): Bytes {
    if Cutoff(m) < 0 then m else m[..Cutoff(m)]
  }

  function Formats(ids: seq<Bytes>): Bytes {
    if ids == [] then [] else Formats(ids[..|ids| - 1]) + (SPACE + ids[|ids| - 1])
  }

  function MediaLine(prefix: Bytes, ids: seq<Bytes>): Line {
    prefix + Formats(ids)
  }

  /** A media line with its four parts: media, port, protocol and formats (section 5.14 of RFC 4566). */
  ghost predicate FourParts(m: Line, a: Bytes, b: Bytes, c: Bytes, formats: Bytes) {
    && ' ' !in a && ' ' !in b && ' ' !in c
    && m == ThreeParts(a, b, c) + (SPACE + formats)
  }

  function ThreeParts(a: Bytes, b: Bytes, c: Bytes): Bytes {
    a + (SPACE + (b + (SPACE + c)))
  }

  lemma PositionAfter(word: Bytes, rest: Bytes)
    requires ' ' !in word
    ensures Position(word + (SPACE + rest), ' ') == |word|
  {
    var s := word + (SPACE + rest);
    assert s[..|word|] == word;
    PositionIs(s, ' ', |word|);
  }

  lemma PrefixOfFourParts(a: Bytes, b: Bytes, c: Bytes, formats: Bytes)
    requires ' ' !in a && ' ' !in b && ' ' !in c
    ensures Prefix(ThreeParts(a, b, c) + (SPACE + formats)) == ThreeParts(a, b, c)
  {
    hide Position;
    var tail := SPACE + formats;
    var m := ThreeParts(a, b, c) + tail;
    var m1 := b + (SPACE + (c + tail));
    assert m == a + (SPACE + m1) by { PartsReassociate(a, b, c, tail); }
    PositionAfter(a, m1);
    assert m[|a| + 1..] == m1;
    PositionAfter(b, c + tail);
    var n := |a| + 1 + |b| + 1;
    assert m[n..] == c + tail;
    PositionAfter(c, formats);
    assert Cutoff(m) == n + |c|;
  }

  lemma PartsReassociate(a: Bytes, b: Bytes, c: Bytes, tail: Bytes)
    ensures ThreeParts(a, b, c) + tail == a + (SPACE + (b + (SPACE + (c + tail))))
  {
    assert (SPACE + c) + tail == SPACE + (c + tail);
    assert (b + (SPACE + c)) + tail == b + (SPACE + (c + tail));
    assert (SPACE + (b + (SPACE + c))) + tail == SPACE + (b + (SPACE + (c + tail)));
  }

  lemma PrefixOfThreeParts(a: Bytes, b: Bytes, c: Bytes)
    requires ' ' !in a && ' ' !in b && ' ' !in c
    ensures Prefix(ThreeParts(a, b, c)) == ThreeParts(a, b, c)
  {
    hide Position;
    var m := ThreeParts(a, b, c);
    var m1 := b + (SPACE + c);
    PositionAfter(a, m1);
    assert m[|a| + 1..] == m1;
    PositionAfter(b, c);
    var n := |a| + 1 + |b| + 1;
    assert m[n..] == c;
    PositionNone(c, ' ');
    assert Cutoff(m) == -1;
  }

  function Spaces(s: Bytes): nat {
    multiset(s)[' ']
  }

  lemma SpacesOfJoin(a: Bytes, b: Bytes)
    ensures Spaces(a + b) == Spaces(a) + Spaces(b) && Spaces(SPACE) == 1
    ensures Spaces(a) == 0 <==> ' ' !in a
  {
    assert multiset(a + b) == multiset(a) + multiset(b);
    assert multiset(SPACE) == multiset{' '};
    assert ' ' in a <==> ' ' in multiset(a);
  }

  /** A text with a space, cut at its first one. */
  lemma FirstSpace(s: Bytes) returns (head: Bytes, tail: Bytes)
    requires Spaces(s) > 0
    ensures s == head + (SPACE + tail) && ' ' !in head && Spaces(tail) == Spaces(s) - 1
  {
    SpacesOfJoin(s, []);
    JoinUndoesCut(s, ' ');
    var r := CutAt(s, ' ');
    head, tail := r.head, r.tail;
    assert s == head + (SPACE + tail);
    SpacesOfJoin(head, SPACE + tail);
    SpacesOfJoin(SPACE, tail);
  }

  lemma PrefixOfOnePart(a: Bytes)
    requires ' ' !in a
    ensures Prefix(a) == a
  {
    hide Position;
    PositionNone(a, ' ');
    assert a[0..] == a;
  }

  /** With a single space the second search misses and the third one finds that space again. */
  lemma PrefixOfTwoParts(a: Bytes, b: Bytes)
    requires ' ' !in a && ' ' !in b
    ensures Prefix(a + (SPACE + b)) == a
  {
    hide Position;
    var m := a + (SPACE + b);
    PositionAfter(a, b);
    assert m[|a| + 1..] == b && m[0..] == m;
    PositionNone(b, ' ');
    assert Cutoff(m) == |a|;
  }

  /** Where a media line is cut: before its third space, before its only one, and else not at all. */
  ghost predicate CutAtSpaces(m: Line, p: Bytes) {
    var n := Spaces(m);
    if n == 0 || n == 2 then p == m else p + SPACE <= m && Spaces(p) == if n == 1 then 0 else 2
  }

  lemma PrefixCutsAtSpaces(m: Line)
    ensures CutAtSpaces(m, Prefix(m))
  {
    hide Prefix, Spaces;
    SpacesOfJoin(m, []);
    if Spaces(m) == 0 {
      PrefixOfOnePart(m);
    } else {
      var a, m1 := FirstSpace(m);
      SpacesOfJoin(a, m1);
      SpacesOfJoin(m1, []);
      if Spaces(m1) == 0 {
        PrefixOfTwoParts(a, m1);
        assert m == (a + SPACE) + m1;
      } else {
        var b, m2 := FirstSpace(m1);
        CutsAfterTwo(m, a, b, m2);
      }
    }
  }

  lemma CutsAfterTwo(m: Line, a: Bytes, b: Bytes, m2: Bytes)
    requires m == a + (SPACE + (b + (SPACE + m2))) && ' ' !in a && ' ' !in b && Spaces(m) == 2 + Spaces(m2)
    ensures CutAtSpaces(m, Prefix(m))
  {
    hide Prefix, Spaces;
    SpacesOfJoin(m2, []);
    if Spaces(m2) == 0 {
      PrefixOfThreeParts(a, b, m2);
    } else {
      var c, formats := FirstSpace(m2);
      var tail := SPACE + formats;
      var p := ThreeParts(a, b, c);
      PartsReassociate(a, b, c, tail);
      PrefixOfFourParts(a, b, c, formats);
      assert m == (p + SPACE) + formats;
      SpacesOfJoin(a, SPACE + (b + (SPACE + c)));
      SpacesOfJoin(SPACE, b + (SPACE + c));
      SpacesOfJoin(b, SPACE + c);
      SpacesOfJoin(SPACE, c);
      SpacesOfJoin(c, []);
    }
  }

  // ----- standard shapes, and what a longer line terminator does to them -----

  ghost predicate StandardMedia(m: Line) {
    exists a: Bytes, b: Bytes, c: Bytes, formats: Bytes ::
      FourParts(m, a, b, c, formats) && Contains(ThreeParts(a, b, c), VIDEO)
  }

  /** Media lines have four parts; codec lines have their separators in order. */
  ghost predicate Standard(l: Line) {
    match KindOf(l)
    case Video => StandardMedia(l)
    case Map(_, _) => Position(l, ' ') >= 9 && Position(l, '/') > Position(l, ' ')
    case Attribute(_) => Position(l, ':') >= 0 && Position(l, ' ') > Position(l, ':')
    case _ => true
  }

  ghost predicate AllStandard(ls: seq<Line>) {
    forall i :: 0 <= i < |ls| ==> Standard(ls[i])
  }

  predicate Returns(e: Bytes) {
    forall i :: 0 <= i < |e| ==> e[i] == '\r'
  }

  lemma ContainsIgnoresReturns(s: Bytes, pattern: Bytes, e: Bytes)
    requires pattern != [] && '\r' !in pattern && Returns(e)
    ensures Contains(s + e, pattern) <==> Contains(s, pattern)
  {
    if i :| 0 <= i <= |s| && OccursAt(s, pattern, i) {
      ContainsInPrefix(s, e, pattern);
    } else if i :| 0 <= i <= |s + e| && OccursAt(s + e, pattern, i) {
      var n := |pattern|;
      assert (s + e)[i..i + n] == pattern;
      assert pattern[n - 1] == (s + e)[i + n - 1];
      assert i + n <= |s|;
      assert (s + e)[i..i + n] == s[i..i + n];
      assert OccursAt(s, pattern, i);
    }
  }

  /** Carriage returns at the end of a standard line change neither its kind nor its identifier and codec. */
  lemma KindIgnoresReturns(l: Line, e: Bytes)
    requires Standard(l) && Returns(e)
    ensures KindOf(l + e) == KindOf(l)
  {
    hide Position, Contains;
    ContainsIgnoresReturns(l, VIDEO, e);
    ContainsIgnoresReturns(l, RTPMAP, e);
    ContainsIgnoresReturns(l, RTCP_FB, e);
    ContainsIgnoresReturns(l, FMTP, e);
    ContainsIgnoresReturns(l, SSRC, e);
    var k := KindOf(l);
    if k.Map? {
      PositionIsStable(l, ' ', e);
      PositionIsStable(l, '/', e);
      assert (l + e)[9..Position(l, ' ')] == l[9..Position(l, ' ')];
    } else if k.Attribute? {
      PositionIsStable(l, ' ', e);
      PositionIsStable(l, ':', e);
    }
  }

  lemma ContainsInPrefix(s: Bytes, more: Bytes, pattern: Bytes)
    requires Contains(s, pattern)
    ensures Contains(s + more, pattern)
  {
    var i :| 0 <= i <= |s| && OccursAt(s, pattern, i);
    assert (s + more)[i..i + |pattern|] == s[i..i + |pattern|];
    assert OccursAt(s + more, pattern, i);
  }

  lemma FormatsStartWithSpace(ids: seq<Bytes>)
    requires ids != []
    ensures Formats(ids) != [] && Formats(ids)[0] == ' '
  {
    if |ids| > 1 {
      FormatsStartWithSpace(ids[..|ids| - 1]);
    }
  }

  /**
   * The media line the filter writes is a media line again, and reading it cuts it at the same place.  Without
   * formats there is no third space, so then the line terminator stays in the prefix.
   */
  lemma MediaLineReadsBack(m: Line, ids: seq<Bytes>, e: Bytes)
    requires StandardMedia(m) && Returns(e)
    ensures var l := MediaLine(Prefix(m), ids) + e;
            && KindOf(l) == Video
            && Prefix(l) == if ids == [] then Prefix(m) + e else Prefix(m)
  {
    hide KindOf, Prefix, Contains;
    var a: Bytes, b: Bytes, c: Bytes, formats: Bytes :|
      FourParts(m, a, b, c, formats) && Contains(ThreeParts(a, b, c), VIDEO);
    PrefixOfFourParts(a, b, c, formats);
    var p := ThreeParts(a, b, c);
    var l := MediaLine(p, ids) + e;
    assert l == p + (Formats(ids) + e);
    ContainsInPrefix(p, Formats(ids) + e, VIDEO);
    assert KindOf(l) == Video by { KindOfVideo(l); }
    if ids == [] {
      assert l == ThreeParts(a, b, c + e) by { PartsReassociate(a, b, c, e); assert l == p + e; }
      PrefixOfThreeParts(a, b, c + e);
    } else {
      FormatsStartWithSpace(ids);
      var rest := Formats(ids)[1..] + e;
      assert Formats(ids) + e == SPACE + rest;
      PrefixOfFourParts(a, b, c, rest);
    }
  }

  lemma KindOfVideo(l: Line)
    ensures Contains(l, VIDEO) ==> KindOf(l) == Video
  {
  }
}
