/** `WHIPSession::SDPForceCodecs`: keep only allowed codecs in the video sections of a session description. */
module SdpFilter {
  import opened Bytes
  import opened SdpLines

  /** What has been written: a line copied through, or a whole video section flushed at its first a=ssrc line. */
  datatype Item =
    | Pass(line: Line)
    | Section(prefix: Bytes, ids: seq<Bytes>, mids: seq<Line>, codecs: seq<Line>)

  function Render(item: Item): seq<Line> {
    match item
    case Pass(l) => [l]
    case Section(prefix, ids, mids, codecs) => [MediaLine(prefix, ids)] + mids + codecs
  }

  function RenderAll(items: seq<Item>): seq<Line> {
    if items == [] then [] else RenderAll(items[..|items| - 1]) + Render(items[|items| - 1])
  }

  /** The three streams, the pending media line and the identifiers allowed so far. */
  datatype State = State(out: seq<Item>, codecs: seq<Line>, mids: seq<Line>, media: Option<Line>, ids: seq<Bytes>)

  const START := State([], [], [], None, [])

  /** One turn of the loop. */
  function Step(s: State, l: Line, allowed: seq<Bytes>): State {
    match KindOf(l)
    case Video => s.(media := Some(l))
    case Map(id, codec) => if codec in allowed then s.(ids := s.ids + [id], codecs := s.codecs + [l]) else s
    case Attribute(id) => if id in s.ids then s.(codecs := s.codecs + [l]) else s
    case Ssrc =>
      if s.media.Some? then
        State(s.out + [Section(Prefix(s.media.value), s.ids, s.mids, s.codecs), Pass(l)], [], [], None, s.ids)
      else s.(out := s.out + [Pass(l)])
    case Plain => if s.media.Some? then s.(mids := s.mids + [l]) else s.(out := s.out + [Pass(l)])
  }

  function Run(s: State, ls: seq<Line>, allowed: seq<Bytes>): State {
    if ls == [] then s else Step(Run(s, ls[..|ls| - 1], allowed), ls[|ls| - 1], allowed)
  }

  lemma {:induction false} RunConcat(s: State, a: seq<Line>, b: seq<Line>, allowed: seq<Bytes>)
    ensures Run(s, a + b, allowed) == Run(Run(s, a, allowed), b, allowed)
    decreases |b|
  {
    if b == [] {
      assert a + b == a;
    } else {
      var n := |b| - 1;
      assert (a + b)[..|a| + n] == a + b[..n];
      RunConcat(s, a, b[..n], allowed);
    }
  }

  lemma RunOne(s: State, l: Line, allowed: seq<Bytes>)
    ensures Run(s, [l], allowed) == Step(s, l, allowed)
  {
    assert [l][..0] == [];
  }

  /** The lines the filter writes. */
  function Filtered(ls: seq<Line>, allowed: seq<Bytes>): seq<Line> {
    RenderAll(Run(START, ls, allowed).out)
  }

  /** The filter on texts, on the inputs it does not throw on. */
  function FilterText(text: Bytes, allowed: seq<Bytes>): Bytes {
    Unlines(Filtered(Lines(text), allowed))
  }

  /** The filter on all texts; `substr` throws on a line that is too short for an identifier. */
  function Forced(text: Bytes, allowed: seq<Bytes>): Result<Bytes> {
    if RTPMAP in Lines(text) then Err("out_of_range") else Ok(FilterText(text, allowed))
  }

  // ----- the loop as the source writes it -----

  lemma ThrowsOnlyOnBareMap(l: Line)
    ensures !Contains(l, VIDEO) && Contains(l, RTPMAP) && |l| < 9 <==> l == RTPMAP
  {
    if |l| == 8 {
      assert l[0..8] == l;
    }
    if l == RTPMAP {
      assert OccursAt(l, RTPMAP, 0);
      assert !OccursAt(l, VIDEO, 0) by { assert l[0..7][0] == 'a' != VIDEO[0]; }
      assert !OccursAt(l, VIDEO, 1) by { assert l[1..8][0] == '=' != VIDEO[0]; }
    }
  }

  lemma WriteLine(ls: seq<Line>, l: Line)
    ensures Unlines(ls + [l]) == Unlines(ls) + (l + CRLF)
  {
    assert (ls + [l])[..|ls|] == ls;
  }

  lemma WriteItem(items: seq<Item>, item: Item)
    ensures RenderAll(items + [item]) == RenderAll(items) + Render(item)
  {
    assert (items + [item])[..|items|] == items;
  }

  lemma FlushText(s: State, l: Line, allowed: seq<Bytes>)
    requires KindOf(l).Ssrc? && s.media.Some?
    ensures Unlines(RenderAll(Step(s, l, allowed).out)) ==
            Unlines(RenderAll(s.out)) +
            (MediaLine(Prefix(s.media.value), s.ids) + CRLF) + Unlines(s.mids) + Unlines(s.codecs) + (l + CRLF)
  {
    hide Prefix, KindOf, Unlines, RenderAll;
    var section := Section(Prefix(s.media.value), s.ids, s.mids, s.codecs);
    var m := MediaLine(section.prefix, s.ids);
    assert s.out + [section, Pass(l)] == (s.out + [section]) + [Pass(l)];
    WriteItem(s.out, section);
    WriteItem(s.out + [section], Pass(l));
    var r := RenderAll(s.out);
    assert RenderAll(s.out + [section]) == ((r + [m]) + s.mids) + s.codecs;
    WriteLine(r, m);
    UnlinesConcat(r + [m], s.mids);
    UnlinesConcat((r + [m]) + s.mids, s.codecs);
    WriteLine(((r + [m]) + s.mids) + s.codecs, l);
  }

  /** The formats, written one by one. */
  method WriteFormats(prefix: Bytes, ids: seq<Bytes>) returns (text: Bytes)
    ensures text == MediaLine(prefix, ids)
  {
    text := prefix;
    for i := 0 to |ids|
      invariant text == prefix + Formats(ids[..i])
    {
      assert ids[..i + 1][..i] == ids[..i];
      text := text + (SPACE + ids[i]);
    }
    assert ids[..|ids|] == ids;
  }

  /** `find(c, from)`. */
  method FindFrom(s: Bytes, c: byte, from: nat) returns (p: int)
    requires from <= |s|
    ensures p == PositionFrom(s, c, from)
  {
    var t := s[from..];
    var i := Find(t, c);
    JoinUndoesCut(t, c);
    if i < |t| {
      PositionIs(t, c, i);
    }
    p := if i < |t| then from + i else -1;
  }

  /** The three searches for a space in the pending media line, each from behind the last result. */
  method CutFormats(media: Line) returns (prefix: Bytes)
    ensures prefix == Prefix(media) && CutAtSpaces(media, prefix)
  {
    hide Position, CutAtSpaces;
    var space := FindFrom(media, ' ', 0);
    assert media[0..] == media;
    space := FindFrom(media, ' ', space + 1);
    space := FindFrom(media, ' ', space + 1);
    prefix := if space < 0 then media else media[..space];
    PrefixCutsAtSpaces(media);
  }

  /** The local variables of the source. */
  datatype Streams = Streams(osdp: Bytes, rtmap: Bytes, mid: Bytes, media: Bytes, ids: seq<Bytes>)

  ghost predicate Shows(v: Streams, s: State) {
    && v.osdp == Unlines(RenderAll(s.out)) && v.rtmap == Unlines(s.codecs) && v.mid == Unlines(s.mids)
    && v.ids == s.ids && v.media == (if s.media.Some? then s.media.value else [])
    && (s.media.Some? ==> s.media.value != [])
  }

  /** A line that is neither a media line nor a codec line. */
  method CopyLine(v: Streams, line: Line, ghost s: State, ghost allowed: seq<Bytes>) returns (r: Streams)
    requires Shows(v, s) && KindOf(line).Copied?() && (KindOf(line).Ssrc? <==> Contains(line, SSRC))
    ensures Shows(r, Step(s, line, allowed))
  {
    hide Unlines, RenderAll, Prefix, Contains, KindOf;
    WritesNothing();
    r := v;
    if Contains(line, SSRC) && r.media != [] {
      FlushText(s, line, allowed);
      var prefix := CutFormats(r.media);
      var text := WriteFormats(prefix, r.ids);
      r := r.(osdp := r.osdp + (text + CRLF) + r.mid + r.rtmap);
      r := r.(mid := [], rtmap := [], media := []);
    } else {
      WriteLine(s.mids, line);
      WriteItem(s.out, Pass(line));
      WriteLine(RenderAll(s.out), line);
    }
    if r.media != [] {
      r := r.(mid := r.mid + (line + CRLF));
    } else {
      r := r.(osdp := r.osdp + (line + CRLF));
    }
  }

  /** One turn of the loop; the failure is the `out_of_range` that `substr` throws. */
  method ReadLine(v: Streams, line: Line, allowed: seq<Bytes>, ghost s: State) returns (r: Option<Streams>)
    requires Shows(v, s)
    ensures r.None? <==> line == RTPMAP
    ensures r.Some? ==> Shows(r.value, Step(s, line, allowed))
  {
    hide Unlines, RenderAll, Prefix, Contains, MapId, Position;
    ThrowsOnlyOnBareMap(line);
    if Contains(line, VIDEO) {
      ContainsNotEmpty(line, VIDEO);
      return Some(v.(media := line));
    }
    if Contains(line, RTPMAP) {
      if |line| < 9 {
        return None;
      }
      var space := Position(line, ' ');
      var codecId := if space >= 9 then line[9..space] else line[9..];
      MapIdIs(line);
      var codec := Between(line, space, Position(line, '/'));
      WriteLine(s.codecs, line);
      return Some(if codec in allowed then v.(ids := v.ids + [codecId], rtmap := v.rtmap + (line + CRLF)) else v);
    }
    if Contains(line, RTCP_FB) || Contains(line, FMTP) {
      var codecId := Between(line, Position(line, ':'), Position(line, ' '));
      WriteLine(s.codecs, line);
      return Some(if codecId in v.ids then v.(rtmap := v.rtmap + (line + CRLF)) else v);
    }
    var copied := CopyLine(v, line, s, allowed);
    return Some(copied);
  }

  method ForceCodecs(sdp: Bytes, allowed: seq<Bytes>) returns (r: Result<Bytes>)
    ensures r == Forced(sdp, allowed)
  {
    hide Unlines, RenderAll, Step, Contains, Lines, CutAt;
    var v := Streams([], [], [], [], []);
    var rest := sdp;
    ghost var done: seq<Line> := [];
    assert done + Lines(sdp) == Lines(sdp);
    WritesNothing();
    while rest != []
      invariant Lines(sdp) == done + Lines(rest) && RTPMAP !in done
      invariant Shows(v, Run(START, done, allowed))
      decreases |rest|
    {
      var i := Find(rest, '\n');
      var line := rest[..i];
      NextLine(rest, i);
      var turn := ReadLine(v, line, allowed, Run(START, done, allowed));
      rest := if i < |rest| then rest[i + 1..] else [];
      ghost var done' := done + [line];
      assert done'[..|done|] == done;
      assert done + ([line] + Lines(rest)) == done' + Lines(rest);
      if turn.None? {
        assert done'[|done|] == line;
        return Err("out_of_range");
      }
      v := turn.value;
      done := done';
    }
    NoLines();
    assert done + [] == done;
    return Ok(v.osdp);
  }

  lemma NoLines()
    ensures Lines([]) == []
  {
  }

  lemma WritesNothing()
    ensures Unlines([]) == [] && Unlines(RenderAll([])) == []
  {
  }

  lemma ContainsNotEmpty(l: Line, pattern: Bytes)
    ensures pattern != [] && Contains(l, pattern) ==> l != []
  {
  }

  lemma MapIdIs(l: Line)
    ensures |l| >= 9 ==> MapId(l) == if Position(l, ' ') >= 9 then l[9..Position(l, ' ')] else l[9..]
  {
  }

  lemma NextLine(rest: Bytes, i: nat)
    requires rest != [] && i <= |rest|
    requires CutAt(rest, '\n') == if i < |rest| then Cut(rest[..i], true, rest[i + 1..]) else Cut(rest, false, [])
    ensures Lines(rest) == [rest[..i]] + Lines(if i < |rest| then rest[i + 1..] else [])
  {
    assert i == |rest| ==> rest[..i] == rest;
  }

  // ----- the declarative specification -----

  /** The lines that are neither media lines nor codec lines, in order. */
  function Plains(ls: seq<Line>): seq<Line> {
    if ls == [] then []
    else Plains(ls[..|ls| - 1]) + if KindOf(ls[|ls| - 1]).Copied?() then [ls[|ls| - 1]] else []
  }

  /** The identifiers of the rtpmap lines with an allowed codec, in order. */
  function MapIds(ls: seq<Line>, allowed: seq<Bytes>): seq<Bytes> {
    if ls == [] then []
    else
      var k := KindOf(ls[|ls| - 1]);
      MapIds(ls[..|ls| - 1], allowed) + if k.Map? && k.codec in allowed then [k.id] else []
  }

  /** Is `l` an allowed rtpmap line, or a line about an identifier allowed before it? */
  predicate Keeps(l: Line, allowed: seq<Bytes>, ids: seq<Bytes>) {
    var k := KindOf(l);
    (k.Map? && k.codec in allowed) || (k.Attribute? && k.id in ids)
  }

  /** The codec lines that stay, when `ids` were allowed before. */
  function Kept(ls: seq<Line>, allowed: seq<Bytes>, ids: seq<Bytes>): seq<Line> {
    if ls == [] then []
    else
      var n := |ls| - 1;
      Kept(ls[..n], allowed, ids) + if Keeps(ls[n], allowed, ids + MapIds(ls[..n], allowed)) then [ls[n]] else []
  }

  /** The media line in force at the end: the last one. */
  function LastMedia(m: Line, ls: seq<Line>): Line {
    if ls == [] then m
    else if KindOf(ls[|ls| - 1]).Video? then ls[|ls| - 1] else LastMedia(m, ls[..|ls| - 1])
  }

  /** Lines up to and including a flush: no media line in `before`, no a=ssrc line in `within`. */
  datatype Segment = Segment(before: seq<Line>, media: Line, within: seq<Line>, ssrc: Line) {
    predicate Valid() {
      NoMedia(before) && KindOf(media).Video? && NoSsrc(within) && KindOf(ssrc).Ssrc?
    }

    function Text(): seq<Line> {
      before + [media] + within + [ssrc]
    }

    function Ids(allowed: seq<Bytes>): seq<Bytes> {
      MapIds(before, allowed) + MapIds(within, allowed)
    }

    /** The codec lines kept. */
    function Codecs(allowed: seq<Bytes>, ids: seq<Bytes>): seq<Line> {
      Kept(before, allowed, ids) + Kept(within, allowed, ids + MapIds(before, allowed))
    }

    /** Copied lines before the media line, the media line with all identifiers so far, the other lines of the
        section, its kept codec lines, and the a=ssrc line. */
    function Output(allowed: seq<Bytes>, ids: seq<Bytes>): seq<Item> {
      Passes(Plains(before)) +
      [Section(Prefix(LastMedia(media, within)), ids + Ids(allowed), Plains(within), Codecs(allowed, ids)), Pass(ssrc)]
    }
  }

  predicate NoMedia(ls: seq<Line>) {
    forall i :: 0 <= i < |ls| ==> !KindOf(ls[i]).Video?
  }

  predicate NoSsrc(ls: seq<Line>) {
    forall i :: 0 <= i < |ls| ==> !KindOf(ls[i]).Ssrc?
  }

  function Passes(ls: seq<Line>): (items: seq<Item>)
    ensures |items| == |ls| && forall i :: 0 <= i < |ls| ==> items[i] == Pass(ls[i])
  {
    seq(|ls|, i requires 0 <= i < |ls| => Pass(ls[i]))
  }

  /** What follows the last flush: lines before a media line, and an unflushed section that is lost. */
  datatype Tail = Tail(before: seq<Line>, lost: seq<Line>) {
    predicate Valid() {
      NoMedia(before) && (lost != [] ==> KindOf(lost[0]).Video?) && NoSsrc(lost)
    }
  }

  function Assembled(segments: seq<Segment>, tail: Tail): seq<Line> {
    if segments == [] then tail.before + tail.lost else segments[0].Text() + Assembled(segments[1..], tail)
  }

  function Expected(segments: seq<Segment>, tail: Tail, allowed: seq<Bytes>, ids: seq<Bytes>): seq<Item>
    decreases |segments|
  {
    if segments == [] then Passes(Plains(tail.before))
    else segments[0].Output(allowed, ids) + Expected(segments[1..], tail, allowed, ids + segments[0].Ids(allowed))
  }

  predicate AllValid(segments: seq<Segment>) {
    forall i :: 0 <= i < |segments| ==> segments[i].Valid()
  }

  /** Between two flushes, with no section open. */
  function Clean(out: seq<Item>, ids: seq<Bytes>): State {
    State(out, [], [], None, ids)
  }

  /** How each part of the specification grows with one more line. */
  lemma OneMore(s: State, ls: seq<Line>, l: Line, allowed: seq<Bytes>, ids: seq<Bytes>, m: Line)
    ensures var k, all := KindOf(l), ls + [l];
            && Run(s, all, allowed) == Step(Run(s, ls, allowed), l, allowed)
            && Plains(all) == (if k.Copied?() then Plains(ls) + [l] else Plains(ls))
            && MapIds(all, allowed) ==
               (if k.Map? && k.codec in allowed then MapIds(ls, allowed) + [k.id] else MapIds(ls, allowed))
            && Kept(all, allowed, ids) ==
               (if Keeps(l, allowed, ids + MapIds(ls, allowed)) then Kept(ls, allowed, ids) + [l] else Kept(ls, allowed, ids))
            && LastMedia(m, all) == (if k.Video? then l else LastMedia(m, ls))
  {
    hide KindOf, Keeps, Step;
    assert (ls + [l])[..|ls|] == ls;
  }

  lemma Nothing(s: State, allowed: seq<Bytes>, ids: seq<Bytes>, m: Line)
    ensures Run(s, [], allowed) == s && Plains([]) == [] && MapIds([], allowed) == [] && Kept([], allowed, ids) == []
    ensures LastMedia(m, []) == m
  {
  }

  lemma {:induction false} RunBefore(out: seq<Item>, ids: seq<Bytes>, ls: seq<Line>, allowed: seq<Bytes>)
    requires NoMedia(ls)
    ensures Run(Clean(out, ids), ls, allowed) ==
            State(out + Passes(Plains(ls)), Kept(ls, allowed, ids), [], None, ids + MapIds(ls, allowed))
    decreases |ls|
  {
    hide KindOf, Prefix, Run, Plains, MapIds, Kept, Step, Keeps, LastMedia;
    if ls == [] {
      Nothing(Clean(out, ids), allowed, ids, []);
      assert out + Passes([]) == out;
      assert ids + [] == ids;
    } else {
      var n := |ls| - 1;
      var init, l := ls[..n], ls[n];
      assert ls == init + [l];
      RunBefore(out, ids, init, allowed);
      OneMore(Clean(out, ids), init, l, allowed, ids, []);
      var p, i := Passes(Plains(init)), MapIds(init, allowed);
      StepBefore(out + p, Kept(init, allowed, ids), ids + i, l, allowed);
      assert (out + p) + [Pass(l)] == out + (p + [Pass(l)]);
      var k := KindOf(l);
      assert k.Map? ==> (ids + i) + [k.id] == ids + (i + [k.id]);
    }
  }

  lemma StepBefore(out: seq<Item>, codecs: seq<Line>, ids: seq<Bytes>, l: Line, allowed: seq<Bytes>)
    requires !KindOf(l).Video?
    ensures Step(State(out, codecs, [], None, ids), l, allowed) ==
            State(if KindOf(l).Copied?() then out + [Pass(l)] else out,
                  (if Keeps(l, allowed, ids) then codecs + [l] else codecs), [], None,
                  if KindOf(l).Map? && KindOf(l).codec in allowed then ids + [KindOf(l).id] else ids)
  {
    hide KindOf, Prefix;
  }

  lemma StepWithin(out: seq<Item>, codecs: seq<Line>, mids: seq<Line>, m: Line, ids: seq<Bytes>, l: Line, allowed: seq<Bytes>)
    requires !KindOf(l).Ssrc?
    ensures Step(State(out, codecs, mids, Some(m), ids), l, allowed) ==
            State(out, (if Keeps(l, allowed, ids) then codecs + [l] else codecs),
                  (if KindOf(l).Copied?() then mids + [l] else mids),
                  Some(if KindOf(l).Video? then l else m),
                  if KindOf(l).Map? && KindOf(l).codec in allowed then ids + [KindOf(l).id] else ids)
  {
    hide KindOf, Prefix;
  }

  lemma {:induction false} RunWithin(out: seq<Item>, codecs: seq<Line>, m: Line, ids: seq<Bytes>, ls: seq<Line>, allowed: seq<Bytes>)
    requires NoSsrc(ls)
    ensures Run(State(out, codecs, [], Some(m), ids), ls, allowed) ==
            State(out, codecs + Kept(ls, allowed, ids), Plains(ls), Some(LastMedia(m, ls)), ids + MapIds(ls, allowed))
    decreases |ls|
  {
    hide KindOf, Prefix, Run, Plains, MapIds, Kept, Step, Keeps, LastMedia;
    var s := State(out, codecs, [], Some(m), ids);
    if ls == [] {
      Nothing(s, allowed, ids, m);
      assert codecs + [] == codecs;
      assert ids + [] == ids;
    } else {
      var n := |ls| - 1;
      var init, l := ls[..n], ls[n];
      assert ls == init + [l];
      RunWithin(out, codecs, m, ids, init, allowed);
      OneMore(s, init, l, allowed, ids, m);
      var kept, i := Kept(init, allowed, ids), MapIds(init, allowed);
      StepWithin(out, codecs + kept, Plains(init), LastMedia(m, init), ids + i, l, allowed);
      assert (codecs + kept) + [l] == codecs + (kept + [l]);
      var k := KindOf(l);
      assert k.Map? ==> (ids + i) + [k.id] == ids + (i + [k.id]);
    }
  }

  lemma RunSegment(out: seq<Item>, ids: seq<Bytes>, g: Segment, allowed: seq<Bytes>)
    requires g.Valid()
    ensures Run(Clean(out, ids), g.Text(), allowed) ==
            Clean(out + g.Output(allowed, ids), ids + g.Ids(allowed))
  {
    hide Run, KindOf, Prefix, Kept, Plains, MapIds, NoMedia, NoSsrc, LastMedia;
    var s0 := Clean(out, ids);
    RunBefore(out, ids, g.before, allowed);
    var s1 := Run(s0, g.before, allowed);
    RunConcat(s0, g.before, [g.media], allowed);
    RunOne(s1, g.media, allowed);
    var s2 := Step(s1, g.media, allowed);
    assert s2 == s1.(media := Some(g.media));
    RunWithin(s1.out, s1.codecs, g.media, s1.ids, g.within, allowed);
    RunConcat(s0, g.before + [g.media], g.within, allowed);
    var s3 := Run(s2, g.within, allowed);
    RunConcat(s0, g.before + [g.media] + g.within, [g.ssrc], allowed);
    RunOne(s3, g.ssrc, allowed);
    assert s3.ids == ids + g.Ids(allowed);
    assert s3.codecs == g.Codecs(allowed, ids);
    var tail := [Section(Prefix(LastMedia(g.media, g.within)), s3.ids, s3.mids, s3.codecs), Pass(g.ssrc)];
    assert s1.out + tail == out + (Passes(Plains(g.before)) + tail);
  }

  lemma RunTail(out: seq<Item>, ids: seq<Bytes>, t: Tail, allowed: seq<Bytes>)
    requires t.Valid()
    ensures Run(Clean(out, ids), t.before + t.lost, allowed).out == out + Passes(Plains(t.before))
  {
    hide Run, KindOf, Prefix, Kept, Plains, MapIds, NoMedia, LastMedia;
    RunBefore(out, ids, t.before, allowed);
    var s1 := Run(Clean(out, ids), t.before, allowed);
    RunConcat(Clean(out, ids), t.before, t.lost, allowed);
    if t.lost == [] {
      RunNothing(s1, allowed);
    } else {
      var m, rest := t.lost[0], t.lost[1..];
      assert t.lost == [m] + rest;
      RunConcat(s1, [m], rest, allowed);
      RunOne(s1, m, allowed);
      RunWithin(s1.out, s1.codecs, m, s1.ids, rest, allowed);
    }
  }

  lemma RunNothing(s: State, allowed: seq<Bytes>)
    ensures Run(s, [], allowed) == s
  {
  }

  /** The filter does, segment by segment, what the specification says. */
  lemma {:induction false} RunSegments(out: seq<Item>, ids: seq<Bytes>, segments: seq<Segment>, t: Tail, allowed: seq<Bytes>)
    requires AllValid(segments) && t.Valid()
    ensures Run(Clean(out, ids), Assembled(segments, t), allowed).out == out + Expected(segments, t, allowed, ids)
    decreases |segments|
  {
    hide Run, Segment.Text, Segment.Output, Segment.Ids, Segment.Valid, Tail.Valid;
    if segments == [] {
      RunTail(out, ids, t, allowed);
    } else {
      var g := segments[0];
      RunSegment(out, ids, g, allowed);
      RunConcat(Clean(out, ids), g.Text(), Assembled(segments[1..], t), allowed);
      RunSegments(out + g.Output(allowed, ids), ids + g.Ids(allowed), segments[1..], t, allowed);
      var more := Expected(segments[1..], t, allowed, ids + g.Ids(allowed));
      assert (out + g.Output(allowed, ids)) + more == out + (g.Output(allowed, ids) + more);
    }
  }

  /** The first media line, or the end. */
  function FirstMedia(ls: seq<Line>): (i: nat)
    ensures i <= |ls|
  {
    if ls == [] || KindOf(ls[0]).Video? then 0 else 1 + FirstMedia(ls[1..])
  }

  /** The first a=ssrc line, or the end. */
  function FirstSsrc(ls: seq<Line>): (i: nat)
    ensures i <= |ls|
  {
    if ls == [] || KindOf(ls[0]).Ssrc? then 0 else 1 + FirstSsrc(ls[1..])
  }

  lemma {:induction false} FirstMediaIs(ls: seq<Line>)
    ensures var i := FirstMedia(ls); NoMedia(ls[..i]) && (i < |ls| ==> KindOf(ls[i]).Video?)
  {
    hide KindOf;
    if ls != [] && !KindOf(ls[0]).Video? {
      FirstMediaIs(ls[1..]);
      assert ls[..FirstMedia(ls)] == [ls[0]] + ls[1..][..FirstMedia(ls[1..])];
    }
  }

  lemma {:induction false} FirstSsrcIs(ls: seq<Line>)
    ensures var i := FirstSsrc(ls); NoSsrc(ls[..i]) && (i < |ls| ==> KindOf(ls[i]).Ssrc?)
  {
    hide KindOf;
    if ls != [] && !KindOf(ls[0]).Ssrc? {
      FirstSsrcIs(ls[1..]);
      assert ls[..FirstSsrc(ls)] == [ls[0]] + ls[1..][..FirstSsrc(ls[1..])];
    }
  }

  /** Every input is a list of segments and a tail. */
  lemma {:induction false} Decompose(ls: seq<Line>) returns (segments: seq<Segment>, t: Tail)
    ensures AllValid(segments) && t.Valid() && Assembled(segments, t) == ls
    decreases |ls|
  {
    hide KindOf, FirstMedia, FirstSsrc;
    FirstMediaIs(ls);
    var i := FirstMedia(ls);
    var before, rest := ls[..i], ls[i..];
    assert ls == before + rest;
    FirstSsrcIs(rest);
    var j := FirstSsrc(rest);
    if rest == [] || j == |rest| {
      segments, t := [], Tail(before, rest);
      assert rest[..j] == rest;
    } else {
      var g := Segment(before, rest[0], rest[1..j], rest[j]);
      assert rest[0] == ls[i];
      assert forall k :: 0 <= k < |g.within| ==> g.within[k] == rest[..j][k + 1];
      var more, t' := Decompose(rest[j + 1..]);
      segments, t := [g] + more, t';
      assert segments[1..] == more;
      assert ls == g.Text() + rest[j + 1..] by { SegmentText(ls, before, rest, j); }
    }
  }

  lemma SegmentText(ls: seq<Line>, before: seq<Line>, rest: seq<Line>, j: nat)
    requires ls == before + rest && 0 < j < |rest|
    ensures ls == before + [rest[0]] + rest[1..j] + [rest[j]] + rest[j + 1..]
  {
    assert rest == [rest[0]] + rest[1..j] + [rest[j]] + rest[j + 1..];
  }

  /**
   * The filter meets its specification on every input.  Copied lines keep their order and place; a video section
   * becomes its last media line with every identifier allowed so far, then its other lines, then its codec lines
   * that stay; disallowed codec lines and sections without an a=ssrc line are gone.
   */
  lemma FilterMeetsSpecification(ls: seq<Line>, allowed: seq<Bytes>) returns (segments: seq<Segment>, t: Tail)
    ensures AllValid(segments) && t.Valid() && Assembled(segments, t) == ls
    ensures Run(START, ls, allowed).out == Expected(segments, t, allowed, [])
  {
    hide Run, Expected;
    segments, t := Decompose(ls);
    RunSegments([], [], segments, t, allowed);
    assert [] + Expected(segments, t, allowed, []) == Expected(segments, t, allowed, []);
  }
}
