/**
 * What `WHIPSession::SDPForceCodecs` does to the text of a session description: which lines are codec lines
 * (section 6 of RFC 4566, section 4.2 of RFC 4585, section 4.1 of RFC 5576), which of them stay, and what is written.
 */
module SdpText {
  import opened Bytes
  import opened SdpLines
  import opened SdpFilter
  import opened SdpIdempotence
  import opened SdpTheorems

  // ----- lines and their text -----

  function MapLine(id: Bytes, codec: Bytes, rest: Bytes): Line {
    "a=rtpmap:" + (id + (" " + (codec + ("/" + rest))))
  }

  /** A line about one identifier; `attribute` is one of the two kinds below. */
  function AboutLine(attribute: Bytes, id: Bytes, rest: Bytes): Line {
    attribute + (id + (" " + rest))
  }

  predicate IsAbout(attribute: Bytes) {
    attribute == "a=fmtp:" || attribute == "a=rtcp-fb:"
  }

  lemma PositionOfSpace(word: Bytes, id: Bytes, rest: Bytes)
    requires ' ' !in word && ' ' !in id
    ensures Position(word + (id + (" " + rest)), ' ') == |word| + |id|
  {
    hide Position;
    assert word + (id + (SPACE + rest)) == (word + id) + (SPACE + rest);
    PositionAfter(word + id, rest);
  }

  const MAP: Bytes := "a=rtpmap:"

  lemma MapIsContained(more: Bytes)
    ensures ' ' !in MAP && '/' !in MAP && Contains(MAP + more, RTPMAP)
  {
    hide Contains;
    assert (MAP + more)[0..8] == RTPMAP;
    ContainsAt(MAP + more, RTPMAP, 0);
  }

  /** An rtpmap line announces its identifier and its codec. */
  lemma MapLineIsRead(id: Bytes, codec: Bytes, rest: Bytes)
    requires ' ' !in id && '/' !in id && '/' !in codec && !Contains(MapLine(id, codec, rest), VIDEO)
    ensures KindOf(MapLine(id, codec, rest)) == Map(id, codec)
  {
    hide Contains, Position;
    var l := MapLine(id, codec, rest);
    var space := 9 + |id|;
    MapIsContained(id + (" " + (codec + ("/" + rest))));
    PositionOfSpace(MAP, id, codec + ("/" + rest));
    assert Position(l, ' ') == space;
    var slash := space + 1 + |codec|;
    assert l == (MAP + (id + (" " + codec))) + ("/" + rest);
    assert l[..slash] == MAP + (id + (" " + codec));
    PositionIs(l, '/', slash);
    assert l[9..space] == id && l[space + 1..slash] == codec;
  }

  lemma AboutIsContained(attribute: Bytes, more: Bytes)
    requires IsAbout(attribute)
    ensures ' ' !in attribute && Contains(attribute + more, if attribute == "a=fmtp:" then FMTP else RTCP_FB)
    ensures attribute != [] && attribute[|attribute| - 1] == ':' && ':' !in attribute[..|attribute| - 1]
  {
    hide Contains;
    var l := attribute + more;
    if attribute == "a=fmtp:" {
      assert l[0..6] == FMTP;
      ContainsAt(l, FMTP, 0);
    } else {
      assert l[0..9] == RTCP_FB;
      ContainsAt(l, RTCP_FB, 0);
    }
  }

  /** A format or feedback line speaks about its identifier. */
  lemma AboutLineIsRead(attribute: Bytes, id: Bytes, rest: Bytes)
    requires IsAbout(attribute) && ' ' !in id
    requires !Contains(AboutLine(attribute, id, rest), VIDEO) && !Contains(AboutLine(attribute, id, rest), RTPMAP)
    ensures KindOf(AboutLine(attribute, id, rest)) == Attribute(id)
  {
    hide Contains, Position, IsAbout;
    var l := AboutLine(attribute, id, rest);
    var colon := |attribute| - 1;
    AboutIsContained(attribute, id + (" " + rest));
    assert l[..colon] == attribute[..colon];
    PositionIs(l, ':', colon);
    PositionOfSpace(attribute, id, rest);
    assert l[colon + 1..colon + 1 + |id|] == id;
  }

  /** Without a space, all that follows the colon is the identifier. */
  lemma AboutLineWithoutSpace(attribute: Bytes, id: Bytes)
    requires IsAbout(attribute) && ' ' !in id && !Contains(attribute + id, VIDEO) && !Contains(attribute + id, RTPMAP)
    ensures KindOf(attribute + id) == Attribute(id)
  {
    hide Contains, Position, IsAbout;
    var l := attribute + id;
    var colon := |attribute| - 1;
    AboutIsContained(attribute, id);
    assert l[..colon] == attribute[..colon];
    PositionIs(l, ':', colon);
    PositionNone(l, ' ');
    assert l[colon + 1..] == id;
  }

  /** Without a slash, all that follows the space is the codec; without a space as well, the codec is the whole line. */
  lemma MapLineWithoutSlash(id: Bytes, codec: Bytes)
    requires ' ' !in id && '/' !in id && '/' !in codec
    ensures var l := "a=rtpmap:" + (id + (" " + codec)); !Contains(l, VIDEO) ==> KindOf(l) == Map(id, codec)
    ensures var l := "a=rtpmap:" + id; !Contains(l, VIDEO) ==> KindOf(l) == Map(id, l)
  {
    hide Contains, Position;
    var l, m := MAP + (id + (" " + codec)), MAP + id;
    MapIsContained(id + (" " + codec));
    MapIsContained(id);
    PositionOfSpace(MAP, id, codec);
    PositionNone(l, '/');
    PositionNone(m, ' ');
    PositionNone(m, '/');
    var space := 9 + |id|;
    assert l[9..space] == id && l[space + 1..] == codec && m[9..] == id && m[0..] == m;
  }

  /** The other kinds, by the patterns a line holds anywhere: a media line wins, an a=ssrc line comes last. */
  lemma KindExactly(l: Line)
    ensures var k := KindOf(l);
            var codec := Contains(l, "a=rtpmap") || Contains(l, "a=rtcp-fb") || Contains(l, "a=fmtp");
            && (k.Video? <==> Contains(l, "m=video"))
            && (k.Codec?() <==> codec && !Contains(l, "m=video"))
            && (k.Ssrc? <==> Contains(l, "a=ssrc") && !codec && !Contains(l, "m=video"))
  {
  }

  // ----- which codec lines stay -----

  lemma {:induction false} RenderedFrom(items: seq<Item>, l: Line) returns (k: nat)
    requires l in RenderAll(items)
    ensures k < |items| && l in Render(items[k])
    decreases |items|
  {
    hide Render;
    var n := |items| - 1;
    if l in Render(items[n]) {
      k := n;
    } else {
      k := RenderedFrom(items[..n], l);
    }
  }

  lemma JustifiedInPrefix(ls: seq<Line>, n: nat, allowed: seq<Bytes>, l: Line)
    requires n <= |ls| && Justified(ls[..n], allowed, l)
    ensures Justified(ls, allowed, l)
  {
    hide KindOf;
    var i: nat :| KeptAt(ls[..n], allowed, l, i);
    assert ls[..n][i] == ls[i];
    if KindOf(l).Attribute? {
      var id := KindOf(l).id;
      var j: nat :| j < i && AnnouncedAt(ls[..n], allowed, id, j);
      assert ls[..n][j] == ls[j];
      assert AnnouncedAt(ls, allowed, id, j);
    }
    assert KeptAt(ls, allowed, l, i);
  }

  /** Where a codec line of the output comes from. */
  lemma WrittenIsJustified(ls: seq<Line>, allowed: seq<Bytes>, l: Line)
    requires AllStandardMedia(ls) && l in Filtered(ls, allowed) && KindOf(l).Codec?()
    ensures Justified(ls, allowed, l)
  {
    hide KindOf, Run, RenderAll, Prefix, Justified, SoundIds, MediaLine, StandardMedia;
    var out := Run(START, ls, allowed).out;
    var k := RenderedFrom(out, l);
    RunAccounts(ls, allowed);
    assert Sorted(out[k]);
    StandardIsStable(ls, allowed, []);
    assert Stable(out[k], []);
    FilterIsSound(ls, allowed);
    match out[k]
    case Pass(_) =>
    case Section(p, ids, mids, codecs) =>
      assert MediaLine(p, ids) + [] == MediaLine(p, ids);
      if l in codecs {
        var n: nat :| JustifiedAt(ls, allowed, out, k, n);
        JustifiedInPrefix(ls, n, allowed, l);
      }
  }

  ghost predicate IsMapLine(l: Line, id: Bytes, codec: Bytes, rest: Bytes) {
    l == MapLine(id, codec, rest) && ' ' !in id && '/' !in id && '/' !in codec
  }

  /** Every rtpmap line has the standard form. */
  ghost predicate StandardMaps(ls: seq<Line>) {
    forall i :: 0 <= i < |ls| && KindOf(ls[i]).Map? ==>
      exists id: Bytes, codec: Bytes, rest: Bytes :: IsMapLine(ls[i], id, codec, rest)
  }

  /** One of the first `n` lines is an rtpmap line for `id` with an allowed codec. */
  ghost predicate AllowedBefore(ls: seq<Line>, allowed: seq<Bytes>, id: Bytes, n: nat) {
    exists i: nat, codec: Bytes, rest: Bytes ::
      i < n && i < |ls| && IsMapLine(ls[i], id, codec, rest) && codec in allowed
  }

  lemma MapLineOf(l: Line, id: Bytes, codec: Bytes, rest: Bytes)
    requires KindOf(l).Map? && IsMapLine(l, id, codec, rest)
    ensures KindOf(l) == Map(id, codec)
  {
    hide Contains, Position, MapLine;
    MapLineIsRead(id, codec, rest);
  }

  lemma AnnouncedInText(ls: seq<Line>, allowed: seq<Bytes>, id: Bytes, n: nat)
    requires StandardMaps(ls) && Announced(ls, allowed, id, n)
    ensures AllowedBefore(ls, allowed, id, n)
  {
    hide KindOf, IsMapLine;
    var i: nat :| i < n && AnnouncedAt(ls, allowed, id, i);
    var id': Bytes, codec: Bytes, rest: Bytes :| IsMapLine(ls[i], id', codec, rest);
    MapLineOf(ls[i], id', codec, rest);
    assert IsMapLine(ls[i], id, codec, rest);
  }

  /**
   * Soundness on the text: an a=fmtp or a=rtcp-fb line that is written was in the input, and before it an rtpmap line
   * gave its identifier to an allowed codec.
   */
  lemma AboutLinesAreAllowed(ls: seq<Line>, allowed: seq<Bytes>, attribute: Bytes, id: Bytes, rest: Bytes)
    requires AllStandardMedia(ls) && StandardMaps(ls)
    requires IsAbout(attribute) && ' ' !in id
    requires !Contains(AboutLine(attribute, id, rest), VIDEO) && !Contains(AboutLine(attribute, id, rest), RTPMAP)
    requires AboutLine(attribute, id, rest) in Filtered(ls, allowed)
    ensures exists i: nat :: i < |ls| && ls[i] == AboutLine(attribute, id, rest) && AllowedBefore(ls, allowed, id, i)
  {
    hide KindOf, Filtered, AllStandardMedia, StandardMaps, AllowedBefore, Announced, Contains, AboutLine, IsAbout;
    var l := AboutLine(attribute, id, rest);
    AboutLineIsRead(attribute, id, rest);
    WrittenIsJustified(ls, allowed, l);
    var i: nat :| KeptAt(ls, allowed, l, i);
    AnnouncedInText(ls, allowed, id, i);
  }

  /** Soundness on the text: an rtpmap line that is written was in the input, and its codec is allowed. */
  lemma MapLinesAreAllowed(ls: seq<Line>, allowed: seq<Bytes>, id: Bytes, codec: Bytes, rest: Bytes)
    requires AllStandardMedia(ls)
    requires ' ' !in id && '/' !in id && '/' !in codec && !Contains(MapLine(id, codec, rest), VIDEO)
    requires MapLine(id, codec, rest) in Filtered(ls, allowed)
    ensures codec in allowed && MapLine(id, codec, rest) in ls
  {
    hide KindOf, Filtered, AllStandardMedia, Announced, Contains, MapLine;
    var l := MapLine(id, codec, rest);
    MapLineIsRead(id, codec, rest);
    WrittenIsJustified(ls, allowed, l);
    var i: nat :| KeptAt(ls, allowed, l, i);
    assert ls[i] in ls;
  }

  // ----- the formats of a written media line -----

  /** The words of a line, separated by single spaces. */
  function Words(s: Bytes): seq<Bytes>
    decreases |s|
  {
    var r := CutAt(s, ' ');
    if r.found then
      assert |r.tail| < |s| by { JoinUndoesCut(s, ' '); }
      [r.head] + Words(r.tail)
    else [s]
  }

  lemma {:induction false} WordsSnoc(s: Bytes, id: Bytes)
    requires ' ' !in id
    ensures Words(s + (SPACE + id)) == Words(s) + [id]
    decreases |s|
  {
    hide CutAt;
    var r := CutAt(s, ' ');
    JoinUndoesCut(s, ' ');
    if r.found {
      var more := r.tail + (SPACE + id);
      assert s + (SPACE + id) == r.head + ([' '] + more);
      CutUndoesJoin(r.head, true, ' ', more);
      WordsSnoc(r.tail, id);
    } else {
      CutUndoesJoin(s, true, ' ', id);
      assert SPACE + id == [' '] + id;
      CutUndoesJoin(id, false, ' ', []);
    }
  }

  predicate NoSpaces(ids: seq<Bytes>) {
    forall i :: 0 <= i < |ids| ==> ' ' !in ids[i]
  }

  /** The identifiers are the last words of the written media line, in order. */
  lemma {:induction false} WordsOfMedia(prefix: Bytes, ids: seq<Bytes>)
    requires NoSpaces(ids)
    ensures Words(MediaLine(prefix, ids)) == Words(prefix) + ids
    decreases |ids|
  {
    hide Words;
    if ids == [] {
      assert MediaLine(prefix, ids) == prefix;
    } else {
      var n := |ids| - 1;
      WordsOfMedia(prefix, ids[..n]);
      WordsSnoc(MediaLine(prefix, ids[..n]), ids[n]);
      assert MediaLine(prefix, ids) == MediaLine(prefix, ids[..n]) + (SPACE + ids[n]);
      assert (Words(prefix) + ids[..n]) + [ids[n]] == Words(prefix) + ids;
    }
  }

  lemma AllowedHasNoSpace(ls: seq<Line>, allowed: seq<Bytes>, id: Bytes, n: nat)
    requires AllowedBefore(ls, allowed, id, n)
    ensures ' ' !in id
  {
    hide MapLine;
  }

  /**
   * Soundness of the written media lines on the text: behind the words of its first part each one lists
   * identifiers that rtpmap lines before its a=ssrc line gave to allowed codecs.
   */
  lemma FormatsAreAllowed(ls: seq<Line>, allowed: seq<Bytes>, k: nat) returns (n: nat)
    requires AllStandardMedia(ls) && StandardMaps(ls)
    requires var out := Run(START, ls, allowed).out; k < |out| && out[k].Section?
    ensures var section := Run(START, ls, allowed).out[k];
            && n < |ls| && Contains(ls[n], SSRC)
            && Words(Render(section)[0]) == Words(section.prefix) + section.ids
            && forall id :: id in section.ids ==> AllowedBefore(ls, allowed, id, n)
  {
    hide KindOf, Run, Prefix, SoundLines, Words, AllowedBefore, AllStandardMedia, MediaLine, Contains;
    var out := Run(START, ls, allowed).out;
    FilterIsSound(ls, allowed);
    n :| JustifiedAt(ls, allowed, out, k, n);
    SsrcHolds(ls[n]);
    var ids := out[k].ids;
    assert StandardMaps(ls[..n]);
    forall id | id in ids ensures ' ' !in id && AllowedBefore(ls, allowed, id, n) {
      AnnouncedInText(ls[..n], allowed, id, n);
      AllowedHasNoSpace(ls[..n], allowed, id, n);
      AllowedInPrefix(ls, n, allowed, id);
    }
    WordsOfMedia(out[k].prefix, ids);
  }

  lemma SsrcHolds(l: Line)
    ensures KindOf(l).Ssrc? ==> Contains(l, SSRC)
  {
    hide Contains;
  }

  lemma AllowedInPrefix(ls: seq<Line>, n: nat, allowed: seq<Bytes>, id: Bytes)
    requires n <= |ls| && AllowedBefore(ls[..n], allowed, id, n)
    ensures AllowedBefore(ls, allowed, id, n)
  {
    hide IsMapLine;
    var i: nat, codec: Bytes, rest: Bytes :|
      i < n && i < |ls[..n]| && IsMapLine(ls[..n][i], id, codec, rest) && codec in allowed;
    assert ls[..n][i] == ls[i];
  }

  // ----- the lines written, and the lines read -----

  /** The lines written for a segment. */
  function SegmentLines(g: Segment, allowed: seq<Bytes>, ids: seq<Bytes>): seq<Line> {
    Plains(g.before) +
    ([Prefix(LastMedia(g.media, g.within)) + Formats(ids + g.Ids(allowed))] + Plains(g.within) + g.Codecs(allowed, ids) + [g.ssrc])
  }

  function ExpectedLines(segments: seq<Segment>, t: Tail, allowed: seq<Bytes>, ids: seq<Bytes>): seq<Line>
    decreases |segments|
  {
    if segments == [] then Plains(t.before)
    else
      SegmentLines(segments[0], allowed, ids) +
      ExpectedLines(segments[1..], t, allowed, ids + segments[0].Ids(allowed))
  }

  lemma RendersSegment(g: Segment, allowed: seq<Bytes>, ids: seq<Bytes>)
    ensures RenderAll(g.Output(allowed, ids)) == SegmentLines(g, allowed, ids)
  {
    hide RenderAll, Plains, Prefix, LastMedia, Segment.Ids, Segment.Codecs, Formats;
    var section := Section(Prefix(LastMedia(g.media, g.within)), ids + g.Ids(allowed), Plains(g.within), g.Codecs(allowed, ids));
    RenderConcat(Passes(Plains(g.before)), [section, Pass(g.ssrc)]);
    RenderPasses(Plains(g.before));
    RenderPair(section, g.ssrc);
  }

  lemma {:induction false} RendersExpected(segments: seq<Segment>, t: Tail, allowed: seq<Bytes>, ids: seq<Bytes>)
    ensures RenderAll(Expected(segments, t, allowed, ids)) == ExpectedLines(segments, t, allowed, ids)
    decreases |segments|
  {
    hide RenderAll, Segment.Output, Segment.Ids, SegmentLines, Plains;
    if segments == [] {
      RenderPasses(Plains(t.before));
    } else {
      var g := segments[0];
      RendersSegment(g, allowed, ids);
      RendersExpected(segments[1..], t, allowed, ids + g.Ids(allowed));
      RenderConcat(g.Output(allowed, ids), Expected(segments[1..], t, allowed, ids + g.Ids(allowed)));
    }
  }

  /**
   * The text that is written, for every text: per segment of its lines the copied lines before the media line, the
   * media line up to its formats with all identifiers allowed so far, the copied lines and the kept codec lines of
   * the section, and the a=ssrc line; each with CRLF behind it.
   */
  lemma TextMeetsSpecification(text: Bytes, allowed: seq<Bytes>) returns (segments: seq<Segment>, t: Tail)
    ensures AllValid(segments) && t.Valid() && Assembled(segments, t) == Lines(text)
    ensures FilterText(text, allowed) == Unlines(ExpectedLines(segments, t, allowed, []))
  {
    hide Run, RenderAll, Expected, ExpectedLines, Lines, Unlines, AllValid, Tail.Valid, Assembled;
    segments, t := FilterMeetsSpecification(Lines(text), allowed);
    RendersExpected(segments, t, allowed, []);
  }

  /** Every line followed by a line feed. */
  function Ended(ls: seq<Line>): Bytes {
    if ls == [] then [] else ls[0] + (['\n'] + Ended(ls[1..]))
  }

  /** The lines read are the text cut at its line feeds; only the last line may lack one. */
  lemma {:induction false} LinesExactly(text: Bytes)
    ensures AreLines(Lines(text))
    ensures Ended(Lines(text)) == text + if text == [] || text[|text| - 1] == '\n' then [] else ['\n']
    decreases |text|
  {
    hide CutAt;
    LinesAreLines(text);
    if text != [] {
      var r := CutAt(text, '\n');
      JoinUndoesCut(text, '\n');
      if r.found {
        LinesExactly(r.tail);
        assert text == r.head + (['\n'] + r.tail);
        assert ([r.head] + Lines(r.tail))[1..] == Lines(r.tail);
        assert r.tail != [] ==> r.tail[|r.tail| - 1] == text[|text| - 1];
      } else {
        var one: seq<Line> := [text];
        assert one[1..] == [];
      }
    }
  }
}
