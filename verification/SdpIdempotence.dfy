/** Filtering what the filter wrote. */
module SdpIdempotence {
  import opened Bytes
  import opened SdpLines
  import opened SdpFilter

  predicate AllPlain(ls: seq<Line>) {
    forall i :: 0 <= i < |ls| ==> KindOf(ls[i]).Plain?
  }

  predicate AllCopied(ls: seq<Line>) {
    forall i :: 0 <= i < |ls| ==> KindOf(ls[i]).Copied?()
  }

  predicate AllCodec(ls: seq<Line>) {
    forall i :: 0 <= i < |ls| ==> KindOf(ls[i]).Codec?()
  }

  // ----- reading lines of one kind -----

  lemma RunSnoc(s: State, ls: seq<Line>, l: Line, allowed: seq<Bytes>)
    ensures Run(s, ls + [l], allowed) == Step(Run(s, ls, allowed), l, allowed)
  {
    assert (ls + [l])[..|ls|] == ls;
  }

  /** Codec lines touch nothing but the kept lines and the identifiers. */
  lemma {:induction false} RunCodecs(s: State, ls: seq<Line>, allowed: seq<Bytes>)
    requires AllCodec(ls)
    ensures Run(s, ls, allowed) ==
            s.(codecs := s.codecs + Kept(ls, allowed, s.ids), ids := s.ids + MapIds(ls, allowed))
    decreases |ls|
  {
    hide KindOf, Run, Plains, MapIds, Kept, LastMedia, Prefix;
    if ls == [] {
      Nothing(s, allowed, s.ids, []);
      assert s.codecs + [] == s.codecs && s.ids + [] == s.ids;
    } else {
      var init, l := ls[..|ls| - 1], ls[|ls| - 1];
      assert ls == init + [l];
      RunCodecs(s, init, allowed);
      OneMore(s, init, l, allowed, s.ids, []);
      var k, i := Kept(init, allowed, s.ids), MapIds(init, allowed);
      assert (s.codecs + k) + [l] == s.codecs + (k + [l]);
      assert KindOf(l).Map? ==> (s.ids + i) + [KindOf(l).id] == s.ids + (i + [KindOf(l).id]);
    }
  }

  lemma {:induction false} RunWithinSection(s: State, ls: seq<Line>, allowed: seq<Bytes>)
    requires AllPlain(ls) && s.media.Some?
    ensures Run(s, ls, allowed) == s.(mids := s.mids + ls)
    decreases |ls|
  {
    hide KindOf, Prefix;
    if ls == [] {
      assert s.mids + ls == s.mids;
    } else {
      var n := |ls| - 1;
      RunWithinSection(s, ls[..n], allowed);
      assert (s.mids + ls[..n]) + [ls[n]] == s.mids + ls;
    }
  }

  lemma {:induction false} RunOutside(s: State, ls: seq<Line>, allowed: seq<Bytes>)
    requires AllCopied(ls) && s.media.None?
    ensures Run(s, ls, allowed) == s.(out := s.out + Passes(ls))
    decreases |ls|
  {
    hide KindOf, Prefix;
    if ls == [] {
      assert s.out + Passes(ls) == s.out;
    } else {
      var n := |ls| - 1;
      RunOutside(s, ls[..n], allowed);
      assert (s.out + Passes(ls[..n])) + [Pass(ls[n])] == s.out + Passes(ls);
    }
  }

  lemma {:induction false} RenderConcat(a: seq<Item>, b: seq<Item>)
    ensures RenderAll(a + b) == RenderAll(a) + RenderAll(b)
    decreases |b|
  {
    hide Render, RenderAll;
    if b == [] {
      assert a + b == a;
      RenderNothing();
    } else {
      var init, item := b[..|b| - 1], b[|b| - 1];
      assert b == init + [item] && a + b == (a + init) + [item];
      RenderConcat(a, init);
      WriteItem(init, item);
      WriteItem(a + init, item);
      assert (RenderAll(a) + RenderAll(init)) + Render(item) == RenderAll(a) + (RenderAll(init) + Render(item));
    }
  }

  lemma {:induction false} RenderPasses(ls: seq<Line>)
    ensures RenderAll(Passes(ls)) == ls
    decreases |ls|
  {
    if ls != [] {
      RenderPasses(ls[..|ls| - 1]);
      assert Passes(ls)[..|ls| - 1] == Passes(ls[..|ls| - 1]);
    }
  }

  lemma RenderNothing()
    ensures RenderAll([]) == []
  {
  }

  lemma RenderPair(item: Item, l: Line)
    ensures RenderAll([item, Pass(l)]) == Render(item) + [l]
  {
    hide MediaLine, RenderAll;
    assert [item, Pass(l)] == [item] + [Pass(l)];
    WriteItem([], item);
    WriteItem([item], Pass(l));
    assert [] + [item] == [item];
    assert RenderAll([]) == [] by { RenderNothing(); }
  }

  /** Nothing is pending. */
  predicate Resting(t: State) {
    t.codecs == [] && t.mids == [] && t.media.None?
  }

  /** The lines of a written section with the a=ssrc line behind it. */
  function SectionLines(w: Line, mids: seq<Line>, codecs: seq<Line>, l: Line): seq<Line> {
    [w] + mids + codecs + [l]
  }

  lemma RunSection(t: State, w: Line, mids: seq<Line>, codecs: seq<Line>, l: Line, allowed: seq<Bytes>)
    ensures Run(t, SectionLines(w, mids, codecs, l), allowed) ==
            Step(Run(Run(Step(t, w, allowed), mids, allowed), codecs, allowed), l, allowed)
  {
    hide Step, Run;
    RunOne(t, w, allowed);
    RunConcat(t, [w], mids, allowed);
    RunConcat(t, [w] + mids, codecs, allowed);
    RunSnoc(t, [w] + mids + codecs, l, allowed);
  }

  /** Reading a written section whose first line is a media line. */
  lemma ReadsMediaSection(t: State, w: Line, mids: seq<Line>, codecs: seq<Line>, l: Line, allowed: seq<Bytes>)
    ensures Resting(t) && KindOf(w).Video? && AllPlain(mids) && AllCodec(codecs) && KindOf(l).Ssrc? ==>
              var kept, ids := Kept(codecs, allowed, t.ids), t.ids + MapIds(codecs, allowed);
              Run(t, SectionLines(w, mids, codecs, l), allowed) ==
              State(t.out + [Section(Prefix(w), ids, mids, kept), Pass(l)], [], [], None, ids)
  {
    hide KindOf, Run, Kept, MapIds, Prefix;
    if Resting(t) && KindOf(w).Video? && AllPlain(mids) && AllCodec(codecs) {
      RunSection(t, w, mids, codecs, l, allowed);
      var open := Step(t, w, allowed);
      RunWithinSection(open, mids, allowed);
      assert [] + mids == mids;
      RunCodecs(open.(mids := mids), codecs, allowed);
      assert [] + Kept(codecs, allowed, t.ids) == Kept(codecs, allowed, t.ids);
    }
  }

  /** Reading one whose first line is not: nothing is collected, so no codec line is written. */
  lemma ReadsOtherSection(t: State, w: Line, mids: seq<Line>, codecs: seq<Line>, l: Line, allowed: seq<Bytes>)
    requires Resting(t) && AllPlain(mids) && AllCodec(codecs) && KindOf(l).Ssrc? && !KindOf(w).Video?
    ensures var first := if KindOf(w).Copied?() then [w] else [];
            var after := Run(t, SectionLines(w, mids, codecs, l), allowed);
            && after.out == t.out + Passes(first + mids + [l])
            && (KindOf(w).Copied?() && codecs == [] ==> after == t.(out := after.out))
  {
    hide KindOf, Run, Kept, MapIds, Prefix, Passes;
    RunSection(t, w, mids, codecs, l, allowed);
    var first := if KindOf(w).Copied?() then [w] else [];
    var one := Step(t, w, allowed);
    assert one.media.None? && one.out == t.out + Passes(first);
    assert AllCopied(mids);
    RunOutside(one, mids, allowed);
    var two := one.(out := one.out + Passes(mids));
    RunCodecs(two, codecs, allowed);
    if codecs == [] {
      Nothing(two, allowed, two.ids, []);
    }
    assert t.out + Passes(first) + Passes(mids) + [Pass(l)] == t.out + (Passes(first) + Passes(mids) + [Pass(l)]);
  }

  // ----- a written section read again, with `e` at the end of every line -----

  lemma ExtendSnoc(ls: seq<Line>, l: Line, e: Bytes)
    ensures Extend(ls + [l], e) == Extend(ls, e) + [l + e]
  {
  }

  lemma ExtendConcat(a: seq<Line>, b: seq<Line>, e: Bytes)
    ensures Extend(a + b, e) == Extend(a, e) + Extend(b, e)
  {
  }

  lemma ExtendSection(w: Line, mids: seq<Line>, codecs: seq<Line>, l: Line, e: Bytes)
    ensures Extend(SectionLines(w, mids, codecs, l), e) == SectionLines(w + e, Extend(mids, e), Extend(codecs, e), l + e)
  {
  }

  lemma ExtendNothing(ls: seq<Line>)
    ensures Extend(ls, []) == ls
  {
    forall i | 0 <= i < |ls| ensures Extend(ls, [])[i] == ls[i] {
      assert ls[i] + [] == ls[i];
    }
  }

  /** The same item with longer line terminators: a media line with formats loses its terminator when it is cut. */
  function Rewritten(item: Item, e: Bytes): Item {
    match item
    case Pass(l) => Pass(l + e)
    case Section(p, ids, mids, codecs) => Section(if ids == [] then p + e else p, ids, Extend(mids, e), Extend(codecs, e))
  }

  function RewrittenAll(items: seq<Item>, e: Bytes): (r: seq<Item>)
    ensures |r| == |items| && forall i :: 0 <= i < |items| ==> r[i] == Rewritten(items[i], e)
  {
    seq(|items|, i requires 0 <= i < |items| => Rewritten(items[i], e))
  }

  /**
   * A written section that reads back as itself: its first line is a media line that is cut where it was cut
   * before; or it is an ordinary line and no codec line follows, so that copying is all there is to do.
   */
  predicate Stable(item: Item, e: Bytes) {
    match item
    case Pass(_) => true
    case Section(p, ids, mids, codecs) =>
      var w := MediaLine(p, ids) + e;
      if KindOf(w).Video? then Prefix(w) == if ids == [] then p + e else p
      else KindOf(w).Copied?() && codecs == [] && (e == [] || ids == [])
  }

  predicate AllStable(items: seq<Item>, e: Bytes) {
    forall i :: 0 <= i < |items| ==> Stable(items[i], e)
  }

  /** Reading the kept lines again keeps them all and allows the same identifiers. */
  ghost predicate Replays(codecs: seq<Line>, allowed: seq<Bytes>, before: seq<Bytes>, ids: seq<Bytes>) {
    AllCodec(codecs) && Kept(codecs, allowed, before) == codecs && before + MapIds(codecs, allowed) == ids
  }

  /** Where the second pass is (`t`) when the first one is at `s`: it has rewritten what `s` has written. */
  ghost predicate Follows(s: State, t: State, allowed: seq<Bytes>, e: Bytes) {
    && Resting(t) && RenderAll(t.out) == RenderAll(RewrittenAll(s.out, e))
    && Replays(Extend(s.codecs, e), allowed, t.ids, s.ids)
    && AllPlain(s.mids) && (s.media.None? ==> s.mids == [])
  }

  /** The line keeps its role when `e` is appended. */
  predicate KeepsRole(l: Line, e: Bytes) {
    KindOf(l).Codec?() ==> KindOf(l + e) == KindOf(l)
  }

  /** The second pass over what has been written at `s`. */
  function Second(s: State, allowed: seq<Bytes>, e: Bytes): State {
    Run(START, Extend(RenderAll(s.out), e), allowed)
  }

  lemma CopiedIgnoresReturns(l: Line, e: Bytes)
    requires KindOf(l).Copied?() && Returns(e)
    ensures KindOf(l + e) == KindOf(l)
  {
    hide KindOf;
    assert Standard(l);
    KindIgnoresReturns(l, e);
  }

  lemma PlainsIgnoreReturns(ls: seq<Line>, e: Bytes)
    requires AllPlain(ls) && Returns(e)
    ensures AllPlain(Extend(ls, e))
  {
    hide KindOf;
    forall i | 0 <= i < |ls| ensures KindOf(Extend(ls, e)[i]).Plain? {
      CopiedIgnoresReturns(ls[i], e);
    }
  }

  lemma ReplaysOneMore(codecs: seq<Line>, l: Line, allowed: seq<Bytes>, before: seq<Bytes>, ids: seq<Bytes>)
    requires Replays(codecs, allowed, before, ids) && Keeps(l, allowed, ids)
    ensures Replays(codecs + [l], allowed, before, if KindOf(l).Map? then ids + [KindOf(l).id] else ids)
  {
    hide KindOf, Kept, MapIds, Run, Plains, LastMedia;
    OneMore(START, codecs, l, allowed, before, []);
    var i := MapIds(codecs, allowed);
    assert KindOf(l).Map? ==> before + (i + [KindOf(l).id]) == (before + i) + [KindOf(l).id];
  }

  /** The lines read next by the second pass when the first one has written `more`. */
  lemma SecondGrows(s: State, s': State, more: seq<Line>, allowed: seq<Bytes>, e: Bytes)
    requires RenderAll(s'.out) == RenderAll(s.out) + more
    ensures Second(s', allowed, e) == Run(Second(s, allowed, e), Extend(more, e), allowed)
  {
    hide Run, RenderAll;
    ExtendConcat(RenderAll(s.out), more, e);
    RunConcat(START, Extend(RenderAll(s.out), e), Extend(more, e), allowed);
  }

  lemma RewrittenSnoc(items: seq<Item>, item: Item, e: Bytes)
    ensures RewrittenAll(items + [item], e) == RewrittenAll(items, e) + [Rewritten(item, e)]
    ensures RenderAll(RewrittenAll(items + [item], e)) == RenderAll(RewrittenAll(items, e)) + Render(Rewritten(item, e))
  {
    hide Rewritten, Render, RenderAll;
    assert RewrittenAll(items + [item], e) == RewrittenAll(items, e) + [Rewritten(item, e)];
    WriteItem(RewrittenAll(items, e), Rewritten(item, e));
  }

  lemma CodecFollows(s: State, l: Line, allowed: seq<Bytes>, e: Bytes)
    requires Follows(s, Second(s, allowed, e), allowed, e) && KeepsRole(l, e) && (KindOf(l).Codec?() || KindOf(l).Video?)
    ensures var s' := Step(s, l, allowed); Follows(s', Second(s', allowed, e), allowed, e)
  {
    hide KindOf, Run, RenderAll, Prefix, Replays, Extend;
    var t := Second(s, allowed, e);
    if Keeps(l, allowed, s.ids) {
      assert Keeps(l + e, allowed, s.ids);
      ReplaysOneMore(Extend(s.codecs, e), l + e, allowed, t.ids, s.ids);
      ExtendSnoc(s.codecs, l, e);
    }
  }

  lemma CopyFollows(s: State, l: Line, allowed: seq<Bytes>, e: Bytes)
    requires Follows(s, Second(s, allowed, e), allowed, e) && Returns(e) && KindOf(l).Copied?()
    requires !(KindOf(l).Ssrc? && s.media.Some?)
    ensures var s' := Step(s, l, allowed); Follows(s', Second(s', allowed, e), allowed, e)
  {
    hide KindOf, Run, RenderAll, Prefix, Replays, Extend;
    var t := Second(s, allowed, e);
    if s.media.None? {
      var s' := Step(s, l, allowed);
      WriteItem(s.out, Pass(l));
      SecondGrows(s, s', [l], allowed, e);
      assert Extend([l], e) == [l + e];
      RunOne(t, l + e, allowed);
      CopiedIgnoresReturns(l, e);
      WriteItem(t.out, Pass(l + e));
      RewrittenSnoc(s.out, Pass(l), e);
    }
  }

  lemma FlushedLines(s: State, l: Line, allowed: seq<Bytes>)
    requires KindOf(l).Ssrc? && s.media.Some?
    ensures var w := MediaLine(Prefix(s.media.value), s.ids);
            RenderAll(Step(s, l, allowed).out) == RenderAll(s.out) + SectionLines(w, s.mids, s.codecs, l)
  {
    hide KindOf, RenderAll, Prefix, MediaLine;
    var section := Section(Prefix(s.media.value), s.ids, s.mids, s.codecs);
    RenderConcat(s.out, [section, Pass(l)]);
    RenderPair(section, l);
  }

  lemma FlushFollows(s: State, l: Line, allowed: seq<Bytes>, e: Bytes)
    requires Follows(s, Second(s, allowed, e), allowed, e) && Returns(e) && KindOf(l).Ssrc? && s.media.Some?
    requires Stable(Section(Prefix(s.media.value), s.ids, s.mids, s.codecs), e)
    ensures var s' := Step(s, l, allowed); Follows(s', Second(s', allowed, e), allowed, e)
  {
    hide KindOf, Run, RenderAll, Prefix, Extend, Kept, MapIds, MediaLine;
    var t := Second(s, allowed, e);
    var s' := Step(s, l, allowed);
    var section := Section(Prefix(s.media.value), s.ids, s.mids, s.codecs);
    var w := MediaLine(section.prefix, s.ids);
    var mids, codecs := Extend(s.mids, e), Extend(s.codecs, e);
    FlushedLines(s, l, allowed);
    SecondGrows(s, s', SectionLines(w, s.mids, s.codecs, l), allowed, e);
    ExtendSection(w, s.mids, s.codecs, l, e);
    PlainsIgnoreReturns(s.mids, e);
    CopiedIgnoresReturns(l, e);
    var again := Rewritten(section, e);
    assert s.out + [section, Pass(l)] == (s.out + [section]) + [Pass(l)];
    RewrittenSnoc(s.out, section, e);
    RewrittenSnoc(s.out + [section], Pass(l), e);
    assert RenderAll(RewrittenAll(s'.out, e)) == RenderAll(RewrittenAll(s.out, e)) + (Render(again) + [l + e]);
    NothingReplays(allowed, s.ids, e);
    if KindOf(w + e).Video? {
      ReadsMediaSection(t, w + e, mids, codecs, l + e, allowed);
      RenderConcat(t.out, [again, Pass(l + e)]);
      RenderPair(again, l + e);
    } else {
      assert Extend([], e) == [];
      ReadsOtherSection(t, w + e, mids, [], l + e, allowed);
      var all := [w + e] + mids + [l + e];
      RenderConcat(t.out, Passes(all));
      RenderPasses(all);
      RenderOther(section, e);
      assert t.ids + MapIds([], allowed) == t.ids by { Nothing(START, allowed, [], []); }
    }
  }

  lemma NothingReplays(allowed: seq<Bytes>, ids: seq<Bytes>, e: Bytes)
    ensures Replays(Extend([], e), allowed, ids, ids)
  {
    assert Extend([], e) == [];
    assert ids + [] == ids;
  }

  lemma RenderOther(section: Item, e: Bytes)
    requires section.Section? && section.codecs == [] && (e == [] || section.ids == [])
    ensures Render(Rewritten(section, e)) == [MediaLine(section.prefix, section.ids) + e] + Extend(section.mids, e)
  {
    assert e == [] ==> section.prefix + e == section.prefix && MediaLine(section.prefix, section.ids) + e == MediaLine(section.prefix, section.ids);
    assert section.ids == [] ==> MediaLine(section.prefix + e, []) == section.prefix + e == MediaLine(section.prefix, []) + e;
  }

  /** One step of the first pass, followed by the second pass over what it wrote. */
  lemma StepFollows(s: State, l: Line, allowed: seq<Bytes>, e: Bytes)
    requires Follows(s, Second(s, allowed, e), allowed, e) && Returns(e) && KeepsRole(l, e)
    requires AllStable(Step(s, l, allowed).out, e)
    ensures var s' := Step(s, l, allowed); Follows(s', Second(s', allowed, e), allowed, e)
  {
    hide KindOf, Run, RenderAll, Prefix, Extend, Follows, Stable;
    if KindOf(l).Codec?() || KindOf(l).Video? {
      CodecFollows(s, l, allowed, e);
    } else if KindOf(l).Ssrc? && s.media.Some? {
      assert Stable(Step(s, l, allowed).out[|s.out|], e);
      FlushFollows(s, l, allowed, e);
    } else {
      CopyFollows(s, l, allowed, e);
    }
  }

  lemma StartFollows(allowed: seq<Bytes>, e: Bytes)
    ensures Follows(START, Second(START, allowed, e), allowed, e)
  {
    NothingReplays(allowed, [], e);
    assert RewrittenAll([], e) == [];
    assert Extend(RenderAll([]), e) == [];
  }

  /** What has been written stays. */
  lemma {:induction false} OutGrows(s: State, ls: seq<Line>, allowed: seq<Bytes>)
    ensures s.out <= Run(s, ls, allowed).out
    decreases |ls|
  {
    hide KindOf, Prefix;
    if ls != [] {
      OutGrows(s, ls[..|ls| - 1], allowed);
    }
  }

  lemma {:induction false} RunFollows(ls: seq<Line>, allowed: seq<Bytes>, e: Bytes)
    requires Returns(e) && (forall i :: 0 <= i < |ls| ==> KeepsRole(ls[i], e))
    requires AllStable(Run(START, ls, allowed).out, e)
    ensures var s := Run(START, ls, allowed); Follows(s, Second(s, allowed, e), allowed, e)
    decreases |ls|
  {
    hide Step, Follows, Second, KeepsRole, Stable;
    if ls == [] {
      StartFollows(allowed, e);
    } else {
      var init, l := ls[..|ls| - 1], ls[|ls| - 1];
      var s := Run(START, init, allowed);
      RunOne(s, l, allowed);
      OutGrows(s, [l], allowed);
      assert forall i :: 0 <= i < |s.out| ==> s.out[i] == Step(s, l, allowed).out[i];
      RunFollows(init, allowed, e);
      StepFollows(s, l, allowed, e);
    }
  }

  // ----- a section that does not read back as itself changes the output -----

  ghost predicate Differ(a: seq<Line>, b: seq<Line>) {
    exists i :: 0 <= i < |a| && i < |b| && a[i] != b[i]
  }

  lemma DifferGrows(a: seq<Line>, b: seq<Line>, a': seq<Line>, b': seq<Line>)
    requires Differ(a, b) && a <= a' && b <= b'
    ensures a' != b'
  {
    var i :| 0 <= i < |a| && i < |b| && a[i] != b[i];
    assert a'[i] == a[i] && b'[i] == b[i];
  }

  lemma OtherDiffers(done: seq<Line>, w: Line, mids: seq<Line>, codecs: seq<Line>, l: Line)
    requires !KindOf(w).Video? && AllPlain(mids) && AllCodec(codecs) && KindOf(l).Ssrc?
    requires KindOf(w).Copied?() ==> codecs != []
    ensures Differ(done + SectionLines(w, mids, codecs, l),
                   done + ((if KindOf(w).Copied?() then [w] else []) + mids + [l]))
  {
    hide KindOf;
    var a := done + SectionLines(w, mids, codecs, l);
    var b := done + ((if KindOf(w).Copied?() then [w] else []) + mids + [l]);
    var n := |done|;
    if KindOf(w).Copied?() {
      var k := n + 1 + |mids|;
      assert a[k] == codecs[0] && b[k] == l;
    } else {
      assert a[n] == w && b[n] == (mids + [l])[0];
      assert mids != [] ==> b[n] == mids[0];
    }
  }

  lemma SameSuffix(p: Bytes, q: Bytes, f: Bytes)
    ensures p + f == q + f ==> p == q
  {
    assert (p + f)[..|p|] == p && (q + f)[..|q|] == q;
  }

  lemma MediaDiffers(done: seq<Line>, p: Bytes, section: Item, mids: seq<Line>, codecs: seq<Line>, l: Line)
    requires section.Section? && p != section.prefix
    ensures Differ(done + SectionLines(MediaLine(p, section.ids), mids, codecs, l), done + (Render(section) + [l]))
  {
    var f := Formats(section.ids);
    var x, y := p + f, section.prefix + f;
    SameSuffix(p, section.prefix, f);
    assert (done + SectionLines(x, mids, codecs, l))[|done|] == x;
    assert (done + (Render(section) + [l]))[|done|] == y;
  }

  /** After an unstable section the two passes have written different lines. */
  lemma UnstableDiffers(s: State, l: Line, allowed: seq<Bytes>)
    requires Follows(s, Second(s, allowed, []), allowed, []) && KindOf(l).Ssrc? && s.media.Some?
    requires !Stable(Section(Prefix(s.media.value), s.ids, s.mids, s.codecs), [])
    ensures var s' := Step(s, l, allowed); Differ(RenderAll(s'.out), RenderAll(Second(s', allowed, []).out))
  {
    hide KindOf, Run, RenderAll, Prefix, Extend, Kept, MapIds, MediaLine, Differ;
    var t := Second(s, allowed, []);
    var s' := Step(s, l, allowed);
    var p := Prefix(s.media.value);
    var w := MediaLine(p, s.ids);
    var done := RenderAll(s.out);
    FlushedLines(s, l, allowed);
    SecondGrows(s, s', SectionLines(w, s.mids, s.codecs, l), allowed, []);
    ExtendNothing(SectionLines(w, s.mids, s.codecs, l));
    ExtendNothing(s.codecs);
    RewriteNothing(s.out);
    assert w + [] == w && p + [] == p;
    if KindOf(w).Video? {
      ReadsMediaSection(t, w, s.mids, s.codecs, l, allowed);
      var again := Section(Prefix(w), s.ids, s.mids, s.codecs);
      RenderConcat(t.out, [again, Pass(l)]);
      RenderPair(again, l);
      MediaDiffers(done, p, again, s.mids, s.codecs, l);
    } else {
      ReadsOtherSection(t, w, s.mids, s.codecs, l, allowed);
      var all := (if KindOf(w).Copied?() then [w] else []) + s.mids + [l];
      RenderConcat(t.out, Passes(all));
      RenderPasses(all);
      OtherDiffers(done, w, s.mids, s.codecs, l);
    }
  }

  lemma RewriteNothing(items: seq<Item>)
    ensures RewrittenAll(items, []) == items
  {
    forall i | 0 <= i < |items| ensures Rewritten(items[i], []) == items[i] {
      match items[i]
      case Pass(l) => assert l + [] == l;
      case Section(p, ids, mids, codecs) =>
        assert p + [] == p;
        ExtendNothing(mids);
        ExtendNothing(codecs);
    }
  }

  lemma RenderGrows(a: seq<Item>, b: seq<Item>)
    requires a <= b
    ensures RenderAll(a) <= RenderAll(b)
  {
    hide RenderAll;
    assert b == a + b[|a|..];
    RenderConcat(a, b[|a|..]);
  }

  /** Once different, always different: both passes only append. */
  lemma DiffersForever(s: State, more: seq<Line>, allowed: seq<Bytes>)
    requires Differ(RenderAll(s.out), RenderAll(Second(s, allowed, []).out))
    ensures var last := Run(s, more, allowed); RenderAll(last.out) != RenderAll(Second(last, allowed, []).out)
  {
    hide Run, RenderAll, Differ;
    var last := Run(s, more, allowed);
    OutGrows(s, more, allowed);
    RenderGrows(s.out, last.out);
    var rest := RenderAll(last.out)[|RenderAll(s.out)|..];
    assert RenderAll(last.out) == RenderAll(s.out) + rest;
    SecondGrows(s, last, rest, allowed, []);
    OutGrows(Second(s, allowed, []), Extend(rest, []), allowed);
    RenderGrows(Second(s, allowed, []).out, Second(last, allowed, []).out);
    DifferGrows(RenderAll(s.out), RenderAll(Second(s, allowed, []).out),
                RenderAll(last.out), RenderAll(Second(last, allowed, []).out));
  }

  lemma KeepsRoleOfNothing(l: Line)
    ensures KeepsRole(l, [])
  {
    assert l + [] == l;
  }

  lemma StepStable(s: State, l: Line, allowed: seq<Bytes>)
    requires AllStable(s.out, [])
    requires KindOf(l).Ssrc? && s.media.Some? ==> Stable(Section(Prefix(s.media.value), s.ids, s.mids, s.codecs), [])
    ensures AllStable(Step(s, l, allowed).out, [])
  {
    hide KindOf, Prefix, MediaLine;
  }

  lemma {:induction false} SameWasStable(ls: seq<Line>, more: seq<Line>, allowed: seq<Bytes>)
    requires var last := Run(START, ls + more, allowed); RenderAll(last.out) == RenderAll(Second(last, allowed, []).out)
    ensures var s := Run(START, ls, allowed); AllStable(s.out, []) && Follows(s, Second(s, allowed, []), allowed, [])
    decreases |ls|
  {
    hide Run, Step, Follows, Second, Stable, RenderAll, KindOf, KeepsRole, Prefix, Differ;
    if ls == [] {
      RunNothing(START, allowed);
      StartFollows(allowed, []);
    } else {
      var init, l := ls[..|ls| - 1], ls[|ls| - 1];
      assert ls == init + [l] && ls + more == init + ([l] + more);
      SameWasStable(init, [l] + more, allowed);
      var s := Run(START, init, allowed);
      RunSnoc(START, init, l, allowed);
      RunConcat(START, ls, more, allowed);
      if KindOf(l).Ssrc? && s.media.Some? && !Stable(Section(Prefix(s.media.value), s.ids, s.mids, s.codecs), []) {
        UnstableDiffers(s, l, allowed);
        DiffersForever(Step(s, l, allowed), more, allowed);
        assert false;
      }
      StepStable(s, l, allowed);
      KeepsRoleOfNothing(l);
      StepFollows(s, l, allowed, []);
    }
  }

  // ----- the theorems -----

  /** Filtering the written lines again changes nothing exactly when every written section is stable. */
  lemma IdempotentIfStable(ls: seq<Line>, allowed: seq<Bytes>)
    ensures Filtered(Filtered(ls, allowed), allowed) == Filtered(ls, allowed) <==>
            AllStable(Run(START, ls, allowed).out, [])
  {
    hide Run, RenderAll, Stable, KeepsRole;
    var s := Run(START, ls, allowed);
    ExtendNothing(RenderAll(s.out));
    RewriteNothing(s.out);
    if AllStable(s.out, []) {
      forall i | 0 <= i < |ls| ensures KeepsRole(ls[i], []) {
        KeepsRoleOfNothing(ls[i]);
      }
      RunFollows(ls, allowed, []);
    }
    if Filtered(Filtered(ls, allowed), allowed) == Filtered(ls, allowed) {
      assert ls + [] == ls;
      SameWasStable(ls, [], allowed);
    }
  }

  /** The section the filter makes of `g`, when the identifiers `ids` were announced before it. */
  function SectionOf(g: Segment, allowed: seq<Bytes>, ids: seq<Bytes>): Item {
    Section(Prefix(LastMedia(g.media, g.within)), ids + g.Ids(allowed), Plains(g.within), g.Codecs(allowed, ids))
  }

  /** Each section of the input keeps a media line that is cut at the same place, or an ordinary line and no codec line. */
  predicate StableSections(segments: seq<Segment>, allowed: seq<Bytes>, ids: seq<Bytes>)
    decreases |segments|
  {
    segments == [] ||
    (Stable(SectionOf(segments[0], allowed, ids), []) &&
     StableSections(segments[1..], allowed, ids + segments[0].Ids(allowed)))
  }

  lemma StableConcat(a: seq<Item>, b: seq<Item>)
    ensures AllStable(a + b, []) <==> AllStable(a, []) && AllStable(b, [])
  {
    hide Stable;
    assert forall i :: 0 <= i < |a| ==> (a + b)[i] == a[i];
    assert forall i :: 0 <= i < |b| ==> (a + b)[|a| + i] == b[i];
  }

  lemma PassesAreStable(ls: seq<Line>)
    ensures AllStable(Passes(ls), [])
  {
  }

  lemma OutputIsStable(g: Segment, allowed: seq<Bytes>, ids: seq<Bytes>)
    ensures AllStable(g.Output(allowed, ids), []) <==> Stable(SectionOf(g, allowed, ids), [])
  {
    hide KindOf, Prefix, Plains, LastMedia, Segment.Ids, Segment.Codecs;
    var item := SectionOf(g, allowed, ids);
    PassesAreStable(Plains(g.before));
    StableConcat(Passes(Plains(g.before)), [item, Pass(g.ssrc)]);
    assert [item, Pass(g.ssrc)][0] == item;
  }

  lemma {:induction false} ExpectedIsStable(segments: seq<Segment>, t: Tail, allowed: seq<Bytes>, ids: seq<Bytes>)
    ensures AllStable(Expected(segments, t, allowed, ids), []) <==> StableSections(segments, allowed, ids)
    decreases |segments|
  {
    hide Stable, SectionOf, Segment.Output, Segment.Ids, Plains, AllStable, Passes;
    if segments == [] {
      PassesAreStable(Plains(t.before));
    } else {
      var g := segments[0];
      var ids' := ids + g.Ids(allowed);
      OutputIsStable(g, allowed, ids);
      ExpectedIsStable(segments[1..], t, allowed, ids');
      StableConcat(g.Output(allowed, ids), Expected(segments[1..], t, allowed, ids'));
    }
  }

  /**
   * For every input, given as its sections and the lines behind them: filtering the written lines again changes
   * nothing exactly when each section of the input is stable.
   */
  lemma IdempotentExactly(segments: seq<Segment>, t: Tail, allowed: seq<Bytes>)
    requires AllValid(segments) && t.Valid()
    ensures var ls := Assembled(segments, t);
            Filtered(Filtered(ls, allowed), allowed) == Filtered(ls, allowed) <==> StableSections(segments, allowed, [])
  {
    hide Run, RenderAll, Expected, Assembled, StableSections, AllStable, AllValid;
    var ls := Assembled(segments, t);
    RunSegments([], [], segments, t, allowed);
    assert [] + Expected(segments, t, allowed, []) == Expected(segments, t, allowed, []);
    ExpectedIsStable(segments, t, allowed, []);
    IdempotentIfStable(ls, allowed);
  }

  /** Media lines have their standard shape. */
  ghost predicate AllStandardMedia(ls: seq<Line>) {
    forall i :: 0 <= i < |ls| && KindOf(ls[i]).Video? ==> StandardMedia(ls[i])
  }

  lemma {:induction false} StandardIsStable(ls: seq<Line>, allowed: seq<Bytes>, e: Bytes)
    requires AllStandardMedia(ls) && Returns(e)
    ensures var s := Run(START, ls, allowed);
            AllStable(s.out, e) && (s.media.Some? ==> StandardMedia(s.media.value))
    decreases |ls|
  {
    hide KindOf, Prefix, StandardMedia, MediaLine;
    if ls != [] {
      var init, l := ls[..|ls| - 1], ls[|ls| - 1];
      StandardIsStable(init, allowed, e);
      var s := Run(START, init, allowed);
      if KindOf(l).Ssrc? && s.media.Some? {
        MediaLineReadsBack(s.media.value, s.ids, e);
        assert Stable(Section(Prefix(s.media.value), s.ids, s.mids, s.codecs), e);
      }
    }
  }

  /** Idempotence on standard media lines, whatever the other lines look like. */
  lemma FilterIsIdempotent(ls: seq<Line>, allowed: seq<Bytes>)
    requires AllStandardMedia(ls)
    ensures Filtered(Filtered(ls, allowed), allowed) == Filtered(ls, allowed)
  {
    hide Run, RenderAll, Stable, StandardMedia;
    StandardIsStable(ls, allowed, []);
    IdempotentIfStable(ls, allowed);
  }

  /** The second pass, when every line of the first one's output comes back with `e` at its end. */
  lemma SecondPass(ls: seq<Line>, allowed: seq<Bytes>, e: Bytes)
    requires AllStandard(ls) && Returns(e)
    ensures Filtered(Extend(Filtered(ls, allowed), e), allowed) == RenderAll(RewrittenAll(Run(START, ls, allowed).out, e))
  {
    hide Run, RenderAll, RewrittenAll, Stable, KindOf, StandardMedia, Extend;
    forall i | 0 <= i < |ls| ensures KeepsRole(ls[i], e) {
      KindIgnoresReturns(ls[i], e);
    }
    StandardIsStable(ls, allowed, e);
    RunFollows(ls, allowed, e);
  }

  // ----- lines on which the filter is not idempotent -----

  lemma MissesWithout(s: Bytes, pattern: Bytes, c: byte)
    ensures c in pattern && c !in s ==> !Contains(s, pattern)
  {
  }

  lemma ContainsAt(s: Bytes, pattern: Bytes, i: nat)
    ensures OccursAt(s, pattern, i) ==> Contains(s, pattern)
  {
  }

  const MISPLACED: Line := "a b c m=video"
  const ANNOUNCED: Line := "a=rtpmap:1 c/"
  const PARTS: Bytes := "a b c"
  const ONE: Bytes := "1"
  const CODEC: Bytes := "c"

  lemma MisplacedMedia()
    ensures KindOf(MISPLACED).Video? && Prefix(MISPLACED) == PARTS
    ensures !KindOf(MediaLine(PARTS, [ONE]) + []).Video?
  {
    hide Prefix, Contains, Position;
    assert MISPLACED[6..6 + 7] == VIDEO;
    ContainsAt(MISPLACED, VIDEO, 6);
    var a: Bytes, b: Bytes, c: Bytes := "a", "b", "c";
    assert ThreeParts(a, b, c) == PARTS;
    assert MISPLACED == ThreeParts(a, b, c) + (SPACE + VIDEO);
    PrefixOfFourParts(a, b, c, VIDEO);
    var ids: seq<Bytes> := [ONE];
    var w := MediaLine(PARTS, ids);
    assert ids[..0] == [];
    assert Formats(ids) == SPACE + ONE;
    assert w + [] == w;
    MissesWithout(w, VIDEO, 'v');
  }

  lemma AnnouncedMap()
    ensures KindOf(ANNOUNCED) == Map(ONE, CODEC)
  {
    hide Contains, Position;
    MissesWithout(ANNOUNCED, VIDEO, 'v');
    assert ANNOUNCED[0..8] == RTPMAP;
    ContainsAt(ANNOUNCED, RTPMAP, 0);
    PositionIs(ANNOUNCED, ' ', 10);
    PositionIs(ANNOUNCED, '/', 12);
  }

  lemma SsrcIsSsrc()
    ensures KindOf(SSRC) == Ssrc
  {
    hide Contains, Position;
    MissesWithout(SSRC, VIDEO, 'v');
    MissesWithout(SSRC, RTPMAP, 'm');
    MissesWithout(SSRC, RTCP_FB, '-');
    MissesWithout(SSRC, FMTP, 'f');
    assert SSRC[0..6] == SSRC;
    ContainsAt(SSRC, SSRC, 0);
  }

  /** Three lines: the media line is written without its m=video, and the second pass then drops the codec line. */
  lemma IdempotenceFails()
    ensures var ls: seq<Line> := [MISPLACED, ANNOUNCED, SSRC];
            Filtered(Filtered(ls, [CODEC]), [CODEC]) != Filtered(ls, [CODEC])
  {
    hide Run, RenderAll, KindOf, Prefix, MediaLine;
    var allowed := [CODEC];
    var ls: seq<Line> := [MISPLACED, ANNOUNCED, SSRC];
    MisplacedMedia();
    AnnouncedMap();
    SsrcIsSsrc();
    RunNothing(START, allowed);
    RunSnoc(START, [], MISPLACED, allowed);
    RunSnoc(START, [] + [MISPLACED], ANNOUNCED, allowed);
    RunSnoc(START, [] + [MISPLACED] + [ANNOUNCED], SSRC, allowed);
    assert ls == [] + [MISPLACED] + [ANNOUNCED] + [SSRC];
    var section := Section(PARTS, [ONE], [], [ANNOUNCED]);
    assert Run(START, ls, allowed).out[0] == section;
    assert !Stable(section, []);
    IdempotentIfStable(ls, allowed);
  }
}
