/** What the codec filter promises about whole texts, about its identifiers, and about larger allow-lists. */
module SdpTheorems {
  import opened Bytes
  import opened SdpLines
  import opened SdpFilter
  import opened SdpIdempotence

  // ----- texts: every pass lengthens the line terminators -----

  /** Nothing the filter holds contains a line feed. */
  ghost predicate Tidy(s: State) {
    && AreLines(RenderAll(s.out)) && AreLines(s.codecs) && AreLines(s.mids) && AreLines(s.ids)
    && (s.media.Some? ==> OneLine(s.media.value))
  }

  lemma {:induction false} FormatsAreTidy(ids: seq<Bytes>)
    requires AreLines(ids)
    ensures OneLine(Formats(ids))
  {
    if ids != [] {
      FormatsAreTidy(ids[..|ids| - 1]);
    }
  }

  lemma KindIsTidy(l: Line)
    requires OneLine(l)
    ensures KindOf(l).Map? ==> OneLine(KindOf(l).id)
    ensures OneLine(Prefix(l))
  {
  }

  lemma FlushIsTidy(s: State, l: Line, allowed: seq<Bytes>)
    requires Tidy(s) && OneLine(l) && KindOf(l).Ssrc? && s.media.Some?
    ensures Tidy(Step(s, l, allowed))
  {
    hide KindOf, Prefix, RenderAll;
    KindIsTidy(s.media.value);
    FormatsAreTidy(s.ids);
    var section := Section(Prefix(s.media.value), s.ids, s.mids, s.codecs);
    assert s.out + [section, Pass(l)] == (s.out + [section]) + [Pass(l)];
    WriteItem(s.out, section);
    WriteItem(s.out + [section], Pass(l));
  }

  lemma StepIsTidy(s: State, l: Line, allowed: seq<Bytes>)
    requires Tidy(s) && OneLine(l)
    ensures Tidy(Step(s, l, allowed))
  {
    hide KindOf, Prefix, RenderAll;
    KindIsTidy(l);
    if KindOf(l).Ssrc? && s.media.Some? {
      FlushIsTidy(s, l, allowed);
    } else {
      WriteItem(s.out, Pass(l));
    }
  }

  lemma {:induction false} RunIsTidy(ls: seq<Line>, allowed: seq<Bytes>)
    requires AreLines(ls)
    ensures Tidy(Run(START, ls, allowed))
    decreases |ls|
  {
    hide Step, OneLine;
    if ls != [] {
      RunIsTidy(ls[..|ls| - 1], allowed);
      StepIsTidy(Run(START, ls[..|ls| - 1], allowed), ls[|ls| - 1], allowed);
    }
  }

  /** The second pass over a text: the same items, with one more carriage return in each line terminator. */
  lemma TextSecondPass(text: Bytes, allowed: seq<Bytes>)
    requires AllStandard(Lines(text))
    ensures FilterText(FilterText(text, allowed), allowed) ==
            Unlines(RenderAll(RewrittenAll(Run(START, Lines(text), allowed).out, CR)))
  {
    hide Run, RenderAll, Unlines, Lines, AllStandard, RewrittenAll;
    var ls := Lines(text);
    LinesAreLines(text);
    RunIsTidy(ls, allowed);
    WrittenReadsBack(Filtered(ls, allowed));
    SecondPass(ls, allowed, CR);
  }

  /** A line without the carriage returns at its end. */
  function Bare(l: Line): Line {
    if l != [] && l[|l| - 1] == '\r' then Bare(l[..|l| - 1]) else l
  }

  function Bares(ls: seq<Line>): (r: seq<Line>)
    ensures |r| == |ls| && forall i :: 0 <= i < |ls| ==> r[i] == Bare(ls[i])
  {
    seq(|ls|, i requires 0 <= i < |ls| => Bare(ls[i]))
  }

  lemma BareDropsReturn(l: Line)
    ensures Bare(l + CR) == Bare(l)
  {
    assert (l + CR)[..|l|] == l;
  }

  lemma RenderRewritten(item: Item)
    ensures Bares(Render(Rewritten(item, CR))) == Bares(Render(item))
  {
    hide Bare;
    var r, r' := Render(item), Render(Rewritten(item, CR));
    forall i | 0 <= i < |r| ensures Bare(r'[i]) == Bare(r[i]) {
      BareDropsReturn(r[i]);
      if item.Section? && item.ids == [] && i == 0 {
        assert MediaLine(item.prefix + CR, []) == r[0] + CR;
      }
    }
  }

  lemma {:induction false} RenderAllRewritten(items: seq<Item>)
    ensures Bares(RenderAll(RewrittenAll(items, CR))) == Bares(RenderAll(items))
    decreases |items|
  {
    hide Bare, Render, Rewritten;
    if items != [] {
      var n := |items| - 1;
      RenderAllRewritten(items[..n]);
      RenderRewritten(items[n]);
      assert RewrittenAll(items, CR)[..n] == RewrittenAll(items[..n], CR);
      BaresConcat(RenderAll(items[..n]), Render(items[n]));
      BaresConcat(RenderAll(RewrittenAll(items[..n], CR)), Render(Rewritten(items[n], CR)));
    }
  }

  lemma BaresConcat(a: seq<Line>, b: seq<Line>)
    ensures Bares(a + b) == Bares(a) + Bares(b)
  {
    hide Bare;
  }

  /** Texts: filtering twice gives the lines of filtering once, up to carriage returns at their ends. */
  lemma TextIdempotentUpToReturns(text: Bytes, allowed: seq<Bytes>)
    requires AllStandard(Lines(text))
    ensures Bares(Lines(FilterText(FilterText(text, allowed), allowed))) == Bares(Lines(FilterText(text, allowed)))
  {
    hide Run, RenderAll, Unlines, Lines, AllStandard, RewrittenAll, Bare;
    var ls := Lines(text);
    LinesAreLines(text);
    var once := Filtered(ls, allowed);
    RunIsTidy(ls, allowed);
    WrittenReadsBack(once);
    var twice := Filtered(Extend(once, CR), allowed);
    assert AreLines(Extend(once, CR));
    RunIsTidy(Extend(once, CR), allowed);
    WrittenReadsBack(twice);
    SecondPass(ls, allowed, CR);
    RenderAllRewritten(Run(START, ls, allowed).out);
    BaresOfExtended(once);
    BaresOfExtended(twice);
  }

  lemma BaresOfExtended(ls: seq<Line>)
    ensures Bares(Extend(ls, CR)) == Bares(ls)
  {
    hide Bare;
    forall i | 0 <= i < |ls| ensures Bare(ls[i] + CR) == Bare(ls[i]) {
      BareDropsReturn(ls[i]);
    }
  }

  // ----- exactly when a text is a fixed point -----

  ghost predicate HasMedia(ls: seq<Line>) {
    exists i :: 0 <= i < |ls| && KindOf(ls[i]).Video?
  }

  /** No line is written: every line that is not a media or codec line follows a media line and is no a=ssrc line. */
  ghost predicate Silent(ls: seq<Line>) {
    forall i :: 0 <= i < |ls| && KindOf(ls[i]).Copied?() ==> !KindOf(ls[i]).Ssrc? && HasMedia(ls[..i])
  }

  lemma HasMediaSnoc(ls: seq<Line>, l: Line)
    ensures HasMedia(ls + [l]) <==> HasMedia(ls) || KindOf(l).Video?
  {
    hide KindOf;
    var all := ls + [l];
    assert all[|ls|] == l;
    assert forall i :: 0 <= i < |ls| ==> all[i] == ls[i];
  }

  lemma SilentSnoc(ls: seq<Line>, l: Line)
    ensures Silent(ls + [l]) <==> Silent(ls) && (KindOf(l).Copied?() ==> !KindOf(l).Ssrc? && HasMedia(ls))
  {
    hide KindOf, HasMedia;
    var all := ls + [l];
    assert all[|ls|] == l && all[..|ls|] == ls;
    assert forall i :: 0 <= i < |ls| ==> all[i] == ls[i] && all[..i] == ls[..i];
  }

  lemma {:induction false} WritesNothingExactly(ls: seq<Line>, allowed: seq<Bytes>)
    ensures var s := Run(START, ls, allowed);
            && (s.out == [] <==> Silent(ls))
            && (s.out == [] ==> (s.media.Some? <==> HasMedia(ls)))
            && (s.out != [] ==> s.out[|s.out| - 1].Pass?)
    decreases |ls|
  {
    hide KindOf, Prefix, HasMedia, Silent;
    if ls == [] {
      assert Silent(ls) by { EmptyIsSilent(); }
      assert !HasMedia(ls) by { EmptyIsSilent(); }
    } else {
      var init, l := ls[..|ls| - 1], ls[|ls| - 1];
      assert ls == init + [l];
      WritesNothingExactly(init, allowed);
      HasMediaSnoc(init, l);
      SilentSnoc(init, l);
    }
  }

  lemma EmptyIsSilent()
    ensures Silent([]) && !HasMedia([])
  {
  }

  /** The lines copied into the output, in order. */
  function Through(items: seq<Item>): seq<Line> {
    if items == [] then []
    else
      match items[|items| - 1]
      case Pass(l) => Through(items[..|items| - 1]) + [l]
      case Section(_, _, mids, _) => Through(items[..|items| - 1]) + mids
  }

  function Sections(items: seq<Item>): nat {
    if items == [] then 0 else Sections(items[..|items| - 1]) + if items[|items| - 1].Section? then 1 else 0
  }

  function Medias(ls: seq<Line>): nat {
    if ls == [] then 0 else Medias(ls[..|ls| - 1]) + if KindOf(ls[|ls| - 1]).Video? then 1 else 0
  }

  /** Copied lines and codec lines are where they belong. */
  predicate Sorted(item: Item) {
    match item
    case Pass(l) => KindOf(l).Copied?()
    case Section(_, _, mids, codecs) => AllCopied(mids) && AllCodec(codecs)
  }

  predicate AllSorted(items: seq<Item>) {
    forall i :: 0 <= i < |items| ==> Sorted(items[i])
  }

  lemma PlainsSnoc(ls: seq<Line>, l: Line)
    ensures Plains(ls + [l]) == if KindOf(l).Copied?() then Plains(ls) + [l] else Plains(ls)
  {
    hide KindOf;
    assert (ls + [l])[..|ls|] == ls;
  }

  lemma {:induction false} PlainsConcat(a: seq<Line>, b: seq<Line>)
    ensures Plains(a + b) == Plains(a) + Plains(b)
    decreases |b|
  {
    hide KindOf, Plains;
    if b == [] {
      NoParts();
      assert a + b == a;
    } else {
      var init, l := b[..|b| - 1], b[|b| - 1];
      assert b == init + [l] && a + b == (a + init) + [l];
      PlainsConcat(a, init);
      PlainsSnoc(init, l);
      PlainsSnoc(a + init, l);
      assert (Plains(a) + Plains(init)) + [l] == Plains(a) + (Plains(init) + [l]);
    }
  }

  lemma NoParts()
    ensures Plains([]) == [] && Medias([]) == 0
  {
  }

  lemma {:induction false} CopiedParts(ls: seq<Line>)
    requires AllCopied(ls)
    ensures Plains(ls) == ls && Medias(ls) == 0
    decreases |ls|
  {
    hide KindOf, Plains, Medias;
    NoParts();
    if ls != [] {
      var init, l := ls[..|ls| - 1], ls[|ls| - 1];
      assert ls == init + [l];
      CopiedParts(init);
      PlainsSnoc(init, l);
      MediasSnoc(init, l);
    }
  }

  lemma {:induction false} MediasConcat(a: seq<Line>, b: seq<Line>)
    ensures Medias(a + b) == Medias(a) + Medias(b)
    decreases |b|
  {
    hide KindOf;
    if b == [] {
      assert a + b == a;
    } else {
      assert (a + b)[..|a| + |b| - 1] == a + b[..|b| - 1];
      MediasConcat(a, b[..|b| - 1]);
    }
  }

  lemma {:induction false} CodecParts(ls: seq<Line>)
    requires AllCodec(ls)
    ensures Plains(ls) == [] && Medias(ls) == 0
    decreases |ls|
  {
    hide KindOf, Plains, Medias;
    NoParts();
    if ls != [] {
      var init, l := ls[..|ls| - 1], ls[|ls| - 1];
      assert ls == init + [l];
      CodecParts(init);
      PlainsSnoc(init, l);
      MediasSnoc(init, l);
    }
  }

  /** What one more item adds to what has been copied and counted. */
  lemma ItemSnoc(items: seq<Item>, item: Item)
    ensures Through(items + [item]) == Through(items) + (if item.Pass? then [item.line] else item.mids)
    ensures Sections(items + [item]) == Sections(items) + if item.Section? then 1 else 0
    ensures AllSorted(items) && Sorted(item) ==> AllSorted(items + [item])
  {
    hide Sorted;
    assert (items + [item])[..|items|] == items;
  }

  lemma MediasSnoc(ls: seq<Line>, l: Line)
    ensures Medias(ls + [l]) == Medias(ls) + if KindOf(l).Video? then 1 else 0
  {
    hide KindOf;
    assert (ls + [l])[..|ls|] == ls;
  }

  /** Every copied line of the input is in the output or still in its section, and no section is written twice. */
  ghost predicate Accounts(s: State, ls: seq<Line>) {
    && Through(s.out) + s.mids == Plains(ls)
    && Sections(s.out) + (if s.media.Some? then 1 else 0) <= Medias(ls)
    && AllSorted(s.out) && AllCopied(s.mids) && AllCodec(s.codecs)
    && (s.media.None? ==> s.mids == [])
  }

  lemma StepAccounts(s: State, ls: seq<Line>, l: Line, allowed: seq<Bytes>)
    requires Accounts(s, ls)
    ensures Accounts(Step(s, l, allowed), ls + [l])
  {
    hide KindOf, Prefix, Plains, Medias, Through, Sections, AllSorted, Run, MapIds, Kept, LastMedia;
    OneMore(START, ls, l, allowed, [], []);
    MediasSnoc(ls, l);
    ItemSnoc(s.out, Pass(l));
    if KindOf(l).Ssrc? && s.media.Some? {
      var section := Section(Prefix(s.media.value), s.ids, s.mids, s.codecs);
      ItemSnoc(s.out, section);
      ItemSnoc(s.out + [section], Pass(l));
      assert s.out + [section, Pass(l)] == (s.out + [section]) + [Pass(l)];
      assert (Through(s.out) + s.mids) + [l] + [] == Plains(ls) + [l];
    } else if KindOf(l).Copied?() {
      assert s.media.Some? ==> Through(s.out) + (s.mids + [l]) == (Through(s.out) + s.mids) + [l];
      assert s.media.None? ==> (Through(s.out) + [l]) + [] == (Through(s.out) + []) + [l];
    }
  }

  lemma {:induction false} RunAccounts(ls: seq<Line>, allowed: seq<Bytes>)
    ensures Accounts(Run(START, ls, allowed), ls)
    decreases |ls|
  {
    hide Step, KindOf;
    if ls != [] {
      var init, l := ls[..|ls| - 1], ls[|ls| - 1];
      assert ls == init + [l];
      RunAccounts(init, allowed);
      StepAccounts(Run(START, init, allowed), init, l, allowed);
    }
  }

  lemma RenderedItem(item: Item)
    requires Sorted(item)
    ensures var n := if item.Section? then 1 else 0;
            && Medias(Render(item)) <= n
            && (Medias(Render(item)) == n ==> Plains(Render(item)) == if item.Pass? then [item.line] else item.mids)
  {
    hide KindOf, Plains, Medias, Kept, MapIds, MediaLine;
    match item
    case Pass(l) =>
      assert AllCopied([l]);
      CopiedParts([l]);
    case Section(p, ids, mids, codecs) =>
      var m := MediaLine(p, ids);
      PlainsConcat([m] + mids, codecs);
      PlainsConcat([m], mids);
      MediasConcat([m] + mids, codecs);
      MediasConcat([m], mids);
      CopiedParts(mids);
      CodecParts(codecs);
      OneMedia(m);
  }

  lemma OneMedia(m: Line)
    ensures Medias([m]) == if KindOf(m).Video? then 1 else 0
    ensures KindOf(m).Video? ==> Plains([m]) == []
  {
    hide KindOf;
    var one: seq<Line> := [m];
    assert one[..0] == [];
  }

  /** When as many media lines are written as sections, the copied lines written are those copied through. */
  lemma {:induction false} RenderedCopies(items: seq<Item>)
    requires AllSorted(items)
    ensures Medias(RenderAll(items)) <= Sections(items)
    ensures Medias(RenderAll(items)) == Sections(items) ==> Plains(RenderAll(items)) == Through(items)
    decreases |items|
  {
    hide KindOf, Plains, Medias, Render, Sorted, MapIds, Kept;
    if items == [] {
      CodecParts([]);
    } else {
      var init, item := items[..|items| - 1], items[|items| - 1];
      RenderedCopies(init);
      RenderedItem(item);
      PlainsConcat(RenderAll(init), Render(item));
      MediasConcat(RenderAll(init), Render(item));
    }
  }

  /** Whether a line is a media line or copied does not depend on the carriage returns at its end. */
  lemma RolesIgnoreReturns(l: Line)
    ensures KindOf(l + CR).Video? <==> KindOf(l).Video?
    ensures KindOf(l + CR).Copied?() <==> KindOf(l).Copied?()
  {
    hide Contains, Position, Between, MapId;
    ContainsIgnoresReturns(l, VIDEO, CR);
    ContainsIgnoresReturns(l, RTPMAP, CR);
    ContainsIgnoresReturns(l, RTCP_FB, CR);
    ContainsIgnoresReturns(l, FMTP, CR);
  }

  lemma {:induction false} ExtendedRoles(ls: seq<Line>)
    ensures Plains(Extend(ls, CR)) == Extend(Plains(ls), CR) && Medias(Extend(ls, CR)) == Medias(ls)
    decreases |ls|
  {
    hide KindOf, Plains, Medias, MapIds, Kept, Run, LastMedia, Extend;
    if ls == [] {
      CodecParts([]);
      assert Extend(ls, CR) == [];
    } else {
      var init, l := ls[..|ls| - 1], ls[|ls| - 1];
      assert ls == init + [l];
      ExtendedRoles(init);
      ExtendSnoc(init, l, CR);
      RolesIgnoreReturns(l);
      OneMore(START, init, l, [], [], []);
      OneMore(START, Extend(init, CR), l + CR, [], [], []);
      ExtendSnoc(Plains(init), l, CR);
      MediasSnoc(init, l);
      MediasSnoc(Extend(init, CR), l + CR);
    }
  }

  lemma {:induction false} PassIsCopied(items: seq<Item>)
    requires AllSorted(items) && items != [] && items[|items| - 1].Pass?
    ensures Plains(RenderAll(items)) != []
  {
    hide KindOf, Plains, MapIds, Kept;
    var init, l := items[..|items| - 1], items[|items| - 1].line;
    PlainsConcat(RenderAll(init), [l]);
    assert AllCopied([l]);
    CopiedParts([l]);
  }

  lemma NothingIsLonger(ls: seq<Line>, more: seq<Line>)
    ensures ls + more == Extend(ls, CR) ==> ls == []
  {
    if ls != [] {
      assert (ls + more)[0] == ls[0] != Extend(ls, CR)[0];
    }
  }

  /** Lines that the filter writes unchanged, with longer terminators, have no copied line among them. */
  lemma FixedLinesCopyNothing(ls: seq<Line>, allowed: seq<Bytes>)
    requires Filtered(Extend(ls, CR), allowed) == ls
    ensures Plains(ls) == []
  {
    hide KindOf, Plains, Medias, Run, RenderAll, Through, Sections, Extend;
    var again := Extend(ls, CR);
    var s := Run(START, again, allowed);
    RunAccounts(again, allowed);
    RenderedCopies(s.out);
    ExtendedRoles(ls);
    NothingIsLonger(Plains(ls), s.mids);
  }

  lemma SameTextSameLines(a: seq<Line>, b: seq<Line>)
    requires AreLines(a) && AreLines(b) && Unlines(a) == Unlines(b)
    ensures a == b
  {
    hide Unlines, Lines, OneLine;
    WrittenReadsBack(a);
    WrittenReadsBack(b);
    var x, y := Extend(a, CR), Extend(b, CR);
    forall i | 0 <= i < |a| ensures a[i] == b[i] {
      assert x[i] == a[i] + CR && y[i] == b[i] + CR;
      assert x[i][..|a[i]|] == a[i] && y[i][..|b[i]|] == b[i];
    }
  }

  /** Read back, no written line is a bare a=rtpmap: the second pass never throws. */
  lemma WrittenNeverThrows(ls: seq<Line>)
    requires AreLines(ls)
    ensures RTPMAP !in Lines(Unlines(ls))
  {
    hide Unlines, Lines, OneLine;
    WrittenReadsBack(ls);
    forall i | 0 <= i < |ls| ensures Extend(ls, CR)[i] != RTPMAP {
      assert Extend(ls, CR)[i][|ls[i]|] == '\r';
      assert '\r' !in RTPMAP;
    }
  }

  /** On texts the filter is idempotent exactly on the inputs it writes nothing for; it never throws on its output. */
  lemma TextIdempotentExactly(text: Bytes, allowed: seq<Bytes>)
    ensures var once := Forced(text, allowed);
            once.Ok? ==> && Forced(once.value, allowed).Ok?
                         && (Forced(once.value, allowed) == once <==> Silent(Lines(text)))
  {
    hide Run, RenderAll, Unlines, Lines, Silent, KindOf, Plains, OneLine, AllSorted;
    var ls := Lines(text);
    var items, once := Run(START, ls, allowed).out, Filtered(ls, allowed);
    LinesAreLines(text);
    RunIsTidy(ls, allowed);
    WrittenNeverThrows(once);
    WrittenReadsBack(once);
    assert AreLines(Extend(once, CR)) by { LinesAreLines(Unlines(once)); }
    RunIsTidy(Extend(once, CR), allowed);
    WritesNothingExactly(ls, allowed);
    RunAccounts(ls, allowed);
    if items == [] {
      FixedNothing(allowed);
    } else {
      PassIsCopied(items);
      if FilterText(FilterText(text, allowed), allowed) == FilterText(text, allowed) {
        SameTextSameLines(Filtered(Extend(once, CR), allowed), once);
        FixedLinesCopyNothing(once, allowed);
        assert false;
      }
    }
  }

  lemma FixedNothing(allowed: seq<Bytes>)
    ensures Unlines(RenderAll([])) == [] && FilterText([], allowed) == []
  {
    assert Lines([]) == [];
    assert Run(START, [], allowed) == START;
  }

  /** A one-line text whose second filtering differs from its first. */
  lemma TextIdempotenceFails()
    ensures var text: Bytes := "v=0\r\n";
            Forced(text, []).Ok? && Forced(Forced(text, []).value, []) != Forced(text, [])
  {
    hide Run, RenderAll, FilterText, KindOf;
    var text: Bytes := "v=0\r\n";
    var l: Line := "v=0\r";
    assert text == l + (['\n'] + []);
    CutUndoesJoin(l, true, '\n', []);
    assert Lines(text) == [l];
    assert |l| != |RTPMAP|;
    ShortIsPlain(l);
    TextIdempotentExactly(text, []);
    assert !HasMedia([l][..0]);
    assert KindOf([l][0]).Copied?();
  }

  lemma ShortIsPlain(l: Line)
    ensures |l| < 6 ==> KindOf(l) == Plain
  {
    hide Position;
  }

  // ----- soundness -----

  /** Line `i` is an rtpmap line that announces `id` with an allowed codec. */
  predicate AnnouncedAt(ls: seq<Line>, allowed: seq<Bytes>, id: Bytes, i: nat) {
    i < |ls| && var k := KindOf(ls[i]); k.Map? && k.id == id && k.codec in allowed
  }

  /** One of the first `n` lines announces `id`. */
  ghost predicate Announced(ls: seq<Line>, allowed: seq<Bytes>, id: Bytes, n: nat) {
    exists i: nat :: i < n && AnnouncedAt(ls, allowed, id, i)
  }

  /** Line `i` is `l`, and it announces an allowed codec or speaks about an identifier announced before it. */
  ghost predicate KeptAt(ls: seq<Line>, allowed: seq<Bytes>, l: Line, i: nat) {
    && i < |ls| && ls[i] == l
    && var k := KindOf(l);
       (k.Map? && k.codec in allowed) || (k.Attribute? && Announced(ls, allowed, k.id, i))
  }

  ghost predicate Justified(ls: seq<Line>, allowed: seq<Bytes>, l: Line) {
    exists i: nat :: KeptAt(ls, allowed, l, i)
  }

  ghost predicate SoundLines(ls: seq<Line>, allowed: seq<Bytes>, codecs: seq<Line>) {
    forall l :: l in codecs ==> Justified(ls, allowed, l)
  }

  ghost predicate SoundIds(ls: seq<Line>, allowed: seq<Bytes>, ids: seq<Bytes>) {
    forall id :: id in ids ==> Announced(ls, allowed, id, |ls|)
  }

  /** Every identifier and codec line of an item can be traced to lines of `ls`. */
  ghost predicate SoundItem(ls: seq<Line>, allowed: seq<Bytes>, item: Item) {
    item.Section? ==> SoundIds(ls, allowed, item.ids) && SoundLines(ls, allowed, item.codecs)
  }

  /** What the filter holds can be traced to the lines read. */
  ghost predicate Sound(ls: seq<Line>, allowed: seq<Bytes>, s: State) {
    SoundIds(ls, allowed, s.ids) && SoundLines(ls, allowed, s.codecs)
  }

  /** Item `k` of the output is written at the a=ssrc line `n`, and the lines before that one justify it. */
  ghost predicate JustifiedAt(ls: seq<Line>, allowed: seq<Bytes>, out: seq<Item>, k: nat, n: nat) {
    && k < |out| && n < |ls| && KindOf(ls[n]).Ssrc?
    && Run(START, ls[..n], allowed).out == out[..k]
    && SoundItem(ls[..n], allowed, out[k])
  }

  ghost predicate AllJustified(ls: seq<Line>, allowed: seq<Bytes>, out: seq<Item>) {
    forall k: nat :: k < |out| && out[k].Section? ==> exists n: nat :: JustifiedAt(ls, allowed, out, k, n)
  }

  lemma AnnouncedGrows(ls: seq<Line>, l: Line, allowed: seq<Bytes>, id: Bytes, n: nat)
    requires Announced(ls, allowed, id, n)
    ensures Announced(ls + [l], allowed, id, n)
  {
    hide KindOf;
    var i: nat :| i < n && AnnouncedAt(ls, allowed, id, i);
    assert AnnouncedAt(ls + [l], allowed, id, i);
  }

  lemma KeptGrows(ls: seq<Line>, l: Line, allowed: seq<Bytes>, x: Line, i: nat)
    requires KeptAt(ls, allowed, x, i)
    ensures KeptAt(ls + [l], allowed, x, i)
  {
    hide KindOf, Announced;
    if KindOf(x).Attribute? {
      AnnouncedGrows(ls, l, allowed, KindOf(x).id, i);
    }
  }

  lemma AnnouncedWithin(ls: seq<Line>, allowed: seq<Bytes>, id: Bytes, m: nat, n: nat)
    ensures Announced(ls, allowed, id, m) && m <= n ==> Announced(ls, allowed, id, n)
  {
    hide AnnouncedAt;
  }

  /** The line read last, if it is kept: it is justified, and so is the identifier it announces. */
  lemma LastIsJustified(ls: seq<Line>, l: Line, allowed: seq<Bytes>)
    ensures var k, all := KindOf(l), ls + [l];
            && (k.Map? && k.codec in allowed ==> AnnouncedAt(all, allowed, k.id, |ls|) && KeptAt(all, allowed, l, |ls|))
            && (k.Attribute? && Announced(all, allowed, k.id, |ls|) ==> KeptAt(all, allowed, l, |ls|))
  {
    hide KindOf, Announced;
    assert (ls + [l])[|ls|] == l;
  }

  lemma StepIsSound(ls: seq<Line>, l: Line, allowed: seq<Bytes>, s: State)
    requires Sound(ls, allowed, s)
    ensures Sound(ls + [l], allowed, Step(s, l, allowed))
  {
    hide KindOf, Prefix, AnnouncedAt, KeptAt;
    var all := ls + [l];
    forall id | id in s.ids
      ensures Announced(all, allowed, id, |ls|) && Announced(all, allowed, id, |all|)
    {
      AnnouncedGrows(ls, l, allowed, id, |ls|);
      AnnouncedWithin(all, allowed, id, |ls|, |all|);
    }
    forall x | x in s.codecs ensures Justified(all, allowed, x) {
      var i: nat :| KeptAt(ls, allowed, x, i);
      KeptGrows(ls, l, allowed, x, i);
    }
    LastIsJustified(ls, l, allowed);
  }

  lemma JustifiedStays(ls: seq<Line>, l: Line, allowed: seq<Bytes>, out: seq<Item>, out': seq<Item>, k: nat, n: nat)
    requires JustifiedAt(ls, allowed, out, k, n) && out <= out'
    ensures JustifiedAt(ls + [l], allowed, out', k, n)
  {
    hide KindOf, Run, SoundItem;
    assert (ls + [l])[..n] == ls[..n] && (ls + [l])[n] == ls[n] && out'[..k] == out[..k] && out'[k] == out[k];
  }

  lemma StepIsJustified(ls: seq<Line>, l: Line, allowed: seq<Bytes>, s: State)
    requires s == Run(START, ls, allowed) && Sound(ls, allowed, s) && AllJustified(ls, allowed, s.out)
    ensures AllJustified(ls + [l], allowed, Step(s, l, allowed).out)
  {
    hide KindOf, Run, Prefix, SoundIds, SoundLines, JustifiedAt;
    var out := Step(s, l, allowed).out;
    assert s.out <= out;
    forall k: nat | k < |out| && out[k].Section? ensures exists n: nat :: JustifiedAt(ls + [l], allowed, out, k, n) {
      if k < |s.out| {
        var n: nat :| JustifiedAt(ls, allowed, s.out, k, n);
        JustifiedStays(ls, l, allowed, s.out, out, k, n);
      } else {
        JustifiedNow(ls, l, allowed, s);
      }
    }
  }

  lemma JustifiedNow(ls: seq<Line>, l: Line, allowed: seq<Bytes>, s: State)
    requires s == Run(START, ls, allowed) && Sound(ls, allowed, s) && KindOf(l).Ssrc? && s.media.Some?
    ensures JustifiedAt(ls + [l], allowed, Step(s, l, allowed).out, |s.out|, |ls|)
  {
    hide KindOf, Run, Prefix, SoundIds, SoundLines;
    assert (ls + [l])[..|ls|] == ls;
    assert Step(s, l, allowed).out[..|s.out|] == s.out;
  }

  /**
   * Soundness: every identifier on a written m=video line comes from an rtpmap line with an allowed codec before
   * the a=ssrc line it is written at, and so does the identifier of every kept codec line.
   */
  lemma {:induction false} FilterIsSound(ls: seq<Line>, allowed: seq<Bytes>)
    ensures var s := Run(START, ls, allowed); Sound(ls, allowed, s) && AllJustified(ls, allowed, s.out)
    decreases |ls|
  {
    hide Step, Sound, JustifiedAt;
    if ls == [] {
      assert Sound([], allowed, START) by { StartIsSound(allowed); }
    } else {
      var init, l := ls[..|ls| - 1], ls[|ls| - 1];
      assert ls == init + [l];
      FilterIsSound(init, allowed);
      StepIsSound(init, l, allowed, Run(START, init, allowed));
      StepIsJustified(init, l, allowed, Run(START, init, allowed));
    }
  }

  lemma StartIsSound(allowed: seq<Bytes>)
    ensures Sound([], allowed, START)
  {
  }

  // ----- a larger allow-list -----

  /** `a` is `b` with some elements left out. */
  ghost predicate Sub<T>(a: seq<T>, b: seq<T>)
    decreases |b|
  {
    a == [] ||
    (b != [] && ((a[|a| - 1] == b[|b| - 1] && Sub(a[..|a| - 1], b[..|b| - 1])) || Sub(a, b[..|b| - 1])))
  }

  lemma SubSnoc<T>(a: seq<T>, b: seq<T>, x: T)
    requires Sub(a, b)
    ensures Sub(a + [x], b + [x]) && Sub(a, b + [x])
  {
    assert (a + [x])[..|a|] == a && (b + [x])[..|b|] == b;
  }

  lemma {:induction false} SubMember<T>(a: seq<T>, b: seq<T>, x: T)
    requires Sub(a, b) && x in a
    ensures x in b
    decreases |b|
  {
    var a', b' := a[..|a| - 1], b[..|b| - 1];
    if a[|a| - 1] == b[|b| - 1] && Sub(a', b') {
      if x in a' {
        SubMember(a', b', x);
      }
    } else {
      SubMember(a, b', x);
    }
  }

  /** The same item, possibly with more identifiers and more codec lines. */
  ghost predicate Widened(x: Item, y: Item) {
    match (x, y)
    case (Pass(l), Pass(m)) => l == m
    case (Section(p, ids, mids, codecs), Section(p', ids', mids', codecs')) =>
      p == p' && mids == mids' && Sub(ids, ids') && Sub(codecs, codecs')
    case _ => false
  }

  ghost predicate WidenedAll(xs: seq<Item>, ys: seq<Item>) {
    |xs| == |ys| && forall i :: 0 <= i < |xs| ==> Widened(xs[i], ys[i])
  }

  ghost predicate WidenedState(s: State, t: State) {
    && WidenedAll(s.out, t.out) && Sub(s.codecs, t.codecs) && s.mids == t.mids && s.media == t.media && Sub(s.ids, t.ids)
  }

  lemma WidenedSnoc(xs: seq<Item>, ys: seq<Item>, x: Item, y: Item)
    ensures WidenedAll(xs, ys) && Widened(x, y) ==> WidenedAll(xs + [x], ys + [y])
  {
    hide Widened;
  }

  lemma CodecWidens(s: State, t: State, l: Line, few: seq<Bytes>, many: seq<Bytes>)
    requires WidenedState(s, t) && (forall c :: c in few ==> c in many) && KindOf(l).Codec?()
    ensures WidenedState(Step(s, l, few), Step(t, l, many))
  {
    hide KindOf, Sub, WidenedAll, Prefix;
    SubSnoc(s.codecs, t.codecs, l);
    var k := KindOf(l);
    if k.Map? {
      SubSnoc(s.ids, t.ids, k.id);
    } else if k.id in s.ids {
      SubMember(s.ids, t.ids, k.id);
    }
  }

  lemma FlushWidens(s: State, t: State, l: Line, few: seq<Bytes>, many: seq<Bytes>)
    requires WidenedState(s, t) && KindOf(l).Ssrc? && s.media.Some?
    ensures WidenedState(Step(s, l, few), Step(t, l, many))
  {
    hide KindOf, Sub, WidenedAll, Prefix;
    var p := Prefix(s.media.value);
    var x, y := Section(p, s.ids, s.mids, s.codecs), Section(p, t.ids, t.mids, t.codecs);
    WidenedSnoc(s.out, t.out, x, y);
    WidenedSnoc(s.out + [x], t.out + [y], Pass(l), Pass(l));
    assert s.out + [x, Pass(l)] == (s.out + [x]) + [Pass(l)] && t.out + [y, Pass(l)] == (t.out + [y]) + [Pass(l)];
    EmptyIsSub<Line>();
  }

  lemma StepWidens(s: State, t: State, l: Line, few: seq<Bytes>, many: seq<Bytes>)
    requires WidenedState(s, t) && forall c :: c in few ==> c in many
    ensures WidenedState(Step(s, l, few), Step(t, l, many))
  {
    hide KindOf, Sub, WidenedAll, Prefix;
    if KindOf(l).Codec?() {
      CodecWidens(s, t, l, few, many);
    } else if KindOf(l).Ssrc? && s.media.Some? {
      FlushWidens(s, t, l, few, many);
    } else {
      WidenedSnoc(s.out, t.out, Pass(l), Pass(l));
    }
  }

  lemma EmptyIsSub<T>()
    ensures forall b: seq<T> :: Sub([], b)
  {
  }

  /** Monotonicity: a larger allow-list adds identifiers and codec lines in order, and changes nothing else. */
  lemma {:induction false} FilterIsMonotone(ls: seq<Line>, few: seq<Bytes>, many: seq<Bytes>)
    requires forall c :: c in few ==> c in many
    ensures WidenedState(Run(START, ls, few), Run(START, ls, many))
    decreases |ls|
  {
    hide Step;
    if ls != [] {
      var init := ls[..|ls| - 1];
      FilterIsMonotone(init, few, many);
      StepWidens(Run(START, init, few), Run(START, init, many), ls[|ls| - 1], few, many);
    }
  }
}
