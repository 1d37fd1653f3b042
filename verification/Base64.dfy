/** The streaming Base64 encoder of the HTTP client (section 4 of RFC 4648). */
module Base64 {
  import opened Bytes

  const UPPER: Bytes := "ABCDEFGHIJKLMNOPQRSTUVWXYZ"
  const LOWER: Bytes := "abcdefghijklmnopqrstuvwxyz"
  const OTHERS: Bytes := "0123456789+/"

  /** The encoder's table of characters. */
  const TABLE: Bytes := UPPER + (LOWER + OTHERS)

  const PAD: byte := '='

  /** The Base64 alphabet. */
  function Symbol(d: nat): byte
    requires d < 64
  {
    if d < 26 then ('A' as int + d) as char
    else if d < 52 then ('a' as int + (d - 26)) as char
    else if d < 62 then ('0' as int + (d - 52)) as char
    else if d == 62 then '+' else '/'
  }

  lemma TableHoldsAlphabet(d: nat)
    requires d < 64
    ensures |TABLE| == 64 && TABLE[d] == Symbol(d)
  {
    assert |UPPER| == 26 && |LOWER| == 26 && |OTHERS| == 12;
    assert TABLE[d] == if d < 26 then UPPER[d] else if d < 52 then LOWER[d - 26] else OTHERS[d - 52];
  }

  function SymbolValue(c: byte): Option<nat> {
    if 'A' <= c <= 'Z' then Some(c as int - 'A' as int)
    else if 'a' <= c <= 'z' then Some(c as int - 'a' as int + 26)
    else if '0' <= c <= '9' then Some(c as int - '0' as int + 52)
    else if c == '+' then Some(62) else if c == '/' then Some(63) else None
  }

  lemma SymbolReadsBack(d: nat)
    ensures d < 64 ==> SymbolValue(Symbol(d)) == Some(d) && Symbol(d) != PAD
  {
  }

  lemma ReadSymbolPrintsBack(c: byte)
    ensures SymbolValue(c).Some? ==> SymbolValue(c).value < 64 && Symbol(SymbolValue(c).value) == c && c != PAD
  {
  }

  // ----- the definition, group by group -----

  /** A 24-bit group as four 6-bit symbols. */
  function Group(v: nat): (t: Bytes)
    requires v < 0x100_0000
    ensures |t| == 4
  {
    [Symbol(v / 0x4_0000), Symbol(v / 0x1000 % 64), Symbol(v / 64 % 64), Symbol(v % 64)]
  }

  function Bits(a: octet, b: octet, c: octet): (v: nat)
    ensures v < 0x100_0000
  {
    a * 0x1_0000 + b * 0x100 + c
  }

  // The four sextets of a group, from its octets.

  function S0(a: octet): (d: nat)
    ensures d < 64
  {
    a / 4
  }

  function S1(a: octet, b: octet): (d: nat)
    ensures d < 64
  {
    a % 4 * 16 + b / 16
  }

  function S2(b: octet, c: octet): (d: nat)
    ensures d < 64
  {
    b % 16 * 4 + c / 64
  }

  function S3(c: octet): (d: nat)
    ensures d < 64
  {
    c % 64
  }

  /** Whole groups, then a final group padded with zero bits and as many pad characters as octets are missing. */
  function Encode(s: seq<octet>): Bytes {
    if s == [] then []
    else if |s| == 1 then Group(Bits(s[0], 0, 0))[..2] + [PAD, PAD]
    else if |s| == 2 then Group(Bits(s[0], s[1], 0))[..3] + [PAD]
    else Group(Bits(s[0], s[1], s[2])) + Encode(s[3..])
  }

  /** The value of four symbols. */
  function Ungroup(t: Bytes): Option<nat>
    requires |t| == 4
  {
    var a, b, c, d := SymbolValue(t[0]), SymbolValue(t[1]), SymbolValue(t[2]), SymbolValue(t[3]);
    if a.None? || b.None? || c.None? || d.None? then None
    else Some(a.value * 0x4_0000 + b.value * 0x1000 + c.value * 64 + d.value)
  }

  /** Replace pad characters by zero symbols. */
  function Unpad(t: Bytes, pads: nat): Bytes
    requires |t| == 4 && pads <= 2
  {
    t[..4 - pads] + [Symbol(0), Symbol(0)][..pads]
  }

  /** The strict decoder: groups of four, padding only at the end, and the unused bits of the last group zero. */
  function Decode(t: Bytes): Option<seq<octet>> {
    if t == [] then Some([])
    else if |t| < 4 then None
    else if |t| == 4 && t[3] == PAD then
      var pads := if t[2] == PAD then 2 else 1;
      var v := Ungroup(Unpad(t, pads));
      if v.None? || v.value >= 0x100_0000 then None
      else if pads == 2 then (if v.value % 0x1_0000 == 0 then Some([v.value / 0x1_0000]) else None)
      else if v.value % 0x100 == 0 then Some([v.value / 0x1_0000, v.value / 0x100 % 0x100]) else None
    else
      var v, rest := Ungroup(t[..4]), Decode(t[4..]);
      if v.None? || v.value >= 0x100_0000 || rest.None? then None
      else Some([v.value / 0x1_0000, v.value / 0x100 % 0x100, v.value % 0x100] + rest.value)
  }

  lemma Sextets(v: nat)
    ensures v == v / 0x4_0000 * 0x4_0000 + v / 0x1000 % 64 * 0x1000 + v / 64 % 64 * 64 + v % 64
  {
    assert v / 0x1000 == v / 64 / 64 && v / 0x4_0000 == v / 64 / 64 / 64;
  }

  lemma SextetsAreUnique(a: nat, b: nat, c: nat, d: nat)
    requires b < 64 && c < 64 && d < 64
    ensures var v := a * 0x4_0000 + b * 0x1000 + c * 64 + d;
            v / 0x4_0000 == a && v / 0x1000 % 64 == b && v / 64 % 64 == c && v % 64 == d
  {
    var v := a * 0x4_0000 + b * 0x1000 + c * 64 + d;
    var w := a * 0x1000 + b * 64 + c;
    var x := a * 64 + b;
    assert v == w * 64 + d && v / 64 == w;
    assert w == x * 64 + c && w / 64 == x && v / 0x1000 == v / 64 / 64;
    assert x / 64 == a && v / 0x4_0000 == v / 64 / 64 / 64;
  }

  lemma UngroupUndoesGroup(v: nat)
    requires v < 0x100_0000
    ensures Ungroup(Group(v)) == Some(v)
  {
    hide Symbol, SymbolValue;
    Sextets(v);
    SymbolReadsBack(v / 0x4_0000);
    SymbolReadsBack(v / 0x1000 % 64);
    SymbolReadsBack(v / 64 % 64);
    SymbolReadsBack(v % 64);
  }

  lemma GroupUndoesUngroup(t: Bytes)
    requires |t| == 4 && Ungroup(t).Some?
    ensures Ungroup(t).value < 0x100_0000 && Group(Ungroup(t).value) == t
  {
    hide Symbol, SymbolValue;
    ReadSymbolPrintsBack(t[0]);
    ReadSymbolPrintsBack(t[1]);
    ReadSymbolPrintsBack(t[2]);
    ReadSymbolPrintsBack(t[3]);
    var a, b, c, d := SymbolValue(t[0]).value, SymbolValue(t[1]).value, SymbolValue(t[2]).value, SymbolValue(t[3]).value;
    SextetsAreUnique(a, b, c, d);
  }

  lemma LowSextets(v: nat)
    ensures v % 0x1000 == 0 ==> v / 64 % 64 == 0 && v % 64 == 0
  {
    Sextets(v);
  }

  lemma UnpadGroup(v: nat, pads: nat)
    requires v < 0x100_0000 && pads <= 2
    requires pads == 2 ==> v % 0x1000 == 0
    requires pads == 1 ==> v % 64 == 0
    ensures Unpad(Group(v)[..4 - pads] + [PAD, PAD][..pads], pads) == Group(v)
  {
    hide Symbol;
    LowSextets(v);
    var g := Group(v);
    var t := g[..4 - pads] + [PAD, PAD][..pads];
    assert t[..4 - pads] == g[..4 - pads];
  }

  lemma DecodesOne(a: octet)
    ensures Decode(Encode([a])) == Some([a])
  {
    hide Ungroup, Unpad, Group;
    OctetsOfBits(a, 0, 0);
    var v := Bits(a, 0, 0);
    UngroupUndoesGroup(v);
    UnpadGroup(v, 2);
    assert [PAD, PAD][..2] == [PAD, PAD];
    assert Encode([a]) == Group(v)[..2] + [PAD, PAD];
  }

  lemma DecodesTwo(a: octet, b: octet)
    ensures Decode(Encode([a, b])) == Some([a, b])
  {
    hide Ungroup, Unpad, Group;
    OctetsOfBits(a, b, 0);
    var v := Bits(a, b, 0);
    UngroupUndoesGroup(v);
    UnpadGroup(v, 1);
    GroupIsSymbols(v);
    assert [PAD, PAD][..1] == [PAD];
    assert Encode([a, b]) == Group(v)[..3] + [PAD];
  }

  lemma DecodesGroup(a: octet, b: octet, c: octet, rest: Bytes)
    requires Decode(rest).Some?
    ensures Decode(Group(Bits(a, b, c)) + rest) == Some([a, b, c] + Decode(rest).value)
  {
    hide Group, Bits, Ungroup, Unpad;
    var v := Bits(a, b, c);
    var g := Group(v);
    UngroupUndoesGroup(v);
    LastIsNoPad(v);
    var t := g + rest;
    assert t[..4] == g && t[4..] == rest && t[3] == g[3];
    OctetsOfBits(a, b, c);
  }

  lemma OctetsOfBits(a: octet, b: octet, c: octet)
    ensures var v := Bits(a, b, c);
            v / 0x1_0000 == a && v / 0x100 % 0x100 == b && v % 0x100 == c
    ensures c == 0 ==> Bits(a, b, c) % 0x100 == 0
    ensures b == 0 && c == 0 ==> Bits(a, b, c) % 0x1_0000 == 0
  {
    var v := Bits(a, b, c);
    assert v / 0x100 == a * 0x100 + b && v / 0x1_0000 == v / 0x100 / 0x100;
  }

  lemma LastIsNoPad(v: nat)
    ensures v < 0x100_0000 ==> Group(v)[3] != PAD
  {
    SymbolReadsBack(v % 64);
  }

  /** Every octet string comes back from its encoding. */
  lemma {:induction false} DecodeUndoesEncode(s: seq<octet>)
    ensures Decode(Encode(s)) == Some(s)
    decreases |s|
  {
    hide Decode, Group;
    if |s| == 0 {
      DecodesNothing();
    } else if |s| == 1 {
      DecodesOne(s[0]);
      assert s == [s[0]];
    } else if |s| == 2 {
      DecodesTwo(s[0], s[1]);
      assert s == [s[0], s[1]];
    } else {
      DecodeUndoesEncode(s[3..]);
      DecodesGroup(s[0], s[1], s[2], Encode(s[3..]));
      assert s == [s[0], s[1], s[2]] + s[3..];
    }
  }

  lemma DecodesNothing()
    ensures Decode([]) == Some([])
  {
  }

  lemma BitsOfOctets(v: nat)
    ensures v < 0x100_0000 ==> Bits(v / 0x1_0000, v / 0x100 % 0x100, v % 0x100) == v
  {
    assert v / 0x1_0000 == v / 0x100 / 0x100;
  }

  lemma UnpadTwo(t: Bytes)
    requires |t| == 4 && t[2] == PAD && t[3] == PAD
    ensures Unpad(t, 2) == [t[0], t[1], Symbol(0), Symbol(0)] && t == Unpad(t, 2)[..2] + [PAD, PAD]
  {
  }

  lemma UnpadOne(t: Bytes)
    ensures |t| == 4 && t[3] == PAD ==> Unpad(t, 1) == [t[0], t[1], t[2], Symbol(0)] && t == Unpad(t, 1)[..3] + [PAD]
  {
  }

  lemma EncodeUndoesDecodeLast(t: Bytes)
    requires |t| == 4 && t[3] == PAD && Decode(t).Some?
    ensures Encode(Decode(t).value) == t
  {
    hide Ungroup, Unpad, Group, Bits;
    var pads := if t[2] == PAD then 2 else 1;
    if pads == 2 { UnpadTwo(t); } else { UnpadOne(t); }
    GroupUndoesUngroup(Unpad(t, pads));
    var v := Ungroup(Unpad(t, pads)).value;
    BitsOfOctets(v);
  }

  /** Conversely, whatever the strict decoder accepts is the encoding of what it returns. */
  lemma {:induction false} EncodeUndoesDecode(t: Bytes)
    requires Decode(t).Some?
    ensures Encode(Decode(t).value) == t
    decreases |t|
  {
    hide Ungroup, Unpad, Group, Bits;
    if |t| == 4 && t[3] == PAD {
      EncodeUndoesDecodeLast(t);
    } else if t != [] {
      EncodeUndoesDecode(t[4..]);
      GroupUndoesUngroup(t[..4]);
      BitsOfOctets(Ungroup(t[..4]).value);
      assert Decode(t).value[3..] == Decode(t[4..]).value;
      assert t == t[..4] + t[4..];
    }
  }

  /** The length, a multiple of four, and where pad characters stand. */
  lemma {:induction false} EncodedShape(s: seq<octet>)
    ensures |Encode(s)| == (|s| + 2) / 3 * 4
    ensures forall i :: 0 <= i < |Encode(s)| ==>
              (Encode(s)[i] == PAD <==> i >= |Encode(s)| - (if |s| % 3 == 0 then 0 else 3 - |s| % 3))
    ensures forall i :: 0 <= i < |Encode(s)| && Encode(s)[i] != PAD ==> SymbolValue(Encode(s)[i]).Some?
    decreases |s|
  {
    hide Group, Bits;
    if |s| != 0 {
      var v := if |s| == 1 then Bits(s[0], 0, 0) else if |s| == 2 then Bits(s[0], s[1], 0) else Bits(s[0], s[1], s[2]);
      GroupIsSymbols(v);
      if |s| > 2 {
        EncodedShape(s[3..]);
        var rest := Encode(s[3..]);
        assert forall i :: 0 <= i < |Encode(s)| ==> Encode(s)[i] == if i < 4 then Group(v)[i] else rest[i - 4];
      }
    }
  }

  lemma GroupIsSymbols(v: nat)
    requires v < 0x100_0000
    ensures forall i :: 0 <= i < 4 ==> Group(v)[i] != PAD && SymbolValue(Group(v)[i]).Some?
  {
    SymbolReadsBack(v / 0x4_0000);
    SymbolReadsBack(v / 0x1000 % 64);
    SymbolReadsBack(v / 64 % 64);
    SymbolReadsBack(v % 64);
  }

  // ----- the streaming encoder -----

  function Octets(s: seq<bv8>): (r: seq<octet>)
    ensures |r| == |s| && forall i :: 0 <= i < |s| ==> r[i] == s[i] as int
  {
    seq(|s|, i requires 0 <= i < |s| => s[i] as int)
  }

  lemma {:induction false} EncodeAfterGroups(groups: seq<octet>, rest: seq<octet>)
    requires |groups| % 3 == 0
    ensures Encode(groups + rest) == Encode(groups) + Encode(rest)
    decreases |groups|
  {
    if groups == [] {
      assert groups + rest == rest;
    } else {
      assert (groups + rest)[3..] == groups[3..] + rest;
      EncodeAfterGroups(groups[3..], rest);
    }
  }

  // The masks and shifts of the source, and what they select.

  function Sextet0(a: bv8): (d: nat)
    ensures d == S0(a as int)
  {
    ((a & 0xFC) >> 2) as int
  }

  function High2(a: bv8): (x: bv8)
    ensures x as int == a as int % 4 * 16 && x <= 60
  {
    (a & 0x03) << 4
  }

  function Low4(b: bv8): (x: bv8)
    ensures x as int == b as int / 16 && x <= 15
  {
    (b & 0xF0) >> 4
  }

  function High4(b: bv8): (x: bv8)
    ensures x as int == b as int % 16 * 4 && x <= 60
  {
    (b & 0x0F) << 2
  }

  function Low2(c: bv8): (x: bv8)
    ensures x as int == c as int / 64 && x <= 15
  {
    (c & 0xC0) >> 6
  }

  function Sextet1(a: bv8, b: bv8): (d: nat)
    ensures d == S1(a as int, b as int)
  {
    hide High2, Low4;
    (High2(a) + Low4(b)) as int
  }

  function LastSextet1(a: bv8): (d: nat)
    ensures d == S1(a as int, 0)
  {
    hide High2;
    High2(a) as int
  }

  function Sextet2(b: bv8, c: bv8): (d: nat)
    ensures d == S2(b as int, c as int)
  {
    hide High4, Low2;
    (High4(b) + Low2(c)) as int
  }

  function LastSextet2(b: bv8): (d: nat)
    ensures d == S2(b as int, 0)
  {
    hide High4;
    High4(b) as int
  }

  function Sextet3(c: bv8): (d: nat)
    ensures d == S3(c as int)
  {
    (c & 0x3F) as int
  }

  lemma GroupSextets(a: octet, b: octet, c: octet)
    ensures Group(Bits(a, b, c)) == [Symbol(S0(a)), Symbol(S1(a, b)), Symbol(S2(b, c)), Symbol(S3(c))]
  {
    hide Symbol, S0, S1, S2, S3, Bits;
    SextetsOfBits(a, b, c);
    SextetsAreUnique(S0(a), S1(a, b), S2(b, c), S3(c));
  }

  lemma SextetsOfBits(a: octet, b: octet, c: octet)
    ensures Bits(a, b, c) == S0(a) * 0x4_0000 + S1(a, b) * 0x1000 + S2(b, c) * 64 + S3(c)
  {
    var a1, a0 := a / 4, a % 4;
    var b1, b0 := b / 16, b % 16;
    var c1, c0 := c / 64, c % 64;
    assert a == 4 * a1 + a0 && b == 16 * b1 + b0 && c == 64 * c1 + c0;
  }

  function At(d: nat): (c: byte)
    requires d < 64
    ensures c == Symbol(d)
  {
    TableHoldsAlphabet(d);
    TABLE[d]
  }

  lemma EncodesWhole(a: octet, b: octet, c: octet)
    ensures Encode([a, b, c]) == [Symbol(S0(a)), Symbol(S1(a, b)), Symbol(S2(b, c)), Symbol(S3(c))]
  {
    hide Group, Symbol, Bits, S0, S1, S2, S3;
    assert [a, b, c][3..] == [];
    assert Encode([a, b, c]) == Group(Bits(a, b, c)) + [] == Group(Bits(a, b, c));
    GroupSextets(a, b, c);
  }

  lemma EncodesShort(a: octet, b: octet)
    ensures Encode([a]) == [Symbol(S0(a)), Symbol(S1(a, 0)), PAD, PAD]
    ensures Encode([a, b]) == [Symbol(S0(a)), Symbol(S1(a, b)), Symbol(S2(b, 0)), PAD]
  {
    hide Group, Symbol, Bits, S0, S1, S2, S3;
    GroupSextets(a, 0, 0);
    GroupSextets(a, b, 0);
  }

  /** The four characters of a whole group. */
  method EmitGroup(charArray: seq<bv8>) returns (result: Bytes)
    requires |charArray| == 3
    ensures result == Encode(Octets(charArray))
  {
    hide Encode, Symbol, At, Sextet0, Sextet1, Sextet2, Sextet3, S0, S1, S2, S3;
    ghost var o := Octets(charArray);
    EncodesWhole(o[0], o[1], o[2]);
    assert o == [o[0], o[1], o[2]];
    result := [At(Sextet0(charArray[0]))];
    result := result + [At(Sextet1(charArray[0], charArray[1]))];
    result := result + [At(Sextet2(charArray[1], charArray[2]))];
    result := result + [At(Sextet3(charArray[2]))];
  }

  /** The last group, of `count` octets: its characters and the padding. */
  method EmitRest(charArray: seq<bv8>, count: nat) returns (result: Bytes)
    requires |charArray| == 3 && 1 <= count <= 2
    ensures result == Encode(Octets(charArray[..count]))
  {
    hide Encode, Symbol, At, Sextet0, Sextet1, LastSextet1, LastSextet2, S0, S1, S2, S3;
    ghost var o := Octets(charArray);
    EncodesShort(o[0], o[1]);
    assert Octets(charArray[..count]) == if count == 1 then [o[0]] else [o[0], o[1]];
    result := [At(Sextet0(charArray[0]))];
    if count == 1 {
      result := result + [At(LastSextet1(charArray[0]))];
    } else {
      result := result + [At(Sextet1(charArray[0], charArray[1]))];
      result := result + [At(LastSextet2(charArray[1]))];
    }
    var c := count + 1;
    while c < 4
      invariant count < c <= 4 && |result| == c
      invariant result == Encode(Octets(charArray[..count]))[..c]
    {
      result := result + [PAD];
      c := c + 1;
    }
  }

  lemma EncodeGrows(s: seq<bv8>, n: nat, rest: seq<bv8>)
    requires n + |rest| <= |s| && n % 3 == 0 && s[n..n + |rest|] == rest
    ensures Encode(Octets(s[..n + |rest|])) == Encode(Octets(s[..n])) + Encode(Octets(rest))
  {
    hide Encode;
    assert forall i :: 0 <= i < |rest| ==> rest[i] == s[n + i];
    assert Octets(s[..n + |rest|]) == Octets(s[..n]) + Octets(rest);
    EncodeAfterGroups(Octets(s[..n]), Octets(rest));
  }

  /** One more collected octet. */
  method Collect(charArray: seq<bv8>, c: nat, next: bv8) returns (r: seq<bv8>)
    requires |charArray| == 3 && c < 3
    ensures |r| == 3 && r[..c + 1] == charArray[..c] + [next]
  {
    r := charArray[c := next];
    assert r[..c] == charArray[..c];
  }

  /** `encodeBase64`: three octets are collected at a time; the rest is padded at the end. */
  method EncodeBase64(s: seq<bv8>) returns (result: Bytes)
    ensures result == Encode(Octets(s))
  {
    hide Encode, Octets;
    result := [];
    var c := 0;
    var charArray: seq<bv8> := [0, 0, 0];
    var i := 0;
    ghost var n := 0;
    EncodesNothing(s);
    assert s[0..0] == charArray[..0];
    while i < |s|
      invariant i == n + c <= |s| && c <= 2 && n % 3 == 0
      invariant |charArray| == 3 && charArray[..c] == s[n..i]
      invariant result == Encode(Octets(s[..n]))
    {
      charArray := Collect(charArray, c, s[i]);
      c := c + 1;
      i := i + 1;
      if c == 3 {
        assert charArray[..3] == charArray;
        EncodeGrows(s, n, charArray);
        var group := EmitGroup(charArray);
        result := result + group;
        n := n + 3;
        c := 0;
        assert s[n..n] == charArray[..0];
      }
    }
    assert s[..|s|] == s;
    if c != 0 {
      EncodeGrows(s, n, charArray[..c]);
      var rest := EmitRest(charArray, c);
      result := result + rest;
    }
  }

  lemma EncodesNothing(s: seq<bv8>)
    ensures Encode(Octets(s[..0])) == []
  {
  }

  /** Answers from section 10 of RFC 4648, one for each length modulo three. */
  lemma KnownAnswers()
    ensures Encode([102]) == "Zg==" && Encode([102, 111]) == "Zm8=" && Encode([102, 111, 111]) == "Zm9v"
  {
    var f: seq<octet> := [102, 111, 111];
    assert f[3..] == [];
    assert Bits(102, 0, 0) == 0x66_0000 && Bits(102, 111, 0) == 0x66_6F00 && Bits(102, 111, 111) == 0x66_6F6F;
  }
}
