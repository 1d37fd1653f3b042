/** `ReadBigEndian` and `WriteBigEndian` for unsigned integers of every width. */
module BigEndian {
  import opened Bytes

  /** A `char`, signed as on the usual targets. */
  type schar = c: int | -128 <= c < 128

  /** The cast to `uint8_t`. */
  function ToOctet(c: schar): octet {
    if c < 0 then c + 256 else c
  }

  /** The cast from an octet to `char`. */
  function ToChar(b: octet): schar {
    if b < 128 then b else b - 256
  }

  /** One more than the largest integer of `n` octets. */
  function Power(n: nat): (m: nat)
    ensures m > 0
  {
    if n == 0 then 1 else 256 * Power(n - 1)
  }

  /** The number a big-endian octet string denotes. */
  function Value(s: seq<schar>): nat {
    if s == [] then 0 else Value(s[..|s| - 1]) * 256 + ToOctet(s[|s| - 1])
  }

  /** The `n` octets of a number, most significant first. */
  function Digits(v: nat, n: nat): (s: seq<schar>)
    ensures |s| == n
  {
    if n == 0 then [] else Digits(v / 256, n - 1) + [ToChar(v % 256)]
  }

  /** The first octet weighs the most: it counts once for every number the others can make. */
  lemma {:induction false} FirstWeighsMost(c: schar, s: seq<schar>)
    ensures Value([c] + s) == ToOctet(c) * Power(|s|) + Value(s)
    decreases |s|
  {
    var all := [c] + s;
    var n := |s|;
    if n == 0 {
      assert all[..0] == [] && Value(all) == Value([]) * 256 + ToOctet(c);
    } else {
      assert all[..n] == [c] + s[..n - 1];
      FirstWeighsMost(c, s[..n - 1]);
      var high, low := ToOctet(c) * Power(n - 1), Value(s[..n - 1]);
      assert Value(all) == (high + low) * 256 + ToOctet(s[n - 1]);
      assert ToOctet(c) * Power(n) == ToOctet(c) * (256 * Power(n - 1)) == 256 * high;
    }
  }

  // ----- the two are inverse -----

  lemma {:induction false} ValueIsBounded(s: seq<schar>)
    ensures Value(s) < Power(|s|)
  {
    if s != [] {
      ValueIsBounded(s[..|s| - 1]);
    }
  }

  lemma {:induction false} ReadUndoesWrite(v: nat, n: nat)
    requires v < Power(n)
    ensures Value(Digits(v, n)) == v
  {
    if n > 0 {
      ReadUndoesWrite(v / 256, n - 1);
      var s := Digits(v, n);
      assert s[..n - 1] == Digits(v / 256, n - 1) && s[n - 1] == ToChar(v % 256);
      assert Value(s) == (v / 256) * 256 + ToOctet(ToChar(v % 256));
    }
  }

  lemma {:induction false} WriteUndoesRead(s: seq<schar>)
    ensures Digits(Value(s), |s|) == s
  {
    if s != [] {
      var n := |s| - 1;
      WriteUndoesRead(s[..n]);
      assert Value(s) / 256 == Value(s[..n]) && Value(s) % 256 == ToOctet(s[n]);
      assert ToChar(ToOctet(s[n])) == s[n];
      assert s == s[..n] + [s[n]];
    }
  }

  // ----- arithmetic modulo the width -----

  lemma {:induction false} MultipleVanishes(x: int, k: nat, m: nat)
    requires m > 0
    ensures (x + k * m) % m == x % m && (x - k * m) % m == x % m
    decreases k
  {
    if k > 0 {
      MultipleVanishes(x, k - 1, m);
      var y, z := x + (k - 1) * m, x - (k - 1) * m;
      assert x + k * m == y + m && x - k * m == z - m;
      OneVanishes(y, m);
      OneVanishes(z - m, m);
    }
  }

  lemma OneVanishes(x: int, m: nat)
    requires m > 0
    ensures (x + m) % m == x % m
  {
    var q, r := x / m, x % m;
    assert x + m == (q + 1) * m + r;
    QuotientIs(x + m, m, q + 1, r);
  }

  lemma AtLeastOnce(d: int, m: nat)
    ensures d > 0 ==> d * m >= m
  {
    assert d * m == (d - 1) * m + m;
  }

  lemma SmallMultiple(d: int, m: int)
    requires m > 0 && -m < d * m < m
    ensures d == 0
  {
    if d > 0 {
      AtLeastOnce(d, m);
    } else if d < 0 {
      assert (-d) * m == -(d * m);
      AtLeastOnce(-d, m);
    }
  }

  lemma QuotientIs(x: int, m: nat, q: int, r: nat)
    requires x == q * m + r && r < m
    ensures x % m == r
  {
    var q', r' := x / m, x % m;
    assert x == q' * m + r';
    assert (q - q') * m == q * m - q' * m;
    SmallMultiple(q - q', m);
  }

  lemma Residue(x: int, m: nat)
    requires m > 0
    ensures exists k: nat :: x == x % m + k * m || x == x % m - k * m
  {
    var q := x / m;
    if q >= 0 {
      assert x == x % m + q * m;
    } else {
      var k: nat := -q;
      assert x == x % m - k * m;
    }
  }

  /** Shifting a residue left by eight and taking the residue again is shifting the number. */
  lemma ShiftResidue(x: int, m: nat)
    requires m > 0
    ensures ((x % m) * 256) % m == (x * 256) % m
  {
    Residue(x, m);
    var k: nat :| x == x % m + k * m || x == x % m - k * m;
    MultipleVanishes((x % m) * 256, 256 * k, m);
    if x == x % m + k * m {
      assert x * 256 == (x % m) * 256 + (256 * k) * m;
    } else {
      assert x * 256 == (x % m) * 256 - (256 * k) * m;
    }
  }

  /** The low octet of a shifted value is free, so putting an octet there is adding it. */
  lemma ShiftLeavesRoom(x: int, k: nat, b: octet)
    requires k > 0
    ensures (x * 256) % (256 * k) % 256 == 0
    ensures (x * 256) % (256 * k) + b == (x * 256 + b) % (256 * k)
  {
    var q, r := x / k, x % k;
    assert x == q * k + r;
    assert x * 256 == q * (256 * k) + 256 * r;
    QuotientIs(x * 256, 256 * k, q, 256 * r);
    QuotientIs(x * 256 + b, 256 * k, q, 256 * r + b);
  }

  // ----- the loops -----

  /** The signed number that the loop really accumulates: the first character counts with its sign. */
  function Signed(s: seq<schar>): int
    requires s != []
  {
    Value(s) - if s[0] < 0 then Power(|s|) else 0
  }

  lemma SignedStep(s: seq<schar>, c: schar)
    requires s != []
    ensures Signed(s + [c]) == Signed(s) * 256 + ToOctet(c)
  {
    assert (s + [c])[..|s|] == s;
    assert Power(|s + [c]|) == 256 * Power(|s|);
  }

  lemma SignedOne(c: schar)
    ensures Signed([c]) == c
  {
    var one: seq<schar> := [c];
    assert one[..0] == [];
    assert Value(one) == Value([]) * 256 + ToOctet(c);
    assert Power(1) == 256 * Power(0) == 256;
  }

  /** At full width the sign has been shifted out. */
  lemma SignVanishes(s: seq<schar>)
    requires s != []
    ensures Signed(s) % Power(|s|) == Value(s)
  {
    ValueIsBounded(s);
    var m := Power(|s|);
    QuotientIs(Value(s), m, 0, Value(s));
    MultipleVanishes(Value(s), 1, m);
  }

  /** `ReadBigEndian<T>` for an unsigned `T` of `n` octets. */
  method Read(buf: array<schar>, n: nat) returns (out: nat)
    requires 0 < n <= buf.Length
    ensures out == Value(buf[..n])
  {
    out := buf[0] % Power(n);
    SignedOne(buf[0]);
    assert buf[..1] == [buf[0]];
    var i := 1;
    while i < n
      invariant 1 <= i <= n
      invariant out == Signed(buf[..i]) % Power(n)
    {
      var c := buf[i];
      assert buf[..i + 1] == buf[..i] + [c];
      SignedStep(buf[..i], c);
      ShiftResidue(Signed(buf[..i]), Power(n));
      ShiftLeavesRoom(Signed(buf[..i]), Power(n - 1), ToOctet(c));
      out := (out * 256) % Power(n);
      out := out + ToOctet(c);
      i := i + 1;
    }
    SignVanishes(buf[..n]);
  }

  /** `WriteBigEndian<T>`: from the last octet of the buffer to the first. */
  method Write(buf: array<schar>, n: nat, val: nat)
    requires n <= buf.Length && val < Power(n)
    modifies buf
    ensures buf[..n] == Digits(val, n)
    ensures buf[n..] == old(buf[n..])
  {
    var v := val;
    var i := 0;
    while i < n
      invariant 0 <= i <= n
      invariant Digits(val, n) == Digits(v, n - i) + buf[n - i..n]
      invariant buf[n..] == old(buf[n..])
    {
      ghost var done := buf[n - i..n];
      buf[n - i - 1] := ToChar(v % 256);
      assert buf[n - i - 1..n] == [ToChar(v % 256)] + done;
      v := v / 256;
      i := i + 1;
    }
    assert buf[0..n] == buf[..n];
  }

  /** Writing and reading the same buffer gives the number back, at every width. */
  method WriteThenRead(buf: array<schar>, n: nat, val: nat) returns (out: nat)
    requires 0 < n <= buf.Length && val < Power(n)
    modifies buf
    ensures out == val
  {
    Write(buf, n, val);
    ReadUndoesWrite(val, n);
    out := Read(buf, n);
  }
}
