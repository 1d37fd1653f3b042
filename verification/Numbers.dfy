/** The unsigned number readers of the HTTP client and the printers they invert. */
module Numbers {
  import opened Bytes

  /** One more than the largest `std::size_t` (64-bit targets). */
  const WORD: nat := 0x1_0000_0000_0000_0000

  /** The two radices in use: decimal for Content-Length, hexadecimal for chunk sizes. */
  type Radix = r: nat | r == 10 || r == 16 witness 10

  /** `digitToUint` and `hexDigitToUint`; upper-case and lower-case hex digits are both read. */
  function Digit(c: byte, radix: Radix): Option<nat> {
    if '0' <= c <= '9' then Some(c as int - '0' as int)
    else if radix == 16 && 'A' <= c <= 'F' then Some(c as int - 'A' as int + 10)
    else if radix == 16 && 'a' <= c <= 'f' then Some(c as int - 'a' as int + 10)
    else None
  }

  const SMALL: Bytes := "0123456789abcdef"
  const LARGE: Bytes := "0123456789ABCDEF"

  /** Each character at place `d` of either row denotes `d`, and no other character denotes anything. */
  lemma DigitExactly(c: byte, radix: Radix, d: nat)
    ensures Digit(c, radix) == Some(d) <==> d < radix && (c == SMALL[d] || c == LARGE[d])
  {
    if d < 10 {
      assert SMALL[d] == LARGE[d] == (48 + d) as char;
    } else if d < 16 {
      assert SMALL[d] == (87 + d) as char;
      assert LARGE[d] == (55 + d) as char;
    }
  }

  predicate IsNumeral(s: Bytes, radix: Radix) {
    forall i :: 0 <= i < |s| ==> Digit(s[i], radix).Some?
  }

  /** The number a digit string denotes, without any word size. */
  function Value(s: Bytes, radix: Radix): nat
    requires IsNumeral(s, radix)
  {
    if s == [] then 0 else Value(s[..|s| - 1], radix) * radix + Digit(s[|s| - 1], radix).value
  }

  lemma WrapStep(v: nat, d: nat, radix: Radix)
    ensures (radix * (v % WORD) + d) % WORD == (v * radix + d) % WORD
  {
    var q := v / WORD;
    if radix == 10 {
      assert v * 10 + d == (10 * (v % WORD) + d) + (10 * q) * WORD;
    } else {
      assert v * 16 + d == (16 * (v % WORD) + d) + (16 * q) * WORD;
    }
  }

  /**
   * `stringToUint<std::size_t>` and `hexStringToUint<std::size_t>`: unsigned arithmetic wraps at the word size,
   * any other character throws, and an empty range reads as zero.
   */
  method ReadUint(s: Bytes, radix: Radix) returns (r: Option<nat>)
    ensures r == if IsNumeral(s, radix) then Some(Value(s, radix) % WORD) else None
  {
    var result := 0;
    var i := 0;
    while i < |s|
      invariant 0 <= i <= |s|
      invariant IsNumeral(s[..i], radix)
      invariant result == Value(s[..i], radix) % WORD
    {
      var d := Digit(s[i], radix);
      if d.None? {
        return None;
      }
      WrapStep(Value(s[..i], radix), d.value, radix);
      assert s[..i + 1][..i] == s[..i];
      result := (radix * result + d.value) % WORD;
      i := i + 1;
    }
    assert s[..i] == s;
    return Some(result);
  }

  function DigitChar(d: nat): (c: byte)
    requires d < 16
    ensures Digit(c, 16) == Some(d)
    ensures d < 10 ==> Digit(c, 10) == Some(d)
    ensures c != '\r' && c != '\n'
  {
    if d < 10 then ('0' as int + d) as char else ('a' as int + (d - 10)) as char
  }

  /** `std::to_string` (radix 10) and the usual lower-case hexadecimal printer: no leading zeros, "0" for zero. */
  function Print(n: nat, radix: Radix): (s: Bytes)
    ensures s != [] && IsNumeral(s, radix)
  {
    if n < radix then [DigitChar(n)] else Print(n / radix, radix) + [DigitChar(n % radix)]
  }

  lemma {:induction false} PrintReadsBack(n: nat, radix: Radix)
    ensures Value(Print(n, radix), radix) == n
  {
    if n < radix {
      assert Print(n, radix)[..0] == [];
    } else {
      PrintReadsBack(n / radix, radix);
      var s := Print(n, radix);
      assert s[..|s| - 1] == Print(n / radix, radix);
      assert s[|s| - 1] == DigitChar(n % radix);
    }
  }
}
