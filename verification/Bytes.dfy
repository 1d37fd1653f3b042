/** Octets, the two-octet line end, and first-occurrence search, as every codec of the HTTP client uses them. */
module Bytes {

  /** One octet.  It is a subset of `char` so that the protocol's literals can be written as strings. */
  type byte = c: char | c as int < 256 witness '\0'

  /** An octet as a number. */
  type octet = x: int | 0 <= x < 256

  type Bytes = seq<byte>

  const CRLF: Bytes := "\r\n"
  const COLON: Bytes := ":"
  const SPACE: Bytes := " "

  datatype Option<+T> = None | Some(value: T)

  /** A result or the message of the exception that was thrown. */
  datatype Result<+T> = Ok(value: T) | Err(error: string)

  /** `pattern` occurs in `s` at position `i`. */
  predicate OccursAt(s: Bytes, pattern: Bytes, i: nat) {
    i + |pattern| <= |s| && s[i..i + |pattern|] == pattern
  }

  lemma OccursShift(s: Bytes, pattern: Bytes, j: nat)
    requires s != []
    ensures OccursAt(s, pattern, j + 1) <==> OccursAt(s[1..], pattern, j)
  {
    if j + 1 + |pattern| <= |s| {
      assert s[j + 1..j + 1 + |pattern|] == s[1..][j..j + |pattern|];
    }
  }

  /** `std::search`: the first occurrence of `pattern`, or the end of `s` when there is none. */
  function Search(s: Bytes, pattern: Bytes): (i: nat)
    requires pattern != []
    ensures i == |s| || i + |pattern| <= |s|
  {
    if |s| < |pattern| then |s|
    else if s[..|pattern|] == pattern then 0
    else 1 + Search(s[1..], pattern)
  }

  lemma {:induction false} SearchFinds(s: Bytes, pattern: Bytes)
    requires pattern != []
    ensures Search(s, pattern) < |s| ==> OccursAt(s, pattern, Search(s, pattern))
    ensures forall j: nat :: j < Search(s, pattern) ==> !OccursAt(s, pattern, j)
  {
    if |s| >= |pattern| && s[..|pattern|] != pattern {
      SearchFinds(s[1..], pattern);
      OccursShift(s, pattern, Search(s[1..], pattern));
      forall j: nat | j < Search(s, pattern) ensures !OccursAt(s, pattern, j) {
        if j > 0 { OccursShift(s, pattern, j - 1); }
      }
    }
  }

  /** `Search` finds the one position that is an occurrence with none before it. */
  lemma SearchIsFirst(s: Bytes, pattern: Bytes, i: nat)
    requires pattern != []
    requires OccursAt(s, pattern, i)
    requires forall j: nat :: j < i ==> !OccursAt(s, pattern, j)
    ensures Search(s, pattern) == i
  {
    SearchFinds(s, pattern);
  }

  /** Once found, the first occurrence does not move when more octets arrive. */
  lemma SearchIsStable(s: Bytes, pattern: Bytes, more: Bytes)
    requires pattern != []
    requires Search(s, pattern) < |s|
    ensures Search(s + more, pattern) == Search(s, pattern)
  {
    SearchFinds(s, pattern);
    var i := Search(s, pattern);
    assert (s + more)[i..i + |pattern|] == s[i..i + |pattern|];
    forall j: nat | j < i ensures !OccursAt(s + more, pattern, j) {
      assert (s + more)[j..j + |pattern|] == s[j..j + |pattern|];
      assert !OccursAt(s, pattern, j);
    }
    SearchIsFirst(s + more, pattern, i);
  }

  lemma SplitAtFirst(s: Bytes, pattern: Bytes)
    requires pattern != [] && Search(s, pattern) < |s|
    ensures var i := Search(s, pattern);
            i + |pattern| <= |s| && s == s[..i] + pattern + s[i + |pattern|..]
  {
    hide Search;
    SearchFinds(s, pattern);
    var i := Search(s, pattern);
    SplitInThree(s, i, i + |pattern|);
  }

  lemma SplitInThree(s: Bytes, i: nat, j: nat)
    requires i <= j <= |s|
    ensures s == s[..i] + s[i..j] + s[j..]
  {
  }

  /** A line without a carriage return is delimited by the first CRLF after it. */
  lemma SearchAfterLine(line: Bytes, rest: Bytes)
    requires '\r' !in line
    ensures Search(line + CRLF + rest, CRLF) == |line|
    ensures (line + CRLF + rest)[..|line|] == line
    ensures (line + CRLF + rest)[|line| + 2..] == rest
  {
    var s := line + CRLF + rest;
    assert s[|line|..|line| + 2] == CRLF;
    forall j: nat | j < |line| ensures !OccursAt(s, CRLF, j) {
      assert s[j] == line[j] != CRLF[0];
      assert s[j..j + 2][0] == s[j];
    }
    SearchIsFirst(s, CRLF, |line|);
  }

  // ----- cutting a text at the first occurrence of a delimiter -----

  /** The text before the first `c` and the text after it, if there is one. */
  datatype Cut = Cut(head: Bytes, found: bool, tail: Bytes)

  function CutAt(s: Bytes, c: byte): Cut {
    if s == [] then Cut([], false, [])
    else if s[0] == c then Cut([], true, s[1..])
    else var r := CutAt(s[1..], c); r.(head := [s[0]] + r.head)
  }

  /** The inverse: put the parts together again, with the delimiter when it is present. */
  function Join(head: Bytes, present: bool, c: byte, tail: Bytes): Bytes {
    if present then head + ([c] + tail) else head
  }

  lemma {:induction false} CutUndoesJoin(head: Bytes, present: bool, c: byte, tail: Bytes)
    requires c !in head && (present || tail == [])
    ensures CutAt(Join(head, present, c, tail), c) == Cut(head, present, tail)
  {
    if head == [] {
      assert present ==> Join(head, present, c, tail) == [c] + tail;
    } else {
      var s := Join(head, present, c, tail);
      assert s[0] == head[0] && s[1..] == Join(head[1..], present, c, tail);
      assert [head[0]] + head[1..] == head;
      CutUndoesJoin(head[1..], present, c, tail);
    }
  }

  lemma {:induction false} JoinUndoesCut(s: Bytes, c: byte)
    ensures var r := CutAt(s, c);
            s == Join(r.head, r.found, c, r.tail) && c !in r.head && (r.found || r.tail == [])
  {
    if s != [] {
      if s[0] == c {
        assert s == [] + ([c] + s[1..]);
      } else {
        JoinUndoesCut(s[1..], c);
        var r := CutAt(s[1..], c);
        PrependToJoin(s[0], r.head, r.found, c, r.tail);
        assert s == [s[0]] + s[1..];
      }
    }
  }

  lemma PrependToJoin(x: byte, head: Bytes, present: bool, c: byte, tail: Bytes)
    ensures [x] + Join(head, present, c, tail) == Join([x] + head, present, c, tail)
  {
    assert [x] + (head + ([c] + tail)) == ([x] + head) + ([c] + tail);
  }

  /** Cutting invents no characters. */
  lemma CutKeepsOut(s: Bytes, c: byte, x: byte)
    requires x !in s
    ensures x !in CutAt(s, c).head && x !in CutAt(s, c).tail
  {
    var r := CutAt(s, c);
    JoinUndoesCut(s, c);
    assert forall i :: 0 <= i < |r.head| ==> s[i] == r.head[i];
    assert r.found ==> forall i :: 0 <= i < |r.tail| ==> s[|r.head| + 1 + i] == r.tail[i];
  }

  /** `std::string::find` of one character: its first position, or the length for "not found". */
  method Find(s: Bytes, c: byte) returns (i: nat)
    ensures i <= |s| && (i < |s| ==> s[i] == c)
    ensures CutAt(s, c) == if i < |s| then Cut(s[..i], true, s[i + 1..]) else Cut(s, false, [])
  {
    i := 0;
    while i < |s| && s[i] != c
      invariant 0 <= i <= |s|
      invariant c !in s[..i]
    {
      i := i + 1;
    }
    CutUndoesJoin(s[..i], i < |s|, c, if i < |s| then s[i + 1..] else []);
    assert i < |s| ==> s == s[..i] + ([c] + s[i + 1..]);
    assert i == |s| ==> s[..i] == s;
  }
}
