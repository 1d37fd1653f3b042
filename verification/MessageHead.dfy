/** Where the header section of an HTTP/1.1 message ends: the first empty line (section 3 of RFC 7230). */
module MessageHead {
  import opened Bytes
  import opened HeaderFields

  const BLANK: Bytes := "\r\n\r\n"

  ghost predicate NoBlankBefore(s: Bytes, n: nat) {
    forall j: nat :: j < n ==> !OccursAt(s, BLANK, j)
  }

  ghost predicate HasBlank(s: Bytes) {
    exists j: nat :: OccursAt(s, BLANK, j)
  }

  lemma BlankAt(s: Bytes, j: nat)
    ensures OccursAt(s, BLANK, j) <==>
            j + 4 <= |s| && s[j] == '\r' && s[j + 1] == '\n' && s[j + 2] == '\r' && s[j + 3] == '\n'
  {
    if j + 4 <= |s| {
      var w := s[j..j + 4];
      assert w[0] == s[j] && w[1] == s[j + 1] && w[2] == s[j + 2] && w[3] == s[j + 3];
    }
  }

  /** A line that holds no empty line and does not end in CR or LF, before more text: nothing new appears. */
  lemma LineThenMore(line: Bytes, more: Bytes, n: nat)
    requires line != [] && line[|line| - 1] != '\r' && line[|line| - 1] != '\n' && !HasBlank(line)
    requires more != [] && more[0] != '\r' && NoBlankBefore(more, n)
    ensures NoBlankBefore(line + (CRLF + more), |line| + 2 + n)
  {
    var s := line + (CRLF + more);
    forall j: nat | j < |line| + 2 + n ensures !OccursAt(s, BLANK, j) {
      BlankAt(s, j);
      BlankAt(line, j);
      assert !OccursAt(line, BLANK, j);
      if j >= |line| + 2 {
        var k := j - |line| - 2;
        BlankAt(more, k);
        assert !OccursAt(more, BLANK, k);
        assert forall i :: j <= i < |s| ==> s[i] == more[i - |line| - 2];
      }
    }
  }

  lemma NoReturnNoBlank(line: Bytes)
    requires '\r' !in line
    ensures !HasBlank(line)
  {
    forall j: nat ensures !OccursAt(line, BLANK, j) {
      BlankAt(line, j);
    }
  }

  /** A header field without its line end. */
  function FieldLine(f: Field): Bytes {
    f.name + COLON + SPACE + f.value
  }

  lemma FieldLineIsOneLine(f: Field)
    requires Acceptable(f)
    ensures FieldLine(f) != [] && '\r' !in FieldLine(f) && '\n' !in FieldLine(f)
    ensures FieldLine(f)[0] != '\r' && Line(f) == FieldLine(f) + CRLF
  {
    var l := FieldLine(f);
    forall i | 0 <= i < |l| ensures l[i] != '\r' && l[i] != '\n' {
      assert l[i] == if i < |f.name| then f.name[i] else if i == |f.name| then ':'
                     else if i == |f.name| + 1 then ' ' else f.value[i - |f.name| - 2];
    }
  }

  /** The header section of accepted fields ends with its last line: the first empty line is the one after it. */
  lemma {:induction false} FieldsEnd(fs: seq<Field>, rest: Bytes)
    requires fs != [] && forall i :: 0 <= i < |fs| ==> Acceptable(fs[i])
    ensures |Lines(fs)| >= 2 && Lines(fs)[0] != '\r'
    ensures NoBlankBefore(Lines(fs) + (CRLF + rest), |Lines(fs)| - 2)
    ensures OccursAt(Lines(fs) + (CRLF + rest), BLANK, |Lines(fs)| - 2)
    decreases |fs|
  {
    hide Acceptable;
    var l := FieldLine(fs[0]);
    FieldLineIsOneLine(fs[0]);
    NoReturnNoBlank(l);
    if |fs| == 1 {
      assert Lines(fs) == l + CRLF + [] == l + CRLF;
      LastLine(l, rest);
    } else {
      FieldsEnd(fs[1..], rest);
      var more := Lines(fs[1..]) + (CRLF + rest);
      LineThenMore(l, more, |Lines(fs[1..])| - 2);
      LinesThenBlank(l, Lines(fs[1..]), rest);
    }
  }

  lemma LinesThenBlank(l: Bytes, lines: Bytes, rest: Bytes)
    requires |lines| >= 2 && OccursAt(lines + (CRLF + rest), BLANK, |lines| - 2)
    ensures (l + CRLF + lines) + (CRLF + rest) == l + (CRLF + (lines + (CRLF + rest)))
    ensures OccursAt((l + CRLF + lines) + (CRLF + rest), BLANK, |l| + |lines|)
  {
    var more := lines + (CRLF + rest);
    var s := l + (CRLF + more);
    assert (l + CRLF + lines) + (CRLF + rest) == s;
    BlankAt(more, |lines| - 2);
    BlankAt(s, |l| + |lines|);
    assert forall i :: |l| + 2 <= i < |s| ==> s[i] == more[i - |l| - 2];
  }

  lemma LastLine(l: Bytes, rest: Bytes)
    requires l != [] && '\r' !in l
    ensures NoBlankBefore(l + CRLF + (CRLF + rest), |l|)
    ensures OccursAt(l + CRLF + (CRLF + rest), BLANK, |l|)
  {
    var s := l + CRLF + (CRLF + rest);
    forall j: nat | j < |l| ensures !OccursAt(s, BLANK, j) {
      BlankAt(s, j);
      assert s[j] == l[j];
    }
    BlankAt(s, |l|);
  }

  /** A whole message head: a start line, fields, the empty line, and what follows. */
  function Head(start: Bytes, fs: seq<Field>, rest: Bytes): Bytes {
    start + (CRLF + (Lines(fs) + (CRLF + rest)))
  }

  /** The head of a message ends at its first empty line, whatever follows. */
  lemma HeadEnds(start: Bytes, fs: seq<Field>, rest: Bytes)
    requires start != [] && start[|start| - 1] != '\r' && start[|start| - 1] != '\n' && !HasBlank(start)
    requires fs != [] && forall i :: 0 <= i < |fs| ==> Acceptable(fs[i])
    ensures Search(Head(start, fs, rest), BLANK) == |start| + |Lines(fs)|
    ensures |Head(start, fs, rest)| == |start| + |Lines(fs)| + 4 + |rest|
    ensures Head(start, fs, rest)[..|start| + |Lines(fs)| + 2] == start + CRLF + Lines(fs)
    ensures Head(start, fs, rest)[|start| + |Lines(fs)| + 4..] == rest
  {
    hide Acceptable, Search;
    var lines := Lines(fs);
    var more := lines + (CRLF + rest);
    FieldsEnd(fs, rest);
    LineThenMore(start, more, |lines| - 2);
    LinesThenBlank(start, lines, rest);
    SearchIsFirst(Head(start, fs, rest), BLANK, |start| + |lines|);
    assert Head(start, fs, rest) == (start + CRLF + lines) + (CRLF + rest);
  }
}
