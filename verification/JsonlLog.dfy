/**
  The size-bounded JSONL telemetry file. A record is appended while the file stays within
  `max_bytes`; otherwise the file is split into lines, the oldest lines are dropped and the rest
  is rewritten. `LogIsLongestSuffix` is the meaning of a whole run of records.
*/
module JsonlLog {
  import opened Prelude

  type Bytes = seq<byte>

  const NEWLINE: byte := 10
  const RETURN: byte := 13

  // ---------------------------------------------------------------------------
  // Lines
  // ---------------------------------------------------------------------------

  predicate Break(b: byte) {
    b == NEWLINE || b == RETURN
  }

  /** The length of the first line. */
  function LineEnd(s: Bytes): (n: nat)
    ensures n <= |s|
    ensures forall i :: 0 <= i < n ==> !Break(s[i])
    ensures n < |s| ==> Break(s[n])
  {
    if s == [] || Break(s[0]) then 0 else 1 + LineEnd(s[1..])
  }

  /** "\r\n" is one line break. */
  function BreakLength(s: Bytes): (n: nat)
    ensures n <= |s|
    ensures s != [] ==> n >= 1
  {
    if s == [] then 0 else if |s| >= 2 && s[0] == RETURN && s[1] == NEWLINE then 2 else 1
  }

  /** Python's `bytes.splitlines`: no line breaks kept and no empty last line. */
  function SplitLines(s: Bytes): seq<Bytes>
    decreases |s|
  {
    if s == [] then []
    else
      var n := LineEnd(s);
      [s[..n]] + SplitLines(s[n..][BreakLength(s[n..])..])
  }

  /** Nothing left after `strip()`. */
  predicate Blank(line: Bytes) {
    forall b :: b in line ==> b == 32 || 9 <= b <= 13
  }

  /** The lines of a file that compaction keeps for a moment, each with its newline again. */
  function Terminated(lines: seq<Bytes>): seq<Bytes> {
    if lines == [] then []
    else (if Blank(lines[0]) then [] else [lines[0] + [NEWLINE]]) + Terminated(lines[1..])
  }

  function Concat(lines: seq<Bytes>): Bytes {
    if lines == [] then [] else lines[0] + Concat(lines[1..])
  }

  /** What `_encode` produces: one non-blank JSON text without line breaks, and a newline. */
  predicate Encoded(line: Bytes) {
    && |line| > 0 && line[|line| - 1] == NEWLINE
    && (forall i :: 0 <= i < |line| - 1 ==> !Break(line[i]))
    && !Blank(line[..|line| - 1])
  }

  ghost predicate AllEncoded(lines: seq<Bytes>) {
    forall line :: line in lines ==> Encoded(line)
  }

  lemma PartsEncoded(lines: seq<Bytes>, k: nat)
    requires AllEncoded(lines) && k <= |lines|
    ensures AllEncoded(lines[..k]) && AllEncoded(lines[k..])
  {
    hide Encoded;
  }

  lemma {:induction false} LineEndIs(s: Bytes, n: nat)
    requires n < |s| && Break(s[n]) && forall i :: 0 <= i < n ==> !Break(s[i])
    ensures LineEnd(s) == n
  {
  }

  /** Splitting the file and restoring the newlines is the identity on encoded lines. */
  lemma {:induction false} SplittingRestoresLines(lines: seq<Bytes>)
    requires AllEncoded(lines)
    ensures Terminated(SplitLines(Concat(lines))) == lines
  {
    if lines != [] {
      var line, rest := lines[0], Concat(lines[1..]);
      assert Encoded(line);
      var body := line[..|line| - 1];
      var s := line + rest;
      assert line == body + [NEWLINE];
      LineEndIs(s, |body|);
      assert s[..|body|] == body;
      assert s[|body|..][0] == NEWLINE && s[|body|..][1..] == rest;
      SplittingRestoresLines(lines[1..]);
      assert SplitLines(s) == [body] + SplitLines(rest);
      assert SplitLines(s)[1..] == SplitLines(rest);
    }
  }

  /** Any content, line by line: a line ends at "\n", "\r\n" or "\r", and what is left without one is a line too. */
  lemma LinesEndAtBreaks(line: Bytes, rest: Bytes)
    requires forall b :: b in line ==> !Break(b)
    ensures SplitLines(line + [NEWLINE] + rest) == [line] + SplitLines(rest)
    ensures SplitLines(line + [RETURN, NEWLINE] + rest) == [line] + SplitLines(rest)
    ensures rest == [] || rest[0] != NEWLINE ==> SplitLines(line + [RETURN] + rest) == [line] + SplitLines(rest)
    ensures line != [] ==> SplitLines(line) == [line]
  {
    OneLineEnds(line, [NEWLINE], rest);
    OneLineEnds(line, [RETURN, NEWLINE], rest);
    if rest == [] || rest[0] != NEWLINE {
      OneLineEnds(line, [RETURN], rest);
    }
    if line != [] {
      NoBreakInside(line);
      assert line[..|line|] == line && line[|line|..] == [];
    }
  }

  lemma OneLineEnds(line: Bytes, end: Bytes, rest: Bytes)
    requires forall b :: b in line ==> !Break(b)
    requires end == [NEWLINE] || end == [RETURN, NEWLINE]
      || (end == [RETURN] && (rest == [] || rest[0] != NEWLINE))
    ensures SplitLines(line + end + rest) == [line] + SplitLines(rest)
  {
    var s, n := line + end + rest, |line|;
    assert Break(s[n]);
    forall i | 0 <= i < n ensures !Break(s[i]) {
      assert s[i] == line[i] && line[i] in line;
    }
    LineEndIs(s, n);
    assert s[..n] == line && s[n..] == end + rest && (end + rest)[|end|..] == rest;
    assert (end + rest)[0] == end[0];
    assert |end + rest| >= 2 ==> (end + rest)[1] == if |end| == 2 then NEWLINE else rest[0];
  }

  lemma {:induction false} NoBreakInside(s: Bytes)
    requires forall b :: b in s ==> !Break(b)
    ensures LineEnd(s) == |s|
  {
    assert forall i :: 0 <= i < |s| ==> s[i] in s;
  }

  lemma {:induction false} ConcatSplits(a: seq<Bytes>, b: seq<Bytes>)
    ensures Concat(a + b) == Concat(a) + Concat(b)
  {
    if a == [] {
      assert a + b == b;
    } else {
      assert (a + b)[1..] == a[1..] + b;
      ConcatSplits(a[1..], b);
    }
  }

  lemma ConcatOne(line: Bytes)
    ensures Concat([line]) == line
  {
    assert [line][1..] == [];
  }

  // ---------------------------------------------------------------------------
  // How many lines a compaction drops
  // ---------------------------------------------------------------------------

  /** The oldest lines go one by one until the rest fits or is the newest line alone. */
  function Cut(lines: seq<Bytes>, maxBytes: nat): (k: nat)
    ensures k <= |lines|
    ensures lines != [] ==> k < |lines|
  {
    if |lines| <= 1 || |Concat(lines)| <= maxBytes then 0 else 1 + Cut(lines[1..], maxBytes)
  }

  /** Dropping k lines suffices and dropping fewer does not. */
  ghost predicate LeastCut(lines: seq<Bytes>, maxBytes: nat, k: nat) {
    && k <= |lines|
    && (lines != [] ==> k < |lines|)
    && (|Concat(lines[k..])| <= maxBytes || k == |lines| - 1)
    && (forall j :: 0 <= j < k ==> |Concat(lines[j..])| > maxBytes)
  }

  lemma {:induction false} CutIsLeast(lines: seq<Bytes>, maxBytes: nat)
    ensures LeastCut(lines, maxBytes, Cut(lines, maxBytes))
  {
    assert lines[0..] == lines;
    if |lines| > 1 && |Concat(lines)| > maxBytes {
      var k := Cut(lines[1..], maxBytes);
      CutIsLeast(lines[1..], maxBytes);
      assert lines[1..][k..] == lines[1 + k..];
      forall j | 0 < j < 1 + k ensures |Concat(lines[j..])| > maxBytes {
        assert lines[1..][j - 1..] == lines[j..];
      }
    }
  }

  lemma LeastCutIsUnique(lines: seq<Bytes>, maxBytes: nat, k: nat, k': nat)
    requires LeastCut(lines, maxBytes, k) && LeastCut(lines, maxBytes, k')
    ensures k == k'
  {
  }

  // ---------------------------------------------------------------------------
  // One record
  // ---------------------------------------------------------------------------

  /** The lines a compaction chooses from. */
  function Candidates(content: Bytes, newest: Bytes): seq<Bytes> {
    Terminated(SplitLines(content)) + [newest]
  }

  function Compacted(content: Bytes, newest: Bytes, maxBytes: nat): Bytes {
    var lines := Candidates(content, newest);
    Concat(lines[Cut(lines, maxBytes)..])
  }

  function Recorded(content: Bytes, line: Bytes, maxBytes: nat): Bytes {
    if |content| + |line| <= maxBytes then content + line else Compacted(content, line, maxBytes)
  }

  /** Whatever was in the file before, it now fits, or it is the newest line alone, and it ends with that line. */
  lemma RecordIsBounded(content: Bytes, line: Bytes, maxBytes: nat)
    ensures var after := Recorded(content, line, maxBytes);
      && (|after| <= maxBytes || after == line)
      && |line| <= |after| && after[|after| - |line|..] == line
  {
    if |content| + |line| > maxBytes {
      var lines := Candidates(content, line);
      var k := Cut(lines, maxBytes);
      CutIsLeast(lines, maxBytes);
      assert lines[k..] == lines[k..|lines| - 1] + [line];
      ConcatSplits(lines[k..|lines| - 1], [line]);
      ConcatOne(line);
      if k == |lines| - 1 {
        assert lines[k..|lines| - 1] == [];
      }
    }
  }

  class JsonlCapabilityTelemetrySink {
    const maxBytes: nat
    var file: Option<Bytes>

    /** A limit below 1024 bytes is refused. */
    constructor (maxBytes: nat, file: Option<Bytes>)
      requires maxBytes >= 1024
      ensures this.maxBytes == maxBytes && this.file == file
    {
      this.maxBytes, this.file := maxBytes, file;
    }

    ghost function Content(): Bytes
      reads this
    {
      if file.Some? then file.value else []
    }

    method Record(line: Bytes)
      modifies this
      ensures file.Some? && Content() == Recorded(old(Content()), line, maxBytes)
    {
      var currentSize := if file.Some? then |file.value| else 0;
      if currentSize + |line| <= maxBytes {
        Append(line);
      } else {
        Compact(line);
      }
    }

    method Append(line: Bytes)
      modifies this
      ensures file == Some(old(Content()) + line)
    {
      file := Some((if file.Some? then file.value else []) + line);
    }

    method Compact(newest: Bytes)
      modifies this
      ensures file == Some(Compacted(old(Content()), newest, maxBytes))
    {
      var existing := if file.Some? then file.value else [];
      var lines := KeptLines(SplitLines(existing));
      var retained := DropOldest(lines + [newest]);
      var content := WriteLines(retained);
      file := Some(content);
    }

    static method KeptLines(split: seq<Bytes>) returns (lines: seq<Bytes>)
      ensures lines == Terminated(split)
    {
      lines := [];
      for i := 0 to |split|
        invariant lines + Terminated(split[i..]) == Terminated(split)
      {
        assert split[i..][1..] == split[i + 1..];
        if !Blank(split[i]) {
          lines := lines + [split[i] + [NEWLINE]];
        }
      }
      assert split[|split|..] == [];
    }

    /** Pops the oldest line until the rest fits or one line is left. */
    method DropOldest(all: seq<Bytes>) returns (lines: seq<Bytes>)
      requires all != []
      ensures lines == all[Cut(all, maxBytes)..]
    {
      lines := all;
      var total := TotalLength(lines);
      ghost var dropped: nat := 0;
      while |lines| > 1 && total > maxBytes
        invariant dropped < |all| && lines == all[dropped..]
        invariant total == |Concat(lines)|
        invariant Cut(all, maxBytes) == dropped + Cut(lines, maxBytes)
        decreases |lines|
      {
        total := total - |lines[0]|;
        lines := lines[1..];
        dropped := dropped + 1;
      }
    }

    static method TotalLength(lines: seq<Bytes>) returns (total: nat)
      ensures total == |Concat(lines)|
    {
      total := 0;
      for i := 0 to |lines|
        invariant total + |Concat(lines[i..])| == |Concat(lines)|
      {
        assert lines[i..][1..] == lines[i + 1..];
        total := total + |lines[i]|;
      }
    }

    static method WriteLines(lines: seq<Bytes>) returns (content: Bytes)
      ensures content == Concat(lines)
    {
      content := [];
      for i := 0 to |lines|
        invariant content + Concat(lines[i..]) == Concat(lines)
      {
        assert lines[i..][1..] == lines[i + 1..];
        content := content + lines[i];
      }
    }
  }

  // ---------------------------------------------------------------------------
  // A run of records
  // ---------------------------------------------------------------------------

  /** The file after recording all lines, oldest first, into a file that did not exist. */
  function LogAfter(lines: seq<Bytes>, maxBytes: nat): Bytes {
    if lines == [] then []
    else Recorded(LogAfter(lines[..|lines| - 1], maxBytes), lines[|lines| - 1], maxBytes)
  }

  lemma SuffixOfSuffix(lines: seq<Bytes>, line: Bytes, k: nat, more: nat)
    requires k <= |lines| && more <= |lines| - k + 1
    ensures (lines[k..] + [line])[more..] == (lines + [line])[k + more..]
    ensures Concat((lines[k..] + [line])[more..]) == Concat((lines + [line])[k + more..])
  {
    hide Concat;
    assert (lines[k..] + [line])[more..] == (lines + [line])[k + more..];
  }

  /** One more line: lines dropped earlier would not fit now either. */
  lemma LeastCutExtends(lines: seq<Bytes>, line: Bytes, maxBytes: nat, k: nat)
    requires LeastCut(lines, maxBytes, k)
    ensures LeastCut(lines + [line], maxBytes, k + Cut(lines[k..] + [line], maxBytes))
  {
    hide Concat, Cut;
    var all, rest := lines + [line], lines[k..] + [line];
    var more := Cut(rest, maxBytes);
    assert all[k..] == rest;
    SuffixOfSuffix(lines, line, k, more);
    CutIsLeast(rest, maxBytes);
    forall j | 0 <= j < k + more ensures |Concat(all[j..])| > maxBytes {
      if j < k {
        assert all[j..] == lines[j..] + [line];
        ConcatSplits(lines[j..], [line]);
      } else {
        assert all[j..] == rest[j - k..];
      }
    }
  }

  lemma CutExtends(lines: seq<Bytes>, line: Bytes, maxBytes: nat, k: nat)
    requires k <= |lines| && LeastCut(lines, maxBytes, k)
    ensures Cut(lines + [line], maxBytes) == k + Cut(lines[k..] + [line], maxBytes)
  {
    hide LeastCut, Cut, Concat;
    LeastCutExtends(lines, line, maxBytes, k);
    CutIsLeast(lines + [line], maxBytes);
    LeastCutIsUnique(
      lines + [line], maxBytes, Cut(lines + [line], maxBytes), k + Cut(lines[k..] + [line], maxBytes));
  }

  /** Recording into a file that holds some encoded lines keeps the longest suffix of them that fits. */
  lemma RecordKeepsLongestSuffix(lines: seq<Bytes>, line: Bytes, maxBytes: nat)
    requires AllEncoded(lines)
    ensures var all := lines + [line];
      Recorded(Concat(lines), line, maxBytes) == Concat(all[Cut(all, maxBytes)..])
  {
    var all := lines + [line];
    ConcatSplits(lines, [line]);
    ConcatOne(line);
    SplittingRestoresLines(lines);
    if |Concat(all)| <= maxBytes {
      assert all[0..] == all;
    }
  }

  /** Whatever an earlier record dropped, the file stays the longest fitting suffix of all lines. */
  lemma RecordExtends(lines: seq<Bytes>, line: Bytes, maxBytes: nat, k: nat)
    requires AllEncoded(lines)
    requires LeastCut(lines, maxBytes, k)
    ensures var all := lines + [line];
      Recorded(Concat(lines[k..]), line, maxBytes) == Concat(all[Cut(all, maxBytes)..])
  {
    PartsEncoded(lines, k);
    hide LeastCut, Cut, Recorded, Concat, AllEncoded;
    RecordKeepsLongestSuffix(lines[k..], line, maxBytes);
    SuffixOfSuffix(lines, line, k, Cut(lines[k..] + [line], maxBytes));
    CutExtends(lines, line, maxBytes, k);
  }

  /**
    After any run the file is the concatenation of the longest suffix of all recorded lines that
    fits in `maxBytes`, and of the newest line alone when not even that one fits.
  */
  lemma {:induction false} LogIsLongestSuffix(lines: seq<Bytes>, maxBytes: nat)
    requires AllEncoded(lines)
    ensures LeastCut(lines, maxBytes, Cut(lines, maxBytes))
    ensures LogAfter(lines, maxBytes) == Concat(lines[Cut(lines, maxBytes)..])
  {
    CutIsLeast(lines, maxBytes);
    if lines != [] {
      var init, line := lines[..|lines| - 1], lines[|lines| - 1];
      PartsEncoded(lines, |lines| - 1);
      InitAndLast(lines);
      hide LeastCut, Cut, Recorded, Concat, AllEncoded;
      LogIsLongestSuffix(init, maxBytes);
      RecordExtends(init, line, maxBytes, Cut(init, maxBytes));
    }
  }
}
