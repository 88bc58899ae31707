/** Which fields a document records, read off its text. */
module StatusReading {
  import opened Results
  import opened Texts
  import opened StatusFields

  // ---------------------------------------------------------------- lines and stripped lines

  predicate AllSpace(s: string) { forall i :: 0 <= i < |s| ==> IsSpace(s[i]) }

  lemma {:induction false} LeftSpace(s: string) returns (a: string)
    ensures s == a + StripLeft(s) && AllSpace(a)
  {
    if s == "" || !IsSpace(s[0]) {
      a := "";
    } else {
      a := LeftSpace(s[1..]);
      a := [s[0]] + a;
      assert s == [s[0]] + s[1..];
    }
  }

  lemma {:induction false} RightSpace(s: string) returns (b: string)
    ensures s == StripRight(s) + b && AllSpace(b)
  {
    if s == "" || !IsSpace(s[|s| - 1]) {
      b := "";
    } else {
      b := RightSpace(s[..|s| - 1]);
      b := b + [s[|s| - 1]];
      assert s == s[..|s| - 1] + [s[|s| - 1]];
    }
  }

  lemma {:induction false} LeftOfSpace(a: string, s: string)
    requires AllSpace(a)
    ensures StripLeft(a + s) == StripLeft(s)
  {
    if a == "" {
      assert a + s == s;
    } else {
      assert (a + s)[0] == a[0] && (a + s)[1..] == a[1..] + s;
      LeftOfSpace(a[1..], s);
    }
  }

  lemma {:induction false} RightOfSpace(s: string, b: string)
    requires AllSpace(b)
    ensures StripRight(s + b) == StripRight(s)
  {
    if b == "" {
      assert s + b == s;
    } else {
      var n := |b| - 1;
      assert (s + b)[|s| + n] == b[n] && (s + b)[..|s| + n] == s + b[..n];
      RightOfSpace(s, b[..n]);
    }
  }

  /** The text is the core with space around it. */
  ghost predicate Surrounds(s: string, core: string) {
    exists a, b :: AllSpace(a) && AllSpace(b) && s == a + core + b
  }

  lemma StripSurrounds(s: string)
    ensures Surrounds(s, Strip(s))
  {
    var a := LeftSpace(s);
    var b := RightSpace(StripLeft(s));
    assert s == a + Strip(s) + b;
  }

  lemma SurroundedStrips(a: string, core: string, b: string)
    requires AllSpace(a) && AllSpace(b) && IsStripped(core)
    ensures Strip(a + core + b) == core
  {
    assert a + core + b == a + (core + b);
    LeftOfSpace(a, core + b);
    if core == "" {
      assert core + b == b && b == b + "";
      LeftOfSpace(b, "");
    } else {
      assert (core + b)[0] == core[0];
      RightOfSpace(core, b);
    }
  }

  /** Stripping takes off the space around a text and nothing else. */
  lemma StripsExactly(s: string, core: string)
    ensures Strip(s) == core <==>
            Surrounds(s, core) && (core == "" || (!IsSpace(core[0]) && !IsSpace(core[|core| - 1])))
  {
    StripStrips(s);
    StripSurrounds(s);
    if Surrounds(s, core) && IsStripped(core) {
      var a, b :| AllSpace(a) && AllSpace(b) && s == a + core + b;
      SurroundedStrips(a, core, b);
    }
  }

  lemma {:induction false} LineEndOf(line: string, rest: string)
    requires OneLine(line) && (rest == "" || IsBreak(rest[0]))
    ensures LineEnd(line + rest) == |line|
  {
    if line == "" {
      assert line + rest == rest;
    } else {
      assert (line + rest)[1..] == line[1..] + rest;
      LineEndOf(line[1..], rest);
    }
  }

  /** A text is split at its breaks, a carriage return and line feed being one; nothing
      follows a last break, and the empty text has no line. */
  lemma SplitsExactly(line: string, rest: string)
    requires OneLine(line)
    ensures SplitLines("") == []
    ensures line != "" ==> SplitLines(line) == [line]
    ensures SplitLines(line + "\r\n" + rest) == [line] + SplitLines(rest)
    ensures forall c :: IsBreak(c) && (c != '\r' || rest == "" || rest[0] != '\n') ==>
              SplitLines(line + [c] + rest) == [line] + SplitLines(rest)
  {
    if line != "" {
      LineEndOf(line, "");
      assert line + "" == line;
    }
    SplitAt(line, '\r', "\n" + rest);
    assert line + "\r\n" + rest == line + ['\r'] + ("\n" + rest) && ("\n" + rest)[1..] == rest;
    forall c | IsBreak(c) && (c != '\r' || rest == "" || rest[0] != '\n')
      ensures SplitLines(line + [c] + rest) == [line] + SplitLines(rest)
    {
      SplitAt(line, c, rest);
    }
  }

  lemma SplitAt(line: string, c: char, rest: string)
    requires OneLine(line) && IsBreak(c)
    ensures SplitLines(line + [c] + rest) ==
            [line] + SplitLines(if c == '\r' && rest != "" && rest[0] == '\n' then rest[1..] else rest)
  {
    var s := line + [c] + rest;
    assert s == line + ([c] + rest);
    LineEndOf(line, [c] + rest);
    assert s[..|line|] == line && s[|line|] == c && s[|line| + 1..] == rest;
    if c == '\r' && rest != "" && rest[0] == '\n' { assert s[|line| + 2..] == rest[1..]; }
  }

  // ---------------------------------------------------------------- what is recorded

  ghost predicate Opens(line: string) { Strip(line) == "```text" }

  ghost predicate Closes(line: string) { Strip(line) == "```" }

  /** Before line i a text block has been opened and not closed since. */
  ghost predicate InBlock(lines: seq<string>, i: int)
    requires 0 <= i <= |lines|
  {
    exists j :: 0 <= j < i && Opens(lines[j]) && forall k :: j < k < i ==> !Closes(lines[k])
  }

  /** The line is the key, an equals sign and the value, up to surrounding space. */
  ghost predicate Says(line: string, k: string, v: string) { IsKey(k) && Strip(line) == k + "=" + v }

  /** Line i records v for k. */
  ghost predicate Records(lines: seq<string>, i: int, k: string, v: string) {
    0 <= i < |lines| && InBlock(lines, i) && Says(lines[i], k, v)
  }

  /** Line i records v for k, and no later line records anything for it. */
  ghost predicate LastRecords(lines: seq<string>, i: int, k: string, v: string) {
    Records(lines, i, k, v) && forall j, w :: i < j ==> !Records(lines, j, k, w)
  }

  lemma SaysIsParsed(line: string, k: string, v: string)
    ensures Says(line, k, v) <==> ParseField(Strip(line)) == Some(Field(k, v))
    ensures Says(line, k, v) ==> !Opens(line) && !Closes(line)
  {
    var s := Strip(line);
    if Says(line, k, v) {
      assert s == FieldLine(k, v) && s[0] == k[0];
      FieldLineParses(k, v);
    }
    if ParseField(s) == Some(Field(k, v)) {
      KeyLengthIsKey(s);
      assert s == s[..KeyLength(s)] + "=" + s[KeyLength(s) + 1..];
    }
  }

  lemma BlockOneMore(before: seq<string>, line: string)
    ensures forall i :: 0 <= i <= |before| ==> (InBlock(before + [line], i) <==> InBlock(before, i))
    ensures InBlock(before + [line], |before| + 1) <==>
            Opens(line) || (InBlock(before, |before|) && !Closes(line))
  {
    var lines := before + [line];
    forall i | 0 <= i <= |before| ensures InBlock(lines, i) <==> InBlock(before, i) {
      if j :| 0 <= j < i && Opens(lines[j]) && forall k :: j < k < i ==> !Closes(lines[k]) {
        assert Opens(before[j]);
        forall k | j < k < i ensures !Closes(before[k]) { assert lines[k] == before[k]; }
      }
      if j :| 0 <= j < i && Opens(before[j]) && forall k :: j < k < i ==> !Closes(before[k]) {
        assert Opens(lines[j]);
        forall k | j < k < i ensures !Closes(lines[k]) { assert lines[k] == before[k]; }
      }
    }
    if Opens(line) { assert Opens(lines[|before|]); }
    if InBlock(before, |before|) && !Closes(line) {
      var j :| 0 <= j < |before| && Opens(before[j]) && forall k :: j < k < |before| ==> !Closes(before[k]);
      assert Opens(lines[j]) && forall k :: j < k < |before| + 1 ==> !Closes(lines[k]);
    }
    if InBlock(lines, |before| + 1) && !Opens(line) {
      var j :| 0 <= j < |before| + 1 && Opens(lines[j]) && forall k :: j < k < |before| + 1 ==> !Closes(lines[k]);
      assert Opens(before[j]) && !Closes(lines[|before|]);
      forall k | j < k < |before| ensures !Closes(before[k]) { assert lines[k] == before[k]; }
    }
  }

  lemma RecordsOneMore(before: seq<string>, line: string, i: int, k: string, v: string)
    ensures Records(before + [line], i, k, v) <==>
            if i == |before| then InBlock(before, i) && Says(line, k, v) else Records(before, i, k, v)
  {
    BlockOneMore(before, line);
  }

  ghost predicate Holds(fields: map<string, string>, k: string, v: string) { k in fields && fields[k] == v }

  ghost predicate AnyRecords(lines: seq<string>, k: string, v: string) { exists i :: LastRecords(lines, i, k, v) }

  /** What has been read of the lines for k is what they record. */
  ghost predicate ReadsLines(lines: seq<string>, st: Extraction, k: string, v: string) {
    && (st.inTextBlock <==> InBlock(lines, |lines|))
    && (Holds(st.fields, k, v) <==> AnyRecords(lines, k, v))
  }

  lemma ReadsOneMore(before: seq<string>, line: string, st: Extraction, k: string, v: string)
    requires ReadsLines(before, st, k, v)
    ensures ReadsLines(before + [line], ReadLine(st, line), k, v)
  {
    BlockOneMore(before, line);
    if w :| InBlock(before, |before|) && Says(line, k, w) {
      SaysIsParsed(line, k, w);
      SaysOnce(line, k, v, w);
      LastLineRecords(before, line, k, v, w);
    } else {
      KeepsOthers(st, line, k);
      SameRecords(before, line, k, v);
    }
  }

  lemma LastLineRecords(before: seq<string>, line: string, k: string, v: string, w: string)
    requires InBlock(before, |before|) && Says(line, k, w)
    ensures AnyRecords(before + [line], k, v) <==> Says(line, k, v)
  {
    var (lines, n) := (before + [line], |before|);
    RecordsOneMore(before, line, n, k, v);
    RecordsOneMore(before, line, n, k, w);
    if Says(line, k, v) { assert LastRecords(lines, n, k, v); }
    if i :| LastRecords(lines, i, k, v) {
      assert Records(lines, n, k, w);
      assert i == n;
    }
  }

  lemma SameRecords(before: seq<string>, line: string, k: string, v: string)
    requires !InBlock(before, |before|) || forall w :: !Says(line, k, w)
    ensures AnyRecords(before + [line], k, v) <==> AnyRecords(before, k, v)
  {
    var lines := before + [line];
    forall i, w ensures Records(lines, i, k, w) <==> Records(before, i, k, w) {
      RecordsOneMore(before, line, i, k, w);
    }
    if i :| LastRecords(lines, i, k, v) { assert LastRecords(before, i, k, v); }
    if i :| LastRecords(before, i, k, v) { assert LastRecords(lines, i, k, v); }
  }

  lemma SaysOnce(line: string, k: string, v: string, w: string)
    requires Says(line, k, w)
    ensures Says(line, k, v) <==> v == w
  {
    SaysIsParsed(line, k, v);
    SaysIsParsed(line, k, w);
  }

  lemma KeepsOthers(st: Extraction, line: string, k: string)
    requires !st.inTextBlock || forall w :: !Says(line, k, w)
    ensures var r := ReadLine(st, line);
            (k in r.fields <==> k in st.fields) && (k in st.fields ==> r.fields[k] == st.fields[k])
  {
    var field := ParseField(Strip(line));
    if field.Some? { SaysIsParsed(line, field.value.key, field.value.value); }
  }

  lemma {:induction false} ReadsAllLines(lines: seq<string>, k: string, v: string)
    ensures ReadsLines(lines, ReadLines(NOTHING_READ, lines), k, v)
  {
    if lines == [] {
      assert !AnyRecords(lines, k, v);
    } else {
      var (before, line) := (lines[..|lines| - 1], lines[|lines| - 1]);
      assert lines == before + [line];
      ReadsAllLines(before, k, v);
      ReadsOneMore(before, line, ReadLines(NOTHING_READ, before), k, v);
      ReadLinesApart(NOTHING_READ, before, [line]);
    }
  }

  /** A document records v for k exactly when the last line inside a text block that says
      anything of k says v. */
  lemma ExtractedExactly(text: string, k: string, v: string)
    ensures Holds(Extracted(text), k, v) <==> AnyRecords(SplitLines(text), k, v)
  {
    ReadsAllLines(SplitLines(text), k, v);
  }
}
