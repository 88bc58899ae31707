/** Python text operations the scripts rely on. */
module Texts {
  import opened Results

  /** The characters `str.strip` removes. */
  predicate IsSpace(c: char) {
    var n := c as int;
    9 <= n <= 13 || 28 <= n <= 32 || n == 0x85 || n == 0xA0 || n == 0x1680 || 0x2000 <= n <= 0x200A
    || n == 0x2028 || n == 0x2029 || n == 0x202F || n == 0x205F || n == 0x3000
  }

  /** The characters that end a line for `str.splitlines`. */
  predicate IsBreak(c: char) {
    var n := c as int;
    10 <= n <= 13 || 28 <= n <= 30 || n == 0x85 || n == 0x2028 || n == 0x2029
  }

  predicate OneLine(s: string) { forall i :: 0 <= i < |s| ==> !IsBreak(s[i]) }

  function StripLeft(s: string): string { if s == "" || !IsSpace(s[0]) then s else StripLeft(s[1..]) }

  function StripRight(s: string): string { if s == "" || !IsSpace(s[|s| - 1]) then s else StripRight(s[..|s| - 1]) }

  function Strip(s: string): string { StripRight(StripLeft(s)) }

  predicate IsStripped(s: string) { s == "" || (!IsSpace(s[0]) && !IsSpace(s[|s| - 1])) }

  lemma {:induction false} StripLeftStrips(s: string)
    ensures StripLeft(s) == "" || !IsSpace(StripLeft(s)[0])
    ensures OneLine(s) ==> OneLine(StripLeft(s))
  {
    if s != "" && IsSpace(s[0]) { StripLeftStrips(s[1..]); }
  }

  lemma {:induction false} StripRightStrips(s: string)
    ensures StripRight(s) == "" || !IsSpace(StripRight(s)[|StripRight(s)| - 1])
    ensures StripRight(s) <= s
  {
    if s != "" && IsSpace(s[|s| - 1]) { StripRightStrips(s[..|s| - 1]); }
  }

  lemma StripStrips(s: string)
    ensures IsStripped(Strip(s))
    ensures OneLine(s) ==> OneLine(Strip(s))
    ensures IsStripped(s) ==> Strip(s) == s
  {
    StripLeftStrips(s);
    StripRightStrips(StripLeft(s));
  }

  // ---------------------------------------------------------------- lines

  /** The length of the first line. */
  function LineEnd(s: string): (n: nat)
    ensures n <= |s|
    ensures OneLine(s[..n])
    ensures n < |s| ==> IsBreak(s[n])
  {
    if s == "" || IsBreak(s[0]) then 0 else 1 + LineEnd(s[1..])
  }

  function SplitLines(s: string): (lines: seq<string>)
    ensures forall i :: 0 <= i < |lines| ==> OneLine(lines[i])
  {
    if s == "" then []
    else
      var n := LineEnd(s);
      if n == |s| then [s]
      else
        var width := if s[n] == '\r' && n + 1 < |s| && s[n + 1] == '\n' then 2 else 1;
        [s[..n]] + SplitLines(s[n + width..])
  }

  /** `"\n".join(lines)`. */
  function JoinLines(lines: seq<string>): string {
    if lines == [] then ""
    else if |lines| == 1 then lines[0]
    else lines[0] + "\n" + JoinLines(lines[1..])
  }

  lemma {:induction false} LineEndBeforeBreak(line: string, rest: string)
    requires OneLine(line)
    ensures LineEnd(line + "\n" + rest) == |line|
  {
    if line == "" {
      assert "" + "\n" + rest == "\n" + rest;
    } else {
      assert (line + "\n" + rest)[1..] == line[1..] + "\n" + rest;
      LineEndBeforeBreak(line[1..], rest);
    }
  }

  /** Joining one-line texts and splitting again gives them back, provided the
      last is not empty. */
  lemma {:induction false} SplitOfJoin(lines: seq<string>)
    requires lines != [] && lines[|lines| - 1] != "" && forall i :: 0 <= i < |lines| ==> OneLine(lines[i])
    ensures SplitLines(JoinLines(lines)) == lines
  {
    if |lines| == 1 {
      assert LineEnd(lines[0]) == |lines[0]|;
      assert lines == [lines[0]];
    } else {
      var (line, rest) := (lines[0], JoinLines(lines[1..]));
      var text := line + "\n" + rest;
      SplitOfJoin(lines[1..]);
      LineEndBeforeBreak(line, rest);
      assert text[|line|] == '\n' && text[..|line|] == line && text[|line| + 1..] == rest;
      assert lines == [line] + lines[1..];
    }
  }
}
