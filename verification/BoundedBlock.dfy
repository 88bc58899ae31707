/** The bounded-block primitive of `scripts/bounded_generated_block.py`. */
module BoundedBlock {
  import opened Results

  datatype Refusal = MalformedMarkers | OutOfOrder

  /** `text.count(marker)`: occurrences that do not overlap, from the left. */
  function Count(text: string, marker: string): nat
    requires marker != ""
    decreases |text|
  {
    if |text| < |marker| then 0
    else if marker <= text then 1 + Count(text[|marker|..], marker)
    else Count(text[1..], marker)
  }

  /** `text.index(marker)`: where the first occurrence begins. */
  function IndexOf(text: string, marker: string): (i: nat)
    requires marker != "" && Count(text, marker) > 0
    ensures i + |marker| <= |text| && text[i..i + |marker|] == marker
    decreases |text|
  {
    if marker <= text then 0
    else
      assert text == [text[0]] + text[1..];
      1 + IndexOf(text[1..], marker)
  }

  datatype Span = Span(from: nat, to: nat)

  /** Where the block begins and ends, or why there is no block. */
  function Bounds(text: string, begin: string, end: string): (r: Result<Span, Refusal>)
    requires begin != "" && end != ""
    ensures r.Ok? ==> r.value.from <= r.value.to <= |text|
  {
    if Count(text, begin) != 1 || Count(text, end) != 1 then Err(MalformedMarkers)
    else
      var beginIndex := IndexOf(text, begin);
      var endIndex := IndexOf(text, end) + |end|;
      if endIndex <= beginIndex then Err(OutOfOrder) else Ok(Span(beginIndex, endIndex))
  }

  function ApplyBoundedBlock(text: string, block: string, begin: string, end: string): Result<string, Refusal>
    requires begin != "" && end != ""
  {
    var at :- Bounds(text, begin, end);
    Ok(text[..at.from] + block + text[at.to..])
  }

  function HumanText(text: string, begin: string, end: string): Result<string, Refusal>
    requires begin != "" && end != ""
  {
    var at :- Bounds(text, begin, end);
    Ok(text[..at.from] + text[at.to..])
  }

  // ---------------------------------------------------------------- markers that cannot straddle a splice

  /** An angle bracket opens and closes the marker and none occurs inside it. */
  predicate IsMarker(m: string) {
    && |m| >= 2 && m[0] == '<' && m[|m| - 1] == '>'
    && (forall i :: 1 <= i < |m| ==> m[i] != '<')
    && (forall i :: 0 <= i < |m| - 1 ==> m[i] != '>')
  }

  /** Between a and b no marker can begin in the one and end in the other. */
  predicate CleanCut(a: string, b: string) {
    a == "" || b == "" || a[|a| - 1] == '>' || b[0] == '<'
  }

  lemma NoStraddling(a: string, b: string, m: string)
    requires IsMarker(m) && CleanCut(a, b) && a != "" && m <= a + b
    ensures m <= a
  {
    assert forall x :: 0 <= x < |m| ==> (a + b)[x] == m[x];
    assert (a + b)[|a| - 1] == a[|a| - 1];
    assert b != "" ==> (a + b)[|a|] == b[0];
  }

  lemma {:induction false} CountApart(a: string, b: string, m: string)
    requires IsMarker(m) && CleanCut(a, b)
    ensures Count(a + b, m) == Count(a, m) + Count(b, m)
    decreases |a|
  {
    if a == "" {
      assert a + b == b;
    } else if m <= a {
      assert m <= a + b;
      assert (a + b)[|m|..] == a[|m|..] + b;
      CountApart(a[|m|..], b, m);
    } else {
      if m <= a + b { NoStraddling(a, b, m); }
      assert (a + b)[1..] == a[1..] + b;
      CountApart(a[1..], b, m);
    }
  }

  lemma {:induction false} IndexApart(a: string, b: string, m: string)
    requires IsMarker(m) && CleanCut(a, b) && Count(a, m) == 0 && Count(b, m) > 0
    ensures Count(a + b, m) > 0 && IndexOf(a + b, m) == |a| + IndexOf(b, m)
    decreases |a|
  {
    CountApart(a, b, m);
    if a == "" {
      assert a + b == b;
    } else {
      if m <= a + b { NoStraddling(a, b, m); }
      assert (a + b)[1..] == a[1..] + b;
      IndexApart(a[1..], b, m);
    }
  }

  lemma {:induction false} IndexBefore(a: string, b: string, m: string)
    requires IsMarker(m) && CleanCut(a, b) && Count(a, m) > 0
    ensures Count(a + b, m) > 0 && IndexOf(a + b, m) == IndexOf(a, m)
    decreases |a|
  {
    CountApart(a, b, m);
    if m <= a {
      assert m <= a + b;
    } else {
      if m <= a + b { NoStraddling(a, b, m); }
      assert (a + b)[1..] == a[1..] + b;
      IndexBefore(a[1..], b, m);
    }
  }

  /** A text that opens with '<' and closes with '>', as every block does. */
  predicate IsBracketed(s: string) { s != "" && s[0] == '<' && s[|s| - 1] == '>' }

  lemma CountAround(before: string, block: string, after: string, m: string)
    requires IsMarker(m) && IsBracketed(block)
    ensures Count(before + block + after, m) == Count(before, m) + Count(block, m) + Count(after, m)
  {
    assert (before + block)[|before + block| - 1] == '>';
    CountApart(before + block, after, m);
    CountApart(before, block, m);
  }

  /** The block begins with the one marker and ends with the other. */
  predicate IsFramed(block: string, begin: string, end: string) {
    && |begin| + |end| <= |block|
    && begin <= block && block[|block| - |end|..] == end
  }

  lemma SuffixCounts(s: string, m: string)
    requires IsMarker(m) && |m| <= |s| && s[|s| - |m|..] == m
    ensures Count(s, m) == Count(s[..|s| - |m|], m) + 1
    ensures Count(s, m) == 1 ==> IndexOf(s, m) == |s| - |m|
  {
    var head := s[..|s| - |m|];
    assert s == head + m;
    CountOfItself(m);
    CountApart(head, m, m);
    if Count(head, m) == 0 { IndexApart(head, m, m); }
  }

  lemma CountOfItself(m: string)
    requires m != ""
    ensures Count(m, m) == 1 && IndexOf(m, m) == 0
  {
    assert m[|m|..] == "";
  }

  lemma PrefixCounts(s: string, m: string)
    requires IsMarker(m) && m <= s
    ensures Count(s, m) >= 1 && IndexOf(s, m) == 0
  {
  }

  /** Two markers of one text occur apart, or are the same occurrence. */
  lemma MarkersDoNotOverlap(text: string, i: nat, begin: string, j: nat, end: string)
    requires IsMarker(begin) && IsMarker(end) && begin != end
    requires i + |begin| <= |text| && text[i..i + |begin|] == begin
    requires j + |end| <= |text| && text[j..j + |end|] == end
    ensures i + |begin| <= j || j + |end| <= i
  {
    assert forall x :: i <= x < i + |begin| ==> text[x] == begin[x - i];
    assert forall x :: j <= x < j + |end| ==> text[x] == end[x - j];
    assert text[i] == '<' && text[j] == '<' && text[i + |begin| - 1] == '>' && text[j + |end| - 1] == '>';
  }

  // ---------------------------------------------------------------- what a splice keeps

  lemma ThreeParts(text: string, b: nat, e: nat)
    requires b <= e <= |text|
    ensures text == text[..b] + text[b..e] + text[e..]
  {
  }

  /** A marker occurring once in the whole and also in the block occurs nowhere else. */
  lemma OnlyInBlock(text: string, before: string, block: string, after: string, m: string)
    requires IsMarker(m) && IsBracketed(block) && Count(block, m) > 0
    requires text == before + block + after && Count(text, m) == 1
    ensures Count(before, m) == 0 && Count(after, m) == 0 && Count(block, m) == 1
  {
    CountAround(before, block, after, m);
  }

  lemma FramedIsBracketed(block: string, begin: string, end: string)
    requires IsMarker(begin) && IsMarker(end) && IsFramed(block, begin, end)
    ensures IsBracketed(block)
  {
    assert block[|block| - |end|..][|end| - 1] == '>';
  }

  lemma SlicedFrame(text: string, i: nat, begin: string, j: nat, end: string)
    requires i + |begin| <= j && j + |end| <= |text|
    requires text[i..i + |begin|] == begin && text[j..j + |end|] == end
    ensures IsFramed(text[i..j + |end|], begin, end)
  {
    var block := text[i..j + |end|];
    assert block[..|begin|] == text[i..i + |begin|];
    assert block[|block| - |end|..] == text[j..j + |end|];
  }

  /** What acceptance says of the two places. */
  lemma AcceptedPlaces(text: string, begin: string, end: string, b: nat, e: nat)
    requires begin != "" && end != "" && Bounds(text, begin, end) == Ok(Span(b, e))
    ensures Count(text, begin) == 1 && Count(text, end) == 1
    ensures b + |begin| <= |text| && text[b..b + |begin|] == begin
    ensures |end| <= e <= |text| && text[e - |end|..e] == end && b < e
  {
  }

  lemma FrameAtPlaces(text: string, begin: string, end: string, b: nat, e: nat)
    requires IsMarker(begin) && IsMarker(end) && begin != end
    requires b + |begin| <= |text| && text[b..b + |begin|] == begin
    requires |end| <= e <= |text| && text[e - |end|..e] == end && b < e
    ensures IsFramed(text[b..e], begin, end)
  {
    MarkersDoNotOverlap(text, b, begin, e - |end|, end);
    SlicedFrame(text, b, begin, e - |end|, end);
  }

  /** An accepted text is human text, one framed block, and human text, and
      neither human part holds a marker. */
  lemma AcceptedTextSplits(text: string, begin: string, end: string, b: nat, e: nat)
    requires IsMarker(begin) && IsMarker(end) && begin != end && Bounds(text, begin, end) == Ok(Span(b, e))
    ensures IsFramed(text[b..e], begin, end)
    ensures Count(text[..b], begin) == 0 && Count(text[..b], end) == 0
    ensures Count(text[e..], begin) == 0 && Count(text[e..], end) == 0
    ensures Count(text[b..e], begin) == 1 && Count(text[b..e], end) == 1
  {
    AcceptedPlaces(text, begin, end, b, e);
    FrameAtPlaces(text, begin, end, b, e);
    ThreeParts(text, b, e);
    FramedHolds(text[b..e], begin, end);
    OnlyInBlock(text, text[..b], text[b..e], text[e..], begin);
    OnlyInBlock(text, text[..b], text[b..e], text[e..], end);
  }

  /** A marker that the block holds, and the text before it does not. */
  lemma SplicedIndex(before: string, block: string, after: string, m: string)
    requires IsMarker(m) && IsBracketed(block) && Count(before, m) == 0 && Count(block, m) > 0
    ensures Count(before + block + after, m) > 0
    ensures IndexOf(before + block + after, m) == |before| + IndexOf(block, m)
  {
    IndexApart(before, block, m);
    assert (before + block)[|before + block| - 1] == '>';
    IndexBefore(before + block, after, m);
  }

  /** The text holds the marker once, there. */
  ghost predicate Sits(text: string, m: string, at: nat) { m != "" && Count(text, m) == 1 && IndexOf(text, m) == at }

  lemma BoundsAt(text: string, begin: string, end: string, b: nat, j: nat, e: nat)
    requires begin != "" && Sits(text, begin, b) && Sits(text, end, j) && e == j + |end| && b < e
    ensures Bounds(text, begin, end) == Ok(Span(b, e))
  {
  }

  lemma MarkerSits(before: string, block: string, after: string, m: string, at: nat)
    requires IsMarker(m) && IsBracketed(block) && Count(before, m) == 0 && Count(after, m) == 0
    requires Count(block, m) == 1 && at == |before| + IndexOf(block, m)
    ensures Sits(before + block + after, m, at)
  {
    CountAround(before, block, after, m);
    SplicedIndex(before, block, after, m);
  }

  lemma FramedHolds(block: string, begin: string, end: string)
    requires IsMarker(begin) && IsMarker(end) && IsFramed(block, begin, end)
    ensures IsBracketed(block)
    ensures Count(block, begin) > 0 && IndexOf(block, begin) == 0
    ensures Count(block, end) > 0 && (Count(block, end) == 1 ==> IndexOf(block, end) == |block| - |end|)
  {
    FramedIsBracketed(block, begin, end);
    PrefixCounts(block, begin);
    SuffixCounts(block, end);
  }

  /** Neither part of the human text holds a marker. */
  ghost predicate Clear(before: string, after: string, begin: string, end: string)
    requires begin != "" && end != ""
  {
    Count(before, begin) == 0 && Count(before, end) == 0 && Count(after, begin) == 0 && Count(after, end) == 0
  }

  lemma BeginSits(before: string, block: string, after: string, begin: string, end: string)
    requires IsMarker(begin) && IsMarker(end) && IsFramed(block, begin, end) && Clear(before, after, begin, end)
    requires Count(block, begin) == 1
    ensures Sits(before + block + after, begin, |before|)
  {
    FramedHolds(block, begin, end);
    MarkerSits(before, block, after, begin, |before|);
  }

  lemma EndSits(before: string, block: string, after: string, begin: string, end: string)
    requires IsMarker(begin) && IsMarker(end) && IsFramed(block, begin, end) && Clear(before, after, begin, end)
    requires Count(block, end) == 1
    ensures Sits(before + block + after, end, |before| + |block| - |end|)
  {
    FramedHolds(block, begin, end);
    MarkerSits(before, block, after, end, |before| + |block| - |end|);
  }

  /** Where a block repeats a marker, the spliced text is refused. */
  lemma RepeatedMarkerRefused(before: string, block: string, after: string, begin: string, end: string)
    requires IsMarker(begin) && IsMarker(end) && IsFramed(block, begin, end) && Clear(before, after, begin, end)
    requires Count(block, begin) != 1 || Count(block, end) != 1
    ensures Bounds(before + block + after, begin, end) == Err(MalformedMarkers)
  {
    FramedIsBracketed(block, begin, end);
    CountAround(before, block, after, begin);
    CountAround(before, block, after, end);
  }

  /** Regenerating a block: the human text can be read back exactly when the new
      block holds each marker once, it is then the human text of before, and any
      further regeneration gives what it would have given the first time. */
  lemma RegenerationKeepsHumanText(text: string, block: string, begin: string, end: string, next: string)
    requires IsMarker(begin) && IsMarker(end) && begin != end && IsFramed(block, begin, end)
    requires Bounds(text, begin, end).Ok?
    ensures var regenerated := ApplyBoundedBlock(text, block, begin, end);
            && regenerated.Ok?
            && (HumanText(regenerated.value, begin, end).Ok? <==> Count(block, begin) == 1 && Count(block, end) == 1)
            && (HumanText(regenerated.value, begin, end).Ok? ==>
                  && HumanText(regenerated.value, begin, end) == HumanText(text, begin, end)
                  && ApplyBoundedBlock(regenerated.value, next, begin, end) ==
                     ApplyBoundedBlock(text, next, begin, end))
  {
    var (b, e) := (Bounds(text, begin, end).value.from, Bounds(text, begin, end).value.to);
    AcceptedTextSplits(text, begin, end, b, e);
    var (before, after) := (text[..b], text[e..]);
    if Count(block, begin) == 1 && Count(block, end) == 1 {
      BeginSits(before, block, after, begin, end);
      EndSits(before, block, after, begin, end);
      BoundsAt(before + block + after, begin, end, |before|, |before| + |block| - |end|, |before| + |block|);
      SplicedAgain(before, block, after);
    } else {
      RepeatedMarkerRefused(before, block, after, begin, end);
    }
  }

  lemma SplicedAgain(before: string, block: string, after: string)
    ensures (before + block + after)[..|before|] == before
    ensures (before + block + after)[|before| + |block|..] == after
  {
  }
}
