/** segmentTextImproved: cutting a text into blocks at block-start lines, with a
    safety limit on block length. */
module GenericSegmentation {
  import opened Wrappers
  import opened JavaText
  import opened Regex
  import opened Entities
  import opened GenericFields

  const MaxLinesPerBlock: nat := 50

  /** The segmenter between two lines: the closed groups of trimmed lines and the
      lines of the open group (the buffer, whose length is the line counter). */
  datatype SegState = SegState(groups: seq<seq<string>>, current: seq<string>)

  function SegStep(o: Oracle, p: Pattern, st: SegState, line: string): SegState {
    var t := Trim(line);
    if t == [] then st
    else
      var isStart := Finds(o, p, t);
      var flush := isStart && st.current != [];
      var closed := if flush then st.groups + [st.current] else st.groups;
      var cur := (if flush then [] else st.current) + [t];
      if |cur| >= MaxLinesPerBlock && !isStart then SegState(closed + [cur], [])
      else SegState(closed, cur)
  }

  function SegScan(o: Oracle, p: Pattern, lines: seq<string>): SegState
    decreases |lines|
  {
    if lines == [] then SegState([], [])
    else SegStep(o, p, SegScan(o, p, lines[..|lines| - 1]), lines[|lines| - 1])
  }

  /** The groups after the final flush. */
  function SegGroups(o: Oracle, p: Pattern, lines: seq<string>): seq<seq<string>> {
    var st := SegScan(o, p, lines);
    if st.current != [] then st.groups + [st.current] else st.groups
  }

  /** What segmentTextImproved returns: the whole text for GLOBAL mode or a missing,
      blank or ill-formed start pattern; otherwise one segment per group, its lines
      joined by single spaces. */
  function SegmentText(o: Oracle, fullText: string, config: BlockConfig): seq<string> {
    if config.blockMode == GLOBAL then [fullText]
    else match CompilePattern(o, config.blockStartPattern)
      case None => [fullText]
      case Some(p) => JoinEach(SegGroups(o, p, Split(fullText, '\n')))
  }

  /** The lines a segmenter keeps: each non-blank line, trimmed, in order. */
  function KeptLines(lines: seq<string>): (r: seq<string>)
    ensures AllTrimmedNonEmpty(r)
    decreases |lines|
  {
    if lines == [] then []
    else
      var init := KeptLines(lines[..|lines| - 1]);
      var t := Trim(lines[|lines| - 1]);
      if t == [] then init else init + [t]
  }

  /** A block-start line appears only as the first line of a group. */
  predicate StartsOnlyFirst(o: Oracle, p: Pattern, g: seq<string>) {
    forall i :: 0 < i < |g| ==> !Finds(o, p, g[i])
  }

  /** A group boundary is caused by a block-start line or by the line limit. */
  predicate BoundariesExplained(o: Oracle, p: Pattern, groups: seq<seq<string>>) {
    forall i :: 0 < i < |groups| ==>
      |groups[i - 1]| == MaxLinesPerBlock || (groups[i] != [] && Finds(o, p, groups[i][0]))
  }

  /** The open group, once there are closed groups, follows a full group or opens
      with a block-start line. */
  predicate OpenGroupExplained(o: Oracle, p: Pattern, st: SegState) {
    st.groups != [] ==>
      |st.groups[|st.groups| - 1]| == MaxLinesPerBlock || (st.current != [] && Finds(o, p, st.current[0]))
  }

  /** The closed and open groups together are the kept lines. */
  predicate KeepsLines(lines: seq<string>, st: SegState) {
    Flatten(st.groups) + st.current == KeptLines(lines)
  }

  /** Closed groups hold 1 to 50 lines, the open one fewer than 50. */
  predicate SizesBounded(st: SegState) {
    && (forall i :: 0 <= i < |st.groups| ==> 1 <= |st.groups[i]| <= MaxLinesPerBlock)
    && |st.current| < MaxLinesPerBlock
  }

  predicate StartsPlaced(o: Oracle, p: Pattern, st: SegState) {
    && (forall i :: 0 <= i < |st.groups| ==> StartsOnlyFirst(o, p, st.groups[i]))
    && StartsOnlyFirst(o, p, st.current)
  }

  predicate SegInvariant(o: Oracle, p: Pattern, lines: seq<string>, st: SegState) {
    && KeepsLines(lines, st)
    && SizesBounded(st)
    && StartsPlaced(o, p, st)
    && BoundariesExplained(o, p, st.groups)
    && OpenGroupExplained(o, p, st)
  }

  lemma {:induction false} SegScanInvariant(o: Oracle, p: Pattern, lines: seq<string>)
    ensures SegInvariant(o, p, lines, SegScan(o, p, lines))
    decreases |lines|
  {
    if lines != [] {
      var init := lines[..|lines| - 1];
      var line := lines[|lines| - 1];
      SegScanInvariant(o, p, init);
      assert lines == init + [line];
      var st := SegScan(o, p, init);
      StepKeepsLines(o, p, init, line, st);
      StepSizesBounded(o, p, line, st);
      StepStartsPlaced(o, p, line, st);
      StepBoundaries(o, p, line, st);
    }
  }

  lemma KeptLinesAppend(lines: seq<string>, line: string)
    ensures KeptLines(lines + [line]) == KeptLines(lines) + (if Trim(line) == [] then [] else [Trim(line)])
  {
    assert (lines + [line])[..|lines|] == lines;
  }

  lemma FlattenStep(groups: seq<seq<string>>, current: seq<string>, t: string, flush: bool)
    ensures var closed := if flush then groups + [current] else groups;
            var cur := (if flush then [] else current) + [t];
            Flatten(closed) + cur == (Flatten(groups) + current) + [t]
  {
    if flush {
      FlattenAppend(groups, current);
      assert Flatten(groups + [current]) + [t] == (Flatten(groups) + current) + [t];
    } else {
      assert Flatten(groups) + (current + [t]) == (Flatten(groups) + current) + [t];
    }
  }

  lemma StepKeepsLines(o: Oracle, p: Pattern, lines: seq<string>, line: string, st: SegState)
    requires KeepsLines(lines, st)
    ensures KeepsLines(lines + [line], SegStep(o, p, st, line))
  {
    KeptLinesAppend(lines, line);
    var t := Trim(line);
    if t != [] {
      var isStart := Finds(o, p, t);
      var flush := isStart && st.current != [];
      var closed := if flush then st.groups + [st.current] else st.groups;
      var cur := (if flush then [] else st.current) + [t];
      FlattenStep(st.groups, st.current, t, flush);
      if |cur| >= MaxLinesPerBlock && !isStart {
        FlattenAppend(closed, cur);
        assert Flatten(closed + [cur]) + [] == Flatten(closed) + cur;
      }
    }
  }

  lemma StepSizesBounded(o: Oracle, p: Pattern, line: string, st: SegState)
    requires SizesBounded(st)
    ensures SizesBounded(SegStep(o, p, st, line))
  {
    var t := Trim(line);
    if t != [] {
      var isStart := Finds(o, p, t);
      var flush := isStart && st.current != [];
      var closed := if flush then st.groups + [st.current] else st.groups;
      var cur := (if flush then [] else st.current) + [t];
      assert forall i :: 0 <= i < |closed| ==> 1 <= |closed[i]| <= MaxLinesPerBlock;
      if |cur| >= MaxLinesPerBlock && !isStart {
        assert SegStep(o, p, st, line) == SegState(closed + [cur], []);
      } else {
        assert SegStep(o, p, st, line) == SegState(closed, cur);
      }
    }
  }

  lemma StepStartsPlaced(o: Oracle, p: Pattern, line: string, st: SegState)
    requires StartsPlaced(o, p, st)
    ensures StartsPlaced(o, p, SegStep(o, p, st, line))
  {
    var t := Trim(line);
    if t != [] {
      var isStart := Finds(o, p, t);
      var flush := isStart && st.current != [];
      var closed := if flush then st.groups + [st.current] else st.groups;
      var cur := (if flush then [] else st.current) + [t];
      forall i | 0 <= i < |closed| ensures StartsOnlyFirst(o, p, closed[i]) {
        if i < |st.groups| {
          assert closed[i] == st.groups[i];
        }
      }
      assert StartsOnlyFirst(o, p, cur) by {
        if !flush {
          forall i | 0 < i < |cur| ensures !Finds(o, p, cur[i]) {
            if i < |cur| - 1 {
              assert cur[i] == st.current[i];
            }
          }
        }
      }
      if |cur| >= MaxLinesPerBlock && !isStart {
        assert SegStep(o, p, st, line) == SegState(closed + [cur], []);
        forall i | 0 <= i < |closed| + 1 ensures StartsOnlyFirst(o, p, (closed + [cur])[i]) {
          if i < |closed| {
            assert (closed + [cur])[i] == closed[i];
          }
        }
      } else {
        assert SegStep(o, p, st, line) == SegState(closed, cur);
      }
    }
  }

  lemma StepBoundaries(o: Oracle, p: Pattern, line: string, st: SegState)
    requires SizesBounded(st) && BoundariesExplained(o, p, st.groups) && OpenGroupExplained(o, p, st)
    ensures BoundariesExplained(o, p, SegStep(o, p, st, line).groups) && OpenGroupExplained(o, p, SegStep(o, p, st, line))
  {
    var t := Trim(line);
    if t != [] {
      var isStart := Finds(o, p, t);
      var flush := isStart && st.current != [];
      var closed := if flush then st.groups + [st.current] else st.groups;
      var cur := (if flush then [] else st.current) + [t];
      assert BoundariesExplained(o, p, closed) by {
        forall i | 0 < i < |closed|
          ensures |closed[i - 1]| == MaxLinesPerBlock || (closed[i] != [] && Finds(o, p, closed[i][0]))
        {
          if i < |st.groups| {
            assert closed[i - 1] == st.groups[i - 1] && closed[i] == st.groups[i];
          }
        }
      }
      assert OpenGroupExplained(o, p, SegState(closed, cur));
      if |cur| >= MaxLinesPerBlock && !isStart {
        assert SegStep(o, p, st, line) == SegState(closed + [cur], []);
        var gs := closed + [cur];
        forall i | 0 < i < |gs| ensures |gs[i - 1]| == MaxLinesPerBlock || (gs[i] != [] && Finds(o, p, gs[i][0])) {
          if i < |closed| {
            assert gs[i - 1] == closed[i - 1] && gs[i] == closed[i];
          } else {
            assert gs[i] == cur;
          }
        }
      } else {
        assert SegStep(o, p, st, line) == SegState(closed, cur);
      }
    }
  }

  /** The groups after the final flush keep every non-blank line, trimmed and in
      order; each holds 1 to 50 lines; a block-start line only ever opens a group;
      and every group but the first opens with a block-start line or follows a group
      that reached the limit. */
  lemma SegGroupsProperties(o: Oracle, p: Pattern, lines: seq<string>)
    ensures Flatten(SegGroups(o, p, lines)) == KeptLines(lines)
    ensures forall i :: 0 <= i < |SegGroups(o, p, lines)| ==> 1 <= |SegGroups(o, p, lines)[i]| <= MaxLinesPerBlock
    ensures forall i :: 0 <= i < |SegGroups(o, p, lines)| ==> StartsOnlyFirst(o, p, SegGroups(o, p, lines)[i])
    ensures BoundariesExplained(o, p, SegGroups(o, p, lines))
  {
    SegScanInvariant(o, p, lines);
    FinalFlushProperties(o, p, lines, SegScan(o, p, lines));
  }

  /** The final flush closes the open group, if any, keeping the invariant's facts. */
  lemma FinalFlushProperties(o: Oracle, p: Pattern, lines: seq<string>, st: SegState)
    requires SegInvariant(o, p, lines, st)
    ensures var gs := if st.current != [] then st.groups + [st.current] else st.groups;
      && Flatten(gs) == KeptLines(lines)
      && (forall i :: 0 <= i < |gs| ==> 1 <= |gs[i]| <= MaxLinesPerBlock)
      && (forall i :: 0 <= i < |gs| ==> StartsOnlyFirst(o, p, gs[i]))
      && BoundariesExplained(o, p, gs)
  {
    if st.current != [] {
      FlattenAppend(st.groups, st.current);
      var gs := st.groups + [st.current];
      forall i | 0 <= i < |gs| ensures 1 <= |gs[i]| <= MaxLinesPerBlock && StartsOnlyFirst(o, p, gs[i]) {
        if i < |st.groups| {
          assert gs[i] == st.groups[i];
        }
      }
      forall i | 0 < i < |gs| ensures |gs[i - 1]| == MaxLinesPerBlock || (gs[i] != [] && Finds(o, p, gs[i][0])) {
        if i < |st.groups| {
          assert gs[i - 1] == st.groups[i - 1] && gs[i] == st.groups[i];
        }
      }
    }
  }

  /** Segmenting loses no text: the segments, joined by spaces, are the kept lines
      joined by spaces, and every segment is non-empty and trimmed. */
  lemma SegmentsCoverText(o: Oracle, p: Pattern, lines: seq<string>)
    ensures Join(JoinEach(SegGroups(o, p, lines))) == Join(KeptLines(lines))
    ensures AllTrimmedNonEmpty(JoinEach(SegGroups(o, p, lines)))
  {
    SegGroupsProperties(o, p, lines);
    var gs := SegGroups(o, p, lines);
    JoinOfJoins(gs);
    forall i | 0 <= i < |gs| ensures Join(gs[i]) != [] && IsTrimmed(Join(gs[i])) {
      GroupIsKept(gs, i, KeptLines(lines));
      JoinTrimIdentity(gs[i]);
      JoinOfTrimmedIsTrimmed(gs[i]);
    }
  }

  lemma {:induction false} GroupIsKept(gs: seq<seq<string>>, i: nat, kept: seq<string>)
    requires i < |gs| && Flatten(gs) == kept && AllTrimmedNonEmpty(kept)
    requires gs[i] != []
    ensures AllTrimmedNonEmpty(gs[i])
    decreases |gs|
  {
    var n := |gs| - 1;
    assert Flatten(gs) == Flatten(gs[..n]) + gs[n];
    if i == n {
      forall j | 0 <= j < |gs[n]| ensures gs[n][j] != [] && IsTrimmed(gs[n][j]) {
        assert gs[n][j] == kept[|Flatten(gs[..n])| + j];
      }
    } else {
      var prefix := Flatten(gs[..n]);
      assert prefix == kept[..|prefix|];
      assert gs[..n][i] == gs[i];
      GroupIsKept(gs[..n], i, prefix);
    }
  }

  /** segmentTextImproved: the early returns, then the line loop. */
  method SegmentTextImproved(o: Oracle, fullText: string, config: BlockConfig) returns (segments: seq<string>)
    ensures segments == SegmentText(o, fullText, config)
  {
    if config.blockMode == GLOBAL {
      return [fullText];
    }
    if config.blockStartPattern.None? || IsBlank(config.blockStartPattern.value) {
      return [fullText];
    }
    var compiled := CompilePattern(o, config.blockStartPattern);
    if compiled.None? {
      return [fullText];
    }
    segments := SegmentLines(o, compiled.value, Split(fullText, '\n'));
  }

  /** The line loop of segmentTextImproved, with its StringBuilder as a string and
      its line counter. */
  method SegmentLines(o: Oracle, startPattern: Pattern, lines: seq<string>) returns (segments: seq<string>)
    ensures segments == JoinEach(SegGroups(o, startPattern, lines))
  {
    segments := [];
    var buffer := "";
    var linesInCurrentBlock := 0;
    ghost var groups: seq<seq<string>> := [];
    ghost var current: seq<string> := [];
    for i := 0 to |lines|
      invariant SegState(groups, current) == SegScan(o, startPattern, lines[..i])
      invariant Mirrors(segments, buffer, linesInCurrentBlock, groups, current)
    {
      ghost var st := SegState(groups, current);
      SegScanStep(o, startPattern, lines, i);
      var trimmed := Trim(lines[i]);
      if trimmed == [] {
        continue;
      }
      var isBlockStart := Finds(o, startPattern, trimmed);
      if isBlockStart {
        if |buffer| > 0 {
          FlushMirrors(segments, buffer, linesInCurrentBlock, groups, current);
          segments := segments + [Trim(buffer)];
          groups := groups + [current];
          buffer := "";
          current := [];
          linesInCurrentBlock := 0;
        }
      }
      AppendMirrors(segments, buffer, linesInCurrentBlock, groups, current, trimmed);
      if |buffer| > 0 {
        buffer := buffer + " ";
      }
      buffer := buffer + trimmed;
      current := current + [trimmed];
      linesInCurrentBlock := linesInCurrentBlock + 1;
      if linesInCurrentBlock >= MaxLinesPerBlock && !isBlockStart {
        FlushMirrors(segments, buffer, linesInCurrentBlock, groups, current);
        segments := segments + [Trim(buffer)];
        groups := groups + [current];
        buffer := "";
        current := [];
        linesInCurrentBlock := 0;
      }
    }
    assert lines[..|lines|] == lines;
    if |buffer| > 0 {
      FlushMirrors(segments, buffer, linesInCurrentBlock, groups, current);
      segments := segments + [Trim(buffer)];
      groups := groups + [current];
    } else {
      EmptyMirrors(segments, buffer, linesInCurrentBlock, groups, current);
    }
  }

  /** The loop's strings mirror the segmenter state: the segments are the joined
      closed groups, the buffer the joined open group, the counter its length. */
  predicate Mirrors(segments: seq<string>, buffer: string, count: int, groups: seq<seq<string>>, current: seq<string>) {
    && segments == JoinEach(groups)
    && buffer == Join(current)
    && count == |current|
    && AllTrimmedNonEmpty(current)
  }

  lemma FlushMirrors(segments: seq<string>, buffer: string, count: int, groups: seq<seq<string>>, current: seq<string>)
    requires Mirrors(segments, buffer, count, groups, current) && |buffer| > 0
    ensures current != []
    ensures Mirrors(segments + [Trim(buffer)], "", 0, groups + [current], [])
  {
    JoinTrimIdentity(current);
    JoinEachAppend(groups, current);
  }

  lemma EmptyMirrors(segments: seq<string>, buffer: string, count: int, groups: seq<seq<string>>, current: seq<string>)
    requires Mirrors(segments, buffer, count, groups, current) && |buffer| == 0
    ensures current == []
  {
    JoinTrimIdentity(current);
  }

  lemma AppendMirrors(segments: seq<string>, buffer: string, count: int, groups: seq<seq<string>>, current: seq<string>, t: string)
    requires Mirrors(segments, buffer, count, groups, current) && t != [] && IsTrimmed(t)
    ensures (|buffer| > 0) == (current != [])
    ensures Mirrors(segments, (if |buffer| > 0 then buffer + " " else buffer) + t, count + 1, groups, current + [t])
  {
    BufferAppend(current, t, buffer);
    if current != [] {
      JoinTrimIdentity(current);
    }
  }

  lemma SegScanStep(o: Oracle, p: Pattern, lines: seq<string>, i: nat)
    requires i < |lines|
    ensures SegScan(o, p, lines[..i + 1]) == SegStep(o, p, SegScan(o, p, lines[..i]), lines[i])
  {
    assert lines[..i + 1][..i] == lines[..i];
  }

  lemma BufferAppend(current: seq<string>, t: string, buffer: string)
    requires AllTrimmedNonEmpty(current) && t != [] && IsTrimmed(t)
    requires buffer == Join(current)
    ensures AllTrimmedNonEmpty(current + [t])
    ensures (if |buffer| > 0 then buffer + " " else buffer) + t == Join(current + [t])
  {
    assert forall i :: 0 <= i < |current| ==> (current + [t])[i] == current[i];
    if current != [] {
      JoinTrimIdentity(current);
      assert |buffer| > 0;
      JoinAppend(current, t);
    } else {
      assert current + [t] == [t];
    }
  }

  lemma JoinEachAppend(groups: seq<seq<string>>, g: seq<string>)
    ensures JoinEach(groups + [g]) == JoinEach(groups) + [Join(g)]
  {
    assert (groups + [g])[..|groups|] == groups;
  }
}
