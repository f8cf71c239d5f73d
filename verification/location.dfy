/**
 * Line/column arithmetic shared by the literal-inference source maps and the
 * error-location mapping: moving a point between two coordinate spaces and
 * testing whether a point lies inside a span.
 */
module Location {
  import opened Common

  /** A line/column point; both are 1-based in the callers, but any integers are allowed. */
  datatype Position = Position(line: int, column: int)

  /** A region from `start` (inclusive) to `end` (exclusive). */
  datatype Span = Span(start: Position, end: Position)

  /**
   * One provenance record: `source` is a span of the JavaScript source code,
   * `dest` the span of the GraphQL document text it produced.
   */
  datatype SourceMap = SourceMap(source: Span, dest: Span)

  /**
   * Moves `loc` from the space of `ref` into the space of `target`. The line
   * always shifts by the line offset; the column shifts only on the
   * reference line, because only that line carries the prefix offset.
   */
  function TransformLocation(loc: Position, ref: Position, target: Position): (r: Position)
    ensures r.line - target.line == loc.line - ref.line
    ensures loc.line == ref.line ==> r.column - target.column == loc.column - ref.column
    ensures loc.line != ref.line ==> r.column == loc.column
  {
    Position(
      target.line + (loc.line - ref.line),
      if loc.line == ref.line then target.column + (loc.column - ref.column) else loc.column)
  }

  /** Transforming between two equal reference points changes nothing. */
  lemma TransformIdentity(loc: Position, p: Position)
    ensures TransformLocation(loc, p, p) == loc
  {
  }

  /** The reference point itself lands exactly on the target point. */
  lemma TransformRefToTarget(ref: Position, target: Position)
    ensures TransformLocation(ref, ref, target) == target
  {
  }

  /** Two transforms chained through an intermediate point are one transform. */
  lemma TransformCompose(loc: Position, r1: Position, t1: Position, t2: Position)
    ensures TransformLocation(TransformLocation(loc, r1, t1), t1, t2) == TransformLocation(loc, r1, t2)
  {
  }

  /** Transforming back with the roles of `ref` and `target` swapped undoes a transform. */
  lemma TransformInverse(loc: Position, ref: Position, target: Position)
    ensures TransformLocation(TransformLocation(loc, ref, target), target, ref) == loc
  {
    TransformCompose(loc, ref, target, ref);
    TransformIdentity(loc, ref);
  }

  /** Lexicographic order on positions: line first, then column. */
  predicate PositionLe(a: Position, b: Position)
  {
    a.line < b.line || (a.line == b.line && a.column <= b.column)
  }

  predicate PositionLt(a: Position, b: Position)
  {
    a.line < b.line || (a.line == b.line && a.column < b.column)
  }

  /** Whether `needle` lies in `haystack`, start inclusive and end exclusive. */
  predicate IsLocationInSpan(haystack: Span, needle: Position)
  {
    && needle.line >= haystack.start.line
    && needle.line <= haystack.end.line
    && (needle.line != haystack.start.line || needle.column >= haystack.start.column)
    && (needle.line != haystack.end.line || needle.column < haystack.end.column)
  }

  /** The containment test is the half-open interval of the lexicographic order. */
  lemma InSpanIffBetween(haystack: Span, needle: Position)
    ensures IsLocationInSpan(haystack, needle)
        <==> PositionLe(haystack.start, needle) && PositionLt(needle, haystack.end)
  {
  }

  /** A span whose start equals its end contains no point. */
  lemma EmptySpanContainsNothing(p: Position, needle: Position)
    ensures !IsLocationInSpan(Span(p, p), needle)
  {
  }

  /**
   * The `for` loop of getSourceLocationFromDocLocation as a left fold: each
   * source map whose `dest` contains `docLocation` replaces the best guess.
   */
  function FoldSourceMaps(best: Position, docLocation: Position, sourceMaps: seq<SourceMap>): Position
    decreases |sourceMaps|
  {
    if sourceMaps == [] then best
    else
      var m := sourceMaps[0];
      var best' := if IsLocationInSpan(m.dest, docLocation)
                   then TransformLocation(docLocation, m.dest.start, m.source.start)
                   else best;
      FoldSourceMaps(best', docLocation, sourceMaps[1..])
  }

  /** Index of the last source map whose `dest` contains `p`, or -1 when there is none. */
  function LastMatching(sourceMaps: seq<SourceMap>, p: Position): (k: int)
    ensures -1 <= k < |sourceMaps|
    ensures k >= 0 ==> IsLocationInSpan(sourceMaps[k].dest, p)
    ensures forall j :: k < j < |sourceMaps| ==> !IsLocationInSpan(sourceMaps[j].dest, p)
    decreases |sourceMaps|
  {
    if sourceMaps == [] then -1
    else if IsLocationInSpan(sourceMaps[|sourceMaps| - 1].dest, p) then |sourceMaps| - 1
    else LastMatching(sourceMaps[..|sourceMaps| - 1], p)
  }

  /**
   * Maps a point of the GraphQL document back to the source file: the last
   * source map containing the point decides; with none, the document start
   * point maps to `sourceNodeStart` unchanged.
   */
  function GetSourceLocationFromDocLocation(
    sourceNodeStart: Position, docLocation: Position, sourceMaps: seq<SourceMap>): (r: Position)
    ensures var k := LastMatching(sourceMaps, docLocation);
      r == if k < 0 then sourceNodeStart
           else TransformLocation(docLocation, sourceMaps[k].dest.start, sourceMaps[k].source.start)
  {
    var bestLoc := TransformLocation(docLocation, docLocation, sourceNodeStart);
    FoldIsLastMatch(bestLoc, docLocation, sourceMaps);
    FoldSourceMaps(bestLoc, docLocation, sourceMaps)
  }

  /** The fold's result is decided by the last matching map, or is the initial guess. */
  lemma {:induction false} FoldIsLastMatch(best: Position, p: Position, sourceMaps: seq<SourceMap>)
    ensures var k := LastMatching(sourceMaps, p);
      FoldSourceMaps(best, p, sourceMaps)
        == if k < 0 then best
           else TransformLocation(p, sourceMaps[k].dest.start, sourceMaps[k].source.start)
    decreases |sourceMaps|
  {
    if sourceMaps != [] {
      var n := |sourceMaps|;
      var init := sourceMaps[..n - 1];
      FoldSnoc(best, p, init, sourceMaps[n - 1]);
      assert init + [sourceMaps[n - 1]] == sourceMaps;
      FoldIsLastMatch(best, p, init);
    }
  }

  /** Folding over one more map at the end applies that map to the previous result. */
  lemma {:induction false} FoldSnoc(best: Position, p: Position, maps: seq<SourceMap>, m: SourceMap)
    ensures FoldSourceMaps(best, p, maps + [m])
      == (if IsLocationInSpan(m.dest, p)
          then TransformLocation(p, m.dest.start, m.source.start)
          else FoldSourceMaps(best, p, maps))
    decreases |maps|
  {
    if maps == [] {
      assert [m][1..] == [];
    } else {
      var m0 := maps[0];
      var best' := if IsLocationInSpan(m0.dest, p)
                   then TransformLocation(p, m0.dest.start, m0.source.start)
                   else best;
      assert (maps + [m])[1..] == maps[1..] + [m];
      FoldSnoc(best', p, maps[1..], m);
    }
  }
}
