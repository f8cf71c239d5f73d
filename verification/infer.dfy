/**
 * Static inference of the string a JavaScript expression evaluates to:
 * string literals, identifiers bound to a single static initialiser, and
 * template literals are folded into one string, while a line/column cursor
 * and a list of source maps record where each piece came from.
 */
module Infer {
  import opened Common
  import opened Location

  // ---------------------------------------------------------------------
  // Text measurements
  // ---------------------------------------------------------------------

  /** `s.split('\n')`: the lines of `s`; there is always at least one. */
  function Split(s: string): (lines: seq<string>)
    ensures |lines| >= 1
  {
    if s == [] then [[]]
    else
      var rest := Split(s[1..]);
      if s[0] == '\n' then [[]] + rest
      else [[s[0]] + rest[0]] + rest[1..]
  }

  /** The lines joined back together with `'\n'` between consecutive lines. */
  function Join(lines: seq<string>): string
    requires |lines| >= 1
  {
    if |lines| == 1 then lines[0] else lines[0] + "\n" + Join(lines[1..])
  }

  /** Number of `'\n'` characters in `s`. */
  function CountNewlines(s: string): nat
  {
    if s == [] then 0 else (if s[0] == '\n' then 1 else 0) + CountNewlines(s[1..])
  }

  /**
   * The number of UTF-16 code units that encode `c`, which is what a
   * JavaScript string's `length` counts: two for a code point above U+FFFF,
   * one otherwise.
   */
  function CodeUnits(c: char): nat
  {
    if c as int > 0xFFFF then 2 else 1
  }

  /** `s.length` in JavaScript: the number of UTF-16 code units of `s`. */
  function Utf16Length(s: string): nat
  {
    if s == [] then 0 else Utf16Length(s[..|s| - 1]) + CodeUnits(s[|s| - 1])
  }

  /** The JavaScript length of a text after the last `'\n'` of `s` (of all of `s` when it has none). */
  function LastLineLength(s: string): nat
  {
    if s == [] then 0
    else if s[|s| - 1] == '\n' then 0
    else LastLineLength(s[..|s| - 1]) + CodeUnits(s[|s| - 1])
  }

  /** The JavaScript length of a concatenation is the sum of the lengths. */
  lemma {:induction false} Utf16LengthConcat(a: string, b: string)
    ensures Utf16Length(a + b) == Utf16Length(a) + Utf16Length(b)
    decreases |b|
  {
    if b == [] {
      assert a + b == a;
    } else {
      assert (a + b)[..|a + b| - 1] == a + b[..|b| - 1];
      Utf16LengthConcat(a, b[..|b| - 1]);
    }
  }

  /** Characters of the Basic Multilingual Plane are one code unit each. */
  lemma {:induction false} Utf16LengthOfBmp(s: string)
    requires forall i :: 0 <= i < |s| ==> s[i] as int <= 0xFFFF
    ensures Utf16Length(s) == |s|
  {
    if s != [] {
      Utf16LengthOfBmp(s[..|s| - 1]);
    }
  }

  /** Splitting on newlines loses nothing: joining the lines gives the text back. */
  lemma {:induction false} SplitJoin(s: string)
    ensures Join(Split(s)) == s
  {
    if s != [] {
      var rest := Split(s[1..]);
      SplitJoin(s[1..]);
      if s[0] == '\n' {
        assert Split(s) == [[]] + rest;
        assert ([[]] + rest)[1..] == rest;
      } else {
        var lines := [[s[0]] + rest[0]] + rest[1..];
        assert Split(s) == lines;
        if |rest| == 1 {
          assert Join(rest) == rest[0];
        } else {
          assert lines[1..] == rest[1..];
          assert Join(rest) == rest[0] + "\n" + Join(rest[1..]);
        }
      }
    }
  }

  lemma {:induction false} CountNewlinesConcat(a: string, b: string)
    ensures CountNewlines(a + b) == CountNewlines(a) + CountNewlines(b)
  {
    if a != [] {
      assert (a + b)[0] == a[0];
      assert (a + b)[1..] == a[1..] + b;
      CountNewlinesConcat(a[1..], b);
    } else {
      assert a + b == b;
    }
  }

  lemma {:induction false} LastLineLengthConcat(a: string, b: string)
    ensures LastLineLength(a + b)
      == if CountNewlines(b) > 0 then LastLineLength(b) else LastLineLength(a) + Utf16Length(b)
    decreases |b|
  {
    if b == [] {
      assert a + b == a;
    } else {
      var b' := b[..|b| - 1];
      var x := b[|b| - 1];
      assert b == b' + [x];
      assert (a + b)[..|a + b| - 1] == a + b';
      CountNewlinesConcat(b', [x]);
      LastLineLengthConcat(a, b');
      if x != '\n' {
        assert CountNewlines([x]) == 0;
      }
    }
  }

  lemma NoNewlineLastLine(s: string)
    ensures CountNewlines(s) == 0 ==> LastLineLength(s) == Utf16Length(s)
  {
    LastLineLengthConcat([], s);
    assert [] + s == s;
  }

  /** The lines of `s`: one more than its newlines, the last as long as its last line. */
  lemma {:induction false} SplitShape(s: string)
    ensures |Split(s)| == CountNewlines(s) + 1
    ensures Utf16Length(Split(s)[|Split(s)| - 1]) == LastLineLength(s)
  {
    if s != [] {
      var t := s[1..];
      var rest := Split(t);
      SplitShape(t);
      assert s == [s[0]] + t;
      LastLineLengthConcat([s[0]], t);
      NoNewlineLastLine(t);
      if s[0] != '\n' {
        Utf16LengthConcat([s[0]], rest[0]);
      }
    }
  }

  /**
   * The position reached after appending `str` at `loc`: one line further per
   * newline; on the same line the column advances by the length, otherwise
   * it is the length of the text after the last newline. Lengths are
   * JavaScript lengths, in UTF-16 code units.
   */
  function LocOfAppendedString(loc: Position, str: string): (r: Position)
    ensures r.line == loc.line + CountNewlines(str)
    ensures r.column == if CountNewlines(str) == 0 then loc.column + Utf16Length(str) else LastLineLength(str)
  {
    SplitShape(str);
    NoNewlineLastLine(str);
    var lines := Split(str);
    var numLines := |lines|;
    var lastLineCols := Utf16Length(lines[numLines - 1]);
    Position(loc.line + numLines - 1, lastLineCols + (if numLines == 1 then loc.column else 0))
  }

  /**
   * A character outside the Basic Multilingual Plane advances the column by
   * two, as its JavaScript length does.
   */
  lemma AstralCharTakesTwoColumns()
    ensures LocOfAppendedString(Position(1, 1), "\U{1F600}") == Position(1, 3)
  {
    assert Utf16Length("\U{1F600}") == 2 by {
      assert "\U{1F600}"[..0] == [];
    }
  }

  /** Appending two strings one after the other ends where appending their concatenation ends. */
  lemma LocOfAppendedConcat(p: Position, a: string, b: string)
    ensures LocOfAppendedString(LocOfAppendedString(p, a), b) == LocOfAppendedString(p, a + b)
  {
    CountNewlinesConcat(a, b);
    LastLineLengthConcat(a, b);
    NoNewlineLastLine(a);
    Utf16LengthConcat(a, b);
  }

  // ---------------------------------------------------------------------
  // Syntax nodes and inference state
  // ---------------------------------------------------------------------

  /** The value of a `Literal` node: a string, or anything else (number, boolean, null, regex). */
  datatype LiteralValue = StringValue(s: string) | OtherValue

  /** One static chunk of a template literal with its cooked text. */
  datatype Quasi = Quasi(loc: Span, cooked: string)

  /**
   * The expression kinds inference distinguishes. An `Identifier` carries
   * what scope resolution answers for it: the one initialiser of a static
   * binding that has exactly one initialised definition, or `None`.
   */
  datatype Node =
    | Literal(loc: Span, value: LiteralValue)
    | Identifier(loc: Span, name: string, staticInit: Option<Node>)
    | TemplateLiteral(loc: Span, quasis: seq<Quasi>, expressions: seq<Node>)
    | OtherNode(loc: Span)

  /** The in-progress inferred literal: text so far, its source maps, and the end cursor. */
  datatype InferState = InferState(value: string, sourceMaps: seq<SourceMap>, cursor: Position)

  /** Inference starts with empty text at line 1, column 1, with no source maps. */
  const InitialState := InferState("", [], Position(1, 1))

  /**
   * Adds one node's text to the state: the text is appended, the previous
   * maps are kept, then the node's own maps, then one new map from the node's
   * span to the document span between the old and the new cursor.
   */
  function ConcatNodeValue(state: InferState, nodeLoc: Span, nodeValue: string,
                           nodeSourceMaps: seq<SourceMap>): (r: InferState)
    ensures r.value == state.value + nodeValue
    ensures r.cursor == LocOfAppendedString(state.cursor, nodeValue)
    ensures r.sourceMaps == state.sourceMaps + nodeSourceMaps
                            + [SourceMap(nodeLoc, Span(state.cursor, r.cursor))]
  {
    var newCursor := TransformLocation(
      LocOfAppendedString(nodeLoc.start, nodeValue), nodeLoc.start, state.cursor);
    InferState(
      state.value + nodeValue,
      state.sourceMaps + nodeSourceMaps + [SourceMap(nodeLoc, Span(state.cursor, newCursor))],
      newCursor)
  }

  /** A string literal contributes its text; any other literal makes inference fail. */
  function InferLiteralNode(node: Node, state: InferState): (r: Option<InferState>)
    requires node.Literal?
    ensures r.Some? <==> node.value.StringValue?
    ensures r.Some? ==> (&& r.value.value == state.value + node.value.s
                         && |r.value.sourceMaps| == |state.sourceMaps| + 1
                         && r.value.sourceMaps[|state.sourceMaps|].source == node.loc)
  {
    match node.value
    case StringValue(s) => Some(ConcatNodeValue(state, node.loc, s, []))
    case OtherValue => None
  }

  // ---------------------------------------------------------------------
  // Specification of inference
  // ---------------------------------------------------------------------

  /** What inferAnyNode computes from a state: `None` where the source returns null. */
  function InferAny(node: Node, state: InferState): Option<InferState>
    decreases node, 1
  {
    match node
    case Literal(_, _) => InferLiteralNode(node, state)
    case Identifier(_, _, init) =>
      (match init
       case None => None
       case Some(n) => InferAny(n, state))
    case TemplateLiteral(_, _, _) => TemplateFrom(node, 0, state)
    case OtherNode(_) => None
  }

  /** The remaining iterations of the template-literal loop, starting at quasi `i`. */
  function TemplateFrom(node: Node, i: nat, state: InferState): Option<InferState>
    requires node.TemplateLiteral?
    decreases node, 0, |node.quasis| - i
  {
    if i >= |node.quasis| then Some(state)
    else
      var q := node.quasis[i];
      var s1 := ConcatNodeValue(state, q.loc, q.cooked, []);
      if i < |node.expressions| then
        match InferAny(node.expressions[i], s1)
        case None => None
        case Some(s2) => TemplateFrom(node, i + 1, s2)
      else TemplateFrom(node, i + 1, s1)
  }

  /**
   * Reference meaning of an expression's static value, independent of any
   * cursor or source map: a template literal is its quasis interleaved with
   * its expressions' values, and fails as soon as one expression fails.
   */
  function StaticValue(node: Node): Option<string>
    decreases node, 1
  {
    match node
    case Literal(_, v) => if v.StringValue? then Some(v.s) else None
    case Identifier(_, _, init) =>
      (match init
       case None => None
       case Some(n) => StaticValue(n))
    case TemplateLiteral(_, _, _) => TemplateValue(node, 0)
    case OtherNode(_) => None
  }

  function TemplateValue(node: Node, i: nat): Option<string>
    requires node.TemplateLiteral?
    decreases node, 0, |node.quasis| - i
  {
    if i >= |node.quasis| then Some("")
    else
      var q := node.quasis[i];
      var rest := TemplateValue(node, i + 1);
      if i < |node.expressions| then
        match StaticValue(node.expressions[i])
        case None => None
        case Some(e) => if rest.None? then None else Some(q.cooked + e + rest.value)
      else if rest.None? then None else Some(q.cooked + rest.value)
  }

  /**
   * `r` extends `st` by the text `v`: the value grows by `v`, the cursor moves
   * to where `v` ends, and the earlier source maps are kept as a prefix.
   */
  ghost predicate Extends(st: InferState, r: InferState, v: string)
  {
    && r.value == st.value + v
    && r.cursor == LocOfAppendedString(st.cursor, v)
    && |st.sourceMaps| <= |r.sourceMaps|
    && r.sourceMaps[..|st.sourceMaps|] == st.sourceMaps
  }

  lemma ExtendsTrans(s0: InferState, s1: InferState, s2: InferState, a: string, b: string)
    requires Extends(s0, s1, a) && Extends(s1, s2, b)
    ensures Extends(s0, s2, a + b)
  {
    LocOfAppendedConcat(s0.cursor, a, b);
    assert s2.value == s0.value + (a + b);
    assert s2.sourceMaps[..|s0.sourceMaps|] == s1.sourceMaps[..|s1.sourceMaps|][..|s0.sourceMaps|];
  }

  lemma ConcatExtends(state: InferState, q: Quasi)
    ensures Extends(state, ConcatNodeValue(state, q.loc, q.cooked, []), q.cooked)
  {
    var r := ConcatNodeValue(state, q.loc, q.cooked, []);
    assert r.sourceMaps == state.sourceMaps + [SourceMap(q.loc, Span(state.cursor, r.cursor))];
  }

  /**
   * Inference succeeds exactly when the node has a static value, and then
   * appends exactly that value, moves the cursor to its end and only adds
   * source maps after the existing ones.
   */
  lemma {:induction false} InferAnyMatchesStaticValue(node: Node, st: InferState)
    ensures InferAny(node, st).Some? <==> StaticValue(node).Some?
    ensures InferAny(node, st).Some? ==> Extends(st, InferAny(node, st).value, StaticValue(node).value)
    decreases node, 1
  {
    match node
    case Literal(loc, v) =>
      if v.StringValue? {
        ConcatExtends(st, Quasi(loc, v.s));
      }
    case Identifier(_, _, init) =>
      if init.Some? {
        InferAnyMatchesStaticValue(init.value, st);
      }
    case TemplateLiteral(_, _, _) =>
      TemplateFromMatchesValue(node, 0, st);
    case OtherNode(_) =>
  }

  lemma {:induction false} TemplateFromMatchesValue(node: Node, i: nat, st: InferState)
    requires node.TemplateLiteral?
    ensures TemplateFrom(node, i, st).Some? <==> TemplateValue(node, i).Some?
    ensures TemplateFrom(node, i, st).Some? ==> Extends(st, TemplateFrom(node, i, st).value, TemplateValue(node, i).value)
    decreases node, 0, |node.quasis| - i
  {
    if i >= |node.quasis| {
      assert st.sourceMaps[..|st.sourceMaps|] == st.sourceMaps;
      assert st.value + "" == st.value;
      LocOfAppendedConcat(st.cursor, "", "");
    } else {
      var q := node.quasis[i];
      var s1 := ConcatNodeValue(st, q.loc, q.cooked, []);
      ConcatExtends(st, q);
      if i < |node.expressions| {
        var e := node.expressions[i];
        InferAnyMatchesStaticValue(e, s1);
        if InferAny(e, s1).Some? {
          var s2 := InferAny(e, s1).value;
          TemplateFromMatchesValue(node, i + 1, s2);
          if TemplateFrom(node, i + 1, s2).Some? {
            var s3 := TemplateFrom(node, i + 1, s2).value;
            ExtendsTrans(st, s1, s2, q.cooked, StaticValue(e).value);
            ExtendsTrans(st, s2, s3, q.cooked + StaticValue(e).value, TemplateValue(node, i + 1).value);
          }
        }
      } else {
        TemplateFromMatchesValue(node, i + 1, s1);
        if TemplateFrom(node, i + 1, s1).Some? {
          ExtendsTrans(st, s1, TemplateFrom(node, i + 1, s1).value, q.cooked, TemplateValue(node, i + 1).value);
        }
      }
    }
  }

  // ---------------------------------------------------------------------
  // The inference procedures
  // ---------------------------------------------------------------------

  /** Dispatches on the node kind; kinds other than literals, identifiers and templates fail. */
  method InferAnyNode(node: Node, state: InferState) returns (r: Option<InferState>)
    ensures r == InferAny(node, state)
    decreases node, 1
  {
    if node.Literal? {
      r := InferLiteralNode(node, state);
    } else if node.Identifier? {
      r := InferIdentifierNode(node, state);
    } else if node.TemplateLiteral? {
      r := InferTemplateLiteralNode(node, state);
    } else {
      r := None;
    }
  }

  /** Follows the identifier to its static initialiser, failing when scope resolution has none. */
  method InferIdentifierNode(node: Node, state: InferState) returns (r: Option<InferState>)
    requires node.Identifier?
    ensures r == InferAny(node, state)
    decreases node, 0
  {
    if node.staticInit.None? {
      return None;
    }
    r := InferAnyNode(node.staticInit.value, state);
  }

  /**
   * Appends each quasi, and after it the expression at the same index when
   * there is one; gives up with `None` as soon as an expression fails.
   */
  method InferTemplateLiteralNode(node: Node, state: InferState) returns (r: Option<InferState>)
    requires node.TemplateLiteral?
    ensures r == TemplateFrom(node, 0, state)
    decreases node, 0
  {
    var st := state;
    var i := 0;
    while i < |node.quasis|
      invariant 0 <= i <= |node.quasis|
      invariant TemplateFrom(node, 0, state) == TemplateFrom(node, i, st)
    {
      var q := node.quasis[i];
      st := ConcatNodeValue(st, q.loc, q.cooked, []);
      if i < |node.expressions| {
        var next := InferAnyNode(node.expressions[i], st);
        if next.None? {
          return None;
        }
        st := next.value;
      }
      i := i + 1;
    }
    r := Some(st);
  }

  /**
   * Infers the static string of `node` from the initial state. On success the
   * value is the node's static value and the cursor marks where that text
   * ends when it starts at line 1, column 1.
   */
  method InferNode(node: Node) returns (r: Option<InferState>)
    ensures r.Some? <==> StaticValue(node).Some?
    ensures r.Some? ==> (&& r.value.value == StaticValue(node).value
                         && r.value.cursor == LocOfAppendedString(Position(1, 1), r.value.value))
  {
    r := InferAnyNode(node, InitialState);
    InferAnyMatchesStaticValue(node, InitialState);
  }

  // ---------------------------------------------------------------------
  // Resolution chains through the scope
  // ---------------------------------------------------------------------

  /**
   * An identifier's single static initialiser, as far as following
   * identifiers is concerned: a string, another identifier, or anything else.
   */
  datatype Init = StringInit(s: string) | NameInit(name: string) | OtherInit

  /** What scope resolution answers: the names bound statically to exactly one initialiser. */
  type Bindings = map<string, Init>

  /**
   * The chain as inferIdentifierNode follows it: an identifier is replaced by
   * its initialiser with no record of the names already followed. `fuel`
   * counts the calls; `None` means the recursion was still going when the
   * fuel ran out.
   */
  function FollowAsWritten(b: Bindings, e: Init, fuel: nat): Option<Option<string>>
    decreases fuel
  {
    if fuel == 0 then None
    else match e
      case StringInit(s) => Some(Some(s))
      case OtherInit => Some(None)
      case NameInit(n) => if n in b then FollowAsWritten(b, b[n], fuel - 1) else Some(None)
  }

  /**
   * Names that are bound to one another in a ring (`const q = q;`, or
   * `const a = b; const b = a;`): following any of them as written never
   * returns, however many calls are allowed.
   */
  lemma {:induction false} CycleNeverReturns(b: Bindings, ring: set<string>, n: string, fuel: nat)
    requires n in ring
    requires forall m :: m in ring ==> m in b && b[m].NameInit? && b[m].name in ring
    ensures FollowAsWritten(b, NameInit(n), fuel).None?
    decreases fuel
  {
    if fuel > 0 {
      CycleNeverReturns(b, ring, b[n].name, fuel - 1);
    }
  }

  /** `const q = q;`: the self-reference never returns. */
  lemma SelfReferenceNeverReturns(fuel: nat)
    ensures FollowAsWritten(map["q" := NameInit("q")], NameInit("q"), fuel).None?
  {
    CycleNeverReturns(map["q" := NameInit("q")], {"q"}, "q", fuel);
  }

  /**
   * The chain with the names already followed: an identifier met a second
   * time makes inference fail instead of recursing again. A text found is
   * the text of a string initialiser on the chain.
   */
  function Follow(b: Bindings, e: Init, visited: set<string>): (r: Option<string>)
    ensures r.Some? ==> e == StringInit(r.value) || exists n :: n in b && b[n] == StringInit(r.value)
    decreases b.Keys - visited
  {
    match e
    case StringInit(s) => Some(s)
    case OtherInit => None
    case NameInit(n) =>
      if n !in b || n in visited then None
      else
        assert b.Keys - (visited + {n}) < b.Keys - visited;
        Follow(b, b[n], visited + {n})
  }

  /**
   * A text the corrected chain finds lies on the chain itself: the chain as
   * written, following the same initialisers, reaches it too.
   */
  lemma {:induction false} FollowFoundOnChain(b: Bindings, e: Init, visited: set<string>)
    requires Follow(b, e, visited).Some?
    ensures exists k: nat :: FollowAsWritten(b, e, k) == Some(Follow(b, e, visited))
    decreases b.Keys - visited
  {
    match e
    case StringInit(s) =>
      assert FollowAsWritten(b, e, 1) == Some(Some(s));
    case OtherInit =>
    case NameInit(n) =>
      assert b.Keys - (visited + {n}) < b.Keys - visited;
      FollowFoundOnChain(b, b[n], visited + {n});
      var k: nat :| FollowAsWritten(b, b[n], k) == Some(Follow(b, b[n], visited + {n}));
      assert FollowAsWritten(b, e, k + 1) == FollowAsWritten(b, b[n], k);
  }

  /** With the names followed recorded, a ring of names makes inference fail. */
  lemma {:induction false} CycleFails(b: Bindings, ring: set<string>, n: string, visited: set<string>)
    requires n in ring
    requires forall m :: m in ring ==> m in b && b[m].NameInit? && b[m].name in ring
    ensures Follow(b, NameInit(n), visited) == None
    decreases b.Keys - visited
  {
    if n !in visited {
      assert b.Keys - (visited + {n}) < b.Keys - visited;
      CycleFails(b, ring, b[n].name, visited + {n});
    }
  }

  /** Every identifier bound to an identifier is bound to one of smaller rank. */
  ghost predicate Acyclic(b: Bindings, rank: map<string, nat>)
  {
    forall n :: n in b ==>
      && n in rank
      && (b[n].NameInit? && b[n].name in b ==> b[n].name in rank && rank[b[n].name] < rank[n])
  }

  /**
   * Wherever the chains are acyclic, the chain as written returns, given
   * enough calls, exactly what the corrected chain returns: the record of
   * followed names only changes the outcome on a ring.
   */
  lemma {:induction false} FollowAgreesWhenAcyclic(b: Bindings, rank: map<string, nat>, e: Init,
                                                   visited: set<string>, fuel: nat)
    requires Acyclic(b, rank)
    requires e.NameInit? && e.name in b ==> forall v :: v in visited ==> v in rank && rank[v] > rank[e.name]
    requires fuel > (if e.NameInit? && e.name in b then rank[e.name] + 1 else 0)
    ensures FollowAsWritten(b, e, fuel) == Some(Follow(b, e, visited))
    decreases fuel
  {
    if e.NameInit? && e.name in b {
      var n := e.name;
      assert n !in visited;
      FollowAgreesWhenAcyclic(b, rank, b[n], visited + {n}, fuel - 1);
    }
  }
}
