/**
 * The file processors for standalone `.gql` and `.graphql` files: the
 * preprocessor wraps the whole file in a template literal tagged with the
 * internal tag, and the postprocessor keeps only this plugin's messages.
 */
module Processors {
  import opened Common
  import Options

  // ---------------------------------------------------------------------
  // Preprocessing
  // ---------------------------------------------------------------------

  /**
   * `text.replace(/[`\\]|\$\{/g, "\\$&")`: a backslash goes in front of every
   * backtick, every backslash and every `${`, scanning left to right.
   */
  function Escape(text: string): string
  {
    if text == [] then []
    else if text[0] == '`' || text[0] == '\\' then ['\\', text[0]] + Escape(text[1..])
    else if |text| >= 2 && text[0] == '$' && text[1] == '{' then "\\${" + Escape(text[2..])
    else [text[0]] + Escape(text[1..])
  }

  /**
   * How JavaScript reads the body of a template literal without
   * interpolations into its cooked value, for the escape sequences the
   * preprocessor produces: an unescaped backtick would end the literal and an
   * unescaped `${` would open an interpolation (both `None`), and a carriage
   * return, alone or before a line feed, reads as a line feed. Escape
   * sequences other than `` \` ``, `\\` and `\$` are not modelled (`None`).
   */
  function CookTemplateBody(raw: string): Option<string>
  {
    if raw == [] then Some([])
    else if raw[0] == '`' then None
    else if raw[0] == '\\' then
      if |raw| >= 2 && (raw[1] == '`' || raw[1] == '\\' || raw[1] == '$') then
        Prepend(raw[1], CookTemplateBody(raw[2..]))
      else None
    else if |raw| >= 2 && raw[0] == '$' && raw[1] == '{' then None
    else if raw[0] == '\r' then
      if |raw| >= 2 && raw[1] == '\n' then Prepend('\n', CookTemplateBody(raw[2..]))
      else Prepend('\n', CookTemplateBody(raw[1..]))
    else Prepend(raw[0], CookTemplateBody(raw[1..]))
  }

  function Prepend(c: char, s: Option<string>): Option<string>
  {
    if s.Some? then Some([c] + s.value) else None
  }

  /**
   * The escaping is lossless: the escaped text is a valid template body
   * whose cooked value is the original text (carriage returns aside, which
   * JavaScript normalises in any template literal).
   */
  lemma {:induction false} CookEscape(text: string)
    requires '\r' !in text
    ensures CookTemplateBody(Escape(text)) == Some(text)
    decreases |text|
  {
    if text != [] {
      if |text| >= 2 && text[0] == '$' && text[1] == '{' {
        assert '\r' !in text[2..] by {
          forall i | 2 <= i < |text| ensures text[i] != '\r' { assert text[i] in text; }
        }
        CookEscape(text[2..]);
        assert Escape(text) == "\\${" + Escape(text[2..]);
        CookEscapedInterpolation(Escape(text[2..]), text[2..]);
        assert text == "${" + text[2..];
      } else {
        assert text[0] in text;
        assert '\r' !in text[1..];
        CookEscape(text[1..]);
        if text[0] == '`' || text[0] == '\\' {
          assert Escape(text) == ['\\', text[0]] + Escape(text[1..]);
          CookEscapedChar(text[0], Escape(text[1..]), text[1..]);
        } else {
          assert Escape(text) == [text[0]] + Escape(text[1..]);
          EscapeStart(text[1..]);
          CookPlainChar(text[0], Escape(text[1..]), text[1..]);
        }
        assert text == [text[0]] + text[1..];
      }
    }
  }

  /** Cooking an escaped backtick or backslash yields the character itself. */
  lemma CookEscapedChar(c: char, rest: string, tail: string)
    requires c == '`' || c == '\\'
    requires CookTemplateBody(rest) == Some(tail)
    ensures CookTemplateBody(['\\', c] + rest) == Some([c] + tail)
  {
    var e := ['\\', c] + rest;
    assert e[0] == '\\' && e[1] == c && e[2..] == rest;
  }

  /** Cooking an escaped `${` yields `${`. */
  lemma CookEscapedInterpolation(rest: string, tail: string)
    requires CookTemplateBody(rest) == Some(tail)
    ensures CookTemplateBody("\\${" + rest) == Some("${" + tail)
  {
    var e := "\\${" + rest;
    assert e[0] == '\\' && e[1] == '$' && e[2..] == ['{'] + rest;
    var f := ['{'] + rest;
    assert f[0] == '{' && f[1..] == rest;
    assert CookTemplateBody(f) == Some(['{'] + tail);
    assert CookTemplateBody(e) == Prepend('$', CookTemplateBody(f));
    assert "${" + tail == ['$'] + (['{'] + tail);
  }

  /** Cooking an ordinary character, not followed by `{` if it is `$`, keeps it. */
  lemma CookPlainChar(c: char, rest: string, tail: string)
    requires c != '`' && c != '\\' && c != '\r'
    requires !(c == '$' && rest != [] && rest[0] == '{')
    requires CookTemplateBody(rest) == Some(tail)
    ensures CookTemplateBody([c] + rest) == Some([c] + tail)
  {
    var e := [c] + rest;
    assert e[0] == c && e[1..] == rest;
  }

  /** An escaped text starts with a backslash or with the first character of the text. */
  lemma EscapeStart(text: string)
    ensures text == [] <==> Escape(text) == []
    ensures text != [] ==> Escape(text)[0] == '\\' || Escape(text)[0] == text[0]
  {
  }

  /** Dropping the backslash before each escaped character recovers the text. */
  function Unescape(s: string): string
  {
    if s == [] then []
    else if s[0] == '\\' && |s| >= 2 then [s[1]] + Unescape(s[2..])
    else [s[0]] + Unescape(s[1..])
  }

  lemma {:induction false} UnescapeEscape(text: string)
    ensures Unescape(Escape(text)) == text
    decreases |text|
  {
    if text != [] {
      if text[0] == '`' || text[0] == '\\' {
        UnescapeEscape(text[1..]);
        assert (['\\', text[0]] + Escape(text[1..]))[2..] == Escape(text[1..]);
      } else if |text| >= 2 && text[0] == '$' && text[1] == '{' {
        UnescapeEscape(text[2..]);
        var e := "\\${" + Escape(text[2..]);
        assert e[2..] == ['{'] + Escape(text[2..]);
        assert (['{'] + Escape(text[2..]))[1..] == Escape(text[2..]);
        assert text == ['$', '{'] + text[2..];
      } else {
        UnescapeEscape(text[1..]);
        var e := [text[0]] + Escape(text[1..]);
        assert e[1..] == Escape(text[1..]);
      }
    }
  }

  /**
   * preprocess: the one text to lint is the internal tag followed by the
   * escaped file contents between backticks.
   */
  function Preprocess(text: string): (r: seq<string>)
    ensures |r| == 1
    ensures |r[0]| >= |Options.InternalTag| + 2 && r[0][..|Options.InternalTag|] == Options.InternalTag
    ensures r[0][|Options.InternalTag|] == '`' && r[0][|r[0]| - 1] == '`'
    ensures '\r' !in text ==>
      CookTemplateBody(r[0][|Options.InternalTag| + 1..|r[0]| - 1]) == Some(text)
  {
    var escaped := Escape(text);
    var wrapped := Options.InternalTag + "`" + escaped + "`";
    assert wrapped[|Options.InternalTag| + 1..|wrapped| - 1] == escaped;
    assert '\r' !in text ==> CookTemplateBody(escaped) == Some(text) by {
      if '\r' !in text {
        CookEscape(text);
      }
    }
    [wrapped]
  }

  // ---------------------------------------------------------------------
  // Postprocessing
  // ---------------------------------------------------------------------

  /** The keys of the plugin's rules; their messages carry `graphql/<key>` as rule id. */
  const RuleKeys: seq<string> :=
    ["template-strings", "named-operations", "required-fields", "capitalized-type-name", "no-deprecated-fields"]

  /** A lint message; only its rule id matters here (absent for parser errors). */
  datatype Message = Message(ruleId: Option<string>, line: int, column: int, text: string)

  predicate IsPluginRuleId(id: Option<string>)
  {
    id.Some? && exists k :: k in RuleKeys && id.value == "graphql/" + k
  }

  /** lodash `flatten` on a list of message lists: one level. */
  function Flatten(messages: seq<seq<Message>>): seq<Message>
  {
    if messages == [] then [] else messages[0] + Flatten(messages[1..])
  }

  /** The plugin's own messages of a flat list, in order. */
  function KeepPluginMessages(ms: seq<Message>): seq<Message>
  {
    if ms == [] then []
    else if IsPluginRuleId(ms[0].ruleId) then [ms[0]] + KeepPluginMessages(ms[1..])
    else KeepPluginMessages(ms[1..])
  }

  /** postprocess: flattens and keeps exactly the plugin's messages. */
  function Postprocess(messages: seq<seq<Message>>): (r: seq<Message>)
    ensures forall m :: m in r <==> m in Flatten(messages) && IsPluginRuleId(m.ruleId)
  {
    KeepMembers(Flatten(messages));
    KeepPluginMessages(Flatten(messages))
  }

  lemma {:induction false} KeepMembers(ms: seq<Message>)
    ensures forall m :: m in KeepPluginMessages(ms) <==> m in ms && IsPluginRuleId(m.ruleId)
  {
    if ms != [] {
      KeepMembers(ms[1..]);
      assert ms == [ms[0]] + ms[1..];
    }
  }

  lemma {:induction false} KeepConcat(a: seq<Message>, b: seq<Message>)
    ensures KeepPluginMessages(a + b) == KeepPluginMessages(a) + KeepPluginMessages(b)
  {
    if a == [] {
      assert a + b == b;
    } else {
      assert (a + b)[0] == a[0];
      assert (a + b)[1..] == a[1..] + b;
      KeepConcat(a[1..], b);
    }
  }

  /**
   * A single message is kept once, or dropped; with `KeepConcat` this makes
   * the filter keep, in order, exactly the plugin's messages.
   */
  lemma KeepOne(m: Message)
    ensures KeepPluginMessages([m]) == (if IsPluginRuleId(m.ruleId) then [m] else [])
  {
  }

  lemma {:induction false} FlattenConcat(a: seq<seq<Message>>, b: seq<seq<Message>>)
    ensures Flatten(a + b) == Flatten(a) + Flatten(b)
  {
    if a == [] {
      assert a + b == b;
    } else {
      assert (a + b)[0] == a[0];
      assert (a + b)[1..] == a[1..] + b;
      FlattenConcat(a[1..], b);
    }
  }

  /** The order of messages is kept: postprocessing distributes over concatenation. */
  lemma PostprocessConcat(a: seq<seq<Message>>, b: seq<seq<Message>>)
    ensures Postprocess(a + b) == Postprocess(a) + Postprocess(b)
  {
    FlattenConcat(a, b);
    KeepConcat(Flatten(a), Flatten(b));
  }

  /** The rule id of the message test: only `graphql/template-strings` survives. */
  lemma PluginRuleIdExamples()
    ensures IsPluginRuleId(Some("graphql/template-strings"))
    ensures !IsPluginRuleId(Some("graphql/randomString"))
    ensures !IsPluginRuleId(Some("no-undef")) && !IsPluginRuleId(None)
  {
    assert "template-strings" in RuleKeys;
    assert "graphql/template-strings" == "graphql/" + "template-strings";
    forall k | k in RuleKeys ensures "graphql/randomString" != "graphql/" + k {
      assert |"graphql/" + k| != |"graphql/randomString"|;
    }
    forall k | k in RuleKeys ensures "no-undef" != "graphql/" + k {
      assert ("graphql/" + k)[0] == 'g';
    }
  }

  // ---------------------------------------------------------------------
  // Processor registration
  // ---------------------------------------------------------------------

  /** The one processor object registered for every GraphQL file extension. */
  datatype Processor = GqlProcessor

  const GqlFiles: seq<string> := ["gql", "graphql"]

  /** The `reduce` over the extensions: one entry `.<extension>` per extension. */
  function ProcessorsFor(extensions: seq<string>): (r: map<string, Processor>)
    ensures r.Keys == set e | e in extensions :: "." + e
    ensures forall k :: k in r ==> r[k] == GqlProcessor
  {
    if extensions == [] then map[]
    else ProcessorsFor(extensions[..|extensions| - 1])[("." + extensions[|extensions| - 1]) := GqlProcessor]
  }

  /** `processors` has exactly the keys `.gql` and `.graphql`. */
  lemma ProcessorKeys()
    ensures ProcessorsFor(GqlFiles).Keys == {".gql", ".graphql"}
  {
    assert "." + "gql" == ".gql";
    assert "." + "graphql" == ".graphql";
  }
}
