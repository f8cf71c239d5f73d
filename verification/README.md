# eslint-plugin-graphql, modelled in Dafny

This project models the sequential core of eslint-plugin-graphql, an ESLint plugin that checks GraphQL queries inside JavaScript files. It is written in Dafny, and the properties below are proved about the model. There is one Dafny module per core file of the plugin:

| module | file | what it models |
|---|---|---|
| `Location` (location.dfy) | src/location.js | moving a line/column point between two coordinate spaces; the half-open span test; choosing the last source map that contains a document point |
| `Infer` (infer.dfy) | src/infer.js | static inference of the string an expression evaluates to. String literals, identifiers with one static initialiser and template literals are folded into one text, with a line/column cursor and a list of source maps |
| `Options` (options.dfy) | src/index.js | the per-environment validator tables; the `env` check; the tag-name default chain; validator selection, where custom rules shadow built-in rules; the order of schema sources; the process-wide cache of resolved option groups (a class with a `map` field) |
| `Processors` (processors.dfy) | src/index.js | the `.gql`/`.graphql` file processors: the escaping preprocessor, the message-filtering postprocessor and the processor table |
| `RemoveDirectives` (directives.dfy) | src/removeDirectivesFromDocument.js | in-place removal of matching directives from a tree of selection-set and selection objects, optionally dropping fields, then the emptiness test on the operation, following fragment spreads |
| `Rules` (rules.dfy) | src/rules.js, src/customGraphQLValidationRules.js | the named-operations rule |
| `CustomRules` (custom_rules.dfy) | src/customGraphQLValidationRules.js | the required-fields visitors (fragment definitions, inline fragments and fields), the capitalised-type-name rule, and the deprecated field and enum value rules |
| `TemplateString` (template_string.dfy) | graphql-template-string.js | the prototype `gql` template rule: the tag check, rejecting interpolations, and mapping a parse error's location back to the file |

How the model is stated:

- Pure JavaScript functions are Dafny functions. The `for`/`while` loops of the source are methods with loop invariants, each proved equal to a specification function.
- `removeDirectivesFromSelectionSet` overwrites `selectionSet.selections` and `selection.directives` in place. It is modelled by the classes `SelectionSet` and `Selection`. Each object carries a ghost `model`, its value as a tree, and a ghost `Repr`, the objects it owns. The methods are proved against `StripSet`, a function on the value trees, and the properties of the removal are proved about `StripSet`.
- A validation visitor's `context.reportError` is modelled as returning the list of reported errors.
- A JavaScript `TypeError` inside a visitor aborts graphql's `validate` and is modelled as the `Crashed` outcome.
- The answers of graphql's `ValidationContext`, the GraphQL parser, the schema loaders and ESLint's scope resolution are parameters.

## Model

| member | source | states |
|---|---|---|
| Location.TransformLocation | src/location.js:33-42 | The mapped line is offset from the target line by `loc.line - ref.line`. On the reference line the column is shifted by `target.column - ref.column`; on any other line it is kept. |
| Location.TransformIdentity | src/location.js:33-42 | Mapping a space onto itself (`ref == target`) leaves every point unchanged. |
| Location.TransformRefToTarget | src/location.js:33-42 | The reference point maps to exactly the target point. |
| Location.TransformCompose | src/location.js:33-42 | Mapping by `r1 -> t1` and then by `t1 -> t2` is the same as mapping by `r1 -> t2`. |
| Location.TransformInverse | src/location.js:33-42 | Mapping back by `target -> ref` recovers the original point. |
| Location.InSpanIffBetween | src/location.js:23-30 | A point is in a span exactly when `start <= p < end` in line-then-column order: the start is inclusive and the end exclusive. |
| Location.EmptySpanContainsNothing | src/location.js:23-30 | A span whose start equals its end contains no point. |
| Location.LastMatching | src/location.js:10-18 | Gives the index of a map whose `dest` contains the point, with no later map containing it, or -1 when none does. |
| Location.GetSourceLocationFromDocLocation | src/location.js:1-21 | With no map containing the point the result is `sourceNodeStart` itself. Otherwise the result is the point mapped by the last containing map, from its `dest.start` to its `source.start`. |
| Location.FoldIsLastMatch | src/location.js:10-18 | The loop's result is decided by the last matching map alone; with no match it is the initial guess. |
| Location.FoldSnoc | src/location.js:10-18 | A map appended at the end replaces the result exactly when it contains the point. |
| Infer.Split | src/infer.js:7 | `split('\n')` always yields at least one line. |
| Infer.SplitJoin | src/infer.js:7 | Joining the lines with `'\n'` gives the text back. |
| Infer.SplitShape | src/infer.js:7-9 | There is one more line than there are newlines, and the last line's JavaScript length is that of the text after the last newline. |
| Infer.Utf16LengthConcat | src/infer.js:9 | The JavaScript length (UTF-16 code units) of a concatenation is the sum of the lengths. |
| Infer.Utf16LengthOfBmp | src/infer.js:9 | For a text of Basic Multilingual Plane characters the JavaScript length is the number of characters. |
| Infer.LocOfAppendedString | src/infer.js:6-18 | The line advances by the number of newlines. Without a newline the column advances by the length; otherwise it is the length of the text after the last newline. Lengths are counted as `.length` counts them, in UTF-16 code units. |
| Infer.AstralCharTakesTwoColumns | src/infer.js:9-16 | Appending U+1F600 at 1:1 ends at 1:3: a character above U+FFFF takes two columns. |
| Infer.LocOfAppendedConcat | src/infer.js:6-18 | Appending `a` and then `b` ends where appending `a + b` ends. |
| Infer.ConcatNodeValue | src/infer.js:23-47 | The value is the old value followed by the node's text. The maps are the old maps, then the node's own maps, then one new map from the node's span to the document span between the old and the new cursor. The new cursor is where the text ends. |
| Infer.InferLiteralNode | src/infer.js:79-88 | Succeeds exactly for string literals, and then appends the string and one source map for the literal's span. |
| Infer.InferAnyMatchesStaticValue | src/infer.js:49-100 | Inference succeeds exactly when the expression has a static value (an independent reference definition). It then appends exactly that value, moves the cursor to its end and keeps the earlier maps as a prefix. |
| Infer.TemplateFromMatchesValue | src/infer.js:49-63 | A template literal contributes its quasis interleaved with its expressions' values, and fails as soon as one expression fails. |
| Infer.InferAnyNode | src/infer.js:90-100 | The dispatch on the node kind computes the specification `InferAny`. Kinds other than literal, identifier and template literal fail. |
| Infer.InferIdentifierNode | src/infer.js:65-77 | An identifier infers as its resolved static initialiser, and fails without one. |
| Infer.CycleNeverReturns | src/infer.js:65-77 | Following, as written, any name of a ring of names bound to one another never returns, for any number of calls. |
| Infer.SelfReferenceNeverReturns | src/infer.js:65-77 | `const q = q;`: following `q` as written never returns. |
| Infer.Follow | src/infer.js:65-77 | The corrected chain, which records the names followed: a text it finds is the start's own string or the string initialiser of some binding (`FollowFoundOnChain` places it on the chain). |
| Infer.FollowFoundOnChain | src/infer.js:65-77 | A text the corrected chain finds is found by the chain as written too, after enough calls: it is the string initialiser at the end of the chain from the start, not just any binding's. |
| Infer.CycleFails | src/infer.js:65-77 | The corrected chain fails on a ring of names instead of recursing. |
| Infer.FollowAgreesWhenAcyclic | src/infer.js:65-77 | On acyclic bindings, the chain as written returns, given enough calls, exactly what the corrected chain returns. |
| Infer.InferTemplateLiteralNode | src/infer.js:49-63 | The loop over the quasis, with its early `null` exit, computes the specification `TemplateFrom`. |
| Infer.InferNode | src/infer.js:102-109 | Starting from `''`, cursor 1:1 and no maps, the result is present exactly when the node has a static value. Its text is then that value, and its cursor is where that text ends from 1:1. |
| Options.ParseEnv | src/index.js:340-351 | Each of `lokka`, `fraql`, `relay`, `apollo` and `literal` names its dialect (both directions); any other string names none. |
| Options.Without | src/index.js:21-76 | `without` keeps exactly the elements that are not excluded, and never lengthens the list. |
| Options.WithoutConcat | src/index.js:21-76 | `without` keeps the order: it distributes over concatenation. |
| Options.WithoutNothing | src/index.js:21-76 | A list with nothing to exclude comes back unchanged. |
| Options.EnvGraphQLValidatorNames | src/index.js:21-76 | A dialect's table is every validator name except that dialect's exclusions. |
| Options.RelayExcludesMost | src/index.js:21-76 | Relay's exclusions strictly contain those of apollo, lokka, fraql and literal. |
| Options.RelayRunsFewest | src/index.js:21-76 | Every validator relay runs by default is run by every other dialect. |
| Options.SchemaSourceOf | src/index.js:284-301 | The schema comes from the inline JSON if given, else the non-empty file path, else the non-empty SDL string, else the config file (for the project name when a non-empty one is given). Each source carries the option's own value. |
| Options.SchemaSourceIgnoresLaterOptions | src/index.js:284-301 | Options below the chosen source are never consulted: groups that agree up to the chosen option choose the same source. |
| Options.DefaultTagName | src/index.js:353-363 | An explicit non-empty tag name wins, then `Relay.QL` for relay, then the internal tag for literal, then `gql`. The result is never empty. |
| Options.SelectValidatorNames | src/index.js:365-376 | `"all"` selects every built-in name and an explicit list is used as given. Without the option, a dialect selects its table, the list of all names minus the dialect's exclusions in their order, and no dialect selects every name. |
| Options.ResolveValidator | src/index.js:378-384 | A name resolves to the custom rule exactly when it is a custom rule's name, never to the built-in rule of that name. |
| Options.ResolveValidators | src/index.js:378-384 | Each selected name is resolved in order. |
| Options.OptionsResolver.constructor | src/index.js:265 | The process starts with an empty cache, which trivially holds only resolutions of their keys. |
| Options.OptionsResolver.ParseOptions | src/index.js:268-388 | A cached group whose env is not `literal` is answered from the cache, which is left unchanged. Otherwise the error paths come in the source's order: a missing config file, a loader error, then an invalid env; each leaves the cache unchanged. A config-file load of a cached group returns the cached result with the new schema. Every fresh resolution is stored under its group. Every cached entry stays a resolution of its key. |
| Processors.CookEscape | src/index.js:406-418 | The escaped text, read as the body of a template literal, cooks back to exactly the original text (when the text has no carriage return). |
| Processors.UnescapeEscape | src/index.js:417 | Deleting the backslash before each escaped character recovers the input. |
| Processors.Preprocess | src/index.js:406-419 | The result is one string: the internal tag, a backtick, a template body that cooks back to the file's text (when the text has no carriage return), and a backtick. |
| Processors.Postprocess | src/index.js:420-424 | A message is kept exactly when it occurs in the flattened input and its rule id is `graphql/` followed by one of the plugin's rule keys. |
| Processors.KeepMembers | src/index.js:422-424 | The filter keeps exactly the plugin's messages. |
| Processors.KeepOne | src/index.js:420-424 | One message is kept once when its rule id is the plugin's, and dropped otherwise; with the concatenation lemmas this pins the filter to keeping, in order, exactly the plugin's messages. |
| Processors.PostprocessConcat | src/index.js:420-424 | The order of the messages is kept: postprocessing distributes over concatenation. |
| Processors.PluginRuleIdExamples | test/makeProcessors.js:62-75 | `graphql/template-strings` is a plugin rule id; `graphql/randomString`, `no-undef` and a missing id are not. |
| Processors.ProcessorsFor | src/index.js:428-433 | The table has one key `.ext` per extension, each bound to the one processor. |
| Processors.ProcessorKeys | src/index.js:428-433 | The processor table has exactly the keys `.gql` and `.graphql`. |
| RemoveDirectives.Matches | src/removeDirectivesFromDocument.js:28-40 | A directive matches exactly when some entry names it (with a non-empty name) or some entry's test accepts it. |
| RemoveDirectives.AggressiveRemove | src/removeDirectivesFromDocument.js:48-50 | Aggressive removal holds exactly when some entry asks to remove. |
| RemoveDirectives.KeepDirectivesMembers | src/removeDirectivesFromDocument.js:62-68 | A field keeps exactly its non-matching directives, and no more than it had. |
| RemoveDirectives.FilterDirectives | src/removeDirectivesFromDocument.js:60-68 | The `filter` with its `remove` flag keeps the non-matching directives in order. The flag is raised exactly when removal is aggressive and some directive matched. |
| RemoveDirectives.StripLevel | src/removeDirectivesFromDocument.js:53-71 | The `map` callback drops a selection exactly when aggressive removal meets a field with a matching directive. Otherwise it keeps the selection's kind and child, and a field keeps exactly its non-matching directives in order. Non-fields and fields without a directive list are kept as they are. |
| RemoveDirectives.StripSelection | src/removeDirectivesFromDocument.js:52-81 | A selection disappears exactly when the level step drops it; a surviving one keeps its kind, a field's directive list keeps exactly its non-matching directives, and the selection set of a field or inline fragment is stripped in turn while any other is kept. |
| RemoveDirectives.TwoPasses | src/removeDirectivesFromDocument.js:52-81 | The `map`/`filter` pass followed by the `forEach` recursion gives the one-pass definition. |
| RemoveDirectives.StripSetIsClean | src/removeDirectivesFromDocument.js:42-84 | After the removal, no field reached by the recursion keeps a matching directive. |
| RemoveDirectives.StripAllKeepsSurvivors | src/removeDirectivesFromDocument.js:65-72 | A list keeps exactly the selections the level step does not drop, in order, with their kinds, each field with its non-matching directives in order, and each selection set of a field or inline fragment stripped in turn. |
| RemoveDirectives.NoRemoveKeepsShape | src/removeDirectivesFromDocument.js:42-84 | Without aggressive removal the whole tree keeps its shape: at every depth each list keeps its length, kinds and order, each selection keeps its selection set, and only field directive lists shrink, to their non-matching directives. |
| RemoveDirectives.NoRemoveKeepsShapeSel | src/removeDirectivesFromDocument.js:53-80 | A selection with the level step's kind and directives and the recursion's selection set is its original with only field directives shrunk, at every depth. |
| RemoveDirectives.NoRemoveKeepsAll | src/removeDirectivesFromDocument.js:48-72 | Without aggressive removal a list keeps its length and the kinds in order; only the directive lists of fields shrink, each to its non-matching directives, and selection sets are stripped in turn. |
| RemoveDirectives.LevelKeepsOthers | src/removeDirectivesFromDocument.js:54-59 | Non-field selections, and fields without a directive list, are kept unchanged at their level. |
| RemoveDirectives.NotEmptyIffInlinedNonEmpty | src/removeDirectivesFromDocument.js:7-26 | The operation is non-empty exactly when inlining its fragments, recursively, leaves some selection (a reference definition). |
| RemoveDirectives.StripKeepsSpreads | src/removeDirectivesFromDocument.js:52-72 | The removal never adds a top-level fragment spread. |
| RemoveDirectives.RemoveDirectivesFromSelectionSet | src/removeDirectivesFromDocument.js:42-84 | The set's new value is `StripSet` of its old value. It stays valid and owns the same objects. |
| RemoveDirectives.StripLevelsOfSet | src/removeDirectivesFromDocument.js:52-72 | After the `map`/`filter` pass the set lists the level step's survivors, with their stripped directives. |
| RemoveDirectives.ReplaceSelections | src/removeDirectivesFromDocument.js:52 | Assigning the new `selections` list yields a valid set whose value is that list's. |
| RemoveDirectives.FilterSelections | src/removeDirectivesFromDocument.js:52-72 | The kept nodes are the surviving original nodes, at increasing positions, and their values are the level step's results. |
| RemoveDirectives.MapSelections | src/removeDirectivesFromDocument.js:53-71 | Each entry of the mapped list is `null` exactly when the level step drops that selection. Otherwise it is the node itself, now holding the stripped value. |
| RemoveDirectives.StripLevelOfSelection | src/removeDirectivesFromDocument.js:53-71 | The callback keeps a node exactly when the level step does, and then leaves it with the level step's value. |
| RemoveDirectives.NonNullAtPositions | src/removeDirectivesFromDocument.js:72 | `filter(x => !!x)` keeps the non-null entries in their order. |
| RemoveDirectives.NonNullModels | src/removeDirectivesFromDocument.js:72 | The values of the kept entries are exactly the present results of the level step. |
| RemoveDirectives.StripChildrenOfSet | src/removeDirectivesFromDocument.js:74-81 | The `forEach` leaves the list of nodes unchanged and applies the recursion step to each value. |
| RemoveDirectives.StripChildOfSelection | src/removeDirectivesFromDocument.js:75-80 | The recursion runs only for fields and inline fragments that have a selection set. |
| RemoveDirectives.StripEveryDefinition | src/removeDirectivesFromDocument.js:91-96 | Every definition's selection set holds its stripped value, and the document stays valid. |
| RemoveDirectives.RemoveDirectivesFromDocument | src/removeDirectivesFromDocument.js:87-100 | Every selection set is stripped in place. The answer is the missing-operation error when there is no operation. Otherwise it is the document exactly when the stripped first operation is non-empty after following fragment spreads, and `null` otherwise. |
| RemoveDirectives.DocumentOutcomeOf | src/removeDirectivesFromDocument.js:97-99 | The decision on the nodes is the emptiness test on the values. |
| RemoveDirectives.CheckNotEmpty | src/removeDirectivesFromDocument.js:7-26 | The counting loop over the nodes computes `IsNotEmpty` on the values. |
| RemoveDirectives.FirstOperationIsFirst | src/removeDirectivesFromDocument.js:97 | There is a first operation exactly when the document has an operation, and then no earlier definition is one. |
| RemoveDirectives.FirstOperationNodeModel | src/removeDirectivesFromDocument.js:97 | The operation node found holds the value of the first operation. |
| RemoveDirectives.FragmentNodesModel | src/removeDirectivesFromDocument.js:98 | The fragment map of the nodes holds the values of the fragment map, with later fragments replacing earlier ones. |
| RemoveDirectives.FragmentMapOfStripped | src/removeDirectivesFromDocument.js:91-98 | The fragment map of the stripped document holds the stripped fragments. |
| RemoveDirectives.FirstOperationOfStripped | src/removeDirectivesFromDocument.js:91-97 | The first operation of the stripped document is the stripped first operation. |
| RemoveDirectives.RankedAfterStrip | src/removeDirectivesFromDocument.js:91-98 | Stripping keeps the fragment map acyclic, under the same ranks. |
| RemoveDirectives.StripKeepsEmptinessDefined | src/removeDirectivesFromDocument.js:97-99 | The emptiness test is still defined on the stripped document. |
| Rules.OperationsMustHaveNames | src/rules.js:3-13 | An unnamed operation yields exactly one error, "All operations must be named", carrying the node. A named operation, or any other node, yields none. src/customGraphQLValidationRules.js:3-13 defines the identical visitor, and this one definition models both. |
| Rules.OneErrorPerUnnamedOperation | src/rules.js:5-10 | Over a whole document there is exactly one error per unnamed operation, in order, each carrying its operation. |
| CustomRules.Selects | src/customGraphQLValidationRules.js:15-19 | True exactly when some direct selection is a field of that name. |
| CustomRules.FieldWasRequested | src/customGraphQLValidationRules.js:15-19 | Defined exactly when the node has a selection set (otherwise reading `selections` throws), and then true exactly when a direct selection is that field. |
| CustomRules.AvailableIffDeclaredInChain | src/customGraphQLValidationRules.js:21-30 | A field is available exactly when the type, or some type in its `ofType` chain, declares it; a null type offers nothing. |
| CustomRules.CollectCrashes | src/customGraphQLValidationRules.js:37-53 | The `forEach` throws exactly when one of its iterations throws. |
| CustomRules.CollectReports | src/customGraphQLValidationRules.js:37-53 | Without a throw, the errors reported are exactly those of the failing iterations. |
| CustomRules.RequiredFieldsOnFragment | src/customGraphQLValidationRules.js:36-54 | The loop computes the specification `Collect(FragmentResults(...))`. |
| CustomRules.FragmentReportsMissingFields | src/customGraphQLValidationRules.js:36-54 | A fragment definition never throws. It is reported, with the `'f' field required on 'fragment N on T'` message, for exactly the required fields its type offers that it does not select. |
| CustomRules.RequiredFieldsOnField | src/customGraphQLValidationRules.js:113-132 | Nothing is reported without a field definition; otherwise the loop computes `Collect(FieldResults(...))`. |
| CustomRules.FieldReportsMissingFields | src/customGraphQLValidationRules.js:113-132 | A field throws exactly when it has no selection set while its type offers a required field. Otherwise it is reported, with `'f' field required on 'name'`, for exactly the offered required fields it does not select. |
| CustomRules.WalkAncestors | src/customGraphQLValidationRules.js:68-87 | The `while` loop popping the cloned ancestors computes the specification `Walk`. |
| CustomRules.WalkReachesNearestField | src/customGraphQLValidationRules.js:73-87 | The walk reaches a field without finding the required field exactly when there is a nearest enclosing field, and neither it nor any ancestor below it selects the field. |
| CustomRules.RequiredFieldsOnInlineFragment | src/customGraphQLValidationRules.js:58-108 | The loop computes `Collect(InlineResults(...))`. |
| CustomRules.InlineReportsMissingFields | src/customGraphQLValidationRules.js:58-108 | For an offered required field, an inline fragment with a type condition is reported with `'f' field required on '... on T'` exactly when it does not select the field and the nearest-enclosing-field condition above holds. |
| CustomRules.InlineMessageNamesField | src/customGraphQLValidationRules.js:100-102 | Different fields give different inline-fragment messages. |
| CustomRules.TypeNamesShouldBeCapitalized | src/customGraphQLValidationRules.js:136-150 | An empty name throws. Otherwise the name is reported, once, exactly when its first character equals its lower-case form, i.e. is not an upper-case letter. |
| CustomRules.ReasonSuffix | src/customGraphQLValidationRules.js:165 | The suffix is a space and the reason when the reason is non-empty, and empty otherwise. |
| CustomRules.NoDeprecatedField | src/customGraphQLValidationRules.js:156-171 | There is one error exactly when the field definition is deprecated and a parent type exists. The message is `The field P.F is deprecated.`, followed by `" " + reason` exactly when the reason is non-empty. |
| CustomRules.DeprecationMessage | src/customGraphQLValidationRules.js:164-165 | The field and enum value messages have the shape subject, ` is deprecated.`, optional reason. |
| CustomRules.GetNamedType | src/customGraphQLValidationRules.js:177 | The named type is the innermost type of the wrapping chain. |
| CustomRules.NoDeprecatedEnumValue | src/customGraphQLValidationRules.js:172-191 | There is one error exactly when the enum value is deprecated and there is an input type. The message names the named input type and the value, with the reason as above. |
| TemplateString.FirstLine | graphql-template-string.js:72 | The message's first line is a prefix without a newline, ending at the first newline or at the end. |
| TemplateString.ReportLocationAsWritten | graphql-template-string.js:58-68 | The line is computed as intended. |
| TemplateString.AsWrittenColumnIsNeverANumber | graphql-template-string.js:58-68 | As written, the reported column is `NaN` for errors on the first line and `undefined` for later lines, never a number. |
| TemplateString.AsWrittenExample | graphql-template-string.js:62-64 | A first-line error at column 4 of a template starting at 3:10 is reported at line 3, column `NaN`. |
| TemplateString.ReportLocation | graphql-template-string.js:62-67 | A first-line error maps to the node's start line, at `start column + error column + 1`. An error on a later line maps to line `start.line + error.line - 1` with its column unchanged. |
| TemplateString.ReportLocationRoundTrip | graphql-template-string.js:62-67 | The corrected mapping can be inverted: the error location is recovered from the reported one. |
| TemplateString.ReportLocationKeepsLine | graphql-template-string.js:62-67 | The corrected and the as-written location agree on the line. |
| TemplateString.ReportedColumnIsMissing | graphql-template-string.js:70-77 | The `loc` object reported as written has the right line but no `column` property. |
| TemplateString.TemplateStringRule | graphql-template-string.js:37-84 | A tag other than the bare `gql` yields nothing. More than one quasi yields exactly the interpolation report. A single quasi is reported exactly when parsing its cooked text fails, with the message's first line at the corrected location. There is at most one report. |

## Left out

- src/createRule.js and src/constants.js are not part of this model. That covers finding tagged templates, rebuilding a document from a template with interpolations, and the dialect placeholders. The value of the internal tag, `ESLintPluginGraphQLFile`, is taken from test/makeProcessors.js:55.
- The ESLint rule objects, their JSON-schema `meta` and the `rules` table (src/index.js:129-263) are host plumbing. Only the rule keys are kept, for the postprocessor.
- Schema loading is file I/O and foreign library calls (src/index.js:285-337, 390-404). `ParseOptions` takes the loaders' answer as the parameter `load`; only the order in which schema sources are tried is modelled. The `projectCache` of config projects is left out with it.
- Options.OptionsResolver.ParseOptions: the cache is keyed by the option group as a value, standing for `JSON.stringify(optionGroup)`. Two groups that differ only in the order of their keys share a key in the model but not in JavaScript.
- Options.ResolveValidator: a built-in rule is its name only. The dynamic `require` of graphql's rule modules (src/index.js:382) is not modelled.
- Infer.InferIdentifierNode: ESLint scope resolution (src/infer.js:65-77) is foreign. An identifier carries what resolution answers: the one static initialiser, or none. This keeps resolution chains finite, which the code does not guarantee (see Findings); the chains themselves are modelled separately, by `FollowAsWritten` and `Follow`, on string values only.
- Infer.ConcatNodeValue: a quasi's cooked text is always a string. A template with an invalid escape sequence, whose cooked value is `null`, is not modelled.
- Processors.CookEscape: the cooked-value round trip is stated for texts without a carriage return. JavaScript reads a carriage return in any template literal as a line feed. Only the escape sequences the preprocessor produces are cooked.
- RemoveDirectives.RemoveDirectivesFromDocument: `getOperationDefinitionOrDie`, `createFragmentMap` and `getFragmentDefinitions` come from apollo-utilities, whose code is not part of this model; their behaviour is abstracted. A document without an operation gives the `MissingOperation` outcome. The precondition (`EmptinessDefined`, through `Ranked`) asks that every top-level spread of the operation names a fragment of the map, and that EVERY fragment of the map has a `selections` list and spreads, at its top level, only fragments of the map of lower rank. This includes fragments the operation never reaches. So a document with an unused fragment that spreads an unknown name, or with a cycle among unused fragments, is excluded, although `isNotEmpty` never visits those fragments and the source handles such a document. On a cycle it does reach, `isNotEmpty` recurses without end, and on an unknown fragment it reaches it throws; neither case is modelled.
- RemoveDirectives.RemoveDirectivesFromDocument: a document holds only operation and fragment definitions. Any other definition (a type-system definition, say) has no `selectionSet`, so src/removeDirectivesFromDocument.js:94 passes `undefined` and line 46 throws a `TypeError` reading its `selections`, after the earlier definitions were already stripped; that crash is not modelled. A document with several operations is not rejected: the first operation is taken. apollo-utilities' own checks on such documents, which may reject them, are not modelled.
- RemoveDirectives: a selection node keeps only its kind, its directive list and its selection set. A field's alias and arguments are not modelled. The `!(selection)` test at src/removeDirectivesFromDocument.js:56 can never be true for a list entry and has no model.
- CustomRules: a schema type's `_fields` is a set of field names. A field named like a property of `Object.prototype`, which `type._fields[field]` would also find, is not modelled.
- CustomRules.TypeNamesShouldBeCapitalized: `toLowerCase` is modelled on ASCII letters only. GraphQL names are ASCII, and any non-ASCII first character is treated as having no lower-case form.
- CustomRules.RequiredFieldsOnInlineFragment: the `throw` at src/customGraphQLValidationRules.js:90-94 cannot be reached, because the loop only ends with `nearestField` set. Popping past the outermost ancestor instead throws a `TypeError`, modelled as `Crashed`.
- CustomRules.Collect: when a visitor throws, the errors it reported before the throw are dropped from the outcome, since graphql's `validate` does not return them.
- The visitor context (`getType`, `getFieldDef`, `getParentType`, `getInputType`, `_typeInfo.getEnumValue`) and `GraphQLError` are foreign; their answers are parameters, and an error is its message and node.
- TemplateString.TemplateStringRule: a quasi's cooked text is always a string. A template with an invalid escape sequence (`\u` alone, say) has a `null` cooked value. Line 51 of graphql-template-string.js passes that `null` to `parse`, which throws an error without `locations`. Line 58 then throws a `TypeError` reading `error.locations[0]`, out of the rule. That crash path is not modelled, and neither is any parser error without a location.
- TemplateString.TemplateStringRule: graphql's `parse` is the parameter `parse`. The validation after a successful parse only logs to the console (graphql-template-string.js:81-83), so it reports nothing and is not modelled.
- A `TypeError` inside a visitor throws out of graphql's `validate`, so the model gives the `Crashed` outcome. Such a `TypeError` arises at src/customGraphQLValidationRules.js:16, on a node without a selection set, at src/customGraphQLValidationRules.js:78, after popping past the outermost ancestor, at src/customGraphQLValidationRules.js:101, reading `node.typeCondition.name` of an inline fragment without a type condition, and at src/customGraphQLValidationRules.js:140, calling `toLowerCase` on the first character of an empty type name.

## Findings

| source | as written | input that shows it | evidently intended | confidence | as-written member | corrected member |
|---|---|---|---|---|---|---|
| graphql-template-string.js:62-68 | The reported column reads the property `col` of the parser's error location and of `node.loc.start`. Both objects carry `line` and `column` and have no `col`. | A syntax error at line 1, column 4 of a template starting at 3:10 is reported at column `NaN`; an error on a later line is reported at column `undefined`. | The column is `start.column + error.column + 1` on the template's first line and `error.column` on later lines, and the reported `loc` object carries it as `column` rather than `col` (lines 73-76), the key a reported position is read by. | not executed | TemplateString.AsWrittenColumnIsNeverANumber | TemplateString.ReportLocation |
| src/infer.js:65-77 | `inferIdentifierNode` follows an identifier to its single static initialiser and infers that, with no record of the identifiers already followed. | Inferring the identifier `q` with `const q = q;` in scope, or `a` with `const a = b; const b = a;`: the recursion never ends, so the call stack overflows. | An identifier met a second time on the same chain makes inference fail, as any other unresolvable identifier does. | not executed | Infer.CycleNeverReturns | Infer.Follow |
