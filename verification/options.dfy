/**
 * Option resolution for one option group of a rule: the per-environment
 * default validator tables, the environment check, the tag-name default
 * chain, validator selection (custom rules before built-in ones), the order
 * in which schema sources are tried, and the process-wide cache of resolved
 * option groups.
 */
module Options {
  import opened Common

  /** The tag the file processors wrap whole `.gql`/`.graphql` files in. */
  const InternalTag: string := "ESLintPluginGraphQLFile"

  /** The dialects an option group may name. */
  datatype Env = Lokka | Fraql | Relay | Apollo | Literal

  /** The `env` option as a dialect; `None` for every other string. */
  function ParseEnv(s: string): (e: Option<Env>)
    ensures e == Some(Lokka) <==> s == "lokka"
    ensures e == Some(Fraql) <==> s == "fraql"
    ensures e == Some(Relay) <==> s == "relay"
    ensures e == Some(Apollo) <==> s == "apollo"
    ensures e == Some(Literal) <==> s == "literal"
  {
    if s == "lokka" then Some(Lokka)
    else if s == "fraql" then Some(Fraql)
    else if s == "relay" then Some(Relay)
    else if s == "apollo" then Some(Apollo)
    else if s == "literal" then Some(Literal)
    else None
  }

  // ---------------------------------------------------------------------
  // Per-environment default validator names
  // ---------------------------------------------------------------------

  /** Rules about fragment names, meaningless when fragments are interpolated. */
  const FragmentRuleNames: seq<string> :=
    ["KnownFragmentNames", "NoUnusedFragments", "KnownFragmentNamesRule", "NoUnusedFragmentsRule"]

  /** The longer exclusion list of the relay dialect, across graphql versions. */
  const RelayExcludedNames: seq<string> :=
    ["KnownDirectives", "KnownFragmentNames", "NoUndefinedVariables", "NoUnusedFragments",
     "NoUnusedVariables", "KnownDirectivesRule", "KnownFragmentNamesRule",
     "NoUndefinedVariablesRule", "NoUnusedFragmentsRule", "NoUnusedVariablesRule",
     "ProvidedNonNullArguments", "ProvidedRequiredArguments", "ScalarLeafs",
     "ProvidedRequiredArgumentsRule", "ScalarLeafsRule"]

  function ExcludedNames(env: Env): seq<string>
  {
    if env == Relay then RelayExcludedNames else FragmentRuleNames
  }

  /** lodash `without`: every element of `xs` that is not listed in `excluded`, in order. */
  function Without(xs: seq<string>, excluded: seq<string>): (r: seq<string>)
    ensures |r| <= |xs|
    ensures forall x :: x in r <==> x in xs && x !in excluded
  {
    if xs == [] then []
    else if xs[0] in excluded then Without(xs[1..], excluded)
    else [xs[0]] + Without(xs[1..], excluded)
  }

  /** `without` keeps the order: it distributes over concatenation. */
  lemma {:induction false} WithoutConcat(a: seq<string>, b: seq<string>, excluded: seq<string>)
    ensures Without(a + b, excluded) == Without(a, excluded) + Without(b, excluded)
  {
    if a == [] {
      assert a + b == b;
    } else {
      assert (a + b)[0] == a[0];
      assert (a + b)[1..] == a[1..] + b;
      WithoutConcat(a[1..], b, excluded);
    }
  }

  /** A list with nothing to remove comes back unchanged. */
  lemma {:induction false} WithoutNothing(xs: seq<string>, excluded: seq<string>)
    requires forall x :: x in xs ==> x !in excluded
    ensures Without(xs, excluded) == xs
  {
    if xs != [] {
      WithoutNothing(xs[1..], excluded);
    }
  }

  /** `envGraphQLValidatorNames[env]`: all validator names minus the environment's exclusions. */
  function EnvGraphQLValidatorNames(env: Env, allNames: seq<string>): (r: seq<string>)
    ensures forall x :: x in r <==> x in allNames && x !in ExcludedNames(env)
  {
    Without(allNames, ExcludedNames(env))
  }

  /** Relay removes everything the other dialects remove, and more. */
  lemma RelayExcludesMost(env: Env)
    requires env != Relay
    ensures forall x :: x in ExcludedNames(env) ==> x in ExcludedNames(Relay)
    ensures "KnownDirectives" in ExcludedNames(Relay) && "KnownDirectives" !in ExcludedNames(env)
  {
  }

  /** Hence relay's default validators are a subset of every other dialect's. */
  lemma RelayRunsFewest(env: Env, allNames: seq<string>)
    ensures forall x :: x in EnvGraphQLValidatorNames(Relay, allNames) ==> x in EnvGraphQLValidatorNames(env, allNames)
  {
    if env != Relay {
      RelayExcludesMost(env);
    }
  }

  // ---------------------------------------------------------------------
  // Option groups and their resolution
  // ---------------------------------------------------------------------

  /** An introspection result passed inline; its content is not modelled. */
  datatype SchemaJson = SchemaJson(handle: string)

  /** A realised schema, produced by the schema loaders; its content is not modelled. */
  datatype Schema = Schema(handle: string)

  /** The `validators` option: the string `"all"` or a list of rule names. */
  datatype ValidatorsOption = AllValidators | ValidatorList(names: seq<string>)

  /** One raw option group, as configured for one rule. */
  datatype OptionGroup = OptionGroup(
    schemaJson: Option<SchemaJson>,
    schemaJsonFilepath: Option<string>,
    schemaString: Option<string>,
    env: Option<string>,
    projectName: Option<string>,
    tagName: Option<string>,
    validators: Option<ValidatorsOption>,
    requiredFields: Option<seq<string>>)

  /** Where the schema of an option group comes from. */
  datatype SchemaSource =
    | FromJson(json: SchemaJson)
    | FromFile(path: string)
    | FromString(sdl: string)
    | FromConfig(projectName: Option<string>)

  /**
   * The schema source chosen for a group: the inline object, else a
   * non-empty file path, else a non-empty SDL string, else the config file
   * (for the named project when a non-empty project name is given).
   */
  function SchemaSourceOf(g: OptionGroup): (s: SchemaSource)
    ensures g.schemaJson.Some? ==> s == FromJson(g.schemaJson.value)
    ensures s.FromFile? <==> g.schemaJson.None? && Truthy(g.schemaJsonFilepath)
    ensures s.FromString? <==> g.schemaJson.None? && !Truthy(g.schemaJsonFilepath) && Truthy(g.schemaString)
    ensures g.schemaJson.None? && !Truthy(g.schemaJsonFilepath) && !Truthy(g.schemaString) ==>
      s == FromConfig(if Truthy(g.projectName) then g.projectName else None)
    ensures s.FromFile? ==> s.path == g.schemaJsonFilepath.value
    ensures s.FromString? ==> s.sdl == g.schemaString.value
  {
    if g.schemaJson.Some? then FromJson(g.schemaJson.value)
    else if Truthy(g.schemaJsonFilepath) then FromFile(g.schemaJsonFilepath.value)
    else if Truthy(g.schemaString) then FromString(g.schemaString.value)
    else FromConfig(if Truthy(g.projectName) then g.projectName else None)
  }

  /**
   * The options below the chosen source are never consulted: two groups that
   * agree on the options up to and including the chosen one choose the same
   * source, whatever their later options say.
   */
  lemma SchemaSourceIgnoresLaterOptions(g: OptionGroup, h: OptionGroup)
    requires g.schemaJson == h.schemaJson
    requires !SchemaSourceOf(g).FromJson? ==> g.schemaJsonFilepath == h.schemaJsonFilepath
    requires SchemaSourceOf(g).FromString? || SchemaSourceOf(g).FromConfig? ==> g.schemaString == h.schemaString
    requires SchemaSourceOf(g).FromConfig? ==> g.projectName == h.projectName
    ensures SchemaSourceOf(h) == SchemaSourceOf(g)
  {
  }

  /**
   * What the schema loaders answer: a schema (absent when the config file has
   * no project for the linted file), no config file at all, or another error.
   */
  datatype LoadResult = Loaded(schema: Option<Schema>) | ConfigNotFound | LoadFailed(message: string)

  const MissingConfigMessage: string :=
    "Must provide GraphQL Config file or pass in `schemaJson` option with schema object or `schemaJsonFilepath` with absolute path to the json file."

  const InvalidEnvMessage: string :=
    "Invalid option for env, only `apollo`, `lokka`, `fraql`, `relay`, and `literal` supported."

  /** The env check: an absent or empty env passes, otherwise it must name a dialect. */
  predicate ValidEnv(env: Option<string>)
  {
    !Truthy(env) || ParseEnv(env.value).Some?
  }

  /**
   * The tag name: an explicit non-empty option, else `Relay.QL` for relay,
   * else the internal tag for literal, else `gql`. Never empty.
   */
  function DefaultTagName(tagNameOption: Option<string>, env: Option<string>): (r: string)
    ensures r != ""
    ensures Truthy(tagNameOption) ==> r == tagNameOption.value
    ensures !Truthy(tagNameOption) && env == Some("relay") ==> r == "Relay.QL"
    ensures !Truthy(tagNameOption) && env == Some("literal") ==> r == InternalTag
    ensures !Truthy(tagNameOption) && env != Some("relay") && env != Some("literal") ==> r == "gql"
  {
    if Truthy(tagNameOption) then tagNameOption.value
    else if env == Some("relay") then "Relay.QL"
    else if env == Some("literal") then InternalTag
    else "gql"
  }

  /**
   * The validator names: every built-in name for `"all"`, an explicit list as
   * given, otherwise the environment's table, or every name when the
   * environment has no table.
   */
  function SelectValidatorNames(option: Option<ValidatorsOption>, env: Option<string>,
                                allNames: seq<string>): (r: seq<string>)
    ensures option == Some(AllValidators) ==> r == allNames
    ensures option.Some? && option.value.ValidatorList? ==> r == option.value.names
    ensures option.None? && env.Some? && ParseEnv(env.value).Some? ==>
      r == EnvGraphQLValidatorNames(ParseEnv(env.value).value, allNames)
    ensures option.None? && env.Some? && ParseEnv(env.value).Some? ==>
      forall x :: x in r <==> x in allNames && x !in ExcludedNames(ParseEnv(env.value).value)
    ensures option.None? && (env.None? || ParseEnv(env.value).None?) ==> r == allNames
  {
    match option
    case Some(AllValidators) => allNames
    case Some(ValidatorList(names)) => names
    case None =>
      if env.Some? && ParseEnv(env.value).Some? then EnvGraphQLValidatorNames(ParseEnv(env.value).value, allNames)
      else allNames
  }

  /** The custom rules this plugin defines, looked up by name before the built-in catalogue. */
  const CustomRuleNames: set<string> :=
    {"OperationsMustHaveNames", "RequiredFields", "typeNamesShouldBeCapitalized", "noDeprecatedFields"}

  /** A bound validation rule: one of this plugin's rules or a built-in graphql rule. */
  datatype Validator = CustomRule(name: string) | BuiltInRule(name: string)

  /** A name present among the custom rules resolves to the custom rule, never the built-in one. */
  function ResolveValidator(name: string): (v: Validator)
    ensures v.name == name
    ensures v.CustomRule? <==> name in CustomRuleNames
  {
    if name in CustomRuleNames then CustomRule(name) else BuiltInRule(name)
  }

  /** Binds every selected name, keeping the order of the names. */
  function ResolveValidators(names: seq<string>): (vs: seq<Validator>)
    ensures |vs| == |names|
    ensures forall i :: 0 <= i < |names| ==> vs[i] == ResolveValidator(names[i])
  {
    if names == [] then [] else [ResolveValidator(names[0])] + ResolveValidators(names[1..])
  }

  /** The resolved form of an option group. */
  datatype ResolvedConfig = ResolvedConfig(
    schema: Option<Schema>, env: Option<string>, tagName: string, validators: seq<Validator>)

  /** `res` carries the group's env, its default-resolved tag name and its validators. */
  ghost predicate Resolves(g: OptionGroup, res: ResolvedConfig, allNames: seq<string>)
  {
    && ValidEnv(g.env)
    && res.env == g.env
    && res.tagName == DefaultTagName(g.tagName, g.env)
    && res.validators == ResolveValidators(SelectValidatorNames(g.validators, g.env, allNames))
  }

  /**
   * The option parser with its process-wide cache. The cache is keyed by the
   * option group itself, standing for its JSON serialisation.
   */
  class OptionsResolver {
    /** The names of graphql's built-in validation rules. */
    const allValidatorNames: seq<string>
    var schemaCache: map<OptionGroup, ResolvedConfig>

    /** Every cached entry is a resolution of its own key. */
    ghost predicate Valid()
      reads this
    {
      forall g :: g in schemaCache ==> Resolves(g, schemaCache[g], allValidatorNames)
    }

    constructor (allNames: seq<string>)
      ensures Valid()
      ensures allValidatorNames == allNames && schemaCache == map[]
    {
      allValidatorNames := allNames;
      schemaCache := map[];
    }

    /**
     * parseOptions: a cached group is answered from the cache unless its env
     * is `literal`; otherwise the schema is loaded from the chosen source,
     * the env is checked, the tag name and the validators are chosen, and the
     * result is stored under the group. The `load` parameter answers for the
     * schema loaders.
     */
    method ParseOptions(group: OptionGroup, load: SchemaSource -> LoadResult)
      returns (r: Result<ResolvedConfig>)
      requires Valid()
      modifies this
      ensures Valid()
      ensures r.Ok? ==> Resolves(group, r.value, allValidatorNames)
      ensures group in old(schemaCache) && group.env != Some("literal") ==>
        r == Ok(old(schemaCache)[group]) && schemaCache == old(schemaCache)
      ensures !(group in old(schemaCache) && group.env != Some("literal")) ==>
        match load(SchemaSourceOf(group))
        case ConfigNotFound =>
          r == Err(MissingConfigMessage) && schemaCache == old(schemaCache)
        case LoadFailed(m) =>
          r == Err(m) && schemaCache == old(schemaCache)
        case Loaded(schema) =>
          if SchemaSourceOf(group).FromConfig? && group in old(schemaCache) then
            r == Ok(old(schemaCache)[group].(schema := schema)) && schemaCache == old(schemaCache)
          else if !ValidEnv(group.env) then
            r == Err(InvalidEnvMessage) && schemaCache == old(schemaCache)
          else
            && r == Ok(ResolvedConfig(schema, group.env, DefaultTagName(group.tagName, group.env),
                                      ResolveValidators(SelectValidatorNames(group.validators, group.env, allValidatorNames))))
            && schemaCache == old(schemaCache)[group := r.value]
    {
      var cacheHit: Option<ResolvedConfig> := if group in schemaCache then Some(schemaCache[group]) else None;
      if cacheHit.Some? && group.env != Some("literal") {
        return Ok(cacheHit.value);
      }

      // Validate and unpack the schema.
      var source := SchemaSourceOf(group);
      var schema: Option<Schema>;
      match load(source) {
        case ConfigNotFound =>
          return Err(MissingConfigMessage);
        case LoadFailed(m) =>
          return Err(m);
        case Loaded(s) =>
          schema := s;
      }
      if source.FromConfig? && cacheHit.Some? {
        return Ok(cacheHit.value.(schema := schema));
      }

      // Validate env.
      if Truthy(group.env) && ParseEnv(group.env.value).None? {
        return Err(InvalidEnvMessage);
      }

      // Tag name, with its defaults; validator names: "all", an explicit list, or the env's defaults.
      var tagName := DefaultTagName(group.tagName, group.env);
      var validatorNames := SelectValidatorNames(group.validators, group.env, allValidatorNames);

      var results := ResolvedConfig(schema, group.env, tagName, ResolveValidators(validatorNames));
      schemaCache := schemaCache[group := results];
      r := Ok(results);
    }
  }
}
