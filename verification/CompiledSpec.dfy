/** A declared secret's settings and what they are compiled to once, for planning, graph checks and code generation. */
module CompiledSpec {
  import opened Prelude
  import Composition

  datatype MissingPolicy = Error | Omit | UseDefault | Generate | Prompt

  predicate GuaranteedOnSuccess(p: MissingPolicy) {
    p != Omit
  }

  /** The settings of an effective secret; credentials are the secrets bound to its roles. */
  datatype Secret = Secret(
    required: Option<bool>, default: Option<string>, prompt: Option<bool>, generates: bool,
    atLeastOne: seq<string>, exactlyOne: seq<string>, asPath: Option<bool>, description: Option<string>,
    composed: Option<string>, from: Option<string>, credentials: seq<string>)

  datatype CompiledSecret = CompiledSecret(
    config: Secret, missing: MissingPolicy, declaredRequired: bool, composition: Option<Composition.Template>)

  /** Membership in a presence group replaces the implicit requirement; a template that does not parse compiles to none. */
  function Compile(config: Secret): CompiledSecret {
    var conditionallyRequired := config.atLeastOne != [] || config.exactlyOne != [];
    var declaredRequired :=
      if config.required.Some? then config.required.value else config.default.None? && !conditionallyRequired;
    var missing :=
      if config.prompt == Some(true) then Prompt
      else if config.generates then Generate
      else if config.default.Some? then UseDefault
      else if declaredRequired then Error
      else Omit;
    var composition :=
      if config.composed.None? then None
      else
        var parsed := Composition.Parse(config.composed.value);
        if parsed.Ok? then Some(parsed.value) else None;
    CompiledSecret(config, missing, declaredRequired, composition)
  }

  /** What happens when a secret has no stored value: prompting, generating, the default, failing, leaving it out. */
  lemma MissingExactly(config: Secret)
    ensures var c := Compile(config);
            && (c.missing == Prompt <==> config.prompt == Some(true))
            && (c.missing == Generate <==> config.prompt != Some(true) && config.generates)
            && (c.missing == UseDefault <==> config.prompt != Some(true) && !config.generates && config.default.Some?)
            && (c.missing == Error ==> c.declaredRequired) && (c.missing == Omit ==> !c.declaredRequired)
            && (c.declaredRequired <==>
                  config.required == Some(true) ||
                  (config.required.None? && config.default.None? && config.atLeastOne == [] && config.exactlyOne == []))
            && c.config == config
  {
  }

  /** A secret may be absent from a successful resolution only if nothing supplies it and nothing requires it. */
  lemma OmittedExactlyWhenOptional(config: Secret)
    ensures !GuaranteedOnSuccess(Compile(config).missing) <==>
              && config.prompt != Some(true) && !config.generates && config.default.None?
              && (config.required == Some(false) ||
                  (config.required.None? && (config.atLeastOne != [] || config.exactlyOne != [])))
  {
  }

  /** The settings name `d`: as a reference of a template that parses, as the source, or as a credential. */
  predicate Names(config: Secret, d: string) {
    || (config.composed.Some? && Composition.Parse(config.composed.value).Ok?
        && Composition.Reference(d) in Composition.Parse(config.composed.value).value.parts)
    || config.from == Some(d)
    || d in config.credentials
  }

  /** Every secret that must resolve first: template references, the source, the credentials. */
  function Dependencies(s: CompiledSecret): seq<string> {
    (if s.composition.Some? then s.composition.value.dependencies else [])
    + (if s.config.from.Some? then [s.config.from.value] else [])
    + s.config.credentials
  }

  /** The compiled dependencies are exactly what the settings name. */
  lemma DependenciesExactly(config: Secret, d: string)
    ensures d in Dependencies(Compile(config)) <==> Names(config, d)
  {
    if config.composed.Some? && Composition.Parse(config.composed.value).Ok? {
      Composition.ParsedIsCanonical(config.composed.value);
    }
  }
}
