/**
 * ProcessingEnvironmentCompilerOptions: the options object the processor queries. It reads
 * the raw options once per enum option, caches each parsed value, and hands every diagnostic
 * to the messager, which is modelled as the sequence of messages reported so far.
 */
module CompilerOptions {
  import opened Wrappers
  import opened CaseFormat
  import opened Registry
  import opened Resolver

  /** isEnabled(KeyOnlyOption): the presence of the option's literal key alone turns it on. */
  function KeyOnlyEnabled(raw: RawOptions, k: KeyOnlyOption): (enabled: bool)
    ensures k == HEADER_COMPILATION ==> (enabled <==> "experimental_turbine_hjar" in raw)
    ensures k == USE_GRADLE_INCREMENTAL_PROCESSING ==> (enabled <==> "dagger.gradle.incremental" in raw)
  {
    k.Key() in raw
  }

  /** isEnabled(Feature): the feature resolves to ENABLED. */
  function FeatureEnabled(raw: RawOptions, f: Feature): bool
  {
    FeatureResolution(raw, f).value == ENABLED
  }

  /** diagnosticKind(Validation), for a validation that cannot resolve to NONE. */
  function ValidationKind(raw: RawOptions, v: Validation): (kind: DiagnosticKind)
    requires NONE !in v.ValidValues()
    ensures ValidationResolution(raw, v).value != NONE
    ensures kind == Error <==> ValidationResolution(raw, v).value == ERROR
    ensures kind == Warning <==> ValidationResolution(raw, v).value == WARNING
  {
    var t := ValidationResolution(raw, v).value;
    assert t in v.ValidValues();
    t.DiagnosticKind().value
  }

  /** A key-only option is on whatever its value says, even "false" or no value at all. */
  lemma KeyOnlyEnabledIgnoresValue(raw: RawOptions, k: KeyOnlyOption, value: Option<string>)
    ensures KeyOnlyEnabled(raw[k.Key() := value], k)
    ensures !KeyOnlyEnabled(raw - {k.Key()}, k)
  {
  }

  /** The two status names are the only accepted feature values. */
  lemma FeatureAccepts(f: Feature, u: string)
    ensures Accepts(f.AsEnumOption(), u) <==> u == "ENABLED" || u == "DISABLED"
  {
    var o := f.AsEnumOption();
    if u == "ENABLED" {
      assert o.declaringClass.name(ENABLED) == u;
    } else if u == "DISABLED" {
      assert o.declaringClass.name(DISABLED) == u;
    }
  }

  /**
   * A feature is on exactly when its value reads ENABLED in any ASCII case, or when it is on by
   * default and its value does not read DISABLED (absent, without a value, or invalid).
   */
  lemma FeatureEnabledIff(raw: RawOptions, f: Feature)
    ensures var given := f.Key() in raw && raw[f.Key()].Some?;
            FeatureEnabled(raw, f) <==>
              (given && AsciiToUpperCase(raw[f.Key()].value) == "ENABLED") ||
              (f.DefaultValue() == ENABLED && !(given && AsciiToUpperCase(raw[f.Key()].value) == "DISABLED"))
  {
    var o := f.AsEnumOption();
    if f.Key() in raw && raw[f.Key()].Some? {
      FeatureAccepts(f, AsciiToUpperCase(raw[f.Key()].value));
    }
  }

  /** The nullable, private-member, static-member and module-scope validations report as warnings exactly when told so. */
  lemma ValidationKindIsWarningIff(raw: RawOptions, v: Validation)
    requires v in {NULLABLE_VALIDATION, PRIVATE_MEMBER_VALIDATION, STATIC_MEMBER_VALIDATION,
                   MODULE_HAS_DIFFERENT_SCOPES_VALIDATION}
    ensures NONE !in v.ValidValues()
    ensures ValidationKind(raw, v) == Warning <==>
              v.Key() in raw && raw[v.Key()].Some? && AsciiToUpperCase(raw[v.Key()].value) == "WARNING"
  {
    assert v.DefaultValue() == ERROR && v.MoreValidTypes() == [WARNING];
    ResolvesToWarningIff(raw, v.AsEnumOption());
  }

  /** An ERROR-default validation resolves to WARNING exactly when its value reads WARNING. */
  lemma ResolvesToWarningIff(raw: RawOptions, o: EnumOption<ValidationType>)
    requires o.WellFormed() && o.declaringClass == ValidationTypeClass
    requires o.defaultValue == ERROR && WARNING in o.validValues
    ensures Resolve(raw, o).value == WARNING <==>
              o.key in raw && raw[o.key].Some? && AsciiToUpperCase(raw[o.key].value) == "WARNING"
  {
    if o.key in raw && raw[o.key].Some? && AsciiToUpperCase(raw[o.key].value) == "WARNING" {
      assert o.declaringClass.name(WARNING) == "WARNING";
    }
  }

  /** The value each feature and each validation resolves to. */
  function FeatureValues(raw: RawOptions): Feature -> FeatureStatus
  {
    f => FeatureResolution(raw, f).value
  }

  function ValidationValues(raw: RawOptions): Validation -> ValidationType
  {
    v => ValidationResolution(raw, v).value
  }

  /** A stand-in for javax.lang.model's TypeElement: only its name. */
  datatype TypeElement = TypeElement(qualifiedName: string)

  class ProcessingEnvironmentCompilerOptions {
    /** processingEnvironment.getOptions(). */
    const options: RawOptions
    /** What resolving each feature and each validation against the options gives. */
    ghost const featureValue: Feature -> FeatureStatus
    ghost const featureReports: Feature -> seq<Message>
    ghost const validationValue: Validation -> ValidationType
    ghost const validationReports: Validation -> seq<Message>
    /** The enumOptions cache, split by option type. */
    var featureCache: map<Feature, FeatureStatus>
    var validationCache: map<Validation, ValidationType>
    /** Everything handed to the messager so far, in order. */
    var messages: seq<Message>

    /** The ghost resolutions are those of the options. */
    ghost predicate Resolves()
    {
      (forall f {:trigger FeatureResolution(options, f)} ::
         FeatureResolution(options, f) == Parsed(featureValue(f), featureReports(f))) &&
      (forall v {:trigger ValidationResolution(options, v)} ::
         ValidationResolution(options, v) == Parsed(validationValue(v), validationReports(v)))
    }

    /** Every cached value is the one that resolving its option gives. */
    ghost predicate Valid()
      reads this
    {
      Resolves() &&
      (forall f :: f in featureCache ==> featureCache[f] == featureValue(f)) &&
      (forall v :: v in validationCache ==> validationCache[v] == validationValue(v))
    }

    /** Every feature and every validation has been parsed. */
    ghost predicate AllParsed()
      reads this
    {
      (forall f: Feature :: f in featureCache) && (forall v: Validation :: v in validationCache)
    }

    /** parseOption(feature) has run: f is cached, and it reported only if it was not cached before. */
    twostate predicate FeatureParsed(f: Feature)
      reads this
    {
      featureCache == old(featureCache)[f := featureValue(f)] && validationCache == old(validationCache) &&
      messages == old(messages) + (if f in old(featureCache) then [] else featureReports(f))
    }

    /** parseOption(validation) has run: v is cached, and it reported only if it was not cached before. */
    twostate predicate ValidationParsed(v: Validation)
      reads this
    {
      validationCache == old(validationCache)[v := validationValue(v)] && featureCache == old(featureCache) &&
      messages == old(messages) + (if v in old(validationCache) then [] else validationReports(v))
    }

    /**
     * A new object over the options, with nothing parsed and nothing reported. The ghost
     * parameters are the options' resolutions, which the caches will be checked against.
     */
    constructor (options: RawOptions, ghost featureValue: Feature -> FeatureStatus,
                 ghost featureReports: Feature -> seq<Message>, ghost validationValue: Validation -> ValidationType,
                 ghost validationReports: Validation -> seq<Message>)
      requires forall f {:trigger FeatureResolution(options, f)} ::
                 FeatureResolution(options, f) == Parsed(featureValue(f), featureReports(f))
      requires forall v {:trigger ValidationResolution(options, v)} ::
                 ValidationResolution(options, v) == Parsed(validationValue(v), validationReports(v))
      ensures Valid()
      ensures this.options == options
      ensures this.featureValue == featureValue && this.featureReports == featureReports
      ensures this.validationValue == validationValue && this.validationReports == validationReports
      ensures featureCache == map[] && validationCache == map[] && messages == []
    {
      this.options := options;
      this.featureValue := featureValue;
      this.featureReports := featureReports;
      this.validationValue := validationValue;
      this.validationReports := validationReports;
      featureCache := map[];
      validationCache := map[];
      messages := [];
    }

    /**
     * create(): a new options object whose check has run; it has reported exactly the validity
     * diagnostics of its options and holds every enum option parsed.
     */
    static method Create(options: RawOptions) returns (c: ProcessingEnvironmentCompilerOptions)
      ensures fresh(c) && c.options == options && c.Valid() && c.AllParsed()
      ensures c.messages == CreateDiagnostics(options)
    {
      FeaturesResolveAs(options, FeatureValues(options), FeatureReports(options));
      ValidationsResolveAs(options, ValidationValues(options), ValidationReports(options));
      c := new ProcessingEnvironmentCompilerOptions(options, FeatureValues(options), FeatureReports(options),
                                                    ValidationValues(options), ValidationReports(options));
      ghost var m0, seenFeatures, seenValidations := c.messages, c.featureCache.Keys, c.validationCache.Keys;
      c.CheckValid();
      FromEmpty(m0, c.messages, seenFeatures, AllFeatures(), c.featureReports, FeatureReports(options),
                seenValidations, AllValidations(), c.validationReports, ValidationReports(options),
                DeprecationWarnings(options));
    }

    /**
     * Queries made after create() read the cache: they answer from the options and report
     * nothing beyond what the check already did.
     */
    static method QueriesAfterCreate(options: RawOptions)
      returns (c: ProcessingEnvironmentCompilerOptions, fastInit: bool, nullableKind: DiagnosticKind,
               moduleBinding: ValidationType)
      ensures fastInit == FeatureEnabled(options, FAST_INIT)
      ensures nullableKind == ValidationKind(options, NULLABLE_VALIDATION)
      ensures moduleBinding == ValidationResolution(options, MODULE_BINDING_VALIDATION).value
      ensures c.messages == CreateDiagnostics(options)
    {
      c := Create(options);
      fastInit := c.FastInit();
      nullableKind := c.NullableValidationKind();
      moduleBinding := c.ModuleBindingValidationType(TypeElement("Module"));
    }

    /** parseOptionUncached: resolve o, reporting a missing or invalid value to the messager. */
    method ParseOptionUncached<E(==)>(o: EnumOption<E>) returns (value: E)
      requires o.WellFormed()
      modifies this`messages
      ensures value == Resolve(options, o).value
      ensures messages == old(messages) + Resolve(options, o).diagnostics
    {
      var key := o.key;
      if key in options {
        match options[key]
        case None =>
          messages := messages + [Message(Error, key, NeedsValue)];
        case Some(stringValue) =>
          var parsed := o.declaringClass.ValueOf(AsciiToUpperCase(stringValue));
          if parsed.Some? && parsed.value in o.validValues {
            return parsed.value;
          }
          messages := messages + [Message(Error, key, InvalidValue(ValidNames(o), stringValue))];
      }
      value := o.defaultValue;
    }

    /** parseOption(feature): the cached value, or the resolved one, cached on first use. */
    method ParseFeature(f: Feature) returns (value: FeatureStatus)
      requires Valid()
      modifies this`featureCache, this`messages
      ensures Valid() && FeatureParsed(f)
      ensures value == featureValue(f)
    {
      if f in featureCache {
        value := featureCache[f];
        UpdateSame(featureCache, f, value);
      } else {
        value := ParseOptionUncached(f.AsEnumOption());
        assert FeatureResolution(options, f) == Parsed(featureValue(f), featureReports(f));
        featureCache := featureCache[f := value];
      }
    }

    /** parseOption(validation): the cached value, or the resolved one, cached on first use. */
    method ParseValidation(v: Validation) returns (value: ValidationType)
      requires Valid()
      modifies this`validationCache, this`messages
      ensures Valid() && ValidationParsed(v)
      ensures value == validationValue(v)
    {
      if v in validationCache {
        value := validationCache[v];
        UpdateSame(validationCache, v, value);
      } else {
        value := ParseOptionUncached(v.AsEnumOption());
        assert ValidationResolution(options, v) == Parsed(validationValue(v), validationReports(v));
        validationCache := validationCache[v := value];
      }
    }

    /** isEnabled(KeyOnlyOption): reads the options only; it never parses or reports. */
    function IsKeyOnlyEnabled(k: KeyOnlyOption): bool
    {
      KeyOnlyEnabled(options, k)
    }

    /** isEnabled(Feature). */
    method IsEnabled(f: Feature) returns (enabled: bool)
      requires Valid()
      modifies this`featureCache, this`messages
      ensures Valid() && FeatureParsed(f)
      ensures enabled == FeatureEnabled(options, f)
    {
      var status := ParseFeature(f);
      enabled := status == ENABLED;
      assert FeatureResolution(options, f) == Parsed(featureValue(f), featureReports(f));
    }

    /** diagnosticKind(Validation): only called for validations that NONE is not valid for. */
    method DiagnosticKindOf(v: Validation) returns (kind: DiagnosticKind)
      requires Valid() && NONE !in v.ValidValues()
      modifies this`validationCache, this`messages
      ensures Valid() && ValidationParsed(v)
      ensures kind == ValidationKind(options, v)
    {
      var t := ParseValidation(v);
      assert ValidationResolution(options, v) == Parsed(validationValue(v), validationReports(v));
      var k := t.DiagnosticKind();
      kind := k.value;
    }

    /** parseOption(validation), stated against the options: the value the validation resolves to. */
    method ValidationTypeOf(v: Validation) returns (t: ValidationType)
      requires Valid()
      modifies this`validationCache, this`messages
      ensures Valid() && ValidationParsed(v)
      ensures t == ValidationResolution(options, v).value
    {
      t := ParseValidation(v);
      assert ValidationResolution(options, v) == Parsed(validationValue(v), validationReports(v));
    }

    /** noLongerRecognized: a warning when the retired option's key is present at all. */
    method NoLongerRecognized(f: Feature)
      modifies this`messages
      ensures messages == old(messages) + DeprecationWarning(options, f)
    {
      if f.Key() in options {
        messages := messages + [Message(Warning, f.Key(), MessageBody.NoLongerRecognized)];
      }
    }

    /** The key-only loop of checkValid: each option's key is looked up, with no effect. */
    method CheckKeyOnlyOptions(keyOnlyOptions: seq<KeyOnlyOption>)
    {
      for i := 0 to |keyOnlyOptions| {
        var enabled := IsKeyOnlyEnabled(keyOnlyOptions[i]);
      }
    }

    /** The feature loop of checkValid: parse each feature in order, through the cache. */
    method ParseFeatures(features: seq<Feature>)
      requires Valid()
      modifies this`featureCache, this`messages
      ensures Valid()
      ensures forall f :: f in featureCache <==> f in old(featureCache) || f in features
      ensures messages == old(messages) + PassDiagnostics(old(featureCache).Keys, features, featureReports)
    {
      ghost var seen := featureCache.Keys;
      for i := 0 to |features|
        invariant Valid()
        invariant forall f :: f in featureCache <==> f in seen || f in features[..i]
        invariant messages == old(messages) + PassDiagnostics(seen, features[..i], featureReports)
      {
        ghost var log, cached := messages, features[i] in featureCache;
        var _ := ParseFeature(features[i]);
        PassExtend(old(messages), log, messages, seen, features, featureReports, i, cached);
        PrefixStep(features, i);
      }
      PrefixAll(features);
    }

    /** The validation loop of checkValid: parse each validation in order, through the cache. */
    method ParseValidations(validations: seq<Validation>)
      requires Valid()
      modifies this`validationCache, this`messages
      ensures Valid()
      ensures forall v :: v in validationCache <==> v in old(validationCache) || v in validations
      ensures messages == old(messages) + PassDiagnostics(old(validationCache).Keys, validations, validationReports)
    {
      ghost var seen := validationCache.Keys;
      for i := 0 to |validations|
        invariant Valid()
        invariant forall v :: v in validationCache <==> v in seen || v in validations[..i]
        invariant messages == old(messages) + PassDiagnostics(seen, validations[..i], validationReports)
      {
        ghost var log, cached := messages, validations[i] in validationCache;
        var _ := ParseValidation(validations[i]);
        PassExtend(old(messages), log, messages, seen, validations, validationReports, i, cached);
        PrefixStep(validations, i);
      }
      PrefixAll(validations);
    }

    /**
     * checkValid: parse every key-only option, feature and validation in declaration order,
     * then warn about the two retired features.
     */
    method CheckValid()
      requires Valid()
      modifies this`featureCache, this`validationCache, this`messages
      ensures Valid() && AllParsed()
      ensures messages == old(messages) +
                          PassDiagnostics(old(featureCache).Keys, AllFeatures(), featureReports) +
                          PassDiagnostics(old(validationCache).Keys, AllValidations(), validationReports) +
                          DeprecationWarnings(options)
    {
      ghost var log0 := messages;
      CheckKeyOnlyOptions(AllKeyOnlyOptions());
      ParseFeatures(AllFeatures());
      ghost var features := PassDiagnostics(old(featureCache).Keys, AllFeatures(), featureReports);
      ParseValidations(AllValidations());
      ghost var validations := PassDiagnostics(old(validationCache).Keys, AllValidations(), validationReports);
      ghost var log2 := messages;
      NoLongerRecognized(EXPERIMENTAL_ANDROID_MODE);
      NoLongerRecognized(FLOATING_BINDS_METHODS);
      LogOfCheck(log0, features, validations, log2, DeprecationWarning(options, EXPERIMENTAL_ANDROID_MODE),
                 DeprecationWarning(options, FLOATING_BINDS_METHODS), messages);
      EveryOptionCached(featureCache, validationCache);
    }

    /** headerCompilation(): set by the experimental_turbine_hjar key, whatever its value. */
    function HeaderCompilation(): (enabled: bool)
      ensures enabled <==> "experimental_turbine_hjar" in options
    {
      IsKeyOnlyEnabled(HEADER_COMPILATION)
    }

    /** useGradleIncrementalProcessing(): set by the dagger.gradle.incremental key, whatever its value. */
    function UseGradleIncrementalProcessing(): (enabled: bool)
      ensures enabled <==> "dagger.gradle.incremental" in options
    {
      IsKeyOnlyEnabled(USE_GRADLE_INCREMENTAL_PROCESSING)
    }

    /** fastInit(). */
    method FastInit() returns (enabled: bool)
      requires Valid()
      modifies this`featureCache, this`messages
      ensures Valid() && FeatureParsed(FAST_INIT)
      ensures enabled == FeatureEnabled(options, FAST_INIT)
    {
      enabled := IsEnabled(FAST_INIT);
    }

    /** formatGeneratedSource(). */
    method FormatGeneratedSource() returns (enabled: bool)
      requires Valid()
      modifies this`featureCache, this`messages
      ensures Valid() && FeatureParsed(FORMAT_GENERATED_SOURCE)
      ensures enabled == FeatureEnabled(options, FORMAT_GENERATED_SOURCE)
    {
      enabled := IsEnabled(FORMAT_GENERATED_SOURCE);
    }

    /** writeProducerNameInToken(). */
    method WriteProducerNameInToken() returns (enabled: bool)
      requires Valid()
      modifies this`featureCache, this`messages
      ensures Valid() && FeatureParsed(WRITE_PRODUCER_NAME_IN_TOKEN)
      ensures enabled == FeatureEnabled(options, WRITE_PRODUCER_NAME_IN_TOKEN)
    {
      enabled := IsEnabled(WRITE_PRODUCER_NAME_IN_TOKEN);
    }

    /** ignorePrivateAndStaticInjectionForComponent(). */
    method IgnorePrivateAndStaticInjectionForComponent() returns (enabled: bool)
      requires Valid()
      modifies this`featureCache, this`messages
      ensures Valid() && FeatureParsed(IGNORE_PRIVATE_AND_STATIC_INJECTION_FOR_COMPONENT)
      ensures enabled == FeatureEnabled(options, IGNORE_PRIVATE_AND_STATIC_INJECTION_FOR_COMPONENT)
    {
      enabled := IsEnabled(IGNORE_PRIVATE_AND_STATIC_INJECTION_FOR_COMPONENT);
    }

    /** warnIfInjectionFactoryNotGeneratedUpstream(). */
    method WarnIfInjectionFactoryNotGeneratedUpstream() returns (enabled: bool)
      requires Valid()
      modifies this`featureCache, this`messages
      ensures Valid() && FeatureParsed(WARN_IF_INJECTION_FACTORY_NOT_GENERATED_UPSTREAM)
      ensures enabled == FeatureEnabled(options, WARN_IF_INJECTION_FACTORY_NOT_GENERATED_UPSTREAM)
    {
      enabled := IsEnabled(WARN_IF_INJECTION_FACTORY_NOT_GENERATED_UPSTREAM);
    }

    /** aheadOfTimeSubcomponents(). */
    method AheadOfTimeSubcomponents() returns (enabled: bool)
      requires Valid()
      modifies this`featureCache, this`messages
      ensures Valid() && FeatureParsed(EXPERIMENTAL_AHEAD_OF_TIME_SUBCOMPONENTS)
      ensures enabled == FeatureEnabled(options, EXPERIMENTAL_AHEAD_OF_TIME_SUBCOMPONENTS)
    {
      enabled := IsEnabled(EXPERIMENTAL_AHEAD_OF_TIME_SUBCOMPONENTS);
    }

    /** forceUseSerializedComponentImplementations(). */
    method ForceUseSerializedComponentImplementations() returns (enabled: bool)
      requires Valid()
      modifies this`featureCache, this`messages
      ensures Valid() && FeatureParsed(FORCE_USE_SERIALIZED_COMPONENT_IMPLEMENTATIONS)
      ensures enabled == FeatureEnabled(options, FORCE_USE_SERIALIZED_COMPONENT_IMPLEMENTATIONS)
    {
      enabled := IsEnabled(FORCE_USE_SERIALIZED_COMPONENT_IMPLEMENTATIONS);
    }

    /** emitModifiableMetadataAnnotations(). */
    method EmitModifiableMetadataAnnotations() returns (enabled: bool)
      requires Valid()
      modifies this`featureCache, this`messages
      ensures Valid() && FeatureParsed(EMIT_MODIFIABLE_METADATA_ANNOTATIONS)
      ensures enabled == FeatureEnabled(options, EMIT_MODIFIABLE_METADATA_ANNOTATIONS)
    {
      enabled := IsEnabled(EMIT_MODIFIABLE_METADATA_ANNOTATIONS);
    }

    /** nullableValidationKind(). */
    method NullableValidationKind() returns (kind: DiagnosticKind)
      requires Valid()
      modifies this`validationCache, this`messages
      ensures Valid() && ValidationParsed(NULLABLE_VALIDATION)
      ensures kind == ValidationKind(options, NULLABLE_VALIDATION)
    {
      kind := DiagnosticKindOf(NULLABLE_VALIDATION);
    }

    /** privateMemberValidationKind(). */
    method PrivateMemberValidationKind() returns (kind: DiagnosticKind)
      requires Valid()
      modifies this`validationCache, this`messages
      ensures Valid() && ValidationParsed(PRIVATE_MEMBER_VALIDATION)
      ensures kind == ValidationKind(options, PRIVATE_MEMBER_VALIDATION)
    {
      kind := DiagnosticKindOf(PRIVATE_MEMBER_VALIDATION);
    }

    /** staticMemberValidationKind(). */
    method StaticMemberValidationKind() returns (kind: DiagnosticKind)
      requires Valid()
      modifies this`validationCache, this`messages
      ensures Valid() && ValidationParsed(STATIC_MEMBER_VALIDATION)
      ensures kind == ValidationKind(options, STATIC_MEMBER_VALIDATION)
    {
      kind := DiagnosticKindOf(STATIC_MEMBER_VALIDATION);
    }

    /** moduleHasDifferentScopesDiagnosticKind(). */
    method ModuleHasDifferentScopesDiagnosticKind() returns (kind: DiagnosticKind)
      requires Valid()
      modifies this`validationCache, this`messages
      ensures Valid() && ValidationParsed(MODULE_HAS_DIFFERENT_SCOPES_VALIDATION)
      ensures kind == ValidationKind(options, MODULE_HAS_DIFFERENT_SCOPES_VALIDATION)
    {
      kind := DiagnosticKindOf(MODULE_HAS_DIFFERENT_SCOPES_VALIDATION);
    }

    /** scopeCycleValidationType(). */
    method ScopeCycleValidationType() returns (t: ValidationType)
      requires Valid()
      modifies this`validationCache, this`messages
      ensures Valid() && ValidationParsed(DISABLE_INTER_COMPONENT_SCOPE_VALIDATION)
      ensures t == ValidationResolution(options, DISABLE_INTER_COMPONENT_SCOPE_VALIDATION).value
    {
      t := ValidationTypeOf(DISABLE_INTER_COMPONENT_SCOPE_VALIDATION);
    }

    /** moduleBindingValidationType(element): the same for every element. */
    method ModuleBindingValidationType(element: TypeElement) returns (t: ValidationType)
      requires Valid()
      modifies this`validationCache, this`messages
      ensures Valid() && ValidationParsed(MODULE_BINDING_VALIDATION)
      ensures t == ValidationResolution(options, MODULE_BINDING_VALIDATION).value
    {
      t := ValidationTypeOf(MODULE_BINDING_VALIDATION);
    }

    /** explicitBindingConflictsWithInjectValidationType(). */
    method ExplicitBindingConflictsWithInjectValidationType() returns (t: ValidationType)
      requires Valid()
      modifies this`validationCache, this`messages
      ensures Valid() && ValidationParsed(EXPLICIT_BINDING_CONFLICTS_WITH_INJECT)
      ensures t == ValidationResolution(options, EXPLICIT_BINDING_CONFLICTS_WITH_INJECT).value
    {
      t := ValidationTypeOf(EXPLICIT_BINDING_CONFLICTS_WITH_INJECT);
    }
  }

  lemma FeaturesResolveAs(options: RawOptions, value: Feature -> FeatureStatus, reports: Feature -> seq<Message>)
    requires value == FeatureValues(options)
    requires reports == FeatureReports(options)
    ensures forall f {:trigger FeatureResolution(options, f)} ::
              FeatureResolution(options, f) == Parsed(value(f), reports(f))
  {
  }

  lemma ValidationsResolveAs(options: RawOptions, value: Validation -> ValidationType, reports: Validation -> seq<Message>)
    requires value == ValidationValues(options)
    requires reports == ValidationReports(options)
    ensures forall v {:trigger ValidationResolution(options, v)} ::
              ValidationResolution(options, v) == Parsed(value(v), reports(v))
  {
  }

  /** A fresh object's check: nothing logged, nothing cached, so the log is exactly the three passes. */
  lemma FromEmpty<T, U>(log0: seq<Message>, log: seq<Message>, seen: set<T>, ts: seq<T>, d: T -> seq<Message>,
                        d': T -> seq<Message>, seen': set<U>, us: seq<U>, e: U -> seq<Message>,
                        e': U -> seq<Message>, w: seq<Message>)
    requires log0 == [] && seen == {} && seen' == {} && d == d' && e == e'
    requires log == log0 + PassDiagnostics(seen, ts, d) + PassDiagnostics(seen', us, e) + w
    ensures log == PassDiagnostics({}, ts, d') + PassDiagnostics({}, us, e') + w
  {
    assert log0 + PassDiagnostics(seen, ts, d) == PassDiagnostics(seen, ts, d);
  }

  /** The log after checkValid: the two loops' passes, then both retirement warnings. */
  lemma LogOfCheck(log0: seq<Message>, features: seq<Message>, validations: seq<Message>, log2: seq<Message>,
                   android: seq<Message>, floating: seq<Message>, log: seq<Message>)
    requires log2 == log0 + features + validations
    requires log == log2 + android + floating
    ensures log == log0 + features + validations + (android + floating)
  {
  }

  /** Caches that hold everything the registries list hold every option. */
  lemma EveryOptionCached(featureCache: map<Feature, FeatureStatus>, validationCache: map<Validation, ValidationType>)
    requires forall f :: f in AllFeatures() ==> f in featureCache
    requires forall v :: v in AllValidations() ==> v in validationCache
    ensures (forall f: Feature :: f in featureCache) && (forall v: Validation :: v in validationCache)
  {
    forall f: Feature ensures f in featureCache {
      EveryFeatureIsListed(f);
    }
    forall v: Validation ensures v in validationCache {
      EveryValidationIsListed(v);
    }
  }

  lemma UpdateSame<K, V>(m: map<K, V>, k: K, v: V)
    requires k in m && m[k] == v
    ensures m[k := v] == m
  {
  }

  /** One more option parsed: the log grows by what the pass over the longer prefix adds. */
  lemma PassExtend<T>(log0: seq<Message>, log: seq<Message>, log': seq<Message>, seen: set<T>, ts: seq<T>,
                      diagnose: T -> seq<Message>, i: nat, cached: bool)
    requires i < |ts|
    requires log == log0 + PassDiagnostics(seen, ts[..i], diagnose)
    requires log' == log + (if cached then [] else diagnose(ts[i]))
    requires cached <==> ts[i] in seen || ts[i] in ts[..i]
    ensures log' == log0 + PassDiagnostics(seen, ts[..i + 1], diagnose)
  {
    assert ts[..i + 1][..i] == ts[..i];
  }

  lemma PrefixStep<T>(ts: seq<T>, i: nat)
    requires i < |ts|
    ensures forall t :: t in ts[..i + 1] <==> t in ts[..i] || t == ts[i]
  {
    assert ts[..i + 1] == ts[..i] + [ts[i]];
  }

  lemma PrefixAll<T>(ts: seq<T>)
    ensures ts[..|ts|] == ts
  {
  }
}
