/**
 * The fixed registry of processor options: the key-only options, the features and the
 * validations, each with its key (the text after "-A"), and for the enum options a default
 * value and the set of values it accepts.
 */
module Registry {
  import opened Wrappers
  import CaseFormat
  import opened NameWords

  /** Diagnostic.Kind, restricted to the two kinds this resolver reports or hands out. */
  datatype DiagnosticKind = Error | Warning

  /** FeatureStatus: the values of a feature option. */
  datatype FeatureStatus = ENABLED | DISABLED
  {
    function Name(): string
    {
      match this
      case ENABLED => "ENABLED"
      case DISABLED => "DISABLED"
    }
  }

  /** ValidationType: the values of a validation option. */
  datatype ValidationType = ERROR | WARNING | NONE
  {
    function Name(): string
    {
      match this
      case ERROR => "ERROR"
      case WARNING => "WARNING"
      case NONE => "NONE"
    }

    /** ValidationType.diagnosticKind(): the kind a validation reports with; NONE reports nothing. */
    function DiagnosticKind(): (k: Option<DiagnosticKind>)
      ensures k.None? <==> this == NONE
    {
      match this
      case ERROR => Some(Error)
      case WARNING => Some(Warning)
      case NONE => None
    }
  }

  /** An enum type as Enum.valueOf sees it: its constants in declaration order and their names. */
  datatype EnumClass<!E(==)> = EnumClass(constants: seq<E>, name: E -> string)
  {
    predicate NamesDistinct()
    {
      forall i, j :: 0 <= i < j < |constants| ==> name(constants[i]) != name(constants[j])
    }

    /** Enum.valueOf: the constant with exactly this name, or None where Java throws. */
    function ValueOf(s: string): (r: Option<E>)
      ensures r.Some? ==> r.value in constants && name(r.value) == s
      ensures r.None? <==> forall e :: e in constants ==> name(e) != s
      decreases |constants|
    {
      if constants == [] then None
      else if name(constants[0]) == s then Some(constants[0])
      else EnumClass(constants[1..], name).ValueOf(s)
    }
  }

  const FeatureStatusClass: EnumClass<FeatureStatus> :=
    EnumClass([ENABLED, DISABLED], (s: FeatureStatus) => s.Name())

  const ValidationTypeClass: EnumClass<ValidationType> :=
    EnumClass([ERROR, WARNING, NONE], (t: ValidationType) => t.Name())

  /** What the resolver needs of an enum option: its key, its default and its accepted values. */
  datatype EnumOption<!E(==)> = EnumOption(key: string, defaultValue: E, validValues: set<E>,
                                          declaringClass: EnumClass<E>)
  {
    /** What the Java enums guarantee by construction. */
    predicate WellFormed()
    {
      defaultValue in validValues &&
      (forall e :: e in validValues ==> e in declaringClass.constants) &&
      declaringClass.NamesDistinct()
    }
  }

  /** The option key of a feature or validation: "dagger." followed by the lowerCamel name. */
  function OptionName(name: string): string
  {
    "dagger." + CaseFormat.LowerCamel(name)
  }

  /** Options that are on when their key is present, whatever value it has. */
  datatype KeyOnlyOption = HEADER_COMPILATION | USE_GRADLE_INCREMENTAL_PROCESSING
  {
    function Key(): string
    {
      match this
      case HEADER_COMPILATION => "experimental_turbine_hjar"
      case USE_GRADLE_INCREMENTAL_PROCESSING => "dagger.gradle.incremental"
    }
  }

  /** Features, set with -Akey=ENABLED or -Akey=DISABLED. */
  datatype Feature =
    | FAST_INIT
    | EXPERIMENTAL_ANDROID_MODE
    | FORMAT_GENERATED_SOURCE
    | WRITE_PRODUCER_NAME_IN_TOKEN
    | WARN_IF_INJECTION_FACTORY_NOT_GENERATED_UPSTREAM
    | IGNORE_PRIVATE_AND_STATIC_INJECTION_FOR_COMPONENT
    | EXPERIMENTAL_AHEAD_OF_TIME_SUBCOMPONENTS
    | FORCE_USE_SERIALIZED_COMPONENT_IMPLEMENTATIONS
    | EMIT_MODIFIABLE_METADATA_ANNOTATIONS
    | FLOATING_BINDS_METHODS
  {
    /** The words of the constant's name() (see Name). */
    function Words(): seq<CaseFormat.Word>
    {
      match this
      case FAST_INIT => [FAST, INIT]
      case EXPERIMENTAL_ANDROID_MODE => [EXPERIMENTAL, ANDROID, MODE]
      case FORMAT_GENERATED_SOURCE => [FORMAT, GENERATED, SOURCE]
      case WRITE_PRODUCER_NAME_IN_TOKEN => [WRITE, PRODUCER, NAME, IN, TOKEN]
      case WARN_IF_INJECTION_FACTORY_NOT_GENERATED_UPSTREAM =>
        [WARN, IF, INJECTION, FACTORY, NOT, GENERATED, UPSTREAM]
      case IGNORE_PRIVATE_AND_STATIC_INJECTION_FOR_COMPONENT =>
        [IGNORE, PRIVATE, AND, STATIC, INJECTION, FOR, COMPONENT]
      case EXPERIMENTAL_AHEAD_OF_TIME_SUBCOMPONENTS => [EXPERIMENTAL, AHEAD, OF, TIME, SUBCOMPONENTS]
      case FORCE_USE_SERIALIZED_COMPONENT_IMPLEMENTATIONS =>
        [FORCE, USE, SERIALIZED, COMPONENT, IMPLEMENTATIONS]
      case EMIT_MODIFIABLE_METADATA_ANNOTATIONS => [EMIT, MODIFIABLE, METADATA, ANNOTATIONS]
      case FLOATING_BINDS_METHODS => [FLOATING, BINDS, METHODS]
    }

    /** The constant's name(), e.g. "FAST_INIT". */
    function Name(): string
    {
      CaseFormat.JoinWords(Words())
    }

    function DefaultValue(): FeatureStatus
    {
      match this
      case FORMAT_GENERATED_SOURCE | EMIT_MODIFIABLE_METADATA_ANNOTATIONS => ENABLED
      case _ => DISABLED
    }

    /** Every feature accepts every FeatureStatus. */
    function ValidValues(): set<FeatureStatus>
    {
      {ENABLED, DISABLED}
    }

    function Key(): string
    {
      OptionName(Name())
    }

    function AsEnumOption(): (o: EnumOption<FeatureStatus>)
      ensures o.WellFormed() && o.key == Key() && o.defaultValue == DefaultValue()
      ensures o.validValues == ValidValues() && o.declaringClass == FeatureStatusClass
    {
      EnumOption(Key(), DefaultValue(), ValidValues(), FeatureStatusClass)
    }
  }

  /** Validations: each says how one kind of check is reported. */
  datatype Validation =
    | DISABLE_INTER_COMPONENT_SCOPE_VALIDATION
    | NULLABLE_VALIDATION
    | PRIVATE_MEMBER_VALIDATION
    | STATIC_MEMBER_VALIDATION
    | MODULE_BINDING_VALIDATION
    | MODULE_HAS_DIFFERENT_SCOPES_VALIDATION
    | EXPLICIT_BINDING_CONFLICTS_WITH_INJECT
  {
    /** The words of the constant's name() (see Name). */
    function Words(): seq<CaseFormat.Word>
    {
      match this
      case DISABLE_INTER_COMPONENT_SCOPE_VALIDATION => [DISABLE, INTER, COMPONENT, SCOPE, VALIDATION]
      case NULLABLE_VALIDATION => [NULLABLE, VALIDATION]
      case PRIVATE_MEMBER_VALIDATION => [PRIVATE, MEMBER, VALIDATION]
      case STATIC_MEMBER_VALIDATION => [STATIC, MEMBER, VALIDATION]
      case MODULE_BINDING_VALIDATION => [MODULE, BINDING, VALIDATION]
      case MODULE_HAS_DIFFERENT_SCOPES_VALIDATION => [MODULE, HAS, DIFFERENT, SCOPES, VALIDATION]
      case EXPLICIT_BINDING_CONFLICTS_WITH_INJECT => [EXPLICIT, BINDING, CONFLICTS, WITH, INJECT]
    }

    function Name(): string
    {
      CaseFormat.JoinWords(Words())
    }

    /** The first value passed to the enum constructor (ERROR for the no-argument one). */
    function DefaultValue(): ValidationType
    {
      match this
      case MODULE_BINDING_VALIDATION => NONE
      case EXPLICIT_BINDING_CONFLICTS_WITH_INJECT => WARNING
      case _ => ERROR
    }

    /** The further values passed to the enum constructor. */
    function MoreValidTypes(): seq<ValidationType>
    {
      match this
      case DISABLE_INTER_COMPONENT_SCOPE_VALIDATION => [WARNING, NONE]
      case MODULE_BINDING_VALIDATION => [ERROR, WARNING]
      case EXPLICIT_BINDING_CONFLICTS_WITH_INJECT => [ERROR, NONE]
      case _ => [WARNING]
    }

    /** immutableEnumSet(defaultType, moreValidTypes). */
    function ValidValues(): set<ValidationType>
    {
      {DefaultValue()} + set t <- MoreValidTypes()
    }

    function Key(): string
    {
      OptionName(Name())
    }

    function AsEnumOption(): (o: EnumOption<ValidationType>)
      ensures o.WellFormed() && o.key == Key() && o.defaultValue == DefaultValue()
      ensures o.validValues == ValidValues() && o.declaringClass == ValidationTypeClass
    {
      EnumOption(Key(), DefaultValue(), ValidValues(), ValidationTypeClass)
    }
  }

  /** CommandLineOption: any option of the three registries, known by its key. */
  datatype CommandLineOption =
    | KeyOnlyKey(keyOnly: KeyOnlyOption)
    | FeatureKey(feature: Feature)
    | ValidationKey(validation: Validation)
  {
    function Key(): string
    {
      match this
      case KeyOnlyKey(k) => k.Key()
      case FeatureKey(f) => f.Key()
      case ValidationKey(v) => v.Key()
    }
  }

  /** The keys of all options, as Stream.of(KeyOnlyOption.values(), Feature.values(), Validation.values()). */
  function AllCommandLineOptions(): (r: seq<CommandLineOption>)
    ensures Distinct(r)
  {
    var keyOnly, features, validations := AllKeyOnlyOptions(), AllFeatures(), AllValidations();
    var r := seq(|keyOnly|, i requires 0 <= i < |keyOnly| => KeyOnlyKey(keyOnly[i])) +
             seq(|features|, i requires 0 <= i < |features| => FeatureKey(features[i])) +
             seq(|validations|, i requires 0 <= i < |validations| => ValidationKey(validations[i]));
    assert forall i :: 0 <= i < |r| ==>
      (i < 2 ==> r[i] == KeyOnlyKey(keyOnly[i])) &&
      (2 <= i < 12 ==> r[i] == FeatureKey(features[i - 2])) &&
      (12 <= i ==> r[i] == ValidationKey(validations[i - 12]));
    r
  }

  lemma EveryOptionIsListed(o: CommandLineOption)
    ensures o in AllCommandLineOptions()
  {
    var r := AllCommandLineOptions();
    match o
    case KeyOnlyKey(k) =>
      EveryKeyOnlyOptionIsListed(k);
      var i :| 0 <= i < 2 && AllKeyOnlyOptions()[i] == k;
      assert r[i] == o;
    case FeatureKey(f) =>
      EveryFeatureIsListed(f);
      var i :| 0 <= i < 10 && AllFeatures()[i] == f;
      assert r[2 + i] == o;
    case ValidationKey(v) =>
      EveryValidationIsListed(v);
      var i :| 0 <= i < 7 && AllValidations()[i] == v;
      assert r[12 + i] == o;
  }

  /** supportedOptions(): the keys of all options of the three registries. */
  function SupportedOptions(): (r: set<string>)
    ensures forall k :: k in r <==> exists o: CommandLineOption :: o.Key() == k
    ensures |r| == |AllKeyOnlyOptions()| + |AllFeatures()| + |AllValidations()|
  {
    var r := set o <- AllCommandLineOptions() :: o.Key();
    assert forall o: CommandLineOption :: o in AllCommandLineOptions() by {
      forall o: CommandLineOption ensures o in AllCommandLineOptions() {
        EveryOptionIsListed(o);
      }
    }
    KeySetSize(AllCommandLineOptions());
    r
  }

  lemma {:induction false} KeySetSize(os: seq<CommandLineOption>)
    requires Distinct(os)
    ensures |set o <- os :: o.Key()| == |os|
  {
    if os != [] {
      var init, last := os[..|os| - 1], os[|os| - 1];
      assert Distinct(init);
      KeySetSize(init);
      assert os == init + [last];
      assert (set o <- os :: o.Key()) == (set o <- init :: o.Key()) + {last.Key()};
      forall o | o in init ensures o.Key() != last.Key() {
        KeysDistinct(o, last);
      }
    }
  }

  predicate Distinct<T(==)>(s: seq<T>)
  {
    forall i, j :: 0 <= i < j < |s| ==> s[i] != s[j]
  }

  /** KeyOnlyOption.values(). */
  function AllKeyOnlyOptions(): (r: seq<KeyOnlyOption>)
    ensures Distinct(r)
  {
    var r := [HEADER_COMPILATION, USE_GRADLE_INCREMENTAL_PROCESSING];
    r
  }

  /** Feature.values(), in declaration order. */
  function AllFeatures(): (r: seq<Feature>)
    ensures Distinct(r)
  {
    var r := [FAST_INIT, EXPERIMENTAL_ANDROID_MODE, FORMAT_GENERATED_SOURCE, WRITE_PRODUCER_NAME_IN_TOKEN,
              WARN_IF_INJECTION_FACTORY_NOT_GENERATED_UPSTREAM, IGNORE_PRIVATE_AND_STATIC_INJECTION_FOR_COMPONENT,
              EXPERIMENTAL_AHEAD_OF_TIME_SUBCOMPONENTS, FORCE_USE_SERIALIZED_COMPONENT_IMPLEMENTATIONS,
              EMIT_MODIFIABLE_METADATA_ANNOTATIONS, FLOATING_BINDS_METHODS];
    r
  }

  /** Validation.values(), in declaration order. */
  function AllValidations(): (r: seq<Validation>)
    ensures Distinct(r)
  {
    var r := [DISABLE_INTER_COMPONENT_SCOPE_VALIDATION, NULLABLE_VALIDATION, PRIVATE_MEMBER_VALIDATION,
              STATIC_MEMBER_VALIDATION, MODULE_BINDING_VALIDATION, MODULE_HAS_DIFFERENT_SCOPES_VALIDATION,
              EXPLICIT_BINDING_CONFLICTS_WITH_INJECT];
    r
  }

  lemma EveryKeyOnlyOptionIsListed(k: KeyOnlyOption)
    ensures k in AllKeyOnlyOptions()
  {
    match k
    case HEADER_COMPILATION =>
    case USE_GRADLE_INCREMENTAL_PROCESSING =>
  }

  lemma EveryFeatureIsListed(f: Feature)
    ensures f in AllFeatures()
  {
    match f
    case FAST_INIT =>
    case EXPERIMENTAL_ANDROID_MODE =>
    case FORMAT_GENERATED_SOURCE =>
    case WRITE_PRODUCER_NAME_IN_TOKEN =>
    case WARN_IF_INJECTION_FACTORY_NOT_GENERATED_UPSTREAM =>
    case IGNORE_PRIVATE_AND_STATIC_INJECTION_FOR_COMPONENT =>
    case EXPERIMENTAL_AHEAD_OF_TIME_SUBCOMPONENTS =>
    case FORCE_USE_SERIALIZED_COMPONENT_IMPLEMENTATIONS =>
    case EMIT_MODIFIABLE_METADATA_ANNOTATIONS =>
    case FLOATING_BINDS_METHODS =>
  }

  lemma EveryValidationIsListed(v: Validation)
    ensures v in AllValidations()
  {
    match v
    case DISABLE_INTER_COMPONENT_SCOPE_VALIDATION =>
    case NULLABLE_VALIDATION =>
    case PRIVATE_MEMBER_VALIDATION =>
    case STATIC_MEMBER_VALIDATION =>
    case MODULE_BINDING_VALIDATION =>
    case MODULE_HAS_DIFFERENT_SCOPES_VALIDATION =>
    case EXPLICIT_BINDING_CONFLICTS_WITH_INJECT =>
  }

  /** Every feature and validation name is an UPPER_UNDERSCORE identifier. */
  lemma NamesAreUpperUnderscore()
    ensures forall f: Feature :: CaseFormat.IsUpperUnderscore(f.Name())
    ensures forall v: Validation :: CaseFormat.IsUpperUnderscore(v.Name())
  {
    forall f: Feature ensures CaseFormat.IsUpperUnderscore(f.Name()) {
      CaseFormat.JoinWordsIsUpperUnderscore(f.Words());
    }
    forall v: Validation ensures CaseFormat.IsUpperUnderscore(v.Name()) {
      CaseFormat.JoinWordsIsUpperUnderscore(v.Words());
    }
  }

  /** No two enum constants, in either enum, have the same name. */
  lemma NamesDistinct()
    ensures forall f: Feature, g: Feature :: f.Name() == g.Name() ==> f == g
    ensures forall v: Validation, w: Validation :: v.Name() == w.Name() ==> v == w
    ensures forall f: Feature, v: Validation :: f.Name() != v.Name()
  {
    forall f: Feature, g: Feature | f.Name() == g.Name() ensures f == g {
      CaseFormat.JoinWordsInjective(f.Words(), g.Words());
      FeatureWordsDistinct(f, g);
    }
    forall v: Validation, w: Validation | v.Name() == w.Name() ensures v == w {
      CaseFormat.JoinWordsInjective(v.Words(), w.Words());
      ValidationWordsDistinct(v, w);
    }
    forall f: Feature, v: Validation ensures f.Name() != v.Name() {
      FirstWordsDiffer(f, v);
      if f.Name() == v.Name() {
        CaseFormat.JoinWordsInjective(f.Words(), v.Words());
        assert false;
      }
    }
  }

  lemma FeatureWordsDistinct(f: Feature, g: Feature)
    requires f.Words() == g.Words()
    ensures f == g
  {
    assert |f.Words()| == |g.Words()| && f.Words()[0] == g.Words()[0];
    if |f.Words()| > 1 { assert f.Words()[1] == g.Words()[1]; }
  }

  lemma ValidationWordsDistinct(v: Validation, w: Validation)
    requires v.Words() == w.Words()
    ensures v == w
  {
    assert |v.Words()| == |w.Words()| && v.Words()[0] == w.Words()[0];
    if |v.Words()| > 1 { assert v.Words()[1] == w.Words()[1]; }
  }

  lemma FirstWordsDiffer(f: Feature, v: Validation)
    ensures f.Words()[0] != v.Words()[0]
  {
  }

  /** A derived key: the "dagger." prefix, then letters only. */
  lemma OptionNameShape(name: string)
    requires CaseFormat.IsUpperUnderscore(name)
    ensures |OptionName(name)| >= 7 && OptionName(name)[..7] == "dagger."
    ensures forall i :: 7 <= i < |OptionName(name)| ==> CaseFormat.IsLetter(OptionName(name)[i])
  {
    var camel := CaseFormat.LowerCamel(name);
    assert forall i :: 7 <= i < |OptionName(name)| ==> OptionName(name)[i] == camel[i - 7];
  }

  lemma OptionNameInjective(a: string, b: string)
    requires CaseFormat.IsUpperUnderscore(a) && CaseFormat.IsUpperUnderscore(b)
    requires OptionName(a) == OptionName(b)
    ensures a == b
  {
    assert CaseFormat.LowerCamel(a) == OptionName(a)[7..] == OptionName(b)[7..] == CaseFormat.LowerCamel(b);
    CaseFormat.LowerCamelInjective(a, b);
  }

  /**
   * Keys are unique across all three registries: derived keys are distinct because their names
   * are, and neither literal key has the derived form.
   */
  lemma KeysDistinct(a: CommandLineOption, b: CommandLineOption)
    ensures a.Key() == b.Key() ==> a == b
  {
    if a.Key() == b.Key() {
      SameKeySameOption(a, b);
    }
  }

  lemma FeatureKeysInjective(f: Feature)
    ensures forall g: Feature :: g.Key() == f.Key() ==> g == f
  {
    forall g: Feature ensures g.Key() == f.Key() ==> g == f {
      KeysDistinct(FeatureKey(g), FeatureKey(f));
    }
  }

  lemma ValidationKeysInjective(v: Validation)
    ensures forall w: Validation :: w.Key() == v.Key() ==> w == v
  {
    forall w: Validation ensures w.Key() == v.Key() ==> w == v {
      KeysDistinct(ValidationKey(w), ValidationKey(v));
    }
  }

  lemma FeatureKeysAreNotValidationKeys(f: Feature)
    ensures forall v: Validation :: v.Key() != f.Key()
  {
    forall v: Validation ensures v.Key() != f.Key() {
      KeysDistinct(ValidationKey(v), FeatureKey(f));
    }
  }

  lemma ValidationKeysAreNotFeatureKeys(v: Validation)
    ensures forall f: Feature :: f.Key() != v.Key()
  {
    forall f: Feature ensures f.Key() != v.Key() {
      KeysDistinct(FeatureKey(f), ValidationKey(v));
    }
  }

  lemma KeyOnlyKeysAreNotDerived(k: KeyOnlyOption)
    ensures forall f: Feature :: f.Key() != k.Key()
    ensures forall v: Validation :: v.Key() != k.Key()
  {
    forall f: Feature ensures f.Key() != k.Key() {
      KeysDistinct(FeatureKey(f), KeyOnlyKey(k));
    }
    forall v: Validation ensures v.Key() != k.Key() {
      KeysDistinct(ValidationKey(v), KeyOnlyKey(k));
    }
  }

  lemma SameKeySameOption(a: CommandLineOption, b: CommandLineOption)
    requires a.Key() == b.Key()
    ensures a == b
  {
    NamesAreUpperUnderscore();
    NamesDistinct();
    match a
    case KeyOnlyKey(k) =>
      if !b.KeyOnlyKey? {
        var name := if b.FeatureKey? then b.feature.Name() else b.validation.Name();
        assert b.Key() == OptionName(name);
        LiteralKeysAreNotDerived(k, name);
      }
    case FeatureKey(f) =>
      match b {
        case KeyOnlyKey(k) =>
          LiteralKeysAreNotDerived(k, f.Name());
        case FeatureKey(g) =>
          OptionNameInjective(f.Name(), g.Name());
        case ValidationKey(v) =>
          OptionNameInjective(f.Name(), v.Name());
      }
    case ValidationKey(v) =>
      match b {
        case KeyOnlyKey(k) =>
          LiteralKeysAreNotDerived(k, v.Name());
        case FeatureKey(f) =>
          OptionNameInjective(f.Name(), v.Name());
        case ValidationKey(w) =>
          OptionNameInjective(v.Name(), w.Name());
      }
  }

  lemma LiteralKeysAreNotDerived(k: KeyOnlyOption, name: string)
    requires CaseFormat.IsUpperUnderscore(name)
    ensures k.Key() != OptionName(name)
  {
    OptionNameShape(name);
    var key := OptionName(name);
    if k == HEADER_COMPILATION {
      assert k.Key()[0] == 'e' != 'd' == key[0];
    } else {
      assert k.Key()[13] == '.' && !CaseFormat.IsLetter('.');
      assert |key| <= 13 || CaseFormat.IsLetter(key[13]);
    }
  }

  /** Every feature and validation key starts with "dagger.", so a key that does not is none of theirs. */
  lemma KeysStartWithDagger(key: string)
    requires key == [] || key[0] != 'd'
    ensures forall f: Feature :: f.Key() != key
    ensures forall v: Validation :: v.Key() != key
  {
    NamesAreUpperUnderscore();
    forall f: Feature ensures f.Key() != key {
      OptionNameShape(f.Name());
      assert f.Key()[0] == "dagger."[0];
    }
    forall v: Validation ensures v.Key() != key {
      OptionNameShape(v.Name());
      assert v.Key()[0] == "dagger."[0];
    }
  }

  /** The naming rule on an example: FAST_INIT has the key "dagger.fastInit". */
  lemma FastInitName()
    ensures FAST_INIT.Name() == FAST + "_" + INIT
  {
    assert FAST_INIT.Words() == [FAST] + [INIT];
    CaseFormat.CamelFromJoin(FAST, [INIT], false);
    assert CaseFormat.JoinWords([INIT]) == INIT;
  }

  /** The worked example of the naming rule: FAST_INIT has the key "dagger.fastInit". */
  lemma FastInitKey()
    ensures FAST_INIT.Key() == "dagger." + "fast" + "Init"
  {
    FastInitName();
    assert FAST_INIT.Words() == [FAST] + [INIT];
    CaseFormat.CamelFromJoin(FAST, [INIT], false);
    assert CaseFormat.JoinWords([INIT]) == INIT;
    CamelOfWords();
  }

  lemma CamelOfWords()
    ensures CaseFormat.CamelFrom(FAST, false) == "fast"
    ensures CaseFormat.CamelFrom(INIT, true) == "Init"
  {
  }
}
