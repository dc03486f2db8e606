/**
 * How one enum option is read from the processor options, and which diagnostics the
 * validity pass reports, as pure functions of the raw option map.
 */
module Resolver {
  import opened Wrappers
  import opened CaseFormat
  import opened Registry

  /**
   * The processor options: each key given with -A, mapped to its value, or to None when the
   * option was given without "=value".
   */
  type RawOptions = map<string, Option<string>>

  /** What a diagnostic says, without its rendering as text. */
  datatype MessageBody =
    | NeedsValue
    | InvalidValue(validNames: set<string>, found: string)
    | NoLongerRecognized

  /** A diagnostic handed to the messager: its kind, the option key it is about, its body. */
  datatype Message = Message(kind: DiagnosticKind, key: string, body: MessageBody)

  /** The value an option resolves to, and the diagnostics reported while resolving it. */
  datatype Parsed<E> = Parsed(value: E, diagnostics: seq<Message>)

  /** The names of an option's accepted values, as its invalid-value error lists them. */
  function ValidNames<E(==)>(o: EnumOption<E>): set<string>
  {
    set e | e in o.validValues :: o.declaringClass.name(e)
  }

  /** True iff some accepted value of o has exactly this name. */
  predicate Accepts<E(==)>(o: EnumOption<E>, name: string)
  {
    exists e :: e in o.validValues && o.declaringClass.name(e) == name
  }

  /**
   * parseOptionUncached: an absent key gives the default silently; a key without a value
   * gives the default and a "needs a value" error; a value whose ASCII upper case names an
   * accepted constant gives that constant; any other value gives the default and an error
   * listing the accepted values and the offending text.
   */
  function Resolve<E(==)>(raw: RawOptions, o: EnumOption<E>): (r: Parsed<E>)
    requires o.WellFormed()
    ensures r.value in o.validValues
    ensures |r.diagnostics| <= 1
    ensures forall i :: 0 <= i < |r.diagnostics| ==>
              r.diagnostics[i].kind == Error && r.diagnostics[i].key == o.key
    ensures o.key !in raw ==> r == Parsed(o.defaultValue, [])
    ensures o.key in raw && raw[o.key].None? ==>
              r == Parsed(o.defaultValue, [Message(Error, o.key, NeedsValue)])
    ensures o.key in raw && raw[o.key].Some? && Accepts(o, AsciiToUpperCase(raw[o.key].value)) ==>
              r.diagnostics == [] && o.declaringClass.name(r.value) == AsciiToUpperCase(raw[o.key].value)
    ensures o.key in raw && raw[o.key].Some? && !Accepts(o, AsciiToUpperCase(raw[o.key].value)) ==>
              r == Parsed(o.defaultValue,
                          [Message(Error, o.key, InvalidValue(ValidNames(o), raw[o.key].value))])
  {
    if o.key !in raw then Parsed(o.defaultValue, [])
    else match raw[o.key]
      case None => Parsed(o.defaultValue, [Message(Error, o.key, NeedsValue)])
      case Some(s) =>
        var value := o.declaringClass.ValueOf(AsciiToUpperCase(s));
        if value.Some? && value.value in o.validValues then Parsed(value.value, [])
        else Parsed(o.defaultValue, [Message(Error, o.key, InvalidValue(ValidNames(o), s))])
  }

  /** A value other than the default is only ever the silent result of a present, accepted value. */
  lemma NonDefaultIsAccepted<E>(raw: RawOptions, o: EnumOption<E>)
    requires o.WellFormed()
    ensures var r := Resolve(raw, o);
            r.value != o.defaultValue ==>
              r.diagnostics == [] && o.key in raw && raw[o.key].Some? &&
              o.declaringClass.name(r.value) == AsciiToUpperCase(raw[o.key].value)
  {
  }

  /** The resolved value only depends on the option's own entry, and only up to ASCII case. */
  lemma ResolveIsCaseInsensitive<E>(raw: RawOptions, raw': RawOptions, o: EnumOption<E>)
    requires o.WellFormed()
    requires o.key in raw <==> o.key in raw'
    requires o.key in raw ==> raw[o.key].Some? == raw'[o.key].Some?
    requires o.key in raw && raw[o.key].Some? ==>
               AsciiToUpperCase(raw[o.key].value) == AsciiToUpperCase(raw'[o.key].value)
    ensures Resolve(raw, o).value == Resolve(raw', o).value
    ensures |Resolve(raw, o).diagnostics| == |Resolve(raw', o).diagnostics|
  {
    if o.key in raw && raw[o.key].Some? {
      var upper := AsciiToUpperCase(raw[o.key].value);
      if Accepts(o, upper) {
        var r, r' := Resolve(raw, o), Resolve(raw', o);
        SameNameSameConstant(o, r.value, r'.value);
      }
    }
  }

  /** Accepted values have distinct names, so a name determines the constant. */
  lemma SameNameSameConstant<E>(o: EnumOption<E>, a: E, b: E)
    requires o.WellFormed() && a in o.validValues && b in o.validValues
    requires o.declaringClass.name(a) == o.declaringClass.name(b)
    ensures a == b
  {
    var cs := o.declaringClass.constants;
    assert a in cs && b in cs;
    var i :| 0 <= i < |cs| && cs[i] == a;
    var j :| 0 <= j < |cs| && cs[j] == b;
    assert o.declaringClass.name(cs[i]) == o.declaringClass.name(cs[j]);
  }

  /**
   * Each accepted constant is reached by its own name, written in any ASCII case, when its
   * name has no lower-case letter.
   */
  lemma ResolvesToNamedConstant<E>(raw: RawOptions, o: EnumOption<E>, e: E, s: string)
    requires o.WellFormed() && e in o.validValues
    requires o.key in raw && raw[o.key] == Some(s)
    requires AsciiToUpperCase(s) == o.declaringClass.name(e)
    ensures Resolve(raw, o) == Parsed(e, [])
  {
    assert Accepts(o, AsciiToUpperCase(s));
    SameNameSameConstant(o, e, Resolve(raw, o).value);
  }

  function FeatureResolution(raw: RawOptions, f: Feature): Parsed<FeatureStatus>
  {
    Resolve(raw, f.AsEnumOption())
  }

  function ValidationResolution(raw: RawOptions, v: Validation): Parsed<ValidationType>
  {
    Resolve(raw, v.AsEnumOption())
  }

  /**
   * The validations whose accepted values exclude NONE never resolve to NONE, so the diagnostic
   * kind of their resolved value always exists.
   */
  lemma ReportingValidationsHaveAKind(raw: RawOptions, v: Validation)
    requires v in {NULLABLE_VALIDATION, PRIVATE_MEMBER_VALIDATION, STATIC_MEMBER_VALIDATION,
                   MODULE_HAS_DIFFERENT_SCOPES_VALIDATION}
    ensures NONE !in v.ValidValues()
    ensures ValidationResolution(raw, v).value != NONE
    ensures ValidationResolution(raw, v).value.DiagnosticKind().Some?
  {
  }

  /** The validations that may be set to NONE are exactly the other three. */
  lemma NoneIsAcceptedBy(v: Validation)
    ensures NONE in v.ValidValues() <==>
              v in {DISABLE_INTER_COMPONENT_SCOPE_VALIDATION, MODULE_BINDING_VALIDATION,
                    EXPLICIT_BINDING_CONFLICTS_WITH_INJECT}
  {
  }

  /**
   * The diagnostics reported when options ts are parsed in order through a cache that already
   * holds the options in seen: an option is resolved, and reports, only on its first parse.
   */
  function PassDiagnostics<T(==)>(seen: set<T>, ts: seq<T>, diagnose: T -> seq<Message>): seq<Message>
  {
    if ts == [] then []
    else
      var init, last := ts[..|ts| - 1], ts[|ts| - 1];
      PassDiagnostics(seen, init, diagnose) +
      (if last in seen || last in init then [] else diagnose(last))
  }

  /** What parsing each feature, each validation, and retiring each feature reports. */
  function FeatureReports(raw: RawOptions): Feature -> seq<Message>
  {
    f => FeatureResolution(raw, f).diagnostics
  }

  function ValidationReports(raw: RawOptions): Validation -> seq<Message>
  {
    v => ValidationResolution(raw, v).diagnostics
  }

  function DeprecationReports(raw: RawOptions): Feature -> seq<Message>
  {
    f => DeprecationOf(raw, f)
  }

  const FeatureKeyOf: Feature -> string := (f: Feature) => f.Key()

  const ValidationKeyOf: Validation -> string := (v: Validation) => v.Key()

  /** noLongerRecognized: the warning reported when the option's key is present at all. */
  function DeprecationWarning(raw: RawOptions, f: Feature): seq<Message>
  {
    if f.Key() in raw then [Message(Warning, f.Key(), NoLongerRecognized)] else []
  }

  /** The two features that are still declared but no longer have any effect. */
  predicate IsDeprecated(f: Feature)
  {
    f == EXPERIMENTAL_ANDROID_MODE || f == FLOATING_BINDS_METHODS
  }

  /** noLongerRecognized for the two retired features, in the order checkValid calls it. */
  function DeprecationWarnings(raw: RawOptions): seq<Message>
  {
    DeprecationWarning(raw, EXPERIMENTAL_ANDROID_MODE) + DeprecationWarning(raw, FLOATING_BINDS_METHODS)
  }

  /** The warning a feature gets for being retired: only the two deprecated ones, only when given. */
  function DeprecationOf(raw: RawOptions, f: Feature): (r: seq<Message>)
    ensures r == [] || r == [Message(Warning, f.Key(), NoLongerRecognized)]
    ensures r != [] <==> IsDeprecated(f) && f.Key() in raw
  {
    if IsDeprecated(f) then DeprecationWarning(raw, f) else []
  }

  /**
   * Everything create() reports: the features' diagnostics in declaration order, then the
   * validations', then one warning per deprecated key present. Key-only options report nothing.
   */
  function CreateDiagnostics(raw: RawOptions): seq<Message>
  {
    PassDiagnostics({}, AllFeatures(), FeatureReports(raw)) +
    PassDiagnostics({}, AllValidations(), ValidationReports(raw)) +
    DeprecationWarnings(raw)
  }

  /** The diagnostics about one key, in the order they were reported. */
  function MessagesFor(ms: seq<Message>, key: string): seq<Message>
  {
    if ms == [] then []
    else MessagesFor(ms[..|ms| - 1], key) +
         (if ms[|ms| - 1].key == key then [ms[|ms| - 1]] else [])
  }

  lemma {:induction false} MessagesForAppend(a: seq<Message>, b: seq<Message>, key: string)
    ensures MessagesFor(a + b, key) == MessagesFor(a, key) + MessagesFor(b, key)
    decreases |b|
  {
    if b != [] {
      var b0, bl := b[..|b| - 1], b[|b| - 1];
      assert (a + b)[..|a + b| - 1] == a + b0;
      assert (a + b)[|a + b| - 1] == bl;
      MessagesForAppend(a, b0, key);
    } else {
      assert a + b == a;
    }
  }

  lemma {:induction false} MessagesForAllSameKey(ms: seq<Message>, key: string)
    requires forall i :: 0 <= i < |ms| ==> ms[i].key == key
    ensures MessagesFor(ms, key) == ms
  {
    if ms != [] {
      MessagesForAllSameKey(ms[..|ms| - 1], key);
      assert ms == ms[..|ms| - 1] + [ms[|ms| - 1]];
    }
  }

  lemma {:induction false} MessagesForNoneWithKey(ms: seq<Message>, key: string)
    requires forall i :: 0 <= i < |ms| ==> ms[i].key != key
    ensures MessagesFor(ms, key) == []
  {
    if ms != [] {
      MessagesForNoneWithKey(ms[..|ms| - 1], key);
    }
  }

  /**
   * In a pass whose options report only about their own keys, the diagnostics about t's key
   * are t's own, reported once, unless t was cached before or is not parsed.
   */
  lemma {:induction false} PassMessagesFor<T>(seen: set<T>, ts: seq<T>, diagnose: T -> seq<Message>,
                                              keyOf: T -> string, t: T)
    requires forall u, i :: 0 <= i < |diagnose(u)| ==> diagnose(u)[i].key == keyOf(u)
    requires forall u :: keyOf(u) == keyOf(t) ==> u == t
    ensures MessagesFor(PassDiagnostics(seen, ts, diagnose), keyOf(t)) ==
            if t in seen || t !in ts then [] else diagnose(t)
  {
    if ts != [] {
      var init, last := ts[..|ts| - 1], ts[|ts| - 1];
      assert ts == init + [last];
      PassMessagesFor(seen, init, diagnose, keyOf, t);
      var tail := if last in seen || last in init then [] else diagnose(last);
      MessagesForAppend(PassDiagnostics(seen, init, diagnose), tail, keyOf(t));
      if last == t {
        MessagesForAllSameKey(tail, keyOf(t));
      } else {
        MessagesForNoneWithKey(tail, keyOf(t));
      }
    }
  }

  /** A pass reports nothing about a key that none of its options has. */
  lemma {:induction false} PassMessagesForOtherKey<T>(seen: set<T>, ts: seq<T>, diagnose: T -> seq<Message>,
                                                      keyOf: T -> string, key: string)
    requires forall u, i :: 0 <= i < |diagnose(u)| ==> diagnose(u)[i].key == keyOf(u)
    requires forall u :: keyOf(u) != key
    ensures MessagesFor(PassDiagnostics(seen, ts, diagnose), key) == []
  {
    if ts != [] {
      var init, last := ts[..|ts| - 1], ts[|ts| - 1];
      PassMessagesForOtherKey(seen, init, diagnose, keyOf, key);
      var tail := if last in seen || last in init then [] else diagnose(last);
      MessagesForAppend(PassDiagnostics(seen, init, diagnose), tail, key);
      MessagesForNoneWithKey(tail, key);
    }
  }

  /** A pass whose options all resolve silently reports nothing. */
  lemma {:induction false} SilentPass<T>(seen: set<T>, ts: seq<T>, diagnose: T -> seq<Message>)
    requires forall i :: 0 <= i < |ts| ==> diagnose(ts[i]) == []
    ensures PassDiagnostics(seen, ts, diagnose) == []
  {
    if ts != [] {
      SilentPass(seen, ts[..|ts| - 1], diagnose);
    }
  }

  /** A pass over distinct, uncached options where only ts[i] reports gives ts[i]'s diagnostics. */
  lemma {:induction false} PassOfOne<T>(ts: seq<T>, diagnose: T -> seq<Message>, i: nat)
    requires Distinct(ts) && i < |ts|
    requires forall k :: 0 <= k < |ts| && k != i ==> diagnose(ts[k]) == []
    ensures PassDiagnostics({}, ts, diagnose) == diagnose(ts[i])
  {
    var init, last := ts[..|ts| - 1], ts[|ts| - 1];
    assert Distinct(init);
    if i == |ts| - 1 {
      SilentPass({}, init, diagnose);
      assert last !in init;
    } else {
      PassOfOne(init, diagnose, i);
    }
  }

  /** The same, when every option other than ts[i] reports nothing wherever it appears. */
  lemma PassOfOnly<T>(ts: seq<T>, diagnose: T -> seq<Message>, i: nat)
    requires Distinct(ts) && i < |ts|
    requires forall t :: t != ts[i] ==> diagnose(t) == []
    ensures PassDiagnostics({}, ts, diagnose) == diagnose(ts[i])
  {
    PassOfOne(ts, diagnose, i);
  }

  /** The same with exactly two reporting options, ts[i] before ts[j]. */
  lemma {:induction false} PassOfTwo<T>(ts: seq<T>, diagnose: T -> seq<Message>, i: nat, j: nat)
    requires Distinct(ts) && i < j < |ts|
    requires forall k :: 0 <= k < |ts| && k != i && k != j ==> diagnose(ts[k]) == []
    ensures PassDiagnostics({}, ts, diagnose) == diagnose(ts[i]) + diagnose(ts[j])
  {
    var init, last := ts[..|ts| - 1], ts[|ts| - 1];
    assert Distinct(init);
    if j == |ts| - 1 {
      PassOfOne(init, diagnose, i);
      assert last !in init;
    } else {
      PassOfTwo(init, diagnose, i, j);
    }
  }

  /** The two warnings of checkValid are what a pass of noLongerRecognized over the features reports. */
  lemma DeprecationWarningsAsPass(raw: RawOptions)
    ensures DeprecationWarnings(raw) == PassDiagnostics({}, AllFeatures(), DeprecationReports(raw))
  {
    var fs := AllFeatures();
    assert fs[1] == EXPERIMENTAL_ANDROID_MODE && fs[9] == FLOATING_BINDS_METHODS;
    forall k | 0 <= k < |fs| && k != 1 && k != 9 ensures !IsDeprecated(fs[k]) {
    }
    PassOfTwo(fs, DeprecationReports(raw), 1, 9);
  }

  lemma FeatureDiagnosticsKeys(raw: RawOptions)
    ensures forall f: Feature, i :: 0 <= i < |FeatureResolution(raw, f).diagnostics| ==>
              FeatureResolution(raw, f).diagnostics[i].key == f.Key()
  {
  }

  lemma ValidationDiagnosticsKeys(raw: RawOptions)
    ensures forall v: Validation, i :: 0 <= i < |ValidationResolution(raw, v).diagnostics| ==>
              ValidationResolution(raw, v).diagnostics[i].key == v.Key()
  {
  }

  /** The diagnostics create() reports about one key, part by part. */
  lemma CreateMessagesFor(raw: RawOptions, key: string)
    ensures MessagesFor(CreateDiagnostics(raw), key) ==
            MessagesFor(PassDiagnostics({}, AllFeatures(), FeatureReports(raw)), key) +
            MessagesFor(PassDiagnostics({}, AllValidations(), ValidationReports(raw)), key) +
            MessagesFor(PassDiagnostics({}, AllFeatures(), DeprecationReports(raw)), key)
  {
    var a := PassDiagnostics({}, AllFeatures(), FeatureReports(raw));
    var b := PassDiagnostics({}, AllValidations(), ValidationReports(raw));
    MessagesForAppend(a, b, key);
    MessagesForAppend(a + b, DeprecationWarnings(raw), key);
    DeprecationWarningsAsPass(raw);
  }

  /** The features' pass reports about f's key exactly f's resolution diagnostic. */
  lemma FeaturePassMessagesFor(raw: RawOptions, f: Feature)
    ensures MessagesFor(PassDiagnostics({}, AllFeatures(), FeatureReports(raw)), f.Key()) ==
            FeatureResolution(raw, f).diagnostics
  {
    FeatureDiagnosticsKeys(raw);
    FeatureKeysInjective(f);
    EveryFeatureIsListed(f);
    PassMessagesFor({}, AllFeatures(), FeatureReports(raw), FeatureKeyOf, f);
  }

  /** The deprecation pass reports about f's key f's warning, if f is deprecated. */
  lemma DeprecationPassMessagesFor(raw: RawOptions, f: Feature)
    ensures MessagesFor(PassDiagnostics({}, AllFeatures(), DeprecationReports(raw)), f.Key()) ==
            DeprecationOf(raw, f)
  {
    FeatureKeysInjective(f);
    EveryFeatureIsListed(f);
    PassMessagesFor({}, AllFeatures(), DeprecationReports(raw), FeatureKeyOf, f);
  }

  /** The validations' pass reports about v's key exactly v's resolution diagnostic. */
  lemma ValidationPassMessagesFor(raw: RawOptions, v: Validation)
    ensures MessagesFor(PassDiagnostics({}, AllValidations(), ValidationReports(raw)), v.Key()) ==
            ValidationResolution(raw, v).diagnostics
  {
    ValidationDiagnosticsKeys(raw);
    ValidationKeysInjective(v);
    EveryValidationIsListed(v);
    PassMessagesFor({}, AllValidations(), ValidationReports(raw), ValidationKeyOf, v);
  }

  /** The features' passes report nothing about a key no feature has. */
  lemma FeaturePassesOtherKey(raw: RawOptions, key: string)
    requires forall f: Feature :: f.Key() != key
    ensures MessagesFor(PassDiagnostics({}, AllFeatures(), FeatureReports(raw)), key) == []
    ensures MessagesFor(PassDiagnostics({}, AllFeatures(), DeprecationReports(raw)), key) == []
  {
    FeaturePassOtherKey(raw, key);
    DeprecationPassOtherKey(raw, key);
  }

  lemma FeaturePassOtherKey(raw: RawOptions, key: string)
    requires forall f: Feature :: f.Key() != key
    ensures MessagesFor(PassDiagnostics({}, AllFeatures(), FeatureReports(raw)), key) == []
  {
    FeatureDiagnosticsKeys(raw);
    PassMessagesForOtherKey({}, AllFeatures(), FeatureReports(raw), FeatureKeyOf, key);
  }

  lemma DeprecationPassOtherKey(raw: RawOptions, key: string)
    requires forall f: Feature :: f.Key() != key
    ensures MessagesFor(PassDiagnostics({}, AllFeatures(), DeprecationReports(raw)), key) == []
  {
    PassMessagesForOtherKey({}, AllFeatures(), DeprecationReports(raw), FeatureKeyOf, key);
  }

  /** The validations' pass reports nothing about a key no validation has. */
  lemma ValidationPassOtherKey(raw: RawOptions, key: string)
    requires forall v: Validation :: v.Key() != key
    ensures MessagesFor(PassDiagnostics({}, AllValidations(), ValidationReports(raw)), key) == []
  {
    ValidationDiagnosticsKeys(raw);
    PassMessagesForOtherKey({}, AllValidations(), ValidationReports(raw), ValidationKeyOf, key);
  }

  /**
   * About a feature's key create() reports its resolution diagnostic, at most one error, and
   * for the two deprecated features also the warning when the key is present.
   */
  lemma CreateDiagnosticsForFeature(raw: RawOptions, f: Feature)
    ensures MessagesFor(CreateDiagnostics(raw), f.Key()) ==
            FeatureResolution(raw, f).diagnostics + DeprecationOf(raw, f)
  {
    var key := f.Key();
    CreateMessagesFor(raw, key);
    FeaturePassMessagesFor(raw, f);
    FeatureKeysAreNotValidationKeys(f);
    ValidationPassOtherKey(raw, key);
    DeprecationPassMessagesFor(raw, f);
    var a := MessagesFor(PassDiagnostics({}, AllFeatures(), FeatureReports(raw)), key);
    var b := MessagesFor(PassDiagnostics({}, AllValidations(), ValidationReports(raw)), key);
    assert a + b == a;
  }

  /** About a validation's key create() reports exactly its resolution diagnostic, if any. */
  lemma CreateDiagnosticsForValidation(raw: RawOptions, v: Validation)
    ensures MessagesFor(CreateDiagnostics(raw), v.Key()) == ValidationResolution(raw, v).diagnostics
  {
    CreateMessagesFor(raw, v.Key());
    ValidationPassMessagesFor(raw, v);
    ValidationKeysAreNotFeatureKeys(v);
    FeaturePassesOtherKey(raw, v.Key());
  }

  /** create() reports nothing about a key that is not a feature's or a validation's key. */
  lemma CreateDiagnosticsForOtherKey(raw: RawOptions, key: string)
    requires forall f: Feature :: f.Key() != key
    requires forall v: Validation :: v.Key() != key
    ensures MessagesFor(CreateDiagnostics(raw), key) == []
  {
    CreateMessagesFor(raw, key);
    FeaturePassesOtherKey(raw, key);
    ValidationPassOtherKey(raw, key);
  }

  /** Key-only options are read by presence alone and never reported about. */
  lemma KeyOnlyOptionsAreNotReported(raw: RawOptions, k: KeyOnlyOption)
    ensures MessagesFor(CreateDiagnostics(raw), k.Key()) == []
  {
    KeyOnlyKeysAreNotDerived(k);
    CreateDiagnosticsForOtherKey(raw, k.Key());
  }

  /** With no options given, every option takes its default and nothing is reported. */
  lemma NoOptionsGiven()
    ensures CreateDiagnostics(map[]) == []
    ensures forall f: Feature :: FeatureResolution(map[], f) == Parsed(f.DefaultValue(), [])
    ensures forall v: Validation :: ValidationResolution(map[], v) == Parsed(v.DefaultValue(), [])
  {
    var raw: RawOptions := map[];
    NoOptionsResolveToDefaults(raw);
    NoOptionsSilentPasses(raw);
    NoDeprecationWarnings(raw);
  }

  lemma NoOptionsSilentPasses(raw: RawOptions)
    requires raw == map[]
    ensures PassDiagnostics({}, AllFeatures(), FeatureReports(raw)) == []
    ensures PassDiagnostics({}, AllValidations(), ValidationReports(raw)) == []
  {
    NoOptionsSilentFeatures(raw);
    NoOptionsSilentValidations(raw);
  }

  lemma NoOptionsSilentFeatures(raw: RawOptions)
    requires raw == map[]
    ensures PassDiagnostics({}, AllFeatures(), FeatureReports(raw)) == []
  {
    var fs := AllFeatures();
    forall i | 0 <= i < |fs| ensures FeatureResolution(raw, fs[i]).diagnostics == [] {
      NoOptionsResolveToDefaults(raw);
    }
    SilentPass({}, fs, FeatureReports(raw));
  }

  lemma NoOptionsSilentValidations(raw: RawOptions)
    requires raw == map[]
    ensures PassDiagnostics({}, AllValidations(), ValidationReports(raw)) == []
  {
    var vs := AllValidations();
    forall i | 0 <= i < |vs| ensures ValidationResolution(raw, vs[i]).diagnostics == [] {
      NoOptionsResolveToDefaults(raw);
    }
    SilentPass({}, vs, ValidationReports(raw));
  }

  lemma NoOptionsResolveToDefaults(raw: RawOptions)
    requires raw == map[]
    ensures forall f: Feature :: FeatureResolution(raw, f) == Parsed(f.DefaultValue(), [])
    ensures forall v: Validation :: ValidationResolution(raw, v) == Parsed(v.DefaultValue(), [])
  {
  }

  lemma NoDeprecationWarnings(raw: RawOptions)
    requires raw == map[]
    ensures DeprecationWarnings(raw) == []
  {
  }

  /** The index of a feature in declaration order. */
  lemma FeatureIndex(f: Feature) returns (i: nat)
    ensures i < |AllFeatures()| && AllFeatures()[i] == f
  {
    EveryFeatureIsListed(f);
    i :| 0 <= i < |AllFeatures()| && AllFeatures()[i] == f;
  }

  lemma ValidationIndex(v: Validation) returns (i: nat)
    ensures i < |AllValidations()| && AllValidations()[i] == v
  {
    EveryValidationIsListed(v);
    i :| 0 <= i < |AllValidations()| && AllValidations()[i] == v;
  }

  /** With only f's key given, every other feature and every validation takes its default silently. */
  lemma OthersUntouchedByFeature(raw: RawOptions, f: Feature)
    requires forall k :: k in raw <==> k == f.Key()
    ensures forall g: Feature :: g != f ==> FeatureResolution(raw, g) == Parsed(g.DefaultValue(), [])
    ensures forall v: Validation :: ValidationResolution(raw, v) == Parsed(v.DefaultValue(), [])
  {
    FeatureKeysInjective(f);
    FeatureKeysAreNotValidationKeys(f);
  }

  /** With only v's key given, every feature and every other validation takes its default silently. */
  lemma OthersUntouchedByValidation(raw: RawOptions, v: Validation)
    requires forall k :: k in raw <==> k == v.Key()
    ensures forall f: Feature :: FeatureResolution(raw, f) == Parsed(f.DefaultValue(), [])
    ensures forall w: Validation :: w != v ==> ValidationResolution(raw, w) == Parsed(w.DefaultValue(), [])
  {
    ValidationKeysInjective(v);
    ValidationKeysAreNotFeatureKeys(v);
  }

  /** The features' pass with only f's key given reports f's diagnostics alone. */
  lemma FeaturePassOfOne(raw: RawOptions, f: Feature)
    requires forall k :: k in raw <==> k == f.Key()
    ensures PassDiagnostics({}, AllFeatures(), FeatureReports(raw)) ==
            FeatureResolution(raw, f).diagnostics
  {
    var i := FeatureIndex(f);
    forall g: Feature | g != f ensures FeatureReports(raw)(g) == [] {
      OtherFeatureSilent(raw, f, g);
    }
    PassOfOnly(AllFeatures(), FeatureReports(raw), i);
  }

  lemma OtherFeatureSilent(raw: RawOptions, f: Feature, g: Feature)
    requires forall k :: k in raw <==> k == f.Key()
    requires g != f
    ensures FeatureResolution(raw, g).diagnostics == []
  {
    FeatureKeysInjective(f);
    AbsentKeyIsSilent(raw, g.AsEnumOption());
  }

  /** The deprecation warnings with only f's key given are f's own, if any. */
  lemma DeprecationsOfOne(raw: RawOptions, f: Feature)
    requires forall k :: k in raw <==> k == f.Key()
    ensures DeprecationWarnings(raw) == DeprecationOf(raw, f)
  {
    var i := FeatureIndex(f);
    FeatureKeysInjective(f);
    PassOfOnly(AllFeatures(), DeprecationReports(raw), i);
    DeprecationWarningsAsPass(raw);
  }

  /** The validations' pass with only v's key given reports v's diagnostic alone. */
  lemma ValidationPassOfOne(raw: RawOptions, v: Validation)
    requires forall k :: k in raw <==> k == v.Key()
    ensures PassDiagnostics({}, AllValidations(), ValidationReports(raw)) ==
            ValidationResolution(raw, v).diagnostics
  {
    var i := ValidationIndex(v);
    forall w: Validation | w != v ensures ValidationReports(raw)(w) == [] {
      OtherValidationSilent(raw, v, w);
    }
    PassOfOnly(AllValidations(), ValidationReports(raw), i);
  }

  lemma OtherValidationSilent(raw: RawOptions, v: Validation, w: Validation)
    requires forall k :: k in raw <==> k == v.Key()
    requires w != v
    ensures ValidationResolution(raw, w).diagnostics == []
  {
    ValidationKeysInjective(v);
    AbsentKeyIsSilent(raw, w.AsEnumOption());
  }

  lemma AbsentKeyIsSilent<E>(raw: RawOptions, o: EnumOption<E>)
    requires o.WellFormed() && o.key !in raw
    ensures Resolve(raw, o).diagnostics == []
  {
  }

  /** Without any feature key, the features' pass and the deprecation warnings report nothing. */
  lemma FeaturePassesSilent(raw: RawOptions)
    requires forall f: Feature :: f.Key() !in raw
    ensures PassDiagnostics({}, AllFeatures(), FeatureReports(raw)) == []
    ensures DeprecationWarnings(raw) == []
  {
    var fs := AllFeatures();
    SilentPass({}, fs, FeatureReports(raw));
    SilentPass({}, fs, DeprecationReports(raw));
    DeprecationWarningsAsPass(raw);
  }

  /** Without any validation key, the validations' pass reports nothing. */
  lemma ValidationPassSilent(raw: RawOptions)
    requires forall v: Validation :: v.Key() !in raw
    ensures PassDiagnostics({}, AllValidations(), ValidationReports(raw)) == []
  {
    SilentPass({}, AllValidations(), ValidationReports(raw));
  }

  /** With only a feature's key given, create() reports just that feature's diagnostics. */
  lemma OnlyFeatureGiven(raw: RawOptions, f: Feature)
    requires forall k :: k in raw <==> k == f.Key()
    ensures CreateDiagnostics(raw) == FeatureResolution(raw, f).diagnostics + DeprecationOf(raw, f)
  {
    FeaturePassOfOne(raw, f);
    DeprecationsOfOne(raw, f);
    FeatureKeysAreNotValidationKeys(f);
    ValidationPassSilent(raw);
    ConcatWithoutMiddle(PassDiagnostics({}, AllFeatures(), FeatureReports(raw)),
                        PassDiagnostics({}, AllValidations(), ValidationReports(raw)),
                        DeprecationWarnings(raw));
  }

  /** With only a validation's key given, create() reports just that validation's diagnostic. */
  lemma OnlyValidationGiven(raw: RawOptions, v: Validation)
    requires forall k :: k in raw <==> k == v.Key()
    ensures CreateDiagnostics(raw) == ValidationResolution(raw, v).diagnostics
  {
    ValidationKeysAreNotFeatureKeys(v);
    FeaturePassesSilent(raw);
    ValidationPassOfOne(raw, v);
    ConcatOfMiddle(PassDiagnostics({}, AllFeatures(), FeatureReports(raw)),
                   PassDiagnostics({}, AllValidations(), ValidationReports(raw)),
                   DeprecationWarnings(raw));
  }

  lemma ConcatWithoutMiddle(a: seq<Message>, b: seq<Message>, c: seq<Message>)
    requires b == []
    ensures a + b + c == a + c
  {
    assert a + b == a;
  }

  lemma ConcatOfMiddle(a: seq<Message>, b: seq<Message>, c: seq<Message>)
    requires a == [] && c == []
    ensures a + b + c == b
  {
    assert a + b + c == b;
  }

  /** Keys that belong to no feature and no validation change nothing and draw no diagnostic. */
  lemma OnlyForeignKeysGiven(raw: RawOptions)
    requires forall f: Feature :: f.Key() !in raw
    requires forall v: Validation :: v.Key() !in raw
    ensures CreateDiagnostics(raw) == []
    ensures forall f: Feature :: FeatureResolution(raw, f) == Parsed(f.DefaultValue(), [])
    ensures forall v: Validation :: ValidationResolution(raw, v) == Parsed(v.DefaultValue(), [])
  {
    FeaturePassesSilent(raw);
    ValidationPassSilent(raw);
  }
}
