/**
 * Worked examples of the resolver on small option maps: a feature switched on in lower case,
 * a validation given a value it does not accept, and the retired android-mode option given
 * under an unprefixed name, without a value, and holding the empty string.
 */
module Scenarios {
  import opened Wrappers
  import opened CaseFormat
  import opened Registry
  import opened Resolver

  lemma ValidNamesOfTwo<E>(o: EnumOption<E>, a: E, b: E)
    requires o.validValues == {a, b}
    ensures ValidNames(o) == {o.declaringClass.name(a), o.declaringClass.name(b)}
  {
    assert a in o.validValues && b in o.validValues;
  }

  /** A feature's invalid-value error lists ENABLED and DISABLED. */
  lemma FeatureValidNames(f: Feature)
    ensures ValidNames(f.AsEnumOption()) == {"ENABLED", "DISABLED"}
  {
    ValidNamesOfTwo(f.AsEnumOption(), ENABLED, DISABLED);
  }

  /** The nullable validation's invalid-value error lists ERROR and WARNING. */
  lemma NullableValidNames()
    ensures ValidNames(NULLABLE_VALIDATION.AsEnumOption()) == {"ERROR", "WARNING"}
  {
    var o := NULLABLE_VALIDATION.AsEnumOption();
    assert o.validValues == {ERROR, WARNING} by {
      assert NULLABLE_VALIDATION.MoreValidTypes() == [WARNING];
    }
    ValidNamesOfTwo(o, ERROR, WARNING);
  }

  lemma UpperCaseOfEnabled()
    ensures AsciiToUpperCase("enabled") == "ENABLED"
  {
    var u := AsciiToUpperCase("enabled");
    assert u[0] == 'E' && u[1] == 'N' && u[2] == 'A' && u[3] == 'B' && u[4] == 'L' && u[5] == 'E' && u[6] == 'D';
  }

  lemma UpperCaseOfNone()
    ensures AsciiToUpperCase("none") == "NONE"
  {
    var u := AsciiToUpperCase("none");
    assert u[0] == 'N' && u[1] == 'O' && u[2] == 'N' && u[3] == 'E';
  }

  /**
   * A feature given alone with a value that reads ENABLED in any ASCII case is enabled, and
   * create() reports nothing but the retirement warning of a deprecated feature.
   */
  lemma OnlyFeatureEnabled(raw: RawOptions, f: Feature, s: string)
    requires raw == map[f.Key() := Some(s)]
    requires AsciiToUpperCase(s) == "ENABLED"
    ensures FeatureResolution(raw, f) == Parsed(ENABLED, [])
    ensures forall g: Feature :: g != f ==> FeatureResolution(raw, g) == Parsed(g.DefaultValue(), [])
    ensures forall v: Validation :: ValidationResolution(raw, v) == Parsed(v.DefaultValue(), [])
    ensures CreateDiagnostics(raw) == DeprecationOf(raw, f)
  {
    assert forall k :: k in raw <==> k == f.Key();
    ResolvesToNamedConstant(raw, f.AsEnumOption(), ENABLED, s);
    OthersUntouchedByFeature(raw, f);
    OnlyFeatureGiven(raw, f);
  }

  /** -Adagger.fastInit=enabled: fast init is on, everything else keeps its default, nothing is reported. */
  lemma FastInitEnabled(raw: RawOptions)
    requires raw == map[FAST_INIT.Key() := Some("enabled")]
    ensures FeatureResolution(raw, FAST_INIT) == Parsed(ENABLED, [])
    ensures forall g: Feature :: g != FAST_INIT ==> FeatureResolution(raw, g) == Parsed(g.DefaultValue(), [])
    ensures forall v: Validation :: ValidationResolution(raw, v) == Parsed(v.DefaultValue(), [])
    ensures CreateDiagnostics(raw) == []
  {
    UpperCaseOfEnabled();
    OnlyFeatureEnabled(raw, FAST_INIT, "enabled");
  }

  /** The nullable validation accepts ERROR and WARNING only. */
  lemma NullableAccepts(u: string)
    ensures Accepts(NULLABLE_VALIDATION.AsEnumOption(), u) <==> u == "ERROR" || u == "WARNING"
  {
    var o := NULLABLE_VALIDATION.AsEnumOption();
    assert NULLABLE_VALIDATION.MoreValidTypes() == [WARNING];
    assert o.validValues == {ERROR, WARNING};
    if u == "ERROR" {
      assert o.declaringClass.name(ERROR) == u;
    } else if u == "WARNING" {
      assert o.declaringClass.name(WARNING) == u;
    }
  }

  /**
   * The nullable validation given alone with a value whose ASCII upper case is neither ERROR nor
   * WARNING (the empty value, "warn" and "extra" included) keeps its default ERROR, and create()
   * reports one error listing ERROR and WARNING and the text.
   */
  lemma NullableValidationRejects(raw: RawOptions, s: string)
    requires raw == map[NULLABLE_VALIDATION.Key() := Some(s)]
    requires AsciiToUpperCase(s) != "ERROR" && AsciiToUpperCase(s) != "WARNING"
    ensures ValidationResolution(raw, NULLABLE_VALIDATION) ==
            Parsed(ERROR, [Message(Error, NULLABLE_VALIDATION.Key(), InvalidValue({"ERROR", "WARNING"}, s))])
    ensures CreateDiagnostics(raw) == ValidationResolution(raw, NULLABLE_VALIDATION).diagnostics
  {
    var o := NULLABLE_VALIDATION.AsEnumOption();
    assert o.key in raw && raw[o.key] == Some(s);
    NullableAccepts(AsciiToUpperCase(s));
    NullableValidNames();
    assert forall k :: k in raw <==> k == o.key;
    OnlyValidationGiven(raw, NULLABLE_VALIDATION);
  }

  /**
   * -Adagger.nullableValidation=bogus: the validation keeps its default ERROR and one error names
   * the accepted values ERROR and WARNING and the offending text.
   */
  lemma NullableValidationBogus(raw: RawOptions)
    requires raw == map[NULLABLE_VALIDATION.Key() := Some("bogus")]
    ensures ValidationResolution(raw, NULLABLE_VALIDATION).value == ERROR
    ensures CreateDiagnostics(raw) ==
            [Message(Error, NULLABLE_VALIDATION.Key(), InvalidValue({"ERROR", "WARNING"}, "bogus"))]
  {
    assert AsciiToUpperCase("bogus")[0] == 'B';
    NullableValidationRejects(raw, "bogus");
  }

  /** NONE is not among the nullable validation's values, so "none" is rejected like any other text. */
  lemma NullableValidationRejectsNone(raw: RawOptions)
    requires raw == map[NULLABLE_VALIDATION.Key() := Some("none")]
    ensures ValidationResolution(raw, NULLABLE_VALIDATION).value == ERROR
    ensures CreateDiagnostics(raw) ==
            [Message(Error, NULLABLE_VALIDATION.Key(), InvalidValue({"ERROR", "WARNING"}, "none"))]
  {
    assert AsciiToUpperCase("none")[0] == 'N';
    NullableValidationRejects(raw, "none");
  }

  /** The module binding validation does accept "none", and turns itself off silently. */
  lemma ModuleBindingValidationAcceptsNone(raw: RawOptions)
    requires raw == map[MODULE_BINDING_VALIDATION.Key() := Some("none")]
    ensures ValidationResolution(raw, MODULE_BINDING_VALIDATION) == Parsed(NONE, [])
    ensures CreateDiagnostics(raw) == []
  {
    var o := MODULE_BINDING_VALIDATION.AsEnumOption();
    assert forall k :: k in raw <==> k == o.key;
    UpperCaseOfNone();
    ResolvesToNamedConstant(raw, o, NONE, "none");
    OnlyValidationGiven(raw, MODULE_BINDING_VALIDATION);
  }

  /**
   * An entry under the unprefixed name "experimental_android_mode" uses no key of this registry
   * (the feature's key is "dagger." followed by its lowerCamel name), so it changes nothing and
   * draws no diagnostic.
   */
  lemma UnprefixedAndroidModeIsIgnored(raw: RawOptions)
    requires raw == map["experimental_android_mode" := Some("")]
    ensures CreateDiagnostics(raw) == []
    ensures forall f: Feature :: FeatureResolution(raw, f) == Parsed(f.DefaultValue(), [])
    ensures forall v: Validation :: ValidationResolution(raw, v) == Parsed(v.DefaultValue(), [])
  {
    KeysStartWithDagger("experimental_android_mode");
    OnlyForeignKeysGiven(raw);
  }

  /** A retired feature given alone: its own diagnostics, then the warning that it is no longer recognized. */
  lemma RetiredFeatureGiven(raw: RawOptions, f: Feature)
    requires IsDeprecated(f)
    requires forall k :: k in raw <==> k == f.Key()
    ensures CreateDiagnostics(raw) ==
            FeatureResolution(raw, f).diagnostics + [Message(Warning, f.Key(), NoLongerRecognized)]
  {
    OnlyFeatureGiven(raw, f);
  }

  lemma ConcatOfSingletons(a: seq<Message>, b: seq<Message>, x: Message, y: Message)
    requires a == [x] && b == [y]
    ensures a + b == [x, y]
  {
  }

  /**
   * The retired android-mode key without a value (None, as javac passes -Akey and -Akey=):
   * a "needs a value" error, then the retirement warning.
   */
  lemma AndroidModeWithoutValue(raw: RawOptions)
    requires raw == map[EXPERIMENTAL_ANDROID_MODE.Key() := None]
    ensures FeatureResolution(raw, EXPERIMENTAL_ANDROID_MODE).value == DISABLED
    ensures CreateDiagnostics(raw) ==
            [Message(Error, EXPERIMENTAL_ANDROID_MODE.Key(), NeedsValue),
             Message(Warning, EXPERIMENTAL_ANDROID_MODE.Key(), NoLongerRecognized)]
  {
    var key := EXPERIMENTAL_ANDROID_MODE.Key();
    RetiredFeatureGiven(raw, EXPERIMENTAL_ANDROID_MODE);
    ConcatOfSingletons(FeatureResolution(raw, EXPERIMENTAL_ANDROID_MODE).diagnostics,
                       [Message(Warning, key, NoLongerRecognized)],
                       Message(Error, key, NeedsValue), Message(Warning, key, NoLongerRecognized));
  }

  /** An empty value names no constant: the feature keeps its default and reports an invalid value. */
  lemma FeatureRejectsEmptyValue(raw: RawOptions, f: Feature)
    requires f.Key() in raw && raw[f.Key()] == Some("")
    ensures FeatureResolution(raw, f) ==
            Parsed(f.DefaultValue(), [Message(Error, f.Key(), InvalidValue({"ENABLED", "DISABLED"}, ""))])
  {
    FeatureValidNames(f);
    assert AsciiToUpperCase("") == "";
  }

  /**
   * The retired android-mode key holding the empty string (Some("")): "" names no constant, so an
   * invalid-value error, then the retirement warning.
   */
  lemma AndroidModeWithEmptyValue(raw: RawOptions)
    requires raw == map[EXPERIMENTAL_ANDROID_MODE.Key() := Some("")]
    ensures FeatureResolution(raw, EXPERIMENTAL_ANDROID_MODE).value == DISABLED
    ensures CreateDiagnostics(raw) ==
            [Message(Error, EXPERIMENTAL_ANDROID_MODE.Key(), InvalidValue({"ENABLED", "DISABLED"}, "")),
             Message(Warning, EXPERIMENTAL_ANDROID_MODE.Key(), NoLongerRecognized)]
  {
    var key := EXPERIMENTAL_ANDROID_MODE.Key();
    var error := Message(Error, key, InvalidValue({"ENABLED", "DISABLED"}, ""));
    FeatureRejectsEmptyValue(raw, EXPERIMENTAL_ANDROID_MODE);
    RetiredFeatureGiven(raw, EXPERIMENTAL_ANDROID_MODE);
    ConcatOfSingletons(FeatureResolution(raw, EXPERIMENTAL_ANDROID_MODE).diagnostics,
                       [Message(Warning, key, NoLongerRecognized)], error,
                       Message(Warning, key, NoLongerRecognized));
  }
}
