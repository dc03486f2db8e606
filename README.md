# Dagger's processor options, modelled in Dafny

This project models `ProcessingEnvironmentCompilerOptions`, the class that reads the typed
options of Dagger's annotation processor out of the raw `-Akey=value` options of the compiler.
The modelled parts are these:

- **The registry.** It has two key-only options with literal keys (`experimental_turbine_hjar`,
  `dagger.gradle.incremental`). It has ten features (ENABLED/DISABLED) and seven validations
  (ERROR/WARNING/NONE), each with its default and its set of accepted values.
- **The naming rule.** A feature or validation has the key `"dagger." + lowerCamel(name())`, so
  FAST_INIT has the key `dagger.fastInit`. Every key is shown to be distinct, and
  `supportedOptions()` is exactly the set of all keys.
- **The resolver.** `parseOptionUncached` is the pure function `Resolver.Resolve`, and the
  class also has an imperative version of it. An absent key gives the default silently. A
  key without a value gives the default and one "needs a value" error. A value whose ASCII
  upper case names an accepted constant gives that constant. Any other value gives the
  default and one error that lists the accepted values and the text that was found.
- **The memoising class.** `CompilerOptions.ProcessingEnvironmentCompilerOptions` holds the
  raw options, a feature cache, a validation cache, and the messages sent to the messager so
  far. `parseOption` resolves an option, and reports, only on its first use.
- **The validity pass.** `checkValid` parses every option in declaration order through the
  cache, then warns once for each retired feature whose key is present.
  `Resolver.CreateDiagnostics` states everything it reports. The lemmas about that function
  give, for each key, exactly what is reported about it.
- **The accessors.** Each one is a presence test, "resolves to ENABLED", a diagnostic-kind
  lookup, or a validation-type lookup.

The raw options are a `map<string, Option<string>>`. `None` stands for a key the compiler
passes without a value; javac does this for `-Akey`, and also for `-Akey=` with nothing after
the equals sign. `Some(s)` stands for a key passed with the string `s`. The message log
holds structured messages: kind, key and body.

Two edge cases of the option map:

- A key without a value (`None`) keeps the default and draws one "needs a value" error. For
  the retired android-mode feature, the retirement warning follows it
  (`Scenarios.AndroidModeWithoutValue`).
- A key holding the empty string (`Some("")`, from a host that passes one) is a present value.
  `valueOf("")` names no constant, so it draws an invalid-value error rather than a "needs a
  value" error (`Scenarios.FeatureRejectsEmptyValue`, `Scenarios.AndroidModeWithEmptyValue`).

The retired feature's key is `dagger.experimentalAndroidMode`. An entry under the unprefixed
name `experimental_android_mode` is no option's key, so it is ignored
(`Scenarios.UnprefixedAndroidModeIsIgnored`).

Files:

| file | module | contents |
|---|---|---|
| `wrappers.dfy` | `Wrappers` | `Option` |
| `case_format.dfy` | `CaseFormat` | ASCII upper-casing; UPPER_UNDERSCORE to lowerCamel and its inverse |
| `name_words.dfy` | `NameWords` | the words that enum constant names are spelled from |
| `registry.dfy` | `Registry` | the option registries, their keys, `supportedOptions` |
| `resolver.dfy` | `Resolver` | `Resolve`; the diagnostics of the validity pass as functions; lemmas |
| `compiler_options.dfy` | `CompilerOptions` | the class with its caches and message log |
| `scenarios.dfy` | `Scenarios` | worked examples on small option maps |

## Model

All source paths are `java/dagger/internal/codegen/ProcessingEnvironmentCompilerOptions.java`.

| member | source | states |
|---|---|---|
| CaseFormat.AsciiToUpperCase | java/dagger/internal/codegen/ProcessingEnvironmentCompilerOptions.java:374-376 | Ascii.toUpperCase keeps the length, upper-cases each ASCII lower-case letter and leaves every other character alone, so no lower-case letter remains |
| CaseFormat.CamelFrom | java/dagger/internal/codegen/ProcessingEnvironmentCompilerOptions.java:344 | the lowerCamel conversion of the rest of a name; on upper-case letters and underscores it yields letters only (proved from the recursive calls' contracts); CamelFromRoundTrip proves it can be reversed |
| CaseFormat.LowerCamel | java/dagger/internal/codegen/ProcessingEnvironmentCompilerOptions.java:344 | UPPER_UNDERSCORE.to(LOWER_CAMEL, name); its properties are LowerCamelRoundTrip and LowerCamelInjective |
| CaseFormat.LowerCamelRoundTrip | java/dagger/internal/codegen/ProcessingEnvironmentCompilerOptions.java:343-345 | the lowerCamel form of an UPPER_UNDERSCORE name loses nothing: converting back gives the name again |
| CaseFormat.LowerCamelInjective | java/dagger/internal/codegen/ProcessingEnvironmentCompilerOptions.java:343-345 | distinct UPPER_UNDERSCORE names have distinct lowerCamel forms |
| CaseFormat.CamelFromRoundTrip | java/dagger/internal/codegen/ProcessingEnvironmentCompilerOptions.java:343-345 | the round trip for the rest of a name, started inside or at the beginning of a word (proved by induction) |
| CaseFormat.JoinWordsIsUpperUnderscore | java/dagger/internal/codegen/ProcessingEnvironmentCompilerOptions.java:241-260 | an enum constant name spelled as upper-case words joined by single underscores is an UPPER_UNDERSCORE identifier |
| CaseFormat.JoinWordsInjective | java/dagger/internal/codegen/ProcessingEnvironmentCompilerOptions.java:241-260 | two word lists that join to the same name are the same list |
| CaseFormat.CamelFromJoin | java/dagger/internal/codegen/ProcessingEnvironmentCompilerOptions.java:343-345 | the lowerCamel form of a joined name is the first word's form followed by the capitalised form of the rest |
| Registry.ValidationType.DiagnosticKind | java/dagger/internal/codegen/ProcessingEnvironmentCompilerOptions.java:177-179 | a validation type has a diagnostic kind exactly when it is not NONE |
| Registry.EnumClass.ValueOf | java/dagger/internal/codegen/ProcessingEnvironmentCompilerOptions.java:374-376 | Enum.valueOf returns a constant of the enum with exactly the given name, and fails exactly when no constant has that name |
| Registry.OptionName | java/dagger/internal/codegen/ProcessingEnvironmentCompilerOptions.java:343-345 | optionName: "dagger." then the lowerCamel name; OptionNameShape and OptionNameInjective prove its shape and that distinct names give distinct keys |
| Registry.Feature.AsEnumOption | java/dagger/internal/codegen/ProcessingEnvironmentCompilerOptions.java:241-287 | a feature as an enum option: its derived key, its default (ENABLED for two features, DISABLED otherwise), every status accepted, and the default among the accepted values |
| Registry.Feature.Key | java/dagger/internal/codegen/ProcessingEnvironmentCompilerOptions.java:283-286 | a feature's toString(), its optionName; FeatureKeysInjective and FastInitKey state what it gives |
| Registry.Feature.DefaultValue | java/dagger/internal/codegen/ProcessingEnvironmentCompilerOptions.java:246-276 | ENABLED for FORMAT_GENERATED_SOURCE and EMIT_MODIFIABLE_METADATA_ANNOTATIONS, DISABLED for the rest; AsEnumOption proves it accepted |
| Registry.Feature.ValidValues | java/dagger/internal/codegen/ProcessingEnvironmentCompilerOptions.java:278-281 | EnumSet.allOf(FeatureStatus); FeatureAccepts proves the accepted names are exactly ENABLED and DISABLED |
| Registry.Validation.AsEnumOption | java/dagger/internal/codegen/ProcessingEnvironmentCompilerOptions.java:290-341 | a validation as an enum option: its derived key, the default taken from the constructor's first argument, the accepted values being the default plus the further arguments (ERROR, WARNING, NONE for the no-argument constructor), and the default among them |
| Registry.Validation.Key | java/dagger/internal/codegen/ProcessingEnvironmentCompilerOptions.java:337-340 | a validation's toString(), its optionName; ValidationKeysInjective states that no other validation shares it |
| Registry.Validation.DefaultValue | java/dagger/internal/codegen/ProcessingEnvironmentCompilerOptions.java:291-329 | the first constructor argument: NONE for module binding, WARNING for explicit-binding conflicts, ERROR otherwise; AsEnumOption proves it accepted |
| Registry.Validation.ValidValues | java/dagger/internal/codegen/ProcessingEnvironmentCompilerOptions.java:322-335 | immutableEnumSet(defaultType, moreValidTypes); NoneIsAcceptedBy says which validations accept NONE |
| Registry.AllCommandLineOptions | java/dagger/internal/codegen/ProcessingEnvironmentCompilerOptions.java:350-351 | the options of the three registries, key-only options first, then features, then validations, with no option listed twice |
| Registry.EveryOptionIsListed | java/dagger/internal/codegen/ProcessingEnvironmentCompilerOptions.java:350-351 | every option of every registry is in that list |
| Registry.SupportedOptions | java/dagger/internal/codegen/ProcessingEnvironmentCompilerOptions.java:347-355 | a string is a supported option exactly when it is the key of some option, and there are as many supported options as options (2 + 10 + 7) |
| Registry.KeySetSize | java/dagger/internal/codegen/ProcessingEnvironmentCompilerOptions.java:352-354 | collecting the keys of distinct options into a set loses none of them (proved by induction) |
| Registry.AllKeyOnlyOptions | java/dagger/internal/codegen/ProcessingEnvironmentCompilerOptions.java:183 | KeyOnlyOption.values() lists no option twice |
| Registry.AllFeatures | java/dagger/internal/codegen/ProcessingEnvironmentCompilerOptions.java:241-260 | Feature.values() lists no feature twice |
| Registry.AllValidations | java/dagger/internal/codegen/ProcessingEnvironmentCompilerOptions.java:290-312 | Validation.values() lists no validation twice |
| Registry.EveryKeyOnlyOptionIsListed | java/dagger/internal/codegen/ProcessingEnvironmentCompilerOptions.java:183 | the key-only loop of checkValid reaches every key-only option |
| Registry.EveryFeatureIsListed | java/dagger/internal/codegen/ProcessingEnvironmentCompilerOptions.java:186 | the feature loop of checkValid reaches every feature |
| Registry.EveryValidationIsListed | java/dagger/internal/codegen/ProcessingEnvironmentCompilerOptions.java:189 | the validation loop of checkValid reaches every validation |
| Registry.NamesAreUpperUnderscore | java/dagger/internal/codegen/ProcessingEnvironmentCompilerOptions.java:241-312 | every feature and validation name is an UPPER_UNDERSCORE identifier |
| Registry.NamesDistinct | java/dagger/internal/codegen/ProcessingEnvironmentCompilerOptions.java:241-312 | no two features, no two validations, and no feature and validation share a name |
| Registry.FeatureWordsDistinct | java/dagger/internal/codegen/ProcessingEnvironmentCompilerOptions.java:241-260 | distinct features have distinct word lists (name() is then injective through JoinWordsInjective in NamesDistinct) |
| Registry.ValidationWordsDistinct | java/dagger/internal/codegen/ProcessingEnvironmentCompilerOptions.java:290-312 | distinct validations have distinct word lists (name() is then injective through JoinWordsInjective in NamesDistinct) |
| Registry.OptionNameShape | java/dagger/internal/codegen/ProcessingEnvironmentCompilerOptions.java:343-345 | a derived key is "dagger." followed by letters only |
| Registry.OptionNameInjective | java/dagger/internal/codegen/ProcessingEnvironmentCompilerOptions.java:343-345 | optionName is injective on UPPER_UNDERSCORE names |
| Registry.KeysDistinct | java/dagger/internal/codegen/ProcessingEnvironmentCompilerOptions.java:221-345 | no two options of the three registries have the same key |
| Registry.SameKeySameOption | java/dagger/internal/codegen/ProcessingEnvironmentCompilerOptions.java:221-345 | two options with the same key are the same option |
| Registry.FeatureKeysInjective | java/dagger/internal/codegen/ProcessingEnvironmentCompilerOptions.java:283-286 | a feature's key belongs to no other feature |
| Registry.ValidationKeysInjective | java/dagger/internal/codegen/ProcessingEnvironmentCompilerOptions.java:337-340 | a validation's key belongs to no other validation |
| Registry.FeatureKeysAreNotValidationKeys | java/dagger/internal/codegen/ProcessingEnvironmentCompilerOptions.java:283-286 | no validation has a feature's key |
| Registry.ValidationKeysAreNotFeatureKeys | java/dagger/internal/codegen/ProcessingEnvironmentCompilerOptions.java:337-340 | no feature has a validation's key |
| Registry.KeyOnlyKeysAreNotDerived | java/dagger/internal/codegen/ProcessingEnvironmentCompilerOptions.java:221-235 | neither literal key is the key of a feature or a validation |
| Registry.LiteralKeysAreNotDerived | java/dagger/internal/codegen/ProcessingEnvironmentCompilerOptions.java:221-235 | neither literal key has the form "dagger." followed by letters |
| Registry.KeysStartWithDagger | java/dagger/internal/codegen/ProcessingEnvironmentCompilerOptions.java:343-345 | a key that does not start with 'd' is no feature's and no validation's key |
| Registry.FastInitName | java/dagger/internal/codegen/ProcessingEnvironmentCompilerOptions.java:242 | FAST_INIT's name is "FAST_INIT" |
| Registry.FastInitKey | java/dagger/internal/codegen/ProcessingEnvironmentCompilerOptions.java:343-345 | FAST_INIT's key is "dagger.fastInit" |
| Resolver.Resolve | java/dagger/internal/codegen/ProcessingEnvironmentCompilerOptions.java:364-394 | parseOptionUncached: the value is always accepted; at most one diagnostic, always an ERROR about the option's key; an absent key gives the default silently; a key without a value gives the default and a "needs a value" error; a value whose upper case names an accepted constant gives that constant silently; any other value gives the default and an error with the accepted names and the raw text |
| Resolver.NonDefaultIsAccepted | java/dagger/internal/codegen/ProcessingEnvironmentCompilerOptions.java:364-394 | a value other than the default only comes from a present value, naming it in upper case, with no diagnostic |
| Resolver.ResolveIsCaseInsensitive | java/dagger/internal/codegen/ProcessingEnvironmentCompilerOptions.java:374-376 | two option maps whose entries for the key agree up to ASCII case resolve to the same value with as many diagnostics |
| Resolver.SameNameSameConstant | java/dagger/internal/codegen/ProcessingEnvironmentCompilerOptions.java:374-379 | an accepted value is determined by its name |
| Resolver.ResolvesToNamedConstant | java/dagger/internal/codegen/ProcessingEnvironmentCompilerOptions.java:374-379 | a value whose upper case is an accepted constant's name resolves silently to that constant |
| Resolver.ReportingValidationsHaveAKind | java/dagger/internal/codegen/ProcessingEnvironmentCompilerOptions.java:177-179 | the nullable, private-member, static-member and module-scope validations never resolve to NONE, so diagnosticKind's get() always has a value |
| Resolver.NoneIsAcceptedBy | java/dagger/internal/codegen/ProcessingEnvironmentCompilerOptions.java:290-325 | NONE is accepted by exactly the scope-cycle, module-binding and explicit-binding-conflict validations |
| Resolver.PassDiagnostics | java/dagger/internal/codegen/ProcessingEnvironmentCompilerOptions.java:186-191 | what a loop of parseOption calls through the cache reports; PassMessagesFor, PassOfOne and ParseFeatures/ParseValidations relate it to the cache and to each option's diagnostics |
| Resolver.DeprecationWarning | java/dagger/internal/codegen/ProcessingEnvironmentCompilerOptions.java:197-204 | noLongerRecognized's warning; NoLongerRecognized is proved to append exactly it |
| Resolver.DeprecationWarnings | java/dagger/internal/codegen/ProcessingEnvironmentCompilerOptions.java:192-193 | the two noLongerRecognized calls of checkValid; DeprecationWarningsAsPass and NoDeprecationWarnings state what they give |
| Resolver.DeprecationOf | java/dagger/internal/codegen/ProcessingEnvironmentCompilerOptions.java:192-204 | a feature gets a retirement warning exactly when it is one of the two retired features and its key is present, and it gets that one warning only |
| Resolver.CreateDiagnostics | java/dagger/internal/codegen/ProcessingEnvironmentCompilerOptions.java:181-195 | everything create() reports; Create is proved to report exactly it, and CreateDiagnosticsForFeature, ForValidation and ForOtherKey give it key by key |
| Resolver.MessagesForAppend | java/dagger/internal/codegen/ProcessingEnvironmentCompilerOptions.java:181-195 | the messages about a key in a log of two parts are those of the first part, then those of the second |
| Resolver.MessagesForAllSameKey | java/dagger/internal/codegen/ProcessingEnvironmentCompilerOptions.java:181-195 | a log whose messages are all about one key is its own selection for that key |
| Resolver.MessagesForNoneWithKey | java/dagger/internal/codegen/ProcessingEnvironmentCompilerOptions.java:181-195 | a log with no message about a key selects nothing for it |
| Resolver.PassMessagesFor | java/dagger/internal/codegen/ProcessingEnvironmentCompilerOptions.java:186-191 | in a pass over the options through the cache, the messages about one option's key are that option's own diagnostics, once, when it was not cached before and is in the pass |
| Resolver.PassMessagesForOtherKey | java/dagger/internal/codegen/ProcessingEnvironmentCompilerOptions.java:186-191 | a pass reports nothing about a key none of its options has |
| Resolver.SilentPass | java/dagger/internal/codegen/ProcessingEnvironmentCompilerOptions.java:186-191 | a pass over options that each report nothing reports nothing |
| Resolver.PassOfOne | java/dagger/internal/codegen/ProcessingEnvironmentCompilerOptions.java:186-191 | a pass over distinct options of which only one reports gives that option's diagnostics |
| Resolver.PassOfOnly | java/dagger/internal/codegen/ProcessingEnvironmentCompilerOptions.java:186-191 | the same, when no other option at all reports |
| Resolver.PassOfTwo | java/dagger/internal/codegen/ProcessingEnvironmentCompilerOptions.java:186-193 | a pass over distinct options of which two report gives their diagnostics in list order |
| Resolver.DeprecationWarningsAsPass | java/dagger/internal/codegen/ProcessingEnvironmentCompilerOptions.java:192-193 | the two noLongerRecognized calls report what a pass that warns each retired feature would |
| Resolver.FeatureDiagnosticsKeys | java/dagger/internal/codegen/ProcessingEnvironmentCompilerOptions.java:371-390 | every diagnostic of a feature is about that feature's key |
| Resolver.ValidationDiagnosticsKeys | java/dagger/internal/codegen/ProcessingEnvironmentCompilerOptions.java:371-390 | every diagnostic of a validation is about that validation's key |
| Resolver.CreateMessagesFor | java/dagger/internal/codegen/ProcessingEnvironmentCompilerOptions.java:181-195 | the messages checkValid reports about a key are those of the feature loop, then the validation loop, then the retirement warnings |
| Resolver.FeaturePassMessagesFor | java/dagger/internal/codegen/ProcessingEnvironmentCompilerOptions.java:186-188 | the feature loop reports exactly a feature's own diagnostics about its key |
| Resolver.DeprecationPassMessagesFor | java/dagger/internal/codegen/ProcessingEnvironmentCompilerOptions.java:192-193 | the retirement warnings about a feature's key are exactly its own warning, if any |
| Resolver.ValidationPassMessagesFor | java/dagger/internal/codegen/ProcessingEnvironmentCompilerOptions.java:189-191 | the validation loop reports exactly a validation's own diagnostics about its key |
| Resolver.FeaturePassesOtherKey | java/dagger/internal/codegen/ProcessingEnvironmentCompilerOptions.java:186-193 | neither the feature loop nor the retirement warnings report about a key that is no feature's |
| Resolver.FeaturePassOtherKey | java/dagger/internal/codegen/ProcessingEnvironmentCompilerOptions.java:186-188 | the feature loop reports nothing about a key that is no feature's |
| Resolver.DeprecationPassOtherKey | java/dagger/internal/codegen/ProcessingEnvironmentCompilerOptions.java:192-193 | the retirement warnings say nothing about a key that is no feature's |
| Resolver.ValidationPassOtherKey | java/dagger/internal/codegen/ProcessingEnvironmentCompilerOptions.java:189-191 | the validation loop reports nothing about a key that is no validation's |
| Resolver.CreateDiagnosticsForFeature | java/dagger/internal/codegen/ProcessingEnvironmentCompilerOptions.java:181-204 | about a feature's key, create() reports at most one error (its resolution's) followed by the retirement warning for a retired feature whose key is present, so a bad value for a retired feature draws both |
| Resolver.CreateDiagnosticsForValidation | java/dagger/internal/codegen/ProcessingEnvironmentCompilerOptions.java:181-195 | about a validation's key, create() reports exactly its resolution's diagnostic, if any |
| Resolver.CreateDiagnosticsForOtherKey | java/dagger/internal/codegen/ProcessingEnvironmentCompilerOptions.java:181-204 | create() reports nothing about a key that is no feature's and no validation's |
| Resolver.KeyOnlyOptionsAreNotReported | java/dagger/internal/codegen/ProcessingEnvironmentCompilerOptions.java:183-185 | create() reports nothing about a key-only option's key |
| Resolver.NoOptionsGiven | java/dagger/internal/codegen/ProcessingEnvironmentCompilerOptions.java:181-195 | with no options, create() reports nothing and everything takes its default |
| Resolver.NoOptionsSilentPasses | java/dagger/internal/codegen/ProcessingEnvironmentCompilerOptions.java:186-191 | with no options both loops report nothing |
| Resolver.NoOptionsSilentFeatures | java/dagger/internal/codegen/ProcessingEnvironmentCompilerOptions.java:186-188 | with no options the feature loop reports nothing |
| Resolver.NoOptionsSilentValidations | java/dagger/internal/codegen/ProcessingEnvironmentCompilerOptions.java:189-191 | with no options the validation loop reports nothing |
| Resolver.NoOptionsResolveToDefaults | java/dagger/internal/codegen/ProcessingEnvironmentCompilerOptions.java:366-393 | with no options every feature and validation takes its default silently |
| Resolver.NoDeprecationWarnings | java/dagger/internal/codegen/ProcessingEnvironmentCompilerOptions.java:192-204 | with no options there is no retirement warning |
| Resolver.FeatureIndex | java/dagger/internal/codegen/ProcessingEnvironmentCompilerOptions.java:186 | every feature has a position in Feature.values() |
| Resolver.ValidationIndex | java/dagger/internal/codegen/ProcessingEnvironmentCompilerOptions.java:189 | every validation has a position in Validation.values() |
| Resolver.OthersUntouchedByFeature | java/dagger/internal/codegen/ProcessingEnvironmentCompilerOptions.java:364-394 | when only one feature's key is given, every other feature and every validation takes its default silently |
| Resolver.OthersUntouchedByValidation | java/dagger/internal/codegen/ProcessingEnvironmentCompilerOptions.java:364-394 | when only one validation's key is given, every feature and every other validation takes its default silently |
| Resolver.FeaturePassOfOne | java/dagger/internal/codegen/ProcessingEnvironmentCompilerOptions.java:186-188 | when only one feature's key is given, the feature loop reports exactly that feature's diagnostics |
| Resolver.OtherFeatureSilent | java/dagger/internal/codegen/ProcessingEnvironmentCompilerOptions.java:366-393 | when only one feature's key is given, any other feature reports nothing |
| Resolver.DeprecationsOfOne | java/dagger/internal/codegen/ProcessingEnvironmentCompilerOptions.java:192-204 | when only one feature's key is given, the retirement warnings are that feature's own |
| Resolver.ValidationPassOfOne | java/dagger/internal/codegen/ProcessingEnvironmentCompilerOptions.java:189-191 | when only one validation's key is given, the validation loop reports exactly that validation's diagnostics |
| Resolver.OtherValidationSilent | java/dagger/internal/codegen/ProcessingEnvironmentCompilerOptions.java:366-393 | when only one validation's key is given, any other validation reports nothing |
| Resolver.AbsentKeyIsSilent | java/dagger/internal/codegen/ProcessingEnvironmentCompilerOptions.java:366-393 | an option whose key is absent reports nothing |
| Resolver.FeaturePassesSilent | java/dagger/internal/codegen/ProcessingEnvironmentCompilerOptions.java:186-193 | when no feature key is given, the feature loop and the retirement warnings report nothing |
| Resolver.ValidationPassSilent | java/dagger/internal/codegen/ProcessingEnvironmentCompilerOptions.java:189-191 | when no validation key is given, the validation loop reports nothing |
| Resolver.OnlyFeatureGiven | java/dagger/internal/codegen/ProcessingEnvironmentCompilerOptions.java:181-204 | when only one feature's key is given, create() reports its diagnostics and then its retirement warning, if any |
| Resolver.OnlyValidationGiven | java/dagger/internal/codegen/ProcessingEnvironmentCompilerOptions.java:181-195 | when only one validation's key is given, create() reports exactly its diagnostics |
| Resolver.OnlyForeignKeysGiven | java/dagger/internal/codegen/ProcessingEnvironmentCompilerOptions.java:181-204 | when no feature or validation key is given, create() reports nothing and everything takes its default |
| CompilerOptions.KeyOnlyEnabled | java/dagger/internal/codegen/ProcessingEnvironmentCompilerOptions.java:169-171 | isEnabled(KeyOnlyOption): HEADER_COMPILATION is on exactly when "experimental_turbine_hjar" is a key and USE_GRADLE_INCREMENTAL_PROCESSING exactly when "dagger.gradle.incremental" is; the class's IsKeyOnlyEnabled is this function over its options |
| CompilerOptions.FeatureEnabled | java/dagger/internal/codegen/ProcessingEnvironmentCompilerOptions.java:173-175 | isEnabled(Feature): the feature resolves to ENABLED; FeatureEnabledIff gives the same condition in terms of the raw value and the default |
| CompilerOptions.ValidationKind | java/dagger/internal/codegen/ProcessingEnvironmentCompilerOptions.java:177-179 | for a validation that does not accept NONE, the resolved value is not NONE, and the kind is ERROR or WARNING exactly when the value is |
| CompilerOptions.KeyOnlyEnabledIgnoresValue | java/dagger/internal/codegen/ProcessingEnvironmentCompilerOptions.java:169-171 | a key-only option is on whatever value its key has, even none, and off when its key is removed |
| CompilerOptions.FeatureAccepts | java/dagger/internal/codegen/ProcessingEnvironmentCompilerOptions.java:278-281 | a feature accepts exactly the names ENABLED and DISABLED |
| CompilerOptions.FeatureEnabledIff | java/dagger/internal/codegen/ProcessingEnvironmentCompilerOptions.java:173-175 | a feature is on exactly when its value reads ENABLED in any ASCII case, or when it is on by default and its value does not read DISABLED |
| CompilerOptions.ValidationKindIsWarningIff | java/dagger/internal/codegen/ProcessingEnvironmentCompilerOptions.java:100-113 | the nullable, private-member, static-member and module-scope validations report as warnings exactly when their value reads WARNING in any ASCII case |
| CompilerOptions.ResolvesToWarningIff | java/dagger/internal/codegen/ProcessingEnvironmentCompilerOptions.java:374-393 | a validation that defaults to ERROR and accepts WARNING resolves to WARNING exactly when its value is present and reads WARNING in any ASCII case |
| CompilerOptions.FeaturesResolveAs | java/dagger/internal/codegen/ProcessingEnvironmentCompilerOptions.java:70-72 | the resolutions a new object is given are the features' resolutions against its options |
| CompilerOptions.ValidationsResolveAs | java/dagger/internal/codegen/ProcessingEnvironmentCompilerOptions.java:70-72 | the same for the validations |
| CompilerOptions.EveryOptionCached | java/dagger/internal/codegen/ProcessingEnvironmentCompilerOptions.java:186-191 | caches that hold every option Feature.values() and Validation.values() list hold every feature and every validation |
| CompilerOptions.PassExtend | java/dagger/internal/codegen/ProcessingEnvironmentCompilerOptions.java:186-191 | one more parseOption in a loop extends the log by what the pass over the longer prefix adds |
| CompilerOptions.ProcessingEnvironmentCompilerOptions.constructor | java/dagger/internal/codegen/ProcessingEnvironmentCompilerOptions.java:67-72 | a new object holds the options, an empty cache and no messages, and is valid; its ghost resolutions must be those of the options |
| CompilerOptions.ProcessingEnvironmentCompilerOptions.Create | java/dagger/internal/codegen/ProcessingEnvironmentCompilerOptions.java:63-65 | create() gives a new object for the options whose caches hold every feature and validation, agree with the resolutions, and whose messages are exactly CreateDiagnostics of the options |
| CompilerOptions.ProcessingEnvironmentCompilerOptions.QueriesAfterCreate | java/dagger/internal/codegen/ProcessingEnvironmentCompilerOptions.java:63-167 | after create(), fastInit(), nullableValidationKind() and moduleBindingValidationType(element) answer from the options and add no message to those of the check; the other accessors follow the same way from their contracts and AllParsed |
| CompilerOptions.ProcessingEnvironmentCompilerOptions.ParseOptionUncached | java/dagger/internal/codegen/ProcessingEnvironmentCompilerOptions.java:364-394 | the imperative parseOptionUncached returns Resolve's value and appends exactly Resolve's diagnostics |
| CompilerOptions.ProcessingEnvironmentCompilerOptions.ParseFeature | java/dagger/internal/codegen/ProcessingEnvironmentCompilerOptions.java:357-362 | parseOption(feature) returns the feature's resolved value, caches it, leaves the other cache alone, and appends the feature's diagnostics only when it was not cached before |
| CompilerOptions.ProcessingEnvironmentCompilerOptions.ParseValidation | java/dagger/internal/codegen/ProcessingEnvironmentCompilerOptions.java:357-362 | the same for a validation |
| CompilerOptions.ProcessingEnvironmentCompilerOptions.IsEnabled | java/dagger/internal/codegen/ProcessingEnvironmentCompilerOptions.java:173-175 | isEnabled(Feature) is true exactly when the feature resolves to ENABLED; it parses the feature through the cache |
| CompilerOptions.ProcessingEnvironmentCompilerOptions.DiagnosticKindOf | java/dagger/internal/codegen/ProcessingEnvironmentCompilerOptions.java:177-179 | diagnosticKind(validation) is the kind of the value the validation resolves to |
| CompilerOptions.ProcessingEnvironmentCompilerOptions.ValidationTypeOf | java/dagger/internal/codegen/ProcessingEnvironmentCompilerOptions.java:357-362 | parseOption(validation) returns the value the validation resolves to |
| CompilerOptions.ProcessingEnvironmentCompilerOptions.NoLongerRecognized | java/dagger/internal/codegen/ProcessingEnvironmentCompilerOptions.java:197-204 | noLongerRecognized appends one warning about the key when it is present and nothing otherwise |
| CompilerOptions.ProcessingEnvironmentCompilerOptions.ParseFeatures | java/dagger/internal/codegen/ProcessingEnvironmentCompilerOptions.java:186-188 | the feature loop caches every feature it visits, keeps the caches consistent, and appends each visited feature's diagnostics once, on its first visit, in order |
| CompilerOptions.ProcessingEnvironmentCompilerOptions.ParseValidations | java/dagger/internal/codegen/ProcessingEnvironmentCompilerOptions.java:189-191 | the same for the validation loop |
| CompilerOptions.ProcessingEnvironmentCompilerOptions.CheckKeyOnlyOptions | java/dagger/internal/codegen/ProcessingEnvironmentCompilerOptions.java:183-185 | the key-only loop of checkValid looks each key up and changes nothing (it modifies nothing); KeyOnlyOptionsAreNotReported states that create() reports nothing about those keys |
| CompilerOptions.ProcessingEnvironmentCompilerOptions.CheckValid | java/dagger/internal/codegen/ProcessingEnvironmentCompilerOptions.java:181-195 | checkValid leaves every feature and validation cached and appends the uncached features' diagnostics, then the uncached validations', then the retirement warnings |
| CompilerOptions.ProcessingEnvironmentCompilerOptions.HeaderCompilation | java/dagger/internal/codegen/ProcessingEnvironmentCompilerOptions.java:80-83 | headerCompilation() is on exactly when "experimental_turbine_hjar" is a key |
| CompilerOptions.ProcessingEnvironmentCompilerOptions.UseGradleIncrementalProcessing | java/dagger/internal/codegen/ProcessingEnvironmentCompilerOptions.java:145-148 | useGradleIncrementalProcessing() is on exactly when "dagger.gradle.incremental" is a key |
| CompilerOptions.ProcessingEnvironmentCompilerOptions.FastInit | java/dagger/internal/codegen/ProcessingEnvironmentCompilerOptions.java:85-88 | fastInit() is whether FAST_INIT resolves to ENABLED |
| CompilerOptions.ProcessingEnvironmentCompilerOptions.FormatGeneratedSource | java/dagger/internal/codegen/ProcessingEnvironmentCompilerOptions.java:90-93 | formatGeneratedSource() is whether FORMAT_GENERATED_SOURCE resolves to ENABLED |
| CompilerOptions.ProcessingEnvironmentCompilerOptions.WriteProducerNameInToken | java/dagger/internal/codegen/ProcessingEnvironmentCompilerOptions.java:95-98 | writeProducerNameInToken() is whether WRITE_PRODUCER_NAME_IN_TOKEN resolves to ENABLED |
| CompilerOptions.ProcessingEnvironmentCompilerOptions.IgnorePrivateAndStaticInjectionForComponent | java/dagger/internal/codegen/ProcessingEnvironmentCompilerOptions.java:115-118 | whether IGNORE_PRIVATE_AND_STATIC_INJECTION_FOR_COMPONENT resolves to ENABLED |
| CompilerOptions.ProcessingEnvironmentCompilerOptions.WarnIfInjectionFactoryNotGeneratedUpstream | java/dagger/internal/codegen/ProcessingEnvironmentCompilerOptions.java:125-128 | whether WARN_IF_INJECTION_FACTORY_NOT_GENERATED_UPSTREAM resolves to ENABLED |
| CompilerOptions.ProcessingEnvironmentCompilerOptions.AheadOfTimeSubcomponents | java/dagger/internal/codegen/ProcessingEnvironmentCompilerOptions.java:130-133 | whether EXPERIMENTAL_AHEAD_OF_TIME_SUBCOMPONENTS resolves to ENABLED |
| CompilerOptions.ProcessingEnvironmentCompilerOptions.ForceUseSerializedComponentImplementations | java/dagger/internal/codegen/ProcessingEnvironmentCompilerOptions.java:135-138 | whether FORCE_USE_SERIALIZED_COMPONENT_IMPLEMENTATIONS resolves to ENABLED |
| CompilerOptions.ProcessingEnvironmentCompilerOptions.EmitModifiableMetadataAnnotations | java/dagger/internal/codegen/ProcessingEnvironmentCompilerOptions.java:140-143 | whether EMIT_MODIFIABLE_METADATA_ANNOTATIONS resolves to ENABLED |
| CompilerOptions.ProcessingEnvironmentCompilerOptions.NullableValidationKind | java/dagger/internal/codegen/ProcessingEnvironmentCompilerOptions.java:100-103 | nullableValidationKind() is the kind NULLABLE_VALIDATION resolves to |
| CompilerOptions.ProcessingEnvironmentCompilerOptions.PrivateMemberValidationKind | java/dagger/internal/codegen/ProcessingEnvironmentCompilerOptions.java:105-108 | privateMemberValidationKind() is the kind PRIVATE_MEMBER_VALIDATION resolves to |
| CompilerOptions.ProcessingEnvironmentCompilerOptions.StaticMemberValidationKind | java/dagger/internal/codegen/ProcessingEnvironmentCompilerOptions.java:110-113 | staticMemberValidationKind() is the kind STATIC_MEMBER_VALIDATION resolves to |
| CompilerOptions.ProcessingEnvironmentCompilerOptions.ModuleHasDifferentScopesDiagnosticKind | java/dagger/internal/codegen/ProcessingEnvironmentCompilerOptions.java:159-162 | the kind MODULE_HAS_DIFFERENT_SCOPES_VALIDATION resolves to |
| CompilerOptions.ProcessingEnvironmentCompilerOptions.ScopeCycleValidationType | java/dagger/internal/codegen/ProcessingEnvironmentCompilerOptions.java:120-123 | scopeCycleValidationType() is the value DISABLE_INTER_COMPONENT_SCOPE_VALIDATION resolves to |
| CompilerOptions.ProcessingEnvironmentCompilerOptions.ModuleBindingValidationType | java/dagger/internal/codegen/ProcessingEnvironmentCompilerOptions.java:150-157 | moduleBindingValidationType(element) is the value MODULE_BINDING_VALIDATION resolves to, whatever the element |
| CompilerOptions.ProcessingEnvironmentCompilerOptions.ExplicitBindingConflictsWithInjectValidationType | java/dagger/internal/codegen/ProcessingEnvironmentCompilerOptions.java:164-167 | the value EXPLICIT_BINDING_CONFLICTS_WITH_INJECT resolves to |
| Scenarios.FeatureValidNames | java/dagger/internal/codegen/ProcessingEnvironmentCompilerOptions.java:278-281 | a feature's invalid-value error lists ENABLED and DISABLED |
| Scenarios.NullableValidNames | java/dagger/internal/codegen/ProcessingEnvironmentCompilerOptions.java:293 | the nullable validation's invalid-value error lists ERROR and WARNING |
| Scenarios.UpperCaseOfEnabled | java/dagger/internal/codegen/ProcessingEnvironmentCompilerOptions.java:376 | "enabled" upper-cases to "ENABLED" |
| Scenarios.UpperCaseOfNone | java/dagger/internal/codegen/ProcessingEnvironmentCompilerOptions.java:376 | "none" upper-cases to "NONE" |
| Scenarios.OnlyFeatureEnabled | java/dagger/internal/codegen/ProcessingEnvironmentCompilerOptions.java:364-394 | a feature given alone with a value reading ENABLED is enabled silently; everything else keeps its default; create() reports only a retired feature's warning |
| Scenarios.FastInitEnabled | java/dagger/internal/codegen/ProcessingEnvironmentCompilerOptions.java:85-88 | -Adagger.fastInit=enabled turns fast init on, leaves everything else at its default, and reports nothing |
| Scenarios.NullableAccepts | java/dagger/internal/codegen/ProcessingEnvironmentCompilerOptions.java:293 | the nullable validation accepts a name exactly when it is ERROR or WARNING |
| Scenarios.NullableValidationRejects | java/dagger/internal/codegen/ProcessingEnvironmentCompilerOptions.java:380-393 | the nullable validation given alone with any value whose ASCII upper case is neither ERROR nor WARNING (the empty value included) keeps ERROR, and create() reports one error listing ERROR and WARNING and the text |
| Scenarios.NullableValidationBogus | java/dagger/internal/codegen/ProcessingEnvironmentCompilerOptions.java:380-393 | -Adagger.nullableValidation=bogus keeps ERROR and draws exactly that one error |
| Scenarios.NullableValidationRejectsNone | java/dagger/internal/codegen/ProcessingEnvironmentCompilerOptions.java:377-393 | "none" names a real constant that the nullable validation does not accept, so it is rejected like any other text |
| Scenarios.ModuleBindingValidationAcceptsNone | java/dagger/internal/codegen/ProcessingEnvironmentCompilerOptions.java:300 | the module-binding validation accepts "none" and turns off silently |
| Scenarios.UnprefixedAndroidModeIsIgnored | java/dagger/internal/codegen/ProcessingEnvironmentCompilerOptions.java:343-345 | an entry under the unprefixed name "experimental_android_mode" is no key of the registry, so it changes nothing and draws no diagnostic |
| Scenarios.RetiredFeatureGiven | java/dagger/internal/codegen/ProcessingEnvironmentCompilerOptions.java:186-204 | a retired feature given alone draws its own diagnostic, then the retirement warning |
| Scenarios.AndroidModeWithoutValue | java/dagger/internal/codegen/ProcessingEnvironmentCompilerOptions.java:367-371 | the retired android-mode key without a value draws a "needs a value" error, then the retirement warning |
| Scenarios.FeatureRejectsEmptyValue | java/dagger/internal/codegen/ProcessingEnvironmentCompilerOptions.java:374-393 | an empty value names no constant, so a feature keeps its default and reports an invalid value |
| Scenarios.AndroidModeWithEmptyValue | java/dagger/internal/codegen/ProcessingEnvironmentCompilerOptions.java:374-393 | the retired android-mode key holding the empty string draws an invalid-value error, then the retirement warning |

## Left out

- usesProducers (lines 74-78) looks a class up in the compiler's element table. That is a foreign call, so it is not modelled.
- The ProcessingEnvironment and Messager APIs are replaced by an immutable raw option map and an append-only sequence of messages.
- Messages are structured records (kind, key, body). The `String.format`/`Set.toString` rendering of their text is not modelled, and `InvalidValue` holds the accepted names as a set, not in a printed order.
- FeatureStatus.java and ValidationType.java are not part of this model. Their constants are taken to be ENABLED and DISABLED, and ERROR, WARNING and NONE in that order. `diagnosticKind()` is taken to map ERROR to an error, WARNING to a warning, and NONE to no kind.
- Registry.ValidationType.DiagnosticKind: the Java `Optional.get()` that would throw on NONE is replaced by a precondition (`NONE !in ValidValues()`) on `ValidationKind` and `DiagnosticKindOf`. The four callers always meet it (`Resolver.ReportingValidationsHaveAKind`).
- Guava's `CaseFormat` and `Ascii`: only ASCII upper-casing and the UPPER_UNDERSCORE to lowerCamel conversion of ASCII identifiers are modelled, not the library's general behaviour.
- Registry.Feature.Words and Registry.Validation.Words: each enum constant's `name()` is stored as its list of words, joined with underscores. The name strings are therefore derived rather than written out.
- The single `HashMap<EnumOption<?>, Object>` cache with its covariant cast is modelled as two typed maps, one for features and one for validations.
- `checkValid` returning `this` is not modelled; `Create` returns the object directly.
- CompilerOptions.ProcessingEnvironmentCompilerOptions.constructor takes the resolutions of its options as ghost parameters. The caches and messages are specified against them, and `Create` passes exactly the options' resolutions (`CompilerOptions.FeaturesResolveAs`).
- `moduleBindingValidationType(element)` ignores its element. `TypeElement` is modelled as a record holding a name only.
- The abstract superclass `CompilerOptions` is not part of this model.
