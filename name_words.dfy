/**
 * The words that make up the names of the feature and validation constants. Each is declared
 * once, as an upper-case word, so that the names built from them are UPPER_UNDERSCORE.
 */
module NameWords {
  import CaseFormat

  const AHEAD: CaseFormat.Word := "AHEAD"
  const AND: CaseFormat.Word := "AND"
  const ANDROID: CaseFormat.Word := "ANDROID"
  const ANNOTATIONS: CaseFormat.Word := "ANNOTATIONS"
  const BINDING: CaseFormat.Word := "BINDING"
  const BINDS: CaseFormat.Word := "BINDS"
  const COMPONENT: CaseFormat.Word := "COMPONENT"
  const CONFLICTS: CaseFormat.Word := "CONFLICTS"
  const DIFFERENT: CaseFormat.Word := "DIFFERENT"
  const DISABLE: CaseFormat.Word := "DISABLE"
  const EMIT: CaseFormat.Word := "EMIT"
  const EXPERIMENTAL: CaseFormat.Word := "EXPERIMENTAL"
  const EXPLICIT: CaseFormat.Word := "EXPLICIT"
  const FACTORY: CaseFormat.Word := "FACTORY"
  const FAST: CaseFormat.Word := "FAST"
  const FLOATING: CaseFormat.Word := "FLOATING"
  const FOR: CaseFormat.Word := "FOR"
  const FORCE: CaseFormat.Word := "FORCE"
  const FORMAT: CaseFormat.Word := "FORMAT"
  const GENERATED: CaseFormat.Word := "GENERATED"
  const HAS: CaseFormat.Word := "HAS"
  const IF: CaseFormat.Word := "IF"
  const IGNORE: CaseFormat.Word := "IGNORE"
  const IMPLEMENTATIONS: CaseFormat.Word := "IMPLEMENTATIONS"
  const IN: CaseFormat.Word := "IN"
  const INIT: CaseFormat.Word := "INIT"
  const INJECT: CaseFormat.Word := "INJECT"
  const INJECTION: CaseFormat.Word := "INJECTION"
  const INTER: CaseFormat.Word := "INTER"
  const MEMBER: CaseFormat.Word := "MEMBER"
  const METADATA: CaseFormat.Word := "METADATA"
  const METHODS: CaseFormat.Word := "METHODS"
  const MODE: CaseFormat.Word := "MODE"
  const MODIFIABLE: CaseFormat.Word := "MODIFIABLE"
  const MODULE: CaseFormat.Word := "MODULE"
  const NAME: CaseFormat.Word := "NAME"
  const NOT: CaseFormat.Word := "NOT"
  const NULLABLE: CaseFormat.Word := "NULLABLE"
  const OF: CaseFormat.Word := "OF"
  const PRIVATE: CaseFormat.Word := "PRIVATE"
  const PRODUCER: CaseFormat.Word := "PRODUCER"
  const SCOPE: CaseFormat.Word := "SCOPE"
  const SCOPES: CaseFormat.Word := "SCOPES"
  const SERIALIZED: CaseFormat.Word := "SERIALIZED"
  const SOURCE: CaseFormat.Word := "SOURCE"
  const STATIC: CaseFormat.Word := "STATIC"
  const SUBCOMPONENTS: CaseFormat.Word := "SUBCOMPONENTS"
  const TIME: CaseFormat.Word := "TIME"
  const TOKEN: CaseFormat.Word := "TOKEN"
  const UPSTREAM: CaseFormat.Word := "UPSTREAM"
  const USE: CaseFormat.Word := "USE"
  const VALIDATION: CaseFormat.Word := "VALIDATION"
  const WARN: CaseFormat.Word := "WARN"
  const WITH: CaseFormat.Word := "WITH"
  const WRITE: CaseFormat.Word := "WRITE"
}
