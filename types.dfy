/** The settings records of the plugin and their defaults. */
module Types {
  import opened JsStrings

  /** One path replacement rule: its kind tag, the text or pattern to find, and what replaces it. */
  datatype PathSettings = PathSettings(kind: Str, pattern: Str, replace: Str)

  /** The path font size used when the setting is missing or empty. */
  const DefaultFontSize: Str := "75%"

  const ExactTag: Str := "exact"
  const FolderTag: Str := "folder"
  const TextTag: Str := "text"
  const RegExpTag: Str := "regexp"
  const FuzzyTag: Str := "fuzzy"
}
