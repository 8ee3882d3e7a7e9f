/** The two configuration schemas the converter maps between: HAE rule groups
    as they come out of the plugin's YAML file, and the rule records of a
    Yakit configuration. */
module Schema {

  import opened Wrappers

  /** One HAE rule. The three regex fields are optional; an absent `loaded`
      is `false`; `color` is passed through untouched. */
  datatype SourceRule = SourceRule(
    name: string,
    fRegex: Option<string>,
    sRegex: Option<string>,
    regex: Option<string>,
    loaded: bool,
    scope: string,
    color: string)

  /** A named group of rules (the `group` and `rule` keys). */
  datatype SourceGroup = SourceGroup(group: string, rule: seq<SourceRule>)

  /** The parsed document: its `rules` key, a sequence of groups. */
  datatype SourceDocument = SourceDocument(rules: seq<SourceGroup>)

  /** One Yakit record (`ExtraTag`, `VerboseName`, `Rule`, `NoReplace`,
      `Color`, `Index` and the four `EnableFor…` keys). The converter only
      ever sets a flag to `true` or leaves it out, so an absent flag is
      `false` here. */
  datatype TargetRecord = TargetRecord(
    extraTag: seq<string>,
    verboseName: string,
    rule: string,
    noReplace: bool,
    color: string,
    index: int,
    enableForBody: bool,
    enableForHeader: bool,
    enableForRequest: bool,
    enableForResponse: bool)
}
