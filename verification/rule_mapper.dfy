/** The per-rule half of the converter: choosing the effective regex of a
    rule and turning one HAE rule into nothing or one Yakit record. */
module RuleMapper {

  import opened Wrappers
  import opened Schema

  /** `s.startsWith(prefix)` */
  predicate StartsWith(s: string, prefix: string) {
    prefix <= s
  }

  /** `s.endsWith(suffix)` */
  predicate EndsWith(s: string, suffix: string) {
    |suffix| <= |s| && s[|s| - |suffix|..] == suffix
  }

  /** JavaScript truthiness of a field that is either absent or a string:
      `undefined` and `''` are falsy, every other string is truthy. */
  predicate Truthy(v: Option<string>) {
    v.Some? && v.value != ""
  }

  /** JavaScript `a || b` on such fields. */
  function Or(a: Option<string>, b: Option<string>): Option<string> {
    if Truthy(a) then a else b
  }

  /** `rule.f_regex || rule.s_regex || rule.regex || ''`: the first of the
      three fields holding a non-empty string, else the empty string. An
      empty `f_regex` or `s_regex` falls through just as an absent one. */
  function EffectiveRegex(r: SourceRule): (re: string)
    ensures Truthy(r.fRegex) ==> re == r.fRegex.value
    ensures !Truthy(r.fRegex) && Truthy(r.sRegex) ==> re == r.sRegex.value
    ensures !Truthy(r.fRegex) && !Truthy(r.sRegex) && Truthy(r.regex) ==> re == r.regex.value
    ensures !Truthy(r.fRegex) && !Truthy(r.sRegex) && !Truthy(r.regex) ==> re == ""
  {
    Or(Or(Or(r.fRegex, r.sRegex), r.regex), Some("")).value
  }

  /** No string ends with both "body" and "header": their last letters differ. */
  lemma PartSuffixesExclusive(s: string)
    ensures !(EndsWith(s, "body") && EndsWith(s, "header"))
  {
    if EndsWith(s, "body") {
      assert s[|s| - 1] == "body"[3] == 'y';
    }
  }

  /** No string starts with both "request" and "response": their third letters differ. */
  lemma DirectionPrefixesExclusive(s: string)
    ensures !(StartsWith(s, "request") && StartsWith(s, "response"))
  {
    if StartsWith(s, "request") {
      assert s[2] == "request"[2] == 'q';
    }
  }

  /** The part flags `(EnableForBody, EnableForHeader)` chosen by the
      suffix of `scope`, falling back to both. A flag is off exactly when
      `scope` ends with the other part, so at least one is on. */
  function PartFlags(scope: string): (flags: (bool, bool))
    ensures flags.0 == !EndsWith(scope, "header")
    ensures flags.1 == !EndsWith(scope, "body")
    ensures flags.0 || flags.1
  {
    PartSuffixesExclusive(scope);
    if EndsWith(scope, "body") then (true, false)
    else if EndsWith(scope, "header") then (false, true)
    else (true, true)
  }

  /** The direction flags `(EnableForRequest, EnableForResponse)` chosen by
      the prefix of `scope`, falling back to both. A flag is off exactly
      when `scope` starts with the other direction, so at least one is on. */
  function DirectionFlags(scope: string): (flags: (bool, bool))
    ensures flags.0 == !StartsWith(scope, "response")
    ensures flags.1 == !StartsWith(scope, "request")
    ensures flags.0 || flags.1
  {
    DirectionPrefixesExclusive(scope);
    if StartsWith(scope, "request") then (true, false)
    else if StartsWith(scope, "response") then (false, true)
    else (true, true)
  }

  /** The object built for one rule: `{}` (None) when the rule is not
      loaded, otherwise the record, whose part flags depend only on the
      suffix of `scope` and whose direction flags only on its prefix. */
  function BpRuleToYakitRule(ruleGroup: string, name: string, rule: string, loaded: bool,
                             scope: string, color: string, index: int): (r: Option<TargetRecord>)
    ensures r.None? <==> !loaded
    ensures r.Some? ==>
      && r.value.extraTag == [ruleGroup + "/" + name]
      && r.value.verboseName == name
      && r.value.rule == rule
      && r.value.noReplace
      && r.value.color == color
      && r.value.index == index
    ensures r.Some? ==> r.value.enableForBody == !EndsWith(scope, "header")
    ensures r.Some? ==> r.value.enableForHeader == !EndsWith(scope, "body")
    ensures r.Some? ==> r.value.enableForRequest == !StartsWith(scope, "response")
    ensures r.Some? ==> r.value.enableForResponse == !StartsWith(scope, "request")
  {
    if !loaded then None
    else
      var (body, header) := PartFlags(scope);
      var (request, response) := DirectionFlags(scope);
      Some(TargetRecord([ruleGroup + "/" + name], name, rule, true, color, index,
                        body, header, request, response))
  }

  /** The branch-by-branch table of the four flags of a loaded rule's
      record, as the two if/else-if/else chains set them; the part check
      and the direction check are independent of each other. */
  lemma ScopeFlagsTable(ruleGroup: string, name: string, rule: string,
                        scope: string, color: string, index: int)
    ensures var t := BpRuleToYakitRule(ruleGroup, name, rule, true, scope, color, index).value;
      && (EndsWith(scope, "body") ==> t.enableForBody && !t.enableForHeader)
      && (!EndsWith(scope, "body") && EndsWith(scope, "header") ==> !t.enableForBody && t.enableForHeader)
      && (!EndsWith(scope, "body") && !EndsWith(scope, "header") ==> t.enableForBody && t.enableForHeader)
      && (StartsWith(scope, "request") ==> t.enableForRequest && !t.enableForResponse)
      && (!StartsWith(scope, "request") && StartsWith(scope, "response") ==> !t.enableForRequest && t.enableForResponse)
      && (!StartsWith(scope, "request") && !StartsWith(scope, "response") ==> t.enableForRequest && t.enableForResponse)
      && (t.enableForBody || t.enableForHeader)
      && (t.enableForRequest || t.enableForResponse)
  {
    PartSuffixesExclusive(scope);
    DirectionPrefixesExclusive(scope);
  }

  /** Number of own keys of the object `BpRuleToYakitRule` returns, the
      test `Object.keys(yakitDict).length !== 0`: `{}` has none; a record
      has its six fixed keys and one per flag that was set. */
  function KeyCount(o: Option<TargetRecord>): (n: nat)
    ensures n == 0 <==> o.None?
    ensures o.Some? ==> 6 <= n <= 10
  {
    match o
    case None => 0
    case Some(t) =>
      6 + (if t.enableForBody then 1 else 0) + (if t.enableForHeader then 1 else 0)
        + (if t.enableForRequest then 1 else 0) + (if t.enableForResponse then 1 else 0)
  }

  /** A loaded rule's object always has keys (eight to ten of them), so the
      emptiness filter drops exactly the rules that are not loaded. */
  lemma EmptinessFilterDropsUnloaded(ruleGroup: string, name: string, rule: string, loaded: bool,
                                     scope: string, color: string, index: int)
    ensures var n := KeyCount(BpRuleToYakitRule(ruleGroup, name, rule, loaded, scope, color, index));
      && (n != 0 <==> loaded)
      && (loaded ==> 8 <= n)
  {
  }
}
