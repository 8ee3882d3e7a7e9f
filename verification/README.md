# HaeToYakit rule conversion, modelled in Dafny

HaeToYakit turns a HaE rule file (YAML: a list of groups, each with a
group name and a list of rules) into a Yakit rule list (JSON). Each rule
of each group is visited in file order with a 1-based running index;
the rule's pattern is the first truthy of `f_regex`, `s_regex`, `regex`
(or the empty string); `bpRuleToYakitRule` builds the Yakit record, or an
empty object when the rule is not loaded; only non-empty objects are kept.

The model has five modules:

- `Wrappers` — `Option`, which stands for a YAML field that may be absent.
- `Schema` — the parsed source document (`SourceDocument`, `SourceGroup`,
  `SourceRule`) and the Yakit record (`TargetRecord`). The four optional
  `EnableFor…` keys of the JavaScript object are booleans here: the code
  only ever sets such a key to `true` or leaves it out
  (HaeToYakit.js:96-113), so the model's `false` stands for an absent key.
- `RuleMapper` — the per-rule conversion: pattern precedence under
  JavaScript `||` truthiness, the scope-to-flags mapping, the record
  builder, and the key count used by the emptiness filter.
- `Traversal` — the group/rule walk of `yamlToJson` as an imperative
  method (`ConvertRules`, the two nested loops with the running index and
  the append) proved equal to a specification function
  (`ConvertDocument`), and the properties of that function: which rules
  produce records, with which index and tag, in which order, and how many.
- `Scenarios` — worked examples of the mapping, checked by the verifier.

Two consequences of the code that the model makes explicit:

- A scope ending in `body` enables the body and never the header: the
  `body` branch sets only `EnableForBody`, and the fallback that sets both
  parts is reached only when neither suffix matches (HaeToYakit.js:96-103);
  it gets both directions unless it starts with `request` or `response`.
- The pattern fields are chosen by truthiness (HaeToYakit.js:48), so an
  empty `f_regex` or `s_regex` falls through like an absent one.

## Model

| member | source | states |
|---|---|---|
| RuleMapper.EffectiveRegex | HaeToYakit.js:48 | the pattern is `f_regex` when truthy, else `s_regex` when truthy, else `regex` when truthy, else the empty string; absent and empty fields both fall through |
| RuleMapper.PartSuffixesExclusive | HaeToYakit.js:96-98 | no scope ends in both `body` and `header`, so the order of the two tests never matters |
| RuleMapper.DirectionPrefixesExclusive | HaeToYakit.js:106-108 | no scope starts with both `request` and `response` |
| RuleMapper.PartFlags | HaeToYakit.js:96-103 | body is enabled exactly when the scope does not end in `header`, header exactly when it does not end in `body`; at least one of them is enabled |
| RuleMapper.DirectionFlags | HaeToYakit.js:106-113 | request is enabled exactly when the scope does not start with `response`, response exactly when it does not start with `request`; at least one of them is enabled |
| RuleMapper.BpRuleToYakitRule | HaeToYakit.js:83-116 | an unloaded rule yields the empty object (`None`) and a loaded one always yields a record; the record's tag is `group/name`, its name, pattern, colour and index are passed through, `NoReplace` is true, and its four flags follow the scope as above |
| RuleMapper.ScopeFlagsTable | HaeToYakit.js:96-113 | the branch table of the two scope chains: `…body` gives body only, `…header` header only, anything else both; `request…` gives request only, `response…` response only, anything else both; every record has at least one part and one direction enabled |
| RuleMapper.KeyCount | HaeToYakit.js:53 | the number of keys of the built object is zero exactly for the empty object, and between 6 and 10 for a record |
| RuleMapper.EmptinessFilterDropsUnloaded | HaeToYakit.js:53 | the key count of a converted rule is non-zero exactly when the rule is loaded, and at least 8 then, so the filter drops precisely the unloaded rules |
| Traversal.Flatten | HaeToYakit.js:39-43 | the group-major walk visits exactly as many rules as the groups hold |
| Traversal.FlattenAt | HaeToYakit.js:39-44 | rule `ri` of group `gi` is visited at position (rules of earlier groups) + `ri`, carrying its own group name |
| Traversal.FlattenEntryOrigin | HaeToYakit.js:39-43 | every visited position comes from some rule of some group, with that group's name |
| Traversal.LoadedPositions | HaeToYakit.js:43-55 | the positions of the rules that produce records lie inside the walk and strictly increase |
| Traversal.LoadedPositionsComplete | HaeToYakit.js:53-55 | a position is among them exactly when its rule is loaded |
| Traversal.LoadedPositionsLength | HaeToYakit.js:53-55 | there are at most as many of them as rules, and as many exactly when every rule is loaded |
| Traversal.ConvertedLength | HaeToYakit.js:43-55 | the output has one record per loaded rule |
| Traversal.ConvertedAt | HaeToYakit.js:43-55 | the k-th record of `Converted` (the fold of `Emit`, which keeps the `Some` results of `Convert` = `BpRuleToYakitRule` on the effective pattern, lines 44-55) is `Convert` of the k-th loaded rule, made with index = its position + 1 |
| Traversal.EmittedRecordFields | HaeToYakit.js:44-54 | the k-th output record carries the tag, name, effective pattern and colour of the k-th loaded rule, `NoReplace` true, and index = its position + 1 |
| Traversal.IndicesStrictlyIncrease | HaeToYakit.js:36-54 | output indices are the 1-based walk positions and strictly increase, so output order is source order |
| Traversal.LoadedRuleHasRecord | HaeToYakit.js:44-54 | every loaded rule has a record carrying its 1-based position as index |
| Traversal.SkippedRulesLeaveGaps | HaeToYakit.js:44-54 | the index is counted for every rule, loaded or not: every 1-based rule number strictly between the indices of two consecutive records, before the first, or after the last belongs to an unloaded rule, and an empty output means no rule is loaded |
| Traversal.OutputLength | HaeToYakit.js:53-55 | the output is no longer than the walk, and as long exactly when every rule is loaded |
| Traversal.RuleOfGroupHasRecord | HaeToYakit.js:39-55 | rule `ri` of group `gi` has a record with index (rules of earlier groups) + `ri` + 1 exactly when it is loaded |
| Traversal.RuleOfGroupRecordTag | HaeToYakit.js:41-51 | that record's tag is `group/name` and its name is the rule's name |
| Traversal.DocumentOutputLength | HaeToYakit.js:35-57 | the output of a document has at most as many records as the document has rules, and exactly as many when every rule of every group is loaded |
| Traversal.ConvertRules | HaeToYakit.js:35-57 | the nested loops with the running index and the append compute exactly `ConvertDocument` (`Converted` of the group-major walk `Flatten`), whose indices strictly increase and whose length is at most the rule count |
| Scenarios.ScopeExamples | HaeToYakit.js:96-113 | the flags for `request.body`, `response.header`, `header`, `body`, `request` and a scope matching nothing |
| Scenarios.RegexExamples | HaeToYakit.js:48 | the pattern precedence on four rules, including empty strings falling through |
| Scenarios.XssGroup | HaeToYakit.js:35-116 | a one-group document with a loaded `request.body` rule and an unloaded one converts to the single expected record with index 1 |
| Scenarios.SkipAcrossGroups | HaeToYakit.js:35-116 | an unloaded rule in the first group still advances the index, so the second group's `header` rule gets index 2 and the `s_regex` pattern |

## Left out

- Reading the YAML file and parsing it (HaeToYakit.js:33-34): the model starts from the parsed document.
- Serialising with `JSON.stringify` and writing the output file (HaeToYakit.js:59-63): the model ends at the list of records; JSON layout and file I/O are not modelled.
- The `try`/`catch` that logs and rethrows (HaeToYakit.js:66-69), and the command-line parsing, banner and `main` (HaeToYakit.js:10-23, 119-133): I/O around the conversion.
- Dynamic typing of the parsed YAML: `loaded` is a boolean and `scope`, `color`, `name` and `group` are strings in the model, and the pattern fields `f_regex`, `s_regex` and `regex` are each absent or a string. A YAML number or boolean in a pattern field is not represented; line 48 would pass it through or skip it by its own truthiness. A loaded rule whose `scope` is missing makes the source throw a `TypeError` on `scope.endsWith`; that document shape cannot be expressed in the model. A non-boolean `loaded` is not modelled beyond true/false. `rules` and `rule` are lists in the model, so these cases are not represented:
  - a missing, null or non-iterable `rules` or `rule`, which throws at HaeToYakit.js:39 or 43;
  - a string as `rule`, which `for...of` walks character by character; each character is skipped at line 84 but still counted at line 44;
  - a string as `rules`: a non-empty one throws at line 43, because its characters have no `rule`, and an empty one gives `[]`.
- The index is an unbounded integer; the loss of precision of a JavaScript number above 2^53 is not modelled.
- Running the conversion twice on the same document gives the same output because every function of the model is deterministic; no separate lemma states it.
