/** The document half of the converter: walking the groups and their rules
    in order, numbering every rule with one document-wide counter, and
    keeping the records of the loaded rules. */
module Traversal {

  import opened Wrappers
  import opened Schema
  import opened RuleMapper

  /** One step of the traversal: a rule together with its group's name. */
  datatype Entry = Entry(group: string, rule: SourceRule)

  /** The rules of one group, tagged with the group's name. */
  function GroupEntries(g: SourceGroup): seq<Entry> {
    seq(|g.rule|, i requires 0 <= i < |g.rule| => Entry(g.group, g.rule[i]))
  }

  /** Total number of rules across all groups. */
  function RuleCount(groups: seq<SourceGroup>): nat {
    if groups == [] then 0 else |groups[0].rule| + RuleCount(groups[1..])
  }

  /** Every rule of the document in traversal order: groups in order, and
      within each group its rules in order; one entry per rule. */
  function Flatten(groups: seq<SourceGroup>): (es: seq<Entry>)
    ensures |es| == RuleCount(groups)
  {
    RuleCountLast(groups);
    if groups == [] then []
    else Flatten(groups[..|groups| - 1]) + GroupEntries(groups[|groups| - 1])
  }

  /** Counting the rules from the back gives the same total. */
  lemma {:induction false} RuleCountLast(groups: seq<SourceGroup>)
    ensures groups != [] ==>
      RuleCount(groups) == RuleCount(groups[..|groups| - 1]) + |groups[|groups| - 1].rule|
  {
    if |groups| > 1 {
      RuleCountLast(groups[1..]);
      assert groups[1..][..|groups| - 2] == groups[..|groups| - 1][1..];
    }
  }

  /** What the loop body builds for entry `e` once the counter reads `index`. */
  function Convert(e: Entry, index: int): Option<TargetRecord> {
    BpRuleToYakitRule(e.group, e.rule.name, EffectiveRegex(e.rule),
                      e.rule.loaded, e.rule.scope, e.rule.color, index)
  }

  /** What the loop appends for entry `e` at counter value `index`: the
      record when there is one, nothing otherwise. */
  function Emit(e: Entry, index: int): seq<TargetRecord> {
    match Convert(e, index)
    case Some(t) => [t]
    case None => []
  }

  /** Reference definition of the output for a traversal prefix: the entry
      at 1-based position k is converted with index k, and its record is
      kept when there is one. */
  function Converted(entries: seq<Entry>): seq<TargetRecord> {
    if entries == [] then []
    else
      var n := |entries|;
      Converted(entries[..n - 1]) + Emit(entries[n - 1], n)
  }

  /** The 0-based positions of the loaded rules, in increasing order. */
  function LoadedPositions(entries: seq<Entry>): (ps: seq<nat>)
    ensures forall k :: 0 <= k < |ps| ==> ps[k] < |entries|
    ensures forall j, k :: 0 <= j < k < |ps| ==> ps[j] < ps[k]
  {
    if entries == [] then []
    else
      var n := |entries|;
      LoadedPositions(entries[..n - 1]) + if entries[n - 1].rule.loaded then [n - 1] else []
  }

  /** A position is listed exactly when the rule there is loaded. */
  lemma {:induction false} LoadedPositionsComplete(entries: seq<Entry>, i: nat)
    requires i < |entries|
    ensures entries[i].rule.loaded <==> i in LoadedPositions(entries)
  {
    var n := |entries|;
    var prefix := entries[..n - 1];
    if i < n - 1 {
      LoadedPositionsComplete(prefix, i);
      assert entries[i] == prefix[i];
    }
  }

  /** One record per loaded rule. */
  lemma {:induction false} ConvertedLength(entries: seq<Entry>)
    ensures |Converted(entries)| == |LoadedPositions(entries)|
  {
    if entries != [] {
      ConvertedLength(entries[..|entries| - 1]);
    }
  }

  /** The k-th record is the one the k-th loaded rule converts to, with its
      1-based traversal position as counter value. */
  lemma {:induction false} ConvertedAt(entries: seq<Entry>, k: nat)
    requires k < |Converted(entries)|
    ensures k < |LoadedPositions(entries)|
    ensures var p := LoadedPositions(entries)[k];
      && entries[p].rule.loaded
      && Converted(entries)[k].index == p + 1
      && Convert(entries[p], p + 1) == Some(Converted(entries)[k])
  {
    var n := |entries|;
    var prefix := entries[..n - 1];
    ConvertedLength(entries);
    ConvertedLength(prefix);
    if k < |Converted(prefix)| {
      ConvertedAt(prefix, k);
      var p := LoadedPositions(prefix)[k];
      assert Converted(entries)[k] == Converted(prefix)[k];
      assert LoadedPositions(entries)[k] == p;
      assert entries[p] == prefix[p];
    } else {
      assert LoadedPositions(entries)[k] == n - 1;
    }
  }

  /** Fields of every emitted record, in terms of the rule it came from. */
  lemma EmittedRecordFields(entries: seq<Entry>, k: nat)
    requires k < |Converted(entries)|
    ensures k < |LoadedPositions(entries)|
    ensures var p := LoadedPositions(entries)[k];
      var e := entries[p];
      var t := Converted(entries)[k];
      && e.rule.loaded
      && t.index == p + 1
      && t.extraTag == [e.group + "/" + e.rule.name]
      && t.verboseName == e.rule.name
      && t.rule == EffectiveRegex(e.rule)
      && t.noReplace
      && t.color == e.rule.color
      && t.enableForBody == !EndsWith(e.rule.scope, "header")
      && t.enableForHeader == !EndsWith(e.rule.scope, "body")
      && t.enableForRequest == !StartsWith(e.rule.scope, "response")
      && t.enableForResponse == !StartsWith(e.rule.scope, "request")
  {
    ConvertedAt(entries, k);
  }

  /** Indices of emitted records are their rules' 1-based traversal
      positions, and so strictly increase along the output. */
  lemma IndicesStrictlyIncrease(entries: seq<Entry>)
    ensures |Converted(entries)| == |LoadedPositions(entries)|
    ensures forall k :: 0 <= k < |Converted(entries)| ==>
      Converted(entries)[k].index == LoadedPositions(entries)[k] + 1
    ensures forall j, k :: 0 <= j < k < |Converted(entries)| ==>
      Converted(entries)[j].index < Converted(entries)[k].index
  {
    ConvertedLength(entries);
    forall k | 0 <= k < |Converted(entries)|
      ensures Converted(entries)[k].index == LoadedPositions(entries)[k] + 1
    {
      ConvertedAt(entries, k);
    }
  }

  /** Every loaded rule has a record in the output, carrying its 1-based
      traversal position as index. */
  lemma LoadedRuleHasRecord(entries: seq<Entry>, i: nat)
    requires i < |entries| && entries[i].rule.loaded
    ensures exists k :: 0 <= k < |Converted(entries)| && Converted(entries)[k].index == i + 1
  {
    var ps := LoadedPositions(entries);
    IndicesStrictlyIncrease(entries);
    LoadedPositionsComplete(entries, i);
    var k :| 0 <= k < |ps| && ps[k] == i;
    assert Converted(entries)[k].index == i + 1;
  }

  /** Whether rule number `j` of the walk (1-based, the numbering of the
      running index) is loaded. */
  predicate RuleLoaded(entries: seq<Entry>, j: int)
    requires 1 <= j <= |entries|
  {
    entries[j - 1].rule.loaded
  }

  /** A skipped rule still uses up its index: every rule number strictly
      between two consecutive emitted records, before the first one or
      after the last one is a rule that is not loaded. */
  lemma SkippedRulesLeaveGaps(entries: seq<Entry>)
    ensures var out := Converted(entries);
      forall k, j :: 0 <= k < |out| - 1 && out[k].index < j < out[k + 1].index && 1 <= j <= |entries| ==>
        !RuleLoaded(entries, j)
    ensures var out := Converted(entries);
      |out| > 0 ==> forall j :: 1 <= j < out[0].index && j <= |entries| ==> !RuleLoaded(entries, j)
    ensures var out := Converted(entries);
      |out| > 0 ==> forall j :: out[|out| - 1].index < j <= |entries| && 1 <= j ==> !RuleLoaded(entries, j)
    ensures var out := Converted(entries);
      |out| == 0 ==> forall j :: 1 <= j <= |entries| ==> !RuleLoaded(entries, j)
  {
    IndicesStrictlyIncrease(entries);
    forall j | 1 <= j <= |entries| && RuleLoaded(entries, j)
      ensures exists k :: 0 <= k < |Converted(entries)| && Converted(entries)[k].index == j
    {
      LoadedRuleHasRecord(entries, j - 1);
    }
  }

  /** At most one loaded position per rule; one for every rule exactly
      when every rule is loaded. */
  lemma {:induction false} LoadedPositionsLength(entries: seq<Entry>)
    ensures |LoadedPositions(entries)| <= |entries|
    ensures |LoadedPositions(entries)| == |entries| <==>
      forall i :: 0 <= i < |entries| ==> entries[i].rule.loaded
  {
    if entries != [] {
      var n := |entries|;
      var prefix := entries[..n - 1];
      LoadedPositionsLength(prefix);
      if forall i :: 0 <= i < n ==> entries[i].rule.loaded {
        forall i | 0 <= i < n - 1 ensures prefix[i].rule.loaded {
          assert prefix[i] == entries[i];
        }
      } else {
        var i :| 0 <= i < n && !entries[i].rule.loaded;
        if i < n - 1 {
          assert !prefix[i].rule.loaded;
        }
      }
    }
  }

  /** At most one record per rule; exactly one per rule when every rule is loaded. */
  lemma OutputLength(entries: seq<Entry>)
    ensures |Converted(entries)| <= |entries|
    ensures |Converted(entries)| == |entries| <==>
      forall i :: 0 <= i < |entries| ==> entries[i].rule.loaded
  {
    ConvertedLength(entries);
    LoadedPositionsLength(entries);
  }

  /** Entry of the rule `ri` of group `gi`: it sits right after all the
      rules of the groups before it. */
  lemma {:induction false} FlattenAt(groups: seq<SourceGroup>, gi: nat, ri: nat)
    requires gi < |groups| && ri < |groups[gi].rule|
    ensures RuleCount(groups[..gi]) + ri < |Flatten(groups)|
    ensures Flatten(groups)[RuleCount(groups[..gi]) + ri] == Entry(groups[gi].group, groups[gi].rule[ri])
  {
    var n := |groups|;
    var prefix := groups[..n - 1];
    var head, last := Flatten(prefix), GroupEntries(groups[n - 1]);
    assert Flatten(groups) == head + last;
    if gi < n - 1 {
      FlattenAt(prefix, gi, ri);
      assert prefix[..gi] == groups[..gi];
      assert prefix[gi] == groups[gi];
      var p := RuleCount(groups[..gi]) + ri;
      assert (head + last)[p] == head[p];
    } else {
      assert groups[..gi] == prefix;
      assert (head + last)[|head| + ri] == last[ri];
    }
  }

  /** The records of a whole document. */
  function ConvertDocument(doc: SourceDocument): seq<TargetRecord> {
    Converted(Flatten(doc.rules))
  }

  /** Rule `ri` of group `gi` is numbered "rules in earlier groups + ri + 1",
      and the output holds a record with that index exactly when the rule
      is loaded. */
  lemma RuleOfGroupHasRecord(doc: SourceDocument, gi: nat, ri: nat)
    requires gi < |doc.rules| && ri < |doc.rules[gi].rule|
    ensures var out := ConvertDocument(doc);
      (exists k :: 0 <= k < |out| && out[k].index == RuleCount(doc.rules[..gi]) + ri + 1)
        <==> doc.rules[gi].rule[ri].loaded
  {
    var entries := Flatten(doc.rules);
    var out := Converted(entries);
    var p := RuleCount(doc.rules[..gi]) + ri;
    FlattenAt(doc.rules, gi, ri);
    assert entries[p].rule == doc.rules[gi].rule[ri];
    if doc.rules[gi].rule[ri].loaded {
      LoadedRuleHasRecord(entries, p);
    } else {
      forall k | 0 <= k < |out| ensures out[k].index != p + 1 {
        ConvertedAt(entries, k);
      }
    }
  }

  /** The record carrying the number of rule `ri` of group `gi` is tagged
      with that group's name and that rule's name. */
  lemma RuleOfGroupRecordTag(doc: SourceDocument, gi: nat, ri: nat, k: nat)
    requires gi < |doc.rules| && ri < |doc.rules[gi].rule|
    requires k < |ConvertDocument(doc)|
    requires ConvertDocument(doc)[k].index == RuleCount(doc.rules[..gi]) + ri + 1
    ensures ConvertDocument(doc)[k].extraTag == [doc.rules[gi].group + "/" + doc.rules[gi].rule[ri].name]
    ensures ConvertDocument(doc)[k].verboseName == doc.rules[gi].rule[ri].name
  {
    var entries := Flatten(doc.rules);
    var p := RuleCount(doc.rules[..gi]) + ri;
    FlattenAt(doc.rules, gi, ri);
    EmittedRecordFields(entries, k);
    assert LoadedPositions(entries)[k] == p;
    assert entries[p] == Entry(doc.rules[gi].group, doc.rules[gi].rule[ri]);
  }

  /** Every entry of the traversal is a rule of one of the groups, tagged
      with that group's name. */
  lemma {:induction false} FlattenEntryOrigin(groups: seq<SourceGroup>, p: nat)
    requires p < |Flatten(groups)|
    ensures exists gi, ri :: (0 <= gi < |groups| && 0 <= ri < |groups[gi].rule| &&
      Flatten(groups)[p] == Entry(groups[gi].group, groups[gi].rule[ri]))
  {
    var n := |groups|;
    var prefix := groups[..n - 1];
    var m := |Flatten(prefix)|;
    if p < m {
      FlattenEntryOrigin(prefix, p);
      var gi, ri :| 0 <= gi < |prefix| && 0 <= ri < |prefix[gi].rule| &&
        Flatten(prefix)[p] == Entry(prefix[gi].group, prefix[gi].rule[ri]);
      assert prefix[gi] == groups[gi];
    } else {
      assert Flatten(groups)[p] == Entry(groups[n - 1].group, groups[n - 1].rule[p - m]);
    }
  }

  /** Every rule of every group of the document is loaded. */
  predicate AllLoaded(doc: SourceDocument) {
    forall gi, ri :: 0 <= gi < |doc.rules| && 0 <= ri < |doc.rules[gi].rule| ==>
      doc.rules[gi].rule[ri].loaded
  }

  /** The output of a document has at most one record per rule of the
      document, and exactly one per rule when every rule is loaded. */
  lemma DocumentOutputLength(doc: SourceDocument)
    ensures |ConvertDocument(doc)| <= RuleCount(doc.rules)
    ensures |ConvertDocument(doc)| == RuleCount(doc.rules) <==> AllLoaded(doc)
  {
    var entries := Flatten(doc.rules);
    OutputLength(entries);
    if AllLoaded(doc) {
      forall i | 0 <= i < |entries| ensures entries[i].rule.loaded {
        FlattenEntryOrigin(doc.rules, i);
      }
    }
    if forall i :: 0 <= i < |entries| ==> entries[i].rule.loaded {
      forall gi, ri | 0 <= gi < |doc.rules| && 0 <= ri < |doc.rules[gi].rule|
        ensures doc.rules[gi].rule[ri].loaded
      {
        FlattenAt(doc.rules, gi, ri);
      }
    }
  }

  /** Converting one more entry appends its record, if any. */
  lemma ConvertedSnoc(prefix: seq<Entry>, e: Entry)
    ensures Converted(prefix + [e]) ==
      Converted(prefix) + Emit(e, |prefix| + 1)
  {
    var s := prefix + [e];
    assert s[..|s| - 1] == prefix;
    assert s[|s| - 1] == e;
  }

  /** The entries traversed so far grow by the next rule of the group. */
  lemma EntriesStep(done: seq<Entry>, g: SourceGroup, ri: nat)
    requires ri < |g.rule|
    ensures done + GroupEntries(g)[..ri + 1] == (done + GroupEntries(g)[..ri]) + [Entry(g.group, g.rule[ri])]
  {
    var entries := GroupEntries(g);
    var e := Entry(g.group, g.rule[ri]);
    assert entries[..ri + 1] == entries[..ri] + [e];
  }

  /** Traversing one more group appends its rules. */
  lemma FlattenSnoc(groups: seq<SourceGroup>, gi: nat)
    requires gi < |groups|
    ensures Flatten(groups[..gi + 1]) == Flatten(groups[..gi]) + GroupEntries(groups[gi])
  {
    assert groups[..gi + 1][..gi] == groups[..gi];
  }

  /** The group/rule traversal of `yamlToJson`: one counter for the whole
      document, advanced for every rule before it is converted, and an
      output list that receives every non-empty object in order. */
  method ConvertRules(doc: SourceDocument) returns (allDictList: seq<TargetRecord>)
    ensures allDictList == ConvertDocument(doc)
    ensures |allDictList| <= RuleCount(doc.rules)
    ensures forall j, k :: 0 <= j < k < |allDictList| ==> allDictList[j].index < allDictList[k].index
  {
    allDictList := [];
    var index := 0;
    ghost var traversed: seq<Entry> := [];
    var groupList := doc.rules;
    for gi := 0 to |groupList|
      invariant traversed == Flatten(groupList[..gi])
      invariant index == |traversed|
      invariant allDictList == Converted(traversed)
    {
      var ruleList := groupList[gi].rule;
      var ruleGroup := groupList[gi].group;
      ghost var done := traversed;
      for ri := 0 to |ruleList|
        invariant traversed == done + GroupEntries(groupList[gi])[..ri]
        invariant index == |traversed|
        invariant allDictList == Converted(traversed)
      {
        var rule := ruleList[ri];
        index := index + 1;
        var name := rule.name;
        var regex := EffectiveRegex(rule);
        var yakitDict := BpRuleToYakitRule(ruleGroup, name, regex, rule.loaded, rule.scope, rule.color, index);
        if KeyCount(yakitDict) != 0 {
          allDictList := allDictList + [yakitDict.value];
        }
        ConvertedSnoc(traversed, Entry(ruleGroup, rule));
        EntriesStep(done, groupList[gi], ri);
        traversed := traversed + [Entry(ruleGroup, rule)];
      }
      assert GroupEntries(groupList[gi])[..|ruleList|] == GroupEntries(groupList[gi]);
      FlattenSnoc(groupList, gi);
    }
    assert groupList[..|groupList|] == groupList;
    DocumentOutputLength(doc);
    IndicesStrictlyIncrease(traversed);
  }
}
