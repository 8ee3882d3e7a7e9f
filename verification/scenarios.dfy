/** Worked examples of the converter on concrete inputs. */
module Scenarios {

  import opened Wrappers
  import opened Schema
  import opened RuleMapper
  import opened Traversal

  /** The flags chosen for the scope strings the HAE rule format uses, and
      for scopes that name only a part or only a direction. */
  lemma ScopeExamples()
    ensures PartFlags("request.body") == (true, false) && DirectionFlags("request.body") == (true, false)
    ensures PartFlags("response.header") == (false, true) && DirectionFlags("response.header") == (false, true)
    ensures PartFlags("header") == (false, true) && DirectionFlags("header") == (true, true)
    ensures PartFlags("body") == (true, false) && DirectionFlags("body") == (true, true)
    ensures PartFlags("request") == (true, true) && DirectionFlags("request") == (true, false)
    ensures PartFlags("any") == (true, true) && DirectionFlags("any") == (true, true)
  {
  }

  /** Regex precedence: `f_regex` over `s_regex` over `regex`, and empty
      strings fall through like absent fields. */
  lemma RegexExamples()
    ensures EffectiveRegex(SourceRule("r", Some("f"), Some("s"), Some("x"), true, "", "")) == "f"
    ensures EffectiveRegex(SourceRule("r", None, Some("s"), Some("x"), true, "", "")) == "s"
    ensures EffectiveRegex(SourceRule("r", Some(""), Some(""), Some("x"), true, "", "")) == "x"
    ensures EffectiveRegex(SourceRule("r", None, None, None, true, "", "")) == ""
  {
  }

  /** One group "XSS" with a loaded rule A and a rule B that is not loaded:
      only A's record comes out, with index 1; B still takes number 2. */
  lemma XssGroup()
    ensures ConvertDocument(SourceDocument([SourceGroup("XSS", [
        SourceRule("A", None, None, Some("<script>"), true, "request.body", "red"),
        SourceRule("B", Some("unused"), None, None, false, "response", "")])]))
      == [TargetRecord(["XSS/A"], "A", "<script>", true, "red", 1, true, false, true, false)]
  {
    var a := SourceRule("A", None, None, Some("<script>"), true, "request.body", "red");
    var b := SourceRule("B", Some("unused"), None, None, false, "response", "");
    var g := SourceGroup("XSS", [a, b]);
    var ea, eb := Entry("XSS", a), Entry("XSS", b);
    assert [g][..0] == [];
    assert GroupEntries(g) == [ea, eb];
    assert Flatten([g]) == [ea, eb];
    assert EffectiveRegex(a) == "<script>";
    assert "XSS" + "/" + "A" == "XSS/A";
    assert EndsWith("request.body", "body");
    assert StartsWith("request.body", "request");
    assert PartFlags("request.body") == (true, false);
    assert DirectionFlags("request.body") == (true, false);
    assert Convert(ea, 1) == Some(TargetRecord(["XSS/A"], "A", "<script>", true, "red", 1, true, false, true, false));
    assert Emit(ea, 1) == [TargetRecord(["XSS/A"], "A", "<script>", true, "red", 1, true, false, true, false)];
    assert Emit(eb, 2) == [];
    ConvertedSnoc([], ea);
    ConvertedSnoc([ea], eb);
    assert [] + [ea] == [ea];
    assert [ea] + [eb] == [ea, eb];
  }

  /** A skipped first rule leaves its number unused: the record of the
      second rule, in the next group, carries index 2. */
  lemma SkipAcrossGroups()
    ensures ConvertDocument(SourceDocument([
        SourceGroup("G1", [SourceRule("off", None, None, Some("a"), false, "request.body", "red")]),
        SourceGroup("G2", [SourceRule("on", None, Some("b"), Some("c"), true, "header", "blue")])]))
      == [TargetRecord(["G2/on"], "on", "b", true, "blue", 2, false, true, true, true)]
  {
    var off := SourceRule("off", None, None, Some("a"), false, "request.body", "red");
    var on := SourceRule("on", None, Some("b"), Some("c"), true, "header", "blue");
    var e1, e2 := Entry("G1", off), Entry("G2", on);
    SkipAcrossGroupsEntries(off, on);
    SkipAcrossGroupsRecord();
    ConvertedSnoc([], e1);
    ConvertedSnoc([e1], e2);
    assert [] + [e1] == [e1];
    assert [e1] + [e2] == [e1, e2];
    assert Emit(e1, 1) == [];
    assert Converted([e1, e2]) == [TargetRecord(["G2/on"], "on", "b", true, "blue", 2, false, true, true, true)];
  }

  /** The traversal of the two one-rule groups. */
  lemma SkipAcrossGroupsEntries(off: SourceRule, on: SourceRule)
    ensures Flatten([SourceGroup("G1", [off]), SourceGroup("G2", [on])]) == [Entry("G1", off), Entry("G2", on)]
  {
    var g1, g2 := SourceGroup("G1", [off]), SourceGroup("G2", [on]);
    assert [g1, g2][..1] == [g1];
    assert [g1][..0] == [];
    assert GroupEntries(g1) == [Entry("G1", off)];
    assert GroupEntries(g2) == [Entry("G2", on)];
    assert Flatten([g1]) == [Entry("G1", off)];
  }

  /** The record of the loaded rule "on", numbered 2. */
  lemma SkipAcrossGroupsRecord()
    ensures Emit(Entry("G2", SourceRule("on", None, Some("b"), Some("c"), true, "header", "blue")), 2)
      == [TargetRecord(["G2/on"], "on", "b", true, "blue", 2, false, true, true, true)]
  {
    var on := SourceRule("on", None, Some("b"), Some("c"), true, "header", "blue");
    assert EffectiveRegex(on) == "b";
    assert "G2" + "/" + "on" == "G2/on";
    assert EndsWith("header", "header") && !EndsWith("header", "body");
    assert !StartsWith("header", "request") && !StartsWith("header", "response");
    assert PartFlags("header") == (false, true);
    assert DirectionFlags("header") == (true, true);
  }
}
