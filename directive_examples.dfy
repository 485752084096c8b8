/**
 * Worked cases of the directive documentation and the reference role,
 * stated on concrete inputs.
 */
module DirectiveExamples {
  import opened Wrappers
  import opened Builtins
  import opened Nodes
  import opened Directives

  /** The `admonition` directive: one alias, a required string argument and a `class` option aliased `cls`. */
  function Admonition(): DirectiveSpec {
    DirectiveSpec(
      "admonition", ["note"], None,
      Some(OptionDef(StringType, true, None, [])),
      None,
      [("class", Some(OptionDef(StringType, false, None, ["cls"])))])
  }

  /** The `class` option: anchor `directive-admonition-class` and the alias line `Alias: cls`. */
  lemma AdmonitionClassOption(parse: Parser)
    ensures var entries := CreateOption("admonition", "class", Admonition().options[0].1, parse);
      && |entries| == 3
      && entries[0].identifier == "directive-admonition-class"
      && TextOf(entries[2].children) == "Alias: cls"
  {
    AliasLineText(["cls"]);
  }

  lemma UnknownDirectiveReported(parse: Parser)
    ensures RunDirective("note", [Admonition()], parse)
      == DirectiveRun([], ["myst:directive: Unknown myst directive \"note\""])
  {
    assert Admonition().name != "note";
    assert UnknownDirectiveMessage("note") == "myst:directive: Unknown myst directive \"note\"";
  }

  /** Only the first two dot-separated segments are used. */
  lemma ThreeSegments(label_: string)
    requires label_ == "a.b.c"
    ensures RefName(label_) == "a" && RefOpt(label_) == Some("b")
  {
    JoinSplit(["a", "b", "c"], '.');
    assert Join(["a", "b", "c"], ".") == label_;
  }

  /** The lead group needs at least one character, so a bare `<x>` is its own label. */
  lemma BareTarget(body: string)
    requires body == "<x>"
    ensures MatchRef(body) == None && RefLabel(body) == body
  {
    assert forall k: nat :: !IsRefSplit(body, k);
  }

  /** `.` does not match a line break, so a lead spanning lines is not split off. */
  lemma LeadWithLineBreak()
    ensures MatchRef("a\nb <x>") == None
  {
    MatchRefRejectsLineBreak("a\nb <x>", 1);
  }
}
