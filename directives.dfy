/**
 * The MyST documentation plugin of docs/directives.mjs: it documents a
 * parsing directive as a tree (heading, description, definition list of its
 * argument, body and options) and resolves `{myst:directive}` role bodies
 * such as `Labeled Reference <admonition.class>` into cross-references.
 *
 * External collaborators are parameters: the markup parser is `parse`
 * (it returns the children of the parsed root), the directive registry is
 * `registry`, and the diagnostics sink is the `errors` list of a run.
 */
module Directives {
  import opened Wrappers
  import opened Builtins
  import opened Nodes

  /** The value of an option definition's `type` field. */
  datatype OptionType =
    | TextTag(tag: string)   // a string such as 'string' or 'myst'
    | StringType             // the global `String` constructor
    | NumberType             // the global `Number` constructor
    | BooleanType            // the global `Boolean` constructor
    | OtherType              // anything else, `undefined` included

  /** An option definition; an absent `alias` list is the empty one. */
  datatype OptionDef = OptionDef(typ: OptionType, required: bool, doc: Option<string>, alias: seq<string>)

  /** A directive specification; `options` lists the option object's entries in order. */
  datatype DirectiveSpec = DirectiveSpec(
    name: string,
    alias: seq<string>,
    doc: Option<string>,
    arg: Option<OptionDef>,
    body: Option<OptionDef>,
    options: seq<(string, Option<OptionDef>)>)

  /** The markup parser: documentation source to the children of its root. */
  type Parser = string -> seq<Node>

  /** What one directive run produces: its nodes and the file errors it reports. */
  datatype DirectiveRun = DirectiveRun(nodes: seq<Node>, errors: seq<string>)

  // ---------------------------------------------------------------------
  // Option type classifier

  /** `type2string`: the display category of an option's type. */
  function TypeToString(option: OptionDef): (r: string)
    ensures r == "string" || r == "number" || r == "boolean" || r == "parsed" || r == ""
    ensures r == "string" <==> option.typ == TextTag("string") || option.typ == StringType
    ensures r == "number" <==> option.typ == TextTag("number") || option.typ == NumberType
    ensures r == "boolean" <==> option.typ == TextTag("boolean") || option.typ == BooleanType
    ensures r == "parsed" <==> option.typ == TextTag("parsed") || option.typ == TextTag("myst")
  {
    var t := option.typ;
    if t == TextTag("string") || t == StringType then "string"
    else if t == TextTag("number") || t == NumberType then "number"
    else if t == TextTag("boolean") || t == BooleanType then "boolean"
    else if t == TextTag("parsed") || t == TextTag("myst") then "parsed"
    else ""
  }

  // ---------------------------------------------------------------------
  // Identifiers and labels

  function DirectiveId(name: string): string {
    "directive-" + name
  }

  function OptionId(name: string, optName: string): string {
    "directive-" + name + "-" + optName
  }

  function OptionLabel(optName: string): string {
    if optName == "arg" then "Directive Argument"
    else if optName == "body" then "Directive Body"
    else optName
  }

  /**
   * The identifier scheme is not collision-free: the heading anchor of a
   * directive named `<name>-<option>` is the anchor of option `<option>` of
   * the directive `<name>`.
   */
  lemma HeadingMayShareOptionAnchor(name: string, optName: string)
    ensures DirectiveId(name + "-" + optName) == OptionId(name, optName)
  {
  }

  // ---------------------------------------------------------------------
  // Alias lists

  /** The `alias.map(...).flat()` expression, from position `i` on. */
  function AliasTokensFrom(aliases: seq<string>, i: nat): seq<Node>
    decreases |aliases| - i
  {
    if i >= |aliases| then []
    else
      [InlineCode(aliases[i])] + (if i < |aliases| - 1 then [Text(", ")] else [])
      + AliasTokensFrom(aliases, i + 1)
  }

  function AliasTokens(aliases: seq<string>): seq<Node> {
    AliasTokensFrom(aliases, 0)
  }

  /** The children of an alias paragraph or description. */
  function AliasLine(aliases: seq<string>): seq<Node> {
    [Strong([Text("Alias")]), Text(": ")] + AliasTokens(aliases)
  }

  lemma {:induction false} AliasTokensFromShape(aliases: seq<string>, i: nat)
    requires i <= |aliases|
    ensures var r := AliasTokensFrom(aliases, i);
      && |r| == (if i == |aliases| then 0 else 2 * (|aliases| - i) - 1)
      && (forall j :: 0 <= j < |r| ==>
            i + j / 2 < |aliases| && r[j] == (if j % 2 == 0 then InlineCode(aliases[i + j / 2]) else Text(", ")))
    decreases |aliases| - i
  {
    if i < |aliases| {
      AliasTokensFromShape(aliases, i + 1);
      var rest := AliasTokensFrom(aliases, i + 1);
      var head := [InlineCode(aliases[i])] + (if i < |aliases| - 1 then [Text(", ")] else []);
      var r := AliasTokensFrom(aliases, i);
      assert r == head + rest;
      forall j | 0 <= j < |r|
        ensures i + j / 2 < |aliases| && r[j] == (if j % 2 == 0 then InlineCode(aliases[i + j / 2]) else Text(", "))
      {
        if j >= 2 {
          assert r[j] == rest[j - 2];
          assert (j - 2) / 2 == j / 2 - 1 && (j - 2) % 2 == j % 2;
        }
      }
    }
  }

  /**
   * n aliases become n inline-code nodes at the even positions, separated by
   * exactly n-1 `", "` texts at the odd positions; the last node is the last
   * alias, so there is no trailing separator.
   */
  lemma AliasTokensShape(aliases: seq<string>)
    ensures var r := AliasTokens(aliases);
      && |r| == (if aliases == [] then 0 else 2 * |aliases| - 1)
      && (forall j :: 0 <= j < |r| ==>
            j / 2 < |aliases| && r[j] == (if j % 2 == 0 then InlineCode(aliases[j / 2]) else Text(", ")))
      && (aliases != [] ==> r[|r| - 1] == InlineCode(aliases[|aliases| - 1]))
  {
    AliasTokensFromShape(aliases, 0);
  }

  lemma {:induction false} AliasTokensFromText(aliases: seq<string>, i: nat)
    requires i <= |aliases|
    ensures TextOf(AliasTokensFrom(aliases, i)) == Join(aliases[i..], ", ")
    decreases |aliases| - i
  {
    if i < |aliases| {
      AliasTokensFromText(aliases, i + 1);
      var sep := if i < |aliases| - 1 then [Text(", ")] else [];
      var rest := AliasTokensFrom(aliases, i + 1);
      TextOfConcat([InlineCode(aliases[i])] + sep, rest);
      TextOfConcat([InlineCode(aliases[i])], sep);
      assert aliases[i..][1..] == aliases[i + 1..];
    }
  }

  /** The rendered alias line reads `Alias: a, b, c`. */
  lemma AliasLineText(aliases: seq<string>)
    ensures TextOf(AliasLine(aliases)) == "Alias: " + Join(aliases, ", ")
  {
    AliasTokensFromText(aliases, 0);
    assert aliases[0..] == aliases;
    TextOfConcat([Strong([Text("Alias")]), Text(": ")], AliasTokens(aliases));
  }

  // ---------------------------------------------------------------------
  // Option documentation compiler

  /** The `" (type[, required])"` annotation of an option term. */
  function TypeAnnotation(option: OptionDef): seq<Node> {
    var optType := TypeToString(option);
    if optType != "" then
      [Text(" ("), Emphasis([Text(optType + (if option.required then ", required" else ""))]), Text(")")]
    else []
  }

  /** The description of an option: its parsed documentation or a placeholder. */
  function OptionDescription(option: OptionDef, parse: Parser): seq<Node> {
    if IsTruthy(option.doc) then parse(option.doc.value) else [Text("No description")]
  }

  /** The term of a documented option: its anchor, bold label and type annotation. */
  function OptionTerm(specName: string, optName: string, option: OptionDef): Node {
    DefinitionTerm(OptionId(specName, optName), [Strong([Text(OptionLabel(optName))])] + TypeAnnotation(option))
  }

  /** `createOption`: the definition-list entries documenting one option. */
  function CreateOption(specName: string, optName: string, option: Option<OptionDef>, parse: Parser): (r: seq<Node>)
    ensures r == [] <==> option.None?
    ensures option.Some? ==> |r| == (if option.value.alias == [] then 2 else 3)
    ensures option.Some? ==> r[0] == OptionTerm(specName, optName, option.value)
    ensures option.Some? ==> r[1] == DefinitionDescription(OptionDescription(option.value, parse))
    ensures option.Some? && option.value.alias != [] ==> r[2] == DefinitionDescription(AliasLine(option.value.alias))
  {
    match option
    case None => []
    case Some(o) =>
      var def := [OptionTerm(specName, optName, o), DefinitionDescription(OptionDescription(o, parse))];
      if |o.alias| > 0 then def + [DefinitionDescription(AliasLine(o.alias))] else def
  }

  /**
   * The term of a documented option reads `<label> (<type>[, required])`,
   * the parenthetical present exactly when the type has a category.
   */
  lemma OptionTermText(specName: string, optName: string, o: OptionDef)
    ensures TextOf(OptionTerm(specName, optName, o).children) ==
      OptionLabel(optName)
      + (if TypeToString(o) == "" then ""
         else " (" + TypeToString(o) + (if o.required then ", required" else "") + ")")
  {
    var lbl := OptionLabel(optName);
    assert TextOf([Strong([Text(lbl)])]) == lbl by {
      assert TextOf([Text(lbl)]) == lbl;
    }
    TextOfConcat([Strong([Text(lbl)])], TypeAnnotation(o));
    TypeAnnotationText(o);
  }

  lemma TypeAnnotationText(o: OptionDef)
    ensures TextOf(TypeAnnotation(o)) ==
      if TypeToString(o) == "" then ""
      else " (" + TypeToString(o) + (if o.required then ", required" else "") + ")"
  {
    var t := TypeToString(o);
    if t != "" {
      AnnotationText(t + (if o.required then ", required" else ""));
    }
  }

  lemma AnnotationText(t: string)
    ensures TextOf([Text(" ("), Emphasis([Text(t)]), Text(")")]) == " (" + t + ")"
  {
    assert TextOf([Text(t)]) == t;
    assert TextOf([Text(")")]) == ")";
    assert TextOf([Emphasis([Text(t)]), Text(")")]) == t + ")";
  }

  /** The entries of every named option, in order (the `.map(...).flat()` over `Object.entries`). */
  function OptionEntries(specName: string, entries: seq<(string, Option<OptionDef>)>, parse: Parser): seq<Node>
    decreases |entries|
  {
    if entries == [] then []
    else CreateOption(specName, entries[0].0, entries[0].1, parse) + OptionEntries(specName, entries[1..], parse)
  }

  /** The flattened option list is empty exactly when no entry holds a definition. */
  lemma {:induction false} OptionEntriesEmpty(specName: string, entries: seq<(string, Option<OptionDef>)>, parse: Parser)
    ensures OptionEntries(specName, entries, parse) == [] <==> forall i :: 0 <= i < |entries| ==> entries[i].1.None?
    decreases |entries|
  {
    if entries != [] {
      OptionEntriesEmpty(specName, entries[1..], parse);
      assert forall i :: 1 <= i < |entries| ==> entries[i] == entries[1..][i - 1];
    }
  }

  /** Every option that has a definition gets an anchor `directive-<name>-<option>`. */
  lemma {:induction false} OptionEntriesAnchor(specName: string, entries: seq<(string, Option<OptionDef>)>, parse: Parser, i: nat)
    requires i < |entries| && entries[i].1.Some?
    ensures OptionId(specName, entries[i].0) in Anchors(OptionEntries(specName, entries, parse))
    decreases i
  {
    var head := CreateOption(specName, entries[0].0, entries[0].1, parse);
    var tail := OptionEntries(specName, entries[1..], parse);
    AnchorsConcat(head, tail);
    if i == 0 {
      CreateOptionAnchor(specName, entries[0].0, entries[0].1.value, parse);
    } else {
      OptionEntriesAnchor(specName, entries[1..], parse, i - 1);
    }
  }

  lemma CreateOptionAnchor(specName: string, optName: string, o: OptionDef, parse: Parser)
    ensures OptionId(specName, optName) in Anchors(CreateOption(specName, optName, Some(o), parse))
  {
    var r := CreateOption(specName, optName, Some(o), parse);
    assert NodeAnchors(r[0]) <= Anchors(r);
  }

  // ---------------------------------------------------------------------
  // Directive documentation compiler

  function UnknownDirectiveMessage(name: string): string {
    "myst:directive: Unknown myst directive \"" + name + "\""
  }

  /** The message reported for an unknown name quotes that name. */
  lemma UnknownDirectiveMessageQuotesName(name: string)
    ensures var m := UnknownDirectiveMessage(name);
      |m| == |name| + 41 && m[40..40 + |name|] == name
  {
  }

  function ByName(name: string): DirectiveSpec -> bool {
    (d: DirectiveSpec) => d.name == name
  }

  function DirectiveHeading(name: string): Node {
    Heading(2, DirectiveId(name), [InlineCode(name), Text(" directive")])
  }

  /** The alias paragraph, present only if the directive has aliases. */
  function AliasParagraph(aliases: seq<string>): seq<Node> {
    if |aliases| > 0 then [Paragraph(AliasLine(aliases))] else []
  }

  /** The description closing the definition list: the nested option list, or a placeholder. */
  function OptionsDescription(options: seq<Node>): Node {
    if |options| > 0 then DefinitionDescription([DefinitionList(options)])
    else DefinitionDescription([Text("No options")])
  }

  /** The definition list documenting a directive's argument, body and options. */
  function DirectiveList(d: DirectiveSpec, parse: Parser): Node {
    DefinitionList(
      CreateOption(d.name, "arg", d.arg, parse)
      + CreateOption(d.name, "body", d.body, parse)
      + [DefinitionTerm(OptionId(d.name, "opts"), [Strong([Text("Options")])]),
         OptionsDescription(OptionEntries(d.name, d.options, parse))])
  }

  /** `mystDirective.run` for the directive named `name`. */
  function RunDirective(name: string, registry: seq<DirectiveSpec>, parse: Parser): (r: DirectiveRun)
    ensures r.nodes == [] <==> forall i :: 0 <= i < |registry| ==> registry[i].name != name
    ensures r.nodes == [] ==> r.errors == [UnknownDirectiveMessage(name)]
    ensures r.nodes != [] ==>
              && r.errors == [] && |r.nodes| == 3
              && r.nodes[0] == DirectiveHeading(name) && r.nodes[1].Div? && r.nodes[2].DefinitionList?
  {
    match Find(registry, ByName(name))
    case None => DirectiveRun([], [UnknownDirectiveMessage(name)])
    case Some(d) =>
      var doc := if IsTruthy(d.doc) then parse(d.doc.value) else [];
      DirectiveRun([DirectiveHeading(name), Div(doc + AliasParagraph(d.alias)), DirectiveList(d, parse)], [])
  }

  /**
   * A found directive is documented from the FIRST specification with that
   * exact name: heading, a wrapper holding its documentation and alias
   * paragraph (present even when both are empty), then its definition list.
   */
  lemma RunDirectiveSections(name: string, registry: seq<DirectiveSpec>, parse: Parser, i: nat)
    requires i < |registry| && registry[i].name == name
    requires forall j :: 0 <= j < i ==> registry[j].name != name
    ensures var d := registry[i];
      RunDirective(name, registry, parse).nodes ==
        [DirectiveHeading(name),
         Div((if IsTruthy(d.doc) then parse(d.doc.value) else []) + AliasParagraph(d.alias)),
         DirectiveList(d, parse)]
  {
    var k := FindIndex(registry, ByName(name));
    assert ByName(name)(registry[i]);
    assert k == i;
  }

  /**
   * The definition list holds the argument entries, the body entries, the
   * "Options" term and one description, in that order; the description is
   * "No options" exactly when no option entry holds a definition.
   */
  lemma DirectiveListShape(d: DirectiveSpec, parse: Parser)
    ensures var items := DirectiveList(d, parse).children;
      var na := |CreateOption(d.name, "arg", d.arg, parse)|;
      var nb := |CreateOption(d.name, "body", d.body, parse)|;
      && |items| == na + nb + 2
      && items[..na] == CreateOption(d.name, "arg", d.arg, parse)
      && items[na..na + nb] == CreateOption(d.name, "body", d.body, parse)
      && items[na + nb] == DefinitionTerm(OptionId(d.name, "opts"), [Strong([Text("Options")])])
      && (items[na + nb + 1] == DefinitionDescription([Text("No options")])
          <==> forall k :: 0 <= k < |d.options| ==> d.options[k].1.None?)
      && (items[na + nb + 1] != DefinitionDescription([Text("No options")])
          ==> items[na + nb + 1] == DefinitionDescription([DefinitionList(OptionEntries(d.name, d.options, parse))]))
  {
    OptionEntriesEmpty(d.name, d.options, parse);
  }

  // ---------------------------------------------------------------------
  // Reference role: REF_PATTERN = /^(.+?)<([^<>]+)>$/

  /** The two capture groups of a successful match. */
  datatype RefMatch = RefMatch(lead: string, target: string)

  /** `<([^<>]+)>$` matches `s[k..]`. */
  predicate TailMatchesAt(s: string, k: nat) {
    && k + 3 <= |s| && s[k] == '<' && s[|s| - 1] == '>'
    && forall i :: k < i < |s| - 1 ==> s[i] != '<' && s[i] != '>'
  }

  /** `^(.+)` can consume `s[..k]`: at least one character, none a line terminator. */
  predicate LeadMatches(s: string, k: nat) {
    1 <= k <= |s| && forall i :: 0 <= i < k ==> !IsLineTerminator(s[i])
  }

  /** The whole pattern matches with a lead of length `k`. */
  predicate IsRefSplit(s: string, k: nat) {
    LeadMatches(s, k) && TailMatchesAt(s, k)
  }

  /** There is at most one way to split a string by the pattern. */
  lemma RefSplitUnique(s: string, k1: nat, k2: nat)
    requires IsRefSplit(s, k1) && IsRefSplit(s, k2)
    ensures k1 == k2
  {
  }

  /** The lazy quantifier `.+?`: try the tail after `s[..k]`, else take one more character. */
  function LazySearch(s: string, k: nat): (r: Option<nat>)
    requires LeadMatches(s, k)
    ensures r.Some? ==> k <= r.value && IsRefSplit(s, r.value)
    ensures r.Some? ==> forall j: nat :: k <= j < r.value ==> !IsRefSplit(s, j)
    ensures r.None? ==> forall j: nat :: k <= j ==> !IsRefSplit(s, j)
    decreases |s| - k
  {
    if TailMatchesAt(s, k) then Some(k)
    else if k < |s| && !IsLineTerminator(s[k]) then LazySearch(s, k + 1)
    else None
  }

  /** `REF_PATTERN.exec(s)`. */
  function MatchRef(s: string): (r: Option<RefMatch>)
    ensures r.Some? <==> exists k: nat :: IsRefSplit(s, k)
    ensures r.Some? ==> IsRefSplit(s, |r.value.lead|) && s == r.value.lead + "<" + r.value.target + ">"
  {
    if |s| >= 1 && !IsLineTerminator(s[0]) then
      match LazySearch(s, 1)
      case None => None
      case Some(k) => Some(RefMatch(s[..k], s[k + 1..|s| - 1]))
    else None
  }

  /**
   * A match has a non-empty lead without line terminators and a non-empty
   * target without angle brackets; the lead is the shortest possible and, the
   * split being unique, the only one.
   */
  lemma MatchRefGroups(s: string)
    requires MatchRef(s).Some?
    ensures var m := MatchRef(s).value;
      && m.lead != [] && m.target != []
      && (forall i :: 0 <= i < |m.lead| ==> !IsLineTerminator(m.lead[i]))
      && '<' !in m.target && '>' !in m.target
      && forall k: nat :: IsRefSplit(s, k) ==> k == |m.lead|
  {
    var m := MatchRef(s).value;
    var k := |m.lead|;
    assert m.target == s[k + 1..|s| - 1];
    forall i | 0 <= i < |m.target| ensures m.target[i] != '<' && m.target[i] != '>' {
      assert m.target[i] == s[k + 1 + i];
    }
    forall k': nat | IsRefSplit(s, k') ensures k' == k {
      RefSplitUnique(s, k, k');
    }
  }

  /**
   * The converse of the match: gluing a lead and a target with the angle
   * brackets gives a string that matches with exactly those two groups.
   */
  lemma MatchRefCompose(lead: string, target: string)
    requires lead != [] && forall i :: 0 <= i < |lead| ==> !IsLineTerminator(lead[i])
    requires target != [] && '<' !in target && '>' !in target
    ensures MatchRef(lead + "<" + target + ">") == Some(RefMatch(lead, target))
  {
    var s := lead + "<" + target + ">";
    var k := |lead|;
    forall i | 0 <= i < k ensures !IsLineTerminator(s[i]) {
      assert s[i] == lead[i];
    }
    forall i | k < i < |s| - 1 ensures s[i] != '<' && s[i] != '>' {
      assert s[i] == target[i - k - 1];
    }
    assert IsRefSplit(s, k);
    MatchRefGroups(s);
    var m := MatchRef(s).value;
    assert |m.lead| == k;
    assert m.lead == s[..k] == lead;
    assert m.target == s[k + 1..|s| - 1] == target;
  }

  /** Without a closing `>` at the very end nothing matches. */
  lemma MatchRefNeedsClosingBracket(s: string)
    requires s == [] || s[|s| - 1] != '>'
    ensures MatchRef(s) == None
  {
  }

  /** A line terminator before any `<` leaves no room for the lead, so nothing matches. */
  lemma MatchRefRejectsLineBreak(s: string, i: nat)
    requires i < |s| && IsLineTerminator(s[i])
    requires forall j :: 0 <= j <= i ==> s[j] != '<'
    ensures MatchRef(s) == None
  {
    forall k: nat | LeadMatches(s, k) ensures !TailMatchesAt(s, k) {
      assert k <= i;
    }
  }

  /** `rawLabel ?? data.body`: the target of the pattern's only split, or the whole body. */
  function RefLabel(body: string): (r: string)
    ensures (forall k: nat :: !IsRefSplit(body, k)) ==> r == body
    ensures forall k: nat :: IsRefSplit(body, k) ==> r == body[k + 1..|body| - 1]
  {
    match MatchRef(body)
    case Some(m) => MatchRefGroups(body); m.target
    case None => body
  }

  /** `label.split('.')` destructured as `[name]`. */
  function RefName(labelText: string): string {
    Split(labelText, '.')[0]
  }

  /** `label.split('.')` destructured as `[, opt]`. */
  function RefOpt(labelText: string): Option<string> {
    var parts := Split(labelText, '.');
    if |parts| > 1 then Some(parts[1]) else None
  }

  /** `k` is the position of the first dot of `labelText`. */
  predicate FirstDotAt(labelText: string, k: nat) {
    k < |labelText| && labelText[k] == '.' && '.' !in labelText[..k]
  }

  /** The segment after the dot at `k` ends at `m`: the next dot, or the end of the label. */
  predicate SegmentEndsAt(labelText: string, k: nat, m: nat) {
    k < m <= |labelText| && (m == |labelText| || labelText[m] == '.') && '.' !in labelText[k + 1..m]
  }

  /**
   * The name is everything before the first dot; `opt` is absent without a
   * dot, and otherwise the segment between the first dot and the next one
   * (so with two or more dots the rest of the label is dropped).
   */
  lemma RefNameOpt(labelText: string)
    ensures '.' !in labelText ==> RefName(labelText) == labelText && RefOpt(labelText) == None
    ensures forall k: nat :: FirstDotAt(labelText, k) ==>
      && RefName(labelText) == labelText[..k]
      && RefOpt(labelText) == Some(Split(labelText[k + 1..], '.')[0])
    ensures forall k: nat, m: nat :: FirstDotAt(labelText, k) && SegmentEndsAt(labelText, k, m) ==>
      RefOpt(labelText) == Some(labelText[k + 1..m])
  {
    if '.' !in labelText {
      SplitNoSeparator(labelText, '.');
    }
    forall k: nat | FirstDotAt(labelText, k)
      ensures RefName(labelText) == labelText[..k] && RefOpt(labelText) == Some(Split(labelText[k + 1..], '.')[0])
    {
      SplitAtFirst(labelText, '.', k);
    }
    forall k: nat, m: nat | FirstDotAt(labelText, k) && SegmentEndsAt(labelText, k, m)
      ensures RefOpt(labelText) == Some(labelText[k + 1..m])
    {
      SecondSegment(labelText, k, m);
    }
  }

  /** The option is the text from the first dot up to the next dot or the end. */
  lemma SecondSegment(labelText: string, k: nat, m: nat)
    requires FirstDotAt(labelText, k) && SegmentEndsAt(labelText, k, m)
    ensures RefOpt(labelText) == Some(labelText[k + 1..m])
  {
    SplitAtFirst(labelText, '.', k);
    var rest := labelText[k + 1..];
    var n := m - k - 1;
    assert rest[..n] == labelText[k + 1..m];
    if m == |labelText| {
      assert rest == labelText[k + 1..m];
      SplitNoSeparator(rest, '.');
    } else {
      assert rest[n] == '.';
      SplitAtFirst(rest, '.', n);
    }
  }


  function ByNameOrAlias(name: string): DirectiveSpec -> bool {
    (d: DirectiveSpec) => d.name == name || name in d.alias
  }

  /** `directive?.name ?? name` for the first specification named or aliased `name`. */
  function CanonicalName(name: string, registry: seq<DirectiveSpec>): (r: string)
    ensures (forall i :: 0 <= i < |registry| ==> registry[i].name != name && name !in registry[i].alias) ==> r == name
    ensures forall i ::
              (&& 0 <= i < |registry| && (registry[i].name == name || name in registry[i].alias)
               && (forall j :: 0 <= j < i ==> registry[j].name != name && name !in registry[j].alias))
              ==> r == registry[i].name
  {
    match Find(registry, ByNameOrAlias(name))
    case Some(d) => d.name
    case None => name
  }

  /**
   * The identifier a label resolves to: without a dot, the heading of the
   * canonical name; otherwise the name before the first dot is resolved and,
   * when the segment after it is non-empty, that segment names the option
   * (anything after a second dot is ignored); an empty segment is treated
   * as no option.
   */
  ghost predicate IdentifierRule(labelText: string, registry: seq<DirectiveSpec>, id: string) {
    && ('.' !in labelText ==> id == DirectiveId(CanonicalName(labelText, registry)))
    && forall k: nat, m: nat :: FirstDotAt(labelText, k) && SegmentEndsAt(labelText, k, m) ==>
         id == if m == k + 1 then DirectiveId(CanonicalName(labelText[..k], registry))
               else OptionId(CanonicalName(labelText[..k], registry), labelText[k + 1..m])
  }

  /** The identifier of the cross-reference for a role body. */
  function RoleIdentifier(body: string, registry: seq<DirectiveSpec>): (r: string)
    ensures IdentifierRule(RefLabel(body), registry, r)
  {
    var labelText := RefLabel(body);
    RefNameOpt(labelText);
    var opt := RefOpt(labelText);
    var name := CanonicalName(RefName(labelText), registry);
    if IsTruthy(opt) then OptionId(name, opt.value) else DirectiveId(name)
  }

  /** `modified?.trim() || opt || name`. */
  function RoleDisplay(body: string): (r: string)
    ensures var labelText := RefLabel(body);
      && (MatchRef(body).Some? && Trim(MatchRef(body).value.lead) != "" ==> r == Trim(MatchRef(body).value.lead))
      && ((MatchRef(body).None? || Trim(MatchRef(body).value.lead) == "") && IsTruthy(RefOpt(labelText)) ==> r == RefOpt(labelText).value)
      && ((MatchRef(body).None? || Trim(MatchRef(body).value.lead) == "") && !IsTruthy(RefOpt(labelText)) ==> r == RefName(labelText))
  {
    var labelText := RefLabel(body);
    var opt := RefOpt(labelText);
    match MatchRef(body)
    case Some(m) =>
      if Trim(m.lead) != "" then Trim(m.lead)
      else if IsTruthy(opt) then opt.value else RefName(labelText)
    case None =>
      if IsTruthy(opt) then opt.value else RefName(labelText)
  }

  /** `mystDirectiveRole.run`: one cross-reference whose child is the display text as inline code. */
  function RunRole(body: string, registry: seq<DirectiveSpec>): (r: seq<Node>)
    ensures |r| == 1 && r[0].CrossReference?
    ensures IdentifierRule(RefLabel(body), registry, r[0].identifier)
    ensures r[0].children == [InlineCode(RoleDisplay(body))]
  {
    [CrossReference(RoleIdentifier(body, registry), [InlineCode(RoleDisplay(body))])]
  }

  /** A body the pattern does not match is used verbatim as the label. */
  lemma RoleUnmatchedIsVerbatim(body: string)
    requires forall k: nat :: !IsRefSplit(body, k)
    ensures RefLabel(body) == body
  {
  }

  /**
   * A body `<lead><<target>>` whose lead is not blank displays the trimmed
   * lead; the identifier comes from the target alone.
   */
  lemma RoleOfLabeledTarget(lead: string, target: string, registry: seq<DirectiveSpec>)
    requires lead != [] && forall i :: 0 <= i < |lead| ==> !IsLineTerminator(lead[i])
    requires target != [] && '<' !in target && '>' !in target
    requires Trim(lead) != ""
    ensures RunRole(lead + "<" + target + ">", registry)
      == [CrossReference(RoleIdentifier(target, registry), [InlineCode(Trim(lead))])]
  {
    MatchRefCompose(lead, target);
    MatchRefNeedsClosingBracket(target);
  }

  /** A body without angle brackets at the end is resolved as a plain label. */
  lemma RoleOfPlainLabel(body: string, registry: seq<DirectiveSpec>)
    requires body == [] || body[|body| - 1] != '>'
    ensures RefLabel(body) == body
    ensures RunRole(body, registry) == [CrossReference(RoleIdentifier(body, registry),
      [InlineCode(if IsTruthy(RefOpt(body)) then RefOpt(body).value else RefName(body))])]
  {
    MatchRefNeedsClosingBracket(body);
  }

  /** A plain `name` resolves to the canonical name's heading and displays `name`. */
  lemma RoleOfPlainName(name: string, registry: seq<DirectiveSpec>)
    requires '.' !in name && (name == [] || name[|name| - 1] != '>')
    ensures RunRole(name, registry) == [CrossReference(DirectiveId(CanonicalName(name, registry)), [InlineCode(name)])]
  {
    RoleOfPlainLabel(name, registry);
    SplitNoSeparator(name, '.');
  }

  /** A plain `name.opt` resolves to the option's term under the canonical name and displays `opt`. */
  lemma RoleOfDottedName(name: string, opt: string, registry: seq<DirectiveSpec>)
    requires '.' !in name && '.' !in opt && opt != [] && opt[|opt| - 1] != '>'
    ensures RunRole(name + "." + opt, registry)
      == [CrossReference(OptionId(CanonicalName(name, registry), opt), [InlineCode(opt)])]
  {
    var body := name + "." + opt;
    assert body[|body| - 1] == opt[|opt| - 1];
    RoleOfPlainLabel(body, registry);
    JoinSplit([name, opt], '.');
    assert Join([name, opt], ".") == body;
  }

  // ---------------------------------------------------------------------
  // Cross-references land on anchors

  /** Names and aliases are unique across the registry. */
  predicate WellFormedRegistry(registry: seq<DirectiveSpec>) {
    forall i, j :: 0 <= i < |registry| && 0 <= j < |registry| && i != j ==>
      && registry[i].name != registry[j].name
      && registry[i].name !in registry[j].alias
      && forall a :: a in registry[i].alias ==> a !in registry[j].alias
  }

  lemma ResolvesTo(registry: seq<DirectiveSpec>, i: nat, name: string)
    requires WellFormedRegistry(registry) && i < |registry|
    requires name == registry[i].name || name in registry[i].alias
    ensures CanonicalName(name, registry) == registry[i].name
    ensures forall j :: 0 <= j < i ==> registry[j].name != registry[i].name
  {
    forall j | 0 <= j < i ensures registry[j].name != name && name !in registry[j].alias {
      assert registry[i].name != registry[j].name && registry[i].name !in registry[j].alias;
      if name in registry[i].alias {
        assert registry[j].name !in registry[i].alias;
      }
    }
  }

  /**
   * In a well-formed registry, a role naming a directive (by its name or one
   * of its aliases) produces exactly the identifier of the heading that the
   * directive compiler emits for that directive.
   */
  lemma RoleTargetsDirectiveHeading(body: string, registry: seq<DirectiveSpec>, parse: Parser, i: nat)
    requires WellFormedRegistry(registry) && i < |registry|
    requires RefLabel(body) == registry[i].name || RefLabel(body) in registry[i].alias
    requires '.' !in RefLabel(body)
    ensures var nodes := RunDirective(registry[i].name, registry, parse).nodes;
      nodes != [] && RunRole(body, registry)[0].identifier == nodes[0].identifier
      && nodes[0].identifier in Anchors(nodes)
  {
    var labelText := RefLabel(body);
    RefNameOpt(labelText);
    ResolvesTo(registry, i, labelText);
    assert RoleIdentifier(body, registry) == DirectiveId(registry[i].name);
    HeadingAnchored(registry[i].name, registry, parse);
  }

  lemma HeadingAnchored(name: string, registry: seq<DirectiveSpec>, parse: Parser)
    requires exists i :: 0 <= i < |registry| && registry[i].name == name
    ensures var nodes := RunDirective(name, registry, parse).nodes;
      nodes != [] && nodes[0].identifier == DirectiveId(name) && DirectiveId(name) in Anchors(nodes)
  {
    var nodes := RunDirective(name, registry, parse).nodes;
    assert NodeAnchors(nodes[0]) <= Anchors(nodes);
  }

  lemma OptionsDescriptionAnchors(options: seq<Node>)
    requires options != []
    ensures Anchors(options) <= NodeAnchors(OptionsDescription(options))
  {
    assert OptionsDescription(options).children == [DefinitionList(options)];
    assert Anchors([DefinitionList(options)]) == NodeAnchors(DefinitionList(options));
  }

  lemma PairAnchors(a: Node, b: Node)
    ensures Anchors([a, b]) == NodeAnchors(a) + NodeAnchors(b)
  {
    assert [a, b][1..] == [b];
    assert [b][1..] == [];
    assert Anchors([b]) == NodeAnchors(b);
  }

  /** The anchors of a directive's definition list include every documented argument, body and option. */
  lemma DirectiveListAnchors(d: DirectiveSpec, parse: Parser, opt: string)
    requires || (opt == "arg" && d.arg.Some?)
             || (opt == "body" && d.body.Some?)
             || exists k :: 0 <= k < |d.options| && d.options[k].0 == opt && d.options[k].1.Some?
    ensures OptionId(d.name, opt) in NodeAnchors(DirectiveList(d, parse))
  {
    var argEntries := CreateOption(d.name, "arg", d.arg, parse);
    var bodyEntries := CreateOption(d.name, "body", d.body, parse);
    var optEntries := OptionEntries(d.name, d.options, parse);
    var optsTerm := DefinitionTerm(OptionId(d.name, "opts"), [Strong([Text("Options")])]);
    var tail := [optsTerm, OptionsDescription(optEntries)];
    var items := argEntries + bodyEntries + tail;
    assert NodeAnchors(DirectiveList(d, parse)) == Anchors(items);
    AnchorsConcat(argEntries + bodyEntries, tail);
    AnchorsConcat(argEntries, bodyEntries);
    if opt == "arg" && d.arg.Some? {
      CreateOptionAnchor(d.name, "arg", d.arg.value, parse);
    } else if opt == "body" && d.body.Some? {
      CreateOptionAnchor(d.name, "body", d.body.value, parse);
    } else {
      var k :| 0 <= k < |d.options| && d.options[k].0 == opt && d.options[k].1.Some?;
      OptionEntriesAnchor(d.name, d.options, parse, k);
      OptionsDescriptionAnchors(optEntries);
      PairAnchors(optsTerm, OptionsDescription(optEntries));
    }
  }

  /** The output of a successful directive run carries the anchors of its definition list. */
  lemma RunDirectiveListAnchors(name: string, registry: seq<DirectiveSpec>, parse: Parser, i: nat)
    requires i < |registry| && registry[i].name == name
    requires forall j :: 0 <= j < i ==> registry[j].name != name
    ensures NodeAnchors(DirectiveList(registry[i], parse)) <= Anchors(RunDirective(name, registry, parse).nodes)
  {
    RunDirectiveSections(name, registry, parse, i);
    var nodes := RunDirective(name, registry, parse).nodes;
    assert nodes == [nodes[0], nodes[1]] + [nodes[2]];
    AnchorsConcat([nodes[0], nodes[1]], [nodes[2]]);
  }

  /** A role label `<name>.<option>` for a directive's name or alias yields that option's identifier. */
  lemma RoleOptionIdentifier(body: string, registry: seq<DirectiveSpec>, i: nat, name: string, opt: string)
    requires WellFormedRegistry(registry) && i < |registry|
    requires name == registry[i].name || name in registry[i].alias
    requires RefLabel(body) == name + "." + opt
    requires '.' !in name && '.' !in opt && opt != ""
    ensures RoleIdentifier(body, registry) == OptionId(registry[i].name, opt)
  {
    JoinSplit([name, opt], '.');
    assert Join([name, opt], ".") == name + "." + opt;
    ResolvesTo(registry, i, name);
  }

  /**
   * In a well-formed registry, a role `<directive>.<option>` naming a
   * documented argument, body or option produces an identifier that the
   * directive compiler's output carries as the anchor of that option's term.
   */
  lemma RoleTargetsOptionTerm(body: string, registry: seq<DirectiveSpec>, parse: Parser, i: nat, name: string, opt: string)
    requires WellFormedRegistry(registry) && i < |registry|
    requires name == registry[i].name || name in registry[i].alias
    requires RefLabel(body) == name + "." + opt
    requires '.' !in name && '.' !in opt && opt != ""
    requires || (opt == "arg" && registry[i].arg.Some?)
             || (opt == "body" && registry[i].body.Some?)
             || exists k :: 0 <= k < |registry[i].options| && registry[i].options[k].0 == opt && registry[i].options[k].1.Some?
    ensures RunRole(body, registry)[0].identifier
      in Anchors(RunDirective(registry[i].name, registry, parse).nodes)
  {
    RoleOptionIdentifier(body, registry, i, name, opt);
    ResolvesTo(registry, i, name);
    DirectiveListAnchors(registry[i], parse, opt);
    RunDirectiveListAnchors(registry[i].name, registry, parse, i);
  }
}
