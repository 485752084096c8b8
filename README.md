# MyST documentation plugin and site navigation, modelled in Dafny

This project models two parts of the MyST tooling.

- **The documentation plugin** (`docs/directives.mjs`). The `{myst:directive}` directive turns a
  directive specification into a documentation tree: a level-2 heading, a wrapper with the
  directive's parsed documentation and its alias paragraph, and a definition list. That list
  documents the argument, the body and every option. Each documented item gets an anchor of the
  form `directive-<name>-<option>`. The `{myst:directive}` role parses a body such as
  `Labeled Reference <admonition.class>` with `REF_PATTERN`. It resolves the name through the
  directive registry, matching names and aliases, and returns a cross-reference to the
  matching anchor.
- **The site navigation helpers** (`app/utils/utils.ts`):
  - looking a project up by slug;
  - listing a project's headings: the index entry, then its pages with paths, optionally
    labelled with the group each falls under;
  - the previous / next links of a page footer.

Files:

- `wrappers.dfy`: `Option`.
- `builtins.dfy`: the JavaScript built-ins the code relies on: truthiness, `findIndex`,
  `find`, `reverse`, `split` on one character, `trim` with the ECMAScript white-space and
  line-terminator sets. It also holds the reference definitions they are proved against
  (`LastIndex`, `Join`).
- `nodes.dfy`: the document tree built with `unist-builder`, with two observers: the anchors a
  tree carries and its plain text.
- `directives.dfy`: `type2string`, `createOption`, the directive's `run`, `REF_PATTERN` and
  the role's `run`.
- `directive_examples.dfy`: a few concrete cases.
- `site_nav.dfy`: `getProject`, `getProjectHeadings` with `addGroups`, `getHeadingLink` and
  `getFooterLinks`.
- `site_nav_findings.dfy`: the lookup of `getProject` as written (see Findings).

The code's state changes keep their imperative form:

- `getProject` fills a lookup table in a loop. `GetProject` does the same over a `map`.
- `addGroups` threads `lastTitle` through a pass over the headings. `AddGroups` is a loop.

Both methods are proved equal to specification functions (`ProjectFor`, `WithGroups`), and the
remaining properties are lemmas about those functions. Everything else in the core is
expressions and is modelled as functions.

External collaborators become parameters:

- The markup parser `mystParse` becomes `parse: string -> seq<Node>`, returning the root's
  children.
- The registry `defaultDirectives` becomes a `seq<DirectiveSpec>`.
- `fileError` becomes the `errors` list of a `DirectiveRun`.

## Model

| member | source | states |
|---|---|---|
| Builtins.FindIndex | app/utils/utils.ts:47 | `findIndex` gives -1 exactly when nothing matches, and otherwise the first matching index |
| Builtins.Find | docs/directives.mjs:76 | `find` gives nothing exactly when no element matches, and otherwise the first matching element |
| Builtins.LastIndex | app/utils/utils.ts:6 | reference for the table that later entries overwrite: the last matching index, or -1 exactly when none |
| Builtins.Reverse | app/utils/utils.ts:68 | `reverse` keeps the length and puts element `|s|-1-i` at position `i` |
| Builtins.FindIndexReverse | app/utils/utils.ts:68 | searching a reversed sequence from the front finds the original's last match, mirrored |
| Builtins.Split | docs/directives.mjs:136 | `split` always gives at least one segment |
| Builtins.SplitJoin | docs/directives.mjs:136 | joining the segments with the separator restores the string, and no segment contains the separator |
| Builtins.JoinSplit | docs/directives.mjs:136 | splitting a join of separator-free segments gives those segments back |
| Builtins.TrimStart | docs/directives.mjs:142 | the result is a suffix, everything dropped is white space, and it does not start with white space |
| Builtins.TrimEnd | docs/directives.mjs:142 | the result is a prefix, everything dropped is white space, and it does not end with white space |
| Builtins.TrimSlice | docs/directives.mjs:142 | `trim` keeps a contiguous slice with only white space around it and none at its ends; the result is empty exactly when the string is all white space |
| Builtins.TrimTrailingSpace | docs/directives.mjs:142 | a label followed by the space before `<` trims back to the label |
| Directives.TypeToString | docs/directives.mjs:9-15 | the result is one of the five category strings; each category is reached exactly from its textual tag or its constructor (and `myst` gives `parsed`); anything else gives `""` |
| Directives.CreateOption | docs/directives.mjs:17-61 | no entries exactly for a missing option; otherwise the term, the description, and an alias description exactly when there are aliases |
| Directives.OptionTermText | docs/directives.mjs:21-39 | the term reads `Directive Argument` / `Directive Body` / the option name, then ` (<type>[, required])` exactly when the type has a category |
| Directives.CreateOptionAnchor | docs/directives.mjs:21 | a documented option carries the anchor `directive-<name>-<option>` |
| Directives.AliasTokensShape | docs/directives.mjs:50-56 | n aliases give n inline-code nodes at even positions and n-1 `", "` separators at odd positions, with no trailing separator |
| Directives.AliasLineText | docs/directives.mjs:45-59 | the alias line reads `Alias: ` followed by the aliases joined with `, ` |
| Directives.HeadingMayShareOptionAnchor | docs/directives.mjs:81 | the anchor scheme is not collision-free: the heading anchor of a directive `<name>-<option>` equals the anchor of option `<option>` of directive `<name>` |
| Directives.UnknownDirectiveMessageQuotesName | docs/directives.mjs:78 | the error for an unknown directive quotes its name |
| Directives.RunDirective | docs/directives.mjs:74-116 | no nodes exactly when no specification has the name, and then exactly the one unknown-directive error; otherwise no error and the three sections heading, wrapper, definition list |
| Directives.RunDirectiveSections | docs/directives.mjs:76-115 | the first specification with the exact name is documented: heading `directive-<name>`, the wrapper with its parsed documentation and alias paragraph (present even if empty), then its definition list |
| Directives.DirectiveListShape | docs/directives.mjs:102-114 | the list holds the argument entries, the body entries, the `Options` term and one description, in order; the description is `No options` exactly when no option has a definition |
| Directives.OptionEntriesEmpty | docs/directives.mjs:102-104 | the flattened option entries are empty exactly when no option has a definition |
| Directives.OptionEntriesAnchor | docs/directives.mjs:102-104 | every option with a definition contributes its anchor |
| Directives.DirectiveListAnchors | docs/directives.mjs:105-114 | the definition list carries the anchor of the argument, the body and every defined option |
| Directives.RunDirectiveListAnchors | docs/directives.mjs:115 | a successful run's output carries every anchor of its definition list |
| Directives.RefSplitUnique | docs/directives.mjs:119 | at most one lead length lets the pattern match |
| Directives.LazySearch | docs/directives.mjs:119 | the lazy `.+?` finds the shortest lead from which the pattern's tail matches, or reports that none exists |
| Directives.MatchRef | docs/directives.mjs:119 | a match exists exactly when some split fits the pattern, and the string is then lead + `<` + target + `>` |
| Directives.MatchRefGroups | docs/directives.mjs:119 | a match's lead is non-empty without line terminators, its target is non-empty without angle brackets, and the split is the only one |
| Directives.MatchRefCompose | docs/directives.mjs:119 | gluing a valid lead and target with angle brackets matches with exactly those groups |
| Directives.MatchRefNeedsClosingBracket | docs/directives.mjs:119 | without a final `>` nothing matches |
| Directives.MatchRefRejectsLineBreak | docs/directives.mjs:119 | a line terminator before any `<` prevents a match |
| Directives.RoleUnmatchedIsVerbatim | docs/directives.mjs:133-135 | when the pattern does not match, the whole body is the label |
| Directives.RefLabel | docs/directives.mjs:133-135 | the label is the target of the pattern's only split when the pattern matches, and the whole body otherwise |
| Directives.RefNameOpt | docs/directives.mjs:136 | the name is the text before the first dot; `opt` is absent without a dot, and otherwise the text from the first dot up to the next dot or the end |
| Directives.CanonicalName | docs/directives.mjs:137-140 | the first specification named or aliased with the name supplies its name; otherwise the name is kept |
| Directives.RoleDisplay | docs/directives.mjs:142 | the display text is the trimmed lead if it is non-blank, else the option if present and non-empty, else the name |
| Directives.RoleIdentifier | docs/directives.mjs:136-140 | for the label: without a dot, `directive-<canonical name>`; otherwise, with the name before the first dot resolved, `directive-<canonical name>` when the next segment is empty and `directive-<canonical name>-<segment>` otherwise |
| Directives.RunRole | docs/directives.mjs:132-144 | one cross-reference, whose identifier follows that rule for the label (the target of the match, or the body), and whose only child is the display text as inline code |
| Directives.RoleOfLabeledTarget | docs/directives.mjs:133-142 | `lead <target>` displays the trimmed lead and takes its identifier from the target alone |
| Directives.RoleOfPlainLabel | docs/directives.mjs:133-142 | a body not ending in `>` is resolved as a plain label |
| Directives.RoleOfPlainName | docs/directives.mjs:136-142 | a plain name points at `directive-<canonical name>` and displays the name |
| Directives.RoleOfDottedName | docs/directives.mjs:136-142 | `name.opt` points at `directive-<canonical name>-<opt>` and displays `opt` |
| Directives.ResolvesTo | docs/directives.mjs:137 | when names and aliases are unique, a directive's name or alias resolves to that directive |
| Directives.RoleTargetsDirectiveHeading | docs/directives.mjs:137-140 | when names and aliases are unique, a role naming a directive points at the heading that the directive's run emits |
| Directives.RoleOptionIdentifier | docs/directives.mjs:136-139 | `name.opt` for a directive's name or alias gives that directive's option identifier |
| Directives.RoleTargetsOptionTerm | docs/directives.mjs:136-139 | when names and aliases are unique, `name.opt` for a documented argument, body or option points at an anchor in the directive's run |
| DirectiveExamples.UnknownDirectiveReported | docs/directives.mjs:76-79 | documenting `note` when only `admonition` exists gives no nodes and the error `Unknown myst directive "note"` |
| DirectiveExamples.AdmonitionClassOption | docs/directives.mjs:45-59 | the `class` option of `admonition` gives three entries, anchored `directive-admonition-class`, the last reading `Alias: cls` |
| DirectiveExamples.ThreeSegments | docs/directives.mjs:136 | `a.b.c` gives name `a` and option `b` |
| DirectiveExamples.BareTarget | docs/directives.mjs:119 | `<x>` does not match, having no lead, and is its own label |
| DirectiveExamples.LeadWithLineBreak | docs/directives.mjs:119 | a lead spanning two lines does not match |
| SiteNav.ProjectFor | app/utils/utils.ts:4-9 | nothing exactly when the slug is missing or empty or no project has it; otherwise the last project with that slug |
| SiteNav.GetProject | app/utils/utils.ts:4-9 | filling the table and consulting it gives `ProjectFor` |
| SiteNav.AddGroups | app/utils/utils.ts:30-37 | the sweep that carries `lastTitle` gives `WithGroups` |
| SiteNav.GetProjectHeadings | app/utils/utils.ts:11-40 | gives `ProjectHeadingsOf`: the project's headings, grouped when asked |
| SiteNav.ProjectHeadingsShape | app/utils/utils.ts:16-29 | headings exist exactly when the project does; the index entry comes first, then one entry per page in order; a page with a slug gets `/<project>/<page>`, and other fields are kept |
| SiteNav.WithGroupsLatest | app/utils/utils.ts:30-37 | grouping keeps all other fields and labels each heading with the latest group opener at or before it, or with the initial title while there is none |
| SiteNav.GroupsFromFirstOpener | app/utils/utils.ts:30-37 | when the first heading opens a group, every heading has a latest opener, and the first heading is its own |
| SiteNav.HeadingGroups | app/utils/utils.ts:30-37 | with `addGroups`, length, order and fields are kept; each group is the title of the latest heading at or before it that has no slug or is the index; the first heading is under the project title |
| SiteNav.HeadingLink | app/utils/utils.ts:42-55 | the link to the first heading with a non-empty slug other than the current one; no link when there are no headings, no such heading, or its path is empty |
| SiteNav.HeadingsNavigable | app/utils/utils.ts:18-29 | every heading with a slug has a non-empty path |
| SiteNav.HeadingLinkOfNavigable | app/utils/utils.ts:42-55 | over such headings a link exists exactly when some heading is linkable, and it goes to the first one |
| SiteNav.FooterLinksOf | app/utils/utils.ts:57-74 | no navigation exactly when an input is missing or empty, the project does not exist, or no heading has the page's slug |
| SiteNav.PrevLink | app/utils/utils.ts:68 | searching the reversed prefix finds the nearest linkable heading before the page, and finds one exactly when such a heading exists |
| SiteNav.NextLink | app/utils/utils.ts:69 | searching the suffix finds the nearest linkable heading after the page, and finds one exactly when such a heading exists |
| SiteNav.FooterNeighbours | app/utils/utils.ts:57-74 | for a page found at `f`, `prev` is the link to the nearest linkable heading before it and `next` to the nearest after it, each present exactly when one exists |
| SiteNavFindings.ProjectLookupAsWritten | app/utils/utils.ts:5-8 | the lookup as written agrees with `ProjectFor` on own entries and on misses, and returns an inherited member exactly for a non-empty slug that is an `Object.prototype` name and belongs to no project |
| SiteNavFindings.InheritedNameFound | app/utils/utils.ts:7-8 | with no project called `toString`, the lookup as written still returns something, while `ProjectFor` returns nothing |

## Left out

- `mystParse` is an external parser. It is the parameter `parse`, with nothing assumed about it.
- The registry `defaultDirectives` comes from another package. It is a parameter, and the
  properties that need unique names and aliases state that as `WellFormedRegistry`.
- `fileError` writes to a virtual file. The model lists the messages of a run instead.
- The `u` builder of `unist-builder` is modelled by the `Node` constructors. Node kinds the
  parser may produce that the plugin never builds are `Element`.
- The plugin object at the end of `docs/directives.mjs` (lines 147-158) is a pure
  registration record with no logic of its own.
- `copyTextToClipboard` (`app/utils/utils.ts:76-87`) is browser clipboard I/O wrapped in a
  promise.
- JavaScript strings are sequences of UTF-16 code units. The model uses Dafny `char` (Unicode
  scalar values), so `.` in `REF_PATTERN` and `trim` are stated per code point.
- The order of `Object.entries` is taken to be the order of the `options` sequence.
  Integer-like option names, which JavaScript enumerates first, are not distinguished.
- An `alias` field that is `undefined` is modelled as the empty list. Both take the same
  branches in the code.
- A page record whose `slug` key is present but `undefined` is not distinguished from one
  without the key. In the code such a page would get the path `/<project>/undefined`.
- Lookup keys `__proto__`: `SiteNavFindings.ProjectLookupAsWritten` requires that no project
  has that slug. Assigning it would replace the table's prototype, which the model leaves out.
- `DirectiveExamples`: of the full `admonition` scenario only the `class` option is a concrete
  lemma. The heading, the alias paragraph and the argument term are covered by the general
  lemmas (`RunDirectiveSections`, `OptionTermText`, `AliasLineText`). Unfolding the model on
  those literal inputs exceeds the proof budget.

## Findings

| source | as written | input that shows it | evidently intended | confidence | as-written member | corrected member |
|---|---|---|---|---|---|---|
| app/utils/utils.ts:5-8 | the table is an object literal and `projectSlug in projectLookup` also sees the names it inherits from `Object.prototype`, so an inherited function is returned as the project | `getProject({projects: []}, 'toString')` returns `Object.prototype.toString`; `getProjectHeadings` would then read `pages` of it | a slug that no project carries gives `undefined` | not executed | SiteNavFindings.ProjectLookupAsWritten, SiteNavFindings.InheritedNameFound | SiteNav.ProjectFor, SiteNav.GetProject |
