/**
 * The site navigation helpers of app/utils/utils.ts: looking a project up
 * by slug, listing its headings (an index entry followed by its pages,
 * optionally labelled with the group each falls under) and deriving the
 * previous / next links shown in a page footer.
 */
module SiteNav {
  import opened Wrappers
  import opened Builtins

  /** A heading's level: the project's index entry, or a numeric depth. */
  datatype Level = IndexLevel | Depth(n: int)

  datatype Heading = Heading(
    title: string,
    slug: Option<string>,
    path: Option<string>,
    level: Level,
    group: Option<string>)

  datatype Project = Project(slug: string, title: string, index: string, pages: seq<Heading>)

  datatype SiteManifest = SiteManifest(projects: seq<Project>)

  datatype NavLink = NavLink(title: string, url: string, group: Option<string>)

  datatype Navigation = Navigation(prev: Option<NavLink>, next: Option<NavLink>)

  /** `FooterLinks`: `{}` is `FooterLinks(None)`. */
  datatype FooterLinks = FooterLinks(navigation: Option<Navigation>)

  // ---------------------------------------------------------------------
  // getProject

  function HasSlug(s: string): Project -> bool {
    (p: Project) => p.slug == s
  }

  /** The position of the last project whose slug is `s`, or -1. */
  function LastWithSlug(ps: seq<Project>, s: string): int {
    LastIndex(ps, HasSlug(s))
  }

  /**
   * What `getProject` answers: nothing for a missing or empty slug or one
   * no project carries, otherwise the LAST project with that slug (each
   * later entry overwrites the earlier one in the lookup table).
   */
  function ProjectFor(ps: seq<Project>, projectSlug: Option<string>): (r: Option<Project>)
    ensures r.None? <==> !IsTruthy(projectSlug) || forall j :: 0 <= j < |ps| ==> ps[j].slug != projectSlug.value
    ensures r.Some? ==> exists l ::
                          && 0 <= l < |ps| && r.value == ps[l] && ps[l].slug == projectSlug.value
                          && forall j :: l < j < |ps| ==> ps[j].slug != projectSlug.value
  {
    if !IsTruthy(projectSlug) then None
    else
      var l := LastWithSlug(ps, projectSlug.value);
      if l < 0 then None else Some(ps[l])
  }

  /** `lookup` maps each slug of `prefix` to the last project of `prefix` carrying it. */
  ghost predicate IsLookupOf(lookup: map<string, Project>, prefix: seq<Project>) {
    forall k ::
      && (k in lookup <==> LastWithSlug(prefix, k) >= 0)
      && (k in lookup ==> lookup[k] == prefix[LastWithSlug(prefix, k)])
  }

  /** Assigning the next project's slug keeps the table faithful to the longer prefix. */
  lemma LookupSnoc(lookup: map<string, Project>, prefix: seq<Project>, p: Project)
    requires IsLookupOf(lookup, prefix)
    ensures IsLookupOf(lookup[p.slug := p], prefix + [p])
  {
    forall k ensures LastWithSlug(prefix + [p], k) == if p.slug == k then |prefix| else LastWithSlug(prefix, k) {
      LastIndexSnoc(prefix, p, HasSlug(k));
    }
  }

  /** `getProject`: fills a slug-to-project table, then consults it. */
  method GetProject(config: SiteManifest, projectSlug: Option<string>) returns (r: Option<Project>)
    ensures r == ProjectFor(config.projects, projectSlug)
  {
    var ps := config.projects;
    var lookup: map<string, Project> := map[];
    var i := 0;
    while i < |ps|
      invariant 0 <= i <= |ps|
      invariant IsLookupOf(lookup, ps[..i])
    {
      LookupSnoc(lookup, ps[..i], ps[i]);
      assert ps[..i] + [ps[i]] == ps[..i + 1];
      lookup := lookup[ps[i].slug := ps[i]];
      i := i + 1;
    }
    assert ps[..i] == ps;
    if !IsTruthy(projectSlug) || projectSlug.value !in lookup {
      return None;
    }
    return Some(lookup[projectSlug.value]);
  }

  // ---------------------------------------------------------------------
  // getProjectHeadings

  /** The entry for the project's own index page. */
  function IndexHeading(p: Project): Heading {
    Heading(p.title, Some(p.index), Some("/" + p.slug), IndexLevel, None)
  }

  /** A page with a slug gets a path under the project; any other page is kept as it is. */
  function WithPath(projectSlug: string, page: Heading): Heading {
    if page.slug.None? then page else page.(path := Some("/" + projectSlug + "/" + page.slug.value))
  }

  function BaseHeadings(p: Project): seq<Heading> {
    [IndexHeading(p)] + seq(|p.pages|, i requires 0 <= i < |p.pages| => WithPath(p.slug, p.pages[i]))
  }

  /** A heading with no slug, or the index entry, opens a new group. */
  predicate StartsGroup(h: Heading) {
    !IsTruthy(h.slug) || h.level == IndexLevel
  }

  /** The title of the last group opener in `prefix`, or `init` when there is none. */
  function GroupTitle(prefix: seq<Heading>, init: string): string {
    var l := LastIndex(prefix, StartsGroup);
    if l < 0 then init else prefix[l].title
  }

  /** Every heading labelled with the group of the prefix that ends at it. */
  function WithGroups(hs: seq<Heading>, init: string): seq<Heading> {
    seq(|hs|, k requires 0 <= k < |hs| => hs[k].(group := Some(GroupTitle(hs[..k + 1], init))))
  }

  /** Extending the prefix by one heading: it opens the group, or the group carries on. */
  lemma GroupTitleSnoc(hs: seq<Heading>, i: nat, init: string)
    requires i < |hs|
    ensures GroupTitle(hs[..i + 1], init) == if StartsGroup(hs[i]) then hs[i].title else GroupTitle(hs[..i], init)
  {
    assert hs[..i + 1] == hs[..i] + [hs[i]];
    LastIndexSnoc(hs[..i], hs[i], StartsGroup);
  }

  /** The `addGroups` pass: one sweep carrying the title of the current group. */
  method AddGroups(hs: seq<Heading>, init: string) returns (r: seq<Heading>)
    ensures r == WithGroups(hs, init)
  {
    var lastTitle := init;
    r := [];
    for i := 0 to |hs|
      invariant lastTitle == GroupTitle(hs[..i], init)
      invariant r == WithGroups(hs, init)[..i]
    {
      GroupTitleSnoc(hs, i, init);
      if !IsTruthy(hs[i].slug) || hs[i].level == IndexLevel {
        lastTitle := hs[i].title;
      }
      r := r + [hs[i].(group := Some(lastTitle))];
    }
  }

  /** What `getProjectHeadings` answers. */
  function ProjectHeadingsOf(config: SiteManifest, projectSlug: Option<string>, addGroups: bool): Option<seq<Heading>> {
    var project := ProjectFor(config.projects, projectSlug);
    if project.None? then None
    else
      var hs := BaseHeadings(project.value);
      Some(if addGroups then WithGroups(hs, project.value.title) else hs)
  }

  /** `getProjectHeadings`. */
  method GetProjectHeadings(config: SiteManifest, projectSlug: Option<string>, addGroups: bool)
    returns (r: Option<seq<Heading>>)
    ensures r == ProjectHeadingsOf(config, projectSlug, addGroups)
  {
    var project := GetProject(config, projectSlug);
    if project.None? {
      return None;
    }
    var headings := BaseHeadings(project.value);
    if addGroups {
      var grouped := AddGroups(headings, project.value.title);
      return Some(grouped);
    }
    return Some(headings);
  }

  /**
   * The heading list exists exactly when the project does; it is the index
   * entry followed by one entry per page, in order, where a page with a
   * slug gets the path `/<project>/<page>` and keeps everything else, and
   * without `addGroups` a page without a slug is unchanged.
   */
  lemma ProjectHeadingsShape(config: SiteManifest, projectSlug: Option<string>, addGroups: bool)
    ensures ProjectHeadingsOf(config, projectSlug, addGroups).None? <==> ProjectFor(config.projects, projectSlug).None?
    ensures ProjectHeadingsOf(config, projectSlug, addGroups).Some? ==>
              var p := ProjectFor(config.projects, projectSlug).value;
              var hs := ProjectHeadingsOf(config, projectSlug, addGroups).value;
              && |hs| == 1 + |p.pages|
              && hs[0].(group := None) == Heading(p.title, Some(p.index), Some("/" + p.slug), IndexLevel, None)
              && (!addGroups ==> hs[0].group == None)
              && (forall i :: 0 <= i < |p.pages| ==>
                    && hs[i + 1].title == p.pages[i].title
                    && hs[i + 1].slug == p.pages[i].slug
                    && hs[i + 1].level == p.pages[i].level
                    && hs[i + 1].path == (if p.pages[i].slug.Some? then Some("/" + p.slug + "/" + p.pages[i].slug.value)
                                          else p.pages[i].path)
                    && (!addGroups ==> hs[i + 1].group == p.pages[i].group))
  {
    var project := ProjectFor(config.projects, projectSlug);
    if project.Some? {
      var p := project.value;
      var base := BaseHeadings(p);
      var hs := ProjectHeadingsOf(config, projectSlug, addGroups).value;
      forall i | 0 <= i < |p.pages|
        ensures hs[i + 1].(group := base[i + 1].group) == base[i + 1]
        ensures base[i + 1] == WithPath(p.slug, p.pages[i])
      {
      }
    }
  }

  /** `l` is the latest group opener at or before position `i` of `hs`. */
  predicate LatestOpener(hs: seq<Heading>, i: int, l: int) {
    && 0 <= l <= i < |hs| && StartsGroup(hs[l])
    && forall j :: l < j <= i ==> !StartsGroup(hs[j])
  }

  /**
   * Grouping keeps length, order and every other field, and labels each
   * heading with the title of the latest group opener at or before it, or
   * with `init` while no group has been opened.
   */
  lemma WithGroupsLatest(hs: seq<Heading>, init: string)
    ensures |WithGroups(hs, init)| == |hs|
    ensures forall i :: 0 <= i < |hs| ==> WithGroups(hs, init)[i].(group := hs[i].group) == hs[i]
    ensures forall i :: 0 <= i < |hs| ==>
              || (exists l :: LatestOpener(hs, i, l) && WithGroups(hs, init)[i].group == Some(hs[l].title))
              || ((forall j :: 0 <= j <= i ==> !StartsGroup(hs[j])) && WithGroups(hs, init)[i].group == Some(init))
  {
    var w := WithGroups(hs, init);
    forall i | 0 <= i < |hs|
      ensures || (exists l :: LatestOpener(hs, i, l) && w[i].group == Some(hs[l].title))
              || ((forall j :: 0 <= j <= i ==> !StartsGroup(hs[j])) && w[i].group == Some(init))
    {
      var prefix := hs[..i + 1];
      var l := LastIndex(prefix, StartsGroup);
      if l >= 0 {
        assert prefix[l] == hs[l];
        forall j | l < j <= i ensures !StartsGroup(hs[j]) {
          assert prefix[j] == hs[j];
        }
        assert LatestOpener(hs, i, l);
      } else {
        forall j | 0 <= j <= i ensures !StartsGroup(hs[j]) {
          assert prefix[j] == hs[j];
        }
      }
    }
  }

  /** Heading `i` of `grouped` carries the title of the latest group opener at or before `i` in `hs`. */
  ghost predicate UnderLatestOpener(hs: seq<Heading>, grouped: seq<Heading>, i: int)
    requires 0 <= i < |hs| == |grouped|
  {
    exists l :: LatestOpener(hs, i, l) && grouped[i].group == Some(hs[l].title)
  }

  /** When the first heading opens a group, every heading has a latest opener, and the first is its own. */
  lemma GroupsFromFirstOpener(hs: seq<Heading>, init: string)
    requires |hs| > 0 && StartsGroup(hs[0])
    ensures |WithGroups(hs, init)| == |hs|
    ensures WithGroups(hs, init)[0].group == Some(hs[0].title)
    ensures forall i :: 0 <= i < |hs| ==> UnderLatestOpener(hs, WithGroups(hs, init), i)
  {
    var w := WithGroups(hs, init);
    assert hs[..1] == [hs[0]];
    forall i | 0 <= i < |hs| ensures UnderLatestOpener(hs, w, i) {
      var prefix := hs[..i + 1];
      assert prefix[0] == hs[0];
      var l := LastIndex(prefix, StartsGroup);
      assert prefix[l] == hs[l];
      forall j | l < j <= i ensures !StartsGroup(hs[j]) {
        assert prefix[j] == hs[j];
      }
      assert LatestOpener(hs, i, l);
    }
  }

  /**
   * With `addGroups` the headings keep their length, order and fields, and
   * each is labelled with the title of the latest group opener at or before
   * it; the first heading, the index entry, falls under the project's own title.
   */
  lemma HeadingGroups(config: SiteManifest, projectSlug: Option<string>)
    requires ProjectFor(config.projects, projectSlug).Some?
    ensures var p := ProjectFor(config.projects, projectSlug).value;
            var base := BaseHeadings(p);
            var hs := ProjectHeadingsOf(config, projectSlug, true).value;
            && |hs| == |base|
            && hs[0].group == Some(p.title)
            && (forall i :: 0 <= i < |hs| ==> hs[i].(group := base[i].group) == base[i])
            && (forall i :: 0 <= i < |hs| ==> UnderLatestOpener(base, hs, i))
  {
    var p := ProjectFor(config.projects, projectSlug).value;
    var base := BaseHeadings(p);
    assert base[0] == IndexHeading(p);
    WithGroupsLatest(base, p.title);
    GroupsFromFirstOpener(base, p.title);
  }

  // ---------------------------------------------------------------------
  // getHeadingLink

  /** A heading a footer may link to from the page with slug `current`. */
  predicate Linkable(current: string, h: Heading) {
    IsTruthy(h.slug) && h.slug.value != current
  }

  function LinkableFrom(current: string): Heading -> bool {
    (h: Heading) => Linkable(current, h)
  }

  /** `i` is the position of the first heading of `hs` a footer may link to. */
  predicate FirstLinkable(current: string, hs: seq<Heading>, i: int) {
    && 0 <= i < |hs| && Linkable(current, hs[i])
    && forall j :: 0 <= j < i ==> !Linkable(current, hs[j])
  }

  function LinkTo(h: Heading): NavLink
    requires h.path.Some?
  {
    NavLink(h.title, h.path.value, h.group)
  }

  /**
   * `getHeadingLink`: the link to the first heading with a non-empty slug
   * other than `current`, provided that heading has a non-empty path.
   */
  function HeadingLink(current: string, headings: Option<seq<Heading>>): (r: Option<NavLink>)
    ensures r.Some? ==> headings.Some? && exists i ::
                          && FirstLinkable(current, headings.value, i) && IsTruthy(headings.value[i].path)
                          && r.value == LinkTo(headings.value[i])
    ensures r.None? <==> || headings.None?
                         || (forall i :: 0 <= i < |headings.value| ==> !Linkable(current, headings.value[i]))
                         || exists i :: FirstLinkable(current, headings.value, i) && !IsTruthy(headings.value[i].path)
  {
    if headings.None? then None
    else
      var hs := headings.value;
      var linkIndex := FindIndex(hs, LinkableFrom(current));
      if linkIndex < 0 || !IsTruthy(hs[linkIndex].path) then None
      else Some(LinkTo(hs[linkIndex]))
  }

  /** Every heading that has a slug also has a non-empty path. */
  predicate Navigable(hs: seq<Heading>) {
    forall i :: 0 <= i < |hs| && hs[i].slug.Some? ==> IsTruthy(hs[i].path)
  }

  /** The headings of a project can always be linked to: index and slugged pages all get paths. */
  lemma HeadingsNavigable(config: SiteManifest, projectSlug: Option<string>, addGroups: bool)
    requires ProjectHeadingsOf(config, projectSlug, addGroups).Some?
    ensures Navigable(ProjectHeadingsOf(config, projectSlug, addGroups).value)
  {
    var p := ProjectFor(config.projects, projectSlug).value;
    var base := BaseHeadings(p);
    var hs := ProjectHeadingsOf(config, projectSlug, addGroups).value;
    forall i | 0 <= i < |hs| && hs[i].slug.Some? ensures IsTruthy(hs[i].path) {
      assert hs[i].path == base[i].path && hs[i].slug == base[i].slug;
      if i > 0 {
        assert base[i] == WithPath(p.slug, p.pages[i - 1]);
      }
    }
  }

  /** Over navigable headings a link exists exactly when some heading is linkable, and it is the first one. */
  lemma HeadingLinkOfNavigable(current: string, hs: seq<Heading>)
    requires Navigable(hs)
    ensures HeadingLink(current, Some(hs)).Some? <==> exists i :: 0 <= i < |hs| && Linkable(current, hs[i])
    ensures HeadingLink(current, Some(hs)).Some? ==>
              exists i :: FirstLinkable(current, hs, i) && HeadingLink(current, Some(hs)).value == LinkTo(hs[i])
  {
    var k := FindIndex(hs, LinkableFrom(current));
    if k >= 0 {
      assert Linkable(current, hs[k]);
    }
  }

  // ---------------------------------------------------------------------
  // getFooterLinks

  function SlugIs(slug: string): Heading -> bool {
    (h: Heading) => h.slug == Some(slug)
  }

  /**
   * `getFooterLinks`: no navigation unless the manifest, the project slug
   * and the page slug are all given and the page is among the project's
   * headings; otherwise `prev` links back from the page and `next` forward
   * (see `FooterNeighbours` for which headings they reach).
   */
  function FooterLinksOf(config: Option<SiteManifest>, projectSlug: Option<string>, slug: Option<string>): (r: FooterLinks)
    ensures r.navigation.None? <==>
              || !IsTruthy(projectSlug) || !IsTruthy(slug) || config.None?
              || ProjectFor(config.value.projects, projectSlug).None?
              || var hs := ProjectHeadingsOf(config.value, projectSlug, true).value;
                 forall i :: 0 <= i < |hs| ==> hs[i].slug != slug
  {
    if !IsTruthy(projectSlug) || !IsTruthy(slug) || config.None? then FooterLinks(None)
    else
      ProjectHeadingsShape(config.value, projectSlug, true);
      var pages := ProjectHeadingsOf(config.value, projectSlug, true);
      var found := if pages.None? then -1 else FindIndex(pages.value, SlugIs(slug.value));
      if found == -1 then FooterLinks(None)
      else
        var prev := HeadingLink(slug.value, Some(Reverse(pages.value[..found])));
        var next := HeadingLink(slug.value, Some(pages.value[found + 1..]));
        FooterLinks(Some(Navigation(prev, next)))
  }

  /** `j` is the nearest heading before position `f` that a footer may link to. */
  predicate NearestBefore(current: string, hs: seq<Heading>, f: int, j: int) {
    && 0 <= j < f <= |hs| && Linkable(current, hs[j])
    && forall k :: j < k < f ==> !Linkable(current, hs[k])
  }

  /** `j` is the nearest heading after position `f` that a footer may link to. */
  predicate NearestAfter(current: string, hs: seq<Heading>, f: int, j: int) {
    && 0 <= f < j < |hs| && Linkable(current, hs[j])
    && forall k :: f < k < j ==> !Linkable(current, hs[k])
  }

  /** A reversed prefix of navigable headings is navigable. */
  lemma NavigableReversedPrefix(hs: seq<Heading>, f: nat)
    requires Navigable(hs) && f <= |hs|
    ensures Navigable(Reverse(hs[..f]))
  {
    var rev := Reverse(hs[..f]);
    forall i | 0 <= i < |rev| && rev[i].slug.Some? ensures IsTruthy(rev[i].path) {
      assert rev[i] == hs[f - 1 - i];
    }
  }

  /** Searching the reversed prefix finds the nearest linkable heading before `f`. */
  lemma PrevLink(current: string, hs: seq<Heading>, f: nat)
    requires Navigable(hs) && f <= |hs|
    ensures HeadingLink(current, Some(Reverse(hs[..f]))).Some? <==> exists j :: 0 <= j < f && Linkable(current, hs[j])
    ensures HeadingLink(current, Some(Reverse(hs[..f]))).Some? ==>
              exists j :: NearestBefore(current, hs, f, j) && HeadingLink(current, Some(Reverse(hs[..f]))).value == LinkTo(hs[j])
  {
    var before := hs[..f];
    var rev := Reverse(before);
    NavigableReversedPrefix(hs, f);
    HeadingLinkOfNavigable(current, rev);
    FindIndexReverse(before, LinkableFrom(current));
    var l := LastIndex(before, LinkableFrom(current));
    if l >= 0 {
      assert before[l] == hs[l];
      assert rev[f - 1 - l] == hs[l];
      forall k | l < k < f ensures !Linkable(current, hs[k]) {
        assert before[k] == hs[k];
      }
      assert NearestBefore(current, hs, f, l);
    } else {
      forall j | 0 <= j < f ensures !Linkable(current, hs[j]) {
        assert before[j] == hs[j];
      }
    }
  }

  /** Searching the suffix finds the nearest linkable heading after `f`. */
  lemma NextLink(current: string, hs: seq<Heading>, f: nat)
    requires Navigable(hs) && f < |hs|
    ensures HeadingLink(current, Some(hs[f + 1..])).Some? <==> exists j :: f < j < |hs| && Linkable(current, hs[j])
    ensures HeadingLink(current, Some(hs[f + 1..])).Some? ==>
              exists j :: NearestAfter(current, hs, f, j) && HeadingLink(current, Some(hs[f + 1..])).value == LinkTo(hs[j])
  {
    var after := hs[f + 1..];
    forall i | 0 <= i < |after| && after[i].slug.Some? ensures IsTruthy(after[i].path) {
      assert after[i] == hs[f + 1 + i];
    }
    HeadingLinkOfNavigable(current, after);
    var k := FindIndex(after, LinkableFrom(current));
    if k >= 0 {
      assert after[k] == hs[f + 1 + k];
      forall m | f < m < f + 1 + k ensures !Linkable(current, hs[m]) {
        assert after[m - f - 1] == hs[m];
      }
      assert NearestAfter(current, hs, f, f + 1 + k);
    } else {
      forall j | f < j < |hs| ensures !Linkable(current, hs[j]) {
        assert after[j - f - 1] == hs[j];
      }
    }
  }

  /**
   * When the page is the heading at `f` (the first with its slug), the
   * footer links back to the nearest linkable heading before it and
   * forward to the nearest one after it, each present exactly when such a
   * heading exists.
   */
  lemma FooterNeighbours(config: SiteManifest, projectSlug: Option<string>, slug: string, hs: seq<Heading>, f: nat)
    requires IsTruthy(projectSlug) && slug != ""
    requires ProjectHeadingsOf(config, projectSlug, true) == Some(hs)
    requires f < |hs| && hs[f].slug == Some(slug) && forall j :: 0 <= j < f ==> hs[j].slug != Some(slug)
    ensures Navigable(hs)
    ensures FooterLinksOf(Some(config), projectSlug, Some(slug)).navigation.Some?
    ensures var nav := FooterLinksOf(Some(config), projectSlug, Some(slug)).navigation.value;
            && (nav.prev.Some? <==> exists j :: 0 <= j < f && Linkable(slug, hs[j]))
            && (nav.prev.Some? ==> exists j :: NearestBefore(slug, hs, f, j) && nav.prev.value == LinkTo(hs[j]))
            && (nav.next.Some? <==> exists j :: f < j < |hs| && Linkable(slug, hs[j]))
            && (nav.next.Some? ==> exists j :: NearestAfter(slug, hs, f, j) && nav.next.value == LinkTo(hs[j]))
  {
    assert FindIndex(hs, SlugIs(slug)) == f;
    assert FooterLinksOf(Some(config), projectSlug, Some(slug)).navigation
      == Some(Navigation(HeadingLink(slug, Some(Reverse(hs[..f]))), HeadingLink(slug, Some(hs[f + 1..]))));
    HeadingsNavigable(config, projectSlug, true);
    PrevLink(slug, hs, f);
    NextLink(slug, hs, f);
  }
}
