/**
 * `getProject` keeps its table in a plain object literal and asks
 * `projectSlug in projectLookup`, which also holds for the names every
 * object inherits from `Object.prototype`. This module models that lookup
 * as written and shows where it departs from the intended one, which is
 * `SiteNav.ProjectFor`.
 */
module SiteNavFindings {
  import opened Wrappers
  import opened Builtins
  import opened SiteNav

  /** The property names an empty object literal inherits. */
  const ObjectPrototypeKeys: set<string> := {
    "constructor", "__defineGetter__", "__defineSetter__", "hasOwnProperty",
    "__lookupGetter__", "__lookupSetter__", "isPrototypeOf", "propertyIsEnumerable",
    "toString", "valueOf", "__proto__", "toLocaleString"
  }

  /** What the object-literal lookup yields. */
  datatype Lookup =
    | Missing
    | OwnEntry(project: Project)
      /** An inherited member (a function, not a project) is handed back. */
    | Inherited(key: string)

  /**
   * The lookup as written. Own entries shadow inherited members; assigning
   * a project under the key `__proto__` would replace the table's prototype
   * instead, so such slugs are excluded.
   */
  function ProjectLookupAsWritten(ps: seq<Project>, projectSlug: Option<string>): (r: Lookup)
    requires forall j :: 0 <= j < |ps| ==> ps[j].slug != "__proto__"
    ensures r.OwnEntry? ==> ProjectFor(ps, projectSlug) == Some(r.project)
    ensures r.Missing? ==> ProjectFor(ps, projectSlug).None?
    ensures r.Inherited? <==>
              && IsTruthy(projectSlug) && projectSlug.value in ObjectPrototypeKeys
              && ProjectFor(ps, projectSlug).None?
  {
    if !IsTruthy(projectSlug) then Missing
    else
      var l := LastWithSlug(ps, projectSlug.value);
      if l >= 0 then OwnEntry(ps[l])
      else if projectSlug.value in ObjectPrototypeKeys then Inherited(projectSlug.value)
      else Missing
  }

  /**
   * With no project called `toString`, the lookup as written still finds
   * something, whereas no project is what was meant.
   */
  lemma InheritedNameFound(ps: seq<Project>)
    requires forall j :: 0 <= j < |ps| ==> ps[j].slug != "toString" && ps[j].slug != "__proto__"
    ensures ProjectLookupAsWritten(ps, Some("toString")) == Inherited("toString")
    ensures ProjectFor(ps, Some("toString")) == None
  {
    assert "toString" in ObjectPrototypeKeys;
  }
}
