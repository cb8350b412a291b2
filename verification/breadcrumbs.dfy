/** The breadcrumb trail shown above every page (`AppBreadcrumbs`). */
module Breadcrumbs {
  import opened Wrappers
  import opened Text

  /** `BREADCRUMB_KEYS`: path fragments and their page labels, in declared order. */
  const BreadcrumbKeys: seq<(string, string)> := [
    ("/reservations", "My reservations"),
    ("/reserve", "Add reservation"),
    ("/automatic-reservations", "Automatic reservations"),
    ("/users/edit/", "Edit your profile"),
    ("/desks/", "Edit desk"),
    ("/metrics", "Desk & booking metrics")
  ]

  /** `Object.keys(...).find(key => pathname.includes(key))`, scanning from position `from`. */
  function FirstKeyFrom(keys: seq<(string, string)>, path: string, from: nat): (r: Option<nat>)
    requires from <= |keys|
    ensures r.Some? ==> from <= r.value < |keys| && Contains(path, keys[r.value].0)
    ensures r.Some? ==> forall j :: from <= j < r.value ==> !Contains(path, keys[j].0)
    ensures r.None? ==> forall j :: from <= j < |keys| ==> !Contains(path, keys[j].0)
    decreases |keys| - from
  {
    if from == |keys| then None
    else if Contains(path, keys[from].0) then Some(from)
    else FirstKeyFrom(keys, path, from + 1)
  }

  /** Key `i` occurs in the path and no key declared before it does. */
  predicate IsFirstMatch(path: string, i: int) {
    && 0 <= i < |BreadcrumbKeys|
    && Contains(path, BreadcrumbKeys[i].0)
    && forall j :: 0 <= j < i ==> !Contains(path, BreadcrumbKeys[j].0)
  }

  /** The label of the current page: the value of the first declared key that occurs in the
      path, and no label when none does (the fallback key "" is not in the table). */
  function CurrentPageLabel(path: string): (r: Option<string>)
    ensures r.None? <==> forall j :: 0 <= j < |BreadcrumbKeys| ==> !Contains(path, BreadcrumbKeys[j].0)
    ensures r.Some? ==> exists i :: IsFirstMatch(path, i) && r.value == BreadcrumbKeys[i].1
  {
    match FirstKeyFrom(BreadcrumbKeys, path, 0)
    case None => None
    case Some(i) => Some(BreadcrumbKeys[i].1)
  }

  /** A label, when there is one, is one of the six declared values. */
  lemma LabelIsDeclared(path: string)
    requires CurrentPageLabel(path).Some?
    ensures CurrentPageLabel(path).value in
      {"My reservations", "Add reservation", "Automatic reservations",
       "Edit your profile", "Edit desk", "Desk & booking metrics"}
  {
  }

  /** What the trail shows: only the "Desks" page on the root path, otherwise a link to
      "Desks" followed by the current page's label (blank when there is none). */
  datatype Trail = DesksPage | Nested(pageLabel: Option<string>)

  function TrailFor(path: string): (t: Trail)
    ensures t.DesksPage? <==> path == "/"
    ensures t.Nested? ==> t.pageLabel == CurrentPageLabel(path)
  {
    if path == "/" then DesksPage else Nested(CurrentPageLabel(path))
  }

  /** Every profile-edit path whose id has no 'v' gets "Edit your profile": the three earlier
      keys all contain a 'v' and so cannot match. */
  lemma ProfileEditPathLabel(id: string)
    requires 'v' !in id
    ensures CurrentPageLabel("/users/edit/" + id) == Some("Edit your profile")
  {
    var path := "/users/edit/" + id;
    assert 'v' !in "/users/edit/";
    assert 'v' !in path;
    MissingCharRefutes(path, BreadcrumbKeys[0].0, 'v');
    MissingCharRefutes(path, BreadcrumbKeys[1].0, 'v');
    MissingCharRefutes(path, BreadcrumbKeys[2].0, 'v');
    PrefixContained("/users/edit/", id);
  }

  /** Declared order decides: a profile path whose id is "reserve" also contains
      "/reserve", which comes first, so it is labelled "Add reservation". */
  lemma EarlierKeyWins()
    ensures CurrentPageLabel("/users/edit/reserve") == Some("Add reservation")
  {
    var path := "/users/edit/reserve";
    assert 'a' !in path;
    MissingCharRefutes(path, BreadcrumbKeys[0].0, 'a');
    assert OccursAt(path, "/reserve", 11);
  }
}
