/**
 * The work catalog shared by the top page and the work-detail page: one record
 * per portfolio project, in the order the data source lists them.
 *
 * Optional record fields are `Option<string>`. The page code only ever reads them
 * through JavaScript truthiness (`x || fallback`, `if (x)`), under which a missing
 * field and the empty string behave alike; `Truthy` and `OrElse` state that rule once.
 */
module Catalog {

  datatype Option<T> = None | Some(value: T)

  /** One entry of a record's gallery; every field may be missing. */
  datatype GalleryItem = GalleryItem(image: Option<string>, gradient: Option<string>, caption: Option<string>)

  /** A project record. `year` is a display value and is kept as text. */
  datatype Work = Work(
    id: string,
    title: string,
    description: string,
    client: string,
    role: string,
    year: string,
    category: string,
    categoryLabel: Option<string>,
    thumbnail: Option<string>,
    gradient: string,
    gallery: seq<GalleryItem>)

  /** JavaScript truthiness of an optional string: present and non-empty. */
  predicate Truthy(s: Option<string>) {
    s.Some? && s.value != ""
  }

  /** `s || fallback` for an optional string. */
  function OrElse(s: Option<string>, fallback: string): (r: string)
    ensures Truthy(s) ==> Some(r) == s
    ensures !Truthy(s) ==> r == fallback
  {
    if Truthy(s) then s.value else fallback
  }

  function Min(a: int, b: int): (r: int) {
    if a <= b then a else b
  }

  /** `ids` are unique within the catalog, as the data source promises. */
  ghost predicate UniqueIds(catalog: seq<Work>) {
    forall i, j :: 0 <= i < j < |catalog| ==> catalog[i].id != catalog[j].id
  }
}
