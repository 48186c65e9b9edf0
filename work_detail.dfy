/**
 * The work-detail page (works/detail.js:9-123): resolve the record named by the
 * page's `id` query parameter, or redirect to the works listing when there is none;
 * otherwise describe the page the script fills in: document title, meta description,
 * hero, labels, gallery and related works.
 *
 * DOM writes are modelled as the structured `DetailView` the script would produce.
 * `base` stands for the build-time `BASE` prefix; `hasMetaTag` says whether the page
 * has a `<meta name="description">` element for the script to update.
 */
module WorkDetail {
  import opened Catalog
  import opened RelatedWorks

  const MetaDescriptionLimit: nat := 120
  const TitleSuffix := " | ViasLibereDesignare"
  const SurfaceColor := "var(--color-surface)"
  const DetailHref := "detail.html?id="
  const ListingPath := "works/"

  /** The hero: the record's image, or its gradient with the fallback styling. */
  datatype Hero = HeroImage(src: string, alt: string) | HeroFallback(background: string)

  datatype GalleryMedia = GalleryImage(src: string, alt: string) | GalleryFill(background: string)

  /** One `.detail-gallery-item`: its media and its caption text. */
  datatype GalleryEntry = GalleryEntry(media: GalleryMedia, caption: string)

  datatype CardBackground = CoverImage(url: string) | GradientFill(gradient: string)

  /** One `.detail-related-item` link. */
  datatype RelatedCard = RelatedCard(href: string, background: CardBackground, categoryText: string, name: string)

  datatype DetailView = DetailView(
    documentTitle: string,
    metaDescription: Option<string>,
    hero: Hero,
    categoryText: string,
    title: string,
    client: string,
    year: string,
    role: string,
    description: string,
    gallery: seq<GalleryEntry>,
    related: seq<RelatedCard>)

  /** What the script does: send the browser elsewhere, or fill in the page. */
  datatype Page = Redirect(url: string) | Render(view: DetailView)

  /**
   * The position of the first record whose id equals the query; a missing query
   * (`params.get("id")` returning null) equals no id.
   */
  function FindWork(catalog: seq<Work>, query: Option<string>): (r: Option<nat>)
    ensures r.Some? ==> r.value < |catalog| && query == Some(catalog[r.value].id)
    ensures r.Some? ==> forall j :: 0 <= j < r.value ==> query != Some(catalog[j].id)
    ensures r.None? <==> forall j :: 0 <= j < |catalog| ==> query != Some(catalog[j].id)
  {
    if catalog == [] then None
    else if query == Some(catalog[0].id) then Some(0)
    else
      match FindWork(catalog[1..], query)
      case None => None
      case Some(k) => Some(k + 1)
  }

  /** With unique ids, looking up a record's own id finds exactly that record. */
  lemma FindWorkOwnId(catalog: seq<Work>, i: nat)
    requires UniqueIds(catalog) && i < |catalog|
    ensures FindWork(catalog, Some(catalog[i].id)) == Some(i)
  {
  }

  /** `p.startsWith("/") ? p.slice(1) : p`: removes exactly one leading slash. */
  function StripLeadingSlash(p: string): (r: string)
    ensures p == r || p == "/" + r
    ensures p == r <==> (p == [] || p[0] != '/')
  {
    if |p| > 0 && p[0] == '/' then p[1..] else p
  }

  /** Only one slash goes: a doubled slash leaves one behind. */
  lemma StripLeadingSlashOnce(q: string)
    ensures StripLeadingSlash("/" + q) == q
    ensures StripLeadingSlash("//" + q) == "/" + q
  {
  }

  /** The normalised thumbnail path (works/detail.js:33-36, 105-108). */
  function ThumbPath(thumbnail: Option<string>): (r: Option<string>) {
    if Truthy(thumbnail) then Some(StripLeadingSlash(thumbnail.value)) else thumbnail
  }

  /** The hero uses the image exactly when the thumbnail is present and neither "" nor "/". */
  function HeroOf(base: string, w: Work): (h: Hero)
    ensures h.HeroImage? <==> w.thumbnail.Some? && w.thumbnail.value != "" && w.thumbnail.value != "/"
    ensures h.HeroImage? ==> h.alt == w.title && h.src == base + StripLeadingSlash(w.thumbnail.value)
    ensures h.HeroFallback? ==> h.background == w.gradient
  {
    var path := ThumbPath(w.thumbnail);
    if Truthy(path) then
      HeroImage(base + path.value, w.title)
    else
      HeroFallback(w.gradient)
  }

  /** `categoryLabel || category`: the label when it is non-empty, otherwise the category. */
  function DisplayCategory(w: Work): (r: string)
    ensures Truthy(w.categoryLabel) ==> Some(r) == w.categoryLabel
    ensures !Truthy(w.categoryLabel) ==> r == w.category
    ensures r == "" <==> !Truthy(w.categoryLabel) && w.category == ""
  {
    OrElse(w.categoryLabel, w.category)
  }

  /** `description.slice(0, 120)`. */
  function MetaDescription(d: string): (r: string)
    ensures |r| == Min(MetaDescriptionLimit, |d|)
    ensures r <= d
  {
    if |d| <= MetaDescriptionLimit then d else d[..MetaDescriptionLimit]
  }

  /** Truncating twice is truncating once. */
  lemma MetaDescriptionIdempotent(d: string)
    ensures MetaDescription(MetaDescription(d)) == MetaDescription(d)
  {
  }

  /**
   * One gallery entry: the item's image when it has one, otherwise its gradient,
   * otherwise the surface colour; the caption, and the image's alt text, default to "".
   */
  function GalleryEntryOf(base: string, item: GalleryItem): (e: GalleryEntry)
    ensures e.caption == OrElse(item.caption, "")
    ensures e.media.GalleryImage? <==> Truthy(item.image)
    ensures e.media.GalleryImage? ==>
              e.media.alt == e.caption && e.media.src == base + StripLeadingSlash(item.image.value)
    ensures e.media.GalleryFill? ==>
              e.media.background != ""
              && (Some(e.media.background) == item.gradient || e.media.background == SurfaceColor)
    ensures e.media.GalleryFill? && Truthy(item.gradient) ==> Some(e.media.background) == item.gradient
  {
    var caption := OrElse(item.caption, "");
    if Truthy(item.image) then
      var path := StripLeadingSlash(item.image.value);
      GalleryEntry(GalleryImage(base + path, caption), caption)
    else
      GalleryEntry(GalleryFill(OrElse(item.gradient, SurfaceColor)), caption)
  }

  /**
   * Unlike the hero, a gallery item tests the image path BEFORE removing the slash:
   * an image of "/" still yields an image, whose source is `base` itself.
   */
  lemma GallerySlashImageKeepsImage(base: string, item: GalleryItem)
    requires item.image == Some("/")
    ensures GalleryEntryOf(base, item).media == GalleryImage(base, OrElse(item.caption, ""))
  {
  }

  /** A related card: link to the record's detail page, background by the hero's rule. */
  function RelatedCardOf(base: string, w: Work): (card: RelatedCard)
    ensures card.href == DetailHref + w.id
    ensures card.background.CoverImage? <==> HeroOf(base, w).HeroImage?
    ensures card.background.CoverImage? ==> card.background.url == HeroOf(base, w).src
    ensures card.background.GradientFill? ==> card.background.gradient == w.gradient
    ensures card.categoryText == DisplayCategory(w) && card.name == w.title
  {
    var path := ThumbPath(w.thumbnail);
    var background := if Truthy(path) then CoverImage(base + path.value) else GradientFill(w.gradient);
    RelatedCard(DetailHref + w.id, background, DisplayCategory(w), w.title)
  }

  /** Distinct ids give distinct detail links. */
  lemma DetailHrefInjective(a: string, b: string)
    requires a != b
    ensures DetailHref + a != DetailHref + b
  {
    assert (DetailHref + a)[|DetailHref|..] == a;
    assert (DetailHref + b)[|DetailHref|..] == b;
  }

  /** Gallery `forEach`: one entry per item, in order (works/detail.js:59-84). */
  method BuildGallery(base: string, items: seq<GalleryItem>) returns (entries: seq<GalleryEntry>)
    ensures |entries| == |items|
    ensures forall i :: 0 <= i < |items| ==> entries[i] == GalleryEntryOf(base, items[i])
  {
    entries := [];
    var i := 0;
    while i < |items|
      invariant 0 <= i <= |items|
      invariant |entries| == i
      invariant forall j :: 0 <= j < i ==> entries[j] == GalleryEntryOf(base, items[j])
    {
      entries := entries + [GalleryEntryOf(base, items[i])];
      i := i + 1;
    }
  }

  /** Related `forEach`: one card per chosen record, in order (works/detail.js:100-122). */
  method BuildRelatedCards(base: string, catalog: seq<Work>, picks: seq<nat>) returns (cards: seq<RelatedCard>)
    requires forall k :: 0 <= k < |picks| ==> picks[k] < |catalog|
    ensures |cards| == |picks|
    ensures forall k :: 0 <= k < |picks| ==> cards[k] == RelatedCardOf(base, catalog[picks[k]])
  {
    cards := [];
    var k := 0;
    while k < |picks|
      invariant 0 <= k <= |picks|
      invariant |cards| == k
      invariant forall j :: 0 <= j < k ==> cards[j] == RelatedCardOf(base, catalog[picks[j]])
    {
      cards := cards + [RelatedCardOf(base, catalog[picks[k]])];
      k := k + 1;
    }
  }

  /** The view the script fills in for record `w`. */
  ghost predicate DescribesWork(base: string, catalog: seq<Work>, w: Work, hasMetaTag: bool, v: DetailView) {
    var picks := RelatedPicks(catalog, w);
    && v.documentTitle == w.title + TitleSuffix
    && v.metaDescription == (if hasMetaTag then Some(MetaDescription(w.description)) else None)
    && v.hero == HeroOf(base, w)
    && v.categoryText == DisplayCategory(w)
    && v.title == w.title && v.client == w.client && v.year == w.year
    && v.role == w.role && v.description == w.description
    && |v.gallery| == |w.gallery|
    && (forall i :: 0 <= i < |w.gallery| ==> v.gallery[i] == GalleryEntryOf(base, w.gallery[i]))
    && |v.related| == |picks|
    && (forall k :: 0 <= k < |picks| ==>
          picks[k] < |catalog| && v.related[k] == RelatedCardOf(base, catalog[picks[k]]))
  }

  /**
   * `initDetail`: redirect to the listing when no record has the queried id;
   * otherwise render the first record with that id. The related list holds
   * `min(3, records with another id)` cards, none linking back to the record itself.
   */
  method InitDetail(base: string, catalog: seq<Work>, query: Option<string>, hasMetaTag: bool)
    returns (page: Page)
    ensures page.Redirect? <==> FindWork(catalog, query).None?
    ensures page.Redirect? ==> page.url == base + ListingPath
    ensures page.Render? ==>
      var w := catalog[FindWork(catalog, query).value];
      && query == Some(w.id)
      && DescribesWork(base, catalog, w, hasMetaTag, page.view)
      && |page.view.related| == Min(RelatedLimit, OthersCount(catalog, w, |catalog|))
      && forall k :: 0 <= k < |page.view.related| ==> page.view.related[k].href != DetailHref + w.id
  {
    var found := FindWork(catalog, query);
    if found.None? {
      page := Redirect(base + ListingPath);
      return;
    }
    var w := catalog[found.value];
    var meta := if hasMetaTag then Some(MetaDescription(w.description)) else None;
    var gallery := BuildGallery(base, w.gallery);

    var related := SameCategoryPicks(catalog, w);
    if |related| < RelatedLimit {
      var others := Take(BackfillPool(catalog, w, related, |catalog|), RelatedLimit - |related|);
      related := related + others;
    }
    assert related == RelatedPicks(catalog, w);
    RelatedExcludesTarget(catalog, w);
    RelatedLength(catalog, w);
    var cards := BuildRelatedCards(base, catalog, related);
    forall k | 0 <= k < |cards| ensures cards[k].href != DetailHref + w.id {
      DetailHrefInjective(catalog[related[k]].id, w.id);
    }

    page := Render(DetailView(
      w.title + TitleSuffix, meta, HeroOf(base, w), DisplayCategory(w),
      w.title, w.client, w.year, w.role, w.description, gallery, cards));
  }
}
