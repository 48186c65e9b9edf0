# ViasLibereDesignare catalog slice, modelled in Dafny

This project models the deterministic core of the ViasLibereDesignare portfolio site's
client-side scripts: the slice that turns the ordered list of work records into pages.

- **Work-detail page** (`works/detail.js`, `initDetail`). It looks up the record named by
  the page's `id` query parameter. When no record matches, the browser is redirected to
  `BASE + "works/"`. Otherwise the page gets its title, meta description, hero (image or
  gradient fallback), category label, info fields and gallery. Last comes a list of up to
  three related works: same-category records first, then backfill from the rest of the
  catalog.
- **Top page** (`main.js`). The works grid takes the first six records and only the third
  card is large. The category filter recomputes each item's `hidden` flag in place and
  keeps exactly one filter button active. The mobile-menu toggle flips the button and
  menu state and locks body scrolling while the menu is open. A section that scrolls into
  view activates exactly the navigation links pointing at it.

Files and modules:

- `catalog.dfy` (`Catalog`): the work record, gallery items, and JavaScript truthiness for
  optional strings (`x || fallback`).
- `related_works.dfy` (`RelatedWorks`): the related-works `filter`/`slice`/`push` pipeline,
  specified on catalog positions.
- `work_detail.dfy` (`WorkDetail`): lookup, path normalisation, fallbacks, gallery and
  related cards, and `InitDetail`.
- `top_page.dfy` (`TopPage`): the grid, the `WorksFilter` class (item and button arrays),
  the `MobileMenu` class, and the `SectionNav` class (navigation link array).

Modelling choices:

- Optional record fields (`categoryLabel`, `thumbnail`, and a gallery item's `image`,
  `gradient` and `caption`) are `Option<string>`. The scripts test them only for
  truthiness, so a missing field and `""` behave alike, and the model keeps that rule.
- `related.includes(w)` compares objects by identity. So related works are chosen as
  catalog positions, and two records with equal fields stay distinct candidates.
- `BASE` is the parameter `base`. The catalog returned by `loadWorksData` is a parameter.
  A rendered grid card is the pair of inputs given to `renderWorkCard`.
- Rendered markup is a structured value (`DetailView`, `RelatedCard`, `GalleryEntry`),
  not HTML text.
- The related-works count is `min(3, number of records whose id differs from the
  target's)`. This is what the code computes. It equals `min(3, totalRecords - 1)` only
  when ids are unique.
- The mobile menu code is the same in `works/detail.js:205-219`. The two filter click
  handlers of `main.js` (lines 264-287 and 301-325) run the same logic over different
  lists. The first walks `freshWorkItems` and clears the buttons of a fresh `.filter-btn`
  query made at click time (line 268). The second walks `workItems` and clears
  `filterBtns`, both captured at load (lines 298-299). `WorksFilter.Click` models either
  handler: its `items` array is the handler's item list and its `buttons` array the
  handler's button list.

## Model

| member | source | states |
|---|---|---|
| `RelatedWorks.SameCategoryPoolSpec` | works/detail.js:87-88 | the same-category filter yields exactly the positions of the records sharing the target's category with another id, in strictly increasing catalog order |
| `RelatedWorks.BackfillPoolSpec` | works/detail.js:93-94 | the backfill filter yields exactly the positions whose id is not the target's and that are not already related, in strictly increasing catalog order |
| `RelatedWorks.PoolsSplitOthers` | works/detail.js:87-97 | the whole same-category pool and the backfill pool beside it together count every record whose id is not the target's |
| `RelatedWorks.RelatedLength` | works/detail.js:87-97 | the related list has `min(3, number of records with another id)` entries |
| `RelatedWorks.RelatedExcludesTarget` | works/detail.js:87-97 | every related entry is a catalog record whose id differs from the target's |
| `RelatedWorks.RelatedDistinct` | works/detail.js:93-96 | no record appears twice in the related list, the backfill included |
| `RelatedWorks.RelatedSameCategoryFirst` | works/detail.js:87-89 | the related list starts with the same-category picks, which are the earliest same-category records in catalog order |
| `RelatedWorks.RelatedBackfillAfter` | works/detail.js:92-97 | every entry after the same-category picks is a backfilled record of another category and another id, in catalog order |
| `RelatedWorks.NoBackfillWhenCategoryFull` | works/detail.js:92-97 | with three or more same-category records, the list is the first three of them and nothing is backfilled |
| `RelatedWorks.SameCategoryPicksAreEarliest` | works/detail.js:87-89 | a same-category record is left out only when three earlier same-category records were chosen |
| `RelatedWorks.BackfillPicksAreEarliest` | works/detail.js:92-96 | a record that the backfill filter admits is left out only when the list is full and every backfilled entry comes before it in catalog order |
| `RelatedWorks.RelatedOfUniqueCatalog` | works/detail.js:87-97 | with unique ids, a record's related list has `min(3, number of records - 1)` entries and no two entries share an id |
| `RelatedWorks.ExamplePools` | works/detail.js:87-95 | for records a (web), b (art), c (web), d (art) and target a, the same-category pool is [c] and the backfill pool is [b, d] |
| `RelatedWorks.ExampleRelatedOfA` | works/detail.js:87-97 | for those records the related list of a is c, b, d |
| `WorkDetail.FindWork` | works/detail.js:10-14 | lookup gives the first record whose id equals the query; it is absent exactly when no record matches, and always absent for a missing `id` parameter |
| `WorkDetail.FindWorkOwnId` | works/detail.js:14 | with unique ids, looking up a record's own id finds that record |
| `WorkDetail.StripLeadingSlash` | works/detail.js:33-36 | the path is unchanged unless it starts with `/`, and then exactly that one `/` is removed |
| `WorkDetail.StripLeadingSlashOnce` | works/detail.js:66-68 | `"/" + q` normalises to `q`, and `"//" + q` keeps one slash |
| `WorkDetail.HeroOf` | works/detail.js:33-45 | the hero shows the image exactly when the thumbnail is present and neither `""` nor `"/"`, at `base` plus the thumbnail path with one leading `/` removed and with the title as alt; otherwise it shows the gradient fallback |
| `WorkDetail.DisplayCategory` | works/detail.js:47-48 | the label is `categoryLabel` when non-empty, otherwise `category`; it is empty only when both are |
| `WorkDetail.MetaDescription` | works/detail.js:24-26 | the meta description is the prefix of `description` of length `min(120, length of description)` |
| `WorkDetail.MetaDescriptionIdempotent` | works/detail.js:26 | truncating an already truncated description changes nothing |
| `WorkDetail.GalleryEntryOf` | works/detail.js:60-81 | an entry shows an image exactly when the item's image is non-empty, at `base` plus the image path with one leading `/` removed and with the caption as alt; otherwise it shows a non-empty background, the item's gradient when non-empty, else `var(--color-surface)`; the caption defaults to `""` |
| `WorkDetail.GallerySlashImageKeepsImage` | works/detail.js:65-68 | a gallery image of `"/"` still renders an image, at `base` itself, unlike the hero's rule |
| `WorkDetail.RelatedCardOf` | works/detail.js:100-118 | a related card links to `"detail.html?id=" + id`, uses the hero's image-or-gradient rule and carries the displayed category and the title |
| `WorkDetail.DetailHrefInjective` | works/detail.js:103 | distinct ids give distinct related-card links |
| `WorkDetail.BuildGallery` | works/detail.js:57-84 | the gallery has one entry per gallery item, in order |
| `WorkDetail.BuildRelatedCards` | works/detail.js:99-122 | there is one related card per chosen record, in order |
| `WorkDetail.InitDetail` | works/detail.js:9-123 | the page redirects to `base + "works/"` exactly when the lookup finds nothing; otherwise it renders the found record's title, info fields, hero, label, meta description and gallery, and `min(3, others)` related cards, none of them linking to the record itself |
| `TopPage.BuildTopGrid` | main.js:204-214 | the grid has `min(6, n)` cards, the first records in catalog order; exactly the card at index 2 is large, and a large card exists iff at least 3 records are shown |
| `TopPage.FilteredVisibleIff` | main.js:273-286 | after filtering, the items, their order and categories are unchanged, and an item is visible iff the filter is `"all"` or equals its category |
| `TopPage.FilterAllShowsEverything` | main.js:275 | filter `"all"` makes every item visible |
| `TopPage.FilterUnmatchedHidesEverything` | main.js:310-323 | a token matching no item's category hides every item |
| `TopPage.FilterLastClickWins` | main.js:273-286 | the visibility after a click depends on the clicked filter only, not on earlier clicks |
| `TopPage.ExampleFilterWeb` | main.js:310-323 | filtering items web, art, web, art by `"web"` shows the first and third |
| `TopPage.WorksFilter.SetActive` | main.js:267-270 | after the update exactly the clicked button is active, and the buttons' filter tokens are unchanged |
| `TopPage.WorksFilter.ApplyFilter` | main.js:272-286 | the item array becomes the filtered sequence of its old contents: only hidden flags change |
| `TopPage.WorksFilter.Click` | main.js:264-287 | a click activates exactly the clicked button and filters the items by that button's token |
| `TopPage.Toggled` | main.js:106-112 | a menu-button click flips both the button and the menu, and scrolling is locked iff the menu is then open |
| `TopPage.ToggleKeepsInStep` | main.js:106-112 | when button and menu agree, a toggle leaves button, menu and lock all in step |
| `TopPage.ToggleTwiceRestores` | main.js:106-112 | toggling twice restores the state exactly when the lock was in step with the menu |
| `TopPage.MobileMenu.Toggle` | main.js:106-112 | the menu object's state becomes the toggled state |
| `TopPage.MobileMenu.CloseFromLink` | main.js:115-121 | clicking a menu link always leaves button and menu inactive and scrolling unlocked |
| `TopPage.LastIntersecting` | main.js:380-381 | gives the id of the last intersecting entry of a batch, and nothing exactly when no entry intersects |
| `TopPage.SectionNav.Highlight` | main.js:382-388 | when section `s` intersects, exactly the links whose href is `"#" + s` are active; hrefs are unchanged |
| `TopPage.SectionNav.OnEntries` | main.js:378-391 | after a batch, the last intersecting section decides the active links; a batch with no intersecting entry changes nothing |

## Left out

- Loader progress (main.js:10-26, works/detail.js:135-150): it depends on `Math.random`, intervals and timeouts. The body scroll lock the loader sets while it runs is therefore not part of the menu state's history.
- Cursor follower easing, hover-scale and magnetic-button transforms, and the counter animation: floating-point geometry and animation frames.
- The reveal and section observers as mechanisms (thresholds, root margins, staggered timeouts). The section observer keeps only its link-active rule.
- The 500 ms `position = "absolute"` follow-up after filtering: cosmetic timing.
- The `cloneNode`/`replaceChild` listener rebinding (main.js:261-262): the filter is modelled once over the current items and buttons.
- Smooth scrolling, the contact-form reset timeout and the nav `scrolled` class on `window.scrollY`: browser plumbing.
- `loadWorksData` and `renderWorkCard` are not part of this model. The catalog is a parameter, and a card is the pair of `renderWorkCard`'s inputs. A failing load is not modelled.
- Element presence checks (`if (!worksGrid) return`, a missing hero or gallery element) and the listener registrations with the reveal observer are DOM plumbing. The only presence check that is kept is the meta-description tag's, as `hasMetaTag`.
- A work item without a `data-category`, or a button without a `data-filter`, is not modelled: both attributes are plain strings, so the `null` case is absent.
- TopPage.BuildTopGrid: does not state what `renderWorkCard` puts into a card's markup, because that function is not part of this model.
- WorkDetail.MetaDescription: counts characters (Unicode scalar values), whereas `slice(0, 120)` counts UTF-16 code units. A description with characters outside the Basic Multilingual Plane before position 120 is cut shorter by the page, and the page's cut can split a surrogate pair; JavaScript string lengths are not modelled.
- WorkDetail.RelatedCardOf: the id goes into the link as is, because URL encoding is not modelled.
- HTML string templating and escaping: outputs are structured values.
