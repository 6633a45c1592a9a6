/** The registration page (Anmeldung): per-category fill counts keyed by
    category id, the availability badge and dropdown state, the preview of
    pledges already made, the diet-label toggle, and the row inserted on
    submit. */
module Anmeldung {
  import opened Text
  import opened Schema
  import opened Tally

  /** An `rsvp_items` row as this page loads it (only rows with `coming`
      set), joined with the name of its category when it has one. */
  datatype ItemRow = ItemRow(
    id: string,
    guestName: string,
    itemTitle: Option<string>,
    categoryId: Option<string>,
    categoryName: Option<string>)

  // ---------------------------------------------------------------------
  // Fill counts

  /** The property key of `acc[item.category_id]`: JavaScript turns a null
      id into the key "null". Every row is counted under some key. */
  function CategoryKey(row: ItemRow): Option<string>
  {
    Some(if row.categoryId.Some? then row.categoryId.value else "null")
  }

  /** Reference definition: number of rows whose `category_id` is `id`. */
  function WithCategoryId(rows: seq<ItemRow>, id: string): nat
  {
    if |rows| == 0 then 0
    else WithCategoryId(rows[..|rows| - 1], id) + (if rows[|rows| - 1].categoryId == Some(id) then 1 else 0)
  }

  /** Number of rows with no category. */
  function Uncategorized(rows: seq<ItemRow>): nat
  {
    if |rows| == 0 then 0
    else Uncategorized(rows[..|rows| - 1]) + (if rows[|rows| - 1].categoryId.None? then 1 else 0)
  }

  /** Under every key but "null", the fold counts exactly the rows carrying that id. */
  lemma {:induction false} KeyCountIsIdCount(rows: seq<ItemRow>, id: string)
    requires id != "null"
    ensures Count(rows, CategoryKey, id) == WithCategoryId(rows, id)
    decreases |rows|
  {
    if |rows| > 0 {
      KeyCountIsIdCount(rows[..|rows| - 1], id);
    }
  }

  function Enrich(cats: seq<CategoryRow>, counts: map<string, int>): seq<CountedCategory>
  {
    seq(|cats|, i requires 0 <= i < |cats| => CountedCategory(cats[i], OrZero(counts, cats[i].id)))
  }

  /** What the enrichment promises: same categories in the same order, each
      with the number of loaded rows filed under its id. */
  predicate CountedById(enriched: seq<CountedCategory>, cats: seq<CategoryRow>, rows: seq<ItemRow>)
  {
    && |enriched| == |cats|
    && forall i :: 0 <= i < |cats| ==>
         enriched[i].row == cats[i] && enriched[i].currentCount == Count(rows, CategoryKey, cats[i].id)
  }

  /** The count-then-enrich step of loading the page. */
  method EnrichCategories(cats: seq<CategoryRow>, rows: seq<ItemRow>) returns (enriched: seq<CountedCategory>)
    ensures CountedById(enriched, cats, rows)
    ensures forall i :: 0 <= i < |cats| && cats[i].id != "null" ==>
              enriched[i].currentCount == WithCategoryId(rows, cats[i].id)
  {
    var counts := CountBy(rows, CategoryKey);
    enriched := Enrich(cats, counts);
    forall i | 0 <= i < |cats| && cats[i].id != "null"
      ensures enriched[i].currentCount == WithCategoryId(rows, cats[i].id)
    {
      KeyCountIsIdCount(rows, cats[i].id);
    }
  }

  lemma {:induction false} TotalIsSumCounts(enriched: seq<CountedCategory>, cats: seq<CategoryRow>, rows: seq<ItemRow>)
    requires CountedById(enriched, cats, rows)
    ensures TotalCount(enriched) == SumCounts(Ids(cats), rows, CategoryKey)
    decreases |cats|
  {
    if |cats| > 0 {
      assert Ids(cats)[1..] == Ids(cats[1..]);
      TotalIsSumCounts(enriched[1..], cats[1..], rows);
    }
  }

  lemma {:induction false} UncategorizedUnlisted(rows: seq<ItemRow>, ids: seq<string>)
    requires "null" !in ids
    ensures Uncategorized(rows) <= Unlisted(rows, CategoryKey, ids)
    decreases |rows|
  {
    if |rows| > 0 {
      UncategorizedUnlisted(rows[..|rows| - 1], ids);
    }
  }

  /** With distinct category ids, none of them the string "null", the counts
      shown never add up to more than the rows loaded, and rows without a
      category add to no count. */
  lemma CountsWithinRows(enriched: seq<CountedCategory>, cats: seq<CategoryRow>, rows: seq<ItemRow>)
    requires CountedById(enriched, cats, rows)
    requires Distinct(Ids(cats)) && "null" !in Ids(cats)
    ensures TotalCount(enriched) + Uncategorized(rows) <= |rows|
  {
    TotalIsSumCounts(enriched, cats, rows);
    CountsPartition(Ids(cats), rows, CategoryKey);
    UncategorizedUnlisted(rows, Ids(cats));
  }

  // ---------------------------------------------------------------------
  // Availability

  datatype Status = Full | Almost | Available
  datatype Tone = Destructive | Warn | Success
  datatype Availability = Availability(status: Status, text: string, tone: Tone)

  /** `text` reads "<n> frei" with `n` written in decimal. */
  predicate FreeText(text: string, n: int)
  {
    && |text| > 5
    && text[|text| - 5..] == " frei"
    && AllDigits(text[..|text| - 5])
    && ParseDecimal(text[..|text| - 5]) == n
  }

  /** The badge for a category that has `count` pledges against `quota`. */
  function Classify(quota: int, count: int): (a: Availability)
    ensures a.status == Full <==> quota - count <= 0
    ensures a.status == Almost <==> quota - count == 1
    ensures a.status == Available <==> quota - count > 1
    ensures a.status == Full ==> a.text == "voll" && a.tone == Destructive
    ensures a.status == Almost ==> a.text == "nur noch 1" && a.tone == Warn
    ensures a.status == Available ==> a.tone == Success && FreeText(a.text, quota - count)
  {
    var available := quota - count;
    if available <= 0 then Availability(Full, "voll", Destructive)
    else if available <= 1 then Availability(Almost, "nur noch " + IntString(available), Warn)
    else
      var text := IntString(available) + " frei";
      assert text[..|text| - 5] == DecimalString(available);
      ParseDecimalString(available);
      Availability(Available, text, Success)
  }

  function GetAvailabilityStatus(c: CountedCategory): Availability
  {
    Classify(c.row.quota, c.currentCount)
  }

  /** A category cannot be picked in the dropdown once its pledges reach its quota. */
  function OptionDisabled(c: CountedCategory): (disabled: bool)
    ensures disabled <==> c.currentCount >= c.row.quota
  {
    GetAvailabilityStatus(c).status == Full
  }

  // ---------------------------------------------------------------------
  // Preview of existing pledges per category

  /** A loaded row as the page lists it. */
  datatype ListedItem = ListedItem(id: string, guestName: string, itemTitle: string, categoryName: string)

  /** A missing or empty title or category name both become ''. */
  function FormatItem(row: ItemRow): (item: ListedItem)
    ensures item.categoryName == "" <==> row.categoryName.None? || row.categoryName == Some("")
    ensures item.categoryName != "" ==> row.categoryName == Some(item.categoryName)
    ensures item.itemTitle == "" <==> row.itemTitle.None? || row.itemTitle == Some("")
    ensures item.itemTitle != "" ==> row.itemTitle == Some(item.itemTitle)
    ensures item.id == row.id && item.guestName == row.guestName
  {
    ListedItem(row.id, row.guestName, OrEmpty(row.itemTitle), OrEmpty(row.categoryName))
  }

  /** One listed line: "<guest>: <title>", with a surprise for an untitled pledge. */
  function PreviewLine(item: ListedItem): (s: string)
    ensures |s| > |item.guestName| + 2 && s[..|item.guestName| + 2] == item.guestName + ": "
    ensures item.itemTitle != "" ==> s[|item.guestName| + 2..] == item.itemTitle
    ensures item.itemTitle == "" ==> s[|item.guestName| + 2..] == "Überraschung"
  {
    var head := item.guestName + ": ";
    var s := head + (if item.itemTitle != "" then item.itemTitle else "Überraschung");
    assert s[..|head|] == head && s[|head|..] == (if item.itemTitle != "" then item.itemTitle else "Überraschung");
    s
  }

  /** `categories.find(c => c.name === name)`: the first category with that name. */
  function FindByName(cats: seq<CountedCategory>, name: string): (r: Option<nat>)
    ensures r.Some? ==> r.value < |cats| && cats[r.value].row.name == name
    ensures r.Some? ==> forall i :: 0 <= i < r.value ==> cats[i].row.name != name
    ensures r.None? ==> forall i :: 0 <= i < |cats| ==> cats[i].row.name != name
  {
    if |cats| == 0 then None
    else if cats[0].row.name == name then Some(0)
    else
      var rest := FindByName(cats[1..], name);
      if rest.Some? then Some(rest.value + 1) else None
  }

  /** The filter of the preview: the category found by the item's name has `c`'s id. */
  predicate ListedUnder(cats: seq<CountedCategory>, item: ListedItem, c: CountedCategory)
  {
    var found := FindByName(cats, item.categoryName);
    found.Some? && cats[found.value].row.id == c.row.id
  }

  /** `items.filter(...)`, in load order. */
  function Listed(cats: seq<CountedCategory>, items: seq<ListedItem>, c: CountedCategory): seq<ListedItem>
  {
    if |items| == 0 then []
    else (if ListedUnder(cats, items[0], c) then [items[0]] else []) + Listed(cats, items[1..], c)
  }

  lemma {:induction false} ListedMembers(cats: seq<CountedCategory>, items: seq<ListedItem>, c: CountedCategory)
    ensures |Listed(cats, items, c)| <= |items|
    ensures forall x :: x in Listed(cats, items, c) <==> x in items && ListedUnder(cats, x, c)
    decreases |items|
  {
    if |items| > 0 {
      ListedMembers(cats, items[1..], c);
      assert items == [items[0]] + items[1..];
    }
  }

  lemma {:induction false} ListedKeepsOrder(cats: seq<CountedCategory>, a: seq<ListedItem>, b: seq<ListedItem>, c: CountedCategory)
    ensures Listed(cats, a + b, c) == Listed(cats, a, c) + Listed(cats, b, c)
    decreases |a|
  {
    if |a| == 0 {
      assert a + b == b;
    } else {
      var h := if ListedUnder(cats, a[0], c) then [a[0]] else [];
      assert (a + b)[0] == a[0] && (a + b)[1..] == a[1..] + b;
      assert Listed(cats, a + b, c) == h + Listed(cats, a[1..] + b, c);
      ListedKeepsOrder(cats, a[1..], b, c);
      assert Listed(cats, a, c) == h + Listed(cats, a[1..], c);
    }
  }

  /** The items of the preview filter: exactly those listed under `c`. This is
      `Listed` with its membership fact attached; `Listed` itself carries no
      contract so that proofs about order over it stay cheap. */
  function Matching(cats: seq<CountedCategory>, items: seq<ListedItem>, c: CountedCategory): (r: seq<ListedItem>)
    ensures |r| <= |items|
    ensures forall x :: x in r <==> x in items && ListedUnder(cats, x, c)
  {
    ListedMembers(cats, items, c);
    Listed(cats, items, c)
  }

  /** The filter keeps load order: filtering two lists laid end to end gives
      the two filtered lists end to end, and a single item is kept iff it is
      listed under the category. */
  lemma MatchingKeepsOrder(cats: seq<CountedCategory>, a: seq<ListedItem>, b: seq<ListedItem>, c: CountedCategory)
    ensures Matching(cats, a + b, c) == Matching(cats, a, c) + Matching(cats, b, c)
    ensures |a| == 1 ==> Matching(cats, a, c) == (if ListedUnder(cats, a[0], c) then a else [])
  {
    ListedKeepsOrder(cats, a, b, c);
    if |a| == 1 {
      assert a[1..] == [];
    }
  }

  /** A loaded row without a category is formatted with the category name ''
      and so is listed under no category unless some category is named ''. */
  lemma UncategorizedNotListed(cats: seq<CountedCategory>, row: ItemRow, c: CountedCategory)
    requires row.categoryName.None?
    requires forall i :: 0 <= i < |cats| ==> cats[i].row.name != ""
    ensures !ListedUnder(cats, FormatItem(row), c)
  {
    assert FormatItem(row).categoryName == "";
  }

  datatype Preview = Preview(shown: seq<ListedItem>, more: bool)

  /** The first three matching items, and the "... und weitere" marker. */
  function PreviewFor(cats: seq<CountedCategory>, items: seq<ListedItem>, c: CountedCategory): (p: Preview)
    ensures |p.shown| <= 3
    ensures p.shown <= Matching(cats, items, c)
    ensures |p.shown| == 3 || p.shown == Matching(cats, items, c)
    ensures p.more <==> |p.shown| < |Matching(cats, items, c)|
  {
    var m := Matching(cats, items, c);
    Preview(if |m| <= 3 then m else m[..3], |m| > 3)
  }

  predicate DistinctNames(cats: seq<CountedCategory>)
  {
    forall i, j :: 0 <= i < j < |cats| ==> cats[i].row.name != cats[j].row.name
  }

  predicate DistinctIds(cats: seq<CountedCategory>)
  {
    forall i, j :: 0 <= i < j < |cats| ==> cats[i].row.id != cats[j].row.id
  }

  /** The preview matches by name and the counts by id; with distinct names
      and ids the two agree: an item is listed under a category iff it
      carries that category's name. */
  lemma ListedUnderByName(cats: seq<CountedCategory>, item: ListedItem, j: nat)
    requires DistinctNames(cats) && DistinctIds(cats) && j < |cats|
    ensures ListedUnder(cats, item, cats[j]) <==> item.categoryName == cats[j].row.name
  {
    var found := FindByName(cats, item.categoryName);
    if item.categoryName == cats[j].row.name {
      assert found.Some?;
      var k := found.value;
      assert !(k < j) && !(j < k);
    } else if found.Some? {
      var k := found.value;
      assert k != j;
      assert k < j || j < k;
    }
  }

  // ---------------------------------------------------------------------
  // Diet labels

  /** `tags.filter(t => t !== tag)`. */
  function Without(tags: seq<string>, tag: string): (r: seq<string>)
    ensures tag !in r
    ensures forall t :: t != tag ==> (t in r <==> t in tags)
  {
    if |tags| == 0 then []
    else (if tags[0] == tag then [] else [tags[0]]) + Without(tags[1..], tag)
  }

  lemma {:induction false} WithoutAbsent(tags: seq<string>, tag: string)
    requires tag !in tags
    ensures Without(tags, tag) == tags
    decreases |tags|
  {
    if |tags| > 0 {
      WithoutAbsent(tags[1..], tag);
    }
  }

  lemma {:induction false} WithoutAppend(a: seq<string>, b: seq<string>, tag: string)
    ensures Without(a + b, tag) == Without(a, tag) + Without(b, tag)
    decreases |a|
  {
    if |a| == 0 {
      assert a + b == b;
    } else {
      assert (a + b)[1..] == a[1..] + b;
      WithoutAppend(a[1..], b, tag);
    }
  }

  /** Checking or unchecking one label: membership of `tag` flips, every other
      label stays, and the other labels keep their relative order; a newly
      checked label is added once, at the end. */
  function ToggleDietTag(tags: seq<string>, tag: string): (r: seq<string>)
    ensures tag in r <==> tag !in tags
    ensures forall t :: t != tag ==> (t in r <==> t in tags)
    ensures Without(r, tag) == Without(tags, tag)
    ensures tag !in tags ==> r == tags + [tag]
  {
    if tag in tags then
      WithoutAbsent(Without(tags, tag), tag);
      Without(tags, tag)
    else
      WithoutAppend(tags, [tag], tag);
      tags + [tag]
  }

  /** Checking an unchecked label and unchecking it again restores the list. */
  lemma ToggleTwice(tags: seq<string>, tag: string)
    requires tag !in tags
    ensures ToggleDietTag(ToggleDietTag(tags, tag), tag) == tags
  {
    WithoutAppend(tags, [tag], tag);
    WithoutAbsent(tags, tag);
  }

  // ---------------------------------------------------------------------
  // Submission

  datatype FormData = FormData(
    guestName: string,
    contact: string,
    coming: string,
    attendeesCount: int,
    categoryId: Option<string>,
    itemTitle: string,
    dietTags: seq<string>,
    warmNeeded: bool,
    warmNotes: string,
    bringsUtensils: bool)

  const InitialForm := FormData("", "", "yes", 1, None, "", [], false, "", false)

  /** The `rsvp_items` row sent to the store. */
  datatype InsertRow = InsertRow(
    guestName: string,
    contact: string,
    coming: bool,
    attendeesCount: int,
    categoryId: Option<string>,
    itemTitle: Option<string>,
    dietTags: seq<string>,
    warmNeeded: bool,
    warmNotes: Option<string>,
    bringsUtensils: bool)

  function SubmitPayload(f: FormData): (p: InsertRow)
    ensures p.coming <==> f.coming == "yes"
    ensures p.categoryId.None? <==> f.categoryId.None? || f.categoryId == Some("")
    ensures p.categoryId.Some? ==> p.categoryId == f.categoryId
    ensures p.itemTitle.None? <==> f.itemTitle == ""
    ensures p.itemTitle.Some? ==> p.itemTitle.value == f.itemTitle
    ensures p.warmNotes.None? <==> f.warmNotes == ""
    ensures p.warmNotes.Some? ==> p.warmNotes.value == f.warmNotes
    ensures p.guestName == f.guestName && p.contact == f.contact && p.attendeesCount == f.attendeesCount
    ensures p.dietTags == f.dietTags && p.warmNeeded == f.warmNeeded && p.bringsUtensils == f.bringsUtensils
  {
    InsertRow(
      f.guestName, f.contact, f.coming == "yes", f.attendeesCount,
      if f.categoryId.Some? then NullIfEmpty(f.categoryId.value) else None,
      NullIfEmpty(f.itemTitle), f.dietTags, f.warmNeeded, NullIfEmpty(f.warmNotes), f.bringsUtensils)
  }

  /** The freshly opened form cannot be submitted: its name and contact are empty. */
  lemma InitialFormNotSubmittable()
    ensures SubmitDisabled(false, InitialForm)
    ensures SubmitPayload(InitialForm).coming
  {
  }

  /** The submit button is usable only when not already submitting and both required fields are filled. */
  function SubmitDisabled(submitting: bool, f: FormData): (disabled: bool)
    ensures !disabled <==> !submitting && |f.guestName| > 0 && |f.contact| > 0
  {
    submitting || f.guestName == "" || f.contact == ""
  }
}
