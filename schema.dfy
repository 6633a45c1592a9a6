/** The `categories` table as the pages load it (`select('*')` on active
    rows, ordered by `sort_order`), and the row the pages derive from it by
    adding a `current_count`. */
module Schema {
  import opened Text

  datatype CategoryRow = CategoryRow(
    id: string,
    name: string,
    quota: int,
    examples: Option<string>,
    active: bool,
    sortOrder: int,
    createdAt: string)

  /** `{ ...cat, current_count }`: the loaded row with its derived fill count. */
  datatype CountedCategory = CountedCategory(row: CategoryRow, currentCount: int)

  function Ids(cats: seq<CategoryRow>): (r: seq<string>)
  {
    seq(|cats|, i requires 0 <= i < |cats| => cats[i].id)
  }

  function Names(cats: seq<CategoryRow>): (r: seq<string>)
  {
    seq(|cats|, i requires 0 <= i < |cats| => cats[i].name)
  }

  /** Sum of the fill counts of the categories. */
  function TotalCount(cats: seq<CountedCategory>): int
  {
    if |cats| == 0 then 0 else cats[0].currentCount + TotalCount(cats[1..])
  }
}
