# Birthday-party RSVP site: quota accounting and aggregation

This project models the logic of a small birthday-party RSVP site in Dafny.
Guests register on the **Anmeldung** page. They say whether they come and how many people they bring. They may pledge a dish in a category that has a quota; the page shows how full each category is. The **Admin** page lists all registrations with the fill count of each category. It flags categories over quota, lets the host edit a quota, and exports the list as a `;`-separated CSV. The public **Uebersicht** page groups the pledges of coming guests by category and lists the coming guests who pledged nothing. The **Home** page shows a countdown to the party.

Everything the pages compute once their data is loaded is modelled on already-loaded sequences of rows, one module per page:

- `Text`: JavaScript string behaviour the pages rely on.
  - `x || fallback` on nullable strings.
  - Number to string, with a decimal parser as its partner.
  - `padStart`.
  - `Array.join` on a one-character separator, with `split` as its reading-back partner.
- `Schema`: the `categories` row and the category with its derived `current_count`.
- `Tally`: the shared `reduce` that counts rows into a `Record` keyed by a string.
  - It is an imperative method that updates a map in a loop. It is proved against a counting function.
  - Over distinct keys, the counts plus the rows under no listed key make up all the rows.
- `Anmeldung`, `Admin`, `Uebersicht`, `Home`: the derivations of each page, on that page's own input shape.
  - Anmeldung and Admin read flat `rsvp_items` rows.
  - Uebersicht reads `guests` with their nested `rsvp_items`.

The pages differ in two places, and the model keeps both differences as written:

- Anmeldung counts pledges by `category_id`, over rows its query already restricts to coming ones (`src/pages/Anmeldung.tsx:78`). Admin loads every row and counts by category name, skipping rows that are not coming or have no category inside the reduce (`src/pages/Admin.tsx:94`).
- Admin raises its over-quota alert when the count is strictly above the quota. Uebersicht (and the registration dropdown) call a category full once the count reaches the quota.
  - `Admin.OverQuota` and `Uebersicht.FullBadge` each state their relation to the shared classification `Anmeldung.Classify`.

The pages also disagree with the generated database types. In `src/integrations/supabase/types.ts:72-85` an `rsvp_items` row has a `guest_id` and no guest fields of its own. Both pages instead read guest fields straight off `rsvp_items`. Anmeldung (`src/pages/Anmeldung.tsx:69-78`) selects `id`, `guest_name`, `item_title`, `category_id` and the category name, filtered on `coming`, and writes `guest_name`, `contact`, `coming` and `attendees_count` into the rows it inserts (`src/pages/Anmeldung.tsx:119-131`). Admin (`src/pages/Admin.tsx:76-88`) selects `guest_name`, `contact`, `attendees_count`, `coming` and `created_at` alongside the item fields. The model follows the pages and gives each its own row type.

## Model

| member | source | states |
|---|---|---|
| Tally.CountBy | src/pages/Anmeldung.tsx:83-86 | the `reduce` into a record: reading any key back with `|| 0` gives the number of rows whose key is that key, and every stored count is at least 1 |
| Tally.CountAppend | src/pages/Admin.tsx:93-99 | counting over two lists laid end to end is the sum of the two counts |
| Tally.CountsPartition | src/pages/Anmeldung.tsx:83-91 | over distinct keys, the sum of the per-key counts plus the rows under no listed key equals the number of rows |
| Anmeldung.KeyCountIsIdCount | src/pages/Anmeldung.tsx:83-86 | under any key other than the string "null", the fold counts exactly the rows whose `category_id` is that id |
| Anmeldung.EnrichCategories | src/pages/Anmeldung.tsx:83-91 | same categories, same order, every field kept; each `current_count` is the number of loaded rows with that category id (0 if none) |
| Anmeldung.TotalIsSumCounts | src/pages/Anmeldung.tsx:88-91 | the enriched counts add up to the sum of the fold's counts over the category ids |
| Anmeldung.UncategorizedUnlisted | src/pages/Anmeldung.tsx:83-86 | rows without a category fall under no listed id when no id is the string "null" |
| Anmeldung.CountsWithinRows | src/pages/Anmeldung.tsx:83-91 | with distinct ids, the shown counts plus the uncategorized rows never exceed the rows loaded |
| Anmeldung.Classify | src/pages/Anmeldung.tsx:163-168 | with available = quota − count: full iff available ≤ 0, almost iff available = 1, available iff available > 1 (exactly one holds); texts "voll", "nur noch 1", and "<available> frei" read back as the number; tones destructive, warn, success |
| Anmeldung.OptionDisabled | src/pages/Anmeldung.tsx:361-368 | a dropdown option is disabled iff its category's count has reached its quota |
| Anmeldung.FindByName | src/pages/Anmeldung.tsx:234-238 | `find` by name: the first category with that name, or none when no category has it |
| Anmeldung.Matching | src/pages/Anmeldung.tsx:234-238 | an item is in the preview filter iff the category found by its name has the category's id |
| Anmeldung.ListedKeepsOrder | src/pages/Anmeldung.tsx:234-238 | the contract-free filter behind `Matching` distributes over lists laid end to end |
| Anmeldung.MatchingKeepsOrder | src/pages/Anmeldung.tsx:234-238 | the preview filter keeps load order: it distributes over lists laid end to end and keeps a single item iff it is listed under the category, so the preview shows the first three matches in load order |
| Anmeldung.PreviewFor | src/pages/Anmeldung.tsx:234-253 | at most 3 items shown, a prefix of the matching items (which keep load order, see MatchingKeepsOrder), all of them when there are 3 or fewer; the "... und weitere" marker iff more items match than are shown |
| Anmeldung.ListedUnderByName | src/pages/Anmeldung.tsx:234-238 | with distinct names and ids, an item is listed under a category iff it carries that category's name |
| Anmeldung.Without | src/pages/Anmeldung.tsx:158 | the filter removes every copy of the tag and keeps every other tag |
| Anmeldung.WithoutAppend | src/pages/Anmeldung.tsx:158 | the filter keeps the relative order of the tags it keeps |
| Anmeldung.ToggleDietTag | src/pages/Anmeldung.tsx:154-161 | membership of the tag flips; every other tag stays, in the same relative order; a newly checked tag is appended once, at the end |
| Anmeldung.ToggleTwice | src/pages/Anmeldung.tsx:154-161 | toggling an absent tag twice gives back the original list |
| Anmeldung.SubmitPayload | src/pages/Anmeldung.tsx:121-132 | `coming` iff the answer is "yes"; an empty category id, title or warm note becomes null, a non-empty one is kept; all other fields copied |
| Anmeldung.SubmitDisabled | src/pages/Anmeldung.tsx:459 | submit is enabled iff not submitting and both name and contact are non-empty |
| Anmeldung.FormatItem | src/pages/Anmeldung.tsx:93-98 | the title and the category name each become '' iff the row has none or an empty one, else the row's own; id and guest name copied |
| Anmeldung.PreviewLine | src/pages/Anmeldung.tsx:243 | a preview line is the guest's name, ": ", then the title, or "Überraschung" when the title is empty |
| Anmeldung.UncategorizedNotListed | src/pages/Anmeldung.tsx:93-98 | a row without a category is formatted with the name '' and so is listed under no category as long as no category is named '' |
| Anmeldung.InitialFormNotSubmittable | src/pages/Anmeldung.tsx:40-51 | the freshly opened form, with empty name and contact, cannot be submitted, and its default answer "yes" is sent as coming |
| Admin.EnrichCategories | src/pages/Admin.tsx:93-104 | same categories, same order, every field kept; each `current_count` is the number of coming rows whose category has that name |
| Admin.DecliningRowCountsNowhere | src/pages/Admin.tsx:93-99 | inserting a declining row anywhere changes no category's count |
| Admin.TotalIsSumCounts | src/pages/Admin.tsx:101-104 | the enriched counts add up to the sum of the fold's counts over the category names |
| Admin.UnkeyedRows | src/pages/Admin.tsx:93-99 | rows that are not coming or have no category fall under no name |
| Admin.CountsWithinComingRows | src/pages/Admin.tsx:93-104 | with distinct names, the counts add up to at most the number of coming, categorized rows |
| Admin.OverQuota | src/pages/Admin.tsx:312-318 | the alert shows iff the count is above the quota, which is a full category whose count is not exactly the quota |
| Admin.FormatRow | src/pages/Admin.tsx:106-115 | the category reads "Ohne Kategorie" iff the row has none, an empty one or literally that name, else the row's own; the title is empty iff the row has none or an empty one, else the row's own; other fields copied |
| Admin.ComingRows | src/pages/Admin.tsx:276 | a row is among the accepted iff it is coming |
| Admin.DecliningRows | src/pages/Admin.tsx:284 | a row is among the declined iff it is not coming |
| Admin.ContributingRows | src/pages/Admin.tsx:292 | a row counts as a contribution iff it is coming and has a non-empty title |
| Admin.TotalAttendeesAppend | src/pages/Admin.tsx:181-183 | the head count over two lists laid end to end is the sum of the two |
| Admin.TotalAttendeesIsComingSum | src/pages/Admin.tsx:181-183 | the head count is the sum of attendee counts over the coming rows only |
| Admin.SplitByAnswer | src/pages/Admin.tsx:276-292 | accepted plus declined is the number of rows; contributions are at most the accepted |
| Admin.HeadCountCoversAccepted | src/pages/Admin.tsx:181-183 | when every row brings at least one person, the head count is at least the number of accepted rows |
| Admin.Statistics | src/pages/Admin.tsx:269-292 | the four figures: Zusagen, Absagen and Mitbringsel are the lengths of the coming, declining and contributing filters; Zusagen + Absagen = rows, Mitbringsel ≤ Zusagen, persons = attendee sum over coming rows, and persons ≥ Zusagen when every row brings someone |
| Admin.WithQuota | src/pages/Admin.tsx:140-142 | same length and order; the categories with that id get the new quota, every other category and every other field is unchanged |
| Admin.QuotaLastEditWins | src/pages/Admin.tsx:140-142 | two edits of the same category leave the second quota |
| Admin.QuotaEditsCommute | src/pages/Admin.tsx:140-142 | edits of two different categories can be applied in either order |
| Admin.QuotaUpdated | src/pages/Admin.tsx:133-149 | a failed write leaves the page untouched; a saved one keeps length and order, gives the matching categories the new quota, changes no other field or count of any category and no other category, and closes the editor |
| Admin.CsvFields | src/pages/Admin.tsx:162-171 | a data line has 7 cells, as many as the header: name, contact ('' for none), title, category name, the attendee count in decimal (reading back as the count, with a leading '-' when negative), "Ja" iff coming and "Nein" iff not, and the localised creation date |
| Admin.CsvLineCells | src/pages/Admin.tsx:162-171 | with no escaping, a data line splits into 7 plus the number of `;` inside its fields, so exactly 7 iff no field contains `;` |
| Admin.HeaderLine | src/pages/Admin.tsx:162 | the header line splits back into its 7 titles and has no line break |
| Admin.DataLine | src/pages/Admin.tsx:163-171 | a data line whose fields hold neither `;` nor a line break splits back into its fields |
| Admin.CsvReadsBack | src/pages/Admin.tsx:160-172 | when no field holds `;` or a line break, the export splits into the header plus one line per row, in order, each splitting back into its fields |
| Admin.CsvLineCount | src/pages/Admin.tsx:160-172 | with no escaping, the export splits into the header, one line per row and one extra line per line break inside a cell, so it has exactly one line per row plus the header iff no cell contains a line break |
| Admin.DeclineChangesNoFigure | src/pages/Admin.tsx:93-99 | a declining registration, once stored, changes no category count and not the head count |
| Uebersicht.AnsweredMembers | src/pages/Uebersicht.tsx:103-104 | a guest is in the filtered list iff it was loaded and gave that answer |
| Uebersicht.ComingGuests | src/pages/Uebersicht.tsx:103 | a guest is among the coming iff it was loaded and is coming |
| Uebersicht.NotComingGuests | src/pages/Uebersicht.tsx:104 | a guest is among the declining iff it was loaded and is not coming |
| Uebersicht.AnswersPartitionGuests | src/pages/Uebersicht.tsx:103-104 | the two lists together hold every loaded guest exactly as often as loaded |
| Uebersicht.AnswersKeepOrder | src/pages/Uebersicht.tsx:103-104 | both lists keep load order |
| Uebersicht.HeadCountOfComing | src/pages/Uebersicht.tsx:91-93 | the head count is the attendee sum over coming guests; declining guests add 0 whatever their count |
| Uebersicht.GuestEntries | src/pages/Uebersicht.tsx:108-110 | one guest's entries are exactly its pledges under the group's name, each with the guest's name and count |
| Uebersicht.FiledKeepsOrder | src/pages/Uebersicht.tsx:108-110 | the contract-free filter-and-map behind `GuestEntries` distributes over pledge lists laid end to end |
| Uebersicht.GuestEntriesKeepOrder | src/pages/Uebersicht.tsx:108-110 | one guest's entries follow that guest's pledge order |
| Uebersicht.GuestEntriesOfOne | src/pages/Uebersicht.tsx:108-110 | a single pledge yields exactly one entry, with its guest's name and count, iff it is filed under the name, and none otherwise |
| Uebersicht.CategoryGroups | src/pages/Uebersicht.tsx:106-117 | one group per loaded category, same order, name and quota copied, holding the coming guests' pledges under that name (empty when there are none) |
| Uebersicht.EntriesKeepOrder | src/pages/Uebersicht.tsx:107-110 | group entries come in guest order; with GuestEntriesKeepOrder and GuestEntriesOfOne, each guest's entries come in that guest's pledge order |
| Uebersicht.EntriesMembership | src/pages/Uebersicht.tsx:107-110 | an entry is in the `flatMap` iff it is among the entries of one of the guests |
| Uebersicht.GroupMembership | src/pages/Uebersicht.tsx:106-117 | an entry is in a group iff its pledge is filed under the group's name and some coming guest with that name and count made it; uncategorized pledges never appear |
| Uebersicht.Itemless | src/pages/Uebersicht.tsx:119 | a guest is kept iff it has no pledge |
| Uebersicht.GuestsWithoutItems | src/pages/Uebersicht.tsx:119 | exactly the coming guests with no pledge at all |
| Uebersicht.AllItems | src/pages/Uebersicht.tsx:176 | all pledges of the guests, as many as the planned total counts |
| Uebersicht.GuestEntriesCount | src/pages/Uebersicht.tsx:108-110 | a guest's entries under a name number as many as its pledges filed under that name |
| Uebersicht.EntriesCount | src/pages/Uebersicht.tsx:107-110 | a group's size is the number of the coming guests' pledges filed under its name |
| Uebersicht.GroupedTotalIsSumCounts | src/pages/Uebersicht.tsx:106-117 | the group sizes add up to the sum of the per-name pledge counts |
| Uebersicht.GroupsWithinPlanned | src/pages/Uebersicht.tsx:176 | with distinct category names, the grouped pledges plus those under no loaded category equal the planned total, so the groups never exceed it |
| Uebersicht.FullBadge | src/pages/Uebersicht.tsx:204 | the group badge is destructive iff the registration page would call the category full, that is, pledges ≥ quota |
| Uebersicht.CompanionSuffix | src/pages/Uebersicht.tsx:219-221 | "(+N)" appears iff the attendee count is above 1, and N reads back as the count minus 1 |
| Home.Countdown | src/pages/Home.tsx:235-242 | days ≥ 0, hours in 0..23, minutes in 0..59, and days·1440 + hours·60 + minutes is the whole minutes of max(0, target − now) |
| Home.CountdownWithinAMinute | src/pages/Home.tsx:237-241 | the countdown is never more than the time left and less than a minute short of it; it reads all zero iff under a minute is left, so all zero once the target has passed |
| Home.CountdownAfterStart | src/pages/Home.tsx:20 | counting down to the party's start time, the bar reads zero days, hours and minutes from that moment on |
| Home.MinutesOfTimeLeft | src/pages/Home.tsx:238-240 | the floor/mod split of a millisecond difference gives hours below 24 and minutes below 60 that recombine into its whole minutes |
| Home.WholeMinutes | src/pages/Home.tsx:240 | the whole minutes of a difference are within one minute below it, and zero iff it is under a minute |
| Home.CountdownNeverRises | src/pages/Home.tsx:235-242 | a later clock reading never shows more minutes left |
| Home.TwoDigits | src/pages/Home.tsx:255 | `padStart(2, '0')`: a number is in 0..99 iff it becomes exactly two digits, and any non-negative number reads back as itself |
| Home.RenderedLabel | src/pages/Home.tsx:255 | a proper days/hours/minutes split, rendered as the bar renders it, reads back as itself |
| Home.CountdownLabel | src/pages/Home.tsx:255 | the bar's text reads back as the countdown's days, hours and minutes |
| Text.DecimalString | src/pages/Admin.tsx:168 | a natural number's decimal text is non-empty and all digits; one digit iff below 10, two iff 10..99 |
| Text.ParseDecimalString | src/pages/Admin.tsx:168 | the decimal text of a number reads back as the number |
| Text.PadStart | src/pages/Home.tsx:255 | `padStart`: the result has the requested width (or the input's own, if longer), ends with the input and is filled with the pad character |
| Text.SplitJoin | src/pages/Admin.tsx:160-172 | splitting a join on a separator that no part contains gives back the parts |
| Text.SplitJoinCount | src/pages/Admin.tsx:160-172 | splitting a join gives as many parts as were joined plus the separators hidden inside them |
| Text.JoinFreeOf | src/pages/Admin.tsx:160-172 | a character other than the separator is absent from a join iff it is absent from every part |

## Left out

- Supabase reads and writes (`loadData`, `handleSubmit`, the quota `update`) are network I/O. The model works on the loaded sequences. The stored side of a write is the `WriteResult` parameter of `Admin.QuotaUpdated`.
- The query filters and ordering (`active` categories by `sort_order`, Anmeldung's `coming = true` filter, Admin's newest-first order, Uebersicht's nested select) are done by the database. The loaded sequences are taken as already filtered and ordered.
- Toasts, `navigate`, loading and submitting flags, and JSX markup are UI state with no logic worth proving. The submitting flag is a parameter of `Anmeldung.SubmitDisabled`.
- Date handling is locale, timezone and clock dependent:
  - parsing `EVENT_ISO` is replaced by the constant `Home.EventMillis`;
  - `toLocaleDateString('de-CH')` in the CSV is the parameter `localDate`;
  - the export file name's date is not modelled.
- The ticking `now` of the countdown (`setInterval`), the scroll listener, the photo slider and the other DOM code of the home page are browser plumbing. `now` is a parameter.
- The Blob download and the `querySelector`/`parseInt` reading of the quota input are browser APIs. The new quota enters `Admin.QuotaUpdated` as an integer.
- The client-side admin password gate is not modelled. It guards nothing on the server.
- Double submissions and quota overshoot between concurrent clients are not modelled: quotas are advisory, and the behaviour is about concurrency.
- The thank-you page, the button variants and the generated database types hold no logic. The types only fix the record shapes used here.
- JavaScript numbers are modelled as unbounded integers. Fractional or non-finite attendee counts and quotas, and the float arithmetic of the countdown, are not modelled.
- Admin.EnrichCategories: does not model the `Record` key collisions with `Object.prototype`. A category named like a built-in property (for example "constructor") would read an inherited value in JavaScript. The contract assumes a plain map.
- Anmeldung.CountsWithinRows: states the bound only for category ids that are distinct and not the literal string "null". JavaScript files rows without a category under the key "null", so a category with that id would be credited with them.
- Admin.CountsWithinComingRows: states the bound only for distinct category names. With duplicate names each of the duplicates shows the full count for that name.
- Uebersicht.GroupsWithinPlanned: states the bound only for distinct category names, for the same reason.
