/** The admin page: per-category fill counts keyed by category name over
    coming rows, the over-quota alert, the formatted table rows, the
    attendance statistics, the quota edit, and the CSV export. */
module Admin {
  import opened Text
  import opened Schema
  import opened Tally
  import Anmeldung

  /** An `rsvp_items` row as this page loads it (all rows, newest first),
      joined with the name of its category when it has one. */
  datatype RsvpRow = RsvpRow(
    id: string,
    guestName: string,
    contact: Option<string>,
    itemTitle: Option<string>,
    attendeesCount: int,
    coming: bool,
    createdAt: string,
    categoryName: Option<string>)

  // ---------------------------------------------------------------------
  // Fill counts

  /** The key of the reduce: the category name of a coming row that has a
      category; other rows are skipped. */
  function NameKey(row: RsvpRow): Option<string>
  {
    if row.coming && row.categoryName.Some? then row.categoryName else None
  }

  function Enrich(cats: seq<CategoryRow>, counts: map<string, int>): seq<CountedCategory>
  {
    seq(|cats|, i requires 0 <= i < |cats| => CountedCategory(cats[i], OrZero(counts, cats[i].name)))
  }

  /** What the enrichment promises: same categories in the same order, each
      with the number of coming rows filed under its name. */
  predicate CountedByName(enriched: seq<CountedCategory>, cats: seq<CategoryRow>, rows: seq<RsvpRow>)
  {
    && |enriched| == |cats|
    && forall i :: 0 <= i < |cats| ==>
         enriched[i].row == cats[i] && enriched[i].currentCount == Count(rows, NameKey, cats[i].name)
  }

  /** The count-then-enrich step of loading the page. */
  method EnrichCategories(cats: seq<CategoryRow>, rows: seq<RsvpRow>) returns (enriched: seq<CountedCategory>)
    ensures CountedByName(enriched, cats, rows)
  {
    var counts := CountBy(rows, NameKey);
    enriched := Enrich(cats, counts);
  }

  /** A row that is not coming never moves any count, wherever it is loaded. */
  lemma DecliningRowCountsNowhere(before: seq<RsvpRow>, r: RsvpRow, after: seq<RsvpRow>, name: string)
    requires !r.coming
    ensures Count(before + [r] + after, NameKey, name) == Count(before + after, NameKey, name)
  {
    CountAppend(before + [r], after, NameKey, name);
    CountAppend(before, [r], NameKey, name);
    CountAppend(before, after, NameKey, name);
    assert Count([r], NameKey, name) == 0 by {
      assert [r][..0] == [];
    }
  }

  /** Number of coming rows that have a category. */
  function ComingCategorized(rows: seq<RsvpRow>): nat
  {
    if |rows| == 0 then 0
    else
      var r := rows[|rows| - 1];
      ComingCategorized(rows[..|rows| - 1]) + (if r.coming && r.categoryName.Some? then 1 else 0)
  }

  lemma {:induction false} TotalIsSumCounts(enriched: seq<CountedCategory>, cats: seq<CategoryRow>, rows: seq<RsvpRow>)
    requires CountedByName(enriched, cats, rows)
    ensures TotalCount(enriched) == SumCounts(Names(cats), rows, NameKey)
    decreases |cats|
  {
    if |cats| > 0 {
      assert Names(cats)[1..] == Names(cats[1..]);
      TotalIsSumCounts(enriched[1..], cats[1..], rows);
    }
  }

  lemma {:induction false} UnkeyedRows(rows: seq<RsvpRow>, names: seq<string>)
    ensures |rows| - ComingCategorized(rows) <= Unlisted(rows, NameKey, names)
    decreases |rows|
  {
    if |rows| > 0 {
      UnkeyedRows(rows[..|rows| - 1], names);
    }
  }

  /** With distinct category names, the counts add up to at most the number
      of coming rows that have a category. */
  lemma CountsWithinComingRows(enriched: seq<CountedCategory>, cats: seq<CategoryRow>, rows: seq<RsvpRow>)
    requires CountedByName(enriched, cats, rows) && Distinct(Names(cats))
    ensures TotalCount(enriched) <= ComingCategorized(rows)
  {
    TotalIsSumCounts(enriched, cats, rows);
    CountsPartition(Names(cats), rows, NameKey);
    UnkeyedRows(rows, Names(cats));
  }

  /** The alert on a category whose pledges exceed its quota. The registration
      page already calls a category full when the pledges only reach the
      quota; the alert is that state minus the exact-fill case. */
  function OverQuota(c: CountedCategory): (alert: bool)
    ensures alert <==> c.currentCount > c.row.quota
    ensures alert <==> Anmeldung.GetAvailabilityStatus(c).status == Anmeldung.Full && c.currentCount != c.row.quota
  {
    c.currentCount > c.row.quota
  }

  // ---------------------------------------------------------------------
  // Table rows and statistics

  const NoCategory := "Ohne Kategorie"

  /** A loaded row as the table and the export show it. */
  datatype RsvpView = RsvpView(
    id: string,
    guestName: string,
    contact: Option<string>,
    itemTitle: string,
    attendeesCount: int,
    coming: bool,
    categoryName: string,
    createdAt: string)

  /** The category column cannot tell an uncategorized row from one whose
      category is unnamed or is itself called "Ohne Kategorie"; the title
      column shows '' for a missing title. */
  function FormatRow(r: RsvpRow): (v: RsvpView)
    ensures v.categoryName == NoCategory <==>
              r.categoryName.None? || r.categoryName == Some("") || r.categoryName == Some(NoCategory)
    ensures v.categoryName != NoCategory ==> r.categoryName == Some(v.categoryName)
    ensures v.itemTitle == "" <==> r.itemTitle.None? || r.itemTitle == Some("")
    ensures v.itemTitle != "" ==> r.itemTitle == Some(v.itemTitle)
    ensures v.id == r.id && v.guestName == r.guestName && v.contact == r.contact
    ensures v.attendeesCount == r.attendeesCount && v.coming == r.coming && v.createdAt == r.createdAt
  {
    RsvpView(r.id, r.guestName, r.contact, OrEmpty(r.itemTitle), r.attendeesCount, r.coming,
             OrElse(r.categoryName, NoCategory), r.createdAt)
  }

  function FormatRows(rows: seq<RsvpRow>): seq<RsvpView>
  {
    seq(|rows|, i requires 0 <= i < |rows| => FormatRow(rows[i]))
  }

  /** `rows.reduce((sum, item) => sum + (item.coming ? item.attendees_count : 0), 0)`. */
  function TotalAttendees(rows: seq<RsvpView>): int
  {
    if |rows| == 0 then 0
    else TotalAttendees(rows[..|rows| - 1]) + (if rows[|rows| - 1].coming then rows[|rows| - 1].attendeesCount else 0)
  }

  function ComingRows(rows: seq<RsvpView>): (r: seq<RsvpView>)
    ensures forall v :: v in r <==> v in rows && v.coming
  {
    if |rows| == 0 then [] else (if rows[0].coming then [rows[0]] else []) + ComingRows(rows[1..])
  }

  function DecliningRows(rows: seq<RsvpView>): (r: seq<RsvpView>)
    ensures forall v :: v in r <==> v in rows && !v.coming
  {
    if |rows| == 0 then [] else (if !rows[0].coming then [rows[0]] else []) + DecliningRows(rows[1..])
  }

  function ContributingRows(rows: seq<RsvpView>): (r: seq<RsvpView>)
    ensures forall v :: v in r <==> v in rows && v.coming && v.itemTitle != ""
  {
    if |rows| == 0 then []
    else (if rows[0].coming && rows[0].itemTitle != "" then [rows[0]] else []) + ContributingRows(rows[1..])
  }

  /** Sum of the attendee counts of the rows, whatever their answer. */
  function SumAttendees(rows: seq<RsvpView>): int
  {
    if |rows| == 0 then 0 else rows[0].attendeesCount + SumAttendees(rows[1..])
  }

  lemma {:induction false} TotalAttendeesAppend(a: seq<RsvpView>, b: seq<RsvpView>)
    ensures TotalAttendees(a + b) == TotalAttendees(a) + TotalAttendees(b)
    decreases |b|
  {
    if |b| == 0 {
      assert a + b == a;
    } else {
      assert (a + b)[..|a + b| - 1] == a + b[..|b| - 1];
      TotalAttendeesAppend(a, b[..|b| - 1]);
    }
  }

  lemma SumAttendeesCons(x: RsvpView, rest: seq<RsvpView>)
    ensures SumAttendees([x] + rest) == x.attendeesCount + SumAttendees(rest)
  {
    assert ([x] + rest)[0] == x && ([x] + rest)[1..] == rest;
  }

  /** The head count is the sum over the coming rows only; a declining row adds
      nothing whatever its attendee count. */
  lemma {:induction false} TotalAttendeesIsComingSum(rows: seq<RsvpView>)
    ensures TotalAttendees(rows) == SumAttendees(ComingRows(rows))
    decreases |rows|
  {
    if |rows| > 0 {
      var x, rest := rows[0], rows[1..];
      TotalAttendeesIsComingSum(rest);
      assert rows == [x] + rest;
      TotalAttendeesAppend([x], rest);
      assert [x][..0] == [];
      var cr := ComingRows(rest);
      assert ComingRows(rows) == (if x.coming then [x] else []) + cr;
      if x.coming {
        SumAttendeesCons(x, cr);
      } else {
        assert [] + cr == cr;
      }
    }
  }

  lemma {:induction false} SplitByAnswer(rows: seq<RsvpView>)
    ensures |ComingRows(rows)| + |DecliningRows(rows)| == |rows|
    ensures |ContributingRows(rows)| <= |ComingRows(rows)|
    decreases |rows|
  {
    if |rows| > 0 {
      SplitByAnswer(rows[1..]);
    }
  }

  predicate AllAttend(rows: seq<RsvpView>)
  {
    forall i :: 0 <= i < |rows| ==> rows[i].attendeesCount >= 1
  }

  lemma {:induction false} HeadCountCoversAccepted(rows: seq<RsvpView>)
    ensures AllAttend(rows) ==> SumAttendees(ComingRows(rows)) >= |ComingRows(rows)|
    decreases |rows|
  {
    if |rows| > 0 && AllAttend(rows) {
      var x, rest := rows[0], rows[1..];
      assert rows == [x] + rest;
      assert AllAttend(rest) by {
        forall i | 0 <= i < |rest| ensures rest[i].attendeesCount >= 1 {
          assert rest[i] == rows[i + 1];
        }
      }
      HeadCountCoversAccepted(rest);
      assert x.attendeesCount >= 1;
      var cr := ComingRows(rest);
      assert ComingRows(rows) == (if x.coming then [x] else []) + cr;
      if x.coming {
        SumAttendeesCons(x, cr);
      } else {
        assert [] + cr == cr;
      }
    }
  }

  /** The four figures at the top of the page: persons coming, acceptances,
      declines, and pledges with a title. */
  datatype Stats = Stats(persons: int, accepted: nat, declined: nat, contributions: nat)

  function Statistics(rows: seq<RsvpView>): (s: Stats)
    ensures s.accepted == |ComingRows(rows)| && s.declined == |DecliningRows(rows)|
    ensures s.contributions == |ContributingRows(rows)|
    ensures s.accepted + s.declined == |rows|
    ensures s.contributions <= s.accepted
    ensures s.persons == SumAttendees(ComingRows(rows))
    ensures AllAttend(rows) ==> s.persons >= s.accepted
  {
    SplitByAnswer(rows);
    TotalAttendeesIsComingSum(rows);
    HeadCountCoversAccepted(rows);
    Stats(TotalAttendees(rows), |ComingRows(rows)|, |DecliningRows(rows)|, |ContributingRows(rows)|)
  }

  // ---------------------------------------------------------------------
  // Quota edit

  /** `prev.map(cat => cat.id === id ? { ...cat, quota } : cat)`. */
  function WithQuota(cats: seq<CountedCategory>, id: string, quota: int): (r: seq<CountedCategory>)
    ensures |r| == |cats|
    ensures forall i :: 0 <= i < |cats| ==>
              && r[i].row.quota == (if cats[i].row.id == id then quota else cats[i].row.quota)
              && r[i].row.(quota := 0) == cats[i].row.(quota := 0)
              && r[i].currentCount == cats[i].currentCount
  {
    seq(|cats|, i requires 0 <= i < |cats| =>
      if cats[i].row.id == id then cats[i].(row := cats[i].row.(quota := quota)) else cats[i])
  }

  /** The second of two edits to the same category is the one that stays. */
  lemma QuotaLastEditWins(cats: seq<CountedCategory>, id: string, q1: int, q2: int)
    ensures WithQuota(WithQuota(cats, id, q1), id, q2) == WithQuota(cats, id, q2)
  {
    var a, b := WithQuota(WithQuota(cats, id, q1), id, q2), WithQuota(cats, id, q2);
    assert forall i :: 0 <= i < |a| ==> a[i].row == a[i].row.(quota := 0).(quota := a[i].row.quota);
    assert forall i :: 0 <= i < |a| ==> a[i] == b[i];
  }

  /** Edits to two different categories do not interfere. */
  lemma QuotaEditsCommute(cats: seq<CountedCategory>, id1: string, q1: int, id2: string, q2: int)
    requires id1 != id2
    ensures WithQuota(WithQuota(cats, id1, q1), id2, q2) == WithQuota(WithQuota(cats, id2, q2), id1, q1)
  {
    var a, b := WithQuota(WithQuota(cats, id1, q1), id2, q2), WithQuota(WithQuota(cats, id2, q2), id1, q1);
    assert forall i :: 0 <= i < |a| ==> a[i].row == a[i].row.(quota := 0).(quota := a[i].row.quota);
    assert forall i :: 0 <= i < |a| ==> a[i] == b[i];
  }

  /** The state of the page that the quota edit touches. */
  datatype Page = Page(categories: seq<CountedCategory>, rows: seq<RsvpView>, editing: Option<string>)

  /** The store's answer to the update request. */
  datatype WriteResult = Saved | Failed

  /** `updateCategoryQuota` once the store has answered: on success the list
      takes the new quota and the editor closes; on failure nothing changes. */
  function QuotaUpdated(p: Page, id: string, quota: int, result: WriteResult): (q: Page)
    ensures result == Failed ==> q == p
    ensures result == Saved ==> q.editing == None && q.rows == p.rows
    ensures result == Saved ==> |q.categories| == |p.categories|
    ensures result == Saved ==> forall i :: 0 <= i < |p.categories| ==>
              (q.categories[i].row.id == id ==> q.categories[i].row.quota == quota)
              && (p.categories[i].row.id != id ==> q.categories[i] == p.categories[i])
              && q.categories[i].row.(quota := 0) == p.categories[i].row.(quota := 0)
              && q.categories[i].currentCount == p.categories[i].currentCount
  {
    match result
    case Failed => p
    case Saved => Page(WithQuota(p.categories, id, quota), p.rows, None)
  }

  // ---------------------------------------------------------------------
  // CSV export

  const CsvHeader: seq<string> :=
    ["Name", "Kontakt", "Mitbringsel", "Kategorie", "Anzahl Personen", "Kommt", "Anmeldedatum"]

  /** The seven cells of a row; `localDate` stands for the locale's date
      rendering of the creation time. `Array.join` writes a null contact as ''. */
  function CsvFields(r: RsvpView, localDate: string -> string): (fs: seq<string>)
    ensures |fs| == |CsvHeader| == 7
    ensures fs[0] == r.guestName
    ensures fs[1] == OrEmpty(r.contact)
    ensures fs[2] == r.itemTitle && fs[3] == r.categoryName
    ensures r.attendeesCount >= 0 ==> AllDigits(fs[4]) && ParseDecimal(fs[4]) == r.attendeesCount
    ensures r.attendeesCount < 0 ==>
              |fs[4]| >= 2 && fs[4][0] == '-' && AllDigits(fs[4][1..]) && ParseDecimal(fs[4][1..]) == -r.attendeesCount
    ensures fs[5] == "Ja" <==> r.coming
    ensures fs[5] == "Nein" <==> !r.coming
    ensures fs[6] == localDate(r.createdAt)
  {
    var n := r.attendeesCount;
    ParseDecimalString(if n >= 0 then n else -n);
    assert n < 0 ==> IntString(n)[1..] == DecimalString(-n);
    [r.guestName, OrEmpty(r.contact), r.itemTitle, r.categoryName, IntString(r.attendeesCount),
     if r.coming then "Ja" else "Nein", localDate(r.createdAt)]
  }

  function CsvLines(rows: seq<RsvpView>, localDate: string -> string): seq<string>
  {
    [Join(CsvHeader, ';')] + seq(|rows|, i requires 0 <= i < |rows| => Join(CsvFields(rows[i], localDate), ';'))
  }

  function ExportCsv(rows: seq<RsvpView>, localDate: string -> string): string
  {
    Join(CsvLines(rows, localDate), '\n')
  }

  /** No cell of the row holds a separator of the file. */
  predicate CsvSafe(r: RsvpView, localDate: string -> string)
  {
    FreeOf(CsvFields(r, localDate), ';') && FreeOf(CsvFields(r, localDate), '\n')
  }

  /** A data line splits into exactly seven cells iff no cell holds a ';':
      the export does not quote or escape. */
  lemma CsvLineCells(r: RsvpView, localDate: string -> string)
    ensures |Split(Join(CsvFields(r, localDate), ';'), ';')| == 7 + OccurrencesIn(CsvFields(r, localDate), ';')
    ensures |Split(Join(CsvFields(r, localDate), ';'), ';')| == 7 <==> FreeOf(CsvFields(r, localDate), ';')
  {
    SplitJoinCount(CsvFields(r, localDate), ';');
    OccurrencesInZero(CsvFields(r, localDate), ';');
  }

  lemma HeaderLine()
    ensures '\n' !in Join(CsvHeader, ';')
    ensures Split(Join(CsvHeader, ';'), ';') == CsvHeader
  {
    assert FreeOf(CsvHeader, '\n') && FreeOf(CsvHeader, ';');
    JoinFreeOf(CsvHeader, ';', '\n');
    SplitJoin(CsvHeader, ';');
  }

  lemma DataLine(r: RsvpView, localDate: string -> string)
    requires CsvSafe(r, localDate)
    ensures '\n' !in Join(CsvFields(r, localDate), ';')
    ensures Split(Join(CsvFields(r, localDate), ';'), ';') == CsvFields(r, localDate)
  {
    JoinFreeOf(CsvFields(r, localDate), ';', '\n');
    SplitJoin(CsvFields(r, localDate), ';');
  }

  /** When no cell holds a separator, the file reads back as the header line
      followed by one line per row, in order, and each line as its cells. */
  lemma CsvReadsBack(rows: seq<RsvpView>, localDate: string -> string)
    requires forall i :: 0 <= i < |rows| ==> CsvSafe(rows[i], localDate)
    ensures Split(ExportCsv(rows, localDate), '\n') == CsvLines(rows, localDate)
    ensures |CsvLines(rows, localDate)| == |rows| + 1
    ensures Split(CsvLines(rows, localDate)[0], ';') == CsvHeader
    ensures forall i :: 0 <= i < |rows| ==>
              Split(CsvLines(rows, localDate)[i + 1], ';') == CsvFields(rows[i], localDate)
  {
    var lines := CsvLines(rows, localDate);
    HeaderLine();
    forall i | 0 <= i < |rows|
      ensures '\n' !in lines[i + 1]
      ensures Split(lines[i + 1], ';') == CsvFields(rows[i], localDate)
    {
      DataLine(rows[i], localDate);
    }
    assert FreeOf(lines, '\n') by {
      forall j | 0 <= j < |lines| ensures '\n' !in lines[j] {
        if j > 0 { assert lines[j] == lines[(j - 1) + 1]; }
      }
    }
    SplitJoin(lines, '\n');
  }

  /** Line breaks hidden in the cells of the rows. */
  function FieldBreaks(rows: seq<RsvpView>, localDate: string -> string): nat
  {
    if |rows| == 0 then 0
    else OccurrencesIn(CsvFields(rows[0], localDate), '\n') + FieldBreaks(rows[1..], localDate)
  }

  lemma {:induction false} DataLineBreaks(rows: seq<RsvpView>, localDate: string -> string)
    ensures OccurrencesIn(CsvLines(rows, localDate)[1..], '\n') == FieldBreaks(rows, localDate)
    decreases |rows|
  {
    if |rows| > 0 {
      var data, rest := CsvLines(rows, localDate)[1..], CsvLines(rows[1..], localDate)[1..];
      assert data[1..] == rest by {
        forall j | 0 <= j < |rest| ensures data[1..][j] == rest[j] {
          assert rows[1..][j] == rows[j + 1];
        }
      }
      JoinOccurrences(CsvFields(rows[0], localDate), ';', '\n');
      DataLineBreaks(rows[1..], localDate);
    }
  }

  lemma {:induction false} FieldBreaksZero(rows: seq<RsvpView>, localDate: string -> string)
    ensures FieldBreaks(rows, localDate) == 0 <==>
              forall i :: 0 <= i < |rows| ==> FreeOf(CsvFields(rows[i], localDate), '\n')
    decreases |rows|
  {
    if |rows| > 0 {
      FieldBreaksZero(rows[1..], localDate);
      OccurrencesInZero(CsvFields(rows[0], localDate), '\n');
      if FieldBreaks(rows, localDate) == 0 {
        forall i | 0 <= i < |rows| ensures FreeOf(CsvFields(rows[i], localDate), '\n') {
          if i > 0 { assert rows[i] == rows[1..][i - 1]; }
        }
      }
      if forall i :: 0 <= i < |rows| ==> FreeOf(CsvFields(rows[i], localDate), '\n') {
        forall i | 0 <= i < |rows[1..]| ensures FreeOf(CsvFields(rows[1..][i], localDate), '\n') {
          assert rows[1..][i] == rows[i + 1];
        }
      }
    }
  }

  /** The export does not escape line breaks either: the file splits into the
      header, one line per row and one more line per line break inside a cell,
      so it has exactly one line per row plus the header iff no cell holds one. */
  lemma CsvLineCount(rows: seq<RsvpView>, localDate: string -> string)
    ensures |Split(ExportCsv(rows, localDate), '\n')| == |rows| + 1 + FieldBreaks(rows, localDate)
    ensures |Split(ExportCsv(rows, localDate), '\n')| == |rows| + 1 <==>
              forall i :: 0 <= i < |rows| ==> FreeOf(CsvFields(rows[i], localDate), '\n')
  {
    var lines := CsvLines(rows, localDate);
    SplitJoinCount(lines, '\n');
    HeaderLine();
    assert Occurrences(lines[0], '\n') == 0 by {
      assert '\n' !in multiset(lines[0]);
    }
    DataLineBreaks(rows, localDate);
    FieldBreaksZero(rows, localDate);
  }

  // ---------------------------------------------------------------------
  // A submission read back

  /** The row a submission from the registration page becomes, as this page loads it. */
  function StoredRow(p: Anmeldung.InsertRow, id: string, createdAt: string, categoryName: Option<string>): RsvpRow
  {
    RsvpRow(id, p.guestName, Some(p.contact), p.itemTitle, p.attendeesCount, p.coming, createdAt, categoryName)
  }

  lemma FormatRowsCons(r: RsvpRow, rows: seq<RsvpRow>)
    ensures FormatRows([r] + rows) == [FormatRow(r)] + FormatRows(rows)
  {
  }

  /** A "no" answer, once stored and loaded (newest first), changes neither the
      head count nor any category count, whatever else the form still held. */
  lemma DeclineChangesNoFigure(rows: seq<RsvpRow>, f: Anmeldung.FormData, id: string, createdAt: string,
                               categoryName: Option<string>, name: string)
    requires f.coming != "yes"
    ensures var loaded := [StoredRow(Anmeldung.SubmitPayload(f), id, createdAt, categoryName)] + rows;
      && Count(loaded, NameKey, name) == Count(rows, NameKey, name)
      && TotalAttendees(FormatRows(loaded)) == TotalAttendees(FormatRows(rows))
  {
    var r := StoredRow(Anmeldung.SubmitPayload(f), id, createdAt, categoryName);
    assert !r.coming;
    DecliningRowCountsNowhere([], r, rows, name);
    assert [] + [r] + rows == [r] + rows && [] + rows == rows;
    FormatRowsCons(r, rows);
    TotalAttendeesAppend([FormatRow(r)], FormatRows(rows));
    assert [FormatRow(r)][..0] == [];
  }
}
