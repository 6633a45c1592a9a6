/** The public overview page (Uebersicht): guests with their nested pledges,
    split into coming and declining, the head count, one group of pledges per
    category, the coming guests who pledged nothing, and the planned total. */
module Uebersicht {
  import opened Text
  import opened Schema
  import opened Tally
  import Anmeldung

  /** The category joined onto a pledge. */
  datatype CategoryRef = CategoryRef(name: string, examples: Option<string>)

  /** A pledge nested in its guest, with `categories` renamed to `category`. */
  datatype Item = Item(
    id: string,
    itemTitle: Option<string>,
    dietTags: seq<string>,
    warmNeeded: bool,
    bringsUtensils: bool,
    category: Option<CategoryRef>)

  /** A `guests` row with its `rsvp_items`, in order of creation. */
  datatype Guest = Guest(
    id: string,
    guestName: string,
    contact: Option<string>,
    attendeesCount: int,
    coming: bool,
    items: seq<Item>)

  // ---------------------------------------------------------------------
  // Coming and declining guests

  /** The guests whose answer is `coming`, in load order. */
  function Answered(gs: seq<Guest>, coming: bool): seq<Guest>
  {
    if |gs| == 0 then [] else (if gs[0].coming == coming then [gs[0]] else []) + Answered(gs[1..], coming)
  }

  lemma {:induction false} AnsweredMembers(gs: seq<Guest>, coming: bool)
    ensures forall g :: g in Answered(gs, coming) <==> g in gs && g.coming == coming
    decreases |gs|
  {
    if |gs| > 0 {
      AnsweredMembers(gs[1..], coming);
      assert gs == [gs[0]] + gs[1..];
    }
  }

  /** `guestsData.filter(g => g.coming)`: `Answered` with its membership fact
      attached; `Answered` itself carries no contract so that proofs about
      order over it stay cheap. */
  function ComingGuests(gs: seq<Guest>): (r: seq<Guest>)
    ensures forall g :: g in r <==> g in gs && g.coming
  {
    AnsweredMembers(gs, true);
    Answered(gs, true)
  }

  /** `guestsData.filter(g => !g.coming)`: `Answered` with its membership fact attached. */
  function NotComingGuests(gs: seq<Guest>): (r: seq<Guest>)
    ensures forall g :: g in r <==> g in gs && !g.coming
  {
    AnsweredMembers(gs, false);
    Answered(gs, false)
  }

  /** The two lists split the guests: each guest lands in exactly one of them,
      as often as it was loaded. */
  lemma {:induction false} AnswersPartitionGuests(gs: seq<Guest>)
    ensures |Answered(gs, true)| + |Answered(gs, false)| == |gs|
    ensures multiset(Answered(gs, true)) + multiset(Answered(gs, false)) == multiset(gs)
    decreases |gs|
  {
    if |gs| > 0 {
      AnswersPartitionGuests(gs[1..]);
      assert gs == [gs[0]] + gs[1..];
    }
  }

  /** Both lists keep load order: splitting the guests first and filtering
      the parts gives the same lists as filtering the whole. */
  lemma {:induction false} AnswersKeepOrder(a: seq<Guest>, b: seq<Guest>, coming: bool)
    ensures Answered(a + b, coming) == Answered(a, coming) + Answered(b, coming)
    decreases |a|
  {
    if |a| == 0 {
      assert a + b == b;
    } else {
      var h := if a[0].coming == coming then [a[0]] else [];
      assert (a + b)[0] == a[0] && (a + b)[1..] == a[1..] + b;
      assert Answered(a + b, coming) == h + Answered(a[1..] + b, coming);
      AnswersKeepOrder(a[1..], b, coming);
      assert Answered(a, coming) == h + Answered(a[1..], coming);
    }
  }

  /** `guestsData.reduce((sum, g) => sum + (g.coming ? g.attendees_count : 0), 0)`. */
  function TotalAttendees(gs: seq<Guest>): int
  {
    if |gs| == 0 then 0 else (if gs[0].coming then gs[0].attendeesCount else 0) + TotalAttendees(gs[1..])
  }

  /** Sum of the attendee counts, whatever the answer. */
  function SumAttendees(gs: seq<Guest>): int
  {
    if |gs| == 0 then 0 else gs[0].attendeesCount + SumAttendees(gs[1..])
  }

  /** The head count is the attendee sum over the coming guests; declining
      guests add nothing whatever their count. */
  lemma {:induction false} HeadCountOfComing(gs: seq<Guest>)
    ensures TotalAttendees(gs) == SumAttendees(ComingGuests(gs))
    ensures TotalAttendees(NotComingGuests(gs)) == 0
    decreases |gs|
  {
    if |gs| > 0 {
      HeadCountOfComing(gs[1..]);
      var c, n := Answered(gs[1..], true), Answered(gs[1..], false);
      if gs[0].coming {
        assert Answered(gs, true) == [gs[0]] + c;
        assert ([gs[0]] + c)[1..] == c;
        assert Answered(gs, false) == n;
      } else {
        assert Answered(gs, true) == c;
        assert Answered(gs, false) == [gs[0]] + n;
        assert ([gs[0]] + n)[1..] == n;
      }
    }
  }

  // ---------------------------------------------------------------------
  // Groups per category

  /** A pledge listed in a group, with its guest's name and attendee count. */
  datatype GroupEntry = GroupEntry(item: Item, guestName: string, attendeesCount: int)

  datatype CategoryGroup = CategoryGroup(name: string, entries: seq<GroupEntry>, quota: int)

  /** `item.category?.name === name`. */
  predicate InCategory(it: Item, name: string)
  {
    it.category.Some? && it.category.value.name == name
  }

  /** `items.filter(in category).map(item => ({ ...item, guest_name, attendees_count }))` for guest `g`. */
  function Filed(g: Guest, items: seq<Item>, name: string): seq<GroupEntry>
  {
    if |items| == 0 then []
    else
      (if InCategory(items[0], name) then [GroupEntry(items[0], g.guestName, g.attendeesCount)] else [])
      + Filed(g, items[1..], name)
  }

  lemma {:induction false} FiledMembers(g: Guest, items: seq<Item>, name: string)
    ensures forall e :: e in Filed(g, items, name) <==>
              e.item in items && InCategory(e.item, name)
              && e.guestName == g.guestName && e.attendeesCount == g.attendeesCount
    decreases |items|
  {
    if |items| > 0 {
      FiledMembers(g, items[1..], name);
      assert items == [items[0]] + items[1..];
    }
  }

  lemma {:induction false} FiledKeepsOrder(g: Guest, a: seq<Item>, b: seq<Item>, name: string)
    ensures Filed(g, a + b, name) == Filed(g, a, name) + Filed(g, b, name)
    decreases |a|
  {
    if |a| == 0 {
      assert a + b == b;
    } else {
      var h := if InCategory(a[0], name) then [GroupEntry(a[0], g.guestName, g.attendeesCount)] else [];
      assert (a + b)[0] == a[0] && (a + b)[1..] == a[1..] + b;
      assert Filed(g, a + b, name) == h + Filed(g, a[1..] + b, name);
      FiledKeepsOrder(g, a[1..], b, name);
      assert Filed(g, a, name) == h + Filed(g, a[1..], name);
    }
  }

  /** The entries guest `g` contributes to the group `name`: `Filed` with its
      membership fact attached; `Filed` itself carries no contract so that
      proofs about order over it stay cheap. */
  function GuestEntries(g: Guest, items: seq<Item>, name: string): (r: seq<GroupEntry>)
    ensures forall e :: e in r <==>
              e.item in items && InCategory(e.item, name)
              && e.guestName == g.guestName && e.attendeesCount == g.attendeesCount
  {
    FiledMembers(g, items, name);
    Filed(g, items, name)
  }

  /** One guest's entries follow that guest's pledge order. */
  lemma GuestEntriesKeepOrder(g: Guest, a: seq<Item>, b: seq<Item>, name: string)
    ensures GuestEntries(g, a + b, name) == GuestEntries(g, a, name) + GuestEntries(g, b, name)
  {
    FiledKeepsOrder(g, a, b, name);
  }

  /** A single pledge yields one entry, carrying its guest's name and count,
      iff it is filed under the name. */
  lemma GuestEntriesOfOne(g: Guest, it: Item, name: string)
    ensures GuestEntries(g, [it], name) ==
              (if InCategory(it, name) then [GroupEntry(it, g.guestName, g.attendeesCount)] else [])
  {
    assert [it][1..] == [];
    assert Filed(g, [it], name) == (if InCategory(it, name) then [GroupEntry(it, g.guestName, g.attendeesCount)] else []) + Filed(g, [], name);
  }

  /** The `flatMap` over guests. */
  function Entries(guests: seq<Guest>, name: string): seq<GroupEntry>
  {
    if |guests| == 0 then [] else GuestEntries(guests[0], guests[0].items, name) + Entries(guests[1..], name)
  }

  /** One group per loaded category, in the categories' order, quota copied,
      holding the pledges of the coming guests filed under its name. */
  function CategoryGroups(cats: seq<CategoryRow>, gs: seq<Guest>): (r: seq<CategoryGroup>)
    ensures |r| == |cats|
    ensures forall i :: 0 <= i < |cats| ==>
              r[i].name == cats[i].name && r[i].quota == cats[i].quota
              && r[i].entries == Entries(ComingGuests(gs), cats[i].name)
  {
    var coming := ComingGuests(gs);
    seq(|cats|, i requires 0 <= i < |cats| => CategoryGroup(cats[i].name, Entries(coming, cats[i].name), cats[i].quota))
  }

  /** Guest order first, then each guest's pledge order. */
  lemma {:induction false} EntriesKeepOrder(a: seq<Guest>, b: seq<Guest>, name: string)
    ensures Entries(a + b, name) == Entries(a, name) + Entries(b, name)
    decreases |a|
  {
    if |a| == 0 {
      assert a + b == b;
    } else {
      assert (a + b)[0] == a[0] && (a + b)[1..] == a[1..] + b;
      EntriesKeepOrder(a[1..], b, name);
    }
  }

  lemma {:induction false} EntriesMembership(guests: seq<Guest>, name: string, e: GroupEntry)
    ensures e in Entries(guests, name) <==> exists g :: g in guests && e in GuestEntries(g, g.items, name)
    decreases |guests|
  {
    if |guests| > 0 {
      EntriesMembership(guests[1..], name, e);
      assert forall g :: g in guests <==> g == guests[0] || g in guests[1..] by {
        assert guests == [guests[0]] + guests[1..];
      }
    }
  }

  /** A group holds a pledge, with a given guest's name and count, iff some
      coming guest with that name and count made that pledge under the
      group's name. Pledges of declining guests appear only when a coming
      guest made the same one; uncategorized pledges never appear. */
  lemma GroupMembership(gs: seq<Guest>, name: string, e: GroupEntry)
    ensures e in Entries(ComingGuests(gs), name) <==>
              InCategory(e.item, name) &&
              exists g :: g in gs && g.coming && e.item in g.items
                          && e.guestName == g.guestName && e.attendeesCount == g.attendeesCount
  {
    EntriesMembership(ComingGuests(gs), name, e);
  }

  // ---------------------------------------------------------------------
  // Coming guests without a pledge

  function Itemless(guests: seq<Guest>): (r: seq<Guest>)
    ensures forall g :: g in r <==> g in guests && |g.items| == 0
  {
    if |guests| == 0 then [] else (if |guests[0].items| == 0 then [guests[0]] else []) + Itemless(guests[1..])
  }

  /** Exactly the coming guests with no pledge at all: a guest whose only
      pledge has no category is not among them. */
  function GuestsWithoutItems(gs: seq<Guest>): (r: seq<Guest>)
    ensures forall g :: g in r <==> g in gs && g.coming && |g.items| == 0
  {
    Itemless(ComingGuests(gs))
  }

  // ---------------------------------------------------------------------
  // Planned pledges against grouped pledges

  /** `comingGuests.reduce((acc, g) => acc + g.rsvp_items.length, 0)`, on a list already filtered. */
  function ItemTotal(guests: seq<Guest>): nat
  {
    if |guests| == 0 then 0 else |guests[0].items| + ItemTotal(guests[1..])
  }

  function PlannedItems(gs: seq<Guest>): nat
  {
    ItemTotal(ComingGuests(gs))
  }

  /** Every pledge of the guests, in guest order. */
  function AllItems(guests: seq<Guest>): (r: seq<Item>)
    ensures |r| == ItemTotal(guests)
  {
    if |guests| == 0 then [] else guests[0].items + AllItems(guests[1..])
  }

  function ItemKey(it: Item): Option<string>
  {
    if it.category.Some? then Some(it.category.value.name) else None
  }

  lemma {:induction false} FiledCount(g: Guest, items: seq<Item>, name: string)
    ensures |Filed(g, items, name)| == Count(items, ItemKey, name)
    decreases |items|
  {
    if |items| > 0 {
      FiledCount(g, items[1..], name);
      assert items == [items[0]] + items[1..];
      CountAppend([items[0]], items[1..], ItemKey, name);
      assert [items[0]][..0] == [];
    }
  }

  lemma GuestEntriesCount(g: Guest, items: seq<Item>, name: string)
    ensures |GuestEntries(g, items, name)| == Count(items, ItemKey, name)
  {
    FiledCount(g, items, name);
  }

  lemma {:induction false} EntriesCount(guests: seq<Guest>, name: string)
    ensures |Entries(guests, name)| == Count(AllItems(guests), ItemKey, name)
    decreases |guests|
  {
    if |guests| > 0 {
      EntriesCount(guests[1..], name);
      GuestEntriesCount(guests[0], guests[0].items, name);
      CountAppend(guests[0].items, AllItems(guests[1..]), ItemKey, name);
    }
  }

  /** Sum of the group sizes. */
  function GroupedTotal(groups: seq<CategoryGroup>): nat
  {
    if |groups| == 0 then 0 else |groups[0].entries| + GroupedTotal(groups[1..])
  }

  lemma {:induction false} GroupedTotalIsSumCounts(cats: seq<CategoryRow>, gs: seq<Guest>)
    ensures GroupedTotal(CategoryGroups(cats, gs)) == SumCounts(Names(cats), AllItems(ComingGuests(gs)), ItemKey)
    decreases |cats|
  {
    if |cats| > 0 {
      GroupedTotalIsSumCounts(cats[1..], gs);
      assert CategoryGroups(cats, gs)[1..] == CategoryGroups(cats[1..], gs);
      assert Names(cats)[1..] == Names(cats[1..]);
      EntriesCount(ComingGuests(gs), cats[0].name);
    }
  }

  /** With distinct category names, the grouped pledges plus those filed under
      no loaded category make up the planned total; so the groups never show
      more pledges than are planned. */
  lemma GroupsWithinPlanned(cats: seq<CategoryRow>, gs: seq<Guest>)
    requires Distinct(Names(cats))
    ensures GroupedTotal(CategoryGroups(cats, gs)) + Unlisted(AllItems(ComingGuests(gs)), ItemKey, Names(cats))
            == PlannedItems(gs)
    ensures GroupedTotal(CategoryGroups(cats, gs)) <= PlannedItems(gs)
  {
    GroupedTotalIsSumCounts(cats, gs);
    CountsPartition(Names(cats), AllItems(ComingGuests(gs)), ItemKey);
  }

  // ---------------------------------------------------------------------
  // Badges

  /** The group badge turns destructive once the pledges reach the quota, the
      same point at which the registration page calls the category full. */
  function FullBadge(group: CategoryGroup): (full: bool)
    ensures full <==> Anmeldung.Classify(group.quota, |group.entries|).status == Anmeldung.Full
  {
    |group.entries| >= group.quota
  }

  /** The "(+N)" shown after a guest's name for the people they bring. */
  function CompanionSuffix(attendeesCount: int): (s: string)
    ensures s != "" <==> attendeesCount > 1
    ensures attendeesCount > 1 ==>
              && |s| >= 4 && s[..2] == "(+" && s[|s| - 1] == ')'
              && AllDigits(s[2..|s| - 1]) && ParseDecimal(s[2..|s| - 1]) == attendeesCount - 1
  {
    if attendeesCount > 1 then
      var s := "(+" + IntString(attendeesCount - 1) + ")";
      assert s[2..|s| - 1] == DecimalString(attendeesCount - 1);
      ParseDecimalString(attendeesCount - 1);
      s
    else ""
  }
}
