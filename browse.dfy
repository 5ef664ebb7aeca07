/** The browse page's filter of src/pages/BrowseItemsPage.tsx (lines 14-32):
    only approved items are listed; an item is shown when the lower-cased
    search text occurs in its lower-cased title, description or one of its
    tags and it passes the three optional selectors; the selector options are
    the distinct values found among the approved items. */
module Browse {
  import opened Builtins
  import opened Store

  /** What the user has typed and selected; "" means "no selection". */
  datatype Filters = Filters(query: string, category: string, size: string, condition: string)

  function IsApproved(): Item -> bool
  {
    (i: Item) => i.isApproved
  }

  /** `items.filter(item => item.isApproved)`. */
  function ApprovedItems(items: seq<Item>): (r: seq<Item>)
    ensures forall x :: x in r <==> x in items && x.isApproved
    ensures IsSubsequence(r, items)
    ensures forall x :: multiset(r)[x] == if x.isApproved then multiset(items)[x] else 0
  {
    FilterIsSubsequence(IsApproved(), items);
    forall x ensures multiset(Filter(IsApproved(), items))[x] == if x.isApproved then multiset(items)[x] else 0 {
      FilterCounts(IsApproved(), items, x);
    }
    Filter(IsApproved(), items)
  }

  /** `matchesSearch`: the lower-cased query is found in the lower-cased
      title, description, or some tag. */
  function MatchesSearch(i: Item, query: string): (b: bool)
    ensures query == "" ==> b
  {
    IncludesEmptyAndSelf(Lower(i.title));
    var q := Lower(query);
    Includes(Lower(i.title), q) || Includes(Lower(i.description), q)
    || exists t :: t in i.tags && Includes(Lower(t), q)
  }

  /** `!selected || value === selected`. */
  function MatchesSelector(selected: string, value: string): (b: bool)
    ensures value == selected ==> b
    ensures selected == "" ==> b
  {
    selected == "" || value == selected
  }

  /** The conjunction the page's filter callback returns. */
  function Shown(i: Item, f: Filters): (b: bool)
    ensures f == Filters("", "", "", "") ==> b
    ensures b ==> MatchesSearch(i, f.query)
  {
    MatchesSearch(i, f.query)
    && MatchesSelector(f.category, i.category)
    && MatchesSelector(f.size, i.size)
    && MatchesSelector(f.condition, i.condition)
  }

  function ShownBy(f: Filters): Item -> bool
  {
    (i: Item) => Shown(i, f)
  }

  /** `filteredItems`: the approved items that pass, in store order, never
      more of them than there are approved items. */
  function FilteredItems(items: seq<Item>, f: Filters): (r: seq<Item>)
    ensures forall x :: x in r <==> x in items && x.isApproved && Shown(x, f)
    ensures IsSubsequence(r, ApprovedItems(items))
    ensures |r| <= |ApprovedItems(items)|
    ensures forall x :: multiset(r)[x] == if x.isApproved && Shown(x, f) then multiset(items)[x] else 0
  {
    FilterIsSubsequence(ShownBy(f), ApprovedItems(items));
    forall x ensures multiset(Filter(ShownBy(f), ApprovedItems(items)))[x]
                     == if x.isApproved && Shown(x, f) then multiset(items)[x] else 0 {
      FilterCounts(ShownBy(f), ApprovedItems(items), x);
    }
    Filter(ShownBy(f), ApprovedItems(items))
  }

  /** The search is a case-insensitive substring test on title, description
      and tags. */
  lemma SearchIsSubstring(i: Item, query: string)
    ensures MatchesSearch(i, query) <==>
              IsSubstring(Lower(query), Lower(i.title))
              || IsSubstring(Lower(query), Lower(i.description))
              || exists t :: t in i.tags && IsSubstring(Lower(query), Lower(t))
  {
    IncludesIffOccurs(Lower(i.title), Lower(query));
    IncludesIffOccurs(Lower(i.description), Lower(query));
    forall t | t in i.tags {
      IncludesIffOccurs(Lower(t), Lower(query));
    }
  }

  /** Searching for a query or for its lower-cased form finds the same items. */
  lemma SearchIgnoresCase(i: Item, query: string)
    ensures MatchesSearch(i, query) == MatchesSearch(i, Lower(query))
  {
    LowerIdempotent(query);
  }

  /** With an empty query and no selection, every approved item is shown. */
  lemma {:induction false} EmptyFiltersShowAllApproved(items: seq<Item>)
    ensures FilteredItems(items, Filters("", "", "", "")) == ApprovedItems(items)
  {
    FilterKeepsAll(ShownBy(Filters("", "", "", "")), ApprovedItems(items));
  }

  /** A non-empty selector admits exactly the items whose field equals it;
      an empty one admits everything. */
  lemma SelectorMeaning(selected: string, value: string)
    ensures selected == "" ==> MatchesSelector(selected, value)
    ensures selected != "" ==> (MatchesSelector(selected, value) <==> value == selected)
  {
  }

  /** `approvedItems.map(field)`. */
  function Values(items: seq<Item>, field: Item -> string): (r: seq<string>)
    ensures |r| == |ApprovedItems(items)|
    ensures forall k :: 0 <= k < |r| ==> r[k] == field(ApprovedItems(items)[k])
    ensures forall c :: c in r <==> exists i :: i in items && i.isApproved && field(i) == c
  {
    var a := ApprovedItems(items);
    var r := seq(|a|, k requires 0 <= k < |a| => field(a[k]));
    MappedMembers(a, field, r);
    r
  }

  /** The values a field takes, read position by position, are exactly the
      values it takes on some entry. */
  lemma MappedMembers(a: seq<Item>, field: Item -> string, r: seq<string>)
    requires |r| == |a| && forall k :: 0 <= k < |a| ==> r[k] == field(a[k])
    ensures forall c :: c in r <==> exists i :: i in a && field(i) == c
  {
    forall c | c in r ensures exists i :: i in a && field(i) == c {
      var k :| 0 <= k < |a| && r[k] == c;
      assert a[k] in a;
    }
    forall i | i in a ensures field(i) in r {
      var k :| 0 <= k < |a| && a[k] == i;
      assert r[k] == field(i);
    }
  }

  /** `[...new Set(approvedItems.map(field))]`: each value a field takes on
      an approved item, once, in order of first appearance. */
  function Options(items: seq<Item>, field: Item -> string): (r: seq<string>)
    ensures NoDuplicates(r)
    ensures forall c :: c in r <==> exists i :: i in items && i.isApproved && field(i) == c
    ensures forall p, q :: 0 <= p < q < |r| ==>
              IndexOf(Values(items, field), r[p]) < IndexOf(Values(items, field), r[q])
  {
    Distinct(Values(items, field))
  }

  /** The category selector's options. */
  function CategoryOptions(items: seq<Item>): (r: seq<string>)
    ensures NoDuplicates(r)
    ensures forall c :: c in r <==> exists i :: i in items && i.isApproved && i.category == c
  {
    Options(items, (i: Item) => i.category)
  }

  /** The size selector's options. */
  function SizeOptions(items: seq<Item>): (r: seq<string>)
    ensures NoDuplicates(r)
    ensures forall c :: c in r <==> exists i :: i in items && i.isApproved && i.size == c
  {
    Options(items, (i: Item) => i.size)
  }

  /** The condition selector's options. */
  function ConditionOptions(items: seq<Item>): (r: seq<string>)
    ensures NoDuplicates(r)
    ensures forall c :: c in r <==> exists i :: i in items && i.isApproved && i.condition == c
  {
    Options(items, (i: Item) => i.condition)
  }
}
