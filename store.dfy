/** The in-memory item and swap-request store of src/contexts/ItemContext.tsx:
    the Item and SwapRequest records, the per-user queries, and the ItemStore
    class whose methods replace its two lists the way the React provider's
    state setters do. Ids and timestamps, which the source draws from the
    clock, are parameters. */
module Store {
  import opened Builtins

  datatype ItemStatus = Available | Swapped

  datatype RequestStatus = Pending | Accepted | Rejected

  /** A listed clothing item; `createdAt` is a timestamp in milliseconds. */
  datatype Item = Item(
    id: string,
    title: string,
    description: string,
    category: string,
    itemType: string,
    size: string,
    condition: string,
    tags: seq<string>,
    image: string,
    uploaderId: string,
    uploaderName: string,
    status: ItemStatus,
    isApproved: bool,
    createdAt: int)

  /** An item as handed to `addItem`: everything but `id` and `createdAt`. */
  datatype ItemDraft = ItemDraft(
    title: string,
    description: string,
    category: string,
    itemType: string,
    size: string,
    condition: string,
    tags: seq<string>,
    image: string,
    uploaderId: string,
    uploaderName: string,
    status: ItemStatus,
    isApproved: bool)

  /** A `Partial<Item>`: the fields that are present overwrite the item's. */
  datatype ItemPatch = ItemPatch(
    id: Option<string>,
    title: Option<string>,
    description: Option<string>,
    category: Option<string>,
    itemType: Option<string>,
    size: Option<string>,
    condition: Option<string>,
    tags: Option<seq<string>>,
    image: Option<string>,
    uploaderId: Option<string>,
    uploaderName: Option<string>,
    status: Option<ItemStatus>,
    isApproved: Option<bool>,
    createdAt: Option<int>)

  /** A request to swap `offeredItem` for `requestedItem`, carrying snapshots
      of both items as they were when the request was made. */
  datatype SwapRequest = SwapRequest(
    id: string,
    fromUserId: string,
    toUserId: string,
    requestedItemId: string,
    offeredItemId: string,
    status: RequestStatus,
    createdAt: int,
    requestedItem: Item,
    offeredItem: Item)

  datatype UserRequests = UserRequests(incoming: seq<SwapRequest>, outgoing: seq<SwapRequest>)

  /** The three demonstration items the store starts with. */
  const MockItems: seq<Item> := [
    Item("1", "Vintage Denim Jacket",
         "Classic blue denim jacket in excellent condition. Perfect for layering.",
         "Outerwear", "Jacket", "M", "Excellent", ["vintage", "denim", "casual"],
         "https://images.pexels.com/photos/1040945/pexels-photo-1040945.jpeg",
         "2", "Sarah", Available, true, 1705276800000),
    Item("2", "Summer Floral Dress",
         "Beautiful floral pattern dress, perfect for summer occasions.",
         "Dresses", "Casual Dress", "S", "Good", ["floral", "summer", "feminine"],
         "https://images.pexels.com/photos/1536619/pexels-photo-1536619.jpeg",
         "3", "Emily", Available, true, 1705708800000),
    Item("3", "Leather Boots",
         "Genuine leather boots with minimal wear. Great for autumn/winter.",
         "Shoes", "Boots", "8", "Very Good", ["leather", "boots", "winter"],
         "https://images.pexels.com/photos/1566909/pexels-photo-1566909.jpeg",
         "4", "Alex", Available, true, 1706140800000)
  ]

  // ---------------------------------------------------------------------
  // Record operations

  /** `{ ...draft, id, createdAt }`: the draft with the two fields it lacks. */
  function WithIdentity(d: ItemDraft, id: string, createdAt: int): (r: Item)
    ensures DraftOf(r) == d && r.id == id && r.createdAt == createdAt
  {
    Item(id, d.title, d.description, d.category, d.itemType, d.size, d.condition,
         d.tags, d.image, d.uploaderId, d.uploaderName, d.status, d.isApproved, createdAt)
  }

  /** An item without its `id` and `createdAt`: `Omit<Item, 'id' | 'createdAt'>`. */
  function DraftOf(i: Item): ItemDraft
  {
    ItemDraft(i.title, i.description, i.category, i.itemType, i.size, i.condition,
              i.tags, i.image, i.uploaderId, i.uploaderName, i.status, i.isApproved)
  }

  function Pick<T>(o: Option<T>, current: T): T
  {
    if o.Some? then o.value else current
  }

  /** The empty patch `{}`. */
  const NoChange := ItemPatch(None, None, None, None, None, None, None, None, None, None, None,
                              None, None, None)

  /** `{ ...item, ...updates }`: the fields present in the patch win. */
  function Apply(i: Item, u: ItemPatch): (r: Item)
    ensures u == NoChange ==> r == i
    ensures u.id.None? ==> r.id == i.id
  {
    Item(Pick(u.id, i.id), Pick(u.title, i.title), Pick(u.description, i.description),
         Pick(u.category, i.category), Pick(u.itemType, i.itemType), Pick(u.size, i.size),
         Pick(u.condition, i.condition), Pick(u.tags, i.tags), Pick(u.image, i.image),
         Pick(u.uploaderId, i.uploaderId), Pick(u.uploaderName, i.uploaderName),
         Pick(u.status, i.status), Pick(u.isApproved, i.isApproved),
         Pick(u.createdAt, i.createdAt))
  }

  /** The patch `{ status }`. */
  function StatusPatch(s: ItemStatus): ItemPatch
  {
    ItemPatch(None, None, None, None, None, None, None, None, None, None, None,
              Some(s), None, None)
  }

  /** Applying a patch twice is applying it once. */
  lemma ApplyIdempotent(i: Item, u: ItemPatch)
    ensures Apply(Apply(i, u), u) == Apply(i, u)
  {
  }

  /** A status patch sets the status and touches nothing else. */
  lemma StatusPatchOnlyStatus(i: Item, s: ItemStatus)
    ensures Apply(i, StatusPatch(s)) == i.(status := s)
  {
  }

  // ---------------------------------------------------------------------
  // The list transformations behind the store's state setters

  /** `items.map(item => item.id === id ? { ...item, ...updates } : item)`. */
  function UpdatedItems(items: seq<Item>, id: string, u: ItemPatch): (r: seq<Item>)
    ensures |r| == |items|
    ensures forall k :: 0 <= k < |items| && items[k].id != id ==> r[k] == items[k]
    ensures forall k :: 0 <= k < |items| && items[k].id == id ==> r[k] == Apply(items[k], u)
  {
    seq(|items|, k requires 0 <= k < |items| =>
      if items[k].id == id then Apply(items[k], u) else items[k])
  }

  /** Updating the same id with the same patch a second time changes nothing,
      even when the patch rewrites the id itself. */
  lemma UpdateIdempotent(items: seq<Item>, id: string, u: ItemPatch)
    ensures UpdatedItems(UpdatedItems(items, id, u), id, u) == UpdatedItems(items, id, u)
  {
    var once := UpdatedItems(items, id, u);
    var twice := UpdatedItems(once, id, u);
    forall k | 0 <= k < |items| ensures twice[k] == once[k] {
      if items[k].id == id {
        ApplyIdempotent(items[k], u);
      }
    }
  }

  function IdIsNot(id: string): Item -> bool
  {
    (i: Item) => i.id != id
  }

  function UploadedBy(userId: string): Item -> bool
  {
    (i: Item) => i.uploaderId == userId
  }

  function AddressedTo(userId: string): SwapRequest -> bool
  {
    (q: SwapRequest) => q.toUserId == userId
  }

  function SentBy(userId: string): SwapRequest -> bool
  {
    (q: SwapRequest) => q.fromUserId == userId
  }

  /** `items.filter(item => item.id !== id)`. */
  function RemovedItems(items: seq<Item>, id: string): (r: seq<Item>)
    ensures forall x :: x in r <==> x in items && x.id != id
    ensures IsSubsequence(r, items)
    ensures forall x :: multiset(r)[x] == if x.id != id then multiset(items)[x] else 0
  {
    FilterIsSubsequence(IdIsNot(id), items);
    forall x ensures multiset(Filter(IdIsNot(id), items))[x] == if x.id != id then multiset(items)[x] else 0 {
      FilterCounts(IdIsNot(id), items, x);
    }
    Filter(IdIsNot(id), items)
  }

  /** Deleting twice is deleting once. */
  lemma {:induction false} DeleteIdempotent(items: seq<Item>, id: string)
    ensures RemovedItems(RemovedItems(items, id), id) == RemovedItems(items, id)
  {
    FilterKeepsAll(IdIsNot(id), RemovedItems(items, id));
  }

  function HasId(id: string): Item -> bool
  {
    (i: Item) => i.id == id
  }

  function RequestHasId(id: string): SwapRequest -> bool
  {
    (q: SwapRequest) => q.id == id
  }

  /** `it` is the first item in the list whose id is `id`. */
  ghost predicate FirstItemWithId(items: seq<Item>, id: string, it: Item)
  {
    exists k :: 0 <= k < |items| && items[k] == it && it.id == id
                && forall j :: 0 <= j < k ==> items[j].id != id
  }

  /** `q` is the first request in the list whose id is `id`. */
  ghost predicate FirstRequestWithId(requests: seq<SwapRequest>, id: string, q: SwapRequest)
  {
    exists k :: 0 <= k < |requests| && requests[k] == q && q.id == id
                && forall j :: 0 <= j < k ==> requests[j].id != id
  }

  /** `items.find(item => item.id === id)`. */
  function FindItem(items: seq<Item>, id: string): (r: Option<Item>)
    ensures r.None? <==> forall k :: 0 <= k < |items| ==> items[k].id != id
    ensures r.Some? ==> r.value in items && FirstItemWithId(items, id, r.value)
  {
    var r := Find(HasId(id), items);
    if r.Some? then
      FindIsFirst(HasId(id), items);
      r
    else r
  }

  /** `swapRequests.find(r => r.id === id)`. */
  function FindRequest(requests: seq<SwapRequest>, id: string): (r: Option<SwapRequest>)
    ensures r.None? <==> forall k :: 0 <= k < |requests| ==> requests[k].id != id
    ensures r.Some? ==> r.value in requests && FirstRequestWithId(requests, id, r.value)
  {
    var r := Find(RequestHasId(id), requests);
    if r.Some? then
      FindIsFirst(RequestHasId(id), requests);
      r
    else r
  }

  /** `prev.map(request => request.id === id ? { ...request, status } : request)`. */
  function RequestsWithStatus(requests: seq<SwapRequest>, id: string, status: RequestStatus): (r: seq<SwapRequest>)
    ensures |r| == |requests|
    ensures forall k :: 0 <= k < |requests| && requests[k].id != id ==> r[k] == requests[k]
    ensures forall k :: 0 <= k < |requests| && requests[k].id == id ==> r[k] == requests[k].(status := status)
  {
    seq(|requests|, k requires 0 <= k < |requests| =>
      if requests[k].id == id then requests[k].(status := status) else requests[k])
  }

  /** The requests list after `createSwapRequest`: one new pending request
      holding snapshots of both items when both ids are found, else unchanged. */
  function RequestsAfterCreate(items: seq<Item>, requests: seq<SwapRequest>,
                               requestedItemId: string, offeredItemId: string,
                               fromUserId: string, toUserId: string,
                               id: string, createdAt: int): (r: seq<SwapRequest>)
    ensures var req := FindItem(items, requestedItemId);
            var off := FindItem(items, offeredItemId);
            if req.Some? && off.Some? then
              |r| == |requests| + 1 && r[..|requests|] == requests
              && r[|requests|] == SwapRequest(id, fromUserId, toUserId, requestedItemId, offeredItemId,
                                              Pending, createdAt, req.value, off.value)
              && FirstItemWithId(items, requestedItemId, r[|requests|].requestedItem)
              && FirstItemWithId(items, offeredItemId, r[|requests|].offeredItem)
            else r == requests
  {
    var req := FindItem(items, requestedItemId);
    var off := FindItem(items, offeredItemId);
    if req.Some? && off.Some? then
      requests + [SwapRequest(id, fromUserId, toUserId, requestedItemId, offeredItemId,
                              Pending, createdAt, req.value, off.value)]
    else requests
  }

  /** The items list after a decision on request `id`: on acceptance of a
      request that exists, every item with its requested id and then every item
      with its offered id is marked swapped; otherwise the items are untouched.
      The request's prior status is not consulted. */
  function ItemsAfterDecision(items: seq<Item>, requests: seq<SwapRequest>,
                              id: string, status: RequestStatus): (r: seq<Item>)
    ensures |r| == |items|
    ensures forall k :: 0 <= k < |items| ==> r[k] == items[k] || r[k] == items[k].(status := Swapped)
    ensures status != Accepted ==> r == items
  {
    var found := FindRequest(requests, id);
    if status == Accepted && found.Some? then
      var mid := UpdatedItems(items, found.value.requestedItemId, StatusPatch(Swapped));
      var r := UpdatedItems(mid, found.value.offeredItemId, StatusPatch(Swapped));
      forall k | 0 <= k < |items| ensures r[k] == items[k] || r[k] == items[k].(status := Swapped) {
        StatusPatchOnlyStatus(items[k], Swapped);
        StatusPatchOnlyStatus(mid[k], Swapped);
      }
      r
    else items
  }

  /** Accepting an existing request swaps exactly the items carrying either of
      its two item ids; every other item, and the order, stay as they were. */
  lemma AcceptSwapsBothItems(items: seq<Item>, requests: seq<SwapRequest>, id: string)
    requires FindRequest(requests, id).Some?
    ensures var r := ItemsAfterDecision(items, requests, id, Accepted);
            var q := FindRequest(requests, id).value;
            |r| == |items|
            && (forall k :: 0 <= k < |items| && (items[k].id == q.requestedItemId || items[k].id == q.offeredItemId)
                  ==> r[k] == items[k].(status := Swapped))
            && (forall k :: 0 <= k < |items| && items[k].id != q.requestedItemId && items[k].id != q.offeredItemId
                  ==> r[k] == items[k])
  {
    var q := FindRequest(requests, id).value;
    var mid := UpdatedItems(items, q.requestedItemId, StatusPatch(Swapped));
    forall k | 0 <= k < |items| ensures mid[k].id == items[k].id {
      if items[k].id == q.requestedItemId {
        StatusPatchOnlyStatus(items[k], Swapped);
      }
    }
    forall k | 0 <= k < |items| && (items[k].id == q.requestedItemId || items[k].id == q.offeredItemId)
      ensures ItemsAfterDecision(items, requests, id, Accepted)[k] == items[k].(status := Swapped)
    {
      StatusPatchOnlyStatus(items[k], Swapped);
      StatusPatchOnlyStatus(mid[k], Swapped);
    }
  }

  /** A rejection, or a decision on an unknown request, leaves the items alone. */
  lemma RejectLeavesItems(items: seq<Item>, requests: seq<SwapRequest>, id: string, status: RequestStatus)
    requires status == Rejected || FindRequest(requests, id).None?
    ensures ItemsAfterDecision(items, requests, id, status) == items
  {
  }

  /** The prior status of a request is never consulted: re-deciding a request
      that was already decided has the same effect on the items as deciding
      it the first time. */
  lemma {:induction false} DecisionIgnoresPriorStatus(items: seq<Item>, requests: seq<SwapRequest>,
                                                      id: string, prior: RequestStatus, status: RequestStatus)
    ensures ItemsAfterDecision(items, RequestsWithStatus(requests, id, prior), id, status)
         == ItemsAfterDecision(items, requests, id, status)
  {
    FindIgnoresStatus(requests, id, prior);
  }

  /** Finding a request by id after setting the status of that id gives the
      same request, with the new status. */
  lemma {:induction false} FindIgnoresStatus(requests: seq<SwapRequest>, id: string, status: RequestStatus)
    ensures var before := FindRequest(requests, id);
            var after := FindRequest(RequestsWithStatus(requests, id, status), id);
            after.Some? == before.Some?
            && (before.Some? ==> after.value == before.value.(status := status))
    decreases |requests|
  {
    if requests != [] {
      var changed := RequestsWithStatus(requests, id, status);
      assert changed[1..] == RequestsWithStatus(requests[1..], id, status);
      FindIgnoresStatus(requests[1..], id, status);
    }
  }

  // ---------------------------------------------------------------------
  // Per-user queries

  /** `getItemsByUser`: the user's own uploads, in store order. */
  function ItemsByUser(items: seq<Item>, userId: string): (r: seq<Item>)
    ensures forall x :: x in r <==> x in items && x.uploaderId == userId
    ensures IsSubsequence(r, items)
    ensures forall x :: multiset(r)[x] == if x.uploaderId == userId then multiset(items)[x] else 0
  {
    FilterIsSubsequence(UploadedBy(userId), items);
    forall x ensures multiset(Filter(UploadedBy(userId), items))[x]
                     == if x.uploaderId == userId then multiset(items)[x] else 0 {
      FilterCounts(UploadedBy(userId), items, x);
    }
    Filter(UploadedBy(userId), items)
  }

  /** `getSwapRequestsByUser`: requests addressed to the user, and requests
      the user sent, each in store order. */
  function SwapRequestsByUser(requests: seq<SwapRequest>, userId: string): (r: UserRequests)
    ensures forall q :: q in r.incoming <==> q in requests && q.toUserId == userId
    ensures forall q :: q in r.outgoing <==> q in requests && q.fromUserId == userId
    ensures IsSubsequence(r.incoming, requests) && IsSubsequence(r.outgoing, requests)
    ensures forall q :: multiset(r.incoming)[q] == if q.toUserId == userId then multiset(requests)[q] else 0
    ensures forall q :: multiset(r.outgoing)[q] == if q.fromUserId == userId then multiset(requests)[q] else 0
  {
    FilterIsSubsequence(AddressedTo(userId), requests);
    FilterIsSubsequence(SentBy(userId), requests);
    forall q ensures multiset(Filter(AddressedTo(userId), requests))[q]
                     == if q.toUserId == userId then multiset(requests)[q] else 0 {
      FilterCounts(AddressedTo(userId), requests, q);
    }
    forall q ensures multiset(Filter(SentBy(userId), requests))[q]
                     == if q.fromUserId == userId then multiset(requests)[q] else 0 {
      FilterCounts(SentBy(userId), requests, q);
    }
    UserRequests(Filter(AddressedTo(userId), requests), Filter(SentBy(userId), requests))
  }

  /** A request a user addressed to themself is both incoming and outgoing. */
  lemma SelfRequestInBoth(requests: seq<SwapRequest>, q: SwapRequest)
    requires q in requests && q.fromUserId == q.toUserId
    ensures var r := SwapRequestsByUser(requests, q.toUserId);
            q in r.incoming && q in r.outgoing
  {
  }

  // ---------------------------------------------------------------------
  // The provider's state

  /** The two lists the item provider keeps, and its operations on them. */
  class ItemStore {
    var items: seq<Item>
    var swapRequests: seq<SwapRequest>

    /** Every request's snapshots are of the items whose ids it records. */
    ghost predicate Valid()
      reads this
    {
      forall q :: q in swapRequests ==>
        q.requestedItem.id == q.requestedItemId && q.offeredItem.id == q.offeredItemId
    }

    /** The provider starts with the demonstration items and no requests. */
    constructor ()
      ensures Valid() && items == MockItems && swapRequests == []
    {
      items := MockItems;
      swapRequests := [];
    }

    /** `addItem`: appends the draft with the given id and timestamp. */
    method AddItem(draft: ItemDraft, id: string, createdAt: int)
      requires Valid()
      modifies this
      ensures Valid()
      ensures items == old(items) + [WithIdentity(draft, id, createdAt)]
      ensures swapRequests == old(swapRequests)
    {
      items := items + [WithIdentity(draft, id, createdAt)];
    }

    /** `updateItem`: patches every item with the id. */
    method UpdateItem(id: string, updates: ItemPatch)
      requires Valid()
      modifies this
      ensures Valid()
      ensures items == UpdatedItems(old(items), id, updates)
      ensures swapRequests == old(swapRequests)
    {
      items := UpdatedItems(items, id, updates);
    }

    /** `deleteItem`: drops every item with the id. */
    method DeleteItem(id: string)
      requires Valid()
      modifies this
      ensures Valid()
      ensures items == RemovedItems(old(items), id)
      ensures swapRequests == old(swapRequests)
    {
      items := RemovedItems(items, id);
    }

    /** `createSwapRequest`: records a pending request when both items exist. */
    method CreateSwapRequest(requestedItemId: string, offeredItemId: string,
                             fromUserId: string, toUserId: string,
                             id: string, createdAt: int)
      requires Valid()
      modifies this
      ensures Valid()
      ensures items == old(items)
      ensures swapRequests == RequestsAfterCreate(old(items), old(swapRequests), requestedItemId,
                                                  offeredItemId, fromUserId, toUserId, id, createdAt)
    {
      var requestedItem := FindItem(items, requestedItemId);
      var offeredItem := FindItem(items, offeredItemId);
      if requestedItem.Some? && offeredItem.Some? {
        var request := SwapRequest(id, fromUserId, toUserId, requestedItemId, offeredItemId,
                                   Pending, createdAt, requestedItem.value, offeredItem.value);
        swapRequests := swapRequests + [request];
      }
    }

    /** `updateSwapRequest`: records the decision on every request with the id
        and, on acceptance, marks both of the request's items swapped. */
    method UpdateSwapRequest(id: string, status: RequestStatus)
      requires status == Accepted || status == Rejected
      requires Valid()
      modifies this
      ensures Valid()
      ensures swapRequests == RequestsWithStatus(old(swapRequests), id, status)
      ensures items == ItemsAfterDecision(old(items), old(swapRequests), id, status)
    {
      var request := FindRequest(swapRequests, id);
      swapRequests := RequestsWithStatus(swapRequests, id, status);
      if status == Accepted && request.Some? {
        UpdateItem(request.value.requestedItemId, StatusPatch(Swapped));
        UpdateItem(request.value.offeredItemId, StatusPatch(Swapped));
      }
    }
  }
}
