/** The notification list: archiving removes an item at once and puts it back if the
    server refuses, while other clicks and replies come and go. */
module Notifications {
  import opened Wrappers
  import opened Basics
  import opened Texts

  /** What the list shows of a notification group; `createdAt` and `readAt` are instants. */
  datatype Notification = Notification(groupId: Text, createdAt: int, inAppId: Option<Text>, readAt: Option<int>)

  type Items = seq<Notification>

  predicate Listed(items: Items, id: Text) {
    exists i | 0 <= i < |items| :: items[i].groupId == id
  }

  /** The items whose groups are not in `gone`, in list order. */
  function Kept(items: Items, gone: set<Text>): Items {
    if items == [] then []
    else (if items[0].groupId in gone then [] else [items[0]]) + Kept(items[1..], gone)
  }

  /** `filter` by another group id. */
  function Without(items: Items, id: Text): Items {
    Kept(items, {id})
  }

  /** `map` that sets `readAt` of one group. */
  function Marked(items: Items, id: Text, readAt: Option<int>): Items {
    seq(|items|, i requires 0 <= i < |items| =>
      if items[i].groupId == id then items[i].(readAt := readAt) else items[i])
  }

  /** Before the first item that is not newer. */
  function Insert(item: Notification, sorted: Items): Items {
    if sorted == [] || sorted[0].createdAt <= item.createdAt then [item] + sorted
    else [sorted[0]] + Insert(item, sorted[1..])
  }

  /** `sort` by `createdAt`, newest first; JavaScript's sort is stable. */
  function Sorted(items: Items): Items {
    if items == [] then [] else Insert(items[0], Sorted(items[1..]))
  }

  /** `handleOpen` sends a request only for an unread in-app notification. */
  predicate CanOpen(n: Notification) {
    n.inAppId.Some? && n.inAppId.value != [] && n.readAt.None?
  }

  // ---------------------------------------------------------------- the component

  const PAGE_SIZE := 20

  function CeilDiv(a: nat, b: nat): nat
    requires b > 0
  {
    (a + b - 1) / b
  }

  function PageCount(n: nat): nat {
    if n == 0 then 1 else CeilDiv(n, PAGE_SIZE)
  }

  /** `slice`, which stops at the end of the list. */
  function PageItems(items: Items, page: nat): Items {
    items[Min(page * PAGE_SIZE, |items|)..Min(page * PAGE_SIZE + PAGE_SIZE, |items|)]
  }

  /** The component's state, and its handlers cut where they wait for the server. */
  class NotificationCenter {
    var notifications: Items
    var page: nat

    constructor (loaded: Items)
      ensures notifications == loaded && page == 0
    {
      notifications, page := loaded, 0;
    }

    method PreviousClicked()
      modifies this`page
      ensures page == if old(page) == 0 then 0 else old(page) - 1
    {
      page := Max(0, page - 1);
    }

    /** The last page stays, and a page past the end comes back to it. */
    method NextClicked()
      modifies this`page
      ensures page < PageCount(|notifications|)
      ensures page == old(page) + 1 || page == PageCount(|notifications|) - 1
      ensures old(page) + 1 < PageCount(|notifications|) ==> page == old(page) + 1
    {
      page := Min(PageCount(|notifications|) - 1, page + 1);
    }

    /** There is a button for each page. */
    method PageClicked(i: nat)
      requires i < PageCount(|notifications|)
      modifies this`page
      ensures page == i
    {
      page := i;
    }

    method ArchiveClicked(record: Notification)
      modifies this`notifications
      ensures notifications == Without(old(notifications), record.groupId)
      ensures forall n :: n in notifications <==> n in old(notifications) && n.groupId != record.groupId
      ensures DistinctIds(old(notifications)) ==> DistinctIds(notifications)
      ensures NewestFirst(old(notifications)) ==> NewestFirst(notifications)
    {
      KeptMembers(notifications, {record.groupId});
      KeptOrdered(notifications, {record.groupId});
      notifications := Without(notifications, record.groupId);
    }

    method ArchiveRefused(record: Notification)
      modifies this`notifications
      ensures notifications == Sorted(old(notifications) + [record])
      ensures NewestFirst(notifications)
      ensures multiset(notifications) == multiset(old(notifications)) + multiset{record}
    {
      SortedIsStable(notifications + [record]);
      notifications := Sorted(notifications + [record]);
    }

    method OpenClicked(record: Notification, now: int) returns (sent: bool)
      modifies this`notifications
      ensures sent <==> CanOpen(record)
      ensures sent <==> record.inAppId.Some? && record.inAppId.value != [] && record.readAt.None?
      ensures notifications ==
        if sent then Marked(old(notifications), record.groupId, Some(now)) else old(notifications)
      ensures |notifications| == |old(notifications)|
      ensures forall i | 0 <= i < |notifications| ::
        if sent && old(notifications)[i].groupId == record.groupId
        then Same(notifications[i], old(notifications)[i]) && notifications[i].readAt == Some(now)
        else notifications[i] == old(notifications)[i]
    {
      if record.inAppId.None? || record.inAppId.value == [] || record.readAt.Some? {
        return false;
      }
      notifications := Marked(notifications, record.groupId, Some(now));
      return true;
    }

    method OpenRefused(record: Notification)
      modifies this`notifications
      ensures notifications == Marked(old(notifications), record.groupId, None)
      ensures |notifications| == |old(notifications)|
      ensures forall i | 0 <= i < |notifications| ::
        if old(notifications)[i].groupId == record.groupId
        then Same(notifications[i], old(notifications)[i]) && notifications[i].readAt == None
        else notifications[i] == old(notifications)[i]
    {
      notifications := Marked(notifications, record.groupId, None);
    }
  }

  /** Twenty to a page: item i of page p is item 20 p + i of the list. */
  lemma PageIs(items: Items, page: nat, i: nat)
    ensures PageCount(|items|) >= 1
    ensures PageCount(|items|) * 20 >= |items| && (|items| > 0 ==> (PageCount(|items|) - 1) * 20 < |items|)
    ensures |PageItems(items, page)| == Max(0, Min(20, |items| - 20 * page))
    ensures i < |PageItems(items, page)| ==> PageItems(items, page)[i] == items[20 * page + i]
  {
  }

  /** The pages the user can turn to, laid end to end. */
  function Pages(items: Items, n: nat): Items {
    if n == 0 then [] else Pages(items, n - 1) + PageItems(items, n - 1)
  }

  lemma {:induction false} PagesPrefix(items: Items, n: nat)
    ensures Pages(items, n) == items[..Min(n * PAGE_SIZE, |items|)]
  {
    if n > 0 {
      PagesPrefix(items, n - 1);
    }
  }

  /** The pages show every item once, in order; and a page is empty exactly when it
      lies beyond the last (as the current one can after archiving) or nothing is left. */
  lemma PagesShowAll(items: Items, page: nat)
    ensures Pages(items, PageCount(|items|)) == items
    ensures PageItems(items, page) == [] <==> items == [] || page >= PageCount(|items|)
  {
    PagesPrefix(items, PageCount(|items|));
  }

  // ---------------------------------------------------------------- order

  lemma {:induction false} WithoutAbsent(items: Items, id: Text)
    requires forall n | n in items :: n.groupId != id
    ensures Without(items, id) == items
  {
    if items != [] {
      assert items[0] in items;
      WithoutAbsent(items[1..], id);
    }
  }

  lemma {:induction false} WithoutOne(items: Items, k: nat)
    requires DistinctIds(items) && k < |items|
    ensures |Without(items, items[k].groupId)| == |items| - 1
  {
    if k == 0 {
      forall n | n in items[1..] ensures n.groupId != items[0].groupId {
        var i :| 0 <= i < |items[1..]| && items[1..][i] == n;
        assert n == items[i + 1];
      }
      WithoutAbsent(items[1..], items[0].groupId);
    } else {
      WithoutOne(items[1..], k - 1);
    }
  }

  /** Archiving an item of the page in view leaves that page empty exactly when it was
      the only item there; the page number is not turned back. */
  lemma ArchiveEmptiesPageIff(items: Items, page: nat, record: Notification)
    requires DistinctIds(items) && record in PageItems(items, page)
    ensures PageItems(Without(items, record.groupId), page) == [] <==> |PageItems(items, page)| == 1
  {
    var k :| 0 <= k < |items| && items[k] == record;
    WithoutOne(items, k);
  }

  ghost predicate NewestFirst(items: Items) {
    forall i, j | 0 <= i < j < |items| :: items[i].createdAt >= items[j].createdAt
  }

  ghost predicate StrictlyNewestFirst(items: Items) {
    forall i, j | 0 <= i < j < |items| :: items[i].createdAt > items[j].createdAt
  }

  ghost predicate DistinctIds(items: Items) {
    forall i, j | 0 <= i < j < |items| :: items[i].groupId != items[j].groupId
  }

  /** The items of one instant, in list order. */
  function At(items: Items, t: int): Items {
    if items == [] then []
    else (if items[0].createdAt == t then [items[0]] else []) + At(items[1..], t)
  }

  lemma {:induction false} InsertAdds(item: Notification, sorted: Items)
    ensures multiset(Insert(item, sorted)) == multiset(sorted) + multiset{item}
  {
    if sorted != [] && sorted[0].createdAt > item.createdAt {
      InsertAdds(item, sorted[1..]);
      assert sorted == [sorted[0]] + sorted[1..];
    }
  }

  lemma ConsNewest(head: Notification, rest: Items)
    requires NewestFirst(rest) && (rest != [] ==> head.createdAt >= rest[0].createdAt)
    ensures NewestFirst([head] + rest)
  {
  }

  lemma {:induction false} InsertSorts(item: Notification, sorted: Items)
    requires NewestFirst(sorted)
    ensures NewestFirst(Insert(item, sorted))
    ensures Insert(item, sorted)[0] == if sorted == [] || sorted[0].createdAt <= item.createdAt then item else sorted[0]
  {
    if sorted == [] || sorted[0].createdAt <= item.createdAt {
      ConsNewest(item, sorted);
    } else {
      InsertSorts(item, sorted[1..]);
      ConsNewest(sorted[0], Insert(item, sorted[1..]));
    }
  }

  /** An item goes before the earlier-listed ones of its own instant. */
  lemma {:induction false} InsertAt(item: Notification, sorted: Items, t: int)
    ensures At(Insert(item, sorted), t) == (if item.createdAt == t then [item] else []) + At(sorted, t)
  {
    hide At;
    if sorted == [] || sorted[0].createdAt <= item.createdAt {
      AtCons(item, sorted, t);
    } else {
      InsertAt(item, sorted[1..], t);
      AtCons(sorted[0], Insert(item, sorted[1..]), t);
      AtCons(sorted[0], sorted[1..], t);
      assert sorted == [sorted[0]] + sorted[1..];
      assert [] + At(sorted[1..], t) == At(sorted[1..], t) && [] + At(sorted, t) == At(sorted, t);
    }
  }

  lemma AtCons(head: Notification, rest: Items, t: int)
    ensures At([head] + rest, t) == (if head.createdAt == t then [head] else []) + At(rest, t)
  {
    assert ([head] + rest)[1..] == rest;
  }

  lemma {:induction false} SortedArranges(items: Items)
    ensures NewestFirst(Sorted(items)) && multiset(Sorted(items)) == multiset(items)
  {
    hide Insert, NewestFirst;
    if items == [] {
      NothingSorted();
    } else {
      SortedArranges(items[1..]);
      InsertSorts(items[0], Sorted(items[1..]));
      InsertAdds(items[0], Sorted(items[1..]));
      assert items == [items[0]] + items[1..];
    }
  }

  lemma NothingSorted()
    ensures NewestFirst([])
  {
  }

  lemma {:induction false} SortedAt(items: Items, t: int)
    ensures At(Sorted(items), t) == At(items, t)
  {
    if items != [] {
      SortedAt(items[1..], t);
      InsertAt(items[0], Sorted(items[1..]), t);
    }
  }

  /** Sorting gives a newest-first arrangement of the same items that keeps the items of
      each instant in their order. */
  lemma SortedIsStable(items: Items)
    ensures NewestFirst(Sorted(items)) && multiset(Sorted(items)) == multiset(items)
    ensures forall t :: At(Sorted(items), t) == At(items, t)
  {
    SortedArranges(items);
    forall t ensures At(Sorted(items), t) == At(items, t) {
      SortedAt(items, t);
    }
  }

  lemma {:induction false} AtMembers(items: Items, t: int)
    ensures forall x :: x in At(items, t) <==> x in items && x.createdAt == t
  {
    if items != [] {
      AtMembers(items[1..], t);
      assert items == [items[0]] + items[1..];
    }
  }

  /** And that arrangement is the only one. */
  lemma {:induction false} StableSortUnique(a: Items, b: Items)
    requires NewestFirst(a) && NewestFirst(b) && forall t :: At(a, t) == At(b, t)
    ensures a == b
  {
    if a == [] && b == [] {
    } else {
      if a == [] || b == [] || a[0].createdAt != b[0].createdAt {
        FirstInstant(a, b);
        FirstInstant(b, a);
        assert false;
      }
      forall t ensures At(a[1..], t) == At(b[1..], t) {
        assert At(a, t) == At(b, t);
        assert At(a, a[0].createdAt)[0] == a[0] && At(b, a[0].createdAt)[0] == b[0];
        if a[0].createdAt == t {
          assert At(a, t)[1..] == At(a[1..], t) && At(b, t)[1..] == At(b[1..], t);
        } else {
          assert At(a, t) == At(a[1..], t) && At(b, t) == At(b[1..], t);
        }
      }
      StableSortUnique(a[1..], b[1..]);
      assert At(a, a[0].createdAt)[0] == a[0] && At(b, a[0].createdAt)[0] == b[0];
      assert a == [a[0]] + a[1..] && b == [b[0]] + b[1..];
    }
  }

  lemma FirstInstant(a: Items, b: Items)
    requires NewestFirst(b) && forall t :: At(a, t) == At(b, t)
    ensures a != [] ==> b != [] && b[0].createdAt >= a[0].createdAt
  {
    if a != [] {
      AtMembers(a, a[0].createdAt);
      AtMembers(b, a[0].createdAt);
      assert a[0] in At(b, a[0].createdAt);
    }
  }

  // ---------------------------------------------------------------- runs

  /** The list and the requests in flight. `away` holds, for each archive request not
      yet answered, the record its handler would put back. The last three fields keep
      the history that the guarantees speak of: groups the server archived, groups it
      marked read, and groups whose refused read-mark found them away. */
  datatype State = State(
    items: Items, away: map<Text, Notification>, opening: set<Text>,
    archived: set<Text>, acknowledged: set<Text>, missed: set<Text>)

  datatype Step =
    | Archive(id: Text) | ArchiveDone(id: Text) | ArchiveFailed(id: Text)
    | Open(id: Text, now: int) | OpenDone(id: Text) | OpenFailed(id: Text)

  /** The listed record of a group. */
  function Record(items: Items, id: Text): (n: Notification)
    requires Listed(items, id)
    ensures n in items && n.groupId == id
  {
    if items[0].groupId == id then items[0] else Record(items[1..], id)
  }

  /** Clicks need a listed item, replies a request in flight. */
  predicate Enabled(s: State, step: Step) {
    match step
    case Archive(id) => Listed(s.items, id)
    case ArchiveDone(id) => id in s.away
    case ArchiveFailed(id) => id in s.away
    case Open(id, _) => Listed(s.items, id) && CanOpen(Record(s.items, id))
    case OpenDone(id) => id in s.opening
    case OpenFailed(id) => id in s.opening
  }

  function Apply(s: State, step: Step): State {
    if !Enabled(s, step) then s
    else
      match step
      case Archive(id) => s.(items := Without(s.items, id), away := s.away[id := Record(s.items, id)])
      case ArchiveDone(id) => s.(away := s.away - {id}, archived := s.archived + {id})
      case ArchiveFailed(id) => s.(items := Sorted(s.items + [s.away[id]]), away := s.away - {id})
      case Open(id, now) => s.(items := Marked(s.items, id, Some(now)), opening := s.opening + {id})
      case OpenDone(id) => s.(opening := s.opening - {id}, acknowledged := s.acknowledged + {id})
      case OpenFailed(id) =>
        s.(items := Marked(s.items, id, None), opening := s.opening - {id},
           missed := if id in s.away then s.missed + {id} else s.missed)
  }

  function After(initial: Items, steps: seq<Step>): State {
    if steps == [] then State(initial, map[], {}, {}, {}, {})
    else Apply(After(initial, steps[..|steps| - 1]), steps[|steps| - 1])
  }

  /** The same notification, read or not. */
  ghost predicate Same(a: Notification, b: Notification) {
    a.groupId == b.groupId && a.createdAt == b.createdAt && a.inAppId == b.inAppId
  }

  ghost predicate From(initial: Items, n: Notification) {
    exists i | 0 <= i < |initial| :: Same(initial[i], n)
  }

  /** What every step keeps: order, distinctness, and that the list and the records
      away share out the notifications not archived. */
  ghost predicate Inv(initial: Items, s: State) {
    && NewestFirst(s.items) && DistinctIds(s.items)
    && (forall n | n in s.items :: From(initial, n))
    && (forall id | id in s.away :: s.away[id].groupId == id && From(initial, s.away[id]))
    && s.away.Keys !! s.archived
    && (forall id :: Listed(s.items, id) <==> Listed(initial, id) && id !in s.away && id !in s.archived)
  }

  lemma {:induction false} KeptMembers(items: Items, gone: set<Text>)
    ensures forall x :: x in Kept(items, gone) <==> x in items && x.groupId !in gone
  {
    if items != [] {
      KeptMembers(items[1..], gone);
      assert items == [items[0]] + items[1..];
    }
  }

  /** Every earlier item stands in `r` to every later one. */
  ghost predicate Pairwise(items: Items, r: (Notification, Notification) -> bool) {
    forall i, j | 0 <= i < j < |items| :: r(items[i], items[j])
  }

  lemma ConsPairwise(head: Notification, rest: Items, r: (Notification, Notification) -> bool)
    requires Pairwise(rest, r) && forall x | x in rest :: r(head, x)
    ensures Pairwise([head] + rest, r)
  {
    forall i, j | 0 <= i < j < |rest| + 1 ensures r(([head] + rest)[i], ([head] + rest)[j]) {
      assert ([head] + rest)[j] == rest[j - 1];
      if i == 0 {
        assert rest[j - 1] in rest;
      } else {
        assert ([head] + rest)[i] == rest[i - 1];
      }
    }
  }

  lemma TailPairwise(items: Items, r: (Notification, Notification) -> bool)
    requires items != [] && Pairwise(items, r)
    ensures Pairwise(items[1..], r) && forall x | x in items[1..] :: r(items[0], x)
  {
  }

  /** Dropping items keeps any such order. */
  lemma {:induction false} KeptPairwise(items: Items, gone: set<Text>, r: (Notification, Notification) -> bool)
    requires Pairwise(items, r)
    ensures Pairwise(Kept(items, gone), r)
  {
    if items != [] {
      hide Pairwise;
      TailPairwise(items, r);
      KeptPairwise(items[1..], gone, r);
      KeptMembers(items[1..], gone);
      if items[0].groupId in gone {
        assert Kept(items, gone) == Kept(items[1..], gone);
      } else {
        ConsPairwise(items[0], Kept(items[1..], gone), r);
      }
    }
  }

  lemma KeptOrdered(items: Items, gone: set<Text>)
    ensures NewestFirst(items) ==> NewestFirst(Kept(items, gone))
    ensures StrictlyNewestFirst(items) ==> StrictlyNewestFirst(Kept(items, gone))
    ensures DistinctIds(items) ==> DistinctIds(Kept(items, gone))
  {
    hide Kept;
    var newer := (x: Notification, y: Notification) => x.createdAt >= y.createdAt;
    var strictlyNewer := (x: Notification, y: Notification) => x.createdAt > y.createdAt;
    var different := (x: Notification, y: Notification) => x.groupId != y.groupId;
    if Pairwise(items, newer) { KeptPairwise(items, gone, newer); }
    if Pairwise(items, strictlyNewer) { KeptPairwise(items, gone, strictlyNewer); }
    if Pairwise(items, different) { KeptPairwise(items, gone, different); }
  }

  lemma {:induction false} InsertDistinct(item: Notification, sorted: Items)
    requires DistinctIds(sorted) && forall x | x in sorted :: x.groupId != item.groupId
    ensures DistinctIds(Insert(item, sorted))
    ensures forall x :: x in Insert(item, sorted) <==> x == item || x in sorted
  {
    if sorted != [] && sorted[0].createdAt > item.createdAt {
      assert sorted == [sorted[0]] + sorted[1..];
      InsertDistinct(item, sorted[1..]);
      forall x | x in Insert(item, sorted[1..]) ensures x.groupId != sorted[0].groupId {
        if x != item {
          var i :| 0 <= i < |sorted[1..]| && sorted[1..][i] == x;
          assert sorted[i + 1] == x;
        }
      }
    }
  }

  lemma {:induction false} SortedDistinct(items: Items)
    requires DistinctIds(items)
    ensures DistinctIds(Sorted(items))
    ensures forall x :: x in Sorted(items) <==> x in items
  {
    if items != [] {
      SortedDistinct(items[1..]);
      assert items == [items[0]] + items[1..];
      forall x | x in Sorted(items[1..]) ensures x.groupId != items[0].groupId {
        var i :| 0 <= i < |items[1..]| && items[1..][i] == x;
        assert items[i + 1] == x;
      }
      InsertDistinct(items[0], Sorted(items[1..]));
    }
  }

  lemma ListedIff(items: Items, id: Text)
    ensures Listed(items, id) <==> exists x :: x in items && x.groupId == id
  {
    if x :| x in items && x.groupId == id {
      var i :| 0 <= i < |items| && items[i] == x;
      assert items[i].groupId == id;
    }
  }

  /** In a list of distinct groups the record of a group is the only one. */
  lemma RecordIs(items: Items, n: Notification)
    requires DistinctIds(items) && n in items
    ensures Listed(items, n.groupId) && Record(items, n.groupId) == n
  {
    ListedIff(items, n.groupId);
    var i :| 0 <= i < |items| && items[i] == n;
    var j :| 0 <= j < |items| && items[j] == Record(items, n.groupId);
  }

  lemma MarkedKeeps(items: Items, id: Text, readAt: Option<int>)
    ensures var marked := Marked(items, id, readAt);
            && |marked| == |items|
            && (forall i | 0 <= i < |items| :: Same(items[i], marked[i]))
            && (NewestFirst(items) ==> NewestFirst(marked)) && (DistinctIds(items) ==> DistinctIds(marked))
            && (forall k :: Listed(marked, k) <==> Listed(items, k))
  {
    var marked := Marked(items, id, readAt);
    forall k ensures Listed(marked, k) <==> Listed(items, k) {
      if i :| 0 <= i < |items| && items[i].groupId == k {
        assert marked[i].groupId == k;
      }
    }
  }

  lemma FromSame(initial: Items, a: Notification, b: Notification)
    requires From(initial, a) && Same(a, b)
    ensures From(initial, b)
  {
    var i :| 0 <= i < |initial| && Same(initial[i], a);
    assert Same(initial[i], b);
  }

  lemma MarkKeepsInv(initial: Items, s: State, id: Text, readAt: Option<int>)
    requires Inv(initial, s)
    ensures Inv(initial, s.(items := Marked(s.items, id, readAt)))
  {
    MarkedKeeps(s.items, id, readAt);
    var marked := Marked(s.items, id, readAt);
    forall n | n in marked ensures From(initial, n) {
      var i :| 0 <= i < |marked| && marked[i] == n;
      FromSame(initial, s.items[i], n);
    }
  }

  lemma ArchiveKeepsInv(initial: Items, s: State, id: Text)
    requires Inv(initial, s) && Listed(s.items, id)
    ensures Inv(initial, Apply(s, Archive(id)))
  {
    hide Kept;
    KeptMembers(s.items, {id});
    KeptOrdered(s.items, {id});
    var kept := Without(s.items, id);
    forall k ensures Listed(kept, k) <==> Listed(s.items, k) && k != id {
      ListedIff(kept, k);
      ListedIff(s.items, k);
    }
  }

  lemma ReturnKeepsInv(initial: Items, s: State, id: Text)
    requires Inv(initial, s) && id in s.away
    ensures Inv(initial, Apply(s, ArchiveFailed(id)))
  {
    var record := s.away[id];
    var longer := s.items + [record];
    forall x | x in s.items ensures x.groupId != id {
      ListedIff(s.items, id);
    }
    assert DistinctIds(longer);
    SortedDistinct(longer);
    SortedIsStable(longer);
    forall k ensures Listed(Sorted(longer), k) <==> Listed(s.items, k) || k == id {
      ListedIff(Sorted(longer), k);
      ListedIff(s.items, k);
      assert record in longer;
    }
  }

  lemma {:induction false} InvHolds(initial: Items, steps: seq<Step>)
    requires NewestFirst(initial) && DistinctIds(initial)
    ensures Inv(initial, After(initial, steps))
  {
    if steps == [] {
      forall n | n in initial ensures From(initial, n) {
        var i :| 0 <= i < |initial| && initial[i] == n;
        assert Same(initial[i], n);
      }
    } else {
      var s, step := After(initial, steps[..|steps| - 1]), steps[|steps| - 1];
      InvHolds(initial, steps[..|steps| - 1]);
      if Enabled(s, step) {
        match step
        case Archive(id) => ArchiveKeepsInv(initial, s, id);
        case ArchiveFailed(id) => ReturnKeepsInv(initial, s, id);
        case Open(id, now) => MarkKeepsInv(initial, s, id, Some(now));
        case OpenFailed(id) => MarkKeepsInv(initial, s, id, None);
        case _ =>
      }
    }
  }

  /** Under every interleaving of clicks and replies the list stays newest-first and
      free of duplicates, and holds exactly the loaded groups that are neither archived
      nor away. */
  lemma ListHoldsTheRest(initial: Items, steps: seq<Step>, id: Text)
    requires NewestFirst(initial) && DistinctIds(initial)
    ensures var s := After(initial, steps);
            && NewestFirst(s.items) && DistinctIds(s.items)
            && (Listed(s.items, id) <==> Listed(initial, id) && id !in s.away && id !in s.archived)
            && (Listed(s.items, id) ==> Same(Record(initial, id), Record(s.items, id)))
  {
    InvHolds(initial, steps);
    var s := After(initial, steps);
    if Listed(s.items, id) {
      var n := Record(s.items, id);
      assert From(initial, n);
      var i :| 0 <= i < |initial| && Same(initial[i], n);
      RecordIs(initial, initial[i]);
    }
  }

  // ---------------------------------------------------------------- exact order

  /** The same notifications in the same order, read or not. */
  ghost predicate SameList(a: Items, b: Items) {
    |a| == |b| && forall i | 0 <= i < |a| :: Same(a[i], b[i])
  }

  lemma {:induction false} KeptNone(initial: Items)
    ensures Kept(initial, {}) == initial
  {
    if initial != [] {
      KeptNone(initial[1..]);
    }
  }

  /** Each item has its like in the other list. */
  ghost predicate Covers(a: Items, b: Items) {
    forall x | x in b :: exists y :: y in a && Same(y, x)
  }

  /** Strictly ordered lists of the same notifications are the same list. */
  lemma {:induction false} StrictOrderDetermines(a: Items, b: Items)
    requires StrictlyNewestFirst(a) && StrictlyNewestFirst(b) && Covers(a, b) && Covers(b, a)
    ensures SameList(a, b)
  {
    hide Covers;
    if a == [] {
      if b != [] {
        HeadNewest(a, b, b[0]);
      }
    } else {
      SameHeads(a, b);
      CoversTail(a, b);
      CoversTail(b, a);
      StrictOrderDetermines(a[1..], b[1..]);
      forall i | 0 <= i < |a| ensures Same(a[i], b[i]) {
        if i > 0 {
          assert a[1..][i - 1] == a[i] && b[1..][i - 1] == b[i];
        }
      }
    }
  }

  /** No item of a covered list is newer than the head of the covering one. */
  lemma HeadNewest(a: Items, b: Items, x: Notification)
    requires StrictlyNewestFirst(a) && Covers(a, b) && x in b
    ensures a != [] && a[0].createdAt >= x.createdAt
    ensures a[0].createdAt == x.createdAt ==> Same(a[0], x)
  {
    var y :| y in a && Same(y, x);
    var i :| 0 <= i < |a| && a[i] == y;
  }

  lemma SameHeads(a: Items, b: Items)
    requires a != [] && StrictlyNewestFirst(a) && StrictlyNewestFirst(b) && Covers(a, b) && Covers(b, a)
    ensures b != [] && Same(a[0], b[0])
  {
    hide Covers;
    HeadNewest(b, a, a[0]);
    HeadNewest(a, b, b[0]);
  }

  lemma CoversTail(a: Items, b: Items)
    requires a != [] && b != [] && StrictlyNewestFirst(b) && Covers(a, b) && Same(a[0], b[0])
    ensures Covers(a[1..], b[1..])
  {
    forall x | x in b[1..] ensures exists y :: y in a[1..] && Same(y, x) {
      var i :| 0 <= i < |b[1..]| && b[1..][i] == x;
      assert x == b[i + 1];
      assert x in b;
      var y :| y in a && Same(y, x);
      var j :| 0 <= j < |a| && a[j] == y;
      assert b[0].createdAt > x.createdAt;
      assert a[1..][j - 1] == y;
    }
  }

  /** Groups not to be shown. */
  function Gone(s: State): set<Text> {
    s.away.Keys + s.archived
  }

  /** With distinct timestamps the list is at all times the loaded one with the gone
      groups taken out, in loaded order; so once every archive request has been refused
      it is the loaded list again. */
  lemma OrderIsExact(initial: Items, steps: seq<Step>)
    requires StrictlyNewestFirst(initial) && DistinctIds(initial)
    ensures var s := After(initial, steps);
            && SameList(s.items, Kept(initial, Gone(s)))
            && (Gone(s) == {} ==> SameList(s.items, initial))
  {
    InvHolds(initial, steps);
    var s := After(initial, steps);
    var kept := Kept(initial, Gone(s));
    KeptMembers(initial, Gone(s));
    KeptOrdered(initial, Gone(s));
    forall x | x in s.items ensures exists y :: y in kept && Same(y, x) {
      assert From(initial, x);
      var i :| 0 <= i < |initial| && Same(initial[i], x);
      RecordIs(s.items, x);
      assert initial[i] in kept;
    }
    forall x | x in kept ensures exists y :: y in s.items && Same(y, x) {
      RecordIs(initial, x);
      ListHoldsTheRest(initial, steps, x.groupId);
      assert Record(s.items, x.groupId) in s.items;
    }
    StrictFromOrder(initial, s);
    StrictOrderDetermines(s.items, kept);
    KeptNone(initial);
  }

  lemma StrictFromOrder(initial: Items, s: State)
    requires StrictlyNewestFirst(initial) && Inv(initial, s)
    ensures StrictlyNewestFirst(s.items)
  {
    forall i, j | 0 <= i < j < |s.items| ensures s.items[i].createdAt > s.items[j].createdAt {
      assert From(initial, s.items[i]) && From(initial, s.items[j]);
      var a :| 0 <= a < |initial| && Same(initial[a], s.items[i]);
      var b :| 0 <= b < |initial| && Same(initial[b], s.items[j]);
      assert a != b;
    }
  }

  lemma {:induction false} AtSnoc(items: Items, n: Notification)
    ensures At(items + [n], n.createdAt) == At(items, n.createdAt) + [n]
  {
    if items == [] {
      assert items + [n] == [n] && At([n][1..], n.createdAt) == [];
    } else {
      assert (items + [n])[1..] == items[1..] + [n];
      AtSnoc(items[1..], n);
    }
  }

  /** Of two items of one instant the earlier is not the last of that instant. */
  lemma {:induction false} EarlierIsNotLast(items: Items, i: nat, j: nat)
    requires DistinctIds(items) && i < j < |items| && items[i].createdAt == items[j].createdAt
    ensures var at := At(items, items[i].createdAt); at != [] && at[|at| - 1].groupId != items[i].groupId
  {
    var t := items[i].createdAt;
    var later := At(items[1..], t);
    if i > 0 {
      EarlierIsNotLast(items[1..], i - 1, j - 1);
    } else {
      AtMembers(items[1..], t);
      assert items[1..][j - 1] in later;
      var last := later[|later| - 1];
      assert last in items[1..];
      var k :| 0 <= k < |items[1..]| && items[1..][k] == last;
      assert items[k + 1] == last;
    }
  }

  lemma TwoSteps(initial: Items, a: Step, b: Step)
    ensures After(initial, [a, b]) == Apply(Apply(State(initial, map[], {}, {}, {}, {}), a), b)
  {
    hide Apply;
    assert [a, b][..1] == [a] && [a][..0] == [];
    assert After(initial, [a]) == Apply(After(initial, []), a);
    assert After(initial, [a, b]) == Apply(After(initial, [a]), b);
  }

  lemma StaysOrdered(initial: Items, steps: seq<Step>)
    requires NewestFirst(initial) && DistinctIds(initial)
    ensures NewestFirst(After(initial, steps).items) && DistinctIds(After(initial, steps).items)
  {
    hide After;
    InvHolds(initial, steps);
  }

  /** An item archived and refused comes back last of its instant. */
  lemma ReturnsLast(initial: Items, r: Notification)
    requires NewestFirst(initial) && DistinctIds(initial) && r in initial
    ensures var s := After(initial, [Archive(r.groupId), ArchiveFailed(r.groupId)]);
            var at := At(s.items, r.createdAt);
            Gone(s) == {} && at != [] && at[|at| - 1] == r
  {
    var id := r.groupId;
    TwoSteps(initial, Archive(id), ArchiveFailed(id));
    RecordIs(initial, r);
    SortedIsStable(Without(initial, id) + [r]);
    AtSnoc(Without(initial, id), r);
  }

  /** Where two items share a timestamp, archiving the first and being refused puts it
      after the second. */
  lemma TieLosesOrder(initial: Items, i: nat)
    requires NewestFirst(initial) && DistinctIds(initial)
    requires i + 1 < |initial| && initial[i].createdAt == initial[i + 1].createdAt
    ensures var id := initial[i].groupId;
            !SameList(After(initial, [Archive(id), ArchiveFailed(id)]).items, initial)
  {
    hide *;
    var steps := [Archive(initial[i].groupId), ArchiveFailed(initial[i].groupId)];
    StaysOrdered(initial, steps);
    ReturnsLast(initial, initial[i]);
    LastIsElsewhere(initial, After(initial, steps).items, i);
  }

  lemma LastIsElsewhere(initial: Items, items: Items, i: nat)
    requires DistinctIds(items) && i + 1 < |initial| && initial[i].createdAt == initial[i + 1].createdAt
    requires var at := At(items, initial[i].createdAt); at != [] && at[|at| - 1] == initial[i]
    ensures !SameList(items, initial)
  {
    hide At;
    if |items| == |initial| && Same(initial[i], items[i]) && Same(initial[i + 1], items[i + 1]) {
      EarlierIsNotLast(items, i, i + 1);
    }
  }

  /** The list keeps its loaded order under every interleaving exactly when no two
      loaded notifications share a timestamp. */
  lemma OrderExactIffDistinctTimes(initial: Items)
    requires NewestFirst(initial) && DistinctIds(initial)
    ensures (forall steps :: SameList(After(initial, steps).items, Kept(initial, Gone(After(initial, steps)))))
       <==> StrictlyNewestFirst(initial)
  {
    hide After, SameList, Kept, Gone;
    if StrictlyNewestFirst(initial) {
      forall steps ensures SameList(After(initial, steps).items, Kept(initial, Gone(After(initial, steps)))) {
        OrderIsExact(initial, steps);
      }
    } else {
      var i, j :| 0 <= i < j < |initial| && initial[i].createdAt <= initial[j].createdAt;
      TieLosesOrder(initial, i);
      ReturnsLast(initial, initial[i]);
      KeptNone(initial);
    }
  }

  // ---------------------------------------------------------------- read marks

  /** The group was loaded as read. */
  ghost predicate LoadedRead(initial: Items, id: Text) {
    exists i | 0 <= i < |initial| :: initial[i].groupId == id && initial[i].readAt.Some?
  }

  /** Why a group is shown as read. */
  ghost predicate ReasonRead(initial: Items, s: State, id: Text) {
    LoadedRead(initial, id) || id in s.opening || id in s.acknowledged || id in s.missed
  }

  ghost predicate ReadInv(initial: Items, s: State) {
    && (forall n | n in s.items :: n.readAt.Some? <==> ReasonRead(initial, s, n.groupId))
    && (forall id | id in s.away :: s.away[id].readAt.Some? <==> ReasonRead(initial, s, id))
    && (forall id | id in s.opening :: !LoadedRead(initial, id) && id !in s.acknowledged && id !in s.missed)
  }

  lemma MarkedMembers(items: Items, id: Text, readAt: Option<int>)
    ensures forall n | n in Marked(items, id, readAt) ::
      exists m :: m in items && m.groupId == n.groupId && n.readAt == if n.groupId == id then readAt else m.readAt
  {
    var marked := Marked(items, id, readAt);
    forall n | n in marked
      ensures exists m ::
        m in items && m.groupId == n.groupId && n.readAt == if n.groupId == id then readAt else m.readAt
    {
      var i :| 0 <= i < |marked| && marked[i] == n;
      assert items[i] in items;
    }
  }

  lemma OpenKeepsReads(initial: Items, s: State, id: Text, now: int)
    requires Inv(initial, s) && ReadInv(initial, s) && Enabled(s, Open(id, now))
    ensures ReadInv(initial, Apply(s, Open(id, now)))
  {
    hide LoadedRead;
    assert Record(s.items, id) in s.items;
    MarkedMembers(s.items, id, Some(now));
  }

  lemma OpenFailedKeepsReads(initial: Items, s: State, id: Text)
    requires Inv(initial, s) && ReadInv(initial, s) && id in s.opening
    ensures ReadInv(initial, Apply(s, OpenFailed(id)))
  {
    hide LoadedRead;
    MarkedMembers(s.items, id, None);
    if id in s.away {
      assert !Listed(s.items, id);
      forall n | n in s.items ensures n.groupId != id {
        ListedIff(s.items, id);
      }
    }
  }

  lemma ArchiveKeepsReads(initial: Items, s: State, id: Text)
    requires Inv(initial, s) && ReadInv(initial, s) && Listed(s.items, id)
    ensures ReadInv(initial, Apply(s, Archive(id)))
  {
    hide LoadedRead, Inv;
    KeptMembers(s.items, {id});
  }

  lemma ReturnKeepsReads(initial: Items, s: State, id: Text)
    requires ReadInv(initial, s) && id in s.away && s.away[id].groupId == id
    ensures ReadInv(initial, Apply(s, ArchiveFailed(id)))
  {
    hide LoadedRead, Sorted, At;
    var longer := s.items + [s.away[id]];
    SortedIsStable(longer);
    forall n | n in Sorted(longer) ensures n in s.items || n == s.away[id] {
      assert n in multiset(Sorted(longer));
    }
  }

  lemma {:induction false} ReadInvHolds(initial: Items, steps: seq<Step>)
    requires NewestFirst(initial) && DistinctIds(initial)
    ensures ReadInv(initial, After(initial, steps))
  {
    if steps == [] {
      forall n | n in initial ensures n.readAt.Some? <==> LoadedRead(initial, n.groupId) {
        var i :| 0 <= i < |initial| && initial[i] == n;
      }
    } else {
      hide LoadedRead;
      var s, step := After(initial, steps[..|steps| - 1]), steps[|steps| - 1];
      ReadInvHolds(initial, steps[..|steps| - 1]);
      InvHolds(initial, steps[..|steps| - 1]);
      if Enabled(s, step) {
        match step
        case Archive(id) => ArchiveKeepsReads(initial, s, id);
        case ArchiveFailed(id) => ReturnKeepsReads(initial, s, id);
        case Open(id, now) => OpenKeepsReads(initial, s, id, now);
        case OpenFailed(id) => OpenFailedKeepsReads(initial, s, id);
        case _ =>
      }
    }
  }

  /** Once every read-mark has been answered, a listed notification shows as read exactly
      when it was loaded so, the server accepted its mark, or the refusal of its mark
      arrived while it was away and so was not undone. */
  lemma ShownReadIff(initial: Items, steps: seq<Step>, n: Notification)
    requires NewestFirst(initial) && DistinctIds(initial)
    requires n in After(initial, steps).items && After(initial, steps).opening == {}
    ensures var s := After(initial, steps);
            n.readAt.Some? <==> LoadedRead(initial, n.groupId) || n.groupId in s.acknowledged || n.groupId in s.missed
  {
    ReadInvHolds(initial, steps);
  }

  // ---------------------------------------------------------------- exact restoration

  /** Groups whose read mark was set by a click and not undone. */
  function Touched(s: State): set<Text> {
    s.opening + s.acknowledged + s.missed
  }

  /** What was loaded as read is as loaded, and only the rest was ever clicked. */
  ghost predicate MarksInv(initial: Items, s: State) {
    && (forall n | n in s.items && LoadedRead(initial, n.groupId) :: n in initial)
    && (forall id | id in s.away && LoadedRead(initial, id) :: s.away[id] in initial)
    && (forall id | id in Touched(s) :: Listed(initial, id) && !LoadedRead(initial, id))
  }

  lemma OpenKeepsMarks(initial: Items, s: State, id: Text, now: int)
    requires Inv(initial, s) && ReadInv(initial, s) && MarksInv(initial, s) && Enabled(s, Open(id, now))
    ensures MarksInv(initial, Apply(s, Open(id, now)))
  {
    hide LoadedRead, Listed;
    assert Record(s.items, id) in s.items;
    UnmarkedStay(s.items, id, Some(now));
  }

  lemma OpenFailedKeepsMarks(initial: Items, s: State, id: Text)
    requires MarksInv(initial, s) && id in s.opening
    ensures MarksInv(initial, Apply(s, OpenFailed(id)))
  {
    hide LoadedRead, Listed;
    UnmarkedStay(s.items, id, None);
  }

  lemma UnmarkedStay(items: Items, id: Text, readAt: Option<int>)
    ensures forall n | n in Marked(items, id, readAt) && n.groupId != id :: n in items
  {
    var marked := Marked(items, id, readAt);
    forall n | n in marked && n.groupId != id ensures n in items {
      var i :| 0 <= i < |marked| && marked[i] == n;
      assert items[i] == n;
    }
  }

  lemma ArchiveKeepsMarks(initial: Items, s: State, id: Text)
    requires MarksInv(initial, s) && Listed(s.items, id)
    ensures MarksInv(initial, Apply(s, Archive(id)))
  {
    hide LoadedRead;
    KeptMembers(s.items, {id});
  }

  lemma ReturnKeepsMarks(initial: Items, s: State, id: Text)
    requires Inv(initial, s) && MarksInv(initial, s) && id in s.away
    ensures MarksInv(initial, Apply(s, ArchiveFailed(id)))
  {
    hide LoadedRead, Listed, Sorted, At;
    var longer := s.items + [s.away[id]];
    SortedIsStable(longer);
    forall n | n in Sorted(longer) ensures n in s.items || n == s.away[id] {
      assert n in multiset(Sorted(longer));
    }
  }

  lemma {:induction false} MarksInvHolds(initial: Items, steps: seq<Step>)
    requires NewestFirst(initial) && DistinctIds(initial)
    ensures MarksInv(initial, After(initial, steps))
  {
    hide Inv, ReadInv, LoadedRead;
    if steps != [] {
      var s, step := After(initial, steps[..|steps| - 1]), steps[|steps| - 1];
      MarksInvHolds(initial, steps[..|steps| - 1]);
      ReadInvHolds(initial, steps[..|steps| - 1]);
      InvHolds(initial, steps[..|steps| - 1]);
      if Enabled(s, step) {
        match step
        case Archive(id) => ArchiveKeepsMarks(initial, s, id);
        case ArchiveFailed(id) => ReturnKeepsMarks(initial, s, id);
        case Open(id, now) => OpenKeepsMarks(initial, s, id, now);
        case OpenFailed(id) => OpenFailedKeepsMarks(initial, s, id);
        case _ =>
      }
    }
  }

  /** An untouched item is exactly the loaded one of its group. */
  lemma UntouchedIsLoaded(initial: Items, s: State, n: Notification, loaded: Notification)
    requires DistinctIds(initial) && ReadInv(initial, s) && MarksInv(initial, s)
    requires n in s.items && loaded in initial && Same(n, loaded) && n.groupId !in Touched(s)
    ensures n == loaded
  {
    var i :| 0 <= i < |initial| && initial[i] == loaded;
    if LoadedRead(initial, n.groupId) {
      var j :| 0 <= j < |initial| && initial[j] == n;
      assert i == j;
    }
  }

  /** A touched item is not. */
  lemma TouchedIsNotLoaded(initial: Items, s: State, n: Notification)
    requires ReadInv(initial, s) && MarksInv(initial, s) && n in s.items && n.groupId in Touched(s)
    ensures n !in initial
  {
  }

  /** With distinct timestamps the list is, read marks and all, the loaded one without
      the gone groups exactly when every group whose read mark was set and not undone
      is gone. */
  lemma RestoredIff(initial: Items, steps: seq<Step>)
    requires StrictlyNewestFirst(initial) && DistinctIds(initial)
    ensures var s := After(initial, steps);
            s.items == Kept(initial, Gone(s)) <==> Touched(s) <= Gone(s)
  {
    hide After, ReadInv, MarksInv, Inv, Touched;
    var s := After(initial, steps);
    var kept := Kept(initial, Gone(s));
    ReadInvHolds(initial, steps);
    MarksInvHolds(initial, steps);
    OrderIsExact(initial, steps);
    KeptMembers(initial, Gone(s));
    if Touched(s) <= Gone(s) {
      forall i | 0 <= i < |kept| ensures s.items[i] == kept[i] {
        assert kept[i] in kept;
        UntouchedIsLoaded(initial, s, s.items[i], kept[i]);
      }
    } else {
      var id :| id in Touched(s) && id !in Gone(s);
      TouchedIsListed(initial, steps, id);
      TouchedIsNotLoaded(initial, s, Record(s.items, id));
    }
  }

  lemma TouchedIsListed(initial: Items, steps: seq<Step>, id: Text)
    requires NewestFirst(initial) && DistinctIds(initial)
    requires id in Touched(After(initial, steps)) && id !in Gone(After(initial, steps))
    ensures Listed(After(initial, steps).items, id)
  {
    MarksInvHolds(initial, steps);
    ListHoldsTheRest(initial, steps, id);
  }

  /** When nothing is in flight, archived or acknowledged, the list is exactly the loaded
      one if and only if no refusal of a read mark came while its group was away. */
  lemma RestoredIffNoneMissed(initial: Items, steps: seq<Step>)
    requires StrictlyNewestFirst(initial) && DistinctIds(initial)
    requires var s := After(initial, steps); Gone(s) == {} && s.opening == {} && s.acknowledged == {}
    ensures After(initial, steps).items == initial <==> After(initial, steps).missed == {}
  {
    RestoredIff(initial, steps);
    KeptNone(initial);
  }

  lemma {:induction false} NothingTouched(initial: Items, steps: seq<Step>)
    requires forall i | 0 <= i < |steps| :: !steps[i].Open?
    ensures Touched(After(initial, steps)) == {}
  {
    if steps != [] {
      NothingTouched(initial, steps[..|steps| - 1]);
      assert !steps[|steps| - 1].Open?;
    }
  }

  /** Archive clicks and refusals alone restore the list exactly, read marks and all. */
  lemma ArchivesRestore(initial: Items, steps: seq<Step>)
    requires StrictlyNewestFirst(initial) && DistinctIds(initial)
    requires forall i | 0 <= i < |steps| :: !steps[i].Open?
    ensures var s := After(initial, steps);
            && s.items == Kept(initial, Gone(s))
            && (Gone(s) == {} ==> s.items == initial)
  {
    RestoredIff(initial, steps);
    NothingTouched(initial, steps);
    KeptNone(initial);
  }

  /** A refused mark that outlives a refused archive: nothing was accepted, and the item
      comes back read. */
  lemma MissedMarkStays(n: Notification, now: int)
    requires CanOpen(n)
    ensures var id := n.groupId;
            var s := After([n], [Open(id, now), Archive(id), OpenFailed(id), ArchiveFailed(id)]);
            && Gone(s) == {} && s.opening == {} && s.acknowledged == {}
            && s.items == [n.(readAt := Some(now))]
  {
    var id, marked := n.groupId, n.(readAt := Some(now));
    var steps := [Open(id, now), Archive(id), OpenFailed(id), ArchiveFailed(id)];
    assert steps[..3][..2] == [Open(id, now), Archive(id)];
    assert After([n], steps) == Apply(Apply(After([n], steps[..3][..2]), OpenFailed(id)), ArchiveFailed(id));
    TwoSteps([n], Open(id, now), Archive(id));
    OnlyItem(n);
    OnlyItem(marked);
    assert Marked([n], id, Some(now)) == [marked];
    assert Marked([], id, None) == [];
    assert Sorted([marked][1..]) == [];
    assert [] + [marked] == [marked];
  }

  lemma OnlyItem(n: Notification)
    ensures Listed([n], n.groupId) && Record([n], n.groupId) == n && Without([n], n.groupId) == []
  {
    assert [n][0] == n;
    assert Kept([n][1..], {n.groupId}) == [];
  }
}
