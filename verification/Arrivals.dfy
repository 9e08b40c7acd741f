/** Listing order against arrival order, and what becomes of an envelope that
    arrives below a reader's cursor. */
module Arrivals {
  import opened Lex
  import opened Storage
  import opened Paging
  import opened Inboxes

  // ---- When pages follow another order, for any order on ids ----

  ghost predicate SortedBy<T>(page: seq<T>, key: T -> int) {
    forall i, j :: 0 <= i < j < |page| ==> key(page[i]) <= key(page[j])
  }

  /** Ids and keys never disagree about who comes first. */
  ghost predicate Agrees<T>(ids: set<T>, lt: (T, T) -> bool, key: T -> int) {
    forall x, y :: x in ids && y in ids && lt(x, y) ==> key(x) <= key(y)
  }

  ghost predicate PagesSorted<T(!new)>(ids: set<T>, lt: (T, T) -> bool, n: nat, key: T -> int) {
    forall c :: SortedBy(PageAt(ids, lt, c, n), key)
  }

  lemma ReverseIsTotal<T(!new)>(lt: (T, T) -> bool, gt: (T, T) -> bool)
    requires StrictTotal(lt) && forall a, b :: gt(a, b) <==> lt(b, a)
    ensures StrictTotal(gt)
  {
  }

  /** A cursor right below an id. */
  lemma JustBelow<T(!new)>(ids: set<T>, lt: (T, T) -> bool, bottom: T, x: T) returns (c: T)
    requires StrictTotal(lt) && x in ids && forall z :: z in ids ==> lt(bottom, z)
    ensures IsLeast(x, Above(ids, lt, c), lt)
  {
    var below := Below(ids, lt, x);
    if below == {} {
      c := bottom;
      forall z | z in Above(ids, lt, c) && z != x
        ensures lt(x, z)
      {
        assert z !in below;
      }
    } else {
      var gt := (a, b) => lt(b, a);
      ReverseIsTotal(lt, gt);
      LeastExists(below, gt);
      c :| IsLeast(c, below, gt);
      forall z | z in Above(ids, lt, c) && z != x
        ensures lt(x, z)
      {
        assert z in below ==> z == c || gt(c, z);
      }
    }
  }

  /** The page from right below an id starts with it and its successor. */
  lemma PageFrom<T(!new)>(ids: set<T>, lt: (T, T) -> bool, c: T, n: nat, x: T, m: T)
    requires StrictTotal(lt) && n >= 2 && IsLeast(x, Above(ids, lt, c), lt) && IsLeast(m, Above(ids, lt, x), lt)
    ensures var page := PageAt(ids, lt, c, n); |page| >= 2 && page[0] == x && page[1] == m
  {
    assert Above(ids, lt, c) - {x} == Above(ids, lt, x);
    SmallestStep(x, Above(ids, lt, c), lt, n);
    SmallestStep(m, Above(ids, lt, x), lt, n - 1);
  }

  function UpTo<T>(ids: set<T>, lt: (T, T) -> bool, x: T, y: T): set<T> {
    set z | z in ids && lt(x, z) && (z == y || lt(z, y))
  }

  lemma {:induction false} SortedPagesAgree<T(!new)>(ids: set<T>, lt: (T, T) -> bool, bottom: T, n: nat, key: T -> int, x: T, y: T)
    requires StrictTotal(lt) && n >= 2 && (forall z :: z in ids ==> lt(bottom, z)) && PagesSorted(ids, lt, n, key)
    requires x in ids && y in ids && lt(x, y)
    ensures key(x) <= key(y)
    decreases UpTo(ids, lt, x, y)
  {
    var c := JustBelow(ids, lt, bottom, x);
    assert y in Above(ids, lt, x);
    LeastExists(Above(ids, lt, x), lt);
    var m :| IsLeast(m, Above(ids, lt, x), lt);
    PageFrom(ids, lt, c, n, x, m);
    assert SortedBy(PageAt(ids, lt, c, n), key);
    if m != y {
      assert m in UpTo(ids, lt, x, y) && m !in UpTo(ids, lt, m, y);
      assert UpTo(ids, lt, m, y) <= UpTo(ids, lt, x, y);
      SortedPagesAgree(ids, lt, bottom, n, key, m, y);
    }
  }

  /** Every page comes in key order exactly when no two ids disagree with their keys. */
  lemma PagesSortedExactly<T(!new)>(ids: set<T>, lt: (T, T) -> bool, bottom: T, n: nat, key: T -> int)
    requires StrictTotal(lt) && n >= 2 && forall z :: z in ids ==> lt(bottom, z)
    ensures PagesSorted(ids, lt, n, key) <==> Agrees(ids, lt, key)
  {
    if PagesSorted(ids, lt, n, key) {
      forall x, y | x in ids && y in ids && lt(x, y)
        ensures key(x) <= key(y)
      {
        SortedPagesAgree(ids, lt, bottom, n, key, x, y);
      }
    }
    if Agrees(ids, lt, key) {
      forall c
        ensures SortedBy(PageAt(ids, lt, c, n), key)
      {
        PageFacts(ids, lt, c, n);
        var page := PageAt(ids, lt, c, n);
        forall i, j | 0 <= i < j < |page|
          ensures key(page[i]) <= key(page[j])
        {
          assert page[i] in page && page[j] in page;
        }
      }
    }
  }

  // ---- Listings ----

  /** The listing shows arrivals in order: each row no later than those after it. */
  ghost predicate InArrivalOrder(rows: seq<Row>) {
    forall i, j :: 0 <= i < j < |rows| ==> rows[i].receivedAt <= rows[j].receivedAt
  }

  /** A smaller id never arrived in a later second. */
  ghost predicate IdsFollowArrival(envs: Envelopes, pathId: string, dir: Direction) {
    forall m, k :: m in InboxIds(envs, pathId, dir) && k in InboxIds(envs, pathId, dir) && StrLess(m, k) ==>
                     envs[m].receivedAt <= envs[k].receivedAt
  }

  function ArrivalOf(envs: Envelopes): string -> int {
    m => if m in envs then envs[m].receivedAt else 0
  }

  lemma PageInOrder(envs: Envelopes, pathId: string, dir: Direction, since: string)
    ensures InArrivalOrder(Page(envs, pathId, dir, since)) <==> SortedBy(PageIds(envs, pathId, dir, since), ArrivalOf(envs))
  {
    var ids, rows := PageIds(envs, pathId, dir, since), Page(envs, pathId, dir, since);
    forall i | 0 <= i < |ids|
      ensures ArrivalOf(envs)(ids[i]) == rows[i].receivedAt
    {
      assert ids[i] in ids;
    }
  }

  lemma EmptyIsBelow(envs: Envelopes, pathId: string, dir: Direction)
    requires WellStored(envs)
    ensures forall m :: m in InboxIds(envs, pathId, dir) ==> StrLess("", m)
  {
  }

  lemma PagesAreSorted(envs: Envelopes, pathId: string, dir: Direction)
    requires WellStored(envs)
    ensures (forall since :: SortedBy(PageIds(envs, pathId, dir, since), ArrivalOf(envs))) <==>
            Agrees(InboxIds(envs, pathId, dir), StrLess, ArrivalOf(envs))
  {
    TextOrder();
    EmptyIsBelow(envs, pathId, dir);
    PagesSortedExactly(InboxIds(envs, pathId, dir), StrLess, "", LIST_LIMIT, ArrivalOf(envs));
    assert forall since :: PageIds(envs, pathId, dir, since) == PageAt(InboxIds(envs, pathId, dir), StrLess, since, LIST_LIMIT);
  }

  /** Every listing of an inbox is in arrival order, as the storage contract says,
      exactly when no smaller id arrived in a later second. */
  lemma ListingsFollowArrivalExactly(envs: Envelopes, pathId: string, dir: Direction)
    requires WellStored(envs)
    ensures (forall since :: InArrivalOrder(Page(envs, pathId, dir, since))) <==> IdsFollowArrival(envs, pathId, dir)
  {
    PagesAreSorted(envs, pathId, dir);
    forall since
      ensures InArrivalOrder(Page(envs, pathId, dir, since)) <==> SortedBy(PageIds(envs, pathId, dir, since), ArrivalOf(envs))
    {
      PageInOrder(envs, pathId, dir, since);
    }
    AgreesIsFollows(envs, pathId, dir);
  }

  lemma AgreesIsFollows(envs: Envelopes, pathId: string, dir: Direction)
    ensures Agrees(InboxIds(envs, pathId, dir), StrLess, ArrivalOf(envs)) <==> IdsFollowArrival(envs, pathId, dir)
  {
    var key := ArrivalOf(envs);
    assert forall m :: m in InboxIds(envs, pathId, dir) ==> key(m) == envs[m].receivedAt;
  }

  // ---- Cursor walks ----

  /** A walk that ends with a short page lists, of the ids stored throughout, exactly
      those above its start. */
  lemma WalkListsExactly(tables: seq<Envelopes>, pathId: string, dir: Direction, since: string, m: string)
    requires tables != [] && forall k :: 0 <= k < |tables| ==> m in InboxIds(tables[k], pathId, dir)
    requires |CursorWalk(tables, pathId, dir, since)[|tables| - 1]| < LIST_LIMIT
    ensures m in Flat(CursorWalk(tables, pathId, dir, since)) <==> StrLess(since, m)
  {
    ListedIsAbove(tables, pathId, dir, since);
    if StrLess(since, m) {
      PagingCompletes(tables, pathId, dir, since, m);
    }
  }

  /** Whatever a walk lists lies above its start, so what arrives at or below the
      cursor is in no later page. */
  lemma ListedIsAbove(tables: seq<Envelopes>, pathId: string, dir: Direction, since: string)
    ensures forall m :: m in Flat(CursorWalk(tables, pathId, dir, since)) ==> StrLess(since, m)
  {
    CursorWalkIsPages(tables, pathId, dir, since);
    TextOrder();
    WalkAscends(InboxesAt(tables, pathId, dir), StrLess, since, LIST_LIMIT);
  }
}
