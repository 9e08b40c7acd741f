/** Cursor paging over a set of ids that others may change between calls, for
    any strict total order on ids. */
module Paging {

  ghost predicate StrictTotal<T(!new)>(lt: (T, T) -> bool) {
    (forall a :: !lt(a, a)) &&
    (forall a, b, c :: lt(a, b) && lt(b, c) ==> lt(a, c)) &&
    (forall a, b :: lt(a, b) || a == b || lt(b, a))
  }

  ghost predicate IsLeast<T>(m: T, ids: set<T>, lt: (T, T) -> bool) {
    m in ids && forall x :: x in ids && x != m ==> lt(m, x)
  }

  lemma {:induction false} LeastExists<T(!new)>(ids: set<T>, lt: (T, T) -> bool)
    requires ids != {} && StrictTotal(lt)
    ensures HasLeast(ids, lt)
  {
    var x :| x in ids;
    if ids == {x} {
      assert IsLeast(x, ids, lt);
    } else {
      LeastExists(ids - {x}, lt);
      var m :| IsLeast(m, ids - {x}, lt);
      var least := if lt(x, m) then x else m;
      forall y | y in ids && y != least
        ensures lt(least, y)
      {
        assert y == x || y == m || (y in ids - {x} && lt(m, y));
      }
      assert IsLeast(least, ids, lt);
    }
  }

  ghost predicate HasLeast<T(!new)>(ids: set<T>, lt: (T, T) -> bool) {
    exists m :: IsLeast(m, ids, lt)
  }

  /** The n smallest ids, in order. */
  ghost function Smallest<T(!new)>(ids: set<T>, lt: (T, T) -> bool, n: nat): seq<T>
    decreases n
  {
    if n == 0 || !HasLeast(ids, lt) then []
    else
      var m :| IsLeast(m, ids, lt);
      [m] + Smallest(ids - {m}, lt, n - 1)
  }

  lemma SmallestStep<T(!new)>(m: T, ids: set<T>, lt: (T, T) -> bool, n: nat)
    requires StrictTotal(lt) && IsLeast(m, ids, lt) && n > 0
    ensures Smallest(ids, lt, n) == [m] + Smallest(ids - {m}, lt, n - 1)
  {
    assert HasLeast(ids, lt);
    var k :| IsLeast(k, ids, lt) && Smallest(ids, lt, n) == [k] + Smallest(ids - {k}, lt, n - 1);
    LeastUnique(k, m, ids, lt);
  }

  lemma LeastUnique<T(!new)>(k: T, m: T, ids: set<T>, lt: (T, T) -> bool)
    requires StrictTotal(lt) && IsLeast(k, ids, lt) && IsLeast(m, ids, lt)
    ensures k == m
  {
  }

  lemma SmallestStops<T(!new)>(ids: set<T>, lt: (T, T) -> bool, n: nat)
    requires n == 0 || ids == {}
    ensures Smallest(ids, lt, n) == []
  {
  }

  ghost predicate Ascending<T>(s: seq<T>, lt: (T, T) -> bool) {
    forall i, j :: 0 <= i < j < |s| ==> lt(s[i], s[j])
  }

  /** What it means to be the n smallest: ascending ids of the set, and nothing
      smaller left out. */
  ghost predicate AreSmallest<T>(s: seq<T>, ids: set<T>, lt: (T, T) -> bool, n: nat) {
    |s| <= n && Ascending(s, lt) && (forall x :: x in s ==> x in ids) &&
    (forall x :: x in ids && x !in s ==> |s| == n && forall y :: y in s ==> lt(y, x))
  }

  lemma ConsSmallest<T(!new)>(m: T, rest: seq<T>, ids: set<T>, lt: (T, T) -> bool, n: nat)
    requires IsLeast(m, ids, lt) && AreSmallest(rest, ids - {m}, lt, n)
    ensures AreSmallest([m] + rest, ids, lt, n + 1)
  {
    var s := [m] + rest;
    forall i, j | 0 <= i < j < |s|
      ensures lt(s[i], s[j])
    {
      assert s[j] == rest[j - 1] && rest[j - 1] in rest;
      if i > 0 {
        assert s[i] == rest[i - 1];
      }
    }
    forall x | x in ids && x !in s
      ensures |s| == n + 1 && forall y :: y in s ==> lt(y, x)
    {
      assert x != m && x !in rest by {
        assert s[0] == m;
      }
      assert forall y :: y in s ==> y == m || y in rest;
    }
  }

  lemma {:induction false} SmallestMeaning<T(!new)>(ids: set<T>, lt: (T, T) -> bool, n: nat)
    requires StrictTotal(lt)
    ensures AreSmallest(Smallest(ids, lt, n), ids, lt, n)
    decreases n
  {
    if n == 0 || ids == {} {
      SmallestStops(ids, lt, n);
    } else {
      LeastExists(ids, lt);
      var m :| IsLeast(m, ids, lt);
      SmallestStep(m, ids, lt, n);
      SmallestMeaning(ids - {m}, lt, n - 1);
      ConsSmallest(m, Smallest(ids - {m}, lt, n - 1), ids, lt, n - 1);
    }
  }

  lemma FirstIsLeast<T(!new)>(s: seq<T>, ids: set<T>, lt: (T, T) -> bool, n: nat)
    requires StrictTotal(lt) && AreSmallest(s, ids, lt, n) && s != []
    ensures IsLeast(s[0], ids, lt)
  {
    assert s[0] in s;
    forall x | x in ids && x != s[0]
      ensures lt(s[0], x)
    {
      if x in s {
        var i :| 0 <= i < |s| && s[i] == x;
      }
    }
  }

  lemma TailSmallest<T(!new)>(s: seq<T>, ids: set<T>, lt: (T, T) -> bool, n: nat)
    requires StrictTotal(lt) && AreSmallest(s, ids, lt, n + 1) && s != []
    ensures AreSmallest(s[1..], ids - {s[0]}, lt, n)
    ensures s[0] in ids
  {
    assert s[0] in s;
    var rest := s[1..];
    forall x | x in rest
      ensures x in ids - {s[0]}
    {
      var i :| 0 <= i < |rest| && rest[i] == x;
      assert lt(s[0], s[i + 1]);
    }
    forall x | x in ids - {s[0]} && x !in rest
      ensures |rest| == n && forall y :: y in rest ==> lt(y, x)
    {
      assert x !in s by {
        assert s == [s[0]] + rest;
      }
    }
  }

  lemma {:induction false} SmallestUnique<T(!new)>(s: seq<T>, ids: set<T>, lt: (T, T) -> bool, n: nat)
    requires StrictTotal(lt) && AreSmallest(s, ids, lt, n)
    ensures s == Smallest(ids, lt, n)
    decreases n
  {
    if s == [] {
      SmallestStops(ids, lt, n);
    } else {
      FirstIsLeast(s, ids, lt, n);
      TailSmallest(s, ids, lt, n - 1);
      SmallestUnique(s[1..], ids - {s[0]}, lt, n - 1);
      SmallestStep(s[0], ids, lt, n);
    }
  }

  lemma {:induction false} SmallestSize<T(!new)>(ids: set<T>, lt: (T, T) -> bool, n: nat)
    requires StrictTotal(lt)
    ensures |Smallest(ids, lt, n)| == if |ids| < n then |ids| else n
    decreases n
  {
    if n > 0 && ids != {} {
      LeastExists(ids, lt);
      var m :| IsLeast(m, ids, lt);
      SmallestStep(m, ids, lt, n);
      SmallestSize(ids - {m}, lt, n - 1);
    } else {
      SmallestStops(ids, lt, n);
    }
  }

  lemma {:induction false} AscendingSize<T(!new)>(s: seq<T>, lt: (T, T) -> bool)
    requires StrictTotal(lt) && Ascending(s, lt)
    ensures |set x | x in s| == |s|
  {
    if s != [] {
      var k := |s| - 1;
      AscendingSize(s[..k], lt);
      assert s[k] !in s[..k];
      assert (set x | x in s) == (set x | x in s[..k]) + {s[k]};
    }
  }

  /** The least id of a set, found by one scan. */
  method SmallestId<T(==, !new)>(ids: set<T>, lt: (T, T) -> bool) returns (m: T)
    requires ids != {} && StrictTotal(lt)
    ensures IsLeast(m, ids, lt)
  {
    m :| m in ids;
    var rest := ids - {m};
    while rest != {}
      invariant rest <= ids && IsLeast(m, ids - rest, lt)
      decreases rest
    {
      var x :| x in rest;
      rest := rest - {x};
      if lt(x, m) {
        forall y | y in ids - rest && y != x
          ensures lt(x, y)
        {
          assert y == m || lt(m, y);
        }
        m := x;
      }
    }
    assert ids - rest == ids;
  }

  /** The index scan behind ORDER BY ... LIMIT. */
  method ScanIndex<T(==, !new)>(candidates: set<T>, lt: (T, T) -> bool, limit: nat) returns (ids: seq<T>)
    requires StrictTotal(lt)
    ensures ids == Smallest(candidates, lt, limit)
  {
    ids := [];
    var left := candidates;
    ghost var rest := Smallest(left, lt, limit);
    while left != {} && |ids| < limit
      invariant |ids| <= limit
      invariant rest == Smallest(left, lt, limit - |ids|)
      invariant Smallest(candidates, lt, limit) == ids + rest
      decreases left
    {
      var m := SmallestId(left, lt);
      SmallestStep(m, left, lt, limit - |ids|);
      ghost var tail := Smallest(left - {m}, lt, limit - |ids| - 1);
      assert ids + rest == (ids + [m]) + tail;
      ids, left, rest := ids + [m], left - {m}, tail;
    }
    SmallestStops(left, lt, limit - |ids|);
  }

  // ---- Following a cursor ----

  function Above<T>(ids: set<T>, lt: (T, T) -> bool, cursor: T): set<T> {
    set m | m in ids && lt(cursor, m)
  }

  ghost function PageAt<T(!new)>(ids: set<T>, lt: (T, T) -> bool, cursor: T, n: nat): seq<T> {
    Smallest(Above(ids, lt, cursor), lt, n)
  }

  /** The cursor after a page: its last id, unchanged when the page is empty. */
  function Next<T>(page: seq<T>, cursor: T): T {
    if page == [] then cursor else page[|page| - 1]
  }

  /** The pages of a walk; `snapshots[k]` is what is stored at call k. */
  ghost function Pages<T(!new)>(snapshots: seq<set<T>>, lt: (T, T) -> bool, cursor: T, n: nat): (pages: seq<seq<T>>)
    ensures |pages| == |snapshots|
  {
    if snapshots == [] then []
    else
      var page := PageAt(snapshots[0], lt, cursor, n);
      [page] + Pages(snapshots[1..], lt, Next(page, cursor), n)
  }

  function Flat<T>(pages: seq<seq<T>>): seq<T> {
    if pages == [] then [] else pages[0] + Flat(pages[1..])
  }

  lemma PageFacts<T(!new)>(ids: set<T>, lt: (T, T) -> bool, cursor: T, n: nat)
    requires StrictTotal(lt)
    ensures var page := PageAt(ids, lt, cursor, n);
            Ascending(page, lt) && |page| <= n &&
            (forall x :: x in page ==> x in ids && lt(cursor, x) && (x == Next(page, cursor) || lt(x, Next(page, cursor)))) &&
            (forall x :: x in ids && lt(cursor, x) && x !in page ==> |page| == n && lt(Next(page, cursor), x))
  {
    var page := PageAt(ids, lt, cursor, n);
    SmallestMeaning(Above(ids, lt, cursor), lt, n);
    forall x | x in page
      ensures x == Next(page, cursor) || lt(x, Next(page, cursor))
    {
      var i :| 0 <= i < |page| && page[i] == x;
      assert i < |page| - 1 ==> lt(page[i], page[|page| - 1]);
    }
    if page != [] {
      assert Next(page, cursor) in page;
    }
  }

  /** A walk lists ids strictly upwards, so never one twice, whatever happens
      between its calls. */
  lemma {:induction false} WalkAscends<T(!new)>(snapshots: seq<set<T>>, lt: (T, T) -> bool, cursor: T, n: nat)
    requires StrictTotal(lt)
    ensures var ids := Flat(Pages(snapshots, lt, cursor, n));
            Ascending(ids, lt) && forall x :: x in ids ==> lt(cursor, x)
  {
    if snapshots != [] {
      var page := PageAt(snapshots[0], lt, cursor, n);
      var next := Next(page, cursor);
      PageFacts(snapshots[0], lt, cursor, n);
      WalkAscends(snapshots[1..], lt, next, n);
      var rest := Flat(Pages(snapshots[1..], lt, next, n));
      var all := Flat(Pages(snapshots, lt, cursor, n));
      assert all == page + rest;
      forall i, j | 0 <= i < j < |all|
        ensures lt(all[i], all[j])
      {
        if i < |page| <= j {
          assert all[i] in page && all[j] in rest;
        }
      }
      forall x | x in all
        ensures lt(cursor, x)
      {
        assert x in page || x in rest;
        assert page != [] ==> next in page;
      }
    }
  }

  /** An id above the start that stays stored throughout is listed, or still lies
      ahead of the cursor; a short last page leaves nothing ahead. */
  lemma {:induction false} WalkCompletes<T(!new)>(snapshots: seq<set<T>>, lt: (T, T) -> bool, cursor: T, n: nat, x: T)
    requires StrictTotal(lt) && snapshots != [] && lt(cursor, x)
    requires forall k :: 0 <= k < |snapshots| ==> x in snapshots[k]
    ensures var pages := Pages(snapshots, lt, cursor, n);
            |pages[|pages| - 1]| < n ==> x in Flat(pages)
  {
    var page := PageAt(snapshots[0], lt, cursor, n);
    var next := Next(page, cursor);
    PageFacts(snapshots[0], lt, cursor, n);
    var pages := Pages(snapshots, lt, cursor, n);
    var rest := Pages(snapshots[1..], lt, next, n);
    assert pages == [page] + rest;
    assert Flat(pages) == page + Flat(rest) by {
      assert pages[1..] == rest;
    }
    if x !in page && |snapshots| > 1 {
      WalkCompletes(snapshots[1..], lt, next, n, x);
      assert pages[|pages| - 1] == rest[|rest| - 1];
    }
  }

  /** Whatever a walk lists was stored when it was listed. */
  lemma {:induction false} WalkIsSound<T(!new)>(snapshots: seq<set<T>>, lt: (T, T) -> bool, cursor: T, n: nat, k: nat, x: T)
    requires StrictTotal(lt) && k < |snapshots|
    requires x in Pages(snapshots, lt, cursor, n)[k]
    ensures x in snapshots[k] && lt(cursor, x)
  {
    var page := PageAt(snapshots[0], lt, cursor, n);
    PageFacts(snapshots[0], lt, cursor, n);
    if k > 0 {
      WalkIsSound(snapshots[1..], lt, Next(page, cursor), n, k - 1, x);
      assert page != [] ==> Next(page, cursor) in page;
    }
  }

  /** Following the cursor over an unchanged inbox until a page is empty: what is
      listed, and how many calls that takes. */
  ghost function Drain<T(!new)>(ids: set<T>, lt: (T, T) -> bool, cursor: T, n: nat): (seq<T>, nat)
    requires StrictTotal(lt) && n > 0
    decreases |Above(ids, lt, cursor)|
  {
    var page := PageAt(ids, lt, cursor, n);
    if page == [] then ([], 1)
    else
      PageShrinks(ids, lt, cursor, n);
      var (more, calls) := Drain(ids, lt, Next(page, cursor), n);
      (page + more, calls + 1)
  }

  /** The count above the cursor drops by the size of each page. */
  lemma PageShrinks<T(!new)>(ids: set<T>, lt: (T, T) -> bool, cursor: T, n: nat)
    requires StrictTotal(lt) && n > 0
    ensures var page := PageAt(ids, lt, cursor, n);
            var left := Above(ids, lt, Next(page, cursor));
            |page| == (if |Above(ids, lt, cursor)| < n then |Above(ids, lt, cursor)| else n) &&
            |left| == |Above(ids, lt, cursor)| - |page| &&
            forall x :: x in Above(ids, lt, cursor) <==> x in page || x in left
  {
    var page, was := PageAt(ids, lt, cursor, n), Above(ids, lt, cursor);
    SmallestSize(was, lt, n);
    PageFacts(ids, lt, cursor, n);
    AscendingSize(page, lt);
    PageSplits(ids, lt, cursor, n);
  }

  lemma PageSplits<T(!new)>(ids: set<T>, lt: (T, T) -> bool, cursor: T, n: nat)
    requires StrictTotal(lt)
    ensures var page := PageAt(ids, lt, cursor, n);
            var listed, left := (set x | x in page), Above(ids, lt, Next(page, cursor));
            Above(ids, lt, cursor) == listed + left && listed !! left
  {
    var page, was := PageAt(ids, lt, cursor, n), Above(ids, lt, cursor);
    var next := Next(page, cursor);
    PageFacts(ids, lt, cursor, n);
    assert page != [] ==> next in page && lt(cursor, next);
    forall x | x in ids
      ensures lt(cursor, x) <==> x in page || lt(next, x)
      ensures !(x in page && lt(next, x))
    {
      if x in page {
        assert x == next || lt(x, next);
      }
    }
  }

  /** An unchanged inbox is listed whole and in order. Nothing above the cursor
      takes one call, and n rows take ceil(n / limit) + 1. */
  lemma {:induction false} DrainListsAll<T(!new)>(ids: set<T>, lt: (T, T) -> bool, cursor: T, n: nat)
    requires StrictTotal(lt) && n > 0
    ensures var (all, calls) := Drain(ids, lt, cursor, n);
            var total := |Above(ids, lt, cursor)|;
            AreSmallest(all, Above(ids, lt, cursor), lt, total) && |all| == total &&
            calls == (total + n - 1) / n + 1
    decreases |Above(ids, lt, cursor)|
  {
    var page, was := PageAt(ids, lt, cursor, n), Above(ids, lt, cursor);
    PageShrinks(ids, lt, cursor, n);
    PageFacts(ids, lt, cursor, n);
    if page != [] {
      var next := Next(page, cursor);
      var left := Above(ids, lt, next);
      DrainListsAll(ids, lt, next, n);
      assert forall x, y :: x in page && y in left ==> lt(x, y);
      var (more, calls) := Drain(ids, lt, next, n);
      ConcatListing(page, more, was, left, lt);
      CeilingStep(|was|, n);
    } else {
      CeilingStep(0, n);
    }
  }

  lemma ConcatListing<T(!new)>(page: seq<T>, more: seq<T>, was: set<T>, left: set<T>, lt: (T, T) -> bool)
    requires StrictTotal(lt) && Ascending(page, lt) && AreSmallest(more, left, lt, |left|) && |more| == |left|
    requires forall x, y :: x in page && y in left ==> lt(x, y)
    requires forall x :: x in was <==> x in page || x in left
    requires |was| == |page| + |left|
    ensures AreSmallest(page + more, was, lt, |was|)
  {
    var all := page + more;
    forall i, j | 0 <= i < j < |all|
      ensures lt(all[i], all[j])
    {
      if i < |page| <= j {
        assert all[i] in page && all[j] in more;
      }
    }
    forall x | x in left
      ensures x in more
    {
      if x !in more {
        AscendingSize(more, lt);
        SetSize((set y | y in more) + {x}, left);
      }
    }
  }

  lemma CeilingStep(total: nat, n: nat)
    requires n > 0
    ensures total == 0 ==> (total + n - 1) / n == 0
    ensures total > 0 ==>
              (total + n - 1) / n == ((if total < n then 0 else total - n) + n - 1) / n + 1
  {
    QuotientIs(n - 1, n, 0, n - 1);
    if 0 < total < n {
      QuotientIs(total + n - 1, n, 1, total - 1);
    } else if n <= total {
      var q, r := (total - 1) / n, (total - 1) % n;
      QuotientIs(total + n - 1, n, q + 1, r);
    }
  }

  lemma QuotientIs(a: int, n: nat, q: int, r: int)
    requires n > 0 && a == q * n + r && 0 <= r < n
    ensures a / n == q
  {
    var p := a / n;
    if p < q {
      Multiples(p + 1, q, n);
    } else if q < p {
      Multiples(q + 1, p, n);
    }
  }

  lemma Multiples(p: int, q: int, n: nat)
    requires p <= q
    ensures p * n <= q * n
    ensures p * n == (p - 1) * n + n
  {
  }

  function Below<T>(ids: set<T>, lt: (T, T) -> bool, x: T): set<T> {
    set y | y in ids && lt(y, x)
  }

  /** An id is among the n smallest exactly when fewer than n are smaller. */
  lemma AmongSmallestExactly<T(!new)>(ids: set<T>, lt: (T, T) -> bool, n: nat, x: T)
    requires StrictTotal(lt) && x in ids
    ensures x in Smallest(ids, lt, n) <==> |Below(ids, lt, x)| < n
  {
    var small := Smallest(ids, lt, n);
    var below := Below(ids, lt, x);
    var listed := set y | y in small;
    SmallestMeaning(ids, lt, n);
    AscendingSize(small, lt);
    if x in small {
      assert below + {x} <= listed;
      SetSize(below + {x}, listed);
    } else {
      SetSize(listed, below);
    }
  }

  // ---- The receive loop ----

  /** Nothing is stored at or below the cursor. */
  ghost predicate Clear<T>(ids: set<T>, lt: (T, T) -> bool, cursor: T) {
    forall x :: x in ids ==> lt(cursor, x)
  }

  /** Ack: of the requested ids, those among the n smallest stored go. */
  ghost function AfterAck<T(!new)>(ids: set<T>, lt: (T, T) -> bool, requested: seq<T>, n: nat): set<T> {
    set x | x in ids && !(x in requested && x in Smallest(ids, lt, n))
  }

  /** One turn of the loop: a page is read, other requests run, the page is
      acknowledged. If nothing arrives at or below the page's last id, the whole
      page goes, although ack looks at the n smallest rows only, and nothing is
      left at or below the new cursor. */
  lemma TurnClears<T(!new)>(before: set<T>, between: set<T>, lt: (T, T) -> bool, cursor: T, n: nat)
    requires StrictTotal(lt) && n > 0 && Clear(before, lt, cursor)
    requires var next := Next(PageAt(before, lt, cursor, n), cursor);
             forall x :: x in between && x !in before ==> lt(next, x)
    ensures var page := PageAt(before, lt, cursor, n);
            var after := AfterAck(between, lt, page, n);
            after == between - (set x | x in page) && Clear(after, lt, Next(page, cursor))
  {
    var page := PageAt(before, lt, cursor, n);
    var next := Next(page, cursor);
    PageFacts(before, lt, cursor, n);
    var small := Smallest(between, lt, n);
    SmallestMeaning(between, lt, n);
    forall x | x in page && x in between
      ensures x in small
    {
      if x !in small {
        // The n listed ids are below x, so they belong to the page as well.
        var listed := set y | y in small;
        var paged := set y | y in page;
        forall y | y in listed
          ensures y in paged
        {
          assert lt(y, x);
        }
        AscendingSize(small, lt);
        AscendingSize(page, lt);
        assert listed + {x} <= paged;
        SetSize(listed + {x}, paged);
      }
    }
    forall x | x in between && x !in page
      ensures lt(next, x)
    {
    }
  }

  /** A turn leaves nothing at or below its new cursor exactly when nothing arrived
      there between the reading and the ack. */
  lemma TurnClearsExactly<T(!new)>(before: set<T>, between: set<T>, lt: (T, T) -> bool, cursor: T, n: nat)
    requires StrictTotal(lt) && n > 0 && Clear(before, lt, cursor)
    ensures var page := PageAt(before, lt, cursor, n);
            var next := Next(page, cursor);
            Clear(AfterAck(between, lt, page, n), lt, next) <==> forall x :: x in between && x !in before ==> lt(next, x)
  {
    var page := PageAt(before, lt, cursor, n);
    var next := Next(page, cursor);
    PageFacts(before, lt, cursor, n);
    if forall x :: x in between && x !in before ==> lt(next, x) {
      TurnClears(before, between, lt, cursor, n);
    } else {
      var x :| x in between && x !in before && !lt(next, x);
      assert x in AfterAck(between, lt, page, n);
    }
  }

  lemma SetSize<T>(a: set<T>, b: set<T>)
    requires a <= b
    ensures |a| <= |b|
  {
    assert b == a + (b - a);
  }

  /** The stored ids when a turn reads its page, and when its ack arrives. */
  datatype Turn<T> = Turn(before: set<T>, between: set<T>)

  function Befores<T>(turns: seq<Turn<T>>): (snapshots: seq<set<T>>)
    ensures |snapshots| == |turns|
  {
    seq(|turns|, i requires 0 <= i < |turns| => turns[i].before)
  }

  ghost predicate NothingBelow<T(!new)>(turns: seq<Turn<T>>, lt: (T, T) -> bool, cursor: T, n: nat) {
    turns != [] ==>
      var page := PageAt(turns[0].before, lt, cursor, n);
      var next := Next(page, cursor);
      (forall x :: x in turns[0].between && x !in turns[0].before ==> lt(next, x)) &&
      (|turns| > 1 ==>
        forall x :: x in turns[1].before && x !in AfterAck(turns[0].between, lt, page, n) ==> lt(next, x)) &&
      NothingBelow(turns[1..], lt, next, n)
  }

  /** The cursor after the turns, and what is stored after the last ack. */
  ghost function LoopEnd<T(!new)>(turns: seq<Turn<T>>, lt: (T, T) -> bool, cursor: T, n: nat): (T, set<T>)
    requires turns != []
  {
    var page := PageAt(turns[0].before, lt, cursor, n);
    var next := Next(page, cursor);
    if |turns| == 1 then (next, AfterAck(turns[0].between, lt, page, n))
    else LoopEnd(turns[1..], lt, next, n)
  }

  /** The loop of reading, acknowledging and moving on never leaves a row behind
      its cursor; once a page comes back empty, nothing was stored at all. */
  lemma {:induction false} LoopClears<T(!new)>(turns: seq<Turn<T>>, lt: (T, T) -> bool, cursor: T, n: nat)
    requires StrictTotal(lt) && n > 0 && turns != []
    requires Clear(turns[0].before, lt, cursor) && NothingBelow(turns, lt, cursor, n)
    ensures var (last, left) := LoopEnd(turns, lt, cursor, n); Clear(left, lt, last)
    ensures forall k :: 0 <= k < |turns| && Pages(Befores(turns), lt, cursor, n)[k] == [] ==>
                          turns[k].before == {}
  {
    var snapshots := Befores(turns);
    var page := PageAt(turns[0].before, lt, cursor, n);
    var next := Next(page, cursor);
    TurnClears(turns[0].before, turns[0].between, lt, cursor, n);
    PageShrinks(turns[0].before, lt, cursor, n);
    assert page == [] ==> Above(turns[0].before, lt, cursor) == {};
    if |turns| > 1 {
      LoopClears(turns[1..], lt, next, n);
      assert snapshots[1..] == Befores(turns[1..]);
      var rest := Pages(snapshots[1..], lt, next, n);
      assert Pages(snapshots, lt, cursor, n) == [page] + rest;
      assert forall k :: 1 <= k < |turns| ==> turns[k] == turns[1..][k - 1];
    }
  }

  /** Whenever the loop reads or has acknowledged, nothing is stored at or below its
      cursor. */
  ghost predicate AlwaysClear<T(!new)>(turns: seq<Turn<T>>, lt: (T, T) -> bool, cursor: T, n: nat) {
    turns != [] ==>
      var page := PageAt(turns[0].before, lt, cursor, n);
      var next := Next(page, cursor);
      Clear(turns[0].before, lt, cursor) && Clear(AfterAck(turns[0].between, lt, page, n), lt, next) &&
      AlwaysClear(turns[1..], lt, next, n)
  }

  /** The loop never leaves a row behind its cursor exactly when nothing ever arrives
      at or below it. */
  lemma {:induction false} LoopClearsExactly<T(!new)>(turns: seq<Turn<T>>, lt: (T, T) -> bool, cursor: T, n: nat)
    requires StrictTotal(lt) && n > 0 && turns != [] && Clear(turns[0].before, lt, cursor)
    ensures AlwaysClear(turns, lt, cursor, n) <==> NothingBelow(turns, lt, cursor, n)
  {
    var page := PageAt(turns[0].before, lt, cursor, n);
    var next := Next(page, cursor);
    var left := AfterAck(turns[0].between, lt, page, n);
    TurnClearsExactly(turns[0].before, turns[0].between, lt, cursor, n);
    if |turns| > 1 {
      assert turns[1..][0] == turns[1];
      if Clear(turns[1].before, lt, next) {
        LoopClearsExactly(turns[1..], lt, next, n);
      } else if Clear(left, lt, next) {
        var x :| x in turns[1].before && !lt(next, x);
        assert x !in left;
      }
    }
  }
}
