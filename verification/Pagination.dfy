/** Walking a listing by its cursor while rows come and go.  A page is the `limit` greatest keys
    below the cursor; the next cursor is the last key of a page that is not the last. */
module Pagination {
  import opened Arithmetic
  import opened Options

  /** Sort keys, in lexicographic order.  The notification list sorts by (created_at, id); the
      URL list sorts by id alone, its major part being constant. */
  datatype Key = Key(major: int, minor: int)

  predicate Less(a: Key, b: Key) {
    a.major < b.major || (a.major == b.major && a.minor < b.minor)
  }

  predicate IsGreatest(k: Key, s: set<Key>) {
    k in s && forall x :: x in s && x != k ==> Less(x, k)
  }

  lemma {:induction false} GreatestExists(s: set<Key>)
    requires s != {}
    ensures exists k :: IsGreatest(k, s)
    decreases |s|
  {
    var some :| some in s;
    if s == {some} {
      assert IsGreatest(some, s);
    } else {
      GreatestExists(s - {some});
      var best :| IsGreatest(best, s - {some});
      if Less(best, some) {
        forall x | x in s && x != some ensures Less(x, some) {
          assert x in s - {some};
        }
        assert IsGreatest(some, s);
      } else {
        assert IsGreatest(best, s);
      }
    }
  }

  ghost function Greatest(s: set<Key>): (k: Key)
    requires s != {}
    ensures IsGreatest(k, s)
  {
    GreatestExists(s);
    var k :| IsGreatest(k, s);
    k
  }

  /** The keys in descending order. */
  ghost function Descending(s: set<Key>): seq<Key>
    decreases |s|
  {
    if s == {} then [] else [Greatest(s)] + Descending(s - {Greatest(s)})
  }

  ghost predicate Sorted(keys: seq<Key>) {
    forall i, j :: 0 <= i < j < |keys| ==> Less(keys[j], keys[i])
  }

  function Elements(keys: seq<Key>): set<Key> {
    set k | k in keys
  }

  lemma {:induction false} DescendingIsSorted(s: set<Key>)
    ensures Sorted(Descending(s)) && Elements(Descending(s)) == s && |Descending(s)| == |s|
    decreases |s|
  {
    if s != {} {
      var k := Greatest(s);
      var rest := Descending(s - {k});
      DescendingIsSorted(s - {k});
      ConsSorted(k, rest);
      assert {k} + (s - {k}) == s;
    }
  }

  lemma ConsSorted(k: Key, rest: seq<Key>)
    requires Sorted(rest) && forall x :: x in Elements(rest) ==> Less(x, k)
    ensures Sorted([k] + rest) && Elements([k] + rest) == {k} + Elements(rest)
  {
    forall i | 0 <= i < |rest| ensures Less(rest[i], k) {
      assert rest[i] in Elements(rest);
    }
  }

  lemma HeadIsElement(keys: seq<Key>)
    ensures keys == [] || keys[0] in Elements(keys)
  {
  }

  /** A strictly descending sequence is determined by its elements. */
  lemma {:induction false} SortedUnique(a: seq<Key>, b: seq<Key>)
    requires Sorted(a) && Sorted(b) && Elements(a) == Elements(b)
    ensures a == b
    decreases |a|
  {
    HeadIsElement(b);
    if a != [] {
      assert a[0] in Elements(b);
      var j :| 0 <= j < |b| && b[j] == a[0];
      assert b[0] in Elements(a);
      var i :| 0 <= i < |a| && a[i] == b[0];
      assert a[0] == b[0];
      TailElements(a);
      TailElements(b);
      SortedUnique(a[1..], b[1..]);
      assert a == [a[0]] + a[1..] && b == [b[0]] + b[1..];
    }
  }

  lemma TailElements(a: seq<Key>)
    requires Sorted(a) && a != []
    ensures Sorted(a[1..]) && Elements(a[1..]) == Elements(a) - {a[0]}
  {
    assert a == [a[0]] + a[1..];
    forall k | k in a[1..] ensures k != a[0] {
      var i :| 0 <= i < |a[1..]| && a[1..][i] == k;
      assert Less(a[i + 1], a[0]);
    }
  }

  // ----- pages

  datatype Page = Page(keys: seq<Key>, next: Option<Key>)

  function Below(s: set<Key>, cursor: Option<Key>): set<Key> {
    set k | k in s && (cursor.None? || Less(k, cursor.value))
  }

  ghost function PageOf(s: set<Key>, cursor: Option<Key>, limit: nat): Page
    requires limit >= 1
  {
    var all := Descending(Below(s, cursor));
    if |all| > limit then Page(all[..limit], Some(all[limit - 1])) else Page(all, None)
  }

  /** Following the cursor: the i-th request sees the i-th snapshot of the eligible rows. */
  ghost predicate IsWalk(snapshots: seq<set<Key>>, limit: nat, pages: seq<Page>) {
    && limit >= 1 && |pages| == |snapshots| && |pages| >= 1
    && pages[0] == PageOf(snapshots[0], None, limit)
    && forall i :: 1 <= i < |pages| ==> Follows(snapshots, limit, pages, i)
  }

  ghost predicate Follows(snapshots: seq<set<Key>>, limit: nat, pages: seq<Page>, i: int)
    requires limit >= 1 && |pages| == |snapshots| && 1 <= i < |pages|
  {
    pages[i - 1].next.Some? && pages[i] == PageOf(snapshots[i], pages[i - 1].next, limit)
  }

  ghost predicate Finished(pages: seq<Page>) {
    pages != [] && pages[|pages| - 1].next.None?
  }

  /** The cursor with which page `i` was requested. */
  function CursorOf(pages: seq<Page>, i: nat): Option<Key>
    requires i < |pages|
  {
    if i == 0 then None else pages[i - 1].next
  }

  /** A page is sorted, within the limit, and made of eligible keys below the cursor; its own
      cursor is its last key. */
  lemma PageIsSorted(s: set<Key>, cursor: Option<Key>, limit: nat)
    requires limit >= 1
    ensures var p := PageOf(s, cursor, limit);
            && Sorted(p.keys) && |p.keys| <= limit
            && (p.next.Some? ==> |p.keys| == limit && p.next.value == p.keys[limit - 1])
  {
    DescendingIsSorted(Below(s, cursor));
  }

  lemma PageKeys(s: set<Key>, cursor: Option<Key>, limit: nat, k: Key)
    requires limit >= 1 && k in PageOf(s, cursor, limit).keys
    ensures k in s && (cursor.Some? ==> Less(k, cursor.value))
  {
    var all := Descending(Below(s, cursor));
    DescendingIsSorted(Below(s, cursor));
    assert k in Elements(all);
  }

  /** Every eligible key below the cursor is on the page, or below the page's own cursor. */
  lemma PageCovers(s: set<Key>, cursor: Option<Key>, limit: nat, k: Key)
    requires limit >= 1 && k in Below(s, cursor)
    ensures var p := PageOf(s, cursor, limit); k in p.keys || (p.next.Some? && Less(k, p.next.value))
  {
    var all := Descending(Below(s, cursor));
    DescendingIsSorted(Below(s, cursor));
    assert k in Elements(all);
    var i :| 0 <= i < |all| && all[i] == k;
    if |all| > limit && i < limit {
      assert all[..limit][i] == k;
    }
  }

  lemma PageAt(snapshots: seq<set<Key>>, limit: nat, pages: seq<Page>, i: nat)
    requires IsWalk(snapshots, limit, pages) && i < |pages|
    ensures pages[i] == PageOf(snapshots[i], CursorOf(pages, i), limit)
    ensures i > 0 ==> CursorOf(pages, i).Some?
  {
    assert i > 0 ==> Follows(snapshots, limit, pages, i);
  }

  /** Later cursors are lower. */
  lemma {:induction false} CursorsFall(snapshots: seq<set<Key>>, limit: nat, pages: seq<Page>, i: nat, j: nat, k: Key)
    requires IsWalk(snapshots, limit, pages) && i < j < |pages| && k in pages[j].keys
    ensures pages[i].next.Some? && Less(k, pages[i].next.value)
    decreases j - i
  {
    PageAt(snapshots, limit, pages, i + 1);
    if i + 1 == j {
      PageKeys(snapshots[j], CursorOf(pages, j), limit, k);
    } else {
      CursorsFall(snapshots, limit, pages, i + 1, j, k);
      PageIsSorted(snapshots[i + 1], CursorOf(pages, i + 1), limit);
      PageKeys(snapshots[i + 1], CursorOf(pages, i + 1), limit, pages[i + 1].next.value);
    }
  }

  /** Whatever is inserted, deactivated or expires during the walk, every key on a later page is
      below every key on an earlier page, and pages are sorted: nothing is returned twice. */
  lemma NothingTwice(snapshots: seq<set<Key>>, limit: nat, pages: seq<Page>, i: nat, j: nat, a: Key, b: Key)
    requires IsWalk(snapshots, limit, pages) && i < j < |pages| && a in pages[i].keys && b in pages[j].keys
    ensures Less(b, a) && Sorted(pages[i].keys) && Sorted(pages[j].keys)
  {
    PageAt(snapshots, limit, pages, i);
    PageAt(snapshots, limit, pages, j);
    PageIsSorted(snapshots[i], CursorOf(pages, i), limit);
    PageIsSorted(snapshots[j], CursorOf(pages, j), limit);
    CursorsFall(snapshots, limit, pages, i, j, b);
    var m :| 0 <= m < |pages[i].keys| && pages[i].keys[m] == a;
    assert a == pages[i].next.value || Less(pages[i].next.value, a);
  }

  lemma {:induction false} ReturnedOrBelow(snapshots: seq<set<Key>>, limit: nat, pages: seq<Page>, k: Key, i: nat)
    requires IsWalk(snapshots, limit, pages) && i < |pages|
    requires forall j :: 0 <= j < |snapshots| ==> k in snapshots[j]
    ensures (exists j :: 0 <= j < i && k in pages[j].keys) || k in Below(snapshots[i], CursorOf(pages, i))
  {
    if i > 0 {
      ReturnedOrBelow(snapshots, limit, pages, k, i - 1);
      PageAt(snapshots, limit, pages, i - 1);
      if k in Below(snapshots[i - 1], CursorOf(pages, i - 1)) {
        PageCovers(snapshots[i - 1], CursorOf(pages, i - 1), limit, k);
        PageAt(snapshots, limit, pages, i);
        assert k in pages[i - 1].keys ==> 0 <= i - 1 < i;
      }
    }
  }

  /** A finished walk has returned every key that was eligible throughout, and by
      `NothingTwice` on one page only. */
  lemma NothingMissed(snapshots: seq<set<Key>>, limit: nat, pages: seq<Page>, k: Key)
    requires IsWalk(snapshots, limit, pages) && Finished(pages)
    requires forall j :: 0 <= j < |snapshots| ==> k in snapshots[j]
    ensures exists j :: 0 <= j < |pages| && k in pages[j].keys
  {
    var last := |pages| - 1;
    ReturnedOrBelow(snapshots, limit, pages, k, last);
    PageAt(snapshots, limit, pages, last);
    if k in Below(snapshots[last], CursorOf(pages, last)) {
      PageCovers(snapshots[last], CursorOf(pages, last), limit, k);
    }
  }

  // ----- a table at rest

  function Concat(pages: seq<Page>): seq<Key> {
    if pages == [] then [] else Concat(pages[..|pages| - 1]) + pages[|pages| - 1].keys
  }

  lemma SuffixElements(all: seq<Key>, m: nat, k: Key)
    requires Sorted(all) && 1 <= m <= |all|
    ensures k in all[m..] <==> k in all && Less(k, all[m - 1])
  {
    if k in all && Less(k, all[m - 1]) {
      var i :| 0 <= i < |all| && all[i] == k;
      assert i >= m by {
        assert i < m - 1 ==> Less(all[m - 1], all[i]);
      }
      assert all[m..][i - m] == k;
    }
    if k in all[m..] {
      var i :| 0 <= i < |all[m..]| && all[m..][i] == k;
      assert all[m + i] == k;
    }
  }

  lemma BelowIsSuffix(s: set<Key>, m: nat)
    requires 1 <= m <= |Descending(s)|
    ensures Descending(Below(s, Some(Descending(s)[m - 1]))) == Descending(s)[m..]
  {
    var all := Descending(s);
    DescendingIsSorted(s);
    var low := Below(s, Some(all[m - 1]));
    DescendingIsSorted(low);
    forall k ensures k in low <==> k in Elements(all[m..]) {
      SuffixElements(all, m, k);
      assert k in s <==> k in Elements(all);
    }
    assert Elements(all[m..]) == low;
    SortedUnique(Descending(low), all[m..]);
  }

  ghost predicate AtRest(snapshots: seq<set<Key>>, s: set<Key>) {
    forall i :: 0 <= i < |snapshots| ==> snapshots[i] == s
  }

  /** How many rows `i` full pages hold. */
  function Full(i: nat, limit: nat): nat {
    if i == 0 then 0 else Full(i - 1, limit) + limit
  }

  lemma {:induction false} FullIsProduct(i: nat, limit: nat)
    ensures Full(i, limit) == i * limit
  {
    if i > 0 {
      FullIsProduct(i - 1, limit);
      OneMore(i - 1, limit);
    }
  }

  /** After `i` pages of a table at rest, the first `i * limit` keys have been returned. */
  lemma {:induction false} RestProgress(s: set<Key>, snapshots: seq<set<Key>>, limit: nat, pages: seq<Page>, i: nat)
    requires IsWalk(snapshots, limit, pages) && AtRest(snapshots, s) && i < |pages|
    ensures Full(i, limit) <= |Descending(s)| && (i > 0 ==> Full(i, limit) < |Descending(s)|)
    ensures Concat(pages[..i]) == Descending(s)[..Full(i, limit)]
    ensures Descending(Below(s, CursorOf(pages, i))) == Descending(s)[Full(i, limit)..]
    decreases i
  {
    if i == 0 {
      assert Below(s, None) == s;
    } else {
      RestProgress(s, snapshots, limit, pages, i - 1);
      PageAt(snapshots, limit, pages, i - 1);
      PageAt(snapshots, limit, pages, i);
      OneMorePage(s, Concat(pages[..i - 1]), Full(i - 1, limit), limit, pages[i - 1], CursorOf(pages, i - 1));
      assert pages[..i][..i - 1] == pages[..i - 1];
    }
  }

  /** A page that has a next one takes the walk from the first `done` keys to `limit` more. */
  lemma OneMorePage(s: set<Key>, before: seq<Key>, done: int, limit: nat, page: Page, cursor: Option<Key>)
    requires limit >= 1 && 0 <= done <= |Descending(s)| && before == Descending(s)[..done]
    requires Descending(Below(s, cursor)) == Descending(s)[done..]
    requires page == PageOf(s, cursor, limit) && page.next.Some?
    ensures done + limit < |Descending(s)|
    ensures before + page.keys == Descending(s)[..done + limit]
    ensures Descending(Below(s, page.next)) == Descending(s)[done + limit..]
  {
    var all := Descending(s);
    assert page.keys == all[done..][..limit] == all[done..done + limit];
    assert page.next == Some(all[done + limit - 1]);
    BelowIsSuffix(s, done + limit);
  }

  /** The last page holds the rest. */
  lemma LastPageAtRest(s: set<Key>, snapshots: seq<set<Key>>, limit: nat, pages: seq<Page>)
    requires IsWalk(snapshots, limit, pages) && AtRest(snapshots, s) && Finished(pages)
    ensures var last := |pages| - 1;
            && Full(last, limit) <= |Descending(s)| <= Full(last, limit) + limit
            && (last > 0 ==> Full(last, limit) < |Descending(s)|)
            && Concat(pages[..last]) == Descending(s)[..Full(last, limit)]
            && pages[last].keys == Descending(s)[Full(last, limit)..]
  {
    RestProgress(s, snapshots, limit, pages, |pages| - 1);
    PageAt(snapshots, limit, pages, |pages| - 1);
  }

  /** On a table at rest a finished walk has concatenated the whole sorted list. */
  lemma WalkConcatenates(s: set<Key>, snapshots: seq<set<Key>>, limit: nat, pages: seq<Page>)
    requires IsWalk(snapshots, limit, pages) && AtRest(snapshots, s) && Finished(pages)
    ensures Concat(pages) == Descending(s)
  {
    LastPageAtRest(s, snapshots, limit, pages);
    TakeDrop(Descending(s), Full(|pages| - 1, limit));
  }

  lemma LastPageBounds(s: set<Key>, snapshots: seq<set<Key>>, limit: nat, pages: seq<Page>)
    requires IsWalk(snapshots, limit, pages) && AtRest(snapshots, s) && Finished(pages)
    ensures Full(|pages| - 1, limit) <= |s| <= Full(|pages| - 1, limit) + limit
    ensures |pages| - 1 > 0 ==> Full(|pages| - 1, limit) < |s|
  {
    LastPageAtRest(s, snapshots, limit, pages);
    DescendingIsSorted(s);
  }

  function PageCount(rows: nat, limit: nat): nat
    requires limit >= 1
  {
    if rows == 0 then 1 else (rows + limit - 1) / limit
  }

  /** On a table at rest with `n` rows a finished walk has concatenated the whole sorted list,
      in max(1, ceil(n / limit)) pages. */
  lemma WalkAtRest(s: set<Key>, snapshots: seq<set<Key>>, limit: nat, pages: seq<Page>)
    requires IsWalk(snapshots, limit, pages) && AtRest(snapshots, s) && Finished(pages)
    ensures Concat(pages) == Descending(s)
    ensures |pages| == PageCount(|s|, limit)
  {
    WalkConcatenates(s, snapshots, limit, pages);
    LastPageBounds(s, snapshots, limit, pages);
    FullPages(|s|, limit, |pages| - 1);
  }

  /** On a table at rest every walk ends: it never has more pages than that, and is finished
      exactly when it has as many. */
  lemma WalkEnds(s: set<Key>, snapshots: seq<set<Key>>, limit: nat, pages: seq<Page>)
    requires IsWalk(snapshots, limit, pages) && AtRest(snapshots, s)
    ensures |pages| <= PageCount(|s|, limit)
    ensures Finished(pages) <==> |pages| == PageCount(|s|, limit)
  {
    WalkSoFar(s, snapshots, limit, pages);
    if Finished(pages) {
      FullPages(|s|, limit, |pages| - 1);
    } else {
      MorePages(|s|, limit, |pages| - 1);
    }
  }

  lemma WalkSoFar(s: set<Key>, snapshots: seq<set<Key>>, limit: nat, pages: seq<Page>)
    requires IsWalk(snapshots, limit, pages) && AtRest(snapshots, s)
    ensures var done := Full(|pages| - 1, limit);
            && done <= |s| && (|pages| > 1 ==> done < |s|) && (Finished(pages) <==> |s| <= done + limit)
  {
    var last := |pages| - 1;
    RestProgress(s, snapshots, limit, pages, last);
    PageAt(snapshots, limit, pages, last);
    DescendingIsSorted(s);
    PageEnds(s, CursorOf(pages, last), limit, Full(last, limit));
  }

  lemma PageEnds(s: set<Key>, cursor: Option<Key>, limit: nat, done: int)
    requires limit >= 1 && 0 <= done <= |Descending(s)|
    requires Descending(Below(s, cursor)) == Descending(s)[done..]
    ensures PageOf(s, cursor, limit).next.None? <==> |Descending(s)| <= done + limit
  {
  }

  lemma MorePages(n: nat, limit: nat, last: nat)
    requires limit >= 1 && Full(last, limit) + limit < n
    ensures last + 1 < PageCount(n, limit)
  {
    FullIsProduct(last, limit);
    TooMany(n, limit, last);
  }

  lemma TooMany(n: nat, limit: nat, last: nat)
    requires limit >= 1 && last * limit + limit < n
    ensures last + 1 < (n + limit - 1) / limit
  {
    OneMore(last, limit);
    var q, r := (n + limit - 1) / limit, (n + limit - 1) % limit;
    assert n + limit - 1 == limit * q + r;
    if q <= last + 1 {
      MulMono(q, last + 1, limit);
    }
  }

  lemma FullPages(n: nat, limit: nat, last: nat)
    requires limit >= 1 && Full(last, limit) <= n <= Full(last, limit) + limit && (last > 0 ==> Full(last, limit) < n)
    ensures last + 1 == PageCount(n, limit)
  {
    FullIsProduct(last, limit);
    Ceiling(n, limit, last);
  }

  lemma TakeDrop(keys: seq<Key>, m: int)
    requires 0 <= m <= |keys|
    ensures keys[..m] + keys[m..] == keys
  {
  }

  lemma Ceiling(n: nat, limit: nat, last: nat)
    requires limit >= 1 && last * limit <= n <= last * limit + limit && (last > 0 ==> last * limit < n)
    ensures last + 1 == if n == 0 then 1 else (n + limit - 1) / limit
  {
    if n > 0 {
      var rest := n - last * limit;
      assert n + limit - 1 == limit * (last + 1) + (rest - 1);
      DivModUnique(n + limit - 1, limit, last + 1, rest - 1);
    }
  }
}
