/** Paginated listing of the stored hashes, and what a client gets by following the cursor
    while objects come and go between the pages. */
module Listing {
  import opened Common

  datatype Page = Page(items: seq<string>, next: Option<string>)

  // ----- The order of hashes -----

  predicate Less(a: string, b: string)
    decreases |a|
  {
    if b == "" then false
    else if a == "" then true
    else a[0] < b[0] || (a[0] == b[0] && Less(a[1..], b[1..]))
  }

  lemma {:induction false} LessIsTransitive(a: string, b: string, c: string)
    requires Less(a, b) && Less(b, c)
    ensures Less(a, c)
    decreases |a|
  {
    if a != "" && a[0] == b[0] == c[0] {
      LessIsTransitive(a[1..], b[1..], c[1..]);
    }
  }

  lemma {:induction false} LessIsTotal(a: string, b: string)
    ensures Less(a, b) || a == b || Less(b, a)
    ensures !(Less(a, b) && Less(b, a)) && !Less(a, a)
    decreases |a|
  {
    if a != "" {
      LessIsTotal(a[1..], a[1..]);
    }
    if a != "" && b != "" && a[0] == b[0] {
      LessIsTotal(a[1..], b[1..]);
      if a[1..] == b[1..] {
        assert a == [a[0]] + a[1..] && b == [b[0]] + b[1..];
      }
    }
  }

  predicate Increasing(items: seq<string>) {
    forall i, j :: 0 <= i < j < |items| ==> Less(items[i], items[j])
  }

  // ----- One page -----

  predicate Follows(cursor: Option<string>, hash: string) {
    cursor.None? || Less(cursor.value, hash)
  }

  function Above(keys: set<string>, cursor: Option<string>): set<string> {
    set hash | hash in keys && Follows(cursor, hash)
  }

  /** The next `limit` hashes after the cursor, in order, and where to go on if there are more. */
  predicate IsPage(keys: set<string>, cursor: Option<string>, limit: nat, page: Page) {
    && Increasing(page.items)
    && (forall hash :: hash in page.items ==> hash in keys && Follows(cursor, hash))
    && (forall hash, item :: hash in keys && Follows(cursor, hash) && hash !in page.items && item in page.items ==>
          Less(item, hash))
    && |page.items| == (if |Above(keys, cursor)| < limit then |Above(keys, cursor)| else limit)
    && page.next == (if |page.items| < |Above(keys, cursor)| && page.items != []
                     then Some(page.items[|page.items| - 1]) else None)
  }

  function Elements(items: seq<string>): set<string> {
    set hash | hash in items
  }

  lemma {:induction false} CountElements(items: seq<string>)
    requires Increasing(items)
    ensures |Elements(items)| == |items|
  {
    if items != [] {
      var init, last := items[..|items| - 1], items[|items| - 1];
      CountElements(init);
      LessIsTotal(last, last);
      assert Elements(items) == Elements(init) + {last};
      assert last !in Elements(init);
    }
  }

  lemma LeastExists(keys: set<string>) returns (least: string)
    requires keys != {}
    ensures least in keys && forall other :: other in keys ==> other == least || Less(least, other)
  {
    least :| least in keys;
    var rest := keys - {least};
    while rest != {}
      invariant least in keys && rest <= keys
      invariant forall other :: other in keys && other !in rest ==> other == least || Less(least, other)
    {
      var hash :| hash in rest;
      LessIsTotal(least, hash);
      if Less(hash, least) {
        forall other | other in keys && other !in rest && other != least
          ensures Less(hash, other)
        {
          LessIsTransitive(hash, least, other);
        }
        least := hash;
      }
      rest := rest - {hash};
    }
  }

  /** The index keys in increasing order. */
  method Sorted(keys: set<string>) returns (objects: seq<string>)
    ensures Increasing(objects) && forall hash :: hash in objects <==> hash in keys
  {
    objects := [];
    var rest := keys;
    while rest != {}
      invariant Increasing(objects) && rest <= keys
      invariant forall hash :: hash in keys <==> hash in objects || hash in rest
      invariant forall hash, other :: hash in objects && other in rest ==> Less(hash, other)
    {
      ghost var _ := LeastExists(rest);
      var hash :| hash in rest && forall other :: other in rest ==> other == hash || Less(hash, other);
      objects := objects + [hash];
      rest := rest - {hash};
    }
  }

  lemma AboveIsTail(keys: set<string>, objects: seq<string>, cursor: Option<string>, start: nat)
    requires Increasing(objects) && (forall hash :: hash in objects <==> hash in keys) && start <= |objects|
    requires forall i :: 0 <= i < start ==> !Follows(cursor, objects[i])
    requires start < |objects| ==> Follows(cursor, objects[start])
    ensures Above(keys, cursor) == Elements(objects[start..])
    ensures |Above(keys, cursor)| == |objects| - start
  {
    hide Less;
    forall i | start < i < |objects|
      ensures Follows(cursor, objects[i])
    {
      if cursor.Some? {
        LessIsTransitive(cursor.value, objects[start], objects[i]);
      }
    }
    CountElements(objects[start..]);
  }

  lemma BeyondCut(objects: seq<string>, start: nat, end: nat, hash: string) returns (i: nat)
    requires start <= end <= |objects| && hash in objects[start..] && hash !in objects[start..end]
    ensures end <= i < |objects| && objects[i] == hash
  {
    var k :| 0 <= k < |objects[start..]| && objects[start..][k] == hash;
    i := start + k;
    assert forall j :: start <= j < end ==> objects[j] == objects[start..end][j - start];
  }

  lemma AboveMeans(keys: set<string>, cursor: Option<string>)
    ensures forall hash :: hash in Above(keys, cursor) <==> hash in keys && Follows(cursor, hash)
  {
  }

  lemma TailElements(objects: seq<string>, start: nat)
    requires start <= |objects|
    ensures forall hash :: hash in Elements(objects[start..]) <==> hash in objects[start..]
  {
  }

  /** The tail of the sorted keys from the cursor on, cut at the limit, is the page. */
  lemma CutIsPage(keys: set<string>, objects: seq<string>, cursor: Option<string>, start: nat, end: nat, limit: nat)
    requires Increasing(objects) && (forall hash :: hash in objects <==> hash in keys)
    requires start <= end <= |objects| && end == (if start + limit < |objects| then start + limit else |objects|)
    requires Above(keys, cursor) == Elements(objects[start..]) && |Above(keys, cursor)| == |objects| - start
    ensures IsPage(keys, cursor, limit,
                   Page(objects[start..end], if end < |objects| && start < end then Some(objects[end - 1]) else None))
  {
    hide Less, Above, Elements, Follows, Increasing;
    var items := objects[start..end];
    AboveMeans(keys, cursor);
    TailElements(objects, start);
    SliceIncreases(objects, start, end);
    forall hash | hash in items
      ensures hash in keys && Follows(cursor, hash)
    {
      assert hash in objects[start..];
    }
    forall hash, item | hash in keys && Follows(cursor, hash) && hash !in items && item in items
      ensures Less(item, hash)
    {
      ItemBeforeRest(objects, start, end, item, hash);
    }
  }

  lemma SliceIncreases(objects: seq<string>, start: nat, end: nat)
    requires Increasing(objects) && start <= end <= |objects|
    ensures Increasing(objects[start..end])
  {
    hide Less;
  }

  lemma ItemBeforeRest(objects: seq<string>, start: nat, end: nat, item: string, hash: string)
    requires Increasing(objects) && start <= end <= |objects|
    requires item in objects[start..end] && hash in objects[start..] && hash !in objects[start..end]
    ensures Less(item, hash)
  {
    hide Less;
    var i := BeyondCut(objects, start, end, hash);
    var j :| 0 <= j < |objects[start..end]| && objects[start..end][j] == item;
    assert objects[start + j] == item;
  }

  method ListObjects(keys: set<string>, cursor: Option<string>, limit: nat) returns (page: Page)
    ensures IsPage(keys, cursor, limit, page)
  {
    hide Less, Increasing, Above, Elements, IsPage;
    var objects := Sorted(keys);
    var start := 0;
    while start < |objects| && !Follows(cursor, objects[start])
      invariant start <= |objects|
      invariant forall i :: 0 <= i < start ==> !Follows(cursor, objects[i])
    {
      start := start + 1;
    }
    AboveIsTail(keys, objects, cursor, start);
    var end := if start + limit < |objects| then start + limit else |objects|;
    CutIsPage(keys, objects, cursor, start, end, limit);
    page := Page(objects[start..end], if end < |objects| && start < end then Some(objects[end - 1]) else None);
  }

  // ----- Following the cursor -----

  /** One request of a client: the index at that moment, the cursor it sent, and the answer. */
  datatype Request = Request(index: set<string>, cursor: Option<string>, page: Page)

  /** Every request is answered by a page. */
  predicate Answered(limit: nat, walk: seq<Request>) {
    forall i :: 0 <= i < |walk| ==> IsPage(walk[i].index, walk[i].cursor, limit, walk[i].page)
  }

  /** Every request has the cursor of the one before. */
  predicate Linked(walk: seq<Request>) {
    forall i, j :: 0 <= i && j == i + 1 < |walk| ==> walk[i].page.next.Some? && walk[j].cursor == walk[i].page.next
  }

  /** Pages read one after the other, each with the cursor of the one before; all but the
      last one led on. */
  predicate Walk(limit: nat, walk: seq<Request>) {
    && limit > 0
    && Answered(limit, walk)
    && (walk != [] ==> walk[0].cursor.None?)
    && Linked(walk)
  }

  lemma LinkedGoesOn(walk: seq<Request>, r: Request)
    requires Linked(walk)
    requires walk != [] ==> walk[|walk| - 1].page.next.Some? && r.cursor == walk[|walk| - 1].page.next
    ensures Linked(walk + [r])
  {
  }

  lemma AnsweredGoesOn(limit: nat, walk: seq<Request>, r: Request)
    requires Answered(limit, walk) && IsPage(r.index, r.cursor, limit, r.page)
    ensures Answered(limit, walk + [r])
  {
    hide IsPage;
  }

  /** Whatever happened to the index, a walk goes on with any page for the cursor of its last one,
      and begins with any page without a cursor. */
  lemma WalkGoesOn(limit: nat, walk: seq<Request>, r: Request)
    requires limit > 0 && Walk(limit, walk) && IsPage(r.index, r.cursor, limit, r.page)
    requires if walk == [] then r.cursor.None?
             else walk[|walk| - 1].page.next.Some? && r.cursor == walk[|walk| - 1].page.next
    ensures Walk(limit, walk + [r])
  {
    hide IsPage, Linked, Answered;
    LinkedGoesOn(walk, r);
    AnsweredGoesOn(limit, walk, r);
  }

  predicate Ended(walk: seq<Request>) {
    walk != [] && walk[|walk| - 1].page.next.None?
  }

  lemma PageEndsAtItsCursor(keys: set<string>, cursor: Option<string>, limit: nat, page: Page, hash: string)
    requires IsPage(keys, cursor, limit, page) && hash in page.items && page.next.Some?
    ensures hash == page.next.value || Less(hash, page.next.value)
  {
    hide Less;
    var i :| 0 <= i < |page.items| && page.items[i] == hash;
  }

  lemma CursorIsOnPage(keys: set<string>, cursor: Option<string>, limit: nat, page: Page)
    requires IsPage(keys, cursor, limit, page) && page.next.Some?
    ensures page.next.value in page.items && Follows(cursor, page.next.value)
  {
    assert page.items[|page.items| - 1] in page.items;
  }

  /** Whatever is on a later page comes after the cursor of an earlier one. */
  lemma {:induction false} LaterPagesFollow(limit: nat, walk: seq<Request>, i: nat, j: nat, hash: string)
    requires Walk(limit, walk) && i < j < |walk| && hash in walk[j].page.items
    ensures walk[i].page.next.Some? && Less(walk[i].page.next.value, hash)
    decreases j - i
  {
    hide Less;
    var here, next := walk[i], walk[i + 1];
    assert next.cursor == here.page.next;
    if i < j - 1 {
      LaterPagesFollow(limit, walk, i + 1, j, hash);
      CursorIsOnPage(next.index, next.cursor, limit, next.page);
      LessIsTransitive(here.page.next.value, next.page.next.value, hash);
    }
  }

  /** However the index changes between the pages, no hash comes twice or out of order. */
  lemma PagesStrictlyIncrease(limit: nat, walk: seq<Request>, i: nat, j: nat, a: string, b: string)
    requires Walk(limit, walk) && i < j < |walk| && a in walk[i].page.items && b in walk[j].page.items
    ensures Less(a, b)
  {
    LaterPagesFollow(limit, walk, i, j, b);
    var cursor := walk[i].page.next.value;
    PageEndsAtItsCursor(walk[i].index, walk[i].cursor, limit, walk[i].page, a);
    if a != cursor {
      LessIsTransitive(a, cursor, b);
    }
  }

  /** A full look at the rest leaves nothing out. */
  lemma LastPageIsComplete(keys: set<string>, cursor: Option<string>, limit: nat, page: Page, hash: string)
    requires IsPage(keys, cursor, limit, page) && limit > 0 && page.next.None?
    requires hash in keys && Follows(cursor, hash)
    ensures hash in page.items
  {
    hide Less;
    CountElements(page.items);
    FullSubset(Elements(page.items), Above(keys, cursor));
    assert hash in Above(keys, cursor);
  }

  lemma FullSubset(a: set<string>, b: set<string>)
    requires a <= b && |a| >= |b|
    ensures a == b
  {
    assert b == a + (b - a);
    assert |b - a| == 0;
  }

  lemma PassedOver(keys: set<string>, cursor: Option<string>, limit: nat, page: Page, hash: string)
    requires IsPage(keys, cursor, limit, page) && hash in keys && Follows(cursor, hash) && hash !in page.items
    ensures Follows(page.next, hash)
  {
    if page.next.Some? {
      CursorIsOnPage(keys, cursor, limit, page);
    }
  }

  lemma {:induction false} NotYetListed(limit: nat, walk: seq<Request>, n: nat, hash: string)
    requires Walk(limit, walk) && n < |walk|
    requires forall i :: 0 <= i < n ==> hash in walk[i].index && hash !in walk[i].page.items
    ensures Follows(walk[n].cursor, hash)
  {
    hide Less, IsPage;
    if n > 0 {
      NotYetListed(limit, walk, n - 1, hash);
      var before := walk[n - 1];
      PassedOver(before.index, before.cursor, limit, before.page, hash);
    }
  }

  /** A hash that stays in the index while a client reads to the end is on one of its pages. */
  lemma NothingIsMissed(limit: nat, walk: seq<Request>, hash: string)
    requires Walk(limit, walk) && Ended(walk)
    requires forall i :: 0 <= i < |walk| ==> hash in walk[i].index
    ensures exists i :: 0 <= i < |walk| && hash in walk[i].page.items
  {
    var n := |walk| - 1;
    if forall i :: 0 <= i < n ==> hash !in walk[i].page.items {
      NotYetListed(limit, walk, n, hash);
      LastPageIsComplete(walk[n].index, walk[n].cursor, limit, walk[n].page, hash);
    }
  }

  // ----- An index that does not change -----

  /** One page for each started `limit` of hashes, and one if there is none. */
  function PagesFor(n: nat, limit: nat): (pages: nat)
    requires limit > 0
    ensures pages == if n == 0 then 1 else (n + limit - 1) / limit
  {
    if n <= limit then
      OnePage(n, limit);
      1
    else
      OnePageMore(n, limit);
      1 + PagesFor(n - limit, limit)
  }

  lemma Multiple(b: nat, q: int)
    requires q > 0
    ensures b * q >= b
  {
  }

  lemma Quotient(a: nat, b: nat, q: nat, r: nat)
    requires r < b && a == b * q + r
    ensures a / b == q
  {
    var q' := a / b;
    var r' := a - b * q';
    assert 0 <= r' < b;
    assert b * (q' - q) == b * q' - b * q;
    assert b * (q - q') == b * q - b * q';
    if q' > q {
      Multiple(b, q' - q);
    } else if q' < q {
      Multiple(b, q - q');
    }
  }

  lemma OnePage(n: nat, limit: nat)
    requires 0 < limit && n <= limit
    ensures n > 0 ==> (n + limit - 1) / limit == 1
  {
    if n > 0 {
      Quotient(n + limit - 1, limit, 1, n - 1);
    }
  }

  lemma OnePageMore(n: nat, limit: nat)
    requires 0 < limit < n
    ensures (n + limit - 1) / limit == 1 + (n - limit + limit - 1) / limit
  {
    var q, r := (n - 1) / limit, (n - 1) % limit;
    assert limit * (q + 1) == limit * q + limit;
    Quotient(n + limit - 1, limit, q + 1, r);
  }

  lemma AboveNext(keys: set<string>, cursor: Option<string>, limit: nat, page: Page)
    requires IsPage(keys, cursor, limit, page) && page.next.Some?
    ensures Above(keys, page.next) == Above(keys, cursor) - Elements(page.items)
    ensures |Above(keys, page.next)| == |Above(keys, cursor)| - limit && |page.items| == limit
  {
    CountElements(page.items);
    var last := page.items[|page.items| - 1];
    forall hash | hash in Above(keys, cursor)
      ensures Less(last, hash) <==> hash !in page.items
    {
      assert last in page.items;
      LessIsTotal(hash, last);
      if hash in page.items {
        PageEndsAtItsCursor(keys, cursor, limit, page, hash);
      }
    }
    forall hash | Less(last, hash) && hash in keys
      ensures Follows(cursor, hash)
    {
      if cursor.Some? {
        assert last in page.items;
        LessIsTransitive(cursor.value, last, hash);
      }
    }
    assert Above(keys, page.next) == Above(keys, cursor) - Elements(page.items);
    assert Elements(page.items) <= Above(keys, cursor);
  }

  /** From any page on, the rest of the walk has as many pages as the rest of the hashes needs,
      or fewer if it has not ended. */
  lemma {:induction false} PagesLeft(keys: set<string>, limit: nat, walk: seq<Request>, n: nat)
    requires Walk(limit, walk) && n < |walk|
    requires forall i :: 0 <= i < |walk| ==> walk[i].index == keys
    ensures var pages := PagesFor(|Above(keys, walk[n].cursor)|, limit);
            if Ended(walk) then |walk| - n == pages else |walk| - n < pages
    decreases |walk| - n
  {
    hide IsPage, Above, Less;
    var here := walk[n];
    if n < |walk| - 1 {
      assert walk[n + 1].cursor == here.page.next;
      AboveNext(keys, here.cursor, limit, here.page);
      MoreThanOnePage(keys, here.cursor, limit, here.page);
      PagesLeft(keys, limit, walk, n + 1);
    } else if here.page.next.None? {
      LastPageFits(keys, here.cursor, limit, here.page);
    } else {
      MoreThanOnePage(keys, here.cursor, limit, here.page);
      AtLeastOnePage(|Above(keys, here.cursor)| - limit, limit);
    }
  }

  lemma AtLeastOnePage(n: nat, limit: nat)
    requires limit > 0
    ensures PagesFor(n, limit) >= 1
  {
    if n > limit {
      AtLeastOnePage(n - limit, limit);
    }
  }

  lemma MoreThanOnePage(keys: set<string>, cursor: Option<string>, limit: nat, page: Page)
    requires IsPage(keys, cursor, limit, page) && page.next.Some?
    ensures |Above(keys, cursor)| > limit
  {
  }

  lemma LastPageFits(keys: set<string>, cursor: Option<string>, limit: nat, page: Page)
    requires IsPage(keys, cursor, limit, page) && page.next.None? && limit > 0
    ensures |Above(keys, cursor)| <= limit
  {
  }

  /** On an index that does not change, a client is through after one page for each started
      `limit` of hashes, and after one page if there is none: no walk is longer, and those of
      that length have ended. */
  lemma PageCount(keys: set<string>, limit: nat, walk: seq<Request>)
    requires Walk(limit, walk) && forall i :: 0 <= i < |walk| ==> walk[i].index == keys
    ensures var pages := if |keys| == 0 then 1 else (|keys| + limit - 1) / limit;
            |walk| <= pages && (Ended(walk) <==> |walk| == pages)
  {
    hide IsPage;
    AtLeastOnePage(|keys|, limit);
    if walk != [] {
      PagesLeft(keys, limit, walk, 0);
      assert Above(keys, None) == keys;
    }
  }
}
