/** Listing all tables below a namespace (src/fdw/attach_namespace.rs:87-158). */
module Listing {
  import opened Wrappers
  import opened Ordered
  import opened Naming

  /** One response of a listing call. */
  datatype Page = Page(names: seq<string>, next: Option<string>)

  type PageCall = (TableId, Option<string>) -> Result<Page, string>

  datatype Remote = Remote(tables: PageCall, namespaces: PageCall)

  predicate Continues(p: Page) {
    p.next.Some? && p.next.value != ""
  }

  /** Following page tokens from `token` ends after at most `k` calls. */
  ghost predicate Ends(call: PageCall, ns: TableId, token: Option<string>, k: nat)
    decreases k
  {
    k > 0 && (call(ns, token).Ok? && Continues(call(ns, token).value) ==>
      Ends(call, ns, call(ns, token).value.next, k - 1))
  }

  /** All names from `token` on, or the first error. */
  ghost function Paged(call: PageCall, ns: TableId, token: Option<string>, k: nat): Result<seq<string>, string>
    requires Ends(call, ns, token, k)
    decreases k
  {
    match call(ns, token)
    case Err(e) => Err(e)
    case Ok(p) =>
      if !Continues(p) then Ok(p.names)
      else
        match Paged(call, ns, p.next, k - 1)
        case Err(e) => Err(e)
        case Ok(rest) => Ok(p.names + rest)
  }

  ghost predicate EndsEventually(call: PageCall, ns: TableId)
  {
    exists k: nat :: Ends(call, ns, None, k)
  }

  /** A number of calls that suffices to list `ns`. */
  ghost function Bound(call: PageCall, ns: TableId): (k: nat)
    requires EndsEventually(call, ns)
    ensures Ends(call, ns, None, k)
  {
    var k: nat :| Ends(call, ns, None, k);
    k
  }

  /** The server's complete answer for one namespace. */
  ghost function Listed(call: PageCall, ns: TableId): Result<seq<string>, string> {
    if EndsEventually(call, ns) then Paged(call, ns, None, Bound(call, ns)) else Err("no last page")
  }

  /** One of the two paging loops. */
  method ListPages(call: PageCall, ns: TableId) returns (r: Result<seq<string>, string>)
    requires EndsEventually(call, ns)
    ensures r == Listed(call, ns)
  {
    var names: seq<string> := [];
    var token: Option<string> := None;
    ghost var k := Bound(call, ns);
    PrependNone(Paged(call, ns, token, k));
    while true
      invariant Ends(call, ns, token, k)
      invariant Listed(call, ns) == Prepend(names, Paged(call, ns, token, k))
      decreases k
    {
      var response :- call(ns, token);
      ghost var rest := if Continues(response) then Paged(call, ns, response.next, k - 1) else Ok([]);
      PrependTwice(names, response.names, rest);
      names := names + response.names;
      if !Continues(response) {
        break;
      }
      token := response.next;
      k := k - 1;
    }
    return Ok(names);
  }

  ghost function Prepend(names: seq<string>, r: Result<seq<string>, string>): Result<seq<string>, string> {
    match r case Err(e) => Err(e) case Ok(rest) => Ok(names + rest)
  }

  lemma {:induction false} PrependNone(r: Result<seq<string>, string>)
    ensures Prepend([], r) == r
  {
    if r.Ok? {
      assert [] + r.value == r.value;
    }
  }

  lemma {:induction false} PrependTwice(a: seq<string>, b: seq<string>, r: Result<seq<string>, string>)
    ensures Prepend(a, Prepend(b, r)) == Prepend(a + b, r)
    ensures b + [] == b
  {
    if r.Ok? {
      assert a + (b + r.value) == a + b + r.value;
    }
  }

  // ----- the answer page by page -----

  /** The token with which page `i` is asked for. */
  function TokenOf(token: Option<string>, pages: seq<Page>, i: nat): Option<string>
    requires i <= |pages|
  {
    if i == 0 then token else pages[i - 1].next
  }

  /** Page `i` answers the token of the page before it. */
  ghost predicate Chained(call: PageCall, ns: TableId, token: Option<string>, pages: seq<Page>)
  {
    forall i | 0 <= i < |pages| :: call(ns, TokenOf(token, pages, i)) == Ok(pages[i])
  }

  /** All pages but the last, or all, give a token for the next one. */
  ghost predicate Continued(pages: seq<Page>, n: nat)
    requires n <= |pages|
  {
    forall i | 0 <= i < n :: pages[i].next.Some? && pages[i].next.value != ""
  }

  function AllNames(pages: seq<Page>): seq<string> {
    if pages == [] then [] else pages[0].names + AllNames(pages[1..])
  }

  /** A complete answer is a chain of pages up to one without a further token; the error of a call ends a
      chain early. */
  ghost predicate Answered(call: PageCall, ns: TableId, token: Option<string>, pages: seq<Page>,
                           r: Result<seq<string>, string>)
  {
    && Chained(call, ns, token, pages)
    && match r
       case Ok(names) =>
         && pages != [] && Continued(pages, |pages| - 1) && names == AllNames(pages)
         && (pages[|pages| - 1].next == None || pages[|pages| - 1].next == Some(""))
       case Err(e) =>
         && Continued(pages, |pages|)
         && call(ns, TokenOf(token, pages, |pages|)) == Err(e)
  }

  lemma {:induction false} PagedIsAnswered(call: PageCall, ns: TableId, token: Option<string>, k: nat)
    returns (pages: seq<Page>)
    requires Ends(call, ns, token, k)
    ensures Answered(call, ns, token, pages, Paged(call, ns, token, k))
    decreases k
  {
    match call(ns, token)
    case Err(e) => pages := [];
    case Ok(p) =>
      if !Continues(p) {
        pages := [p];
        LastPage(call, ns, token, p);
      } else {
        var rest := PagedIsAnswered(call, ns, p.next, k - 1);
        pages := [p] + rest;
        OneMorePage(call, ns, token, p, rest, Paged(call, ns, p.next, k - 1));
      }
  }

  lemma {:induction false} LastPage(call: PageCall, ns: TableId, token: Option<string>, p: Page)
    requires call(ns, token) == Ok(p) && !Continues(p)
    ensures Answered(call, ns, token, [p], Ok(p.names))
  {
    assert AllNames([]) == [] && p.names + [] == p.names;
  }

  lemma {:induction false} OneMorePage(call: PageCall, ns: TableId, token: Option<string>, p: Page, rest: seq<Page>,
                                       r: Result<seq<string>, string>)
    requires call(ns, token) == Ok(p) && Continues(p) && Answered(call, ns, p.next, rest, r)
    ensures Answered(call, ns, token, [p] + rest, Prepend(p.names, r))
  {
    var pages := [p] + rest;
    assert pages[1..] == rest;
    forall i | 0 < i <= |pages|
      ensures TokenOf(token, pages, i) == TokenOf(p.next, rest, i - 1)
    {
      assert pages[i - 1] == if i == 1 then p else rest[i - 2];
    }
    forall i | 0 <= i < |pages| ensures call(ns, TokenOf(token, pages, i)) == Ok(pages[i]) {
      assert i > 0 ==> pages[i] == rest[i - 1];
    }
  }

  /** The server's complete answer for a namespace, page by page. */
  lemma {:induction false} ListedIsAnswered(call: PageCall, ns: TableId) returns (pages: seq<Page>)
    requires EndsEventually(call, ns)
    ensures Answered(call, ns, None, pages, Listed(call, ns))
  {
    pages := PagedIsAnswered(call, ns, None, Bound(call, ns));
  }

  // ----- the namespace tree -----

  ghost function Names(call: PageCall, ns: TableId): seq<string>
  {
    if Listed(call, ns).Ok? then Listed(call, ns).value else []
  }

  /** `ns` is the root or reached from it through listed child namespaces. */
  ghost predicate Reachable(remote: Remote, root: TableId, ns: TableId)
  {
    root <= ns && forall i | |root| <= i < |ns| :: ns[i] in Names(remote.namespaces, ns[..i])
  }

  /** Both listings of every reachable namespace come to an end. */
  ghost predicate Answers(remote: Remote, root: TableId)
  {
    forall ns | Reachable(remote, root, ns) ::
      EndsEventually(remote.tables, ns) && EndsEventually(remote.namespaces, ns)
  }

  /** Both listings of `ns` succeed. */
  ghost predicate Lists(remote: Remote, ns: TableId)
  {
    Listed(remote.tables, ns).Ok? && Listed(remote.namespaces, ns).Ok?
  }

  function Children(ns: TableId, names: seq<string>): seq<TableId> {
    seq(|names|, i requires 0 <= i < |names| => ns + [names[i]])
  }

  /** The tables of the namespaces in `order`, namespace by namespace. */
  ghost function TablesOf(remote: Remote, order: seq<TableId>): seq<TableId>
    decreases |order|
  {
    if order == [] then []
    else
      var ns := order[|order| - 1];
      TablesOf(remote, order[..|order| - 1]) + Children(ns, Names(remote.tables, ns))
  }

  lemma {:induction false} ChildIsReachable(remote: Remote, root: TableId, ns: TableId, name: string)
    requires Reachable(remote, root, ns) && name in Names(remote.namespaces, ns)
    ensures Reachable(remote, root, ns + [name])
  {
    var c := ns + [name];
    forall i | |root| <= i < |c| ensures c[i] in Names(remote.namespaces, c[..i]) {
      if i < |ns| {
        assert c[..i] == ns[..i];
      } else {
        assert c[..i] == ns;
      }
    }
    assert c[..|root|] == ns[..|root|];
  }

  /** The state of the breadth-first search: what was listed, and what waits in the queue. */
  ghost predicate Searching(remote: Remote, root: TableId, done: seq<TableId>, queue: seq<TableId>)
  {
    && Distinct(done + queue)
    && root in done + queue
    && (forall ns | ns in done + queue :: Reachable(remote, root, ns))
    && (forall ns, name | ns in done && name in Names(remote.namespaces, ns) :: ns + [name] in done + queue)
  }

  /** Shallower namespaces come first, and the queue spans at most two levels. */
  ghost predicate ByLevel(done: seq<TableId>, queue: seq<TableId>)
  {
    && (forall i, j | 0 <= i < j < |done + queue| :: |(done + queue)[i]| <= |(done + queue)[j]|)
    && (forall i | 0 <= i < |queue| :: |queue[i]| <= |queue[0]| + 1)
  }

  /** Once the queue is empty, everything reachable has been listed. */
  lemma {:induction false} SearchIsComplete(remote: Remote, root: TableId, done: seq<TableId>, ns: TableId)
    requires Searching(remote, root, done, []) && Reachable(remote, root, ns)
    ensures ns in done
    decreases |ns|
  {
    assert done + [] == done;
    if |ns| == |root| {
      assert ns == root;
    } else {
      var parent, name := ns[..|ns| - 1], ns[|ns| - 1];
      assert ns == parent + [name];
      forall i | |root| <= i < |parent| ensures parent[i] in Names(remote.namespaces, parent[..i]) {
        assert parent[..i] == ns[..i] && parent[i] == ns[i];
      }
      assert parent[..|root|] == ns[..|root|];
      SearchIsComplete(remote, root, done, parent);
    }
  }

  /** `a` occurs in `names`, and no `b` occurs up to there. */
  ghost predicate NameBefore(names: seq<string>, a: string, b: string)
  {
    exists x :: 0 <= x < |names| && names[x] == a && forall y | 0 <= y <= x :: names[y] != b
  }

  ghost predicate InListedOrder(newIds: seq<TableId>, ns: TableId, names: seq<string>)
  {
    && (forall c | c in newIds :: |c| == |ns| + 1)
    && (forall i, j | 0 <= i < j < |newIds| :: NameBefore(names, newIds[i][|ns|], newIds[j][|ns|]))
  }

  /** `newIds` holds the children of `ns` that were not visited, each once. */
  ghost predicate FreshChildren(newIds: seq<TableId>, ns: TableId, names: seq<string>, visited: set<TableId>)
  {
    && Distinct(newIds)
    && (forall c | c in newIds :: c !in visited && |c| == |ns| + 1 && c[..|ns|] == ns && c[|ns|] in names)
    && (forall name | name in names :: ns + [name] in visited || ns + [name] in newIds)
  }

  /** The children that were not visited are in `newIds`, in the order of the listing, and count as visited. */
  ghost predicate Enqueued(newIds: seq<TableId>, visited: set<TableId>, ns: TableId, names: seq<string>,
                           visited0: set<TableId>)
  {
    && FreshChildren(newIds, ns, names, visited0) && InListedOrder(newIds, ns, names)
    && visited == visited0 + set c | c in newIds
  }

  lemma {:induction false} EnqueueStep(newIds: seq<TableId>, visited: set<TableId>, ns: TableId, names: seq<string>,
                                       i: nat, visited0: set<TableId>)
    requires i < |names| && Enqueued(newIds, visited, ns, names[..i], visited0)
    ensures var c := ns + [names[i]];
            if c in visited then Enqueued(newIds, visited, ns, names[..i + 1], visited0)
            else Enqueued(newIds + [c], visited + {c}, ns, names[..i + 1], visited0)
  {
    FreshStep(newIds, ns, names, i, visited0);
    ListedOrderStep(newIds, ns, names, i, visited0);
  }

  /** The loop over the child namespaces of one response. */
  method EnqueueChildren(ns: TableId, names: seq<string>, visited0: set<TableId>)
    returns (newIds: seq<TableId>, visited: set<TableId>)
    ensures Enqueued(newIds, visited, ns, names, visited0)
  {
    newIds, visited := [], visited0;
    for i := 0 to |names|
      invariant Enqueued(newIds, visited, ns, names[..i], visited0)
    {
      var childId := ns + [names[i]];
      EnqueueStep(newIds, visited, ns, names, i, visited0);
      if childId !in visited {
        visited := visited + {childId};
        newIds := newIds + [childId];
      }
    }
    assert names[..|names|] == names;
  }

  lemma {:induction false} FreshStep(newIds: seq<TableId>, ns: TableId, names: seq<string>, i: nat,
                                     visited0: set<TableId>)
    requires i < |names| && FreshChildren(newIds, ns, names[..i], visited0)
    ensures var c := ns + [names[i]];
            if c in visited0 || c in newIds then FreshChildren(newIds, ns, names[..i + 1], visited0)
            else FreshChildren(newIds + [c], ns, names[..i + 1], visited0)
  {
    assert names[..i + 1] == names[..i] + [names[i]];
  }

  lemma {:induction false} ListedOrderStep(newIds: seq<TableId>, ns: TableId, names: seq<string>, i: nat,
                                           visited0: set<TableId>)
    requires i < |names| && FreshChildren(newIds, ns, names[..i], visited0) && InListedOrder(newIds, ns, names[..i])
    ensures InListedOrder(newIds, ns, names[..i + 1])
    ensures ns + [names[i]] !in visited0 && ns + [names[i]] !in newIds ==>
              InListedOrder(newIds + [ns + [names[i]]], ns, names[..i + 1])
  {
    forall a, b | 0 <= a < b < |newIds| ensures NameBefore(names[..i + 1], newIds[a][|ns|], newIds[b][|ns|]) {
      NameBeforeMore(names, i, newIds[a][|ns|], newIds[b][|ns|]);
    }
    var c := ns + [names[i]];
    if c !in visited0 && c !in newIds {
      forall a | 0 <= a < |newIds| ensures NameBefore(names[..i + 1], newIds[a][|ns|], c[|ns|]) {
        assert newIds[a] in newIds && newIds[a][|ns|] in names[..i];
        NewNameIsLast(ns, names, i, newIds, visited0, newIds[a][|ns|]);
      }
    }
  }

  lemma {:induction false} NameBeforeMore(names: seq<string>, i: nat, a: string, b: string)
    requires i < |names| && NameBefore(names[..i], a, b)
    ensures NameBefore(names[..i + 1], a, b)
  {
    var p, q := names[..i], names[..i + 1];
    var x :| 0 <= x < |p| && p[x] == a && forall y | 0 <= y <= x :: p[y] != b;
    assert q[x] == a && forall y | 0 <= y <= x :: q[y] == p[y];
  }

  lemma {:induction false} NewNameIsLast(ns: TableId, names: seq<string>, i: nat, newIds: seq<TableId>,
                                         visited0: set<TableId>, a: string)
    requires i < |names| && FreshChildren(newIds, ns, names[..i], visited0)
    requires ns + [names[i]] !in visited0 && ns + [names[i]] !in newIds && a in names[..i]
    ensures NameBefore(names[..i + 1], a, names[i])
  {
    var p, q := names[..i], names[..i + 1];
    assert names[i] !in p;
    var x :| 0 <= x < |p| && p[x] == a;
    assert q[x] == a && forall y | 0 <= y <= x :: q[y] == p[y];
  }

  // ----- the order of the search -----

  ghost predicate IndexBefore(all: seq<TableId>, a: TableId, b: TableId)
  {
    exists i, j :: 0 <= i < j < |all| && all[i] == a && all[j] == b
  }

  /** `a` and `b` are listed in the order of their parents, or, under one parent, of the parent's listing. */
  ghost predicate Siblings(remote: Remote, all: seq<TableId>, a: TableId, b: TableId)
    requires |a| == |b| > 0
  {
    var p, q := a[..|a| - 1], b[..|b| - 1];
    IndexBefore(all, p, q) || (p == q && NameBefore(Names(remote.namespaces, p), a[|a| - 1], b[|b| - 1]))
  }

  ghost predicate InSearchOrder(remote: Remote, root: TableId, all: seq<TableId>)
  {
    forall i, j | 0 <= i < j < |all| && |all[i]| == |all[j]| > |root| :: Siblings(remote, all, all[i], all[j])
  }

  ghost predicate ParentsDone(root: TableId, done: seq<TableId>, all: seq<TableId>)
  {
    forall i | 0 <= i < |all| && |all[i]| > |root| :: all[i][..|all[i]| - 1] in done
  }

  lemma {:induction false} OrderStep(remote: Remote, root: TableId, done: seq<TableId>, queue: seq<TableId>,
                                     newIds: seq<TableId>)
    requires queue != [] && InSearchOrder(remote, root, done + queue) && ParentsDone(root, done, done + queue)
    requires forall c | c in newIds :: |c| == |queue[0]| + 1 && c[..|queue[0]|] == queue[0]
    requires InListedOrder(newIds, queue[0], Names(remote.namespaces, queue[0])) && root <= queue[0]
    ensures var nextDone, nextQueue := done + [queue[0]], queue[1..] + newIds;
            && InSearchOrder(remote, root, nextDone + nextQueue)
            && ParentsDone(root, nextDone, nextDone + nextQueue)
  {
    var before := done + queue;
    assert done + [queue[0]] + (queue[1..] + newIds) == before + newIds;
    forall i, j | 0 <= i < j < |before + newIds| && |(before + newIds)[i]| == |(before + newIds)[j]| > |root|
      ensures Siblings(remote, before + newIds, (before + newIds)[i], (before + newIds)[j])
    {
      if j < |before| {
        assert Siblings(remote, before, before[i], before[j]);
        SiblingsMore(remote, before, newIds, before[i], before[j]);
      } else if i < |before| {
        OldAndNew(remote, root, done, queue, newIds, i, j - |before|);
      } else {
        assert newIds[i - |before|] in newIds && newIds[j - |before|] in newIds;
      }
    }
    ParentsStep(root, done, queue, newIds);
  }

  lemma {:induction false} OldAndNew(remote: Remote, root: TableId, done: seq<TableId>, queue: seq<TableId>,
                                     newIds: seq<TableId>, i: nat, j: nat)
    requires queue != [] && ParentsDone(root, done, done + queue) && i < |done + queue| && j < |newIds|
    requires |newIds[j]| == |queue[0]| + 1 && newIds[j][..|queue[0]|] == queue[0]
    requires |(done + queue)[i]| == |newIds[j]| > |root|
    ensures Siblings(remote, done + queue + newIds, (done + queue)[i], newIds[j])
  {
    var all, a := done + queue + newIds, (done + queue)[i];
    var p := a[..|a| - 1];
    assert p in done;
    var k :| 0 <= k < |done| && done[k] == p;
    assert all[k] == p && all[|done|] == queue[0];
    assert IndexBefore(all, p, queue[0]);
  }

  lemma {:induction false} ParentsStep(root: TableId, done: seq<TableId>, queue: seq<TableId>, newIds: seq<TableId>)
    requires queue != [] && ParentsDone(root, done, done + queue)
    requires forall c | c in newIds :: |c| == |queue[0]| + 1 && c[..|queue[0]|] == queue[0]
    ensures ParentsDone(root, done + [queue[0]], done + queue + newIds)
  {
    var before, after := done + queue, done + queue + newIds;
    forall i | 0 <= i < |after| && |after[i]| > |root| ensures after[i][..|after[i]| - 1] in done + [queue[0]] {
      if i < |before| {
        assert after[i] == before[i] && before[i][..|before[i]| - 1] in done;
      } else {
        assert after[i] == newIds[i - |before|] && after[i] in newIds;
      }
    }
  }

  lemma {:induction false} SiblingsMore(remote: Remote, all: seq<TableId>, more: seq<TableId>, a: TableId, b: TableId)
    requires |a| == |b| > 0 && Siblings(remote, all, a, b)
    ensures Siblings(remote, all + more, a, b)
  {
    var p, q := a[..|a| - 1], b[..|b| - 1];
    if IndexBefore(all, p, q) {
      var i, j :| 0 <= i < j < |all| && all[i] == p && all[j] == q;
      assert (all + more)[i] == p && (all + more)[j] == q;
    }
  }

  lemma {:induction false} SearchStep(remote: Remote, root: TableId, done: seq<TableId>, queue: seq<TableId>,
                                      newIds: seq<TableId>)
    requires Searching(remote, root, done, queue) && queue != []
    requires FreshChildren(newIds, queue[0], Names(remote.namespaces, queue[0]), set x | x in done + queue)
    ensures Searching(remote, root, done + [queue[0]], queue[1..] + newIds)
  {
    var h, before, after := queue[0], done + queue, done + [queue[0]] + (queue[1..] + newIds);
    assert after == before + newIds;
    DistinctAppend(before, newIds);
    forall c | c in newIds ensures Reachable(remote, root, c) {
      assert c == h + [c[|h|]];
      ChildIsReachable(remote, root, h, c[|h|]);
    }
    forall ns, name | ns in done + [h] && name in Names(remote.namespaces, ns) ensures ns + [name] in after {
      if ns in done {
        assert ns + [name] in before;
      }
    }
  }

  lemma {:induction false} DistinctAppend<T>(a: seq<T>, b: seq<T>)
    requires Distinct(a) && Distinct(b) && forall x | x in b :: x !in a
    ensures Distinct(a + b)
  {
    var s := a + b;
    forall i, j | 0 <= i < j < |s| ensures s[i] != s[j] {
      if i < |a| && j >= |a| {
        assert s[j] in b && s[i] in a;
      }
    }
  }

  lemma {:induction false} HeadIsNew(done: seq<TableId>, queue: seq<TableId>)
    requires Distinct(done + queue) && queue != []
    ensures queue[0] !in done
  {
    var all := done + queue;
    assert all[|done|] == queue[0];
    forall i | 0 <= i < |done| ensures done[i] != queue[0] {
      assert all[i] == done[i];
    }
  }

  lemma {:induction false} LevelStep(done: seq<TableId>, queue: seq<TableId>, newIds: seq<TableId>)
    requires ByLevel(done, queue) && queue != []
    requires forall c | c in newIds :: |c| == |queue[0]| + 1
    ensures ByLevel(done + [queue[0]], queue[1..] + newIds)
  {
    var before, after := done + queue, done + [queue[0]] + (queue[1..] + newIds);
    assert after == before + newIds;
    forall i, j | 0 <= i < j < |after| ensures |after[i]| <= |after[j]| {
      if j >= |before| && i < |before| {
        assert |after[i]| <= |queue[0]| + 1 by {
          if i >= |done| {
            assert before[i] == queue[i - |done|];
          } else {
            assert before[i] == done[i] && before[|done|] == queue[0];
          }
        }
      }
    }
    var q := queue[1..] + newIds;
    forall i | 0 <= i < |q| ensures |q[i]| <= |q[0]| + 1 {
      if i < |queue| - 1 {
        assert q[i] == queue[i + 1];
      }
      if |queue| > 1 {
        assert before[|done|] == queue[0] && before[|done| + 1] == queue[1] == q[0];
      }
    }
  }

  /** Everything the search maintains. */
  ghost predicate Progress(remote: Remote, root: TableId, order: seq<TableId>, queue: seq<TableId>,
                           visited: set<TableId>, out: seq<TableId>)
  {
    && Searching(remote, root, order, queue) && ByLevel(order, queue)
    && InSearchOrder(remote, root, order + queue) && ParentsDone(root, order, order + queue)
    && visited == (set x | x in order + queue)
    && out == TablesOf(remote, order)
    && forall ns | ns in order :: Lists(remote, ns)
  }

  lemma {:induction false} Advance(remote: Remote, root: TableId, order: seq<TableId>, queue: seq<TableId>,
                                   visited: set<TableId>, out: seq<TableId>, newIds: seq<TableId>)
    requires Progress(remote, root, order, queue, visited, out) && queue != []
    requires Lists(remote, queue[0])
    requires FreshChildren(newIds, queue[0], Names(remote.namespaces, queue[0]), visited)
    requires InListedOrder(newIds, queue[0], Names(remote.namespaces, queue[0]))
    ensures Progress(remote, root, order + [queue[0]], queue[1..] + newIds, visited + (set c | c in newIds),
                     out + Children(queue[0], Names(remote.tables, queue[0])))
  {
    var nextOrder, nextQueue := order + [queue[0]], queue[1..] + newIds;
    assert Searching(remote, root, nextOrder, nextQueue) by {
      SearchStep(remote, root, order, queue, newIds);
    }
    assert ByLevel(nextOrder, nextQueue) by {
      LevelStep(order, queue, newIds);
    }
    assert InSearchOrder(remote, root, nextOrder + nextQueue)
           && ParentsDone(root, nextOrder, nextOrder + nextQueue) by {
      assert queue[0] in order + queue && Reachable(remote, root, queue[0]);
      OrderStep(remote, root, order, queue, newIds);
    }
  }

  /** The breadth-first listing. On success `order` enumerates the reachable namespaces, each
      once and level by level, and the result is their tables in that order; it fails exactly
      when some reachable namespace cannot be listed. */
  method ListTableIds(remote: Remote, root: TableId, ghost universe: set<TableId>)
    returns (r: Result<seq<TableId>, string>, ghost order: seq<TableId>)
    requires Answers(remote, root)
    requires forall ns | Reachable(remote, root, ns) :: ns in universe
    ensures r.Ok? ==> Distinct(order) && forall ns :: ns in order <==> Reachable(remote, root, ns)
    ensures r.Ok? ==> forall i, j | 0 <= i < j < |order| :: |order[i]| <= |order[j]|
    ensures r.Ok? ==> InSearchOrder(remote, root, order)
    ensures r.Ok? ==> r.value == TablesOf(remote, order)
    ensures r.Ok? <==> forall ns | Reachable(remote, root, ns) :: Lists(remote, ns)
  {
    var out: seq<TableId> := [];
    var queue := [root];
    var visited := {root};
    order := [];
    ghost var todo := universe;
    while queue != []
      invariant Progress(remote, root, order, queue, visited, out)
      invariant forall ns | ns in universe :: ns in order || ns in todo
      decreases todo
    {
      var nsId := queue[0];
      HeadIsNew(order, queue);
      assert nsId in order + queue && nsId in todo;
      var tables := ListPages(remote.tables, nsId);
      if tables.Err? {
        return Err(tables.error), order;
      }
      var namespaces := ListPages(remote.namespaces, nsId);
      if namespaces.Err? {
        return Err(namespaces.error), order;
      }
      ghost var seen, soFar := visited, out;
      out := out + Children(nsId, tables.value);
      var newIds;
      newIds, visited := EnqueueChildren(nsId, namespaces.value, visited);
      Advance(remote, root, order, queue, seen, soFar, newIds);
      order := order + [nsId];
      queue := queue[1..] + newIds;
      todo := todo - {nsId};
    }
    assert order + [] == order;
    forall ns | Reachable(remote, root, ns) ensures ns in order {
      SearchIsComplete(remote, root, order, ns);
    }
    r := Ok(out);
  }

  // ----- what the listing contains -----

  /** The listing holds exactly the tables of the namespaces listed. */
  lemma {:induction false} TablesOfContains(remote: Remote, order: seq<TableId>, id: TableId)
    ensures id in TablesOf(remote, order) <==>
            id != [] && Namespace(id) in order && id[|id| - 1] in Names(remote.tables, Namespace(id))
    decreases |order|
  {
    if order != [] {
      var ns := order[|order| - 1];
      TablesOfContains(remote, order[..|order| - 1], id);
      assert order == order[..|order| - 1] + [ns];
      var here := Children(ns, Names(remote.tables, ns));
      if id in here {
        var i :| 0 <= i < |here| && here[i] == id;
        assert Namespace(id) == ns;
      }
      if id != [] && Namespace(id) == ns && id[|id| - 1] in Names(remote.tables, ns) {
        var i :| 0 <= i < |here| && Names(remote.tables, ns)[i] == id[|id| - 1];
        assert here[i] == id;
      }
    }
  }

  /** The tables of namespace `j` stand in `tables` from `at` on, in the order of the answer. */
  ghost predicate TablesFrom(remote: Remote, ns: TableId, tables: seq<TableId>, at: nat)
  {
    var names := Names(remote.tables, ns);
    at + |names| <= |tables| && forall k | 0 <= k < |names| :: tables[at + k] == ns + [names[k]]
  }

  /** The listing is made of the tables of each namespace, in the order of the namespaces and of the answers;
      those of namespace `j` start at `at[j]`. */
  lemma {:induction false} TablesInOrder(remote: Remote, order: seq<TableId>) returns (at: seq<nat>)
    ensures |at| == |order| + 1 && at[0] == 0 && at[|order|] == |TablesOf(remote, order)|
    ensures forall j | 0 <= j < |order| :: at[j + 1] == at[j] + |Names(remote.tables, order[j])|
    ensures forall j | 0 <= j < |order| :: TablesFrom(remote, order[j], TablesOf(remote, order), at[j])
    decreases |order|
  {
    if order == [] {
      at := [0];
    } else {
      var front, ns := order[..|order| - 1], order[|order| - 1];
      var before := TablesInOrder(remote, front);
      at := before + [before[|front|] + |Names(remote.tables, ns)|];
      forall j | 0 <= j < |order| ensures TablesFrom(remote, order[j], TablesOf(remote, order), at[j]) {
        if j < |front| {
          assert front[j] == order[j];
          StillFrom(remote, front[j], TablesOf(remote, front), Children(ns, Names(remote.tables, ns)), before[j]);
        }
      }
      forall j | 0 <= j < |order| ensures at[j + 1] == at[j] + |Names(remote.tables, order[j])| {
        if j < |front| {
          assert front[j] == order[j];
        }
      }
    }
  }

  lemma {:induction false} StillFrom(remote: Remote, ns: TableId, tables: seq<TableId>, more: seq<TableId>, at: nat)
    requires TablesFrom(remote, ns, tables, at)
    ensures TablesFrom(remote, ns, tables + more, at)
  {
  }

  /** If no namespace lists a table twice, the listing has every table id exactly once. */
  lemma {:induction false} TablesOfDistinct(remote: Remote, order: seq<TableId>)
    requires Distinct(order)
    requires forall ns | ns in order :: Distinct(Names(remote.tables, ns))
    ensures Distinct(TablesOf(remote, order))
    decreases |order|
  {
    if order != [] {
      var ns, before := order[|order| - 1], order[..|order| - 1];
      TablesOfDistinct(remote, before);
      var here := Children(ns, Names(remote.tables, ns));
      forall i, j | 0 <= i < j < |here| ensures here[i] != here[j] {
        assert here[i][|ns|] != here[j][|ns|];
      }
      forall id | id in here ensures id !in TablesOf(remote, before) {
        TablesOfContains(remote, before, id);
        var i :| 0 <= i < |here| && here[i] == id;
        assert Namespace(id) == ns;
      }
      DistinctAppend(TablesOf(remote, before), here);
    }
  }
}
