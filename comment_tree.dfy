/**
 * `build_comment_tree` (recipes/utils.py): a flat list of comments becomes
 * the sorted list of top-level comments, with each parent's replies attached
 * and sorted by creation time, recursively from the top-level comments down.
 *
 * Python attaches a `replies` list to each parent object; here the lists live
 * in a map from a parent's id to its replies.  Ids are required to be
 * unique, as primary keys are.
 */
module CommentTree {
  import opened Wrappers

  datatype CommentRow = CommentRow(id: int, parentId: Option<int>, createdAt: int)

  // ---------------------------------------------------------------------------
  // Stable sort by created_at (`list.sort` and `sorted` with that key)
  // ---------------------------------------------------------------------------

  predicate SortedByCreated(xs: seq<CommentRow>) {
    forall i, j :: 0 <= i < j < |xs| ==> xs[i].createdAt <= xs[j].createdAt
  }

  /** `c` placed after every element whose time is not later than its own. */
  function Insert(xs: seq<CommentRow>, c: CommentRow): seq<CommentRow> {
    if xs == [] then [c]
    else if xs[|xs| - 1].createdAt <= c.createdAt then xs + [c]
    else Insert(xs[..|xs| - 1], c) + [xs[|xs| - 1]]
  }

  /** A stable sort by `createdAt`: comments with equal times keep their input order. */
  function SortByCreated(xs: seq<CommentRow>): seq<CommentRow> {
    if xs == [] then [] else Insert(SortByCreated(xs[..|xs| - 1]), xs[|xs| - 1])
  }

  /** The comments of `xs` created at time `t`, in order. */
  function AtTime(xs: seq<CommentRow>, t: int): seq<CommentRow> {
    if xs == [] then []
    else AtTime(xs[..|xs| - 1], t) + (if xs[|xs| - 1].createdAt == t then [xs[|xs| - 1]] else [])
  }

  lemma {:induction false} AtTimeAppend(a: seq<CommentRow>, b: seq<CommentRow>, t: int)
    ensures AtTime(a + b, t) == AtTime(a, t) + AtTime(b, t)
    decreases |b|
  {
    if b == [] {
      assert a + b == a;
    } else {
      var b' := b[..|b| - 1];
      assert (a + b)[..|a + b| - 1] == a + b';
      assert (a + b)[|a + b| - 1] == b[|b| - 1];
      AtTimeAppend(a, b', t);
    }
  }

  predicate NotAfter(xs: seq<CommentRow>, t: int) {
    forall i :: 0 <= i < |xs| ==> xs[i].createdAt <= t
  }

  lemma {:induction false} InsertNotAfter(xs: seq<CommentRow>, c: CommentRow, t: int)
    requires NotAfter(xs, t) && c.createdAt <= t
    ensures NotAfter(Insert(xs, c), t)
  {
    if xs != [] && xs[|xs| - 1].createdAt > c.createdAt {
      InsertNotAfter(xs[..|xs| - 1], c, t);
    }
  }

  lemma SortedAppend(xs: seq<CommentRow>, c: CommentRow)
    requires SortedByCreated(xs) && NotAfter(xs, c.createdAt)
    ensures SortedByCreated(xs + [c])
  {
  }

  lemma {:induction false} InsertSorted(xs: seq<CommentRow>, c: CommentRow)
    requires SortedByCreated(xs)
    ensures SortedByCreated(Insert(xs, c))
  {
    if xs == [] {
    } else {
      var init := xs[..|xs| - 1];
      var last := xs[|xs| - 1];
      assert NotAfter(xs, last.createdAt) by {
        assert forall i :: 0 <= i < |xs| - 1 ==> xs[i].createdAt <= xs[|xs| - 1].createdAt;
      }
      if last.createdAt <= c.createdAt {
        SortedAppend(xs, c);
      } else {
        InsertSorted(init, c);
        InsertNotAfter(init, c, last.createdAt);
        SortedAppend(Insert(init, c), last);
      }
    }
  }

  lemma {:induction false} InsertPerm(xs: seq<CommentRow>, c: CommentRow)
    ensures multiset(Insert(xs, c)) == multiset(xs) + multiset{c}
  {
    if xs != [] && xs[|xs| - 1].createdAt > c.createdAt {
      var init := xs[..|xs| - 1];
      InsertPerm(init, c);
      assert xs == init + [xs[|xs| - 1]];
    }
  }

  lemma {:induction false} InsertStable(xs: seq<CommentRow>, c: CommentRow, t: int)
    requires SortedByCreated(xs)
    ensures AtTime(Insert(xs, c), t) == AtTime(xs, t) + (if c.createdAt == t then [c] else [])
  {
    if xs == [] {
      assert AtTime([c], t) == AtTime([], t) + (if c.createdAt == t then [c] else []) by {
        assert [c][..0] == [];
      }
    } else {
      var init := xs[..|xs| - 1];
      var last := xs[|xs| - 1];
      assert xs == init + [last];
      AtTimeAppend(init, [last], t);
      assert [last][..0] == [];
      assert [c][..0] == [];
      if last.createdAt <= c.createdAt {
        AtTimeAppend(xs, [c], t);
      } else {
        InsertStable(init, c, t);
        AtTimeAppend(Insert(init, c), [last], t);
      }
    }
  }

  lemma {:induction false} SortSorted(xs: seq<CommentRow>)
    ensures SortedByCreated(SortByCreated(xs))
  {
    if xs != [] {
      SortSorted(xs[..|xs| - 1]);
      InsertSorted(SortByCreated(xs[..|xs| - 1]), xs[|xs| - 1]);
    }
  }

  lemma {:induction false} SortPerm(xs: seq<CommentRow>)
    ensures multiset(SortByCreated(xs)) == multiset(xs)
  {
    if xs != [] {
      var init := xs[..|xs| - 1];
      SortPerm(init);
      InsertPerm(SortByCreated(init), xs[|xs| - 1]);
      assert xs == init + [xs[|xs| - 1]];
    }
  }

  /** Sorting only reorders: the result is sorted and holds the same comments. */
  lemma SortSpec(xs: seq<CommentRow>)
    ensures SortedByCreated(SortByCreated(xs))
    ensures multiset(SortByCreated(xs)) == multiset(xs)
  {
    SortSorted(xs);
    SortPerm(xs);
  }

  /** Sorting is stable: the comments created at any one time keep their input order. */
  lemma {:induction false} SortStable(xs: seq<CommentRow>, t: int)
    ensures AtTime(SortByCreated(xs), t) == AtTime(xs, t)
  {
    if xs != [] {
      var init := xs[..|xs| - 1];
      SortSpec(init);
      SortStable(init, t);
      InsertStable(SortByCreated(init), xs[|xs| - 1], t);
    }
  }

  /** A sorted list is left as it is, so sorting twice is sorting once. */
  lemma {:induction false} SortKeepsSorted(xs: seq<CommentRow>)
    requires SortedByCreated(xs)
    ensures SortByCreated(xs) == xs
  {
    if xs != [] {
      var init := xs[..|xs| - 1];
      assert SortedByCreated(init);
      SortKeepsSorted(init);
    }
  }

  lemma SortIdempotent(xs: seq<CommentRow>)
    ensures SortByCreated(SortByCreated(xs)) == SortByCreated(xs)
  {
    SortSpec(xs);
    SortKeepsSorted(SortByCreated(xs));
  }

  // ---------------------------------------------------------------------------
  // Grouping
  // ---------------------------------------------------------------------------

  predicate UniqueIds(cs: seq<CommentRow>) {
    forall i, j :: 0 <= i < |cs| && 0 <= j < |cs| && cs[i].id == cs[j].id ==> i == j
  }

  function Ids(cs: seq<CommentRow>): set<int> {
    set c | c in cs :: c.id
  }

  /** The top-level comments, in input order. */
  function Tops(cs: seq<CommentRow>): seq<CommentRow> {
    if cs == [] then []
    else Tops(cs[..|cs| - 1]) + (if cs[|cs| - 1].parentId == None then [cs[|cs| - 1]] else [])
  }

  /** The comments whose parent is `p`, in input order. */
  function Children(cs: seq<CommentRow>, p: int): seq<CommentRow> {
    if cs == [] then []
    else Children(cs[..|cs| - 1], p) + (if cs[|cs| - 1].parentId == Some(p) then [cs[|cs| - 1]] else [])
  }

  /** The top-level comments are exactly the comments without a parent, each as many
      times as in the input. */
  lemma {:induction false} TopsSpec(cs: seq<CommentRow>)
    ensures forall c :: c in Tops(cs) <==> c in cs && c.parentId == None
    ensures forall c: CommentRow :: c.parentId == None ==> multiset(Tops(cs))[c] == multiset(cs)[c]
  {
    if cs != [] {
      var init := cs[..|cs| - 1];
      TopsSpec(init);
      assert cs == init + [cs[|cs| - 1]];
    }
  }

  /** The replies of `p` are exactly the comments whose parent id is `p`. */
  lemma {:induction false} ChildrenSpec(cs: seq<CommentRow>, p: int)
    ensures forall c :: c in Children(cs, p) <==> c in cs && c.parentId == Some(p)
  {
    if cs != [] {
      var init := cs[..|cs| - 1];
      ChildrenSpec(init, p);
      assert cs == init + [cs[|cs| - 1]];
    }
  }

  /** The replies map right after the grouping loop: an entry for every comment that
      has a reply in the list, holding its replies in input order. */
  ghost predicate Grouped(cs: seq<CommentRow>, replies: map<int, seq<CommentRow>>) {
    && (forall p :: p in replies <==> p in Ids(cs) && Children(cs, p) != [])
    && (forall p :: p in replies ==> replies[p] == Children(cs, p))
  }

  /** The first loop of `build_comment_tree`: top-level comments go to the tree; a reply
      whose parent is in the list goes to that parent's replies; any other is dropped. */
  method GroupComments(comments: seq<CommentRow>) returns (top: seq<CommentRow>, replies: map<int, seq<CommentRow>>)
    ensures top == Tops(comments)
    ensures Grouped(comments, replies)
  {
    var ids := set c | c in comments :: c.id;
    top := [];
    replies := map[];
    var i := 0;
    while i < |comments|
      invariant 0 <= i <= |comments|
      invariant top == Tops(comments[..i])
      invariant forall p :: p in replies <==> p in ids && Children(comments[..i], p) != []
      invariant forall p :: p in replies ==> replies[p] == Children(comments[..i], p)
    {
      var c := comments[i];
      assert comments[..i + 1][..i] == comments[..i] && comments[..i + 1][i] == c;
      if c.parentId == None {
        top := top + [c];
      } else if c.parentId.value in ids {
        var p := c.parentId.value;
        if p !in replies {
          replies := replies[p := []];
        }
        replies := replies[p := replies[p] + [c]];
      }
      i := i + 1;
    }
    assert comments[..i] == comments;
  }

  // ---------------------------------------------------------------------------
  // Ancestry
  // ---------------------------------------------------------------------------

  /** The parent id of the comment with id `k`; `None` also when there is no such comment. */
  function ParentOf(cs: seq<CommentRow>, k: int): Option<int> {
    if cs == [] then None else if cs[0].id == k then cs[0].parentId else ParentOf(cs[1..], k)
  }

  lemma {:induction false} ParentOfMember(cs: seq<CommentRow>, i: nat)
    requires UniqueIds(cs) && i < |cs|
    ensures ParentOf(cs, cs[i].id) == cs[i].parentId
  {
    if i > 0 {
      assert cs[0].id != cs[i].id;
      assert forall a, b :: 0 <= a < |cs[1..]| && 0 <= b < |cs[1..]| ==> cs[1..][a] == cs[a + 1] && cs[1..][b] == cs[b + 1];
      ParentOfMember(cs[1..], i - 1);
    }
  }

  lemma ParentOfComment(cs: seq<CommentRow>, c: CommentRow)
    requires UniqueIds(cs) && c in cs
    ensures ParentOf(cs, c.id) == c.parentId
  {
    var i :| 0 <= i < |cs| && cs[i] == c;
    ParentOfMember(cs, i);
  }

  /** `k` is `a` or lies below it, at most `n` parent links down. */
  predicate DescendsWithin(cs: seq<CommentRow>, k: int, a: int, n: nat)
    decreases n
  {
    k == a || (n > 0 && ParentOf(cs, k).Some? && DescendsWithin(cs, ParentOf(cs, k).value, a, n - 1))
  }

  ghost predicate Descends(cs: seq<CommentRow>, k: int, a: int) {
    exists n: nat :: DescendsWithin(cs, k, a, n)
  }

  /** Following parent links from `k` reaches a top-level comment of the list. */
  predicate RootedWithin(cs: seq<CommentRow>, k: int, n: nat)
    decreases n
  {
    k in Ids(cs) && (ParentOf(cs, k) == None || (n > 0 && RootedWithin(cs, ParentOf(cs, k).value, n - 1)))
  }

  ghost predicate Rooted(cs: seq<CommentRow>, k: int) {
    exists n: nat :: RootedWithin(cs, k, n)
  }

  /** Below a child of `a` is below `a`. */
  lemma {:induction false} DescendsThroughChild(cs: seq<CommentRow>, k: int, c: int, a: int, n: nat)
    requires ParentOf(cs, c) == Some(a) && DescendsWithin(cs, k, c, n)
    ensures DescendsWithin(cs, k, a, n + 1)
    decreases n
  {
    if k != c {
      DescendsThroughChild(cs, ParentOf(cs, k).value, c, a, n - 1);
    }
  }

  /** Strictly below `a` is below one of `a`'s replies. */
  lemma {:induction false} DescendsViaChild(cs: seq<CommentRow>, k: int, a: int, n: nat) returns (c: CommentRow)
    requires UniqueIds(cs) && k != a && DescendsWithin(cs, k, a, n)
    ensures c in Children(cs, a) && DescendsWithin(cs, k, c.id, n)
    decreases n
  {
    var p := ParentOf(cs, k).value;
    ChildrenSpec(cs, a);
    if p == a {
      c := CommentOf(cs, k);
    } else {
      c := DescendsViaChild(cs, p, a, n - 1);
    }
  }

  /** The comment with id `k`, which exists when `k` has a parent. */
  lemma {:induction false} CommentOf(cs: seq<CommentRow>, k: int) returns (c: CommentRow)
    requires ParentOf(cs, k).Some?
    ensures c in cs && c.id == k && c.parentId == ParentOf(cs, k)
  {
    if cs[0].id == k {
      c := cs[0];
    } else {
      c := CommentOf(cs[1..], k);
    }
  }

  /** A comment is rooted exactly when it lies below some top-level comment. */
  lemma {:induction false} RootedIffBelowTop(cs: seq<CommentRow>, k: int, n: nat) returns (t: CommentRow)
    requires UniqueIds(cs) && RootedWithin(cs, k, n)
    ensures t in cs && t.parentId == None && DescendsWithin(cs, k, t.id, n)
    decreases n
  {
    if ParentOf(cs, k) == None {
      var i :| 0 <= i < |cs| && cs[i].id == k;
      ParentOfMember(cs, i);
      t := cs[i];
    } else {
      t := RootedIffBelowTop(cs, ParentOf(cs, k).value, n - 1);
    }
  }

  lemma {:induction false} BelowTopIsRooted(cs: seq<CommentRow>, k: int, t: CommentRow, n: nat)
    requires UniqueIds(cs) && t in cs && t.parentId == None && DescendsWithin(cs, k, t.id, n)
    ensures RootedWithin(cs, k, n)
    decreases n
  {
    if k == t.id {
      ParentOfComment(cs, t);
    } else {
      var p := ParentOf(cs, k).value;
      BelowTopIsRooted(cs, p, t, n - 1);
      var c := CommentOf(cs, k);
    }
  }

  // ---------------------------------------------------------------------------
  // sort_replies
  // ---------------------------------------------------------------------------

  /** Every entry holds the replies of its key, either as grouped or sorted. */
  ghost predicate Settled(cs: seq<CommentRow>, replies: map<int, seq<CommentRow>>) {
    forall p :: p in replies ==> replies[p] == Children(cs, p) || replies[p] == SortByCreated(Children(cs, p))
  }

  /** The ids from a top-level comment down to the current one, each the parent of the next. */
  ghost predicate IsPath(cs: seq<CommentRow>, path: seq<int>) {
    && |path| >= 1
    && path[0] in Ids(cs) && ParentOf(cs, path[0]) == None
    && (forall i :: 0 < i < |path| ==> ParentOf(cs, path[i]) == Some(path[i - 1]))
    && (forall i, j :: 0 <= i < j < |path| ==> path[i] != path[j])
  }

  lemma PathExtends(cs: seq<CommentRow>, path: seq<int>, c: CommentRow)
    requires UniqueIds(cs) && IsPath(cs, path) && c in Children(cs, path[|path| - 1])
    ensures c.id in Ids(cs) && c.id !in path && IsPath(cs, path + [c.id])
  {
    var last := path[|path| - 1];
    ChildrenSpec(cs, last);
    ParentOfComment(cs, c);
    forall i | 0 <= i < |path| ensures path[i] != c.id {
      if i > 0 {
        assert ParentOf(cs, path[i]) == Some(path[i - 1]);
        assert path[i - 1] != last;
      }
    }
    var p := path + [c.id];
    assert forall i :: 0 <= i < |path| ==> p[i] == path[i];
  }

  /** Every reply list has an entry exactly for the comments that have replies. */
  ghost predicate HasEntries(cs: seq<CommentRow>, m: map<int, seq<CommentRow>>) {
    forall p :: p in m <==> p in Ids(cs) && Children(cs, p) != []
  }

  /** The entries at or below `a` are sorted. */
  ghost predicate SortedBelow(cs: seq<CommentRow>, m: map<int, seq<CommentRow>>, a: int) {
    forall p :: p in m && Descends(cs, p, a) ==> m[p] == SortByCreated(Children(cs, p))
  }

  /** Going from `m0` to `m` changed no entry outside the part below `a`. */
  ghost predicate SameOutside(cs: seq<CommentRow>, m0: map<int, seq<CommentRow>>, m: map<int, seq<CommentRow>>, a: int) {
    forall p :: p in m0 && !Descends(cs, p, a) ==> p in m && m[p] == m0[p]
  }

  /** Going from `m0` to `m` kept every sorted entry of `m0`. */
  ghost predicate KeepsSorted(cs: seq<CommentRow>, m0: map<int, seq<CommentRow>>, m: map<int, seq<CommentRow>>) {
    forall p :: p in m0 && m0[p] == SortByCreated(Children(cs, p)) ==> p in m && m[p] == m0[p]
  }

  lemma KeepsSortedBelow(cs: seq<CommentRow>, m0: map<int, seq<CommentRow>>, m: map<int, seq<CommentRow>>, a: int)
    requires m.Keys == m0.Keys && KeepsSorted(cs, m0, m) && SortedBelow(cs, m0, a)
    ensures SortedBelow(cs, m, a)
  {
  }

  /** A change confined below a reply of `a` is confined below `a`. */
  lemma SameOutsideChild(cs: seq<CommentRow>, m0: map<int, seq<CommentRow>>, m1: map<int, seq<CommentRow>>,
                         m2: map<int, seq<CommentRow>>, a: int, c: int)
    requires ParentOf(cs, c) == Some(a)
    requires m1.Keys == m0.Keys && SameOutside(cs, m0, m1, a) && SameOutside(cs, m1, m2, c)
    ensures SameOutside(cs, m0, m2, a)
  {
    forall p | p in m1 && Descends(cs, p, c) ensures Descends(cs, p, a) {
      var n: nat :| DescendsWithin(cs, p, c, n);
      DescendsThroughChild(cs, p, c, a, n);
    }
  }

  /** A comment without an entry has no replies, so nothing lies strictly below it. */
  lemma NothingBelowLeaf(cs: seq<CommentRow>, m: map<int, seq<CommentRow>>, a: int)
    requires UniqueIds(cs) && HasEntries(cs, m) && a in Ids(cs) && a !in m
    ensures SortedBelow(cs, m, a)
  {
    forall p | p in m && Descends(cs, p, a) ensures false {
      var n: nat :| DescendsWithin(cs, p, a, n);
      var c := DescendsViaChild(cs, p, a, n);
      assert c in Children(cs, a);
    }
  }

  /** When `a`'s own entry and everything below each of its replies is sorted, everything
      below `a` is. */
  lemma SortedBelowFromReplies(cs: seq<CommentRow>, m: map<int, seq<CommentRow>>, a: int, kids: seq<CommentRow>)
    requires UniqueIds(cs) && multiset(kids) == multiset(Children(cs, a))
    requires a in m && m[a] == SortByCreated(Children(cs, a))
    requires forall j :: 0 <= j < |kids| ==> SortedBelow(cs, m, kids[j].id)
    ensures SortedBelow(cs, m, a)
  {
    forall p | p in m && Descends(cs, p, a) ensures m[p] == SortByCreated(Children(cs, p)) {
      if p != a {
        var n: nat :| DescendsWithin(cs, p, a, n);
        var c := DescendsViaChild(cs, p, a, n);
        assert c in multiset(kids);
        var j :| 0 <= j < |kids| && kids[j] == c;
        assert Descends(cs, p, kids[j].id);
      }
    }
  }

  lemma PathIds(cs: seq<CommentRow>, path: seq<int>)
    requires IsPath(cs, path)
    ensures path[|path| - 1] in Ids(cs)
  {
    if |path| > 1 {
      assert ParentOf(cs, path[|path| - 1]) == Some(path[|path| - 2]);
      var c := CommentOf(cs, path[|path| - 1]);
    }
  }

  /** What holds while `sort_replies(id)` walks its sorted replies `kids`: the first
      `i` of them have been handled. */
  ghost predicate WalkingReplies(cs: seq<CommentRow>, replies: map<int, seq<CommentRow>>,
                                 m: map<int, seq<CommentRow>>, id: int, kids: seq<CommentRow>, i: int)
  {
    && 0 <= i <= |kids|
    && m.Keys == replies.Keys && HasEntries(cs, m) && Settled(cs, m)
    && id in m && m[id] == SortByCreated(Children(cs, id))
    && KeepsSorted(cs, replies, m)
    && (forall j :: 0 <= j < i ==> SortedBelow(cs, m, kids[j].id))
    && SameOutside(cs, replies, m, id)
  }

  /** Sorting `id`'s own entry starts the walk. */
  lemma StartWalk(cs: seq<CommentRow>, replies: map<int, seq<CommentRow>>, id: int)
    requires HasEntries(cs, replies) && Settled(cs, replies) && id in replies
    ensures WalkingReplies(cs, replies, replies[id := SortByCreated(replies[id])], id,
                           SortByCreated(Children(cs, id)), 0)
  {
    SortIdempotent(Children(cs, id));
    assert DescendsWithin(cs, id, id, 0);
  }

  /** Handling reply `kids[i]` moves the walk one step on. */
  lemma StepWalk(cs: seq<CommentRow>, replies: map<int, seq<CommentRow>>, m0: map<int, seq<CommentRow>>,
                 m: map<int, seq<CommentRow>>, id: int, kids: seq<CommentRow>, i: int)
    requires WalkingReplies(cs, replies, m0, id, kids, i) && i < |kids|
    requires ParentOf(cs, kids[i].id) == Some(id)
    requires m.Keys == m0.Keys && Settled(cs, m) && KeepsSorted(cs, m0, m)
    requires SortedBelow(cs, m, kids[i].id) && SameOutside(cs, m0, m, kids[i].id)
    ensures WalkingReplies(cs, replies, m, id, kids, i + 1)
  {
    forall j | 0 <= j < i ensures SortedBelow(cs, m, kids[j].id) {
      KeepsSortedBelow(cs, m0, m, kids[j].id);
    }
    SameOutsideChild(cs, replies, m0, m, id, kids[i].id);
  }

  /** The path extended by the `i`-th sorted reply of its last comment is a path, one
      id longer. */
  lemma NextKid(cs: seq<CommentRow>, path: seq<int>, id: int, kids: seq<CommentRow>, i: int)
    requires UniqueIds(cs) && IsPath(cs, path) && path[|path| - 1] == id
    requires kids == SortByCreated(Children(cs, id)) && 0 <= i < |kids|
    ensures IsPath(cs, path + [kids[i].id])
    ensures ParentOf(cs, kids[i].id) == Some(id)
    ensures Ids(cs) - (set x | x in path + [kids[i].id]) < Ids(cs) - (set x | x in path)
  {
    var c := kids[i];
    SortSpec(Children(cs, id));
    ChildrenSpec(cs, id);
    assert c in multiset(Children(cs, id));
    PathExtends(cs, path, c);
    ParentOfComment(cs, c);
    assert (set x | x in path + [c.id]) == (set x | x in path) + {c.id};
  }

  /** `sort_replies(node)` for the comment with id `id`: its replies are sorted, then
      each reply is handled in turn.  Afterwards every entry at or below `id` is sorted,
      every other entry is as it was, and entries sorted before stay sorted. */
  method SortReplies(ghost cs: seq<CommentRow>, replies: map<int, seq<CommentRow>>, id: int, ghost path: seq<int>)
    returns (sorted: map<int, seq<CommentRow>>)
    requires UniqueIds(cs) && IsPath(cs, path) && path[|path| - 1] == id
    requires HasEntries(cs, replies) && Settled(cs, replies)
    ensures sorted.Keys == replies.Keys && Settled(cs, sorted)
    ensures KeepsSorted(cs, replies, sorted)
    ensures SortedBelow(cs, sorted, id)
    ensures SameOutside(cs, replies, sorted, id)
    decreases Ids(cs) - set x | x in path
  {
    sorted := replies;
    if id !in sorted {
      PathIds(cs, path);
      NothingBelowLeaf(cs, replies, id);
      return;
    }
    StartWalk(cs, replies, id);
    sorted := sorted[id := SortByCreated(sorted[id])];
    var kids := sorted[id];
    var i := 0;
    while i < |kids|
      invariant kids == SortByCreated(Children(cs, id))
      invariant WalkingReplies(cs, replies, sorted, id, kids, i)
    {
      var c := kids[i];
      NextKid(cs, path, id, kids, i);
      ghost var before := sorted;
      sorted := SortReplies(cs, sorted, c.id, path + [c.id]);
      StepWalk(cs, replies, before, sorted, id, kids, i);
      i := i + 1;
    }
    SortPerm(Children(cs, id));
    SortedBelowFromReplies(cs, sorted, id, kids);
  }

  // ---------------------------------------------------------------------------
  // build_comment_tree
  // ---------------------------------------------------------------------------

  /** The replies of a comment reachable from a top-level comment are sorted; the
      replies of any other parent (one below an orphan) keep their input order. */
  ghost function RepliesAfterSort(cs: seq<CommentRow>, p: int): seq<CommentRow> {
    if Rooted(cs, p) then SortByCreated(Children(cs, p)) else Children(cs, p)
  }

  /** `p` lies below one of the first `i` top-level comments. */
  ghost predicate BelowFirst(cs: seq<CommentRow>, p: int, top: seq<CommentRow>, i: int) {
    exists j :: 0 <= j < i && j < |top| && Descends(cs, p, top[j].id)
  }

  /** The state after the loop over all top-level comments, stated per entry. */
  lemma RepliesFinal(cs: seq<CommentRow>, grouped: map<int, seq<CommentRow>>, m: map<int, seq<CommentRow>>, top: seq<CommentRow>)
    requires UniqueIds(cs) && top == Tops(cs) && m.Keys == grouped.Keys && Grouped(cs, grouped)
    requires forall j :: 0 <= j < |top| ==> SortedBelow(cs, m, top[j].id)
    requires forall p :: p in m && !BelowFirst(cs, p, top, |top|) ==> m[p] == grouped[p]
    ensures forall p :: p in m ==> m[p] == RepliesAfterSort(cs, p)
  {
    TopsSpec(cs);
    forall p | p in m ensures m[p] == RepliesAfterSort(cs, p) {
      if Rooted(cs, p) {
        var n: nat :| RootedWithin(cs, p, n);
        var t := RootedIffBelowTop(cs, p, n);
        assert t in top;
        var j :| 0 <= j < |top| && top[j] == t;
        assert Descends(cs, p, top[j].id);
        assert SortedBelow(cs, m, top[j].id);
      } else if BelowFirst(cs, p, top, |top|) {
        var j :| 0 <= j < |top| && Descends(cs, p, top[j].id);
        var n: nat :| DescendsWithin(cs, p, top[j].id, n);
        assert top[j] in Tops(cs);
        BelowTopIsRooted(cs, p, top[j], n);
      }
    }
  }

  /** What holds after `sort_replies` has been called on the first `i` top-level comments. */
  ghost predicate SortingTops(cs: seq<CommentRow>, grouped: map<int, seq<CommentRow>>,
                              m: map<int, seq<CommentRow>>, top: seq<CommentRow>, i: int)
  {
    && 0 <= i <= |top|
    && m.Keys == grouped.Keys && HasEntries(cs, m) && Settled(cs, m)
    && (forall j :: 0 <= j < i ==> SortedBelow(cs, m, top[j].id))
    && (forall p :: p in m && !BelowFirst(cs, p, top, i) ==> m[p] == grouped[p])
  }

  lemma StepTops(cs: seq<CommentRow>, grouped: map<int, seq<CommentRow>>, m0: map<int, seq<CommentRow>>,
                 m: map<int, seq<CommentRow>>, top: seq<CommentRow>, i: int)
    requires SortingTops(cs, grouped, m0, top, i) && i < |top|
    requires m.Keys == m0.Keys && Settled(cs, m) && KeepsSorted(cs, m0, m)
    requires SortedBelow(cs, m, top[i].id) && SameOutside(cs, m0, m, top[i].id)
    ensures SortingTops(cs, grouped, m, top, i + 1)
  {
    forall j | 0 <= j < i ensures SortedBelow(cs, m, top[j].id) {
      KeepsSortedBelow(cs, m0, m, top[j].id);
    }
    StepTopsOutside(cs, grouped, m0, m, top, i);
  }

  /** The entries outside the first `i + 1` top-level subtrees are still as grouped. */
  lemma StepTopsOutside(cs: seq<CommentRow>, grouped: map<int, seq<CommentRow>>, m0: map<int, seq<CommentRow>>,
                        m: map<int, seq<CommentRow>>, top: seq<CommentRow>, i: int)
    requires 0 <= i < |top| && m.Keys == m0.Keys && m0.Keys == grouped.Keys
    requires forall p :: p in m0 && !BelowFirst(cs, p, top, i) ==> m0[p] == grouped[p]
    requires SameOutside(cs, m0, m, top[i].id)
    ensures forall p :: p in m && !BelowFirst(cs, p, top, i + 1) ==> m[p] == grouped[p]
  {
    forall p | p in m && !BelowFirst(cs, p, top, i + 1) ensures m[p] == grouped[p] {
      assert !Descends(cs, p, top[i].id);
      assert !BelowFirst(cs, p, top, i);
      assert m[p] == m0[p];
    }
  }

  /** `build_comment_tree(comments)`: returns the sorted top-level comments and the
      final replies lists. */
  method BuildCommentTree(comments: seq<CommentRow>) returns (tree: seq<CommentRow>, replies: map<int, seq<CommentRow>>)
    requires UniqueIds(comments)
    ensures tree == SortByCreated(Tops(comments))
    ensures forall p :: p in replies <==> p in Ids(comments) && Children(comments, p) != []
    ensures forall p :: p in replies ==> replies[p] == RepliesAfterSort(comments, p)
  {
    var top;
    top, replies := GroupComments(comments);
    ghost var grouped := replies;
    TopsSpec(comments);
    var i := 0;
    while i < |top|
      invariant SortingTops(comments, grouped, replies, top, i)
    {
      var t := top[i];
      assert t in comments && t.parentId == None;
      ParentOfComment(comments, t);
      assert IsPath(comments, [t.id]);
      ghost var before := replies;
      replies := SortReplies(comments, replies, t.id, [t.id]);
      StepTops(comments, grouped, before, replies, top, i);
      i := i + 1;
    }
    tree := SortByCreated(top);
    RepliesFinal(comments, grouped, replies, top);
  }

  /** The returned list holds every top-level comment once and nothing else, sorted and
      stable; a reply appears only in the list of its own parent, so a reply whose
      parent is not in the input appears nowhere. */
  lemma TreeSpec(cs: seq<CommentRow>, c: CommentRow, p: int)
    requires UniqueIds(cs)
    ensures SortedByCreated(SortByCreated(Tops(cs)))
    ensures multiset(SortByCreated(Tops(cs))) == multiset(Tops(cs))
    ensures c in SortByCreated(Tops(cs)) <==> c in cs && c.parentId == None
    ensures c in Children(cs, p) || c in SortByCreated(Children(cs, p)) ==> c in cs && c.parentId == Some(p)
  {
    SortSpec(Tops(cs));
    TopsSpec(cs);
    SortSpec(Children(cs, p));
    ChildrenSpec(cs, p);
    assert c in SortByCreated(Tops(cs)) <==> c in multiset(SortByCreated(Tops(cs)));
    assert c in SortByCreated(Children(cs, p)) <==> c in multiset(SortByCreated(Children(cs, p)));
  }
}
