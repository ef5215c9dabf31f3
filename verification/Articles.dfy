/** Root articles of news categories: found last, inserted, relinked in one transaction. */
module Articles {
  import opened Bytes

  datatype Article = Article(
    category: i32,
    parent: Option<i32>,
    prev: Option<i32>,
    next: Option<i32>,
    content: bytes)

  type Rows = map<i32, Article>

  // ------------------------------------------------------------------- queries

  function RootIds(rows: Rows, category: i32): set<i32> {
    set id | id in rows && rows[id].category == category && rows[id].parent.None?
  }

  lemma {:induction false} GreatestExists(s: set<i32>) returns (m: i32)
    requires s != {}
    ensures m in s && forall x <- s :: x <= m
    decreases |s|
  {
    var a :| a in s;
    if s == {a} {
      m := a;
    } else {
      var rest := s - {a};
      assert rest != {};
      var b := GreatestExists(rest);
      m := if a <= b then b else a;
      assert forall x <- s :: x == a || x in rest;
    }
  }

  function Greatest(s: set<i32>): (m: i32)
    requires s != {}
    ensures m in s && forall x <- s :: x <= m
  {
    assert exists m :: m in s && forall x <- s :: x <= m by {
      var m := GreatestExists(s);
    }
    var m :| m in s && forall x <- s :: x <= m;
    m
  }

  /** The root article of a category with the highest id. */
  function LastRoot(rows: Rows, category: i32): Option<i32> {
    if RootIds(rows, category) == {} then None else Some(Greatest(RootIds(rows, category)))
  }

  /** It is an article of the category without a parent, and none such has a higher id. */
  lemma LastRootIs(rows: Rows, category: i32)
    ensures match LastRoot(rows, category)
            case Some(m) =>
              m in rows && rows[m].category == category && rows[m].parent == None
              && forall id :: id in rows && rows[id].category == category && rows[id].parent == None ==> id <= m
            case None =>
              forall id :: id in rows && rows[id].category == category ==> rows[id].parent != None
  {
    forall id | id in rows && rows[id].category == category && rows[id].parent == None
      ensures id in RootIds(rows, category)
    {
    }
  }

  // ------------------------------------------------------------------ creation

  function Created(rows: Rows, category: i32, newId: i32, content: bytes): Rows {
    var last := LastRoot(rows, category);
    var inserted := rows[newId := Article(category, None, last, None, content)];
    if last.Some? && last.value in inserted
    then inserted[last.value := inserted[last.value].(next := Some(newId))]
    else inserted
  }

  class ArticleStore {
    var rows: Rows

    constructor ()
      ensures rows == map[]
    {
      rows := map[];
    }

    /** One database transaction; `category` is what the path lookup came to and `newId` the id
        the database hands out, above every id in use. */
    method CreateRootArticle(category: Option<i32>, newId: i32, content: bytes)
      returns (r: Result<i32, ()>)
      requires forall id :: id in rows ==> id < newId
      modifies this
      ensures if category.None? then r == Err(()) && rows == old(rows)
              else r == Ok(newId) && rows == Created(old(rows), category.value, newId, content)
    {
      if category.None? {
        return Err(());
      }
      var last := LastRoot(rows, category.value);
      rows := rows[newId := Article(category.value, None, last, None, content)];
      if last.Some? {
        LinkPrevToNew(last.value, newId);
      }
      return Ok(newId);
    }

    method LinkPrevToNew(prev: i32, newId: i32)
      modifies this
      ensures rows == if prev in old(rows) then old(rows)[prev := old(rows)[prev].(next := Some(newId))]
                      else old(rows)
    {
      if prev in rows {
        rows := rows[prev := rows[prev].(next := Some(newId))];
      }
    }
  }

  // --------------------------------------------------------------------- chains

  predicate StrictlyAscending(ids: seq<i32>) {
    forall i, j :: 0 <= i < j < |ids| ==> ids[i] < ids[j]
  }

  function Neighbour(ids: seq<i32>, i: int): Option<i32> {
    if 0 <= i < |ids| then Some(ids[i]) else None
  }

  /** Entry `i` of `ids` is a root linked to its neighbours in `ids`, if it has them. */
  predicate Linked(rows: Rows, category: i32, ids: seq<i32>, i: nat)
    requires i < |ids|
  {
    ids[i] in rows && rows[ids[i]].category == category && rows[ids[i]].parent.None?
    && rows[ids[i]].prev == Neighbour(ids, i - 1)
    && rows[ids[i]].next == Neighbour(ids, i + 1)
  }

  /** The roots of a category are exactly `ids`, each linked to its neighbours and to nothing
      else; `ids` ascends, so the chain has no cycle. */
  ghost predicate Chain(rows: Rows, category: i32, ids: seq<i32>) {
    StrictlyAscending(ids)
    && (forall id <- RootIds(rows, category) :: id in ids)
    && (forall i: nat :: i < |ids| ==> Linked(rows, category, ids, i))
  }

  datatype Post = Post(category: Option<i32>, newId: i32, content: bytes)

  function Posted(rows: Rows, p: Post): Rows {
    if p.category.None? then rows else Created(rows, p.category.value, p.newId, p.content)
  }

  /** Ids the database may hand out: each above all that were handed out before. */
  predicate FreshIds(posts: seq<Post>) {
    forall i, j :: 0 <= i < j < |posts| ==> posts[i].newId < posts[j].newId
  }

  function AllPosted(posts: seq<Post>): Rows {
    if posts == [] then map[] else Posted(AllPosted(posts[..|posts| - 1]), posts[|posts| - 1])
  }

  /** The ids posted to a category, in posting order. */
  function PostedTo(posts: seq<Post>, category: i32): seq<i32> {
    if posts == [] then []
    else
      var last := posts[|posts| - 1];
      PostedTo(posts[..|posts| - 1], category)
      + (if last.category == Some(category) then [last.newId] else [])
  }

  lemma LastOfChain(rows: Rows, category: i32, ids: seq<i32>)
    requires Chain(rows, category, ids)
    ensures LastRoot(rows, category) == if ids == [] then None else Some(ids[|ids| - 1])
  {
    var roots := RootIds(rows, category);
    if ids == [] {
      assert roots == {} by {
        assert forall id <- roots :: id in ids;
      }
    } else {
      assert Linked(rows, category, ids, |ids| - 1);
      assert ids[|ids| - 1] in roots;
      var g := Greatest(roots);
      assert g in ids;
      var i :| 0 <= i < |ids| && ids[i] == g;
    }
  }

  lemma CreatedRoots(rows: Rows, category: i32, newId: i32, content: bytes)
    requires newId !in rows
    ensures RootIds(Created(rows, category, newId, content), category) == RootIds(rows, category) + {newId}
  {
    hide LastRoot;
  }

  /** Posting extends the chain of its own category by one at the end. */
  lemma PostExtends(rows: Rows, category: i32, ids: seq<i32>, newId: i32, content: bytes)
    requires Chain(rows, category, ids) && forall id :: id in rows ==> id < newId
    ensures Chain(Created(rows, category, newId, content), category, ids + [newId])
  {
    hide LastRoot;
    LastOfChain(rows, category, ids);
    CreatedRoots(rows, category, newId, content);
    var rows' := Created(rows, category, newId, content);
    var ids' := ids + [newId];
    var n := |ids|;
    forall i: nat | i < |ids'| ensures Linked(rows', category, ids', i) {
      if i < n {
        assert Linked(rows, category, ids, i) && ids'[i] == ids[i];
        assert Neighbour(ids', i - 1) == Neighbour(ids, i - 1);
        if i < n - 1 {
          assert ids[i] < ids[n - 1];
          assert Neighbour(ids', i + 1) == Neighbour(ids, i + 1);
          assert rows'[ids[i]] == rows[ids[i]];
        } else {
          assert rows'[ids[i]] == rows[ids[i]].(next := Some(newId));
        }
      } else {
        assert n > 0 ==> Linked(rows, category, ids, n - 1);
        assert rows'[newId] == Article(category, None, Neighbour(ids, n - 1), None, content);
      }
    }
    forall i, j | 0 <= i < j < |ids'| ensures ids'[i] < ids'[j] {
      if j == n {
        assert Linked(rows, category, ids, i);
      }
    }
  }

  /** Posting leaves every row of every other category, roots or not, as it was. */
  lemma PostLeavesOthers(rows: Rows, category: i32, other: i32, newId: i32, content: bytes)
    requires other != category && newId !in rows
    ensures var rows' := Created(rows, category, newId, content);
            RootIds(rows', other) == RootIds(rows, other)
            && (forall id :: id in rows && rows[id].category == other ==> id in rows' && rows'[id] == rows[id])
            && rows'.Keys == rows.Keys + {newId}
  {
    var last := LastRoot(rows, category);
    if last.Some? {
      assert last.value in RootIds(rows, category);
    }
  }

  /** A post stores its own content and keeps every old row as it was, but for the `next` link of
      the root before it. */
  lemma PostStores(rows: Rows, category: i32, newId: i32, content: bytes)
    requires newId !in rows
    ensures var rows' := Created(rows, category, newId, content);
            rows'.Keys == rows.Keys + {newId}
            && rows'[newId].content == content && rows'[newId].category == category
            && rows'[newId].parent == None
            && forall id :: id in rows ==>
                 rows'[id] == if LastRoot(rows, category) == Some(id) then rows[id].(next := Some(newId))
                              else rows[id]
  {
    var last := LastRoot(rows, category);
    if last.Some? {
      assert last.value in RootIds(rows, category);
    }
  }

  lemma ChainKept(rows: Rows, category: i32, other: i32, ids: seq<i32>, newId: i32, content: bytes)
    requires Chain(rows, other, ids) && other != category && newId !in rows
    ensures Chain(Created(rows, category, newId, content), other, ids)
  {
    hide LastRoot, Created;
    PostLeavesOthers(rows, category, other, newId, content);
    var rows' := Created(rows, category, newId, content);
    forall i: nat | i < |ids| ensures Linked(rows', other, ids, i) {
      assert Linked(rows, other, ids, i);
    }
  }

  lemma CreatedKeys(rows: Rows, category: i32, newId: i32, content: bytes)
    ensures Created(rows, category, newId, content).Keys == rows.Keys + {newId}
  {
  }

  lemma {:induction false} IdsPosted(posts: seq<Post>, bound: i32)
    requires FreshIds(posts) && forall i :: 0 <= i < |posts| ==> posts[i].newId < bound
    ensures forall id :: id in AllPosted(posts) ==> id < bound
    decreases |posts|
  {
    hide Created;
    if posts != [] {
      var before := posts[..|posts| - 1];
      var p := posts[|posts| - 1];
      IdsPosted(before, bound);
      if p.category.Some? {
        CreatedKeys(AllPosted(before), p.category.value, p.newId, p.content);
      }
    }
  }

  /** After any sequence of posts, the roots of each category form one chain in posting order. */
  lemma {:induction false} RootsFormChains(posts: seq<Post>, category: i32)
    requires FreshIds(posts)
    ensures Chain(AllPosted(posts), category, PostedTo(posts, category))
    decreases |posts|
  {
    hide Created;
    if posts != [] {
      var before := posts[..|posts| - 1];
      var p := posts[|posts| - 1];
      RootsFormChains(before, category);
      IdsPosted(before, p.newId);
      if p.category == Some(category) {
        PostExtends(AllPosted(before), category, PostedTo(before, category), p.newId, p.content);
      } else {
        assert PostedTo(posts, category) == PostedTo(before, category);
        if p.category.Some? {
          ChainKept(AllPosted(before), p.category.value, category, PostedTo(before, category), p.newId, p.content);
        }
      }
    }
  }

  /** Whatever is posted later, an article keeps its content. */
  lemma {:induction false} ContentKept(posts: seq<Post>, i: nat)
    requires FreshIds(posts) && i < |posts| && posts[i].category.Some?
    ensures posts[i].newId in AllPosted(posts)
    ensures AllPosted(posts)[posts[i].newId].content == posts[i].content
    decreases |posts|
  {
    hide Created, LastRoot;
    var before := posts[..|posts| - 1];
    var p := posts[|posts| - 1];
    IdsPosted(before, p.newId);
    if p.category.Some? {
      PostStores(AllPosted(before), p.category.value, p.newId, p.content);
    }
    if i < |before| {
      assert before[i] == posts[i];
      ContentKept(before, i);
    }
  }

  /** In a chain the two links are inverse: one article is the next of another exactly when that
      other is its previous. */
  lemma LinksInverse(rows: Rows, category: i32, ids: seq<i32>, a: i32, b: i32)
    requires Chain(rows, category, ids) && a in RootIds(rows, category) && b in RootIds(rows, category)
    ensures rows[a].next == Some(b) <==> rows[b].prev == Some(a)
    ensures rows[a].next == Some(b) ==> a < b
  {
    assert a in ids && b in ids;
    var i: nat :| i < |ids| && ids[i] == a;
    var j: nat :| j < |ids| && ids[j] == b;
    assert Linked(rows, category, ids, i) && Linked(rows, category, ids, j);
    if rows[a].next == Some(b) {
      assert ids[i + 1] == b;
      assert j == i + 1;
    }
    if rows[b].prev == Some(a) {
      assert ids[j - 1] == a;
      assert i == j - 1;
    }
  }

  /** Following `next` from an article. */
  function Walk(rows: Rows, from: Option<i32>, fuel: nat): seq<i32>
    decreases fuel
  {
    if fuel == 0 || from.None? || from.value !in rows then []
    else [from.value] + Walk(rows, rows[from.value].next, fuel - 1)
  }

  /** Walking a chain from its first article visits every root once, in order, and then stops. */
  lemma {:induction false} WalkVisitsAll(rows: Rows, category: i32, ids: seq<i32>, i: nat, fuel: nat)
    requires Chain(rows, category, ids) && i <= |ids| && fuel >= |ids| - i
    ensures Walk(rows, Neighbour(ids, i), fuel) == ids[i..]
    decreases fuel
  {
    if i < |ids| {
      assert Linked(rows, category, ids, i);
      WalkVisitsAll(rows, category, ids, i + 1, fuel - 1);
      assert ids[i..] == [ids[i]] + ids[i + 1..];
    }
  }
}
