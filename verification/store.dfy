/** The records of the document store (one collection per schema) and the queries the
    handlers run against them. Collections are sequences in natural (insertion) order. */
module Store {
  import opened Results

  type UserId = nat
  type PostId = nat
  type CategoryId = nat

  /** The `status` enum of the post schema. */
  datatype Status = Published | Unpublished

  /** A stored post. `image`, `slug` and `published_date` may be absent; `author` is required. */
  datatype Post = Post(
    id: PostId,
    title: string,
    content: string,
    image: Option<string>,
    slug: Option<string>,
    publishedDate: Option<int>,
    status: Status,
    category: Option<CategoryId>,
    author: UserId)

  /** The shape shared by the like and view schemas: one user's engagement with one post. */
  datatype Engagement = Engagement(id: nat, userId: UserId, postId: PostId)

  type Like = Engagement
  type View = Engagement

  datatype Comment = Comment(id: nat, userId: UserId, postId: PostId, content: string)

  /** A category; its `name` is unique across categories. */
  datatype Category = Category(id: CategoryId, name: string)

  /** The `role` enum of the user schema: `admin`, `user`, `guest`, `super-admin`. */
  datatype Role = Admin | Member | Guest | SuperAdmin

  /** A stored user; `password` holds the bcrypt hash. */
  datatype User = User(
    id: UserId,
    firstName: string,
    lastName: string,
    email: string,
    username: string,
    password: string,
    role: Role)

  /** The collections, and `nextId`, the ObjectId generator's mark: posts and likes are given
      ids at or above it, and it moves past every id it gives, so no id is handed out twice. */
  datatype Db = Db(
    posts: seq<Post>,
    likes: seq<Like>,
    views: seq<View>,
    comments: seq<Comment>,
    categories: seq<Category>,
    users: seq<User>,
    nextId: nat)

  /** What one request does: the store afterwards, and the reply or the failure. */
  datatype Step<+T> = Step(db: Db, out: Result<Reply<T>>)

  // ---- sequence queries ----

  /** The elements of `s` that `keep` accepts, in order (a `find` with a filter). */
  function Filter<T>(s: seq<T>, keep: T -> bool): (r: seq<T>)
    ensures |r| <= |s|
    ensures forall i | 0 <= i < |r| :: r[i] in s && keep(r[i])
    ensures forall j | 0 <= j < |s| && keep(s[j]) :: s[j] in r
  {
    if s == [] then [] else (if keep(s[0]) then [s[0]] else []) + Filter(s[1..], keep)
  }

  lemma {:induction false} FilterConcat<T>(a: seq<T>, b: seq<T>, keep: T -> bool)
    ensures Filter(a + b, keep) == Filter(a, keep) + Filter(b, keep)
  {
    if a == [] {
      assert a + b == b;
    } else {
      var head := if keep(a[0]) then [a[0]] else [];
      assert (a + b)[0] == a[0];
      assert (a + b)[1..] == a[1..] + b;
      FilterConcat(a[1..], b, keep);
      calc {
        Filter(a + b, keep);
        head + Filter(a[1..] + b, keep);
        head + (Filter(a[1..], keep) + Filter(b, keep));
        (head + Filter(a[1..], keep)) + Filter(b, keep);
        Filter(a, keep) + Filter(b, keep);
      }
    }
  }

  lemma FilterSingle<T>(x: T, keep: T -> bool)
    ensures Filter([x], keep) == if keep(x) then [x] else []
  {
    assert [x][1..] == [];
  }

  /** The position of the first element that `keep` accepts (a `findOne`). */
  function FindFirst<T>(s: seq<T>, keep: T -> bool): (r: Option<nat>)
    ensures r.Some? ==> r.value < |s| && keep(s[r.value])
    ensures r.Some? ==> forall j | 0 <= j < r.value :: !keep(s[j])
    ensures r.None? <==> forall j | 0 <= j < |s| :: !keep(s[j])
  {
    if s == [] then None
    else if keep(s[0]) then Some(0)
    else match FindFirst(s[1..], keep)
      case None => None
      case Some(i) => Some(i + 1)
  }

  /** Replacing the first match by another match keeps it the first match. */
  lemma FindFirstReplace<T>(s: seq<T>, i: nat, x: T, keep: T -> bool)
    requires FindFirst(s, keep) == Some(i) && keep(x)
    ensures FindFirst(s[i := x], keep) == Some(i)
  {
    var t := s[i := x];
    assert keep(t[i]);
    assert forall j | 0 <= j < i :: t[j] == s[j];
    var r := FindFirst(t, keep);
    assert r.Some?;
  }

  /** `s` without its element at `i`. */
  function RemoveAt<T>(s: seq<T>, i: nat): (r: seq<T>)
    requires i < |s|
    ensures |r| == |s| - 1
    ensures forall j | 0 <= j < i :: r[j] == s[j]
    ensures forall j | i <= j < |r| :: r[j] == s[j + 1]
  {
    s[..i] + s[i + 1..]
  }

  /** `s` split around position `i`: the filter of the whole is the filters of the three parts. */
  lemma FilterAround<T>(s: seq<T>, i: nat, keep: T -> bool)
    requires i < |s|
    ensures Filter(s, keep) == Filter(s[..i], keep) + Filter([s[i]], keep) + Filter(s[i + 1..], keep)
    ensures Filter(RemoveAt(s, i), keep) == Filter(s[..i], keep) + Filter(s[i + 1..], keep)
  {
    SplitAt(s, i);
    FilterSplit(s[..i], s[i], s[i + 1..], keep);
    FilterConcat(s[..i], s[i + 1..], keep);
  }

  lemma SplitAt<T>(s: seq<T>, i: nat)
    requires i < |s|
    ensures s == s[..i] + [s[i]] + s[i + 1..]
    ensures RemoveAt(s, i) == s[..i] + s[i + 1..]
  {
  }

  lemma FilterSplit<T>(a: seq<T>, x: T, b: seq<T>, keep: T -> bool)
    ensures Filter(a + [x] + b, keep) == Filter(a, keep) + Filter([x], keep) + Filter(b, keep)
  {
    FilterConcat(a + [x], b, keep);
    FilterConcat(a, [x], keep);
  }

  /** Removing an element the filter drops leaves the filter's result unchanged. */
  lemma FilterRemoveDropped<T>(s: seq<T>, i: nat, keep: T -> bool)
    requires i < |s| && !keep(s[i])
    ensures Filter(RemoveAt(s, i), keep) == Filter(s, keep)
  {
    FilterAround(s, i, keep);
    FilterSingle(s[i], keep);
    assert Filter(s[..i], keep) + [] == Filter(s[..i], keep);
  }

  /** Removing an element the filter keeps shortens the filter's result by one. */
  lemma FilterRemoveKept<T>(s: seq<T>, i: nat, keep: T -> bool)
    requires i < |s| && keep(s[i])
    ensures |Filter(RemoveAt(s, i), keep)| == |Filter(s, keep)| - 1
  {
    FilterAround(s, i, keep);
    FilterSingle(s[i], keep);
  }

  lemma FilterAppend<T>(s: seq<T>, x: T, keep: T -> bool)
    ensures Filter(s + [x], keep) == Filter(s, keep) + (if keep(x) then [x] else [])
  {
    FilterConcat(s, [x], keep);
    FilterSingle(x, keep);
  }

  /** A filter keeps nothing exactly when no element passes it. */
  lemma FilterEmpty<T>(s: seq<T>, keep: T -> bool)
    ensures Filter(s, keep) == [] <==> forall j | 0 <= j < |s| :: !keep(s[j])
  {
    if Filter(s, keep) != [] {
      var x := Filter(s, keep)[0];
      var j :| 0 <= j < |s| && s[j] == x;
    }
    if exists j | 0 <= j < |s| :: keep(s[j]) {
      var j :| 0 <= j < |s| && keep(s[j]);
      assert s[j] in Filter(s, keep);
    }
  }

  /** One more than every id in use: how a fresh ObjectId is modelled. */
  function FreshId<T>(s: seq<T>, id: T -> nat): (n: nat)
    ensures forall j | 0 <= j < |s| :: id(s[j]) < n
  {
    if s == [] then 0
    else
      var rest := FreshId(s[1..], id);
      if id(s[0]) < rest then rest else id(s[0]) + 1
  }

  /** How often `x` occurs in a filter's result: as often as in `s` when the filter keeps it, else never. */
  lemma {:induction false} FilterMultiset<T>(s: seq<T>, keep: T -> bool, x: T)
    ensures multiset(Filter(s, keep))[x] == if keep(x) then multiset(s)[x] else 0
  {
    if s != [] {
      FilterMultiset(s[1..], keep, x);
      assert s == [s[0]] + s[1..];
      assert multiset(s) == multiset([s[0]]) + multiset(s[1..]);
    }
  }

  function EngagementPost(e: Engagement): nat { e.postId }

  function CommentPost(c: Comment): nat { c.postId }

  /** The id a new post receives: at or above the generator's mark, above every post id in
      use, and above every post id that a like, a view or a comment still refers to (rows of
      deleted posts included), as a fresh ObjectId is. */
  function FreshPostId(db: Db): (n: PostId)
    ensures db.nextId <= n
    ensures forall j | 0 <= j < |db.posts| :: db.posts[j].id < n
    ensures forall j | 0 <= j < |db.likes| :: db.likes[j].postId < n
    ensures forall j | 0 <= j < |db.views| :: db.views[j].postId < n
    ensures forall j | 0 <= j < |db.comments| :: db.comments[j].postId < n
  {
    var a := FreshId(db.posts, PostKey);
    var b := FreshId(db.likes, EngagementPost);
    var c := FreshId(db.views, EngagementPost);
    var d := FreshId(db.comments, CommentPost);
    Max(db.nextId, Max(Max(a, b), Max(c, d)))
  }

  /** The id a new like receives: at or above the generator's mark and above every stored like's id. */
  function FreshLikeId(db: Db): (n: nat)
    ensures db.nextId <= n
    ensures forall j | 0 <= j < |db.likes| :: db.likes[j].id < n
  {
    Max(db.nextId, FreshId(db.likes, EngagementId))
  }

  function Max(a: nat, b: nat): (m: nat)
    ensures a <= m && b <= m && (m == a || m == b)
  {
    if a < b then b else a
  }

  // ---- engagement queries ----

  function EngagementId(e: Engagement): nat { e.id }

  /** Rows that belong to post `p` (`find({ postId })`). */
  function OfPost(p: PostId): Engagement -> bool {
    (e: Engagement) => e.postId == p
  }

  /** Rows for the pair (user `u`, post `p`). */
  function IsPair(u: UserId, p: PostId): Engagement -> bool {
    (e: Engagement) => e.userId == u && e.postId == p
  }

  /** Rows for every other pair. */
  function NotPair(u: UserId, p: PostId): Engagement -> bool {
    (e: Engagement) => !(e.userId == u && e.postId == p)
  }

  /** The row with id `id` (`findById` on a like or view). */
  function EngagementWithId(id: nat): Engagement -> bool {
    (e: Engagement) => e.id == id
  }

  function EngagementWithoutId(id: nat): Engagement -> bool {
    (e: Engagement) => e.id != id
  }

  /** The number of rows for the (user, post) pair; positive exactly when there is a first one. */
  function PairCount(rows: seq<Engagement>, u: UserId, p: PostId): (n: nat)
    ensures n > 0 <==> FindFirst(rows, IsPair(u, p)).Some?
  {
    FilterEmpty(rows, IsPair(u, p));
    |Filter(rows, IsPair(u, p))|
  }

  function OtherPairs(rows: seq<Engagement>, u: UserId, p: PostId): seq<Engagement> {
    Filter(rows, NotPair(u, p))
  }

  /** A row for the pair is a row for the post. */
  lemma PairInPost(rows: seq<Engagement>, u: UserId, p: PostId)
    requires PairCount(rows, u, p) > 0
    ensures |Filter(rows, OfPost(p))| > 0
  {
    var e := Filter(rows, IsPair(u, p))[0];
    var j :| 0 <= j < |rows| && rows[j] == e;
    assert OfPost(p)(rows[j]);
  }

  /** Some row records the pair exactly when the pair's count is positive. */
  lemma PairCountPositive(rows: seq<Engagement>, u: UserId, p: PostId)
    ensures PairCount(rows, u, p) > 0 <==> exists e | e in rows :: e.userId == u && e.postId == p
  {
    FilterEmpty(rows, IsPair(u, p));
    if exists e | e in rows :: e.userId == u && e.postId == p {
      var e :| e in rows && e.userId == u && e.postId == p;
      var j :| 0 <= j < |rows| && rows[j] == e;
      assert IsPair(u, p)(rows[j]);
    }
  }

  // ---- document lookups ----

  function PostWithId(id: PostId): Post -> bool {
    (q: Post) => q.id == id
  }

  /** `Post.findById(id)`: the post with that id, if any. */
  function PostById(posts: seq<Post>, id: PostId): (r: Option<Post>)
    ensures r.Some? ==> r.value in posts && r.value.id == id
    ensures r.None? <==> forall q | q in posts :: q.id != id
  {
    match FindFirst(posts, PostWithId(id))
    case Some(i) => Some(posts[i])
    case None =>
      assert forall q | q in posts :: q.id != id by {
        forall q | q in posts ensures q.id != id {
          var j :| 0 <= j < |posts| && posts[j] == q;
          assert !PostWithId(id)(posts[j]);
        }
      }
      None
  }

  function PostWithoutId(id: PostId): Post -> bool {
    (q: Post) => q.id != id
  }

  function PostWithSlug(slug: string): Post -> bool {
    (q: Post) => q.slug == Some(slug)
  }

  function PostKey(q: Post): nat { q.id }

  function CategoryWithId(id: CategoryId): Category -> bool {
    (c: Category) => c.id == id
  }

  function UserWithId(id: UserId): User -> bool {
    (u: User) => u.id == id
  }

  function UserWithEmail(email: string): User -> bool {
    (u: User) => u.email == email
  }

  function UserKey(u: User): nat { u.id }

  function CommentOfPost(p: PostId): Comment -> bool {
    (c: Comment) => c.postId == p
  }
}
