/** The like handlers: `postLike` toggles the requesting user's like on a post found by slug,
    `remove` deletes one like by id, and `getPostLikes` lists a post's likes with their count. */
module LikeController {
  import opened Results
  import opened Store
  import opened PostModel

  const PostNotFound: string := "Post not found"
  const UnlikedMessage: string := "Post unliked"
  const LikedMessage: string := "Post liked"

  /** `Post.findOne({ slug })`: the first post with that slug, if any. */
  function PostBySlug(posts: seq<Post>, slug: string): (r: Option<Post>)
    ensures r.Some? ==> r.value in posts && r.value.slug == Some(slug)
    ensures r.None? <==> forall q | q in posts :: q.slug != Some(slug)
  {
    match FindFirst(posts, PostWithSlug(slug))
    case Some(i) => Some(posts[i])
    case None =>
      assert forall q | q in posts :: q.slug != Some(slug) by {
        forall q | q in posts ensures q.slug != Some(slug) {
          var j :| 0 <= j < |posts| && posts[j] == q;
          assert !PostWithSlug(slug)(posts[j]);
        }
      }
      None
  }

  /** The core of `postLike`: `findOneAndDelete({ userId, postId })` removes the first like for
      the pair if there is one; otherwise `create` adds a like with the id `id` the generator
      gives. The second component is the created like. */
  function Toggle(likes: seq<Like>, u: UserId, p: PostId, id: nat): (r: (seq<Like>, Option<Like>))
    ensures PairCount(likes, u, p) > 0 ==> r.1.None? && PairCount(r.0, u, p) == PairCount(likes, u, p) - 1
    ensures PairCount(likes, u, p) > 0 ==>
              && FindFirst(likes, IsPair(u, p)).Some?
              && r.0 == RemoveAt(likes, FindFirst(likes, IsPair(u, p)).value)
    ensures PairCount(likes, u, p) == 0 ==>
              && r.1 == Some(Engagement(id, u, p))
              && r.0 == likes + [r.1.value]
              && PairCount(r.0, u, p) == 1
  {
    FilterEmpty(likes, IsPair(u, p));
    match FindFirst(likes, IsPair(u, p))
    case Some(i) =>
      FilterRemoveKept(likes, i, IsPair(u, p));
      (RemoveAt(likes, i), None)
    case None =>
      var row := Engagement(id, u, p);
      FilterAppend(likes, row, IsPair(u, p));
      (likes + [row], Some(row))
  }

  /** A toggle touches no like of any other (user, post) pair. */
  lemma ToggleKeepsOthers(likes: seq<Like>, u: UserId, p: PostId, id: nat)
    ensures OtherPairs(Toggle(likes, u, p, id).0, u, p) == OtherPairs(likes, u, p)
  {
    match FindFirst(likes, IsPair(u, p))
    case Some(i) =>
      FilterRemoveDropped(likes, i, NotPair(u, p));
    case None =>
      FilterAppend(likes, Engagement(id, u, p), NotPair(u, p));
  }

  /** `postLike`: 404 when no post has the slug; otherwise the like is toggled and the reply
      says which way, with the created like as data when one was created. A created like takes
      the generator's next id, which then moves past it. */
  function PostLike(db: Db, u: UserId, slug: string): (s: Step<Option<Like>>)
    ensures s.db == db.(likes := s.db.likes, nextId := s.db.nextId)
    ensures PostBySlug(db.posts, slug).None? ==> s == Step(db, Err(Thrown(404, PostNotFound)))
    ensures PostBySlug(db.posts, slug).Some? ==>
              var p := PostBySlug(db.posts, slug).value.id;
              && s.out.Ok? && s.out.value.status == 200
              && OtherPairs(s.db.likes, u, p) == OtherPairs(db.likes, u, p)
              && (PairCount(db.likes, u, p) > 0 ==>
                    && s.out.value == Reply(200, UnlikedMessage, None)
                    && s.db.nextId == db.nextId
                    && PairCount(s.db.likes, u, p) == PairCount(db.likes, u, p) - 1)
              && (PairCount(db.likes, u, p) == 0 ==>
                    && s.out.value.message == LikedMessage
                    && s.out.value.data.Some?
                    && s.db.likes == db.likes + [s.out.value.data.value]
                    && PairCount(s.db.likes, u, p) == 1)
    ensures s.out.Ok? && s.out.value.data.Some? ==>
              var created := s.out.value.data.value;
              && db.nextId <= created.id && s.db.nextId == created.id + 1
              && forall j | 0 <= j < |db.likes| :: db.likes[j].id != created.id
  {
    match PostBySlug(db.posts, slug)
    case None => Step(db, Err(Thrown(404, PostNotFound)))
    case Some(post) =>
      var id := FreshLikeId(db);
      ToggleKeepsOthers(db.likes, u, post.id, id);
      var (likes, created) := Toggle(db.likes, u, post.id, id);
      if PairCount(db.likes, u, post.id) == 0 then
        FilterAppend(db.likes, created.value, IsPair(u, post.id));
        Step(db.(likes := likes, nextId := id + 1), Ok(Reply(200, LikedMessage, created)))
      else
        Step(db.(likes := likes), Ok(Reply(200, UnlikedMessage, None)))
  }

  /** Every like id is below the generator's mark. */
  predicate LikeIdsBelowMark(db: Db) {
    forall j | 0 <= j < |db.likes| :: db.likes[j].id < db.nextId
  }

  /** `postLike` keeps every like id below the generator's mark. */
  lemma PostLikeKeepsMark(db: Db, u: UserId, slug: string)
    requires LikeIdsBelowMark(db)
    ensures LikeIdsBelowMark(PostLike(db, u, slug).db)
  {
    if PostBySlug(db.posts, slug).Some? {
      var p := PostBySlug(db.posts, slug).value.id;
      var id := FreshLikeId(db);
      if PairCount(db.likes, u, p) > 0 {
        ToggleIdsBelow(db.likes, u, p, id, db.nextId);
      } else {
        ToggleIdsBelow(db.likes, u, p, id, id + 1);
      }
    }
  }

  /** A toggle keeps every like id below a bound that is above the id it may give. */
  lemma ToggleIdsBelow(likes: seq<Like>, u: UserId, p: PostId, id: nat, bound: nat)
    requires forall j | 0 <= j < |likes| :: likes[j].id < bound
    requires PairCount(likes, u, p) == 0 ==> id < bound
    ensures var r := Toggle(likes, u, p, id).0;
            forall j | 0 <= j < |r| :: r[j].id < bound
  {
  }

  /** An id once given is not given again: after an unlike, liking again creates a like with a
      new id, so a retried `remove` of the old like finds nothing and keeps the new one. */
  lemma RelikeGetsNewId(db: Db, u: UserId, slug: string)
    requires LikeIdsBelowMark(db)
    requires PostBySlug(db.posts, slug).Some?
    requires PairCount(db.likes, u, PostBySlug(db.posts, slug).value.id) == 1
    ensures var p := PostBySlug(db.posts, slug).value.id;
            var gone := db.likes[FindFirst(db.likes, IsPair(u, p)).value];
            var again := PostLike(PostLike(db, u, slug).db, u, slug);
            && again.out.value.data.Some?
            && again.out.value.data.value.id != gone.id
            && again.out.value.data.value in Remove(again.db, gone.id).db.likes
  {
    var p := PostBySlug(db.posts, slug).value.id;
    var i := FindFirst(db.likes, IsPair(u, p)).value;
    var once := PostLike(db, u, slug);
    assert once.db.likes == RemoveAt(db.likes, i);
    assert once.db.nextId == db.nextId;
    var again := PostLike(once.db, u, slug);
    var created := again.out.value.data.value;
    assert db.likes[i].id < db.nextId <= created.id;
    RemoveKeepsOtherIds(again.db, db.likes[i].id, created);
  }

  /** `remove` of one id keeps every like with another id. */
  lemma RemoveKeepsOtherIds(db: Db, id: nat, e: Like)
    requires e in db.likes && e.id != id
    ensures e in Remove(db, id).db.likes
  {
    var j :| 0 <= j < |db.likes| && db.likes[j] == e;
    assert EngagementWithoutId(id)(db.likes[j]);
    assert e in Filter(Remove(db, id).db.likes, EngagementWithoutId(id));
  }

  /** Toggling keeps "at most one like per (user, post)" for every pair. */
  lemma ToggleKeepsAtMostOne(likes: seq<Like>, u: UserId, p: PostId, id: nat, v: UserId, q: PostId)
    requires PairCount(likes, v, q) <= 1
    ensures PairCount(Toggle(likes, u, p, id).0, v, q) <= 1
  {
    if (v, q) != (u, p) {
      FilterEmpty(likes, IsPair(u, p));
      match FindFirst(likes, IsPair(u, p))
      case Some(i) =>
        FilterRemoveDropped(likes, i, IsPair(v, q));
      case None =>
        FilterAppend(likes, Engagement(id, u, p), IsPair(v, q));
    }
  }

  /** Liking and then unliking a post restores the likes exactly. */
  lemma ToggleTwiceFromZero(likes: seq<Like>, u: UserId, p: PostId, id: nat, id': nat)
    requires PairCount(likes, u, p) == 0
    ensures Toggle(Toggle(likes, u, p, id).0, u, p, id').0 == likes
  {
    var row := Toggle(likes, u, p, id).1.value;
    var once := likes + [row];
    FilterEmpty(likes, IsPair(u, p));
    assert forall j | 0 <= j < |likes| :: !IsPair(u, p)(once[j]);
    assert IsPair(u, p)(once[|likes|]);
    assert FindFirst(once, IsPair(u, p)) == Some(|likes|);
    assert RemoveAt(once, |likes|) == likes;
  }

  /** Unliking and then liking again leaves one like for the pair and every other like as it
      was; the like itself is a new row at the end. */
  lemma ToggleTwiceFromOne(likes: seq<Like>, u: UserId, p: PostId, id: nat, id': nat)
    requires PairCount(likes, u, p) == 1
    ensures var twice := Toggle(Toggle(likes, u, p, id).0, u, p, id').0;
            PairCount(twice, u, p) == 1 && OtherPairs(twice, u, p) == OtherPairs(likes, u, p)
  {
    var once := Toggle(likes, u, p, id).0;
    ToggleKeepsOthers(likes, u, p, id);
    ToggleKeepsOthers(once, u, p, id');
  }

  /** `n` consecutive `postLike` toggles by the same user on the same post, the generator
      giving ids from `next` on. */
  function ToggleN(likes: seq<Like>, u: UserId, p: PostId, n: nat, next: nat): seq<Like>
    decreases n
  {
    if n == 0 then likes else ToggleN(Toggle(likes, u, p, next).0, u, p, n - 1, next + 1)
  }

  /** However often one user toggles one post, every other (user, post) like stays as it was. */
  lemma {:induction false} ToggleNKeepsOthers(likes: seq<Like>, u: UserId, p: PostId, n: nat, next: nat)
    ensures OtherPairs(ToggleN(likes, u, p, n, next), u, p) == OtherPairs(likes, u, p)
    decreases n
  {
    if n > 0 {
      ToggleKeepsOthers(likes, u, p, next);
      ToggleNKeepsOthers(Toggle(likes, u, p, next).0, u, p, n - 1, next + 1);
    }
  }

  /** The user currently likes the post. */
  predicate Liked(likes: seq<Like>, u: UserId, p: PostId) {
    PairCount(likes, u, p) > 0
  }

  /** Parity by counting down, which keeps modular arithmetic out of the proofs. */
  predicate Odd(n: nat) {
    n > 0 && !Odd(n - 1)
  }

  /** Starting from at most one like, `n` toggles leave the post liked exactly when it was
      liked before or `n` is odd, but not both; and there is still at most one like. */
  lemma {:induction false} ToggleParity(likes: seq<Like>, u: UserId, p: PostId, n: nat, next: nat)
    requires PairCount(likes, u, p) <= 1
    ensures Liked(ToggleN(likes, u, p, n, next), u, p) == (Liked(likes, u, p) != Odd(n))
    ensures PairCount(ToggleN(likes, u, p, n, next), u, p) <= 1
    decreases n
  {
    if n > 0 {
      ToggleNStep(likes, u, p, n, next);
      ToggleParity(Toggle(likes, u, p, next).0, u, p, n - 1, next + 1);
    }
  }

  /** One toggle, then the remaining `n - 1`. */
  lemma ToggleNStep(likes: seq<Like>, u: UserId, p: PostId, n: nat, next: nat)
    requires n > 0 && PairCount(likes, u, p) <= 1
    ensures ToggleN(likes, u, p, n, next) == ToggleN(Toggle(likes, u, p, next).0, u, p, n - 1, next + 1)
    ensures PairCount(Toggle(likes, u, p, next).0, u, p) <= 1
    ensures Liked(Toggle(likes, u, p, next).0, u, p) == !Liked(likes, u, p)
    ensures Odd(n) == !Odd(n - 1)
  {
    ToggleFlips(likes, u, p, next);
  }

  /** From at most one like, a toggle flips the pair's count between zero and one. */
  lemma ToggleFlips(likes: seq<Like>, u: UserId, p: PostId, id: nat)
    requires PairCount(likes, u, p) <= 1
    ensures PairCount(Toggle(likes, u, p, id).0, u, p) == 1 - PairCount(likes, u, p)
  {
  }

  /** Liking a post and toggling again restores every collection; only the id generator has
      moved on. */
  lemma LikeTwiceRestores(db: Db, u: UserId, slug: string)
    requires PostBySlug(db.posts, slug).Some?
    requires PairCount(db.likes, u, PostBySlug(db.posts, slug).value.id) == 0
    ensures PostLike(db, u, slug).out.value.message == LikedMessage
    ensures PostLike(PostLike(db, u, slug).db, u, slug).out.value.message == UnlikedMessage
    ensures var twice := PostLike(PostLike(db, u, slug).db, u, slug).db;
            twice == db.(nextId := twice.nextId) && db.nextId < twice.nextId
  {
    var p := PostBySlug(db.posts, slug).value.id;
    ToggleTwiceFromZero(db.likes, u, p, FreshLikeId(db), FreshLikeId(db) + 1);
  }

  /** `remove`: `findByIdAndDelete(id)` drops the like with that id, if any; the reply is 204
      either way, carrying the deleted like or null. */
  function Remove(db: Db, id: nat): (s: Step<Option<Like>>)
    ensures s.db == db.(likes := s.db.likes)
    ensures s.out.Ok? && s.out.value.status == 204
    ensures s.out.value.data.None? <==> forall j | 0 <= j < |db.likes| :: db.likes[j].id != id
    ensures s.out.value.data.None? ==> s.db == db
    ensures s.out.value.data.Some? ==>
              && s.out.value.data.value.id == id && s.out.value.data.value in db.likes
              && |Filter(s.db.likes, EngagementWithId(id))| == |Filter(db.likes, EngagementWithId(id))| - 1
              && Filter(s.db.likes, EngagementWithoutId(id)) == Filter(db.likes, EngagementWithoutId(id))
  {
    match FindFirst(db.likes, EngagementWithId(id))
    case None => Step(db, Ok(Reply(204, "", None)))
    case Some(i) =>
      FilterRemoveKept(db.likes, i, EngagementWithId(id));
      FilterRemoveDropped(db.likes, i, EngagementWithoutId(id));
      Step(db.(likes := RemoveAt(db.likes, i)), Ok(Reply(204, "", Some(db.likes[i]))))
  }

  /** The `getPostLikes` body: the post (decorated by the `findOne` hook), its likes and their count. */
  datatype PostLikes = PostLikes(post: Option<PostView>, likes: seq<Like>, count: nat)

  /** `getPostLikes`: the likes whose `postId` is the parameter, in stored order, the post if it
      exists, and the number of likes. Nothing is written. */
  function GetPostLikes(db: Db, p: PostId, env: Env): (s: Step<PostLikes>)
    ensures s.db == db && s.out.Ok? && s.out.value.status == 200
    ensures var r := s.out.value.data;
            && r.count == |r.likes|
            && (forall i | 0 <= i < |r.likes| :: r.likes[i].postId == p && r.likes[i] in db.likes)
            && (forall j | 0 <= j < |db.likes| && db.likes[j].postId == p :: db.likes[j] in r.likes)
            && (forall e: Like :: multiset(r.likes)[e] == if e.postId == p then multiset(db.likes)[e] else 0)
            && (r.post.Some? <==> exists q | q in db.posts :: q.id == p)
            && (r.post.Some? ==> r.post.value.post.id == p && r.post.value.likeCount == r.count)
            && (r.post.Some? ==> r.post.value == Decorate(PostById(db.posts, p).value, db, None, env))
  {
    var likes := Filter(db.likes, OfPost(p));
    assert forall e: Like :: multiset(likes)[e] == if e.postId == p then multiset(db.likes)[e] else 0 by {
      forall e: Like ensures multiset(likes)[e] == if e.postId == p then multiset(db.likes)[e] else 0 {
        FilterMultiset(db.likes, OfPost(p), e);
      }
    }
    var post := FindOneHook(PostById(db.posts, p), db, None, env);
    Step(db, Ok(Reply(200, "", PostLikes(post, likes, |likes|))))
  }

  /** A toggle moves the post's like count by one: up when the user had not liked it, down
      when they had. */
  lemma ToggleMovesCount(db: Db, u: UserId, slug: string, env: Env)
    requires PostBySlug(db.posts, slug).Some?
    ensures var p := PostBySlug(db.posts, slug).value.id;
            var before := GetPostLikes(db, p, env).out.value.data.count;
            var after := GetPostLikes(PostLike(db, u, slug).db, p, env).out.value.data.count;
            after == if PairCount(db.likes, u, p) == 0 then before + 1 else before - 1
  {
    var p := PostBySlug(db.posts, slug).value.id;
    LikeCountIsStored(db, p, env);
    LikeCountIsStored(PostLike(db, u, slug).db, p, env);
    ToggleMovesStoredCount(db.likes, u, p, FreshLikeId(db));
  }

  /** The count `getPostLikes` reports is the number of stored likes of the post. */
  lemma LikeCountIsStored(db: Db, p: PostId, env: Env)
    ensures GetPostLikes(db, p, env).out.value.data.count == |Filter(db.likes, OfPost(p))|
  {
  }

  /** A toggle moves the number of the post's likes by one. */
  lemma ToggleMovesStoredCount(likes: seq<Like>, u: UserId, p: PostId, id: nat)
    ensures var after := |Filter(Toggle(likes, u, p, id).0, OfPost(p))|;
            var before := |Filter(likes, OfPost(p))|;
            after == if PairCount(likes, u, p) == 0 then before + 1 else before - 1
  {
    FilterEmpty(likes, IsPair(u, p));
    match FindFirst(likes, IsPair(u, p))
    case Some(i) =>
      FilterRemoveKept(likes, i, OfPost(p));
    case None =>
      FilterAppend(likes, Engagement(id, u, p), OfPost(p));
  }

}
