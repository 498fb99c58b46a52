/** The post handlers: `read` records a view before fetching, `create` forces the author and
    resolves the category, `update` patches the row without running the save hooks, and
    `delete` removes the post row alone. */
module PostController {
  import opened Results
  import opened Text
  import opened Store
  import opened PostModel

  /** The outcome of the object-store upload when a file is attached to the request. */
  datatype Upload = Uploaded(url: string) | UploadFailed

  const UploadFailedMessage: string := "Image upload to S3 failed."

  // ---- read ----

  /** The view step of `read`: look up a view for (user, post) and create one only if there is none. */
  function RecordView(views: seq<View>, u: UserId, p: PostId): (r: seq<View>)
    ensures PairCount(views, u, p) > 0 ==> r == views
    ensures PairCount(views, u, p) == 0 ==> PairCount(r, u, p) == 1 && |r| == |views| + 1
    ensures r[..|views|] == views
    ensures OtherPairs(r, u, p) == OtherPairs(views, u, p)
  {
    FilterEmpty(views, IsPair(u, p));
    if FindFirst(views, IsPair(u, p)).Some? then views
    else
      var row := Engagement(FreshId(views, EngagementId), u, p);
      FilterAppend(views, row, IsPair(u, p));
      FilterAppend(views, row, NotPair(u, p));
      assert (views + [row])[..|views|] == views;
      views + [row]
  }

  /** Recording a view is idempotent: a second identical request adds nothing. */
  lemma RecordViewIdempotent(views: seq<View>, u: UserId, p: PostId)
    ensures RecordView(RecordView(views, u, p), u, p) == RecordView(views, u, p)
    ensures PairCount(RecordView(views, u, p), u, p) >= 1
  {
  }

  /** Recording views never breaks "at most one view per (user, post)". */
  lemma RecordViewKeepsAtMostOne(views: seq<View>, u: UserId, p: PostId, v: UserId, q: PostId)
    requires PairCount(views, v, q) <= 1
    ensures PairCount(RecordView(views, u, p), v, q) <= 1
  {
    var r := RecordView(views, u, p);
    if (v, q) != (u, p) && PairCount(views, u, p) == 0 {
      var row := Engagement(FreshId(views, EngagementId), u, p);
      assert r == views + [row];
      FilterAppend(views, row, IsPair(v, q));
    }
  }

  /** `read`: with no authenticated user, dereferencing `req.user._id` fails before anything
      else. Otherwise a view is recorded for (user, id), whether or not such a post exists,
      and only then is the post fetched with `findById`, whose hook decorates it with no viewer. */
  function Read(db: Db, viewer: Option<UserId>, id: PostId, env: Env): (s: Step<Option<PostView>>)
    ensures viewer.None? ==> s == Step(db, Err(Crash))
    ensures viewer.Some? ==> s.db == db.(views := RecordView(db.views, viewer.value, id))
    ensures viewer.Some? ==> s.out.Ok? && s.out.value.status == 200
    ensures viewer.Some? ==> (s.out.value.data.Some? <==> exists i | 0 <= i < |db.posts| :: db.posts[i].id == id)
    ensures viewer.Some? && s.out.value.data.Some? ==>
              var v := s.out.value.data.value;
              && v.post.id == id
              && v.hasLiked.None? && v.isOwner.None?
              && v.viewCount == |Filter(s.db.views, OfPost(id))| >= 1
              && v.likeCount == |Filter(db.likes, OfPost(id))|
              && v == Decorate(PostById(db.posts, id).value, s.db, None, env)
  {
    match viewer
    case None => Step(db, Err(Crash))
    case Some(u) =>
      var db' := db.(views := RecordView(db.views, u, id));
      PairInPost(db'.views, u, id);
      var data := FindOneHook(PostById(db'.posts, id), db', None, env);
      Step(db', Ok(Reply(200, "", data)))
  }

  /** Reading a post twice leaves the same store as reading it once. */
  lemma ReadTwiceSameStore(db: Db, u: UserId, id: PostId, env: Env)
    ensures Read(Read(db, Some(u), id, env).db, Some(u), id, env).db == Read(db, Some(u), id, env).db
  {
    RecordViewIdempotent(db.views, u, id);
  }

  // ---- create ----

  /** `Category.findById(categoryId)` followed by `category?._id`. */
  function ResolveCategory(categories: seq<Category>, id: Option<CategoryId>): (r: Option<CategoryId>)
    ensures r.Some? ==> r == id
    ensures r.Some? <==> id.Some? && exists c | c in categories :: c.id == id.value
  {
    match id
    case None => None
    case Some(c) =>
      var i := FindFirst(categories, CategoryWithId(c));
      if i.Some? then Some(c)
      else
        assert forall x | x in categories :: x.id != c by {
          forall x | x in categories ensures x.id != c {
            var j :| 0 <= j < |categories| && categories[j] == x;
            assert !CategoryWithId(c)(categories[j]);
          }
        }
        None
  }

  /** `create`: the author is the requesting user, the category is the resolved id, an attached
      file is uploaded first, then the schema validates and the save hooks set slug and date. */
  function Create(db: Db, author: UserId, body: PostBody, file: Option<Upload>,
                  slugify: string -> string, random: seq<Byte>, now: int): (s: Step<PostView>)
    requires |random| == 4
    ensures file == Some(UploadFailed) ==> s == Step(db, Err(Fault(UploadFailedMessage)))
    ensures file != Some(UploadFailed) && CreateErrors(body) != [] ==> s == Step(db, Err(Invalid(CreateErrors(body))))
    ensures s.out.Ok? <==> file != Some(UploadFailed) && CreateErrors(body) == []
    ensures s.out.Ok? ==>
              var p := s.out.value.data.post;
              && s.out.value.status == 201
              && s.db == db.(posts := db.posts + [p], nextId := p.id + 1)
              && FreshPostId(db) <= p.id
              && (forall q | q in db.posts :: q.id != p.id)
              && p.author == author
              && p.title == Trim(body.title.value) && p.content == body.content.value
              && p.category == ResolveCategory(db.categories, body.categoryId)
              && p.image == Some(if file.Some? then file.value.url else body.image.GetOr(SchemaDefaultImage))
              && p.slug == Some(slugify(p.title) + "-" + ToHex(random))
              && p.status == (if body.status.Some? then ParseStatus(body.status.value).value else DefaultStatus)
              && (p.status == Published ==> p.publishedDate == Some(now))
              && (p.status == Unpublished ==> p.publishedDate == body.publishedDate)
              && s.out.value.data == Undecorated(p)
  {
    var category := ResolveCategory(db.categories, body.categoryId);
    if file == Some(UploadFailed) then Step(db, Err(Fault(UploadFailedMessage)))
    else
      var image := if file.Some? then Some(file.value.url) else body.image;
      var errors := CreateErrors(body);
      if errors != [] then Step(db, Err(Invalid(errors)))
      else
        var draft := Post(
          FreshPostId(db),
          Trim(body.title.value),
          body.content.value,
          Some(image.GetOr(SchemaDefaultImage)),
          body.slug,
          body.publishedDate,
          if body.status.Some? then ParseStatus(body.status.value).value else DefaultStatus,
          category,
          author);
        var p := SaveHooks(draft, slugify, random, now, body.publishedDate.Some?);
        NothingRefersTo(db, p.id);
        Step(db.(posts := db.posts + [p], nextId := p.id + 1), Ok(Reply(201, "", Undecorated(p))))
  }

  /** No stored record refers to a post id at or above the next fresh one. */
  lemma NothingRefersTo(db: Db, id: PostId)
    requires FreshPostId(db) <= id
    ensures forall q | q in db.posts :: q.id != id
    ensures forall e | e in db.likes :: e.postId != id
    ensures forall e | e in db.views :: e.postId != id
    ensures forall c | c in db.comments :: c.postId != id
  {
    forall q | q in db.posts ensures q.id != id {
      var j :| 0 <= j < |db.posts| && db.posts[j] == q;
    }
    forall e | e in db.likes ensures e.postId != id {
      var j :| 0 <= j < |db.likes| && db.likes[j] == e;
    }
    forall e | e in db.views ensures e.postId != id {
      var j :| 0 <= j < |db.views| && db.views[j] == e;
    }
    forall c | c in db.comments ensures c.postId != id {
      var j :| 0 <= j < |db.comments| && db.comments[j] == c;
    }
  }

  /** A newly created post starts with no likes, views or comments, even when a deleted post
      left its own behind: whoever views it sees zero counts and has not liked it. */
  lemma CreatedPostStartsClean(db: Db, author: UserId, body: PostBody, file: Option<Upload>,
                               slugify: string -> string, random: seq<Byte>, now: int,
                               viewer: Option<UserId>, env: Env)
    requires |random| == 4
    requires Create(db, author, body, file, slugify, random, now).out.Ok?
    ensures var s := Create(db, author, body, file, slugify, random, now);
            var v := Decorate(s.out.value.data.post, s.db, viewer, env);
            && v.likeCount == 0 && v.viewCount == 0 && v.commentCount == 0
            && v.hasLiked != Some(true)
  {
    var s := Create(db, author, body, file, slugify, random, now);
    NothingRefersTo(db, s.out.value.data.post.id);
    UnreferencedPostIsBare(s.out.value.data.post, s.db, viewer, env);
  }

  /** A post that no like, view or comment refers to decorates with zero counts. */
  lemma UnreferencedPostIsBare(p: Post, db: Db, viewer: Option<UserId>, env: Env)
    requires forall e | e in db.likes :: e.postId != p.id
    requires forall e | e in db.views :: e.postId != p.id
    requires forall c | c in db.comments :: c.postId != p.id
    ensures var v := Decorate(p, db, viewer, env);
            && v.likeCount == 0 && v.viewCount == 0 && v.commentCount == 0
            && v.hasLiked != Some(true)
  {
    NoRowsFor(p.id, db);
    if viewer.Some? && PairCount(db.likes, viewer.value, p.id) > 0 {
      PairInPost(db.likes, viewer.value, p.id);
    }
  }

  lemma NoRowsFor(id: PostId, db: Db)
    requires forall e | e in db.likes :: e.postId != id
    requires forall e | e in db.views :: e.postId != id
    requires forall c | c in db.comments :: c.postId != id
    ensures Filter(db.likes, OfPost(id)) == [] && Filter(db.views, OfPost(id)) == []
    ensures Filter(db.comments, CommentOfPost(id)) == []
  {
    FilterEmpty(db.likes, OfPost(id));
    FilterEmpty(db.views, OfPost(id));
    FilterEmpty(db.comments, CommentOfPost(id));
  }

  /** Whatever the body says about the author, the created post belongs to the requester. */
  lemma CreateForcesAuthor(db: Db, author: UserId, body: PostBody, file: Option<Upload>,
                           slugify: string -> string, random: seq<Byte>, now: int)
    requires |random| == 4
    requires Create(db, author, body, file, slugify, random, now).out.Ok?
    ensures Create(db, author, body, file, slugify, random, now).out.value.data.post.author == author
    ensures Create(db, author, body.(author := None, slug := None, category := None), file, slugify, random, now)
            == Create(db, author, body, file, slugify, random, now)
  {
  }

  // ---- update ----

  /** `findByIdAndUpdate(id, body)`: every schema key present in the body is written as given;
      `categoryId` is not a schema key and is dropped. No save hook runs. */
  function ApplyUpdate(cur: Post, body: PostBody, image: Option<string>): (q: Post)
    requires UpdateErrors(body) == []
    ensures q.id == cur.id
    ensures q.slug == (if body.slug.Some? then body.slug else cur.slug)
    ensures q.publishedDate == (if body.publishedDate.Some? then body.publishedDate else cur.publishedDate)
    ensures q.title == (if body.title.Some? then Trim(body.title.value) else cur.title)
    ensures q.content == (if body.content.Some? then body.content.value else cur.content)
    ensures body.status.None? ==> q.status == cur.status
    ensures body.status.Some? ==> ParseStatus(body.status.value) == Some(q.status)
    ensures q.image == (if image.Some? then image else cur.image)
    ensures q.author == body.author.GetOr(cur.author)
    ensures q.category == (if body.category.Some? then body.category else cur.category)
  {
    Post(
      cur.id,
      if body.title.Some? then Trim(body.title.value) else cur.title,
      body.content.GetOr(cur.content),
      if image.Some? then image else cur.image,
      if body.slug.Some? then body.slug else cur.slug,
      if body.publishedDate.Some? then body.publishedDate else cur.publishedDate,
      if body.status.Some? then ParseStatus(body.status.value).value else cur.status,
      if body.category.Some? then body.category else cur.category,
      body.author.GetOr(cur.author))
  }

  /** `update`: an attached file is uploaded first, the update validators check the keys present,
      and a missing post yields 200 with no data. The returned document is not decorated. */
  function Update(db: Db, id: PostId, body: PostBody, file: Option<Upload>): (s: Step<Option<PostView>>)
    ensures file == Some(UploadFailed) ==> s == Step(db, Err(Fault(UploadFailedMessage)))
    ensures file != Some(UploadFailed) && UpdateErrors(body) != [] ==> s == Step(db, Err(Invalid(UpdateErrors(body))))
    ensures (file != Some(UploadFailed) && UpdateErrors(body) == [] && forall q | q in db.posts :: q.id != id)
            ==> s == Step(db, Ok(Reply(200, "", None)))
    ensures (file != Some(UploadFailed) && UpdateErrors(body) == [] && exists q | q in db.posts :: q.id == id)
            ==> s.out.Ok? && s.out.value.data.Some?
    ensures s.out.Ok? ==> s.out.value.status == 200
    ensures s.out.Ok? && s.out.value.data.Some? ==>
              && FindFirst(db.posts, PostWithId(id)).Some?
              && var i := FindFirst(db.posts, PostWithId(id)).value;
                var q := s.out.value.data.value.post;
                && s.db == db.(posts := db.posts[i := q])
                && q == ApplyUpdate(db.posts[i], body, if file.Some? then Some(file.value.url) else body.image)
                && s.out.value.data.value == Undecorated(q)
  {
    if file == Some(UploadFailed) then Step(db, Err(Fault(UploadFailedMessage)))
    else
      var image := if file.Some? then Some(file.value.url) else body.image;
      var errors := UpdateErrors(body);
      if errors != [] then Step(db, Err(Invalid(errors)))
      else
        match FindFirst(db.posts, PostWithId(id))
        case None =>
          assert forall q | q in db.posts :: q.id != id by {
            forall q | q in db.posts ensures q.id != id {
              var j :| 0 <= j < |db.posts| && db.posts[j] == q;
              assert !PostWithId(id)(db.posts[j]);
            }
          }
          Step(db, Ok(Reply(200, "", None)))
        case Some(i) =>
          var q := ApplyUpdate(db.posts[i], body, image);
          Step(db.(posts := db.posts[i := q]), Ok(Reply(200, "", Some(Undecorated(q)))))
  }

  /** An update that does not name `slug` or `published_date` keeps them, even when it changes
      the title or publishes the post: the save hooks are not run by `findByIdAndUpdate`. */
  lemma UpdateKeepsSlugAndDate(db: Db, id: PostId, body: PostBody, file: Option<Upload>)
    requires body.slug.None? && body.publishedDate.None?
    requires Update(db, id, body, file).out.Ok? && Update(db, id, body, file).out.value.data.Some?
    ensures exists i | 0 <= i < |db.posts| && db.posts[i].id == id ::
              var q := Update(db, id, body, file).db.posts[i];
              q.slug == db.posts[i].slug && q.publishedDate == db.posts[i].publishedDate
  {
    var s := Update(db, id, body, file);
    var i := FindFirst(db.posts, PostWithId(id)).value;
    assert PostWithId(id)(db.posts[i]);
    assert s.db.posts[i] == s.out.value.data.value.post;
  }

  // ---- delete ----

  /** `delete`: `findById` then `deleteOne`. A missing post makes `data.deleteOne()` fail;
      otherwise only that post row goes, and its likes, views and comments stay. */
  function Delete(db: Db, id: PostId): (s: Step<Empty>)
    ensures (forall q | q in db.posts :: q.id != id) ==> s == Step(db, Err(Crash))
    ensures (exists q | q in db.posts :: q.id == id) ==>
              && s.out == Ok(Reply(204, "", Empty))
              && s.db == db.(posts := s.db.posts)
              && |Filter(s.db.posts, PostWithId(id))| == |Filter(db.posts, PostWithId(id))| - 1
              && Filter(s.db.posts, PostWithoutId(id)) == Filter(db.posts, PostWithoutId(id))
  {
    match FindFirst(db.posts, PostWithId(id))
    case None =>
      assert forall q | q in db.posts :: q.id != id by {
        forall q | q in db.posts ensures q.id != id {
          var j :| 0 <= j < |db.posts| && db.posts[j] == q;
          assert !PostWithId(id)(db.posts[j]);
        }
      }
      Step(db, Err(Crash))
    case Some(i) =>
      FilterRemoveKept(db.posts, i, PostWithId(id));
      FilterRemoveDropped(db.posts, i, PostWithoutId(id));
      Step(db.(posts := RemoveAt(db.posts, i)), Ok(Reply(204, "", Empty)))
  }

  /** Once the only post with an id is deleted, reading that id finds nothing and deleting it
      again fails. */
  lemma DeleteThenReadFindsNothing(db: Db, id: PostId, u: UserId, env: Env)
    requires |Filter(db.posts, PostWithId(id))| == 1
    ensures Read(Delete(db, id).db, Some(u), id, env).out.value.data.None?
    ensures Delete(Delete(db, id).db, id).out == Err(Crash)
  {
    var posts := NoPostLeft(db, id);
  }

  /** After deleting the only post with an id, no stored post has it. */
  lemma NoPostLeft(db: Db, id: PostId) returns (posts: seq<Post>)
    requires |Filter(db.posts, PostWithId(id))| == 1
    ensures posts == Delete(db, id).db.posts
    ensures forall q | q in posts :: q.id != id
  {
    var s := Delete(db, id);
    posts := s.db.posts;
    assert Filter(db.posts, PostWithId(id))[0] in db.posts;
    FilterEmpty(posts, PostWithId(id));
    forall q | q in posts ensures q.id != id {
      var j :| 0 <= j < |posts| && posts[j] == q;
      assert !PostWithId(id)(posts[j]);
    }
  }

  /** Every post id is below the id generator's mark. */
  predicate PostIdsBelowMark(db: Db) {
    forall q | q in db.posts :: q.id < db.nextId
  }

  /** `create` keeps every post id below the generator's mark. */
  lemma CreateKeepsMark(db: Db, author: UserId, body: PostBody, file: Option<Upload>,
                        slugify: string -> string, random: seq<Byte>, now: int)
    requires |random| == 4
    requires PostIdsBelowMark(db)
    ensures PostIdsBelowMark(Create(db, author, body, file, slugify, random, now).db)
  {
  }

  /** An id once given is not given again: after a post is deleted, a new post gets another
      id, so repeating the old `delete` fails and leaves the new post alone. */
  lemma StaleDeleteAfterRecreate(db: Db, id: PostId, author: UserId, body: PostBody, file: Option<Upload>,
                                 slugify: string -> string, random: seq<Byte>, now: int)
    requires |random| == 4
    requires PostIdsBelowMark(db)
    requires |Filter(db.posts, PostWithId(id))| == 1
    requires file != Some(UploadFailed) && CreateErrors(body) == []
    ensures var made := Create(Delete(db, id).db, author, body, file, slugify, random, now);
            && made.out.Ok? && made.out.value.data.post.id != id
            && made.out.value.data.post in made.db.posts
            && Delete(made.db, id) == Step(made.db, Err(Crash))
  {
    var posts := NoPostLeft(db, id);
    assert Filter(db.posts, PostWithId(id))[0] in db.posts;
    CreateAvoids(Delete(db, id).db, id, author, body, file, slugify, random, now);
  }

  /** `create` on a store with no post of a given id below the mark adds no post with it. */
  lemma CreateAvoids(db: Db, id: PostId, author: UserId, body: PostBody, file: Option<Upload>,
                     slugify: string -> string, random: seq<Byte>, now: int)
    requires |random| == 4
    requires id < db.nextId && forall q | q in db.posts :: q.id != id
    requires file != Some(UploadFailed) && CreateErrors(body) == []
    ensures var made := Create(db, author, body, file, slugify, random, now);
            && made.out.Ok? && made.out.value.data.post.id != id
            && made.out.value.data.post in made.db.posts
            && forall q | q in made.db.posts :: q.id != id
  {
    var made := Create(db, author, body, file, slugify, random, now);
    assert made.db.posts == db.posts + [made.out.value.data.post];
  }
}
