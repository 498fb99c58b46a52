/** The post schema: its validation rules, its two save hooks, image-URL formatting,
    the derived fields `calculateFields` attaches, the virtual getters that expose them,
    and the `find`/`findOne` query hooks that run the decoration. */
module PostModel {
  import opened Results
  import opened Text
  import opened Store

  // ---- schema rules ----

  const TitleMaxLength: nat := 50
  const SchemaDefaultImage: string := "default.png"
  const DefaultStatus: Status := Published

  /** The request body the post handlers pass to the store; `None` is an absent key. */
  datatype PostBody = PostBody(
    title: Option<string>,
    content: Option<string>,
    image: Option<string>,
    status: Option<string>,
    publishedDate: Option<int>,
    slug: Option<string>,
    category: Option<CategoryId>,
    author: Option<UserId>,
    categoryId: Option<CategoryId>)

  function StatusName(s: Status): string {
    match s
    case Published => "published"
    case Unpublished => "unpublished"
  }

  /** The `status` enum check: only the two listed names are accepted. */
  function ParseStatus(name: string): (r: Option<Status>)
    ensures r.Some? ==> StatusName(r.value) == name
  {
    if name == "published" then Some(Published)
    else if name == "unpublished" then Some(Unpublished)
    else None
  }

  lemma StatusRoundTrip(s: Status)
    ensures ParseStatus(StatusName(s)) == Some(s)
  {
  }

  /** A title value fails `required` (empty once trimmed) or `maxlength: 50` (in UTF-16 units). */
  predicate BadTitle(title: string) {
    Trim(title) == [] || Utf16Length(Trim(title)) > TitleMaxLength
  }

  predicate BadStatus(status: Option<string>) {
    status.Some? && ParseStatus(status.value).None?
  }

  /** The paths that fail validation when a post is created, in schema order. */
  function CreateErrors(b: PostBody): (paths: seq<string>)
    ensures "title" in paths <==> b.title.None? || BadTitle(b.title.value)
    ensures "content" in paths <==> b.content.None? || b.content.value == []
    ensures "status" in paths <==> BadStatus(b.status)
    ensures paths == [] <==> b.title.Some? && !BadTitle(b.title.value)
                             && b.content.Some? && b.content.value != [] && !BadStatus(b.status)
  {
    (if b.title.None? || BadTitle(b.title.value) then ["title"] else [])
    + (if b.content.None? || b.content.value == [] then ["content"] else [])
    + (if BadStatus(b.status) then ["status"] else [])
  }

  /** The paths that fail the update validators: only the keys present in the update are checked. */
  function UpdateErrors(b: PostBody): (paths: seq<string>)
    ensures "title" in paths <==> b.title.Some? && BadTitle(b.title.value)
    ensures "content" in paths <==> b.content.Some? && b.content.value == []
    ensures "status" in paths <==> BadStatus(b.status)
    ensures paths == [] <==> (b.title.Some? ==> !BadTitle(b.title.value))
                             && (b.content.Some? ==> b.content.value != []) && !BadStatus(b.status)
  {
    (if b.title.Some? && BadTitle(b.title.value) then ["title"] else [])
    + (if b.content.Some? && b.content.value == [] then ["content"] else [])
    + (if BadStatus(b.status) then ["status"] else [])
  }

  // ---- save hooks ----

  /** The first `pre('save')` hook: the slugified title, a hyphen, and four random bytes in hex. */
  function SlugHook(p: Post, slugify: string -> string, random: seq<Byte>): (q: Post)
    requires |random| == 4
    ensures q == p.(slug := q.slug) && q.slug.Some?
    ensures var s, base := q.slug.value, slugify(p.title);
            && |s| == |base| + 9
            && s[..|base|] == base
            && s[|base|] == '-'
            && (forall i | |base| < i < |s| :: IsLowerHex(s[i]))
            && FromHex(s[|base| + 1..]) == random
  {
    var suffix := ToHex(random);
    HexRoundTrip(random);
    var s := slugify(p.title) + "-" + suffix;
    assert s[|slugify(p.title)| + 1..] == suffix;
    p.(slug := Some(s))
  }

  /** The second `pre('save')` hook, with its `else if` branch as written: that branch also
      requires the status to be published, so it can never be taken. */
  function PublishHook(p: Post, now: int, publishedDateModified: bool): (q: Post)
    ensures q == p.(publishedDate := q.publishedDate)
    ensures p.status == Published ==> q.publishedDate == Some(now)
    ensures p.status != Published ==> q.publishedDate == p.publishedDate
  {
    if p.status == Published then p.(publishedDate := Some(now))
    else if publishedDateModified && p.status == Published then p.(publishedDate := Some(now))
    else p
  }

  /** Both save hooks in registration order. */
  function SaveHooks(p: Post, slugify: string -> string, random: seq<Byte>, now: int, publishedDateModified: bool): Post
    requires |random| == 4
  {
    PublishHook(SlugHook(p, slugify, random), now, publishedDateModified)
  }

  // ---- image URL ----

  /** The `HOST` and `PORT` environment variables. */
  datatype Env = Env(host: Option<string>, port: Option<string>)

  /** JavaScript's `value || fallback` on a string that may be absent or empty. */
  function OrElse(value: Option<string>, fallback: string): (r: string)
    ensures value.Some? && value.value != [] ==> r == value.value
    ensures value.None? || value.value == [] ==> r == fallback
  {
    if value.Some? && value.value != [] then value.value else fallback
  }

  /** `http://HOST:PORT`, with `127.0.0.1` and `5000` when the variables are unset or empty. */
  function ServerUrl(env: Env): (url: string)
    ensures StartsWith(url, "http://")
    ensures env.host.None? || env.host.value == [] ==> StartsWith(url, "http://127.0.0.1:")
    ensures env.host.Some? && env.host.value != [] ==> StartsWith(url, "http://" + env.host.value + ":")
    ensures env.port.None? || env.port.value == [] ==> EndsWith(url, ":5000")
    ensures env.port.Some? && env.port.value != [] ==> EndsWith(url, ":" + env.port.value)
    ensures |url| == |"http://"| + |HostOf(env)| + |":"| + |PortOf(env)|
  {
    UrlShape(HostOf(env), PortOf(env));
    "http://" + HostOf(env) + ":" + PortOf(env)
  }

  lemma UrlShape(h: string, p: string)
    ensures var url := "http://" + h + ":" + p;
            && StartsWith(url, "http://") && StartsWith(url, "http://" + h + ":") && EndsWith(url, ":" + p)
  {
    var url := "http://" + h + ":" + p;
    assert url[..7] == "http://";
    assert url[..8 + |h|] == "http://" + h + ":";
    assert url[|url| - 1 - |p|..] == ":" + p;
  }

  /** The host the server URL names: `HOST`, or `127.0.0.1` when it is unset or empty. */
  function HostOf(env: Env): string {
    OrElse(env.host, "127.0.0.1")
  }

  /** The port the server URL names: `PORT`, or `5000` when it is unset or empty. */
  function PortOf(env: Env): string {
    OrElse(env.port, "5000")
  }

  /** Two environments whose hosts contain no ':' give the same server URL only when they name
      the same host and the same port. */
  lemma {:induction false} ServerUrlDeterminesHostAndPort(e1: Env, e2: Env)
    requires forall k | 0 <= k < |HostOf(e1)| :: HostOf(e1)[k] != ':'
    requires forall k | 0 <= k < |HostOf(e2)| :: HostOf(e2)[k] != ':'
    requires ServerUrl(e1) == ServerUrl(e2)
    ensures HostOf(e1) == HostOf(e2) && PortOf(e1) == PortOf(e2)
  {
    AfterScheme(e1);
    AfterScheme(e2);
    SplitAtFirstColon(HostOf(e1), PortOf(e1), HostOf(e2), PortOf(e2));
  }

  lemma AfterScheme(e: Env)
    ensures |ServerUrl(e)| >= 7 && ServerUrl(e)[7..] == HostOf(e) + ":" + PortOf(e)
  {
    assert ServerUrl(e) == "http://" + (HostOf(e) + ":" + PortOf(e));
  }

  /** `host:port` splits back into its parts when the host holds no ':'. */
  lemma SplitAtFirstColon(h1: string, p1: string, h2: string, p2: string)
    requires forall k | 0 <= k < |h1| :: h1[k] != ':'
    requires forall k | 0 <= k < |h2| :: h2[k] != ':'
    requires h1 + ":" + p1 == h2 + ":" + p2
    ensures h1 == h2 && p1 == p2
  {
    var w := h1 + ":" + p1;
    ColonIndexAfter(h1, p1);
    ColonIndexAfter(h2, p2);
    assert h1 == w[..|h1|] == h2;
    assert p1 == w[|h1| + 1..] == p2;
  }

  /** The position of the first ':' in `w`, or `|w|` when there is none. */
  function ColonIndex(w: string): nat {
    if w == [] || w[0] == ':' then 0 else 1 + ColonIndex(w[1..])
  }

  lemma {:induction false} ColonIndexAfter(h: string, p: string)
    requires forall k | 0 <= k < |h| :: h[k] != ':'
    ensures ColonIndex(h + ":" + p) == |h|
  {
    if h != [] {
      assert (h + ":" + p)[1..] == h[1..] + ":" + p;
      ColonIndexAfter(h[1..], p);
    }
  }

  const DefaultImagePath: string := "public/images/default.png"

  /** `formatImageUrl`: a relative image becomes absolute under the server URL, an image
      starting with `http` is kept, and a missing or empty one becomes the placeholder. */
  function FormatImageUrl(image: Option<string>, env: Env): (url: string)
    ensures StartsWith(url, "http")
    ensures image.Some? && StartsWith(image.value, "http") ==> url == image.value
    ensures (image.Some? && image.value != [] && !StartsWith(image.value, "http"))
            ==> url == ServerUrl(env) + "/" + image.value
    ensures image.None? || image.value == [] ==> url == ServerUrl(env) + "/" + DefaultImagePath
  {
    var base := ServerUrl(env);
    assert (base + "/")[..4] == base[..4] == "http";
    match image
    case Some(path) =>
      if path != [] then
        if !StartsWith(path, "http") then
          assert (base + "/" + path)[..4] == (base + "/")[..4];
          base + "/" + path
        else path
      else
        assert (base + "/" + DefaultImagePath)[..4] == (base + "/")[..4];
        base + "/" + DefaultImagePath
    case None =>
      assert (base + "/" + DefaultImagePath)[..4] == (base + "/")[..4];
      base + "/" + DefaultImagePath
  }

  /** Formatting an already formatted image changes nothing. */
  lemma FormatImageIdempotent(image: Option<string>, env: Env)
    ensures FormatImageUrl(Some(FormatImageUrl(image, env)), env) == FormatImageUrl(image, env)
  {
  }

  /** A post stored with the schema's default image is served from the server root,
      not from the placeholder path. */
  lemma DefaultImageUrl(env: Env)
    ensures FormatImageUrl(Some(SchemaDefaultImage), env) == ServerUrl(env) + "/default.png"
  {
    assert SchemaDefaultImage[..4] == "defa" != "http";
  }

  // ---- derived fields ----

  /** The fields `calculateFields` attaches to a document (`_comment_count`, `_likes`, ...). */
  datatype Computed = Computed(
    commentCount: nat,
    comments: seq<Comment>,
    likeCount: nat,
    likes: seq<UserId>,
    hasLiked: Option<bool>,
    isOwner: Option<bool>,
    viewCount: nat)

  /** A fetched document: the post (its `image` possibly rewritten), the populated
      `commentsList` virtual if the query populated it, and the attached fields if computed. */
  datatype Doc = Doc(post: Post, commentsList: Option<seq<Comment>>, computed: Option<Computed>)

  function LikerIds(likes: seq<Like>): (ids: seq<UserId>)
    ensures |ids| == |likes|
    ensures forall i | 0 <= i < |likes| :: ids[i] == likes[i].userId
  {
    seq(|likes|, i requires 0 <= i < |likes| => likes[i].userId)
  }

  /** `likes.some(like => like.userId === userId)` over the post's likes holds exactly when
      the (viewer, post) pair has a like row. */
  lemma LikedIffPair(likes: seq<Like>, u: UserId, p: PostId)
    ensures (exists l | l in Filter(likes, OfPost(p)) :: l.userId == u) <==> PairCount(likes, u, p) > 0
  {
    PairCountPositive(likes, u, p);
    var mine := Filter(likes, OfPost(p));
    if exists e | e in likes :: e.userId == u && e.postId == p {
      var e :| e in likes && e.userId == u && e.postId == p;
      var j :| 0 <= j < |likes| && likes[j] == e;
      assert OfPost(p)(likes[j]);
      assert e in mine;
    }
    if exists l | l in mine :: l.userId == u {
      var l :| l in mine && l.userId == u;
      var i :| 0 <= i < |mine| && mine[i] == l;
      assert l in likes && OfPost(p)(l);
    }
  }

  /** `calculateFields(userId)`: formats the image, then derives the counts, the liker ids and
      the viewer flags from the comment, like and view collections. */
  function CalculateFields(doc: Doc, db: Db, viewer: Option<UserId>, env: Env): (d: Doc)
    ensures d.post == doc.post.(image := Some(FormatImageUrl(doc.post.image, env)))
    ensures d.commentsList == doc.commentsList && d.computed.Some?
    ensures var c, id := d.computed.value, doc.post.id;
            && c.likeCount == |Filter(db.likes, OfPost(id))| == |c.likes|
            && (forall i | 0 <= i < |c.likes| :: c.likes[i] == Filter(db.likes, OfPost(id))[i].userId)
            && c.viewCount == |Filter(db.views, OfPost(id))|
            && (doc.commentsList.Some? ==> c.comments == doc.commentsList.value)
            && (doc.commentsList.None? ==> c.comments == Filter(db.comments, CommentOfPost(id)))
            && c.commentCount == |c.comments|
            && (viewer.None? ==> c.hasLiked.None? && c.isOwner.None?)
            && (viewer.Some? ==> c.hasLiked == Some(PairCount(db.likes, viewer.value, id) > 0))
            && (viewer.Some? ==> c.isOwner == Some(doc.post.author == viewer.value))
  {
    var post := doc.post.(image := Some(FormatImageUrl(doc.post.image, env)));
    var comments := if doc.commentsList.Some? then doc.commentsList.value
                    else Filter(db.comments, CommentOfPost(doc.post.id));
    var likes := Filter(db.likes, OfPost(doc.post.id));
    var hasLiked := if viewer.Some? then Some(exists l | l in likes :: l.userId == viewer.value) else None;
    var isOwner := if viewer.Some? then Some(doc.post.author == viewer.value) else None;
    var views := Filter(db.views, OfPost(doc.post.id));
    assert viewer.Some? ==> hasLiked == Some(PairCount(db.likes, viewer.value, doc.post.id) > 0) by {
      if viewer.Some? { LikedIffPair(db.likes, viewer.value, doc.post.id); }
    }
    Doc(post, doc.commentsList,
        Some(Computed(|comments|, comments, |likes|, LikerIds(likes), hasLiked, isOwner, |views|)))
  }

  // ---- virtual getters ----

  /** A post as serialised with its virtuals. */
  datatype PostView = PostView(
    post: Post,
    commentCount: nat,
    comments: seq<Comment>,
    hasLiked: Option<bool>,
    isOwner: Option<bool>,
    viewCount: nat,
    likeCount: nat,
    likes: seq<UserId>,
    views: nat,
    countOfVisitors: nat,
    isPublish: bool)

  /** JavaScript's `flag || null`: `false`, `null` and an unset field all read as `null`. */
  function TrueOrNull(flag: Option<bool>): (r: Option<bool>)
    ensures r != Some(false)
    ensures r == Some(true) <==> flag == Some(true)
  {
    if flag == Some(true) then Some(true) else None
  }

  /** The virtual getters: `_x || 0` for counts, `_x || null` for flags, `_x || []` for lists,
      and `commentsList || _comments || []` for the comments. */
  function Expose(d: Doc): (v: PostView)
    ensures v.post == d.post
    ensures v.hasLiked != Some(false) && v.isOwner != Some(false)
    ensures v.views == v.viewCount && v.countOfVisitors == v.viewCount
    ensures v.isPublish <==> d.post.status == Published
    ensures d.computed.None? ==> && v.commentCount == 0 && v.likeCount == 0 && v.viewCount == 0
                                 && v.likes == [] && v.hasLiked.None? && v.isOwner.None?
                                 && v.comments == d.commentsList.GetOr([])
    ensures d.computed.Some? ==> var c := d.computed.value;
              && v.commentCount == c.commentCount && v.likeCount == c.likeCount
              && v.viewCount == c.viewCount && v.likes == c.likes
              && (v.hasLiked == Some(true) <==> c.hasLiked == Some(true))
              && (v.isOwner == Some(true) <==> c.isOwner == Some(true))
              && v.comments == (if d.commentsList.Some? then d.commentsList.value else c.comments)
  {
    match d.computed
    case None =>
      PostView(d.post, 0, d.commentsList.GetOr([]), None, None, 0, 0, [], 0, 0, d.post.status == Published)
    case Some(c) =>
      var comments := if d.commentsList.Some? then d.commentsList.value else c.comments;
      PostView(d.post, c.commentCount, comments, TrueOrNull(c.hasLiked), TrueOrNull(c.isOwner),
               c.viewCount, c.likeCount, c.likes, c.viewCount, c.viewCount, d.post.status == Published)
  }

  /** A document that no query hook decorated, as serialised: every count reads 0 and every flag null. */
  function Undecorated(p: Post): (v: PostView)
    ensures v.post == p && v.commentCount == 0 && v.likeCount == 0 && v.viewCount == 0
    ensures v.likes == [] && v.comments == [] && v.hasLiked.None? && v.isOwner.None?
  {
    Expose(Doc(p, None, None))
  }

  /** A fetched post, decorated for `viewer` and serialised. */
  function Decorate(post: Post, db: Db, viewer: Option<UserId>, env: Env): (v: PostView)
    ensures v.post == post.(image := Some(FormatImageUrl(post.image, env)))
    ensures v.likeCount == |Filter(db.likes, OfPost(post.id))| == |v.likes|
    ensures forall i | 0 <= i < |v.likes| :: v.likes[i] == Filter(db.likes, OfPost(post.id))[i].userId
    ensures v.viewCount == |Filter(db.views, OfPost(post.id))|
    ensures v.comments == Filter(db.comments, CommentOfPost(post.id)) && v.commentCount == |v.comments|
    ensures viewer.None? ==> v.hasLiked.None? && v.isOwner.None?
    ensures viewer.Some? ==> (v.hasLiked == Some(true) <==> PairCount(db.likes, viewer.value, post.id) > 0)
    ensures viewer.Some? ==> (v.isOwner == Some(true) <==> post.author == viewer.value)
    ensures v.hasLiked != Some(false) && v.isOwner != Some(false)
    ensures v.views == v.viewCount && v.countOfVisitors == v.viewCount
    ensures v.isPublish <==> post.status == Published
  {
    Expose(CalculateFields(Doc(post, None, None), db, viewer, env))
  }

  /** The `post('findOne')` hook: decorates the found document, if any, for the user passed
      through the query options. */
  function FindOneHook(found: Option<Post>, db: Db, optionsUserId: Option<UserId>, env: Env): (r: Option<PostView>)
    ensures r.Some? <==> found.Some?
    ensures r.Some? ==> r.value == Decorate(found.value, db, optionsUserId, env)
  {
    match found
    case None => None
    case Some(p) => Some(Decorate(p, db, optionsUserId, env))
  }

  /** The `post('find')` hook: decorates every listed document with no viewer, so listed posts
      always carry null viewer flags. */
  function FindHook(docs: seq<Post>, db: Db, env: Env): (r: seq<PostView>)
    ensures |r| == |docs|
    ensures forall i | 0 <= i < |docs| :: r[i].hasLiked.None? && r[i].isOwner.None?
    ensures forall i | 0 <= i < |docs| :: r[i].likeCount == |Filter(db.likes, OfPost(docs[i].id))|
    ensures forall i | 0 <= i < |docs| :: r[i].viewCount == |Filter(db.views, OfPost(docs[i].id))|
    ensures forall i | 0 <= i < |docs| :: r[i].post == docs[i].(image := Some(FormatImageUrl(docs[i].image, env)))
    ensures forall i | 0 <= i < |docs| ::
              r[i].comments == Filter(db.comments, CommentOfPost(docs[i].id)) && r[i].commentCount == |r[i].comments|
  {
    seq(|docs|, i requires 0 <= i < |docs| => Decorate(docs[i], db, None, env))
  }

  /** Listing posts shows each one as fetching it alone with no viewer would. */
  lemma FindHookAgreesWithFindOne(docs: seq<Post>, db: Db, env: Env, i: nat)
    requires i < |docs|
    ensures FindHook(docs, db, env)[i] == FindOneHook(Some(docs[i]), db, None, env).value
  {
  }

  /** Listing a longer result is listing its parts: the hook decorates each document on its own. */
  lemma FindHookConcat(a: seq<Post>, b: seq<Post>, db: Db, env: Env)
    ensures FindHook(a + b, db, env) == FindHook(a, db, env) + FindHook(b, db, env)
  {
  }
}
