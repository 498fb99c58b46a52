# Blog backend: posts, likes and accounts

A Dafny model of the server side of a MERN blog. Posts have titles, content, images, slugs, a
publication status and an author. Readers record views and toggle likes. Accounts register, log
in, change their details or password, and refresh their tokens. The model covers:

- the post schema with its validators, its two save hooks, the image-URL formatting, and the
  derived fields (`calculateFields`, the virtual getters, the `find`/`findOne` query hooks);
- the post handlers `read`, `create`, `update` and `delete`;
- the like handlers `postLike`, `remove` and `getPostLikes`;
- the user schema with its validators (the e-mail regular expression included), its unique
  indexes, its password-hashing save hook, its JSON view and its two tokens;
- the authentication handlers `register`, `login`, `updateDetails`, `updatePassword` and `refresh`.

The document store is a record of sequences, one per collection (`Store.Db`). A request is a
pure function from a store to a `Step`: the store afterwards, plus either a reply (status,
message, data) or a failure. The failure says what the error middleware receives:

- `Thrown`: an `ErrorResponse` with its status;
- `Invalid`: a validation error, listing the failing paths;
- `DuplicateKey`: a unique-index violation;
- `Fault`: an `Error` with a message;
- `Crash`: a `TypeError`, for example from dereferencing `null`.

Modules: `Results` (option, result, failure, reply), `Text` (JavaScript `\w`, `trim`,
UTF-16 length, hex), `EmailPattern` (the e-mail regular expression), `Store` (records and
queries), `PostModel`, `PostController`, `LikeController`, `UserModel`, `AuthController`.

Abstracted as parameters:

- bcrypt is `AuthController.Crypto`: a hash function and a compare function.
- A JWT is a `UserModel.Token`: either claims signed with one of two secrets, or unreadable
  text. Signing and verifying are structural.
- `slugify`, the four random bytes of the slug, the clock and the `HOST`/`PORT` environment
  variables are arguments.
- The S3 upload is its outcome: the URL, or the failure.
- ObjectIds are naturals. The store keeps the generator's mark, `nextId`. A new post or like
  takes an id at or above the mark and above every id of its collection, and the mark moves
  past it, so an id is never handed out twice, even after the row that had it is deleted. A
  new post's id is also above every post id that a like, a view or a comment refers to:
  deleting a post leaves its likes, views and comments behind, and a new ObjectId never meets
  them. Views and users are never deleted here, so their ids are one more than the largest in
  their collection.
- The authenticated user (`req.user._id`) is an argument, supplied by the auth middleware.

Behaviour of the handlers worth knowing:

- `read` with no authenticated user fails with a `TypeError` (`req.user._id`)
  (`PostController.Read`).
- `update` replies 200, and 200 with `data: null` for an unknown id.
- `has_liked` and `isowner` are `_x || null`, so `false` is served as `null`. No handler
  passes a user id to the query hooks, so every modelled reply carries `null` flags.
- `update` writes any schema key in the body, the author and the slug included. Its reply is
  not decorated: `findByIdAndUpdate` does not fire the `findOne` hook.
- The e-mail lookup of `login` uses the trimmed e-mail: the schema's `trim` setter also
  applies to query filters.

## Model

| member | source | states |
|---|---|---|
| Text.Trim | backend/models/post.model.js:19 | the result is a slice of the input with only JavaScript white space cut off each end, and it neither starts nor ends with white space |
| Text.TrimIdempotent | backend/models/user.model.js:15 | trimming a trimmed value changes nothing, so re-saving a stored field keeps it |
| Text.Utf16Length | backend/models/post.model.js:20 | `maxlength` counts UTF-16 code units: between one and two per character, exactly one per character for text in the basic plane |
| Text.Utf16LengthCountsAstral | backend/models/post.model.js:20 | the length `maxlength` checks is the number of characters plus the number outside the basic plane |
| Text.HexRoundTrip | backend/models/post.model.js:62 | decoding the hex text of `randomBytes(4).toString('hex')` gives the bytes back |
| EmailPattern.PatternIffShape | backend/models/user.model.js:28-31 | the anchored e-mail regular expression accepts a string exactly when it has the described shape (dotted word groups, one `@`, a domain ending in a 2- or 3-character label) |
| EmailPattern.AcceptedLocalPart | backend/models/user.model.js:29 | every accepted e-mail has exactly one `@`, and the part before it is word groups joined by single `.` or `-` |
| EmailPattern.AcceptedEnding | backend/models/user.model.js:29 | every accepted e-mail ends in `.` plus two or three word characters |
| Store.PostById | backend/controllers/post.controller.js:34 | `findById` gives a stored post with that id, and gives nothing exactly when no post has the id |
| PostModel.ParseStatus | backend/models/post.model.js:32-36 | only `published` and `unpublished` pass the enum, and a parsed status prints back as its name |
| PostModel.StatusRoundTrip | backend/models/post.model.js:32-36 | every status passes the enum under its own name |
| PostModel.CreateErrors | backend/models/post.model.js:16-36 | on create, the title fails when absent, blank after trimming or over 50 units; the content fails when absent or empty; the status fails when not in the enum; the body is valid exactly when none fails |
| PostModel.UpdateErrors | backend/controllers/post.controller.js:100-103 | the update validators check only the keys present: a present blank or over-long title, a present empty content, an invalid status |
| PostModel.SlugHook | backend/models/post.model.js:61-68 | the slug is the slugified title, a hyphen and eight lower-case hex digits that decode to the random bytes; nothing else changes |
| PostModel.PublishHook | backend/models/post.model.js:71-81 | a published post gets the current time as its publication date; the `else if` can never fire, so an unpublished post keeps its date |
| PostModel.ServerUrl | backend/models/post.model.js:149-151 | the server URL starts `http://HOST:` and ends `:PORT`, with `127.0.0.1` and `5000` when either is unset or empty, and holds nothing else |
| PostModel.ServerUrlDeterminesHostAndPort | backend/models/post.model.js:149-151 | for hosts without ':', the server URL determines the host and the port it was built from |
| PostModel.FormatImageUrl | backend/models/post.model.js:146-161 | an `http…` image is kept; another non-empty image is prefixed with the server URL; a missing or empty one becomes the placeholder; the result always starts with `http` |
| PostModel.FormatImageIdempotent | backend/models/post.model.js:146-161 | formatting an already formatted image URL changes nothing |
| PostModel.DefaultImageUrl | backend/models/post.model.js:26-29 | the schema default `default.png` is served from the server root, not from the placeholder path `public/images/default.png` |
| PostModel.LikerIds | backend/models/post.model.js:186 | the liker list has one entry per like, the like's user id, in order |
| PostModel.LikedIffPair | backend/models/post.model.js:189-191 | the `likes.some(...)` test over the post's likes holds exactly when the viewer has a like on that post |
| PostModel.CalculateFields | backend/models/post.model.js:164-199 | the image is formatted; the like, view and comment counts are the sizes of those collections filtered by post; a populated comment list takes precedence; the flags are null without a viewer and otherwise say whether the viewer liked or owns the post |
| PostModel.TrueOrNull | backend/models/post.model.js:98-104 | `flag \|\| null` never yields `false`, and yields `true` exactly when the flag is `true` |
| PostModel.Expose | backend/models/post.model.js:88-137 | counts read 0 and lists read empty when nothing was computed; `views` and `countOfVisitors` equal `view_count`; `isPublish` says whether the status is published; a false flag reads null |
| PostModel.Undecorated | backend/models/post.model.js:106-112 | a document that no hook decorated serialises with zero counts, empty lists and null flags |
| PostModel.Decorate | backend/models/post.model.js:164-199 | a fetched, decorated post reports its own likes, views and comments, and viewer flags that match the like rows and the author; a flag is never `false` (it is `true` or null), `views` and `countOfVisitors` both repeat the view count, and `isPublish` holds exactly for a published post |
| PostModel.FindOneHook | backend/models/post.model.js:202-212 | the `findOne` hook decorates the document exactly when one was found |
| PostModel.FindHook | backend/models/post.model.js:214-218 | the `find` hook decorates every listed post without a viewer: each entry shows its own post with the image formatted, that post's comments, like and view counts, and null flags |
| PostModel.FindHookAgreesWithFindOne | backend/models/post.model.js:202-218 | a listed post is shown as fetching it alone with no viewer would show it |
| PostModel.FindHookConcat | backend/models/post.model.js:214-218 | the hook decorates each document on its own: listing a concatenation lists the parts |
| PostController.RecordView | backend/controllers/post.controller.js:17-24 | a view is added only when the (user, post) pair has none, as one appended row; other pairs' views are untouched |
| PostController.RecordViewIdempotent | backend/controllers/post.controller.js:17-24 | recording the same view twice leaves the same views as once, and the pair then has a view |
| PostController.RecordViewKeepsAtMostOne | backend/controllers/post.controller.js:22-24 | when no pair had two views, no pair has two views afterwards |
| PostController.Read | backend/controllers/post.controller.js:14-40 | no user means a `TypeError`; otherwise the view is recorded first; the reply is 200, with data exactly when the id exists; that data is the stored post decorated with no viewer (formatted image, its comments, like and view counts), with null flags and a view count that includes this view |
| PostController.ReadTwiceSameStore | backend/controllers/post.controller.js:17-24 | reading a post a second time leaves the store as the first read left it |
| PostController.ResolveCategory | backend/controllers/post.controller.js:60-61 | `category?._id` is the requested id when such a category exists, and absent otherwise |
| PostController.Create | backend/controllers/post.controller.js:57-71 | a failed upload or an invalid body stores nothing; a valid one appends one post with a fresh id (at or above the generator's mark, which moves past it, and above every post id that a stored post, like, view or comment carries), the requester as author, the resolved category, the uploaded image or the body's or the default, the trimmed title, the slug hook's slug and the publish hook's date; the reply is 201 with the undecorated post |
| PostController.CreatedPostStartsClean | backend/controllers/post.controller.js:57-71 | a new post has no likes, views or comments and no viewer has liked it, even after a deleted post left its rows behind |
| PostController.UnreferencedPostIsBare | backend/models/post.model.js:164-199 | a post that no like, view or comment refers to is decorated with zero counts and no like by the viewer |
| PostController.CreateForcesAuthor | backend/controllers/post.controller.js:58-61 | the body's author, slug and category are all overridden: a created post belongs to the requester, whatever the body says |
| PostController.ApplyUpdate | backend/controllers/post.controller.js:100-103 | each key present in the body replaces the stored field (the title trimmed, the content, the status parsed from its name, the author and the slug included); absent keys keep theirs, as does the id |
| PostController.Update | backend/controllers/post.controller.js:87-106 | an upload failure or invalid keys store nothing; an unknown id replies 200 with null; otherwise the post is replaced in place and the reply is 200 with the undecorated result |
| PostController.UpdateKeepsSlugAndDate | backend/controllers/post.controller.js:100-103 | an update that does not name `slug` or `published_date` keeps both, because the save hooks do not run |
| PostController.Delete | backend/controllers/post.controller.js:110-114 | an unknown id is a `TypeError`; otherwise exactly one post with that id is removed, with the other posts and all likes, views and comments kept, and the reply is 204 |
| PostController.DeleteThenReadFindsNothing | backend/controllers/post.controller.js:110-114 | once the only post with an id is deleted, reading that id gives null data and deleting it again is a `TypeError` |
| PostController.CreateKeepsMark | backend/controllers/post.controller.js:69 | `create` keeps every post id below the generator's mark |
| PostController.StaleDeleteAfterRecreate | backend/controllers/post.controller.js:110-114 | after the only post with an id is deleted, a newly created post gets another id, so repeating the old `delete` is a `TypeError` and the new post stays |
| LikeController.PostBySlug | backend/controllers/like.controller.js:8 | `findOne({ slug })` gives a stored post with that slug, and gives nothing exactly when no post has it |
| LikeController.Toggle | backend/controllers/like.controller.js:13-22 | an existing like for the pair is deleted, and it is the first stored like for the pair (the pair's count drops by one); with none, one like with the given id is appended for the pair |
| LikeController.ToggleKeepsOthers | backend/controllers/like.controller.js:13-16 | a toggle leaves every other pair's likes as they were |
| LikeController.PostLike | backend/controllers/like.controller.js:6-24 | an unknown slug is a 404 and changes nothing; otherwise only the likes (and the generator's mark) change, with `Post unliked` when a like was deleted and `Post liked` with the new row when one was created; a created like's id is at or above the mark, which moves past it, and no stored like has it |
| LikeController.PostLikeKeepsMark | backend/controllers/like.controller.js:13-21 | `postLike` keeps every like id below the generator's mark |
| LikeController.RelikeGetsNewId | backend/controllers/like.controller.js:13-28 | after an unlike, liking again creates a like whose id differs from the deleted one's, so a repeated `remove` of the old id keeps the new like |
| LikeController.RemoveKeepsOtherIds | backend/controllers/like.controller.js:28 | `remove` of one id keeps every like with another id |
| LikeController.ToggleKeepsAtMostOne | backend/controllers/like.controller.js:13-22 | when no pair had two likes, no pair has two likes after a toggle |
| LikeController.ToggleTwiceFromZero | backend/controllers/like.controller.js:13-22 | like then unlike restores the likes exactly |
| LikeController.ToggleTwiceFromOne | backend/controllers/like.controller.js:13-22 | unlike then like again leaves one like for the pair and the other pairs' likes as they were |
| LikeController.ToggleNKeepsOthers | backend/controllers/like.controller.js:13-22 | any number of toggles by one user on one post leave all other pairs' likes alone |
| LikeController.ToggleParity | backend/controllers/like.controller.js:13-22 | from at most one like, after `n` toggles the post is liked exactly when it was liked and `n` is even, or it was not and `n` is odd; there is still at most one like |
| LikeController.ToggleFlips | backend/controllers/like.controller.js:13-22 | from at most one like, a toggle flips the pair's count between zero and one |
| LikeController.LikeTwiceRestores | backend/controllers/like.controller.js:6-24 | from no like, `postLike` twice replies `Post liked` then `Post unliked`, and every collection ends as it began; only the generator's mark has moved on |
| LikeController.Remove | backend/controllers/like.controller.js:27-30 | the reply is 204 with the deleted like, or null exactly when no like has the id; one like with that id goes and every other like stays |
| LikeController.GetPostLikes | backend/controllers/like.controller.js:33-37 | the likes are exactly the stored likes of that post, each as often as it is stored, whether or not the post exists; `count` is their number; the post is present exactly when it exists, and is then the stored post decorated with no viewer; nothing is written |
| LikeController.ToggleMovesCount | backend/controllers/like.controller.js:17-22 | a toggle moves the post's like count by one: up for `Post liked`, down for `Post unliked` |
| UserModel.ParseRole | backend/models/user.model.js:46-51 | only the four enum names pass, and a parsed role prints back as its name |
| UserModel.RoleRoundTrip | backend/models/user.model.js:46-51 | every role passes the enum under its own name |
| UserModel.UserErrors | backend/models/user.model.js:13-51 | a path is reported exactly when it fails its validators: a required text field that is absent or blank after trimming, an e-mail the pattern rejects after trimming, a password under 6 units, a role outside the enum |
| UserModel.ErrorFreeIsComplete | backend/models/user.model.js:13-45 | a body that passes validation has every required key, a matching non-empty e-mail and a password of at least 6 units |
| UserModel.AcceptedEmailShape | backend/models/user.model.js:28-31 | an e-mail the `email` validators accept (every registered one) has, once trimmed, exactly one `@`, a well-formed local part and a 2- or 3-character top-level label |
| UserModel.IndexViolation | backend/models/user.model.js:23-38 | the `email` index is reported exactly when another user has the e-mail; nothing is reported exactly when no other user shares the e-mail or the username |
| UserModel.SaveHookAsWritten | backend/models/user.model.js:57-63 | as written, the hook hashes the stored password on every save, modified or not |
| UserModel.SaveHook | backend/models/user.model.js:57-63 | the intended hook hashes a modified password and leaves a document with an unmodified password exactly as it was |
| UserModel.SaveHooksAgreeWhenModified | backend/models/user.model.js:57-63 | both hooks do the same when the password was modified |
| UserModel.SaveHookRehashes | backend/models/user.model.js:58 | on a save with the password unmodified, the hook as written assigns a second hash to the document and the intended one leaves the user as it was |
| UserModel.ToJson | backend/models/user.model.js:91-95 | the JSON view carries every field of the user except the password |
| UserModel.ToJsonDropsOnlyPassword | backend/models/user.model.js:91-95 | the JSON view plus the password gives back the user |
| UserModel.ToJsonIgnoresPassword | backend/models/user.model.js:91-95 | the JSON view does not depend on the password |
| UserModel.AccessToken | backend/models/user.model.js:72-78 | the access token signs the id and the first name with the access secret and carries no password |
| UserModel.RefreshToken | backend/models/user.model.js:81-87 | the refresh token signs the id and the stored password hash with the refresh secret |
| UserModel.Verify | backend/controllers/auth.controller.js:92-93 | verification decodes the claims exactly when the token was signed with the given secret |
| UserModel.TokensNeedTheirSecret | backend/models/user.model.js:72-87 | a refresh token verifies with the refresh secret only, and an access token is rejected by it |
| AuthController.UserById | backend/controllers/auth.controller.js:97 | `findById` gives a stored user with that id, and gives nothing exactly when no user has it |
| AuthController.UserByEmail | backend/controllers/auth.controller.js:26 | `findOne({ email })` gives a stored user with the trimmed e-mail, and gives nothing exactly when none has it |
| AuthController.NewUser | backend/controllers/auth.controller.js:7 | the created document has an id no stored user has, the trimmed text fields, the plain password and the given role or `user` |
| AuthController.Register | backend/controllers/auth.controller.js:6-14 | an invalid body is a validation error and stores nothing; a duplicate e-mail or username stores nothing; otherwise the user is appended with the password hashed, and the reply is 201 with the JSON view and an access token |
| AuthController.RegisterKeepsUniqueKeys | backend/controllers/auth.controller.js:7 | registering keeps ids, e-mails and usernames unique |
| AuthController.Login | backend/controllers/auth.controller.js:17-39 | a missing or empty e-mail or password is a 400; an unknown e-mail and a wrong password are the same 401; otherwise 200 with the JSON view, an access token and a refresh token; nothing is written |
| AuthController.RegisterThenLogin | backend/controllers/auth.controller.js:6-39 | a user who has just registered can log in with the same e-mail and password |
| AuthController.Whitelist | backend/controllers/auth.controller.js:52-56 | only first name, last name and e-mail are taken from the body |
| AuthController.UpdateValidationErrors | backend/controllers/auth.controller.js:58-61 | with `runValidators`, a path is reported exactly when it is present in the update and fails its validators |
| AuthController.ApplySet | backend/controllers/auth.controller.js:58-61 | every present key is set, through its `trim` setter, and a password would be stored unhashed; absent keys and the id are kept |
| AuthController.SetDetails | backend/controllers/auth.controller.js:57-66 | invalid keys are a validation error; an unknown id replies 200 with null; for an existing user, an index violation is that path's duplicate-key error and stores nothing, and otherwise the user is replaced in place and the JSON view is returned with 200 |
| AuthController.UpdateDetails | backend/controllers/auth.controller.js:51-68 | only the users collection changes, and no user's id, username, password or role changes |
| AuthController.WhitelistedUpdateKeepsCredentials | backend/controllers/auth.controller.js:52-61 | an update without username, password or role keys changes none of them for any user |
| AuthController.UpdateDetailsIgnoresOtherKeys | backend/controllers/auth.controller.js:52-56 | two bodies that agree on first name, last name and e-mail have the same effect |
| AuthController.SetDetailsKeepsUniqueKeys | backend/controllers/auth.controller.js:58-61 | an update by id keeps ids, e-mails and usernames unique |
| AuthController.Rehashed | backend/controllers/auth.controller.js:78-79 | assigning a new password and saving stores its hash; assigning the stored value leaves it |
| AuthController.UpdatePassword | backend/controllers/auth.controller.js:72-84 | an unknown user is a `TypeError`; a missing current password is bcrypt's illegal-arguments error; a wrong one is a 401; a missing or short new one is a validation error; none of these writes; the request succeeds exactly when none of these applies, and then only that user's password changes and the reply is 200 |
| AuthController.Refresh | backend/controllers/auth.controller.js:87-109 | every failure is a 401 and nothing is written; a token succeeds exactly when the refresh secret signed it, it names an id and a non-empty password, and that user's stored hash equals the password; the reply then carries fresh access and refresh tokens for the user |
| AuthController.LoginThenRefresh | backend/controllers/auth.controller.js:87-109 | the refresh token a login hands out is accepted by `refresh` while the stored hash is non-empty and unchanged |
| AuthController.PasswordChangeRevokesRefresh | backend/controllers/auth.controller.js:100-101 | once the password has changed, every refresh token issued before is rejected with `Invalid refresh token` |
| AuthController.PasswordChangeThenLogin | backend/controllers/auth.controller.js:72-84 | after a password change, logging in with the user's e-mail and the new password succeeds |

## Left out

- I/O and time are parameters: bcrypt, JWT signing, the S3 upload, `slugify`, random bytes,
  the clock and environment variables.
- JWT expiry (`JWT_EXPIRE`, `JWT_REFRESH_EXPIRE`) is not modelled: tokens never expire.
- Concurrency is not modelled. Each handler runs alone against a store snapshot, so
  interleaved `read` or `postLike` requests cannot race.
- `populate('author')` and `populate('category')` are not modelled; a post carries the ids.
  A malformed id (a Mongoose `CastError`) is not modelled either; ids are naturals.
- `list` (and the pagination middleware that fills `res.results`) is not modelled. It lives
  outside the modelled files.
- `logout` is not modelled: it only replies with a constant message.
- `refresh` throws inside the `jwt.verify` callback. The model reports those throws as the
  401 failures they carry. In the running server they escape the request's error handling.
- Not part of this model: the category, comment and view controllers, the profile model and
  the frontend. The comment, view and category records appear only as data.
- Text.Trim: white space is the usual ASCII and Unicode space characters. Unicode
  normalisation and case folding are not modelled.
- Text.FromHex and Text.HexValue are total (they read a bad digit as 0). They exist only to
  state the hex round trip.
- UserModel.UserErrors: states which paths fail, not the order Mongoose reports them in.
- AuthController.UpdateDetails: states only the whitelisting properties. The rest of its
  behaviour is the contract of AuthController.SetDetails.
- AuthController.RegisterThenLogin: assumes bcrypt's `compare` accepts a password against its
  own hash.
- AuthController.PasswordChangeThenLogin: assumes unique e-mails, a new password that differs
  from the stored hash, and a `compare` that accepts a password against its own hash.
- AuthController.LoginThenRefresh: requires the user's stored hash to be non-empty. The
  handler rejects an empty password claim.
- AuthController.Rehashed: follows the corrected save hook. When `newPassword` equals the
  stored hash, the path is not marked modified. The hook as written would then hash the stored
  hash again; the model keeps it unchanged (see Findings).
- PostModel.Decorate: the comments are whole comment rows. The source selects only `content`
  and `createdAt` and populates the commenter, which the model does not.
- AuthController.ApplySet: assumes keys that are `undefined` in the update are dropped before
  it is sent, as Mongoose does from version 7 on. The source does not pin a Mongoose version.
- AuthController.UserByEmail: assumes the schema's `trim` setter is applied to the query
  filter value.

## Findings

| source | as written | input that shows it | evidently intended | confidence | as-written member | corrected member |
|---|---|---|---|---|---|---|
| backend/models/user.model.js:57-63 | `if (!this.isModified('password')) next();` has no `return`, so the hook goes on to hash the stored hash again and assigns the result to the document | saving a user document whose password was not modified, e.g. after changing only its role through `save()` | `return next()`: leave an unmodified password alone | medium, not executed | UserModel.SaveHookAsWritten (shown by UserModel.SaveHookRehashes) | UserModel.SaveHook |

The two hooks agree whenever the password was modified (UserModel.SaveHooksAgreeWhenModified).
`register` always saves a modified password. `updatePassword` does not when `newPassword`
equals the stored hash. There the hook as written hashes the hash again. Because `next()` has already let the save
go ahead, that second hash is probably assigned only to the in-memory document after the write,
and is stored only if the document is saved again. The model
(AuthController.Rehashed) keeps the stored value, as the corrected hook does. The rest of the
model uses the corrected hook.
