/** The Publication aggregate: a post with optional text, media items kept
    in insertion order, soft-deletable comments and a set of likes. Every
    mutator either fails without touching the publication or returns the
    updated publication together with the event describing the change. */
module Publications {
  import opened Js
  import opened Results
  import PublicationIds
  import Contents
  import Comments
  import MediaItems
  import MediaOrdering

  datatype PostType = Text | Image | Video | TextImage

  datatype PublicationStatus = Draft | Published | Archived

  datatype Visibility = Public | Private | Friends

  datatype Publication = Publication(
    id: PublicationIds.PublicationId,
    authorId: Value,                          // stored as given, never validated
    text: Contents.Content,
    postType: PostType,
    mediaItems: seq<MediaItems.MediaItem>,    // in insertion order
    comments: seq<Comments.Comment>,          // in insertion order
    likes: set<string>,
    createdAt: int,
    updatedAt: int,
    status: PublicationStatus,
    visibility: Visibility)

  datatype PublicationError =
    | InvalidId(idError: PublicationIds.IdError)
    | InvalidContent(contentError: Contents.ContentError)
    | InvalidPostType
    | AuthorRequired
    | InvalidComment(commentError: Comments.CommentError)
    | ParentNotFound
    | CommentNotFound
    | NotAllowedToDelete
    | UserRequired
    | SelfLike
    | AlreadyLiked
    | NotLiked
    | InvalidMedia(mediaError: MediaItems.MediaError)
    | MediaNotFound
    | InvalidVisibility

  /** The records the mutators return for the orchestration layer. */
  datatype Event =
    | CommentAdded(publicationId: string, commentId: string, authorId: string, parentCommentId: Value, timestamp: int)
    | CommentDeleted(publicationId: string, commentId: string, deletedBy: Value, timestamp: int)
    | PublicationLiked(publicationId: string, userId: string, timestamp: int)
    | PublicationUnliked(publicationId: string, userId: string, timestamp: int)
    | MediaItemAdded(publicationId: string, mediaItemId: string, mediaType: MediaItems.MediaType, timestamp: int)
    | MediaItemRemoved(publicationId: string, mediaItemId: string, timestamp: int)

  // ---------------------------------------------------------------------
  // Lookups by id (the source keeps comments and media in id-keyed maps)

  ghost function CommentIds(cs: seq<Comments.Comment>): set<string> {
    set i | 0 <= i < |cs| :: cs[i].id
  }

  ghost function MediaIds(ms: seq<MediaItems.MediaItem>): set<string> {
    set i | 0 <= i < |ms| :: ms[i].id
  }

  /** Position of the comment with key `id`. */
  function FindComment(cs: seq<Comments.Comment>, id: string): (r: Option<nat>)
    ensures r.None? <==> id !in CommentIds(cs)
    ensures r.Some? ==> r.value < |cs| && cs[r.value].id == id
    ensures r.Some? ==> forall j :: 0 <= j < r.value ==> cs[j].id != id
  {
    if cs == [] then None
    else if cs[0].id == id then Some(0)
    else
      var r := FindComment(cs[1..], id);
      assert CommentIds(cs) == {cs[0].id} + CommentIds(cs[1..]) by {
        forall x | x in CommentIds(cs) ensures x in {cs[0].id} + CommentIds(cs[1..]) {
          var i :| 0 <= i < |cs| && cs[i].id == x;
          if i > 0 { assert cs[1..][i - 1].id == x; }
        }
      }
      if r.None? then None else Some(r.value + 1)
  }

  /** Position of the media item with key `id`. */
  function FindMedia(ms: seq<MediaItems.MediaItem>, id: string): (r: Option<nat>)
    ensures r.None? <==> id !in MediaIds(ms)
    ensures r.Some? ==> r.value < |ms| && ms[r.value].id == id
    ensures r.Some? ==> forall j :: 0 <= j < r.value ==> ms[j].id != id
  {
    if ms == [] then None
    else if ms[0].id == id then Some(0)
    else
      var r := FindMedia(ms[1..], id);
      assert MediaIds(ms) == {ms[0].id} + MediaIds(ms[1..]) by {
        forall x | x in MediaIds(ms) ensures x in {ms[0].id} + MediaIds(ms[1..]) {
          var i :| 0 <= i < |ms| && ms[i].id == x;
          if i > 0 { assert ms[1..][i - 1].id == x; }
        }
      }
      if r.None? then None else Some(r.value + 1)
  }

  /** `parentCommentId && !this._comments.has(parentCommentId)` does not throw. */
  ghost predicate ParentResolves(cs: seq<Comments.Comment>, parent: Value) {
    Truthy(parent) ==> parent.Str? && parent.s in CommentIds(cs)
  }

  // ---------------------------------------------------------------------
  // Invariant

  ghost predicate CommentIdsDistinct(cs: seq<Comments.Comment>) {
    forall i, j :: 0 <= i < j < |cs| ==> cs[i].id != cs[j].id
  }

  ghost predicate MediaIdsDistinct(ms: seq<MediaItems.MediaItem>) {
    forall i, j :: 0 <= i < j < |ms| ==> ms[i].id != ms[j].id
  }

  /** What the mutators keep true: comment and media keys are unique (they
      are map keys), every reply points at a comment of this publication,
      and every like is a non-empty user id other than the author's. */
  ghost predicate Wf(p: Publication) {
    && CommentIdsDistinct(p.comments)
    && (forall i :: 0 <= i < |p.comments| ==> ParentResolves(p.comments, p.comments[i].parentCommentId))
    && MediaIdsDistinct(p.mediaItems)
    && (forall u :: u in p.likes ==> u != "" && Str(u) != p.authorId)
  }

  // ---------------------------------------------------------------------
  // Derived type

  function OfMedia(t: MediaItems.MediaType): PostType {
    match t
    case Image => Image
    case Video => Video
  }

  /** `_updateType()`: `text_image` when there is text and some media, else
      the type of the first media item in insertion order, else `text`. */
  function DerivedType(text: Contents.Content, items: seq<MediaItems.MediaItem>): (t: PostType)
    ensures t == TextImage <==> !Contents.IsEmpty(text) && |items| > 0
    ensures t == Text <==> |items| == 0
    ensures |items| > 0 && Contents.IsEmpty(text) ==> t == OfMedia(items[0].mediaType)
  {
    var hasText := !Contents.IsEmpty(text);
    var hasMedia := |items| > 0;
    if hasText && hasMedia then TextImage
    else if hasMedia then OfMedia(items[0].mediaType)
    else Text
  }

  ghost predicate TypeFollowsContent(p: Publication) {
    p.postType == DerivedType(p.text, p.mediaItems)
  }

  // ---------------------------------------------------------------------
  // Construction

  /** `['text', 'image', 'video', 'text_image'].includes(type)`, with the
      parameter's default `'text'`. */
  function ParsePostType(v: Value): (r: Option<PostType>)
    ensures r.Some? <==> v in {Undefined, Str("text"), Str("image"), Str("video"), Str("text_image")}
    ensures r == Some(Text) <==> v == Undefined || v == Str("text")
    ensures r == Some(Image) <==> v == Str("image")
    ensures r == Some(Video) <==> v == Str("video")
    ensures r == Some(TextImage) <==> v == Str("text_image")
  {
    if v.Undefined? || v == Str("text") then Some(Text)
    else if v == Str("image") then Some(Image)
    else if v == Str("video") then Some(Video)
    else if v == Str("text_image") then Some(TextImage)
    else None
  }

  /** `new Publication(id, authorId, text, type)`: a falsy text becomes the
      empty string; the given type is kept as is, not derived. */
  function New(id: Value, authorId: Value, text: Value, postType: Value, now: int)
    : (r: Result<Publication, PublicationError>)
    ensures r.Ok? <==>
      && PublicationIds.New(id).Ok?
      && (!Truthy(text) || Contents.Acceptable(text))
      && ParsePostType(postType).Some?
    ensures PublicationIds.New(id).Err? ==> r == Err(InvalidId(PublicationIds.New(id).error))
    ensures PublicationIds.New(id).Ok? && Truthy(text) && !Contents.Acceptable(text) ==>
      r == Err(InvalidContent(Contents.New(text).error))
    ensures PublicationIds.New(id).Ok? && (!Truthy(text) || Contents.Acceptable(text)) && ParsePostType(postType).None? ==>
      r == Err(InvalidPostType)
    ensures r.Ok? ==>
      && r.value.id.value == id.s
      && r.value.authorId == authorId
      && r.value.text.text == (if Truthy(text) then text else Str(""))
      && Some(r.value.postType) == ParsePostType(postType)
      && r.value.mediaItems == [] && r.value.comments == [] && r.value.likes == {}
      && r.value.status == Published && r.value.visibility == Public
      && r.value.createdAt == now && r.value.updatedAt == now
    ensures r.Ok? ==> Wf(r.value)
  {
    var pid :- PublicationIds.New(id).MapFailure(e => InvalidId(e));
    var content :- Contents.New(if Truthy(text) then text else Str("")).MapFailure(e => InvalidContent(e));
    var t := ParsePostType(postType);
    if t.None? then Err(InvalidPostType)
    else Ok(Publication(pid, authorId, content, t.value, [], [], {}, now, now, Published, Public))
  }

  // ---------------------------------------------------------------------
  // Comments

  lemma CommentIdsAppend(cs: seq<Comments.Comment>, c: Comments.Comment)
    ensures CommentIds(cs + [c]) == CommentIds(cs) + {c.id}
  {
    var cs' := cs + [c];
    forall x | x in CommentIds(cs') ensures x in CommentIds(cs) + {c.id} {
      var i :| 0 <= i < |cs'| && cs'[i].id == x;
      if i < |cs| { assert cs[i].id == x; }
    }
    forall x | x in CommentIds(cs) ensures x in CommentIds(cs') {
      var i :| 0 <= i < |cs| && cs[i].id == x;
      assert cs'[i].id == x;
    }
    assert cs'[|cs|].id == c.id;
  }

  lemma CommentIdsUpdate(cs: seq<Comments.Comment>, k: nat, c: Comments.Comment)
    requires k < |cs| && c.id == cs[k].id
    ensures CommentIds(cs[k := c]) == CommentIds(cs)
  {
    var cs' := cs[k := c];
    forall x | x in CommentIds(cs) ensures x in CommentIds(cs') {
      var i :| 0 <= i < |cs| && cs[i].id == x;
      assert cs'[i].id == x;
    }
  }

  /** `addComment(authorId, text, parentCommentId)` with the fresh key
      `commentId` the source draws from `uuidv4()`. The parent check only
      asks that the key exists, so a soft-deleted parent is accepted. */
  function AddComment(p: Publication, authorId: Value, text: Value, parent: Value, commentId: string, now: int)
    : (r: Result<(Publication, Event), PublicationError>)
    requires commentId != "" && commentId !in CommentIds(p.comments)
    ensures r.Ok? <==>
      && IsNonEmptyString(authorId)
      && Comments.IsValidText(text)
      && p.id.value != ""
      && ParentResolves(p.comments, parent)
    ensures !IsNonEmptyString(authorId) ==> r == Err(AuthorRequired)
    ensures IsNonEmptyString(authorId) && !Comments.IsValidText(text) ==> r.Err? && r.error.InvalidComment?
    ensures IsNonEmptyString(authorId) && !(Comments.IsValidText(text) && p.id.value != "")
      ==> r == Err(InvalidComment(Comments.New(Str(commentId), authorId, text, Str(p.id.value), parent, now).error))
    ensures (IsNonEmptyString(authorId) && Comments.IsValidText(text) && p.id.value != ""
      && !ParentResolves(p.comments, parent)) ==> r == Err(ParentNotFound)
    ensures r.Ok? ==> |r.value.0.comments| == |p.comments| + 1
    ensures r.Ok? ==>
      var q := r.value.0;
      var c := q.comments[|p.comments|];
      && q.comments[..|p.comments|] == p.comments
      && c.id == commentId && c.authorId == authorId.s && c.text == text.s
      && c.publicationId == p.id.value && c.createdAt == now && c.updatedAt == now
      && c.parentCommentId == DefaultNull(parent)
      && Comments.IsActive(c) && c.likesCount == 0 && !c.isEdited
      && q == p.(comments := q.comments, updatedAt := now)
      && r.value.1 == CommentAdded(p.id.value, commentId, authorId.s, DefaultNull(parent), now)
  {
    if !IsNonEmptyString(authorId) then Err(AuthorRequired)
    else
      var c :- Comments.New(Str(commentId), authorId, text, Str(p.id.value), parent, now)
        .MapFailure(e => InvalidComment(e));
      if Truthy(parent) && !(parent.Str? && FindComment(p.comments, parent.s).Some?) then Err(ParentNotFound)
      else
        var q := p.(comments := p.comments + [c], updatedAt := now);
        CommentIdsAppend(p.comments, c);
        assert q.comments[..|p.comments|] == p.comments;
        Ok((q, CommentAdded(p.id.value, commentId, authorId.s, DefaultNull(parent), now)))
  }

  /** `comment.authorId !== userId && this._authorId !== userId` does not throw. */
  predicate MayDelete(p: Publication, c: Comments.Comment, userId: Value) {
    StrictEquals(Str(c.authorId), userId) || StrictEquals(p.authorId, userId)
  }

  /** `deleteComment(commentId, userId)`: only the comment's author or the
      publication's author may delete, and deletion is a status change. */
  function DeleteComment(p: Publication, commentId: Value, userId: Value, now: int)
    : (r: Result<(Publication, Event), PublicationError>)
    ensures !(commentId.Str? && commentId.s in CommentIds(p.comments)) ==> r == Err(CommentNotFound)
    ensures commentId.Str? && commentId.s in CommentIds(p.comments) ==>
      var k := FindComment(p.comments, commentId.s).value;
      && (r.Ok? <==> MayDelete(p, p.comments[k], userId))
      && (r.Err? ==> r.error == NotAllowedToDelete)
      && (r.Ok? ==> r.value.0 == p.(comments := p.comments[k := Comments.MarkAsDeleted(p.comments[k], now)], updatedAt := now))
    ensures r.Ok? ==>
      && |r.value.0.comments| == |p.comments|
      && CommentIds(r.value.0.comments) == CommentIds(p.comments)
      && r.value.1 == CommentDeleted(p.id.value, commentId.s, userId, now)
  {
    var found := if commentId.Str? then FindComment(p.comments, commentId.s) else None;
    if found.None? then Err(CommentNotFound)
    else
      var k := found.value;
      var c := p.comments[k];
      if !MayDelete(p, c, userId) then Err(NotAllowedToDelete)
      else
        var q := p.(comments := p.comments[k := Comments.MarkAsDeleted(c, now)], updatedAt := now);
        CommentIdsUpdate(p.comments, k, Comments.MarkAsDeleted(c, now));
        Ok((q, CommentDeleted(p.id.value, commentId.s, userId, now)))
  }

  /** `getActiveComments()`: the active comments, in insertion order. */
  function ActiveComments(cs: seq<Comments.Comment>): (r: seq<Comments.Comment>)
    ensures |r| <= |cs|
    ensures forall c :: c in r <==> c in cs && Comments.IsActive(c)
    ensures (forall i :: 0 <= i < |cs| ==> Comments.IsActive(cs[i])) ==> r == cs
  {
    if cs == [] then []
    else
      var rest := ActiveComments(cs[1..]);
      assert forall c :: c in cs <==> c == cs[0] || c in cs[1..];
      if Comments.IsActive(cs[0]) then [cs[0]] + rest else rest
  }

  function GetActiveComments(p: Publication): seq<Comments.Comment> {
    ActiveComments(p.comments)
  }

  // ---------------------------------------------------------------------
  // Likes

  /** `like(userId)`. */
  function Like(p: Publication, userId: Value, now: int): (r: Result<(Publication, Event), PublicationError>)
    ensures r.Ok? <==> IsNonEmptyString(userId) && !StrictEquals(userId, p.authorId) && userId.s !in p.likes
    ensures !IsNonEmptyString(userId) ==> r == Err(UserRequired)
    ensures IsNonEmptyString(userId) && StrictEquals(userId, p.authorId) ==> r == Err(SelfLike)
    ensures IsNonEmptyString(userId) && !StrictEquals(userId, p.authorId) && userId.s in p.likes
      ==> r == Err(AlreadyLiked)
    ensures r.Ok? ==> r.value.0 == p.(likes := p.likes + {userId.s}, updatedAt := now)
    ensures r.Ok? ==> LikesCount(r.value.0) == LikesCount(p) + 1
    ensures r.Ok? ==> r.value.1 == PublicationLiked(p.id.value, userId.s, now)
  {
    if !IsNonEmptyString(userId) then Err(UserRequired)
    else if StrictEquals(userId, p.authorId) then Err(SelfLike)
    else if userId.s in p.likes then Err(AlreadyLiked)
    else
      var q := p.(likes := p.likes + {userId.s}, updatedAt := now);
      Ok((q, PublicationLiked(p.id.value, userId.s, now)))
  }

  /** `unlike(userId)`. */
  function Unlike(p: Publication, userId: Value, now: int): (r: Result<(Publication, Event), PublicationError>)
    ensures r.Ok? <==> userId.Str? && userId.s in p.likes
    ensures r.Err? ==> r.error == NotLiked
    ensures r.Ok? ==> r.value.0 == p.(likes := p.likes - {userId.s}, updatedAt := now)
    ensures r.Ok? ==> LikesCount(r.value.0) + 1 == LikesCount(p)
    ensures r.Ok? ==> r.value.1 == PublicationUnliked(p.id.value, userId.s, now)
  {
    if !(userId.Str? && userId.s in p.likes) then Err(NotLiked)
    else Ok((p.(likes := p.likes - {userId.s}, updatedAt := now), PublicationUnliked(p.id.value, userId.s, now)))
  }

  // ---------------------------------------------------------------------
  // Media

  lemma MediaIdsAppend(ms: seq<MediaItems.MediaItem>, m: MediaItems.MediaItem)
    ensures MediaIds(ms + [m]) == MediaIds(ms) + {m.id}
  {
    var ms' := ms + [m];
    forall x | x in MediaIds(ms') ensures x in MediaIds(ms) + {m.id} {
      var i :| 0 <= i < |ms'| && ms'[i].id == x;
      if i < |ms| { assert ms[i].id == x; }
    }
    forall x | x in MediaIds(ms) ensures x in MediaIds(ms') {
      var i :| 0 <= i < |ms| && ms[i].id == x;
      assert ms'[i].id == x;
    }
    assert ms'[|ms|].id == m.id;
  }

  /** `order !== null ? order : this._mediaItems.size`. */
  function ItemOrder(p: Publication, order: Option<real>): real {
    if order.Some? then order.value else |p.mediaItems| as real
  }

  /** `addMediaItem(type, url, filename, size, order)` with the fresh key
      `mediaId` the source draws from `uuidv4()`. Without an explicit order
      the item's order is the number of items already present. */
  function AddMediaItem(p: Publication, mediaType: Value, url: Value, filename: Value, size: Value,
                        order: Option<real>, mediaId: string, now: int)
    : (r: Result<(Publication, Event), PublicationError>)
    requires mediaId != "" && mediaId !in MediaIds(p.mediaItems)
    ensures r.Ok? <==>
      && p.id.value != ""
      && MediaItems.ParseType(mediaType).Some?
      && IsNonEmptyString(url) && IsNonEmptyString(filename) && MediaItems.IsValidSize(size)
    ensures r.Err? ==> r.error == InvalidMedia(MediaItems.New(Str(mediaId), Str(p.id.value), mediaType, url, filename, size,
                                                              ItemOrder(p, order), now).error)
    ensures r.Ok? ==> |r.value.0.mediaItems| == |p.mediaItems| + 1
    ensures r.Ok? ==>
      var q := r.value.0;
      var m := q.mediaItems[|p.mediaItems|];
      && q.mediaItems[..|p.mediaItems|] == p.mediaItems
      && m.id == mediaId
      && Some(m.mediaType) == MediaItems.ParseType(mediaType)
      && m.publicationId == p.id.value
      && m.url == url.s && m.filename == filename.s && m.size == size.n
      && m.order == (if order.Some? then order.value else |p.mediaItems| as real)
      && m.createdAt == now && m.cloudinaryPublicId.None? && m.metadata == map[]
      && TypeFollowsContent(q)
      && q.postType != Text
      && q == p.(mediaItems := q.mediaItems, postType := q.postType, updatedAt := now)
      && r.value.1 == MediaItemAdded(p.id.value, mediaId, m.mediaType, now)
  {
    var m :- MediaItems.New(Str(mediaId), Str(p.id.value), mediaType, url, filename, size, ItemOrder(p, order), now)
      .MapFailure(e => InvalidMedia(e));
    var items := p.mediaItems + [m];
    MediaIdsAppend(p.mediaItems, m);
    assert items[..|p.mediaItems|] == p.mediaItems;
    var q := p.(mediaItems := items, postType := DerivedType(p.text, items), updatedAt := now);
    Ok((q, MediaItemAdded(p.id.value, mediaId, m.mediaType, now)))
  }

  /** The items left in insertion order once position `k` is removed. */
  function RemoveAt(ms: seq<MediaItems.MediaItem>, k: nat): (r: seq<MediaItems.MediaItem>)
    requires k < |ms|
    ensures |r| == |ms| - 1
    ensures forall i :: 0 <= i < k ==> r[i] == ms[i]
    ensures forall i :: k <= i < |r| ==> r[i] == ms[i + 1]
  {
    ms[..k] + ms[k + 1..]
  }

  /** `removeMediaItem(mediaItemId)`: the survivors keep their insertion
      order and are renumbered 0..n-1 in the stable order of their previous
      `order` values; the type is derived again. */
  function RemoveMediaItem(p: Publication, mediaId: Value, now: int)
    : (r: Result<(Publication, Event), PublicationError>)
    ensures r.Ok? <==> mediaId.Str? && mediaId.s in MediaIds(p.mediaItems)
    ensures r.Err? ==> r.error == MediaNotFound
    ensures r.Ok? ==>
      var q := r.value.0;
      var k := FindMedia(p.mediaItems, mediaId.s).value;
      var rest := RemoveAt(p.mediaItems, k);
      && |q.mediaItems| == |p.mediaItems| - 1
      && (forall i :: 0 <= i < |q.mediaItems| ==> q.mediaItems[i] == rest[i].(order := q.mediaItems[i].order))
      && MediaOrdering.OrderValues(q.mediaItems) == MediaOrdering.DenseOrders(|q.mediaItems|)
      && (forall i, j :: 0 <= i < |q.mediaItems| && 0 <= j < |q.mediaItems| ==>
            (q.mediaItems[i].order < q.mediaItems[j].order <==> MediaOrdering.Precedes(rest, i, j)))
      && TypeFollowsContent(q)
      && q == p.(mediaItems := q.mediaItems, postType := q.postType, updatedAt := now)
      && r.value.1 == MediaItemRemoved(p.id.value, mediaId.s, now)
  {
    var found := if mediaId.Str? then FindMedia(p.mediaItems, mediaId.s) else None;
    if found.None? then Err(MediaNotFound)
    else
      var items := MediaOrdering.Renumber(RemoveAt(p.mediaItems, found.value));
      var q := p.(mediaItems := items, postType := DerivedType(p.text, items), updatedAt := now);
      Ok((q, MediaItemRemoved(p.id.value, mediaId.s, now)))
  }

  // ---------------------------------------------------------------------
  // Text and visibility

  /** `updateText(newText)`: unlike the constructor, a falsy text is wrapped
      as given (`null` stays `null`). */
  function UpdateText(p: Publication, newText: Value, now: int): (r: Result<Publication, PublicationError>)
    ensures r.Ok? <==> Contents.Acceptable(newText)
    ensures r.Err? ==> r.error == InvalidContent(Contents.New(newText).error)
    ensures r.Ok? ==>
      && r.value.text.text == newText
      && TypeFollowsContent(r.value)
      && r.value == p.(text := r.value.text, postType := r.value.postType, updatedAt := now)
  {
    var content :- Contents.New(newText).MapFailure(e => InvalidContent(e));
    Ok(p.(text := content, postType := DerivedType(content, p.mediaItems), updatedAt := now))
  }

  function ParseVisibility(v: Value): (r: Option<Visibility>)
    ensures r.Some? <==> v in {Str("public"), Str("private"), Str("friends")}
    ensures r == Some(Public) <==> v == Str("public")
    ensures r == Some(Private) <==> v == Str("private")
    ensures r == Some(Friends) <==> v == Str("friends")
  {
    if v == Str("public") then Some(Public)
    else if v == Str("private") then Some(Private)
    else if v == Str("friends") then Some(Friends)
    else None
  }

  /** `changeVisibility(newVisibility)`. */
  function ChangeVisibility(p: Publication, v: Value, now: int): (r: Result<Publication, PublicationError>)
    ensures r.Ok? <==> v in {Str("public"), Str("private"), Str("friends")}
    ensures r.Err? ==> r.error == InvalidVisibility
    ensures r.Ok? ==> Some(r.value.visibility) == ParseVisibility(v)
    ensures v == Str("public") ==> r == Ok(p.(visibility := Public, updatedAt := now))
    ensures v == Str("private") ==> r == Ok(p.(visibility := Private, updatedAt := now))
    ensures v == Str("friends") ==> r == Ok(p.(visibility := Friends, updatedAt := now))
    ensures r.Ok? ==> r.value == p.(visibility := r.value.visibility, updatedAt := now)
  {
    var vis := ParseVisibility(v);
    if vis.None? then Err(InvalidVisibility)
    else Ok(p.(visibility := vis.value, updatedAt := now))
  }

  // ---------------------------------------------------------------------
  // Queries

  function LikesCount(p: Publication): nat {
    |p.likes|
  }

  /** Deleted and hidden comments are counted too. */
  function CommentsCount(p: Publication): nat {
    |p.comments|
  }

  function MediaItemsCount(p: Publication): nat {
    |p.mediaItems|
  }

  predicate HasLikedBy(p: Publication, userId: Value) {
    userId.Str? && userId.s in p.likes
  }

  predicate HasComments(p: Publication) {
    |p.comments| > 0
  }

  predicate HasMedia(p: Publication) {
    |p.mediaItems| > 0
  }

  /** The fields `toJSON()` exposes. */
  datatype View = View(
    id: string,
    authorId: Value,
    text: Value,
    postType: PostType,
    mediaItems: seq<MediaItems.MediaItem>,
    comments: seq<Comments.Comment>,
    likesCount: nat,
    commentsCount: nat,
    createdAt: int,
    updatedAt: int,
    status: PublicationStatus,
    visibility: Visibility)

  /** `toJSON()`: only active comments are listed, while the count still
      includes the soft-deleted and hidden ones. */
  function ToJson(p: Publication): (v: View)
    ensures forall c :: c in v.comments <==> c in p.comments && Comments.IsActive(c)
    ensures |v.comments| <= v.commentsCount
    ensures v.likesCount == |p.likes| && v.commentsCount == |p.comments|
    ensures v.id == p.id.value && v.authorId == p.authorId && v.text == p.text.text
    ensures v.postType == p.postType && v.mediaItems == p.mediaItems
    ensures v.createdAt == p.createdAt && v.updatedAt == p.updatedAt
    ensures v.status == p.status && v.visibility == p.visibility
  {
    View(p.id.value, p.authorId, p.text.text, p.postType, p.mediaItems, GetActiveComments(p),
         LikesCount(p), CommentsCount(p), p.createdAt, p.updatedAt, p.status, p.visibility)
  }

  // ---------------------------------------------------------------------
  // Properties relating several operations

  /** Nobody can like their own publication. */
  lemma NoSelfLike(p: Publication, now: int)
    ensures Like(p, p.authorId, now).Err?
  {
  }

  /** Liking then unliking restores the likes. */
  lemma LikeThenUnlike(p: Publication, userId: Value, t1: int, t2: int)
    requires Like(p, userId, t1).Ok?
    ensures Unlike(Like(p, userId, t1).value.0, userId, t2).Ok?
    ensures Unlike(Like(p, userId, t1).value.0, userId, t2).value.0.likes == p.likes
  {
  }

  /** Unliking then liking again restores the likes of a well-formed
      publication: a recorded like is never the author's nor empty. */
  lemma UnlikeThenLike(p: Publication, userId: Value, t1: int, t2: int)
    requires Wf(p)
    requires Unlike(p, userId, t1).Ok?
    ensures Like(Unlike(p, userId, t1).value.0, userId, t2).Ok?
    ensures Like(Unlike(p, userId, t1).value.0, userId, t2).value.0.likes == p.likes
  {
    assert userId.s != "" && Str(userId.s) != p.authorId;
  }

  /** A soft-deleted comment disappears from the active list but stays in
      the publication, marked deleted, and the count does not change. */
  lemma SoftDeleteHidesComment(p: Publication, commentId: string, userId: Value, now: int)
    requires Wf(p)
    requires DeleteComment(p, Str(commentId), userId, now).Ok?
    ensures var q := DeleteComment(p, Str(commentId), userId, now).value.0;
      && CommentsCount(q) == CommentsCount(p)
      && (exists k :: 0 <= k < |q.comments| && q.comments[k].id == commentId && q.comments[k].status == Comments.Deleted)
      && (forall c :: c in GetActiveComments(q) ==> c.id != commentId)
  {
    var q := DeleteComment(p, Str(commentId), userId, now).value.0;
    var k := FindComment(p.comments, commentId).value;
    assert q.comments[k].id == commentId && q.comments[k].status == Comments.Deleted;
    forall c | c in GetActiveComments(q) ensures c.id != commentId {
      var i :| 0 <= i < |q.comments| && q.comments[i] == c;
      if i != k {
        assert q.comments[i] == p.comments[i];
        if i < k { assert p.comments[i].id != p.comments[k].id; }
        else { assert p.comments[k].id != p.comments[i].id; }
      }
    }
  }

  /** A reply to a soft-deleted comment is still accepted: the parent check
      looks at keys, not at status. */
  lemma ReplyToDeletedParentAccepted(p: Publication, k: nat, authorId: string, text: string, commentId: string, now: int)
    requires k < |p.comments| && p.comments[k].status == Comments.Deleted
    requires p.id.value != "" && p.comments[k].id != ""
    requires authorId != "" && Comments.IsValidText(Str(text))
    requires commentId != "" && commentId !in CommentIds(p.comments)
    ensures AddComment(p, Str(authorId), Str(text), Str(p.comments[k].id), commentId, now).Ok?
  {
    assert p.comments[k].id in CommentIds(p.comments);
  }

  /** Removing the only media item of a publication without text makes it a
      text publication again; adding one to a publication with text makes
      it `text_image` whatever the media type. */
  lemma TypeFollowsMedia(p: Publication, mediaType: Value, url: Value, filename: Value, size: Value,
                         mediaId: string, now: int)
    requires mediaId != "" && mediaId !in MediaIds(p.mediaItems)
    requires AddMediaItem(p, mediaType, url, filename, size, None, mediaId, now).Ok?
    ensures var q := AddMediaItem(p, mediaType, url, filename, size, None, mediaId, now).value.0;
      && (!Contents.IsEmpty(p.text) ==> q.postType == TextImage)
      && (Contents.IsEmpty(p.text) && p.mediaItems == [] ==> q.postType == OfMedia(q.mediaItems[0].mediaType))
      && (p.mediaItems == [] ==>
            RemoveMediaItem(q, Str(mediaId), now).Ok? && RemoveMediaItem(q, Str(mediaId), now).value.0.postType == Text)
  {
    var q := AddMediaItem(p, mediaType, url, filename, size, None, mediaId, now).value.0;
    if p.mediaItems == [] {
      assert q.mediaItems[0].id == mediaId;
      assert mediaId in MediaIds(q.mediaItems);
    }
  }

  // ---------------------------------------------------------------------
  // The invariant is preserved

  lemma AddCommentKeepsWf(p: Publication, authorId: Value, text: Value, parent: Value, commentId: string, now: int)
    requires Wf(p)
    requires commentId != "" && commentId !in CommentIds(p.comments)
    requires AddComment(p, authorId, text, parent, commentId, now).Ok?
    ensures Wf(AddComment(p, authorId, text, parent, commentId, now).value.0)
  {
    var q := AddComment(p, authorId, text, parent, commentId, now).value.0;
    var n := |p.comments|;
    CommentIdsAppend(p.comments, q.comments[n]);
    assert q.comments == p.comments + [q.comments[n]];
    forall i, j | 0 <= i < j < |q.comments| ensures q.comments[i].id != q.comments[j].id {
      if j == n {
        assert p.comments[i].id in CommentIds(p.comments);
      }
    }
    forall i | 0 <= i < |q.comments| ensures ParentResolves(q.comments, q.comments[i].parentCommentId) {
      if i < n {
        assert ParentResolves(p.comments, p.comments[i].parentCommentId);
      }
    }
  }

  lemma DeleteCommentKeepsWf(p: Publication, commentId: Value, userId: Value, now: int)
    requires Wf(p)
    requires DeleteComment(p, commentId, userId, now).Ok?
    ensures Wf(DeleteComment(p, commentId, userId, now).value.0)
  {
    var q := DeleteComment(p, commentId, userId, now).value.0;
    var k := FindComment(p.comments, commentId.s).value;
    forall i | 0 <= i < |q.comments|
      ensures q.comments[i].id == p.comments[i].id
      ensures q.comments[i].parentCommentId == p.comments[i].parentCommentId
    {
    }
    assert ParentResolves(p.comments, p.comments[k].parentCommentId);
  }

  /** Likes, text and visibility changes leave comments and media alone. */
  lemma LikesAndTextKeepWf(p: Publication, v: Value, now: int)
    requires Wf(p)
    ensures Like(p, v, now).Ok? ==> Wf(Like(p, v, now).value.0)
    ensures Unlike(p, v, now).Ok? ==> Wf(Unlike(p, v, now).value.0)
    ensures UpdateText(p, v, now).Ok? ==> Wf(UpdateText(p, v, now).value)
    ensures ChangeVisibility(p, v, now).Ok? ==> Wf(ChangeVisibility(p, v, now).value)
  {
  }

  lemma AddMediaItemKeepsWf(p: Publication, mediaType: Value, url: Value, filename: Value, size: Value,
                            order: Option<real>, mediaId: string, now: int)
    requires Wf(p)
    requires mediaId != "" && mediaId !in MediaIds(p.mediaItems)
    requires AddMediaItem(p, mediaType, url, filename, size, order, mediaId, now).Ok?
    ensures Wf(AddMediaItem(p, mediaType, url, filename, size, order, mediaId, now).value.0)
  {
    var q := AddMediaItem(p, mediaType, url, filename, size, order, mediaId, now).value.0;
    var n := |p.mediaItems|;
    forall i, j | 0 <= i < j < |q.mediaItems| ensures q.mediaItems[i].id != q.mediaItems[j].id {
      if j == n {
        assert q.mediaItems[i] == p.mediaItems[i];
        assert p.mediaItems[i].id in MediaIds(p.mediaItems);
      } else {
        assert q.mediaItems[i] == p.mediaItems[i] && q.mediaItems[j] == p.mediaItems[j];
      }
    }
  }

  /** Removal keeps the remaining keys distinct and drops the removed one. */
  lemma RemoveMediaItemKeepsWf(p: Publication, mediaId: Value, now: int)
    requires Wf(p)
    requires mediaId.Str? && mediaId.s in MediaIds(p.mediaItems)
    ensures RemoveMediaItem(p, mediaId, now).Ok?
    ensures Wf(RemoveMediaItem(p, mediaId, now).value.0)
    ensures mediaId.s !in MediaIds(RemoveMediaItem(p, mediaId, now).value.0.mediaItems)
  {
    var q := RemoveMediaItem(p, mediaId, now).value.0;
    var k := FindMedia(p.mediaItems, mediaId.s).value;
    var rest := RemoveAt(p.mediaItems, k);
    // the survivor at position i sat at i, or at i + 1 when past the removed one
    forall i | 0 <= i < |q.mediaItems|
      ensures q.mediaItems[i].id == p.mediaItems[if i < k then i else i + 1].id
    {
      assert q.mediaItems[i].id == rest[i].id;
    }
    forall i, j | 0 <= i < j < |q.mediaItems| ensures q.mediaItems[i].id != q.mediaItems[j].id {
      var i' := if i < k then i else i + 1;
      var j' := if j < k then j else j + 1;
      assert i' < j';
    }
    forall x | x in MediaIds(q.mediaItems) ensures x != mediaId.s {
      var i :| 0 <= i < |q.mediaItems| && q.mediaItems[i].id == x;
      var i' := if i < k then i else i + 1;
      assert i' != k;
      if i' < k { assert p.mediaItems[i'].id != p.mediaItems[k].id; }
      else { assert p.mediaItems[k].id != p.mediaItems[i'].id; }
    }
  }
}
