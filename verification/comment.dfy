/** The Comment entity of a publication: validated text, a like counter,
    an edited flag and a soft-delete status. */
module Comments {
  import opened Js
  import opened Results

  const MaxTextLength: nat := 1000

  datatype Status = Active | Deleted | Hidden

  datatype Comment = Comment(
    id: string,
    authorId: string,
    text: string,
    publicationId: string,
    parentCommentId: Value,   // `null` unless the comment is a reply
    createdAt: int,
    updatedAt: int,
    likesCount: nat,
    isEdited: bool,
    status: Status)

  datatype CommentError =
    | InvalidId
    | InvalidAuthor
    | InvalidText        // construction: missing, not a string, or blank
    | InvalidNewText     // updateText: missing, not a string, or blank
    | TextTooLong
    | InvalidPublicationId

  /** A comment text: a string with a non-whitespace character and at most
      MaxTextLength characters. */
  ghost predicate IsValidText(v: Value) {
    v.Str? && HasVisibleChar(v.s) && |v.s| <= MaxTextLength
  }

  /** `!text || typeof text !== 'string' || text.trim().length === 0`. */
  predicate IsBlankText(v: Value) {
    !Truthy(v) || !v.Str? || |Trim(v.s)| == 0
  }

  /** `new Comment(id, authorId, text, publicationId, parentCommentId)`. */
  function New(id: Value, authorId: Value, text: Value, publicationId: Value, parent: Value, now: int)
    : (r: Result<Comment, CommentError>)
    ensures r.Ok? <==>
      IsNonEmptyString(id) && IsNonEmptyString(authorId) && IsValidText(text) && IsNonEmptyString(publicationId)
    ensures !IsNonEmptyString(id) ==> r == Err(InvalidId)
    ensures IsNonEmptyString(id) && !IsNonEmptyString(authorId) ==> r == Err(InvalidAuthor)
    ensures IsNonEmptyString(id) && IsNonEmptyString(authorId) && !(text.Str? && HasVisibleChar(text.s))
      ==> r == Err(InvalidText)
    ensures IsNonEmptyString(id) && IsNonEmptyString(authorId) && text.Str? && HasVisibleChar(text.s) && |text.s| > MaxTextLength
      ==> r == Err(TextTooLong)
    ensures IsNonEmptyString(id) && IsNonEmptyString(authorId) && IsValidText(text) && !IsNonEmptyString(publicationId)
      ==> r == Err(InvalidPublicationId)
    ensures r.Ok? ==>
      && r.value.id == id.s
      && r.value.authorId == authorId.s
      && r.value.text == text.s
      && r.value.publicationId == publicationId.s
      && r.value.parentCommentId == DefaultNull(parent)
      && r.value.createdAt == now && r.value.updatedAt == now
    ensures r.Ok? ==> IsActive(r.value) && r.value.likesCount == 0 && !r.value.isEdited
  {
    if !IsNonEmptyString(id) then Err(InvalidId)
    else if !IsNonEmptyString(authorId) then Err(InvalidAuthor)
    else if IsBlankText(text) then Err(InvalidText)
    else if |text.s| > MaxTextLength then Err(TextTooLong)
    else if !IsNonEmptyString(publicationId) then Err(InvalidPublicationId)
    else Ok(Comment(id.s, authorId.s, text.s, publicationId.s, DefaultNull(parent), now, now, 0, false, Active))
  }

  /** `updateText(newText)`: the same text rules as construction; the text
      is replaced and the comment is marked edited, whatever its status. */
  function UpdateText(c: Comment, newText: Value, now: int): (r: Result<Comment, CommentError>)
    ensures r.Ok? <==> IsValidText(newText)
    ensures !(newText.Str? && HasVisibleChar(newText.s)) ==> r == Err(InvalidNewText)
    ensures newText.Str? && HasVisibleChar(newText.s) && |newText.s| > MaxTextLength ==> r == Err(TextTooLong)
    ensures r.Ok? ==> r.value.text == newText.s && r.value.isEdited && r.value.updatedAt == now
    ensures r.Ok? ==> r.value == c.(text := r.value.text, isEdited := true, updatedAt := now)
  {
    if IsBlankText(newText) then Err(InvalidNewText)
    else if |newText.s| > MaxTextLength then Err(TextTooLong)
    else Ok(c.(text := newText.s, updatedAt := now, isEdited := true))
  }

  function IncrementLikes(c: Comment): (r: Comment)
    ensures r.likesCount == c.likesCount + 1
    ensures r == c.(likesCount := r.likesCount)
  {
    c.(likesCount := c.likesCount + 1)
  }

  /** `decrementLikes()`: never takes the counter below zero. */
  function DecrementLikes(c: Comment): (r: Comment)
    ensures c.likesCount > 0 ==> r.likesCount + 1 == c.likesCount
    ensures c.likesCount == 0 ==> r == c
    ensures r == c.(likesCount := r.likesCount)
  {
    if c.likesCount > 0 then c.(likesCount := c.likesCount - 1) else c
  }

  lemma DecrementUndoesIncrement(c: Comment)
    ensures DecrementLikes(IncrementLikes(c)) == c
  {
  }

  /** `markAsDeleted()`: soft delete; repeat calls are not refused. */
  function MarkAsDeleted(c: Comment, now: int): (r: Comment)
    ensures r.status == Deleted && !IsActive(r)
    ensures r == c.(status := Deleted, updatedAt := now)
  {
    c.(status := Deleted, updatedAt := now)
  }

  /** `hide()`: any status becomes hidden. */
  function Hide(c: Comment, now: int): (r: Comment)
    ensures r.status == Hidden && !IsActive(r)
    ensures r == c.(status := Hidden, updatedAt := now)
  {
    c.(status := Hidden, updatedAt := now)
  }

  /** Deleting twice has the effect of deleting once, and no status is final:
      a deleted comment can still be hidden and a hidden one deleted. */
  lemma StatusTransitionsUnguarded(c: Comment, t1: int, t2: int)
    ensures MarkAsDeleted(MarkAsDeleted(c, t1), t2) == MarkAsDeleted(c, t2)
    ensures Hide(MarkAsDeleted(c, t1), t2).status == Hidden
    ensures MarkAsDeleted(Hide(c, t1), t2).status == Deleted
  {
  }

  /** `isReply()`: the parent id is not `null`. */
  predicate IsReply(c: Comment) {
    c.parentCommentId != Null
  }

  /** `isActive()`. */
  predicate IsActive(c: Comment) {
    c.status == Active
  }

  /** `equals`: comments are the same entity when their ids agree. */
  predicate Equals(a: Comment, b: Comment) {
    a.id == b.id
  }

  /** An omitted parent makes a top-level comment, while any other given
      value, even an empty string, makes a reply. */
  lemma ReplyIffParentGiven(id: string, author: string, text: string, pub: string, parent: Value, now: int)
    requires New(Str(id), Str(author), Str(text), Str(pub), parent, now).Ok?
    ensures IsReply(New(Str(id), Str(author), Str(text), Str(pub), parent, now).value)
        <==> !(parent.Null? || parent.Undefined?)
  {
  }

  /** Every lifecycle operation keeps the comment's identity. */
  lemma LifecycleKeepsIdentity(c: Comment, v: Value, now: int)
    ensures Equals(c, IncrementLikes(c)) && Equals(c, DecrementLikes(c))
    ensures Equals(c, MarkAsDeleted(c, now)) && Equals(c, Hide(c, now))
    ensures UpdateText(c, v, now).Ok? ==> Equals(c, UpdateText(c, v, now).value)
  {
  }
}
