# Social posts and profiles: domain model in Dafny

This project models the domain layer of a social-posts microservice. It
also proves properties of that model. It covers two aggregates and one helper:

- **Publication** aggregate: a post with an optional text (the `Content`
  value object), a UUID identifier (`PublicationId`), media items
  (`MediaItem`), soft-deletable comments (`Comment`) and likes.
- **UserProfile** aggregate: a username, an optional `Bio`, interests
  (`Interest`), friends and blocked users.
- **Comment tree**: the helper of the comments query that turns a
  publication's flat comment list into a reply tree.

Each mutator of the source changes an object in place and throws on bad
input. Here each one is a pure function.

- An operation that throws before changing anything returns a `Result`.
- The three `UserProfile` operations that can throw after they have already
  changed the profile (`updateProfile`, `updateInterests`, `blockUser`)
  return an `Outcome`. The `Aborted` case of an `Outcome` carries the state
  the profile is left in.
- Events the source returns are returned alongside the new state.
- Arguments that the source type-checks at run time are JavaScript values
  (`Js.Value`). `Js` also models the string primitives the code relies on:
  `trim`, `toLowerCase`, `includes`, and `split(/\s+/)`.

Files:

| file | module | what it holds |
|---|---|---|
| `results.dfy` | `Results` | `Option`, `Result`, `Outcome` |
| `js.dfy` | `Js` | JavaScript values, truthiness, `trim`, lower- and upper-casing, substring search, word splitting |
| `moderation.dfy` | `Moderation` | the case-insensitive denylist check shared by `Content` and `Bio` |
| `publication_id.dfy` | `PublicationIds` | the UUID identifier |
| `content.dfy` | `Contents` | publication text |
| `comment.dfy` | `Comments` | the comment entity |
| `media_item.dfy` | `MediaItems` | the media entity |
| `media_order.dfy` | `MediaOrdering` | re-numbering of media after a removal |
| `publication.dfy` | `Publications` | the Publication aggregate and its invariant `Wf` |
| `bio.dfy` | `Bios` | profile biography |
| `interest.dfy` | `Interests` | the interest entity |
| `user_profile.dfy` | `UserProfiles` | the UserProfile aggregate and its invariant `ProfileWf` |
| `comment_tree.dfy` | `CommentTree` | `_organizeCommentsHierarchically` |

Modelling choices:

- Collections kept in a JavaScript `Map` keyed by a generated id become
  sequences in insertion order. The comments and media of a publication and
  the interests of a profile are kept this way, and the invariants state
  that their ids are distinct. Likes, friends and blocked users are sets.
- `uuidv4()` is replaced by ids the caller supplies. Each operation that
  draws ids requires them to be non-empty and unused.
- `new Date()` is replaced by an integer parameter `now`.

## Model

| member | source | states |
|---|---|---|
| Js.DefaultNull | src/domain/aggregates/Publication/entities/Comment.js:3 | an omitted (`undefined`) argument becomes `null`; any other argument is kept |
| Js.Trim | src/domain/aggregates/Publication/valueObjects/Content.js:31-33 | `trim()` never lengthens a string; the result is empty exactly when the string is all whitespace; a non-empty result starts and ends with a visible character |
| Js.TrimSlice | src/domain/aggregates/Publication/valueObjects/Content.js:37 | what `trim()` keeps is one contiguous slice of the input with only whitespace before and after it |
| Js.IncludesIff | src/domain/aggregates/Publication/valueObjects/Content.js:21 | the left-to-right `includes` search answers true exactly when the word occurs at some position |
| Js.TrimKeepsWords | src/domain/aggregates/Publication/valueObjects/Content.js:37 | trimming changes no word count |
| Js.SplitCountsWords | src/domain/aggregates/Publication/valueObjects/Content.js:37 | on a text with a visible character, `trim().split(/\s+/).length` equals the number of maximal non-whitespace runs |
| Js.Lower | src/domain/aggregates/Publication/valueObjects/Content.js:20 | lower-casing keeps the length and maps each character on its own |
| Js.LowerOfUpper | src/domain/aggregates/Publication/valueObjects/Content.js:20 | lower-casing an upper-cased text gives the same result as lower-casing the text itself |
| Moderation.Flags | src/domain/aggregates/Publication/valueObjects/Content.js:19-23 | the `some(... includes ...)` scan is true exactly when some denylisted word occurs in the lower-cased text |
| Moderation.FlagsIgnoresCase | src/domain/aggregates/Publication/valueObjects/Content.js:19-21 | two texts that agree once lower-cased are flagged alike, for every word list |
| Moderation.FlagsIgnoresUpper | src/domain/aggregates/Publication/valueObjects/Content.js:19-21 | ASCII upper-casing a text never changes whether a word list flags it |
| Moderation.LargerListFlagsMore | src/domain/aggregates/UserProfile/valueObjects/Bio.js:19-21 | a denylist containing every word of another refuses every text the smaller one refuses |
| PublicationIds.MatchGroupsIsUuid | src/domain/aggregates/Publication/valueObjects/PublicationId.js:14-15 | the anchored 8-4-4-4-12 pattern accepts exactly the 36-character strings with hyphens at 8, 13, 18, 23 and hex digits, in either case, elsewhere |
| PublicationIds.New | src/domain/aggregates/Publication/valueObjects/PublicationId.js:3-18 | an id is built exactly from a non-empty string in UUID layout; an empty or non-string value gives the first error |
| PublicationIds.ConstructedIdIsWellFormed | src/domain/aggregates/Publication/valueObjects/PublicationId.js:8-18 | every constructed id is 36 characters in UUID layout |
| PublicationIds.ToStringRoundTrip | src/domain/aggregates/Publication/valueObjects/PublicationId.js:24-30 | rebuilding an id from its `toString()` yields an equal id |
| Contents.New | src/domain/aggregates/Publication/valueObjects/Content.js:3-25 | `null`, `undefined` and strings of at most 5000 characters that mention none of "spam", "scam", "hate" in any case are accepted and kept as given; other values are refused with the matching error |
| Contents.IsEmpty | src/domain/aggregates/Publication/valueObjects/Content.js:31-33 | empty exactly when there is no string or the string has no visible character |
| Contents.WordsCount | src/domain/aggregates/Publication/valueObjects/Content.js:35-38 | the word count is the number of maximal non-whitespace runs of the text, and 0 without text |
| Contents.CharactersCount | src/domain/aggregates/Publication/valueObjects/Content.js:40-42 | the count is the string's length, which is at most 5000 for any accepted content, and 0 without text |
| Contents.WordsAtMostCharacters | src/domain/aggregates/Publication/valueObjects/Content.js:35-42 | a content never has more words than characters |
| Contents.NewIgnoresCase | src/domain/aggregates/Publication/valueObjects/Content.js:19-23 | for every text, its ASCII upper-cased form is accepted exactly when the text is, and a refused one gets the same error |
| Contents.DenylistIgnoresCase | src/domain/aggregates/Publication/valueObjects/Content.js:19-23 | "Buy SPAM now" and "I Hate Mondays" are refused as inappropriate |
| Bios.New | src/domain/aggregates/UserProfile/valueObjects/Bio.js:3-25 | `null`, `undefined` and strings of at most 500 characters that mention neither "spam" nor "scam" in any case are accepted and kept as given; other values are refused with the matching error |
| Bios.IsEmpty | src/domain/aggregates/UserProfile/valueObjects/Bio.js:31-33 | empty exactly when there is no string or the string has no visible character |
| Bios.NewIgnoresCase | src/domain/aggregates/UserProfile/valueObjects/Bio.js:19-23 | for every text, its ASCII upper-cased form is accepted exactly when the text is, and a refused one gets the same error |
| Bios.DenylistOmitsHate | src/domain/aggregates/UserProfile/valueObjects/Bio.js:19-23 | "I hate rain" is an acceptable bio while "Not a Scam" is refused |
| Bios.BioDenylistWithinContentDenylist | src/domain/aggregates/UserProfile/valueObjects/Bio.js:19-21 | every text a bio refuses for its words, a publication's content refuses too |
| Bios.EqualsIsValueEquality | src/domain/aggregates/UserProfile/valueObjects/Bio.js:35-37 | two string bios are equal exactly when their strings are |
| Comments.New | src/domain/aggregates/Publication/entities/Comment.js:3-34 | a comment is built exactly from non-empty string ids and a non-blank text of at most 1000 characters; errors come in the source's order: id, author, blank text, text over 1000 characters, then publication id; a new comment is active, unedited, with no likes, and an omitted parent becomes `null` |
| Comments.UpdateText | src/domain/aggregates/Publication/entities/Comment.js:49-60 | accepts exactly a non-blank text of at most 1000 characters, refusing a blank one before a long one, and then replaces only the text, marks the comment edited and stamps it |
| Comments.IncrementLikes | src/domain/aggregates/Publication/entities/Comment.js:62-64 | one more like, nothing else changes |
| Comments.DecrementLikes | src/domain/aggregates/Publication/entities/Comment.js:66-70 | one fewer like, and a comment with no likes is left unchanged |
| Comments.DecrementUndoesIncrement | src/domain/aggregates/Publication/entities/Comment.js:62-70 | decrementing undoes an increment |
| Comments.MarkAsDeleted | src/domain/aggregates/Publication/entities/Comment.js:72-75 | the comment becomes deleted and inactive; nothing but status and timestamp changes |
| Comments.Hide | src/domain/aggregates/Publication/entities/Comment.js:77-80 | the comment becomes hidden and inactive; nothing but status and timestamp changes |
| Comments.StatusTransitionsUnguarded | src/domain/aggregates/Publication/entities/Comment.js:72-80 | deleting twice equals deleting once, and a deleted comment can be hidden and a hidden one deleted |
| Comments.ReplyIffParentGiven | src/domain/aggregates/Publication/entities/Comment.js:82-84 | a new comment is a reply exactly when a parent other than `null`/`undefined` was given, even an empty string |
| Comments.LifecycleKeepsIdentity | src/domain/aggregates/Publication/entities/Comment.js:90-92 | every mutator yields a comment equal to the original by id |
| MediaItems.ParseType | src/domain/aggregates/Publication/entities/MediaItem.js:25-27 | exactly "image" and "video" are media types |
| MediaItems.New | src/domain/aggregates/Publication/entities/MediaItem.js:3-37 | an item is built exactly from non-empty string ids, url and filename, a known type and a positive number size; errors come in the source's order: id, publication id, type, url, filename, size; it starts with no storage id and empty metadata |
| MediaItems.SetCloudinaryData | src/domain/aggregates/Publication/entities/MediaItem.js:52-59 | a non-empty string storage id is recorded and the metadata merged, incoming keys winning and other keys kept |
| MediaItems.UpdateOrder | src/domain/aggregates/Publication/entities/MediaItem.js:61-67 | exactly a non-negative number is accepted and becomes the order |
| MediaItems.SetDimensions | src/domain/aggregates/Publication/entities/MediaItem.js:69-76 | only images accept dimensions, which set exactly the width and height keys |
| MediaItems.SetDuration | src/domain/aggregates/Publication/entities/MediaItem.js:78-84 | only videos accept a duration, which sets exactly the duration key |
| MediaItems.ExactlyOneKind | src/domain/aggregates/Publication/entities/MediaItem.js:69-92 | every item is exactly one of image or video, so exactly one of the two metadata setters applies |
| MediaItems.MutatorsKeepIdentity | src/domain/aggregates/Publication/entities/MediaItem.js:98-100 | every mutator yields an item equal to the original by id |
| MediaOrdering.Renumber | src/domain/aggregates/Publication/Publication.js:258-265 | the items stay in place with only their order changed; the new orders are exactly 0..n-1; one item's new order is below another's exactly when it came first in the stable sort by previous order |
| MediaOrdering.RankFollowsSort | src/domain/aggregates/Publication/Publication.js:259-260 | an item's position is below another's exactly when it sorts before it, by order then by insertion |
| MediaOrdering.RanksAreDense | src/domain/aggregates/Publication/Publication.js:262-264 | the positions handed out are exactly 0..n-1 |
| Publications.FindComment | src/domain/aggregates/Publication/Publication.js:91 | the lookup finds the first comment with the key, and finds none exactly when no comment has it |
| Publications.FindMedia | src/domain/aggregates/Publication/Publication.js:196 | the lookup finds the first media item with the key, and finds none exactly when no item has it |
| Publications.DerivedType | src/domain/aggregates/Publication/Publication.js:240-253 | the type is `text_image` exactly when there is text and media, `text` exactly when there is no media, and otherwise the first item's type |
| Publications.ParsePostType | src/domain/aggregates/Publication/Publication.js:25-30 | "text", "image", "video" and "text_image" each map to their own type and an omitted type to `text`; nothing else is accepted |
| Publications.New | src/domain/aggregates/Publication/Publication.js:9-30 | a publication is built exactly from a valid id, an acceptable or falsy text and a known type, which is stored as named (`text` when omitted); errors come in that order, a refused text carrying the content's own error; it starts empty, published and public, and satisfies the invariant |
| Publications.AddComment | src/domain/aggregates/Publication/Publication.js:55-85 | succeeds exactly on a string author, a valid text and a parent that is absent or an existing key; errors come in the source's order, a refused comment carrying the comment constructor's own error; the new comment is appended after the unchanged existing ones, belongs to the publication, is active, unedited, without likes and stamped with the call's time; only comments and timestamp change; the event names it |
| Publications.DeleteComment | src/domain/aggregates/Publication/Publication.js:90-112 | an unknown key is refused; a known one succeeds exactly when the caller wrote the comment or the publication; the comment is marked deleted in place, so the count and keys do not change |
| Publications.ActiveComments | src/domain/aggregates/Publication/Publication.js:293-296 | exactly the active comments are listed, and a list with only active comments is returned whole |
| Publications.Like | src/domain/aggregates/Publication/Publication.js:117-141 | succeeds exactly for a non-empty string user who is not the author and has not liked yet; errors in the source's order; the like count grows by one |
| Publications.Unlike | src/domain/aggregates/Publication/Publication.js:146-160 | succeeds exactly for a user who has liked; the like count drops by one |
| Publications.AddMediaItem | src/domain/aggregates/Publication/Publication.js:165-190 | succeeds exactly when the item is valid, and a refusal carries the media constructor's own error; the item is appended with the given type, url, filename, size and the publication's id, with the given order or, without one, the number of items already there, stamped with the call's time and without storage id or metadata; the type is derived again and is no longer `text` |
| Publications.RemoveAt | src/domain/aggregates/Publication/Publication.js:200 | deleting one key keeps the other items in insertion order |
| Publications.RemoveMediaItem | src/domain/aggregates/Publication/Publication.js:195-211 | succeeds exactly for an existing key; the survivors keep their insertion order and are renumbered 0..n-1 in the stable order of their previous orders; the type is derived again |
| Publications.UpdateText | src/domain/aggregates/Publication/Publication.js:216-220 | succeeds exactly on an acceptable content value, which is stored as given (a falsy text is not replaced by ""), and the type is derived again; a refusal carries the content's own error |
| Publications.ParseVisibility | src/domain/aggregates/Publication/Publication.js:226-227 | "public", "private" and "friends" each map to their own visibility; nothing else is accepted |
| Publications.ChangeVisibility | src/domain/aggregates/Publication/Publication.js:225-233 | succeeds exactly on the three visibility names, storing the one named and changing nothing but visibility and timestamp |
| Publications.ToJson | src/domain/aggregates/Publication/Publication.js:301-316 | only active comments are serialized while the comment count still counts every comment; likes are counted; id, author, text, type, media, timestamps, status and visibility are copied unchanged |
| Publications.NoSelfLike | src/domain/aggregates/Publication/Publication.js:122-125 | the author can never like the publication |
| Publications.LikeThenUnlike | src/domain/aggregates/Publication/Publication.js:117-160 | unliking after a like succeeds and restores the likes |
| Publications.UnlikeThenLike | src/domain/aggregates/Publication/Publication.js:117-160 | on a well-formed publication, liking again after an unlike succeeds and restores the likes |
| Publications.SoftDeleteHidesComment | src/domain/aggregates/Publication/Publication.js:90-112 | after a deletion the comment is still there, marked deleted, the count is unchanged, and no active comment has its id |
| Publications.ReplyToDeletedParentAccepted | src/domain/aggregates/Publication/Publication.js:69-72 | a reply to a soft-deleted comment is accepted |
| Publications.TypeFollowsMedia | src/domain/aggregates/Publication/Publication.js:240-253 | adding media to a text post makes it `text_image`; the first media of an empty post sets its type; removing that item again makes it `text` |
| Publications.AddCommentKeepsWf | src/domain/aggregates/Publication/Publication.js:55-85 | adding a comment keeps comment keys distinct and every reply's parent resolvable |
| Publications.DeleteCommentKeepsWf | src/domain/aggregates/Publication/Publication.js:90-112 | deleting a comment keeps the invariant |
| Publications.LikesAndTextKeepWf | src/domain/aggregates/Publication/Publication.js:117-233 | like, unlike, text and visibility changes keep the invariant |
| Publications.AddMediaItemKeepsWf | src/domain/aggregates/Publication/Publication.js:165-190 | adding media keeps media keys distinct |
| Publications.RemoveMediaItemKeepsWf | src/domain/aggregates/Publication/Publication.js:195-211 | removing media keeps the invariant and the removed key is gone |
| Interests.New | src/domain/aggregates/UserProfile/entities/Interest.js:3-18 | an interest is built exactly from three non-empty strings; errors in the source's order |
| Interests.UpdateName | src/domain/aggregates/UserProfile/entities/Interest.js:37-47 | a rename succeeds exactly on a non-empty string of at most 100 characters and changes only the name |
| Interests.RenameKeepsIdentity | src/domain/aggregates/UserProfile/entities/Interest.js:37-51 | a renamed interest is equal to the original and keeps its owner |
| Interests.CapOnlyOnRename | src/domain/aggregates/UserProfile/entities/Interest.js:42-44 | a name over 100 characters is accepted by the constructor but refused by a rename |
| UserProfiles.MatchesUsernamePattern | src/domain/aggregates/UserProfile/UserProfile.js:28 | `/^[a-zA-Z0-9._-]+$/` accepts exactly the non-empty strings made of those characters |
| UserProfiles.ValidateUsername | src/domain/aggregates/UserProfile/UserProfile.js:21-31 | a username passes exactly when it is a string of 3 to 30 allowed characters; the error is the first check that fails |
| UserProfiles.MakeBio | src/domain/aggregates/UserProfile/UserProfile.js:11 | a falsy bio becomes no bio; a truthy one is wrapped when acceptable and refused otherwise |
| UserProfiles.New | src/domain/aggregates/UserProfile/UserProfile.js:8-19 | a profile is built exactly from an acceptable or falsy bio and a valid username, bio errors first, then the username's first failing check; it starts with no interests, friends or blocks and satisfies the invariant |
| UserProfiles.UpdateProfile | src/domain/aggregates/UserProfile/UserProfile.js:48-59 | completes exactly when a changed username is valid and a given bio acceptable; a bad username leaves the profile as it was with the username's error; a refused bio gives the bio's error, leaving the new username in place when one was given and the profile as it was otherwise |
| UserProfiles.UpdateProfileAtomic | src/domain/aggregates/UserProfile/UserProfile.js:48-59 | completes on the same calls with the same result, and a refused call leaves the profile as it was |
| UserProfiles.AddFriend | src/domain/aggregates/UserProfile/UserProfile.js:64-93 | succeeds exactly for a non-empty string id that is not the profile's own, not blocked and not yet a friend; errors in the source's order |
| UserProfiles.RemoveFriend | src/domain/aggregates/UserProfile/UserProfile.js:98-112 | succeeds exactly for a friend, and the friend count drops by one |
| UserProfiles.BlockUser | src/domain/aggregates/UserProfile/UserProfile.js:117-146 | completes exactly for a non-empty string id other than the own that is not yet blocked; the user is unfriended and blocked; blocking an already blocked user still unfriends before the error |
| UserProfiles.UnblockUser | src/domain/aggregates/UserProfile/UserProfile.js:151-165 | succeeds exactly for a blocked user, who is then unblocked |
| UserProfiles.Names | src/domain/aggregates/UserProfile/UserProfile.js:184-190 | each element yields its trimmed text exactly when it is a string with a visible character |
| UserProfiles.BuildInterestsMeaning | src/domain/aggregates/UserProfile/UserProfile.js:183-195 | the loop completes exactly when every element has a name; the k-th interest comes from the k-th name and id; a refused list stops at its first bad element |
| UserProfiles.BuiltIdsDistinct | src/domain/aggregates/UserProfile/UserProfile.js:188-194 | interests built from fresh ids have distinct ids |
| UserProfiles.UpdateInterests | src/domain/aggregates/UserProfile/UserProfile.js:170-198 | a non-array or a list of more than 20 is refused with the profile unchanged; a completed call holds one interest per element; only interests and timestamp ever change |
| UserProfiles.UpdateInterestsMeaning | src/domain/aggregates/UserProfile/UserProfile.js:170-198 | completes exactly on an array of at most 20 non-blank strings; the k-th interest is the k-th element trimmed; a refused list keeps the interests built from the elements before its first bad element, which is the one where it stopped and gives the name error; on a profile without id the first named element is refused with the owner error and no interest is kept |
| UserProfiles.UpdateInterestsAtomic | src/domain/aggregates/UserProfile/UserProfile.js:170-198 | completes on the same calls with the same result, and a refused call leaves the profile as it was |
| UserProfiles.ToJson | src/domain/aggregates/UserProfile/UserProfile.js:222-233 | the bio is serialized as its value or `null`, and friends and interests are counted; id, username, interests and timestamps are copied unchanged |
| UserProfiles.FriendOperationsKeepWf | src/domain/aggregates/UserProfile/UserProfile.js:64-165 | friend and block operations keep friends and blocked users apart and never include the profile itself, even when a block is refused |
| UserProfiles.UpdateProfileKeepsWf | src/domain/aggregates/UserProfile/UserProfile.js:48-59 | the username stays valid after any update, completed or refused |
| UserProfiles.UpdateInterestsKeepsWf | src/domain/aggregates/UserProfile/UserProfile.js:170-198 | completed or half applied, interests have distinct ids, belong to the profile and have names |
| UserProfiles.BlockingUnfriends | src/domain/aggregates/UserProfile/UserProfile.js:127-130 | a blocked user is no friend and cannot be added as one |
| UserProfiles.BlockingTwiceChangesNothing | src/domain/aggregates/UserProfile/UserProfile.js:127-135 | on a well-formed profile, blocking an already blocked user changes nothing |
| UserProfiles.BlockThenUnblock | src/domain/aggregates/UserProfile/UserProfile.js:117-165 | unblocking after a block restores the blocked set but not the friendship |
| UserProfiles.AddThenRemoveFriend | src/domain/aggregates/UserProfile/UserProfile.js:64-112 | removing a friend just added restores the friends |
| UserProfiles.InterestsHalfApplied | src/domain/aggregates/UserProfile/UserProfile.js:179-195 | `["chess", ""]` is refused, yet the profile is left with "chess" as its only interest |
| UserProfiles.InterestsAtomicOnRefusal | src/domain/aggregates/UserProfile/UserProfile.js:170-198 | the corrected update keeps the old interests when it refuses |
| UserProfiles.UsernameKeptWhenBioRefused | src/domain/aggregates/UserProfile/UserProfile.js:49-56 | `updateProfile("bobby", "spam")` is refused on the bio, yet the profile now answers to "bobby" |
| UserProfiles.ProfileAtomicOnRefusal | src/domain/aggregates/UserProfile/UserProfile.js:48-59 | the corrected update keeps the old username and bio when it refuses |
| CommentTree.LastWithId | src/application/use-cases/publication/GetCommentsUseCase.js:79-81 | a node is built from a comment in the list with that id |
| CommentTree.LastWithIdIsLast | src/application/use-cases/publication/GetCommentsUseCase.js:79-81 | the comment picked is the one at the last position holding the id: `Map.set` lets a later comment replace an earlier one |
| CommentTree.Organize | src/application/use-cases/publication/GetCommentsUseCase.js:74-96 | there is a node for each id in the list, built from the last comment with that id; the roots are the parentless comments in list order; each node's replies are the comments naming it as parent, in list order |
| CommentTree.Partition | src/application/use-cases/publication/GetCommentsUseCase.js:84-93 | each comment is a root, attached to a node, or dropped, and exactly one of these |
| CommentTree.AllRepliesCount | src/application/use-cases/publication/GetCommentsUseCase.js:84-93 | the replies lists of all nodes together hold one entry per comment attached to some node |
| CommentTree.ForestCount | src/application/use-cases/publication/GetCommentsUseCase.js:74-96 | the roots and all replies together number the list's length less the dropped comments, so never more than the list |
| CommentTree.DistinctIdsOneNodeEach | src/application/use-cases/publication/GetCommentsUseCase.js:79-81 | with distinct ids there are as many nodes as comments |
| CommentTree.NoneDroppedWhenParentsResolve | src/application/use-cases/publication/GetCommentsUseCase.js:84-93 | when every reply's parent is in the list no comment is dropped |
| CommentTree.WfPublicationDropsNothing | src/application/use-cases/publication/GetCommentsUseCase.js:84-93 | a well-formed publication's comments are organized without dropping any, one node each |
| CommentTree.NoParentsAllRoots | src/application/use-cases/publication/GetCommentsUseCase.js:84-93 | when no comment names a parent, every comment is a root and no node gets a reply |
| CommentTree.RootsAtMostComments | src/application/use-cases/publication/GetCommentsUseCase.js:84-93 | there are never more roots than comments |
| CommentTree.ReplyNotRoot | src/application/use-cases/publication/GetCommentsUseCase.js:84-93 | a comment that names a parent is not a root, so the roots are fewer than the comments |
| CommentTree.ReplyListedUnderParent | src/application/use-cases/publication/GetCommentsUseCase.js:84-88 | a reply is listed in the replies of the node its parent id names |
| CommentTree.RepliesBecomeRootsAsWritten | src/application/use-cases/publication/GetCommentsUseCase.js:29-48 | with the list `execute` builds, which reads the missing `parentId` property, every comment is a root and no node has a reply |
| CommentTree.FlattenKeepsReplies | src/application/use-cases/publication/GetCommentsUseCase.js:29-48 | with the list read through `parentCommentId`, a reply is listed under its parent and is not a root |

## Left out

- The `UserId` value object: `UserId.js` is not part of this model. A profile's id is a plain string taken as given.
- Repositories, the other use cases, controllers, middleware, the database layer and the media upload service are out of scope. Of `GetCommentsUseCase.execute`, only the two fields of the formatted comments that the tree helper reads are modelled (`FormattedAsWritten`, `Flatten`); its input checks, repository lookup, logging and response shape are left out.
- `uuidv4()`: generated ids are parameters. Every operation that draws ids requires them to be non-empty and unused, so id collisions are not modelled.
- `new Date()`: every timestamp is an integer `now` supplied by the caller. Event timestamps are the same integer.
- String lengths count Unicode code points. JavaScript counts UTF-16 code units, so a text with characters outside the Basic Multilingual Plane is shorter here than in the source. This affects the 5000, 1000, 500, 100, 3 and 30 character limits.
- `toLowerCase()` lowers ASCII letters only. No other character lowers to a letter of the denylists ("spam", "scam", "hate"), so the denylist checks are exact.
- Js.Upper: upper-cases ASCII letters only, and the case lemmas built on it (`FlagsIgnoresUpper`, `NewIgnoresCase`) speak of that ASCII upper-casing. JavaScript's `toUpperCase()` also maps some other characters onto ASCII letters (U+017F becomes "S"), so it can turn an accepted text such as "ſpam" into a refused one.
- Numbers are reals. NaN and the infinities are not modelled.
- `getSizeInMB()` is left out: it formats a float with two decimals.
- Getters and `toJSON()` of `Comment`, `MediaItem` and `Interest` are left out: they return the fields unchanged, and the datatypes expose those fields.
- Publications.AddMediaItem: the order argument is a number or `None`. `None` stands for an omitted order, an explicit `undefined` (which the default parameter turns into `null`) and an explicit `null`; all three take the number of items already there. A non-numeric order, which the source stores unchecked, is not modelled.
- Js.StrictEquals: every array or object operand is treated as a reference distinct from every other value, so `===` on two such values is always false. The case where both operands are the same object is not modelled; no modelled value object wraps an array or an object.
- `Equals` of `Content`, `Bio`, `PublicationId`, `Comment`, `MediaItem` and `Interest` compares two values of the same type. The source's `instanceof` test against other kinds of objects is not modelled.
- Publications.ActiveComments: states membership, and that an all-active list is returned whole. It does not state that the filtered list keeps the original order.
- CommentTree.Organize: nodes are named by comment id, where the source shares node objects by reference. A node holds only the id and parent fields the helper reads.
- The publication `status` field (draft, published, archived) is only set at construction. No operation of the aggregate changes it.
- UserProfiles.ValidateUsername: for a 3 to 30 character string with a non-ASCII character, the model reports the character-set error. The source may report the length error instead, because it counts UTF-16 units.

Behaviour of the code that the model follows as written:

- `updateInterests` clears the interests first and adds them one by one. A blank name therefore leaves a half-applied list behind the error. See Findings.
- `updateProfile` stores a new username before it checks the bio. A refused bio therefore leaves the new username in place. See Findings.
- Comment status changes are not guarded: a deleted comment can be hidden and a hidden one deleted (`Comments.StatusTransitionsUnguarded`).
- The 100-character cap on interest names applies only in `updateName`. The constructor and `updateInterests` accept longer names (`Interests.CapOnlyOnRename`).
- `blockUser` unfriends before the already-blocked check. On a well-formed profile that removal is a no-op (`UserProfiles.BlockingTwiceChangesNothing`).
- Comments are listed in insertion order; nothing sorts them by creation time.
- The comments query formats each comment with `parentCommentId: comment.parentId`, a property `Comment` does not define. Every comment therefore reaches the tree helper without a parent. See Findings.

## Findings

| source | as written | input that shows it | evidently intended | confidence | as-written member | corrected member |
|---|---|---|---|---|---|---|
| src/domain/aggregates/UserProfile/UserProfile.js:179-195 | the interests are cleared, then elements are added one by one until the first blank one throws | `updateInterests(["chess", ""])` on a profile with other interests: throws, and the profile keeps only "chess" | a refused list leaves the previous interests in place | not executed | UserProfiles.InterestsHalfApplied | UserProfiles.InterestsAtomicOnRefusal |
| src/domain/aggregates/UserProfile/UserProfile.js:49-56 | the new username is stored before the bio is validated | `updateProfile("bobby", "spam")`: throws on the bio, and the profile now answers to "bobby" | a refused update leaves username and bio unchanged | not executed | UserProfiles.UsernameKeptWhenBioRefused | UserProfiles.ProfileAtomicOnRefusal |
| src/application/use-cases/publication/GetCommentsUseCase.js:35 | the formatted comment's parent is read from `comment.parentId`, which a `Comment` does not have (its getter is `parentCommentId`, Comment.js:41), so it is `undefined` for every comment | a publication with comment `a` and a reply `b` to `a`, queried with `hierarchical`: both come back as roots and `a` has no replies | `b` is listed in the replies of `a` and is not a root | not executed | CommentTree.RepliesBecomeRootsAsWritten | CommentTree.FlattenKeepsReplies |
