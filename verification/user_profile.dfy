/** The UserProfile aggregate: a username, an optional bio, a list of
    interests kept in insertion order, and the sets of friends and blocked
    users.

    Three operations of the aggregate can throw after they have already
    changed it (`updateProfile`, `updateInterests`, `blockUser`); they
    return an `Outcome` whose `Aborted` case holds the state the profile is
    left in. The others fail before touching anything and return a
    `Result`. */
module UserProfiles {
  import opened Js
  import opened Results
  import Bios
  import Interests

  const MinUsernameLength: nat := 3
  const MaxUsernameLength: nat := 30
  const MaxInterests: nat := 20

  datatype UserProfile = UserProfile(
    id: string,                          // the UserId's value
    username: string,
    bio: Option<Bios.Bio>,               // `null` when no bio was given
    interests: seq<Interests.Interest>,  // in insertion order
    friends: set<string>,
    blocked: set<string>,
    createdAt: int,
    updatedAt: int)

  datatype ProfileError =
    | UsernameRequired
    | UsernameLength
    | UsernameChars
    | InvalidBio(bioError: Bios.BioError)
    | InvalidFriendId
    | SelfFriend
    | FriendBlocked
    | AlreadyFriend
    | NotFriend
    | InvalidBlockId
    | SelfBlock
    | AlreadyBlocked
    | NotBlocked
    | InterestsNotArray
    | TooManyInterests
    | InvalidInterestName
    | InvalidInterest(interestError: Interests.InterestError)

  /** The records the friend and block operations return. */
  datatype Event =
    | FriendAdded(userId: string, friendId: string, timestamp: int)
    | FriendRemoved(userId: string, friendId: string, timestamp: int)
    | UserBlocked(userId: string, blockedUserId: string, timestamp: int)
    | UserUnblocked(userId: string, unblockedUserId: string, timestamp: int)

  // ---------------------------------------------------------------------
  // Usernames

  /** A character of the class `[a-zA-Z0-9._-]`. */
  predicate IsUsernameChar(c: char) {
    ('a' <= c <= 'z') || ('A' <= c <= 'Z') || ('0' <= c <= '9') || c == '.' || c == '_' || c == '-'
  }

  /** `/^[a-zA-Z0-9._-]+$/.test(s)`, matched one character at a time. */
  function MatchesUsernamePattern(s: string): (r: bool)
    ensures r <==> s != [] && forall i :: 0 <= i < |s| ==> IsUsernameChar(s[i])
  {
    if s == [] then false
    else if !IsUsernameChar(s[0]) then false
    else if |s| == 1 then true
    else
      var r := MatchesUsernamePattern(s[1..]);
      assert forall i :: 1 <= i < |s| ==> s[i] == s[1..][i - 1];
      r
  }

  ghost predicate IsValidUsername(v: Value) {
    && v.Str?
    && MinUsernameLength <= |v.s| <= MaxUsernameLength
    && forall i :: 0 <= i < |v.s| ==> IsUsernameChar(v.s[i])
  }

  /** `validateUsername(username)`: the error it throws, if any. */
  function ValidateUsername(v: Value): (r: Option<ProfileError>)
    ensures r.None? <==> IsValidUsername(v)
    ensures !IsNonEmptyString(v) ==> r == Some(UsernameRequired)
    ensures IsNonEmptyString(v) && !(MinUsernameLength <= |v.s| <= MaxUsernameLength) ==> r == Some(UsernameLength)
    ensures IsNonEmptyString(v) && MinUsernameLength <= |v.s| <= MaxUsernameLength && !IsValidUsername(v)
      ==> r == Some(UsernameChars)
    ensures r.Some? ==> r.value in {UsernameRequired, UsernameLength, UsernameChars}
  {
    if !IsNonEmptyString(v) then Some(UsernameRequired)
    else if |v.s| < MinUsernameLength || |v.s| > MaxUsernameLength then Some(UsernameLength)
    else if !MatchesUsernamePattern(v.s) then Some(UsernameChars)
    else None
  }

  // ---------------------------------------------------------------------
  // Invariant

  ghost predicate InterestIdsDistinct(xs: seq<Interests.Interest>) {
    forall i, j :: 0 <= i < j < |xs| ==> xs[i].id != xs[j].id
  }

  /** What the operations keep true: a valid username; interests with
      distinct ids, owned by this profile, with non-empty names; friends and
      blocked users are non-empty ids other than the profile's own, and no
      one is both a friend and blocked. */
  ghost predicate ProfileWf(p: UserProfile) {
    && IsValidUsername(Str(p.username))
    && InterestIdsDistinct(p.interests)
    && (forall i :: 0 <= i < |p.interests| ==> p.interests[i].userId == p.id && p.interests[i].name != "")
    && p.id !in p.friends && p.id !in p.blocked
    && "" !in p.friends && "" !in p.blocked
    && p.friends * p.blocked == {}
  }

  // ---------------------------------------------------------------------
  // Construction and profile updates

  /** `bio ? new Bio(bio) : null`. */
  function MakeBio(v: Value): (r: Result<Option<Bios.Bio>, ProfileError>)
    ensures !Truthy(v) ==> r == Ok(None)
    ensures Truthy(v) ==> (r.Ok? <==> Bios.Acceptable(v))
    ensures Truthy(v) && r.Ok? ==> r.value.Some? && r.value.value.value == v
    ensures r.Err? ==> r.error.InvalidBio?
  {
    if !Truthy(v) then Ok(None)
    else
      var b :- Bios.New(v).MapFailure(e => InvalidBio(e));
      Ok(Some(b))
  }

  /** `new UserProfile(id, username, bio)`: the bio is checked before the
      username. The UserId value object is not part of this model; the id
      is taken as given. */
  function New(id: string, username: Value, bio: Value, now: int): (r: Result<UserProfile, ProfileError>)
    ensures r.Ok? <==> (!Truthy(bio) || Bios.Acceptable(bio)) && IsValidUsername(username)
    ensures Truthy(bio) && !Bios.Acceptable(bio) ==> r == Err(InvalidBio(Bios.New(bio).error))
    ensures (!Truthy(bio) || Bios.Acceptable(bio)) && !IsValidUsername(username)
      ==> r == Err(ValidateUsername(username).value)
    ensures r.Ok? ==>
      && r.value.id == id && r.value.username == username.s
      && r.value.bio == MakeBio(bio).value
      && r.value.interests == [] && r.value.friends == {} && r.value.blocked == {}
      && r.value.createdAt == now && r.value.updatedAt == now
    ensures r.Ok? ==> ProfileWf(r.value)
  {
    var b :- MakeBio(bio);
    var e := ValidateUsername(username);
    if e.Some? then Err(e.value)
    else Ok(UserProfile(id, username.s, b, [], {}, {}, now, now))
  }

  /** The username is replaced when a truthy one different from the current
      one is given. */
  predicate ChangesUsername(p: UserProfile, newUsername: Value) {
    Truthy(newUsername) && !StrictEquals(newUsername, Str(p.username))
  }

  /** `updateProfile(newUsername, newBio)` as written: the username is
      validated and stored first, so when the bio is then refused the
      profile keeps the new username. */
  function UpdateProfile(p: UserProfile, newUsername: Value, newBio: Value, now: int)
    : (r: Outcome<UserProfile, (), ProfileError>)
    ensures r.Completed? <==>
      && (ChangesUsername(p, newUsername) ==> IsValidUsername(newUsername))
      && (newBio != Undefined && Truthy(newBio) ==> Bios.Acceptable(newBio))
    ensures ChangesUsername(p, newUsername) && !IsValidUsername(newUsername) ==>
      r == Aborted(p, ValidateUsername(newUsername).value)
    ensures r.Aborted? && ChangesUsername(p, newUsername) && IsValidUsername(newUsername) ==>
      r == Aborted(p.(username := newUsername.s), InvalidBio(Bios.New(newBio).error))
    ensures r.Aborted? && !ChangesUsername(p, newUsername) ==>
      r == Aborted(p, InvalidBio(Bios.New(newBio).error))
    ensures r.Completed? ==>
      && r.state.username == (if ChangesUsername(p, newUsername) then newUsername.s else p.username)
      && r.state.bio == (if newBio == Undefined then p.bio else MakeBio(newBio).value)
      && r.state == p.(username := r.state.username, bio := r.state.bio, updatedAt := now)
  {
    var e := if ChangesUsername(p, newUsername) then ValidateUsername(newUsername) else None;
    if e.Some? then Aborted(p, e.value)
    else
      var p1 := if ChangesUsername(p, newUsername) then p.(username := newUsername.s) else p;
      if newBio == Undefined then Completed(p1.(updatedAt := now), ())
      else
        match MakeBio(newBio)
        case Err(err) => Aborted(p1, err)
        case Ok(b) => Completed(p1.(bio := b, updatedAt := now), ())
  }

  /** `updateProfile` as evidently intended: every argument is checked
      before anything changes, so a refused call leaves the profile as it
      was. */
  function UpdateProfileAtomic(p: UserProfile, newUsername: Value, newBio: Value, now: int)
    : (r: Outcome<UserProfile, (), ProfileError>)
    ensures r.Aborted? ==> r.state == p
    ensures r.Completed? <==> UpdateProfile(p, newUsername, newBio, now).Completed?
    ensures r.Completed? ==> r == UpdateProfile(p, newUsername, newBio, now)
  {
    match UpdateProfile(p, newUsername, newBio, now)
    case Completed(q, v) => Completed(q, v)
    case Aborted(_, e) => Aborted(p, e)
  }

  // ---------------------------------------------------------------------
  // Friends and blocked users

  /** `addFriend(friendId)`. */
  function AddFriend(p: UserProfile, friendId: Value, now: int): (r: Result<(UserProfile, Event), ProfileError>)
    ensures r.Ok? <==>
      IsNonEmptyString(friendId) && friendId.s != p.id && friendId.s !in p.blocked && friendId.s !in p.friends
    ensures !IsNonEmptyString(friendId) ==> r == Err(InvalidFriendId)
    ensures IsNonEmptyString(friendId) && friendId.s == p.id ==> r == Err(SelfFriend)
    ensures IsNonEmptyString(friendId) && friendId.s != p.id && friendId.s in p.blocked ==> r == Err(FriendBlocked)
    ensures IsNonEmptyString(friendId) && friendId.s != p.id && friendId.s !in p.blocked && friendId.s in p.friends
      ==> r == Err(AlreadyFriend)
    ensures r.Ok? ==> r.value.0 == p.(friends := p.friends + {friendId.s}, updatedAt := now)
    ensures r.Ok? ==> r.value.1 == FriendAdded(p.id, friendId.s, now)
  {
    if !IsNonEmptyString(friendId) then Err(InvalidFriendId)
    else if friendId.s == p.id then Err(SelfFriend)
    else if friendId.s in p.blocked then Err(FriendBlocked)
    else if friendId.s in p.friends then Err(AlreadyFriend)
    else Ok((p.(friends := p.friends + {friendId.s}, updatedAt := now), FriendAdded(p.id, friendId.s, now)))
  }

  /** `removeFriend(friendId)`. */
  function RemoveFriend(p: UserProfile, friendId: Value, now: int): (r: Result<(UserProfile, Event), ProfileError>)
    ensures r.Ok? <==> IsFriend(p, friendId)
    ensures r.Err? ==> r.error == NotFriend
    ensures r.Ok? ==> r.value.0 == p.(friends := p.friends - {friendId.s}, updatedAt := now)
    ensures r.Ok? ==> FriendsCount(r.value.0) + 1 == FriendsCount(p)
    ensures r.Ok? ==> r.value.1 == FriendRemoved(p.id, friendId.s, now)
  {
    if !IsFriend(p, friendId) then Err(NotFriend)
    else Ok((p.(friends := p.friends - {friendId.s}, updatedAt := now), FriendRemoved(p.id, friendId.s, now)))
  }

  /** `blockUser(userIdToBlock)`: a friend is unfriended before the
      already-blocked check, so that removal survives the error. */
  function BlockUser(p: UserProfile, userId: Value, now: int): (r: Outcome<UserProfile, Event, ProfileError>)
    ensures r.Completed? <==> IsNonEmptyString(userId) && userId.s != p.id && userId.s !in p.blocked
    ensures !IsNonEmptyString(userId) ==> r == Aborted(p, InvalidBlockId)
    ensures IsNonEmptyString(userId) && userId.s == p.id ==> r == Aborted(p, SelfBlock)
    ensures IsNonEmptyString(userId) && userId.s != p.id && userId.s in p.blocked ==>
      r == Aborted(p.(friends := p.friends - {userId.s}), AlreadyBlocked)
    ensures r.Completed? ==>
      && r.state == p.(friends := p.friends - {userId.s}, blocked := p.blocked + {userId.s}, updatedAt := now)
      && r.result == UserBlocked(p.id, userId.s, now)
  {
    if !IsNonEmptyString(userId) then Aborted(p, InvalidBlockId)
    else if userId.s == p.id then Aborted(p, SelfBlock)
    else
      var p1 := p.(friends := p.friends - {userId.s});
      if userId.s in p1.blocked then Aborted(p1, AlreadyBlocked)
      else
        var p2 := p1.(blocked := p1.blocked + {userId.s}, updatedAt := now);
        Completed(p2, UserBlocked(p.id, userId.s, now))
  }

  /** `unblockUser(userIdToUnblock)`. */
  function UnblockUser(p: UserProfile, userId: Value, now: int): (r: Result<(UserProfile, Event), ProfileError>)
    ensures r.Ok? <==> IsBlocked(p, userId)
    ensures r.Err? ==> r.error == NotBlocked
    ensures r.Ok? ==> r.value.0 == p.(blocked := p.blocked - {userId.s}, updatedAt := now)
    ensures r.Ok? ==> r.value.1 == UserUnblocked(p.id, userId.s, now)
  {
    if !IsBlocked(p, userId) then Err(NotBlocked)
    else Ok((p.(blocked := p.blocked - {userId.s}, updatedAt := now), UserUnblocked(p.id, userId.s, now)))
  }

  // ---------------------------------------------------------------------
  // Interests

  /** `typeof name === 'string' && name.trim().length > 0`. */
  predicate IsInterestName(v: Value) {
    v.Str? && |Trim(v.s)| > 0
  }

  /** The ids `uuidv4()` hands out: non-empty and pairwise distinct. */
  ghost predicate FreshIds(ids: seq<string>) {
    && NonEmptyIds(ids)
    && (forall i, j :: 0 <= i < j < |ids| ==> ids[i] != ids[j])
  }

  ghost predicate NonEmptyIds(ids: seq<string>) {
    forall i :: 0 <= i < |ids| ==> ids[i] != ""
  }

  /** What each element of the list contributes: its trimmed text when it
      is a non-blank string, nothing when it makes the loop throw. Trimming
      has no effects, so reading every element up front is the same as
      reading them one at a time. */
  function Names(items: seq<Value>): (r: seq<Option<string>>)
    ensures |r| == |items|
    ensures forall k :: 0 <= k < |items| ==> (r[k].Some? <==> IsInterestName(items[k]))
    ensures forall k :: 0 <= k < |items| && IsInterestName(items[k]) ==> r[k] == Some(Trim(items[k].s))
  {
    seq(|items|, k requires 0 <= k < |items| => if IsInterestName(items[k]) then Some(Trim(items[k].s)) else None)
  }

  ghost predicate AllNames(names: seq<Option<string>>) {
    forall k :: 0 <= k < |names| ==> names[k].Some?
  }

  /** The interest built from the `k`-th name. */
  ghost predicate BuiltFrom(it: Interests.Interest, names: seq<Option<string>>, ids: seq<string>, k: int, userId: string, now: int)
    requires 0 <= k < |names| && k < |ids|
  {
    names[k].Some? && it == Interests.Interest(ids[k], names[k].value, userId, now)
  }

  /** The `forEach` of `updateInterests`, over the elements' names: an
      interest per name, in order; the first missing name stops the loop,
      leaving the interests built so far. What it builds is stated by
      `BuildInterestsMeaning`. */
  function BuildInterests(names: seq<Option<string>>, ids: seq<string>, userId: string, now: int)
    : (r: Outcome<seq<Interests.Interest>, (), ProfileError>)
    requires |ids| >= |names|
    requires NonEmptyIds(ids)
    ensures |r.state| <= |names|
    ensures r.Completed? ==> |r.state| == |names|
    decreases |names|
  {
    if names == [] then Completed([], ())
    else if names[0].None? then Aborted([], InvalidInterestName)
    else
      match Interests.New(Str(ids[0]), Str(names[0].value), Str(userId), now)
      case Err(e) => Aborted([], InvalidInterest(e))
      case Ok(it) =>
        assert NonEmptyIds(ids[1..]);
        var rest := BuildInterests(names[1..], ids[1..], userId, now);
        if rest.Completed? then Completed([it] + rest.state, ()) else Aborted([it] + rest.state, rest.error)
  }

  /** The loop completes exactly when every element has a name (and there
      is an owner to give the interests); the `k`-th interest built comes
      from the `k`-th name; when the loop stops, it stops at the first
      element without a name, or on the first element when there is no
      owner. */
  lemma {:induction false} BuildInterestsMeaning(names: seq<Option<string>>, ids: seq<string>, userId: string, now: int)
    requires |ids| >= |names|
    requires NonEmptyIds(ids)
    requires forall k :: 0 <= k < |names| && names[k].Some? ==> names[k].value != ""
    ensures var r := BuildInterests(names, ids, userId, now);
      && (r.Completed? <==> AllNames(names) && (names == [] || userId != ""))
      && (r.Aborted? ==> |r.state| < |names|)
      && (forall k :: 0 <= k < |r.state| ==> BuiltFrom(r.state[k], names, ids, k, userId, now))
      && (r.Aborted? && names[|r.state|].None? ==> r.error == InvalidInterestName)
      && (r.Aborted? && names[|r.state|].Some? ==>
            userId == "" && r.state == [] && r.error == InvalidInterest(Interests.InvalidUserId))
    decreases |names|
  {
    var r := BuildInterests(names, ids, userId, now);
    if names != [] && names[0].Some? && userId != "" {
      assert NonEmptyIds(ids[1..]);
      BuildInterestsMeaning(names[1..], ids[1..], userId, now);
      var rest := BuildInterests(names[1..], ids[1..], userId, now);
      assert r.state == [r.state[0]] + rest.state;
      assert forall k :: 1 <= k < |names| ==> names[k] == names[1..][k - 1] && ids[k] == ids[1..][k - 1];
      assert forall k :: 1 <= k < |r.state| ==> r.state[k] == rest.state[k - 1];
      assert BuiltFrom(r.state[0], names, ids, 0, userId, now);
      if AllNames(names[1..]) {
        assert AllNames(names) by {
          forall k | 0 <= k < |names| ensures names[k].Some? {
            if k > 0 { assert names[1..][k - 1].Some?; }
          }
        }
      }
    }
  }

  /** The interests `BuildInterests` produces carry distinct ids. */
  lemma BuiltIdsDistinct(xs: seq<Interests.Interest>, names: seq<Option<string>>, ids: seq<string>, userId: string, now: int)
    requires |ids| >= |names| && |xs| <= |names|
    requires FreshIds(ids)
    requires forall k :: 0 <= k < |xs| ==> BuiltFrom(xs[k], names, ids, k, userId, now)
    ensures InterestIdsDistinct(xs)
  {
    forall i, j | 0 <= i < j < |xs| ensures xs[i].id != xs[j].id {
      assert BuiltFrom(xs[i], names, ids, i, userId, now) && BuiltFrom(xs[j], names, ids, j, userId, now);
    }
  }

  /** `updateInterests(newInterests)` as written, with the fresh ids the
      source draws from `uuidv4()`: the list is checked to be an array of at
      most MaxInterests elements, the interests are cleared, and then the
      elements are added one by one, so a bad element leaves the profile
      with only the interests before it. */
  function UpdateInterests(p: UserProfile, v: Value, ids: seq<string>, now: int)
    : (r: Outcome<UserProfile, (), ProfileError>)
    requires v.Arr? ==> |ids| >= |v.items|
    requires FreshIds(ids)
    ensures !v.Arr? ==> r == Aborted(p, InterestsNotArray)
    ensures v.Arr? && |v.items| > MaxInterests ==> r == Aborted(p, TooManyInterests)
    ensures r.Completed? ==> v.Arr? && |r.state.interests| == |v.items| && r.state.updatedAt == now
    ensures r.state == p.(interests := r.state.interests, updatedAt := r.state.updatedAt)
    ensures r.Aborted? ==> r.state.updatedAt == p.updatedAt
  {
    if !v.Arr? then Aborted(p, InterestsNotArray)
    else if |v.items| > MaxInterests then Aborted(p, TooManyInterests)
    else
      var built := BuildInterests(Names(v.items), ids, p.id, now);
      if built.Completed? then Completed(p.(interests := built.state, updatedAt := now), ())
      else Aborted(p.(interests := built.state), built.error)
  }

  /** What `updateInterests` leaves behind on a list it gets past the
      array and size checks: it completes exactly when every element is a
      non-blank string (and the profile has an id to own them); the `k`-th
      interest is named by the `k`-th element, trimmed, and carries the
      `k`-th fresh id; a refused list stops at its first bad element. */
  lemma UpdateInterestsMeaning(p: UserProfile, v: Value, ids: seq<string>, now: int)
    requires v.Arr? ==> |ids| >= |v.items|
    requires FreshIds(ids)
    ensures var r := UpdateInterests(p, v, ids, now);
      && (r.Completed? <==>
            && v.Arr? && |v.items| <= MaxInterests && (|v.items| > 0 ==> p.id != "")
            && forall k :: 0 <= k < |v.items| ==> IsInterestName(v.items[k]))
      && (v.Arr? && |v.items| <= MaxInterests ==>
            && |r.state.interests| <= |v.items|
            && (forall k :: 0 <= k < |r.state.interests| ==> BuiltFrom(r.state.interests[k], Names(v.items), ids, k, p.id, now)))
      && (r.Aborted? && v.Arr? && |v.items| <= MaxInterests ==>
            && |r.state.interests| < |v.items|
            && (!IsInterestName(v.items[|r.state.interests|]) ==> r.error == InvalidInterestName))
      && (r.Aborted? && v.Arr? && |v.items| <= MaxInterests && p.id != "" ==>
            !IsInterestName(v.items[|r.state.interests|]) && r.error == InvalidInterestName)
      && (r.Aborted? && v.Arr? && |v.items| <= MaxInterests && IsInterestName(v.items[|r.state.interests|]) ==>
            p.id == "" && r.state.interests == [] && r.error == InvalidInterest(Interests.InvalidUserId))
  {
    if v.Arr? && |v.items| <= MaxInterests {
      var names := Names(v.items);
      BuildInterestsMeaning(names, ids, p.id, now);
      assert AllNames(names) <==> forall k :: 0 <= k < |v.items| ==> IsInterestName(v.items[k]);
    }
  }

  /** `updateInterests` as evidently intended: the new list replaces the old
      one only when every element is acceptable. */
  function UpdateInterestsAtomic(p: UserProfile, v: Value, ids: seq<string>, now: int)
    : (r: Outcome<UserProfile, (), ProfileError>)
    requires v.Arr? ==> |ids| >= |v.items|
    requires FreshIds(ids)
    ensures r.Aborted? ==> r.state == p
    ensures r.Completed? <==> UpdateInterests(p, v, ids, now).Completed?
    ensures r.Completed? ==> r == UpdateInterests(p, v, ids, now)
  {
    match UpdateInterests(p, v, ids, now)
    case Completed(q, u) => Completed(q, u)
    case Aborted(_, e) => Aborted(p, e)
  }

  // ---------------------------------------------------------------------
  // Queries

  predicate IsFriend(p: UserProfile, userId: Value) {
    userId.Str? && userId.s in p.friends
  }

  predicate IsBlocked(p: UserProfile, userId: Value) {
    userId.Str? && userId.s in p.blocked
  }

  function FriendsCount(p: UserProfile): nat {
    |p.friends|
  }

  function InterestsCount(p: UserProfile): nat {
    |p.interests|
  }

  /** The fields `toJSON()` exposes. */
  datatype View = View(
    id: string,
    username: string,
    bio: Value,
    interests: seq<Interests.Interest>,
    friendsCount: nat,
    interestsCount: nat,
    createdAt: int,
    updatedAt: int)

  /** `toJSON()`: the bio's value or `null`; friends are only counted, and
      blocked users are not exposed. */
  function ToJson(p: UserProfile): (v: View)
    ensures v.bio == (if p.bio.Some? then p.bio.value.value else Null)
    ensures v.friendsCount == |p.friends| && v.interestsCount == |v.interests| == |p.interests|
    ensures v.id == p.id && v.username == p.username && v.interests == p.interests
    ensures v.createdAt == p.createdAt && v.updatedAt == p.updatedAt
  {
    View(p.id, p.username, if p.bio.Some? then p.bio.value.value else Null, p.interests,
         FriendsCount(p), InterestsCount(p), p.createdAt, p.updatedAt)
  }

  // ---------------------------------------------------------------------
  // Properties relating several operations

  /** Friends and blocked users stay apart and the profile's own id never
      enters either set, whether an operation completes or aborts. */
  lemma FriendOperationsKeepWf(p: UserProfile, v: Value, now: int)
    requires ProfileWf(p)
    ensures AddFriend(p, v, now).Ok? ==> ProfileWf(AddFriend(p, v, now).value.0)
    ensures RemoveFriend(p, v, now).Ok? ==> ProfileWf(RemoveFriend(p, v, now).value.0)
    ensures ProfileWf(BlockUser(p, v, now).state)
    ensures UnblockUser(p, v, now).Ok? ==> ProfileWf(UnblockUser(p, v, now).value.0)
  {
  }

  /** A refused `updateProfile` leaves a valid username behind too. */
  lemma UpdateProfileKeepsWf(p: UserProfile, newUsername: Value, newBio: Value, now: int)
    requires ProfileWf(p)
    ensures ProfileWf(UpdateProfile(p, newUsername, newBio, now).state)
  {
  }

  /** Completed or half applied, the interests carry distinct ids, belong
      to the profile and have names. */
  lemma UpdateInterestsKeepsWf(p: UserProfile, v: Value, ids: seq<string>, now: int)
    requires ProfileWf(p)
    requires v.Arr? ==> |ids| >= |v.items|
    requires FreshIds(ids)
    ensures ProfileWf(UpdateInterests(p, v, ids, now).state)
  {
    var q := UpdateInterests(p, v, ids, now).state;
    UpdateInterestsMeaning(p, v, ids, now);
    if v.Arr? && |v.items| <= MaxInterests {
      var names := Names(v.items);
      BuiltIdsDistinct(q.interests, names, ids, p.id, now);
      forall i | 0 <= i < |q.interests| ensures q.interests[i].userId == p.id && q.interests[i].name != "" {
        assert BuiltFrom(q.interests[i], names, ids, i, p.id, now);
      }
    }
  }

  /** Blocking a friend unfriends them. */
  lemma BlockingUnfriends(p: UserProfile, userId: string, now: int)
    requires BlockUser(p, Str(userId), now).Completed?
    ensures !IsFriend(BlockUser(p, Str(userId), now).state, Str(userId))
    ensures IsBlocked(BlockUser(p, Str(userId), now).state, Str(userId))
    ensures AddFriend(BlockUser(p, Str(userId), now).state, Str(userId), now) == Err(FriendBlocked)
  {
  }

  /** On a well-formed profile the friend removal that precedes the
      already-blocked check is a no-op: a blocked user is never a friend,
      so the refused call changes nothing. */
  lemma BlockingTwiceChangesNothing(p: UserProfile, userId: string, now: int)
    requires ProfileWf(p)
    requires userId in p.blocked
    ensures BlockUser(p, Str(userId), now) == Aborted(p, AlreadyBlocked)
  {
    assert userId != p.id;
    assert userId !in p.friends * p.blocked;
    assert p.friends - {userId} == p.friends;
  }

  /** Blocking then unblocking leaves the blocked set as it was, but the
      friendship is gone for good. */
  lemma BlockThenUnblock(p: UserProfile, userId: string, t1: int, t2: int)
    requires BlockUser(p, Str(userId), t1).Completed?
    ensures var q := BlockUser(p, Str(userId), t1).state;
      && UnblockUser(q, Str(userId), t2).Ok?
      && UnblockUser(q, Str(userId), t2).value.0.blocked == p.blocked
      && UnblockUser(q, Str(userId), t2).value.0.friends == p.friends - {userId}
  {
  }

  /** Adding then removing a friend restores the friends. */
  lemma AddThenRemoveFriend(p: UserProfile, friendId: string, t1: int, t2: int)
    requires AddFriend(p, Str(friendId), t1).Ok?
    ensures RemoveFriend(AddFriend(p, Str(friendId), t1).value.0, Str(friendId), t2).Ok?
    ensures RemoveFriend(AddFriend(p, Str(friendId), t1).value.0, Str(friendId), t2).value.0.friends == p.friends
  {
  }

  // ---------------------------------------------------------------------
  // Where the code departs from the evident intent

  /** `updateInterests(["chess", ""])` throws on the empty name, yet the
      profile is left with "chess" as its only interest: the old interests
      are gone and the new list is half applied. */
  lemma InterestsHalfApplied(p: UserProfile, now: int)
    requires p.id != "" && |p.interests| != 1
    ensures var r := UpdateInterests(p, Arr([Str("chess"), Str("")]), ["a", "b"], now);
      && r.Aborted? && r.error == InvalidInterestName
      && r.state.interests == [Interests.Interest("a", "chess", p.id, now)]
      && r.state != p
  {
    var items := [Str("chess"), Str("")];
    NamesOfChessAndBlank();
    var names: seq<Option<string>> := [Some("chess"), None];
    assert Names(items) == names;
    var chess := Interests.Interest("a", "chess", p.id, now);
    BuildInterestsMeaning(names, ["a", "b"], p.id, now);
    var r := BuildInterests(names, ["a", "b"], p.id, now);
    assert !AllNames(names) && r.Aborted?;
    assert |r.state| == 1;
    assert BuiltFrom(r.state[0], names, ["a", "b"], 0, p.id, now);
  }

  lemma NamesOfChessAndBlank()
    ensures Names([Str("chess"), Str("")]) == [Some("chess"), None]
  {
    var chess := "chess";
    assert Trim(chess) == chess;
    assert Trim("") == "";
  }

  /** The corrected `updateInterests` leaves the profile untouched on the
      same call. */
  lemma InterestsAtomicOnRefusal(p: UserProfile, v: Value, ids: seq<string>, now: int)
    requires v.Arr? ==> |ids| >= |v.items|
    requires FreshIds(ids)
    requires UpdateInterestsAtomic(p, v, ids, now).Aborted?
    ensures UpdateInterestsAtomic(p, v, ids, now).state.interests == p.interests
    ensures InterestsCount(UpdateInterestsAtomic(p, v, ids, now).state) == InterestsCount(p)
  {
  }

  /** `updateProfile("bobby", "spam")` throws on the bio, yet the profile
      now answers to "bobby". */
  lemma UsernameKeptWhenBioRefused(p: UserProfile, now: int)
    requires p.username != "bobby"
    ensures var r := UpdateProfile(p, Str("bobby"), Str("spam"), now);
      && r.Aborted? && r.error == InvalidBio(Bios.Inappropriate)
      && r.state.username == "bobby"
      && r.state != p
  {
    assert OccursAt("spam", Lower("spam"), 0);
    assert Bios.New(Str("spam")) == Err(Bios.Inappropriate);
    assert MatchesUsernamePattern("bobby");
  }

  /** The corrected `updateProfile` keeps the old username on that call. */
  lemma ProfileAtomicOnRefusal(p: UserProfile, newUsername: Value, newBio: Value, now: int)
    requires UpdateProfileAtomic(p, newUsername, newBio, now).Aborted?
    ensures UpdateProfileAtomic(p, newUsername, newBio, now).state.username == p.username
    ensures UpdateProfileAtomic(p, newUsername, newBio, now).state.bio == p.bio
  {
  }
}
