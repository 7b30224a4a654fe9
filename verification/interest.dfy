/** The Interest entity of a user profile: a named tag owned by one user. */
module Interests {
  import opened Js
  import opened Results

  /** The longest name `updateName` accepts; construction has no cap. */
  const MaxNameLength: nat := 100

  datatype Interest = Interest(id: string, name: string, userId: string, createdAt: int)

  datatype InterestError =
    | InvalidId
    | InvalidName
    | InvalidUserId
    | InvalidNewName
    | NameTooLong

  /** `new Interest(id, name, userId)`: each argument must be a non-empty string. */
  function New(id: Value, name: Value, userId: Value, now: int): (r: Result<Interest, InterestError>)
    ensures r.Ok? <==> IsNonEmptyString(id) && IsNonEmptyString(name) && IsNonEmptyString(userId)
    ensures !IsNonEmptyString(id) ==> r == Err(InvalidId)
    ensures IsNonEmptyString(id) && !IsNonEmptyString(name) ==> r == Err(InvalidName)
    ensures IsNonEmptyString(id) && IsNonEmptyString(name) && !IsNonEmptyString(userId) ==> r == Err(InvalidUserId)
    ensures r.Ok? ==> r.value == Interest(id.s, name.s, userId.s, now)
  {
    if !IsNonEmptyString(id) then Err(InvalidId)
    else if !IsNonEmptyString(name) then Err(InvalidName)
    else if !IsNonEmptyString(userId) then Err(InvalidUserId)
    else Ok(Interest(id.s, name.s, userId.s, now))
  }

  /** `updateName(newName)`: a non-empty string of at most MaxNameLength
      characters replaces the name; nothing else changes. */
  function UpdateName(it: Interest, newName: Value): (r: Result<Interest, InterestError>)
    ensures r.Ok? <==> IsNonEmptyString(newName) && |newName.s| <= MaxNameLength
    ensures !IsNonEmptyString(newName) ==> r == Err(InvalidNewName)
    ensures IsNonEmptyString(newName) && |newName.s| > MaxNameLength ==> r == Err(NameTooLong)
    ensures r.Ok? ==> r.value == it.(name := newName.s)
  {
    if !IsNonEmptyString(newName) then Err(InvalidNewName)
    else if |newName.s| > MaxNameLength then Err(NameTooLong)
    else Ok(it.(name := newName.s))
  }

  /** `equals(other)`: interests are the same entity when their ids agree. */
  predicate Equals(a: Interest, b: Interest) {
    a.id == b.id
  }

  /** Renaming keeps the entity's identity and owner. */
  lemma RenameKeepsIdentity(it: Interest, newName: Value)
    requires UpdateName(it, newName).Ok?
    ensures Equals(UpdateName(it, newName).value, it)
    ensures UpdateName(it, newName).value.userId == it.userId
  {
  }

  /** The length cap applies only to renaming: a name the constructor
      accepts can be one `updateName` refuses. */
  lemma CapOnlyOnRename(name: string, now: int)
    requires |name| > MaxNameLength
    ensures New(Str("i"), Str(name), Str("u"), now).Ok?
    ensures UpdateName(New(Str("i"), Str(name), Str("u"), now).value, Str(name)) == Err(NameTooLong)
  {
  }
}
