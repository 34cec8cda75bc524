/**
 * What the user service's controller does, as functions over one value that
 * holds everything it touches: the user table (rows in id order, taken
 * as the order `findAll` returns), the id generator, the `userByEmail` cache and the
 * messages published so far. The class `UserController.MainController` is
 * proved to follow these functions call by call; the lemmas below state what
 * the functions promise.
 */
module UserService {
  import opened Wrappers
  import opened UserEvents

  /** The controller's reply strings. */
  const SAVED := "Saved"
  const EMAIL_TAKEN := "Error: Email already registered."
  const EMAIL_TAKEN_REASON := "Email already registered"
  const USER_NOT_FOUND := "Error: User not found."
  const UPDATED := "Updated"
  const SOFT_DELETED := "Soft deleted"

  /** A stored `User` row. Stored rows always have an id, a name and an email. */
  datatype UserRow = UserRow(id: int, name: string, email: string, deleted: bool)

  /** `getUserByEmail` returns `Object`: a user or an error string; the cache holds either. */
  datatype UserOrMessage = AUser(user: UserRow) | AMessage(text: string)

  /** How `updateUser` ends: it returns a string, or saving throws on the unique email column. */
  datatype UpdateOutcome = Returned(body: string) | UniqueViolation

  datatype Service = Service(
    users: seq<UserRow>,
    nextId: int,
    cache: map<string, UserOrMessage>,
    sent: seq<Message>)

  /**
   * The table's invariant: ids increase along the table (so they are unique),
   * every id is below the next one to be issued, and no two rows share an
   * email (the `unique = true` column).
   */
  ghost predicate Consistent(s: Service)
  {
    && (forall i, j :: 0 <= i < j < |s.users| ==> s.users[i].id < s.users[j].id)
    && (forall i :: 0 <= i < |s.users| ==> s.users[i].id < s.nextId)
    && (forall i, j :: 0 <= i < j < |s.users| ==> s.users[i].email != s.users[j].email)
  }

  /** The state of a freshly started service with an empty table. */
  function Initial(sent: seq<Message>): (s: Service)
    ensures Consistent(s) && s.users == [] && s.cache == map[]
  {
    Service([], 1, map[], sent)
  }

  // ---------------------------------------------------------------------------
  // Repository queries

  /** `findByEmail`: the row with that email, deleted or not. */
  function FindByEmail(users: seq<UserRow>, email: string): (r: Option<UserRow>)
    ensures r.Some? ==> r.value in users && r.value.email == email
    ensures r.None? ==> forall u :: u in users ==> u.email != email
  {
    if users == [] then None
    else if users[0].email == email then Some(users[0])
    else FindByEmail(users[1..], email)
  }

  /** `findById`, as the position of the first row with that id. */
  function IndexOfId(users: seq<UserRow>, id: int): (r: Option<nat>)
    ensures r.Some? ==> r.value < |users| && users[r.value].id == id
    ensures r.Some? ==> forall k :: 0 <= k < r.value ==> users[k].id != id
    ensures r.None? ==> forall u :: u in users ==> u.id != id
  {
    if users == [] then None
    else if users[0].id == id then Some(0)
    else match IndexOfId(users[1..], id)
      case None => None
      case Some(k) => Some(k + 1)
  }

  /** Rows whose soft-delete flag equals `flag`, in table order. */
  function WithDeleted(users: seq<UserRow>, flag: bool): (r: seq<UserRow>)
    ensures |r| <= |users|
  {
    if users == [] then []
    else
      (if users[0].deleted == flag then [users[0]] else []) + WithDeleted(users[1..], flag)
  }

  /** Whether saving a row with `email` and `id` breaks the unique email column. */
  predicate EmailTakenByOther(users: seq<UserRow>, email: string, id: Option<int>)
    ensures id.None? ==> (EmailTakenByOther(users, email, id) <==> FindByEmail(users, email).Some?)
  {
    exists u :: u in users && u.email == email && Some(u.id) != id
  }

  // ---------------------------------------------------------------------------
  // The controller's operations

  /**
   * `addNewUser(name, email)`. Any existing row with the email, soft-deleted or
   * not, makes it fail with one failure event and an unchanged table; otherwise
   * a new row is stored and one created event published. Either way `@CachePut`
   * stores the returned string under the email.
   */
  function Add(s: Service, name: string, email: string): (r: (Service, string))
    ensures r.0.cache == s.cache[email := AMessage(r.1)]
    ensures (exists u :: u in s.users && u.email == email) ==>
      && r.1 == EMAIL_TAKEN
      && r.0.users == s.users && r.0.nextId == s.nextId
      && r.0.sent == s.sent + [Message(EXCHANGE_NAME, ROUTING_KEY_FAILURE, UserCreationFailed(email, EMAIL_TAKEN_REASON))]
    ensures (forall u :: u in s.users ==> u.email != email) ==>
      && r.1 == SAVED
      && r.0.users == s.users + [UserRow(s.nextId, name, email, false)]
      && r.0.sent == s.sent + [Message(EXCHANGE_NAME, ROUTING_KEY, UserCreated(name, email))]
  {
    if FindByEmail(s.users, email).Some? then
      (s.(cache := s.cache[email := AMessage(EMAIL_TAKEN)],
          sent := s.sent + [Envelope(UserCreationFailed(email, EMAIL_TAKEN_REASON))]),
       EMAIL_TAKEN)
    else
      (s.(users := s.users + [UserRow(s.nextId, name, email, false)],
          nextId := s.nextId + 1,
          cache := s.cache[email := AMessage(SAVED)],
          sent := s.sent + [Envelope(UserCreated(name, email))]),
       SAVED)
  }

  /** What `getUserByEmail` computes when the cache misses. */
  function FetchByEmail(users: seq<UserRow>, email: string): (r: UserOrMessage)
    ensures r.AUser? ==> r.user in users && r.user.email == email && !r.user.deleted
    ensures r.AMessage? ==> r.text == USER_NOT_FOUND
  {
    match FindByEmail(users, email)
    case Some(u) => if !u.deleted then AUser(u) else AMessage(USER_NOT_FOUND)
    case None => AMessage(USER_NOT_FOUND)
  }

  /**
   * `getUserByEmail(email)` under `@Cacheable`: a hit returns the cached value
   * without reading the table; a miss reads the table and caches the result,
   * the error string included.
   */
  function Lookup(s: Service, email: string): (r: (Service, UserOrMessage))
    ensures email in s.cache ==> r.0 == s && r.1 == s.cache[email]
    ensures email !in s.cache ==> r.0 == s.(cache := s.cache[email := r.1])
    ensures email !in s.cache && r.1.AUser? ==> r.1.user in s.users && r.1.user.email == email && !r.1.user.deleted
    ensures email !in s.cache && r.1.AMessage? ==> r.1.text == USER_NOT_FOUND
  {
    if email in s.cache then (s, s.cache[email])
    else
      var v := FetchByEmail(s.users, email);
      (s.(cache := s.cache[email := v]), v)
  }

  /** The row `updateUser` saves: name and email replaced only by non-empty arguments. */
  function Edited(u: UserRow, name: Option<string>, email: string): (r: UserRow)
    ensures r.id == u.id && r.deleted == u.deleted
    ensures r.name == (if name.Some? && name.value != "" then name.value else u.name)
    ensures r.email == (if email != "" then email else u.email)
  {
    u.(name := if name.Some? && name.value != "" then name.value else u.name,
       email := if email != "" then email else u.email)
  }

  /**
   * `updateUser(id, name, email)` under `@CacheEvict(key = "#email")`. The key
   * evicted is the email ARGUMENT, after the method returns normally: also on
   * the not-found path, never when saving throws.
   */
  function Update(s: Service, id: int, name: Option<string>, email: string): (r: (Service, UpdateOutcome))
    ensures r.0.sent == s.sent && r.0.nextId == s.nextId && |r.0.users| == |s.users|
    ensures r.1 == Returned(USER_NOT_FOUND) <==> forall u :: u in s.users ==> u.id != id
    ensures r.1 == Returned(USER_NOT_FOUND) ==> r.0.users == s.users
    ensures r.1.Returned? ==> r.0.cache == s.cache - {email}
    ensures r.1 == UniqueViolation ==> r.0 == s
  {
    match IndexOfId(s.users, id)
    case None => (s.(cache := s.cache - {email}), Returned(USER_NOT_FOUND))
    case Some(i) =>
      var row := Edited(s.users[i], name, email);
      if EmailTakenByOther(s.users, row.email, Some(id)) then (s, UniqueViolation)
      else (s.(users := s.users[i := row], cache := s.cache - {email}), Returned(UPDATED))
  }

  /**
   * `deleteUser(id)`: evicts the user's current email from the cache, sets the
   * soft-delete flag and keeps the row.
   */
  function Delete(s: Service, id: int): (r: (Service, string))
    ensures r.0.sent == s.sent && r.0.nextId == s.nextId && |r.0.users| == |s.users|
    ensures r.1 == USER_NOT_FOUND <==> forall u :: u in s.users ==> u.id != id
    ensures r.1 == USER_NOT_FOUND ==> r.0 == s
    ensures r.1 != USER_NOT_FOUND ==> r.1 == SOFT_DELETED
  {
    match IndexOfId(s.users, id)
    case None => (s, USER_NOT_FOUND)
    case Some(i) =>
      (s.(users := s.users[i := s.users[i].(deleted := true)],
          cache := s.cache - {s.users[i].email}),
       SOFT_DELETED)
  }
}
