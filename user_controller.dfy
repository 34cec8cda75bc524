/**
 * The user service's `MainController` as a class. Its fields are the state the
 * Spring beans hold: the user table (`UserRepository`, in id order), the id
 * generator behind `GenerationType.AUTO`, the `userByEmail` cache and the
 * event publisher. Each endpoint is proved to do what the corresponding
 * function of `UserService` says, and to keep the table's invariant.
 */
module UserController {
  import opened Wrappers
  import opened UserEntity
  import opened UserEvents
  import opened UserService
  import UserServiceProperties

  class MainController {
    const eventPublisher: UserEventPublisher
    var users: seq<UserRow>
    var nextId: int
    var cache: map<string, UserOrMessage>

    /** Everything the controller touches, as one value. */
    ghost function Model(): Service
      reads this, eventPublisher.rabbitTemplate
    {
      Service(users, nextId, cache, eventPublisher.rabbitTemplate.sent)
    }

    ghost predicate Valid()
      reads this, eventPublisher.rabbitTemplate
    {
      Consistent(Model())
    }

    constructor (eventPublisher: UserEventPublisher)
      ensures this.eventPublisher == eventPublisher
      ensures Valid() && Model() == Initial(eventPublisher.rabbitTemplate.sent)
    {
      this.eventPublisher := eventPublisher;
      users := [];
      nextId := 1;
      cache := map[];
    }

    // -------------------------------------------------------------------------
    // The repository's entity operations

    /** `findById`: a freshly loaded entity holding the row's values, or nothing. */
    method FindById(id: int) returns (r: Option<User>)
      ensures r.None? <==> IndexOfId(users, id).None?
      ensures r.Some? ==>
        var row := users[IndexOfId(users, id).value];
        && fresh(r.value)
        && r.value.id == Some(row.id) && r.value.name == Some(row.name)
        && r.value.email == Some(row.email) && r.value.deleted == row.deleted
    {
      match IndexOfId(users, id)
      case None =>
        r := None;
      case Some(i) =>
        var row := users[i];
        var u := new User();
        u.SetId(Some(row.id));
        u.SetName(Some(row.name));
        u.SetEmail(Some(row.email));
        u.SetDeleted(row.deleted);
        r := Some(u);
    }

    /**
     * `save`: an entity without an id is inserted under a newly issued id; one
     * with an id overwrites that row. Either fails, changing nothing, when
     * another row already holds the entity's email.
     */
    method Save(u: User) returns (ok: bool)
      requires u.name.Some? && u.email.Some?
      requires u.id.Some? ==> IndexOfId(users, u.id.value).Some?
      modifies this`users, this`nextId, u`id
      ensures ok == !EmailTakenByOther(old(users), u.email.value, old(u.id))
      ensures !ok ==> users == old(users) && nextId == old(nextId) && u.id == old(u.id)
      ensures ok && old(u.id).None? ==>
        && u.id == Some(old(nextId)) && nextId == old(nextId) + 1
        && users == old(users) + [UserRow(old(nextId), u.name.value, u.email.value, u.deleted)]
      ensures ok && old(u.id).Some? ==>
        && u.id == old(u.id) && nextId == old(nextId)
        && users == old(users)[IndexOfId(old(users), u.id.value).value :=
                                 UserRow(u.id.value, u.name.value, u.email.value, u.deleted)]
    {
      ok := !EmailTakenByOther(users, u.email.value, u.id);
      if !ok {
        return;
      }
      if u.id.None? {
        u.SetId(Some(nextId));
        users := users + [UserRow(nextId, u.name.value, u.email.value, u.deleted)];
        nextId := nextId + 1;
      } else {
        var i := IndexOfId(users, u.id.value).value;
        users := users[i := UserRow(u.id.value, u.name.value, u.email.value, u.deleted)];
      }
    }

    // -------------------------------------------------------------------------
    // Endpoints

    /** `getDeletedUsers`: the repository query `findAllByDeletedTrue`. */
    method GetDeletedUsers() returns (r: seq<UserRow>)
      ensures r == WithDeleted(users, true)
    {
      r := WithDeleted(users, true);
    }

    /** `addNewUser`, with its `@CachePut` on the email. */
    method AddNewUser(name: string, email: string) returns (r: string)
      requires Valid()
      modifies this, eventPublisher.rabbitTemplate
      ensures Valid()
      ensures (Model(), r) == Add(old(Model()), name, email)
    {
      ghost var before := Model();
      var event := UserCreated(name, email);
      if FindByEmail(users, email).Some? {
        eventPublisher.PublishUserCreationFailedEvent(UserCreationFailed(email, EMAIL_TAKEN_REASON));
        r := EMAIL_TAKEN;
      } else {
        var n := new User();
        n.SetName(Some(name));
        n.SetEmail(Some(email));
        var saved := Save(n);
        assert saved;
        eventPublisher.PublishUserCreatedEvent(event);
        r := SAVED;
      }
      cache := cache[email := AMessage(r)];
      assert (Model(), r) == Add(before, name, email);
      UserServiceProperties.AddPreservesConsistent(before, name, email);
    }

    /** `getAllUsers`: a loop over `findAll` keeping the rows not soft-deleted. */
    method GetAllUsers() returns (r: seq<UserRow>)
      ensures r == WithDeleted(users, false)
    {
      var all := users;
      r := [];
      for i := 0 to |all|
        invariant r == WithDeleted(all[..i], false)
      {
        UserServiceProperties.WithDeletedStep(all, i, false);
        if !all[i].deleted {
          r := r + [all[i]];
        }
      }
      assert all[..|all|] == all;
    }

    /** `getUserByEmail`, with its `@Cacheable` on the email. */
    method GetUserByEmail(email: string) returns (r: UserOrMessage)
      requires Valid()
      modifies this`cache
      ensures Valid()
      ensures (Model(), r) == Lookup(old(Model()), email)
    {
      if email in cache {
        r := cache[email];
        return;
      }
      var userOpt := FindByEmail(users, email);
      if userOpt.Some? && !userOpt.value.deleted {
        r := AUser(userOpt.value);
      } else {
        r := AMessage(USER_NOT_FOUND);
      }
      cache := cache[email := r];
    }

    /**
     * `updateUser`, with its `@CacheEvict` on the email argument, which runs
     * only when the method returns normally.
     */
    method UpdateUser(id: int, name: Option<string>, email: string) returns (r: UpdateOutcome)
      requires Valid()
      modifies this`users, this`nextId, this`cache
      ensures Valid()
      ensures (Model(), r) == Update(old(Model()), id, name, email)
    {
      ghost var before := Model();
      var userOpt := FindById(id);
      if userOpt.None? {
        r := Returned(USER_NOT_FOUND);
      } else {
        ghost var i := IndexOfId(users, id).value;
        ghost var row := Edited(users[i], name, email);
        assert Update(before, id, name, email) ==
          if EmailTakenByOther(before.users, row.email, Some(id)) then (before, UniqueViolation)
          else (before.(users := before.users[i := row], cache := before.cache - {email}), Returned(UPDATED));
        var user := userOpt.value;
        if name.Some? && name.value != "" {
          user.SetName(name);
        }
        if email != "" {
          user.SetEmail(Some(email));
        }
        assert user.id == Some(row.id) && user.name == Some(row.name);
        assert user.email == Some(row.email) && user.deleted == row.deleted;
        var ok := Save(user);
        assert ok == !EmailTakenByOther(before.users, row.email, Some(id));
        assert ok ==> users == before.users[i := row];
        r := if ok then Returned(UPDATED) else UniqueViolation;
      }
      if r.Returned? {
        cache := cache - {email};
      }
      assert (Model(), r) == Update(before, id, name, email);
      UserServiceProperties.UpdatePreservesConsistent(before, id, name, email);
    }

    /** `deleteUser`: evicts the stored email, then saves the entity with the flag set. */
    method DeleteUser(id: int) returns (r: string)
      requires Valid()
      modifies this`users, this`nextId, this`cache
      ensures Valid()
      ensures (Model(), r) == Delete(old(Model()), id)
    {
      ghost var before := Model();
      var userOpt := FindById(id);
      if userOpt.None? {
        r := USER_NOT_FOUND;
        return;
      }
      var user := userOpt.value;
      var email := user.GetEmail();
      cache := cache - {email.value};
      user.SetDeleted(true);
      ghost var i := IndexOfId(users, id).value;
      UserServiceProperties.IndexOfIdUnique(before, i);
      // The row keeps its own email, which no other row holds.
      forall u | u in users && u.email == email.value
        ensures u.id == id
      {
        UserServiceProperties.FindByEmailUnique(before, u);
        UserServiceProperties.FindByEmailUnique(before, users[i]);
      }
      var ok := Save(user);
      assert ok;
      r := SOFT_DELETED;
      UserServiceProperties.DeletePreservesConsistent(before, id);
    }
  }
}
