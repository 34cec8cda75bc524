/**
 * The JPA entity `User` of the user service: private fields behind a getter and
 * a setter each. `Integer` and `String` fields are nullable in Java and start out
 * null, so they are options here; the soft-delete flag starts out false.
 */
module UserEntity {
  import opened Wrappers

  class User {
    var id: Option<int>
    var name: Option<string>
    var email: Option<string>
    var deleted: bool

    /** A fresh entity: every reference field null, not deleted. */
    constructor ()
      ensures id == None && name == None && email == None
      ensures !deleted
    {
      id := None;
      name := None;
      email := None;
      deleted := false;
    }

    method GetId() returns (r: Option<int>)
      ensures r == id
    {
      r := id;
    }

    /** The frame `this`id` says that no other field changes. */
    method SetId(id: Option<int>)
      modifies this`id
      ensures this.id == id
    {
      this.id := id;
    }

    method GetName() returns (r: Option<string>)
      ensures r == name
    {
      r := name;
    }

    method SetName(name: Option<string>)
      modifies this`name
      ensures this.name == name
    {
      this.name := name;
    }

    method GetEmail() returns (r: Option<string>)
      ensures r == email
    {
      r := email;
    }

    method SetEmail(email: Option<string>)
      modifies this`email
      ensures this.email == email
    {
      this.email := email;
    }

    method IsDeleted() returns (r: bool)
      ensures r == deleted
    {
      r := deleted;
    }

    method SetDeleted(deleted: bool)
      modifies this`deleted
      ensures this.deleted == deleted
    {
      this.deleted := deleted;
    }
  }
}
