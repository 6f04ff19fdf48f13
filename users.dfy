/** polite_back/routes/users.py: registration with unique usernames, and the lookup by
    username or id. */
module Users {
  import opened Wrappers
  import opened Seqs
  import opened Model
  import opened Schemas

  function NameIs(username: string): User -> bool {
    (u: User) => u.username == username
  }

  function IdIs(id: int): User -> bool {
    (u: User) => u.id == id
  }

  /** `select(User).where(User.username == ...)`. */
  function FindByName(users: seq<User>, username: string): (r: Option<User>)
    ensures r.Some? ==> r.value in users && r.value.username == username
    ensures r.None? <==> forall i :: 0 <= i < |users| ==> users[i].username != username
  {
    match IndexWhere(users, NameIs(username))
    case None => None
    case Some(i) => Some(users[i])
  }

  /** `select(User).where(User.id == ...)`. */
  function FindById(users: seq<User>, id: int): (r: Option<User>)
    ensures r.Some? ==> r.value in users && r.value.id == id
    ensures r.None? <==> forall i :: 0 <= i < |users| ==> users[i].id != id
  {
    match IndexWhere(users, IdIs(id))
    case None => None
    case Some(i) => Some(users[i])
  }

  /** A user registered under a fresh name is the one found under it afterwards. */
  lemma RegisteredIsFound(users: seq<User>, u: User)
    requires FindByName(users, u.username).None?
    ensures FindByName(users + [u], u.username) == Some(u)
    ensures forall name :: name != u.username ==> FindByName(users + [u], name) == FindByName(users, name)
  {
    var all := users + [u];
    assert all[|users|] == u;
    forall name | name != u.username
      ensures FindByName(all, name) == FindByName(users, name)
    {
      var p := NameIs(name);
      var k := IndexWhere(users, p);
      var k' := IndexWhere(all, p);
      assert forall j :: 0 <= j < |users| ==> all[j] == users[j];
      if k.Some? {
        assert p(all[k.value]);
        assert k' == k;
      } else {
        assert k'.None?;
      }
    }
  }

  /** The answer of `verify_user`: whether the user exists, and the row when it does. */
  datatype VerifyRes = VerifyRes(found: bool, user: Option<User>)

  /** The users table. */
  class UserTable {
    var users: seq<User>
    /** The next autoincrement id. */
    var nextId: nat

    ghost predicate Valid()
      reads this
    {
      && nextId >= 1
      && UsernamesUnique(users)
      && (forall i :: 0 <= i < |users| ==> 1 <= users[i].id < nextId)
      && (forall i, j :: 0 <= i < j < |users| ==> users[i].id < users[j].id)
    }

    constructor ()
      ensures Valid() && users == [] && nextId == 1
    {
      users := [];
      nextId := 1;
    }

    /** `register_user`: 400 when the username is taken and nothing is written; otherwise
        a new user with the next id, created at `now`. */
    method Register(body: UserRegister, now: int) returns (r: Result<User>)
      requires Valid() && ValidUserRegister(body)
      modifies this
      ensures Valid()
      ensures old(FindByName(users, body.username)).Some? ==>
        r == Failure(BadRequest) && users == old(users) && nextId == old(nextId)
      ensures old(FindByName(users, body.username)).None? ==>
        && r == Success(User(old(nextId), body.username, now))
        && users == old(users) + [r.value]
        && nextId == old(nextId) + 1
    {
      if FindByName(users, body.username).Some? {
        return Failure(BadRequest);
      }
      var u := User(nextId, body.username, now);
      users := users + [u];
      nextId := nextId + 1;
      r := Success(u);
    }

    /** `verify_user`: a non-empty username is looked up first, otherwise the id; with
        neither, 400. The answer says whether such a user exists. */
    function Verify(body: UserVerify): (r: Result<VerifyRes>)
      requires ValidUserVerify(body)
      reads this
      ensures r.Failure? <==> !Given(body.username) && body.id.None?
      ensures r.Failure? ==> r.error == BadRequest
      ensures r.Success? ==> (r.value.found <==> r.value.user.Some?)
      ensures r.Success? && Given(body.username) ==>
        (r.value.found <==> exists i :: 0 <= i < |users| && users[i].username == body.username.value)
      ensures r.Success? && Given(body.username) && r.value.found ==>
        r.value.user.value in users && r.value.user.value.username == body.username.value
      ensures r.Success? && !Given(body.username) ==>
        (r.value.found <==> exists i :: 0 <= i < |users| && users[i].id == body.id.value)
      ensures r.Success? && !Given(body.username) && r.value.found ==>
        r.value.user.value in users && r.value.user.value.id == body.id.value
    {
      var found :=
        if Given(body.username) then Some(FindByName(users, body.username.value))
        else if body.id.Some? then Some(FindById(users, body.id.value))
        else None;
      match found
      case None => Failure(BadRequest)
      case Some(u) => Success(VerifyRes(u.Some?, u))
    }
  }
}
