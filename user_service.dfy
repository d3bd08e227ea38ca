/** Account management: create, list with pagination, read, partial update,
    delete and password change, over the users table. */
module UserService {
  import opened Base
  import opened CommonDto
  import opened UserModel
  import opened UserRepository
  import opened Decimal

  const DefaultPerPage: int := 10

  const EmailRegistered: Error := Message("email already registered")
  const EmailUsed: Error := Message("email already used by another user")
  const UserNotFound: Error := Message("user not found")
  const WrongOldPassword: Error := Message("old password is incorrect")

  datatype CreateUserRequest = CreateUserRequest(
    role: string, fullName: string, email: string, phone: string, photoUrl: string, password: string)

  datatype UpdateUserRequest = UpdateUserRequest(
    fullName: string, email: string, phone: string, photoUrl: string, status: string)

  datatype ChangePasswordRequest = ChangePasswordRequest(oldPassword: string, newPassword: string)

  /** The account as the API shows it: absent optional fields are empty strings. */
  datatype UserResponse = UserResponse(
    userId: nat, role: string, fullName: string, status: string, email: string, phone: string, photoUrl: string)

  /** An optional column set from a request field: only a non-empty value is stored. */
  function Given(s: string): (o: Option<string>)
    ensures o.None? <==> s == ""
    ensures o.Some? ==> o.value == s
  {
    if s == "" then None else Some(s)
  }

  function Shown(o: Option<string>): (s: string)
    ensures o.Some? ==> s == o.value
    ensures o.None? ==> s == ""
  {
    if o.Some? then o.value else ""
  }

  /** userService.toUserResponse. */
  function ToUserResponse(row: UserRow): UserResponse
  {
    UserResponse(row.userId, row.role, row.fullName, row.status, Shown(row.email), Shown(row.phone), Shown(row.photoUrl))
  }

  /** A response shows a stored non-empty optional field as it is, so the
      request's optional values come back unchanged. */
  lemma ShownGiven(s: string)
    ensures Shown(Given(s)) == s
  {
  }

  /** The row CreateUser stores: an active account with the hashed password,
      the optional fields present exactly when non-empty, and the hook's id. */
  function NewUserRow(req: CreateUserRequest, freshId: nat, salt: nat): (row: UserRow)
    requires freshId != NilId
    ensures row.userId == freshId && row.status == StatusActive
    ensures row.role == req.role && row.fullName == req.fullName
    ensures row.email == Given(req.email) && row.phone == Given(req.phone) && row.photoUrl == Given(req.photoUrl)
    ensures Matches(row.passwordHash, req.password)
  {
    WithDefaults(UserRow(NilId, req.role, Given(req.email), Given(req.phone), Bcrypt(req.password, salt),
                         req.fullName, Given(req.photoUrl), StatusActive), freshId)
  }

  /** The stored row after UpdateUser: each non-empty request field
      overwrites its column; id, role and password hash are never touched. */
  function Merged(row: UserRow, req: UpdateUserRequest): (r: UserRow)
    ensures r.userId == row.userId && r.role == row.role && r.passwordHash == row.passwordHash
    ensures r.fullName == if req.fullName != "" then req.fullName else row.fullName
    ensures r.email == if req.email != "" then Some(req.email) else row.email
    ensures r.phone == if req.phone != "" then Some(req.phone) else row.phone
    ensures r.photoUrl == if req.photoUrl != "" then Some(req.photoUrl) else row.photoUrl
    ensures r.status == if req.status != "" then req.status else row.status
  {
    row.(fullName := if req.fullName != "" then req.fullName else row.fullName,
         email := if req.email != "" then Some(req.email) else row.email,
         phone := if req.phone != "" then Some(req.phone) else row.phone,
         photoUrl := if req.photoUrl != "" then Some(req.photoUrl) else row.photoUrl,
         status := if req.status != "" then req.status else row.status)
  }

  /** An empty update request changes nothing; applying a request twice is applying it once. */
  lemma MergedIdempotent(row: UserRow, req: UpdateUserRequest)
    ensures Merged(row, UpdateUserRequest("", "", "", "", "")) == row
    ensures Merged(Merged(row, req), req) == Merged(row, req)
  {
  }

  /** The page defaults of GetAllUsers. */
  function EffectivePage(page: int): (p: int)
    ensures p >= 1 && (page >= 1 ==> p == page)
  {
    if page <= 0 then 1 else page
  }

  function EffectivePerPage(perPage: int): (n: int)
    ensures n >= 1 && (perPage >= 1 ==> n == perPage) && (perPage <= 0 ==> n == DefaultPerPage)
  {
    if perPage <= 0 then DefaultPerPage else perPage
  }

  /** The number of pages: the least count of perPage-row pages that holds every item. */
  function PageCount(total: nat, perPage: int): (pages: nat)
    requires perPage > 0
    ensures pages * perPage >= total
    ensures pages > 0 ==> (pages - 1) * perPage < total
  {
    (total + perPage - 1) / perPage
  }

  lemma ScaleMonotone(a: int, b: int, c: int)
    requires a <= b && c >= 0
    ensures a * c <= b * c
  {
  }

  /** The page of the i-th item is within the page count. */
  lemma PageWithinCount(total: nat, perPage: int, i: nat)
    requires perPage > 0 && i < total
    ensures i / perPage + 1 <= PageCount(total, perPage)
  {
    var q := i / perPage;
    var pages := PageCount(total, perPage);
    assert q * perPage + i % perPage == i;
    if pages <= q {
      ScaleMonotone(pages, q, perPage);
      assert false;
    }
  }

  /** Every user is listed on some page between 1 and the page count. */
  lemma EveryUserOnAPage(rows: seq<UserRow>, perPage: int, i: nat)
    requires perPage > 0 && i < |rows|
    ensures var page := i / perPage + 1;
            && 1 <= page <= PageCount(|rows|, perPage)
            && rows[i] in Window(rows, (page - 1) * perPage, perPage)
  {
    var page := i / perPage + 1;
    assert 1 <= page <= PageCount(|rows|, perPage) by {
      PageWithinCount(|rows|, perPage, i);
    }
    assert rows[i] in Window(rows, (page - 1) * perPage, perPage) by {
      PageOfRow(rows, perPage, i);
    }
  }

  /** The record CreateUser builds before saving: the request's fields, the
      hash, status active, and the optional columns only when given. */
  method NewUser(req: CreateUserRequest, hash: Hash) returns (user: User)
    ensures fresh(user)
    ensures user.Row() == UserRow(NilId, req.role, Given(req.email), Given(req.phone), hash, req.fullName,
                                  Given(req.photoUrl), StatusActive)
  {
    user := new User.FromRow(UserRow(NilId, req.role, None, None, hash, req.fullName, None, StatusActive));
    if req.email != "" {
      user.email := Some(req.email);
    }
    if req.phone != "" {
      user.phone := Some(req.phone);
    }
    if req.photoUrl != "" {
      user.photoUrl := Some(req.photoUrl);
    }
  }

  /** The response loop of GetAllUsers: one response per row, in order. */
  method UserResponses(users: seq<UserRow>) returns (resp: seq<UserResponse>)
    ensures |resp| == |users| && forall k :: 0 <= k < |users| ==> resp[k] == ToUserResponse(users[k])
  {
    resp := [];
    for k := 0 to |users|
      invariant |resp| == k
      invariant forall j :: 0 <= j < k ==> resp[j] == ToUserResponse(users[j])
    {
      resp := resp + [ToUserResponse(users[k])];
    }
  }

  class UserService {
    const repo: UserTable

    constructor (repo: UserTable)
      ensures this.repo == repo
    {
      this.repo := repo;
    }

    /** userService.CreateUser. A lookup failure of the email check is
        ignored, as in the code; the unique index still refuses a taken email. */
    method CreateUser(req: CreateUserRequest, freshId: nat, salt: nat,
                      lookupFault: Option<string>, hashFault: Option<string>, createFault: Option<string>)
      returns (r: Result<UserResponse>)
      requires repo.Valid() && freshId != NilId
      modifies repo
      ensures repo.Valid()
      ensures req.email != "" && lookupFault.None? && IndexOfEmail(old(repo.rows), req.email).Some? ==>
                r == Err(EmailRegistered) && repo.rows == old(repo.rows)
      ensures !(req.email != "" && lookupFault.None? && IndexOfEmail(old(repo.rows), req.email).Some?) ==>
                && (hashFault.Some? ==> r == Err(Driver(hashFault.value)) && repo.rows == old(repo.rows))
                && (hashFault.None? ==>
                      var row := NewUserRow(req, freshId, salt);
                      && (r.Ok? <==> createFault.None? && !Clashes(old(repo.rows), row))
                      && (r.Ok? ==> r.value == ToUserResponse(row) && repo.rows == old(repo.rows) + [row])
                      && (r.Err? ==> repo.rows == old(repo.rows)
                                     && r.error == (if createFault.Some? then Driver(createFault.value) else UniqueViolation)))
    {
      if req.email != "" {
        var existing := repo.FindByEmail(req.email, lookupFault);
        if existing.Ok? {
          return Err(EmailRegistered);
        }
      }
      var hashed := GenerateHash(req.password, salt, hashFault);
      if hashed.Err? {
        return Err(hashed.error);
      }
      var user := NewUser(req, hashed.value);
      var err := repo.Create(user, freshId, createFault);
      if err.Some? {
        return Err(err.value);
      }
      r := Ok(ToUserResponse(user.Row()));
    }

    /** userService.GetAllUsers: defaults, the page, and the pagination block. */
    method GetAllUsers(page: int, perPage: int, countFault: Option<string>, findFault: Option<string>)
      returns (r: Result<(seq<UserResponse>, Pagination)>)
      ensures countFault.Some? ==> r == Err(Driver(countFault.value))
      ensures countFault.None? && findFault.Some? ==> r == Err(Driver(findFault.value))
      ensures countFault.None? && findFault.None? ==> r.Ok?
      ensures r.Ok? ==>
                var p, n := EffectivePage(page), EffectivePerPage(perPage);
                var w := Window(repo.rows, WrapInt64((p - 1) * n), n);
                && |r.value.0| == |w|
                && (forall k :: 0 <= k < |w| ==> r.value.0[k] == ToUserResponse(w[k]))
                && r.value.1 == Pagination(p, n, PageCount(|repo.rows|, n), |repo.rows|)
    {
      var p := if page <= 0 then 1 else page;
      var n := if perPage <= 0 then DefaultPerPage else perPage;
      var found := repo.FindAll(p, n, countFault, findFault);
      if found.Err? {
        return Err(found.error);
      }
      var users := found.value.0;
      var total := found.value.1;
      var responses := UserResponses(users);
      r := Ok((responses, Pagination(p, n, PageCount(total, n), total)));
    }

    /** userService.GetUserByID. */
    method GetUserByID(id: nat, fault: Option<string>) returns (r: Result<UserResponse>)
      ensures fault.Some? ==> r == Err(Driver(fault.value))
      ensures fault.None? && IndexOfId(repo.rows, id).None? ==> r == Err(UserNotFound)
      ensures fault.None? && IndexOfId(repo.rows, id).Some? ==>
                r == Ok(ToUserResponse(repo.rows[IndexOfId(repo.rows, id).value]))
    {
      var user := repo.FindByID(id, fault);
      if user.Err? {
        if user.error == RecordNotFound {
          return Err(UserNotFound);
        }
        return Err(user.error);
      }
      r := Ok(ToUserResponse(user.value.Row()));
    }

    /** userService.UpdateUser: partial update of a stored account. */
    method UpdateUser(id: nat, req: UpdateUserRequest, freshId: nat,
                      lookupFault: Option<string>, emailFault: Option<string>, saveFault: Option<string>)
      returns (r: Result<UserResponse>)
      requires repo.Valid() && freshId != NilId
      modifies repo
      ensures repo.Valid()
      ensures lookupFault.Some? ==> r == Err(Driver(lookupFault.value)) && repo.rows == old(repo.rows)
      ensures lookupFault.None? && IndexOfId(old(repo.rows), id).None? ==>
                r == Err(UserNotFound) && repo.rows == old(repo.rows)
      ensures lookupFault.None? && IndexOfId(old(repo.rows), id).Some? ==>
                var i := IndexOfId(old(repo.rows), id).value;
                var taken := req.email != "" && emailFault.None? && IndexOfEmail(old(repo.rows), req.email).Some?
                             && old(repo.rows)[IndexOfEmail(old(repo.rows), req.email).value].userId != id;
                var merged := Merged(old(repo.rows)[i], req);
                && (taken ==> r == Err(EmailUsed) && repo.rows == old(repo.rows))
                && (!taken && saveFault.Some? ==> r == Err(Driver(saveFault.value)) && repo.rows == old(repo.rows))
                && (!taken && saveFault.None? && Clashes(old(repo.rows)[..i] + old(repo.rows)[i + 1..], merged) ==>
                      r == Err(UniqueViolation) && repo.rows == old(repo.rows))
                && (!taken && saveFault.None? && !Clashes(old(repo.rows)[..i] + old(repo.rows)[i + 1..], merged) ==>
                      r == Ok(ToUserResponse(merged)) && repo.rows == old(repo.rows)[i := merged])
    {
      var found := repo.FindByID(id, lookupFault);
      if found.Err? {
        if found.error == RecordNotFound {
          return Err(UserNotFound);
        }
        return Err(found.error);
      }
      var user := found.value;
      ghost var i := IndexOfId(repo.rows, id).value;
      var taken := EmailTakenByOther(req.email, id, emailFault);
      if taken {
        return Err(EmailUsed);
      }
      ApplyUpdate(user, req);
      assert user.Row() == Merged(repo.rows[i], req);
      r := SaveUser(user, freshId, saveFault, i);
    }

    /** The email check of UpdateUser: a non-empty email that another
        account already has. A failed lookup lets the update through. */
    method EmailTakenByOther(email: string, id: nat, fault: Option<string>) returns (taken: bool)
      ensures taken <==> email != "" && fault.None? && IndexOfEmail(repo.rows, email).Some?
                         && repo.rows[IndexOfEmail(repo.rows, email).value].userId != id
    {
      if email == "" {
        return false;
      }
      var existing := repo.FindByEmail(email, fault);
      taken := existing.Ok? && existing.value.userId != id;
    }

    /** The field assignments of UpdateUser: each non-empty field of the
        request overwrites the loaded record's. (The code assigns the full
        name before the email check; the record is not saved when that check
        fails, so the order is not observable.) */
    method ApplyUpdate(user: User, req: UpdateUserRequest)
      modifies user
      ensures user.Row() == Merged(old(user.Row()), req)
    {
      if req.fullName != "" {
        user.fullName := req.fullName;
      }
      if req.email != "" {
        user.email := Some(req.email);
      }
      if req.phone != "" {
        user.phone := Some(req.phone);
      }
      if req.photoUrl != "" {
        user.photoUrl := Some(req.photoUrl);
      }
      if req.status != "" {
        user.status := req.status;
      }
    }

    /** The save at the end of UpdateUser: the edited record replaces the
        stored row with its id, unless that breaks a unique index. */
    method SaveUser(user: User, freshId: nat, saveFault: Option<string>, ghost i: nat) returns (r: Result<UserResponse>)
      requires repo.Valid() && freshId != NilId && i < |repo.rows| && user.userId == repo.rows[i].userId
      modifies repo, user
      ensures repo.Valid()
      ensures saveFault.Some? ==> r == Err(Driver(saveFault.value)) && repo.rows == old(repo.rows)
      ensures saveFault.None? && Clashes(old(repo.rows)[..i] + old(repo.rows)[i + 1..], old(user.Row())) ==>
                r == Err(UniqueViolation) && repo.rows == old(repo.rows)
      ensures saveFault.None? && !Clashes(old(repo.rows)[..i] + old(repo.rows)[i + 1..], old(user.Row())) ==>
                r == Ok(ToUserResponse(old(user.Row()))) && repo.rows == old(repo.rows)[i := old(user.Row())]
    {
      IdIsKey(repo.rows, i);
      var err := repo.Update(user, freshId, saveFault);
      if err.Some? {
        return Err(err.value);
      }
      r := Ok(ToUserResponse(user.Row()));
    }

    /** userService.DeleteUser: not-found for an unknown id, otherwise the delete. */
    method DeleteUser(id: nat, lookupFault: Option<string>, deleteFault: Option<string>) returns (err: Option<Error>)
      requires repo.Valid()
      modifies repo
      ensures repo.Valid()
      ensures lookupFault.Some? ==> err == Some(Driver(lookupFault.value)) && repo.rows == old(repo.rows)
      ensures lookupFault.None? && IndexOfId(old(repo.rows), id).None? ==>
                err == Some(UserNotFound) && repo.rows == old(repo.rows)
      ensures lookupFault.None? && IndexOfId(old(repo.rows), id).Some? ==>
                err == Outcome(deleteFault)
                && repo.rows == if deleteFault.None? then Without(old(repo.rows), id) else old(repo.rows)
    {
      var found := repo.FindByID(id, lookupFault);
      if found.Err? {
        if found.error == RecordNotFound {
          return Some(UserNotFound);
        }
        return Some(found.error);
      }
      err := repo.Delete(id, deleteFault);
    }

    /** userService.ChangePassword: the old password must match the stored hash. */
    method ChangePassword(id: nat, req: ChangePasswordRequest, salt: nat, freshId: nat,
                          lookupFault: Option<string>, hashFault: Option<string>, saveFault: Option<string>)
      returns (err: Option<Error>)
      requires repo.Valid() && freshId != NilId
      modifies repo
      ensures repo.Valid()
      ensures lookupFault.Some? ==> err == Some(Driver(lookupFault.value)) && repo.rows == old(repo.rows)
      ensures lookupFault.None? && IndexOfId(old(repo.rows), id).None? ==>
                err == Some(UserNotFound) && repo.rows == old(repo.rows)
      ensures lookupFault.None? && IndexOfId(old(repo.rows), id).Some? ==>
                var i := IndexOfId(old(repo.rows), id).value;
                var stored := old(repo.rows)[i];
                && (!Matches(stored.passwordHash, req.oldPassword) ==>
                      err == Some(WrongOldPassword) && repo.rows == old(repo.rows))
                && (Matches(stored.passwordHash, req.oldPassword) && hashFault.Some? ==>
                      err == Some(Driver(hashFault.value)) && repo.rows == old(repo.rows))
                && (Matches(stored.passwordHash, req.oldPassword) && hashFault.None? ==>
                      err == Outcome(saveFault)
                      && repo.rows == if saveFault.None?
                                      then old(repo.rows)[i := stored.(passwordHash := Bcrypt(req.newPassword, salt))]
                                      else old(repo.rows))
    {
      var found := repo.FindByID(id, lookupFault);
      if found.Err? {
        if found.error == RecordNotFound {
          return Some(UserNotFound);
        }
        return Some(found.error);
      }
      var user := found.value;
      if !Matches(user.passwordHash, req.oldPassword) {
        return Some(WrongOldPassword);
      }
      var hashed := GenerateHash(req.newPassword, salt, hashFault);
      if hashed.Err? {
        return Some(hashed.error);
      }
      user.passwordHash := hashed.value;
      ghost var i := IndexOfId(repo.rows, id).value;
      StoredRowFits(repo.rows, i, user.Row());
      err := repo.Update(user, freshId, saveFault);
    }
  }

  /** After a password change, the new password logs in and an old one that differs does not. */
  lemma ChangedPasswordMatches(stored: UserRow, req: ChangePasswordRequest, salt: nat)
    requires Matches(stored.passwordHash, req.oldPassword) && req.oldPassword != req.newPassword
    ensures Matches(stored.(passwordHash := Bcrypt(req.newPassword, salt)).passwordHash, req.newPassword)
    ensures !Matches(stored.(passwordHash := Bcrypt(req.newPassword, salt)).passwordHash, req.oldPassword)
  {
  }
}
