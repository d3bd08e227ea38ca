/** The user record and its create hook. User ids are UUIDs; the model
    writes them as naturals with 0 standing for the nil UUID. Passwords are
    stored as bcrypt hashes; bcrypt itself is abstract (see Hash). */
module UserModel {
  import opened Base

  /** The nil UUID. */
  const NilId: nat := 0

  const StatusActive: string := "active"
  const StatusBlocked: string := "blocked"

  /** A bcrypt hash: made from a password and a random salt. The model keeps
      the password in it so that comparison can be stated; nothing in the
      model reads it except Matches. */
  datatype Hash = Bcrypt(password: string, salt: nat)

  /** bcrypt.CompareHashAndPassword succeeds. */
  predicate Matches(h: Hash, password: string)
  {
    h.password == password
  }

  /** bcrypt.GenerateFromPassword with the given salt; a failure of the hashing library is the fault. */
  function GenerateHash(password: string, salt: nat, fault: Option<string>): (r: Result<Hash>)
    ensures fault.Some? <==> r.Err?
    ensures r.Ok? ==> Matches(r.value, password)
    ensures r.Ok? ==> forall other :: Matches(r.value, other) ==> other == password
  {
    if fault.Some? then Err(Driver(fault.value)) else Ok(Bcrypt(password, salt))
  }

  /** A stored user: the columns of one row of the users table. */
  datatype UserRow = UserRow(
    userId: nat,
    role: string,
    email: Option<string>,
    phone: Option<string>,
    passwordHash: Hash,
    fullName: string,
    photoUrl: Option<string>,
    status: string)

  /** models.User: the record the services fill in and hand to the repository. */
  class User {
    var userId: nat
    var role: string
    var email: Option<string>
    var phone: Option<string>
    var passwordHash: Hash
    var fullName: string
    var photoUrl: Option<string>
    var status: string

    /** The record a query reads back: every field from the row. */
    constructor FromRow(row: UserRow)
      ensures Row() == row
    {
      userId := row.userId;
      role := row.role;
      email := row.email;
      phone := row.phone;
      passwordHash := row.passwordHash;
      fullName := row.fullName;
      photoUrl := row.photoUrl;
      status := row.status;
    }

    /** The row this record is stored as. */
    function Row(): (row: UserRow)
      reads this
      ensures row.userId == userId && row.email == email && row.phone == phone
      ensures row.status == status && row.passwordHash == passwordHash
      ensures row.role == role && row.fullName == fullName && row.photoUrl == photoUrl
    {
      UserRow(userId, role, email, phone, passwordHash, fullName, photoUrl, status)
    }

    /** User.BeforeCreate: a nil id is replaced by a fresh one and an empty
        status becomes "active"; the hook never fails. */
    method BeforeCreate(freshId: nat) returns (err: Option<Error>)
      requires freshId != NilId
      modifies this
      ensures err.None?
      ensures userId != NilId
      ensures old(userId) == NilId ==> userId == freshId
      ensures old(userId) != NilId ==> userId == old(userId)
      ensures old(status) == "" ==> status == StatusActive
      ensures old(status) != "" ==> status == old(status)
      ensures Row() == WithDefaults(old(Row()), freshId)
    {
      if userId == NilId {
        userId := freshId;
      }
      if status == "" {
        status := StatusActive;
      }
      return None;
    }
  }

  /** The hook's effect on a row, for reasoning about stored rows. */
  function WithDefaults(row: UserRow, freshId: nat): (r: UserRow)
    requires freshId != NilId
    ensures r.userId != NilId && r.status != ""
    ensures row.userId != NilId ==> r.userId == row.userId
    ensures row.status != "" ==> r.status == row.status
    ensures r.(userId := row.userId, status := row.status) == row
  {
    row.(userId := if row.userId == NilId then freshId else row.userId,
         status := if row.status == "" then StatusActive else row.status)
  }

  /** Running the hook twice changes nothing the first run did not. */
  lemma WithDefaultsIdempotent(row: UserRow, freshId: nat, otherId: nat)
    requires freshId != NilId && otherId != NilId
    ensures WithDefaults(WithDefaults(row, freshId), otherId) == WithDefaults(row, freshId)
  {
  }
}
