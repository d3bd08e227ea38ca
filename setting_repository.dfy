/** The user_settings table: one row of notification and language
    preferences per user, created with defaults the first time it is asked
    for. The primary key is a serial number; user_id carries a unique index;
    language is a varchar(10). */
module SettingRepository {
  import opened Base

  const DefaultLanguage: string := "id"

  /** The width of the language column. */
  const LanguageWidth: nat := 10

  /** PostgreSQL's refusal of a string longer than its varchar column. */
  const ValueTooLong: Error := Driver("value too long for type character varying(10)")

  datatype SettingRow = SettingRow(settingId: nat, userId: nat, pushEnabled: bool, emailEnabled: bool, language: string)

  /** The row a first request for the user's settings creates. */
  function DefaultSetting(settingId: nat, userId: nat): (row: SettingRow)
    ensures row.settingId == settingId && row.userId == userId
    ensures row.pushEnabled && row.emailEnabled && row.language == DefaultLanguage
  {
    SettingRow(settingId, userId, true, true, DefaultLanguage)
  }

  /** models.UserSetting: the record the service fetches, changes and saves. */
  class UserSetting {
    var settingId: nat
    var userId: nat
    var pushEnabled: bool
    var emailEnabled: bool
    var language: string

    constructor FromRow(row: SettingRow)
      ensures Row() == row
    {
      settingId := row.settingId;
      userId := row.userId;
      pushEnabled := row.pushEnabled;
      emailEnabled := row.emailEnabled;
      language := row.language;
    }

    function Row(): (row: SettingRow)
      reads this
      ensures row.settingId == settingId && row.userId == userId
      ensures row.pushEnabled == pushEnabled && row.emailEnabled == emailEnabled && row.language == language
    {
      SettingRow(settingId, userId, pushEnabled, emailEnabled, language)
    }
  }

  /** Two rows that cannot both be stored: same primary key or same user. */
  predicate Conflicts(a: SettingRow, b: SettingRow)
  {
    a.settingId == b.settingId || a.userId == b.userId
  }

  predicate Clashes(rows: seq<SettingRow>, row: SettingRow)
  {
    exists i :: 0 <= i < |rows| && Conflicts(rows[i], row)
  }

  /** The keys hold, every language fits its column, and every primary key
      was drawn from the serial before `nextId`. */
  ghost predicate Stored(rows: seq<SettingRow>, nextId: nat)
  {
    && (forall i, j :: 0 <= i < j < |rows| ==> !Conflicts(rows[i], rows[j]))
    && (forall i :: 0 <= i < |rows| ==> 0 < rows[i].settingId < nextId && |rows[i].language| <= LanguageWidth)
  }

  /** Where the user's row is. */
  function IndexOfUser(rows: seq<SettingRow>, userId: nat): (r: Option<nat>)
    ensures r.Some? ==> r.value < |rows| && rows[r.value].userId == userId
    ensures r.None? <==> forall k :: 0 <= k < |rows| ==> rows[k].userId != userId
  {
    if rows == [] then None
    else if rows[0].userId == userId then Some(0)
    else
      var r := IndexOfUser(rows[1..], userId);
      if r.None? then None else Some(r.value + 1)
  }

  /** Where the row with this primary key is. */
  function IndexOfKey(rows: seq<SettingRow>, settingId: nat): (r: Option<nat>)
    ensures r.Some? ==> r.value < |rows| && rows[r.value].settingId == settingId
    ensures r.None? <==> forall k :: 0 <= k < |rows| ==> rows[k].settingId != settingId
  {
    if rows == [] then None
    else if rows[0].settingId == settingId then Some(0)
    else
      var r := IndexOfKey(rows[1..], settingId);
      if r.None? then None else Some(r.value + 1)
  }

  /** The table after a successful GetOrCreateByUserID. */
  function AfterGetOrCreate(rows: seq<SettingRow>, nextId: nat, userId: nat): (r: seq<SettingRow>)
    ensures IndexOfUser(r, userId).Some?
    ensures IndexOfUser(rows, userId).Some? ==> r == rows
    ensures IndexOfUser(rows, userId).None? ==> r == rows + [DefaultSetting(nextId, userId)]
  {
    if IndexOfUser(rows, userId).Some? then rows
    else
      var r := rows + [DefaultSetting(nextId, userId)];
      assert r[|rows|].userId == userId;
      r
  }

  /** How many rows the user has. */
  function CountOf(rows: seq<SettingRow>, userId: nat): (n: nat)
    ensures n <= |rows|
  {
    if rows == [] then 0
    else CountOf(rows[..|rows| - 1], userId) + (if rows[|rows| - 1].userId == userId then 1 else 0)
  }

  /** In a stored table a user has at most one row, and none exactly when the lookup misses. */
  lemma {:induction false} AtMostOneRow(rows: seq<SettingRow>, nextId: nat, userId: nat)
    requires Stored(rows, nextId)
    ensures CountOf(rows, userId) <= 1
    ensures CountOf(rows, userId) == 0 <==> IndexOfUser(rows, userId).None?
  {
    if rows != [] {
      var prefix := rows[..|rows| - 1];
      assert Stored(prefix, nextId);
      AtMostOneRow(prefix, nextId, userId);
      if rows[|rows| - 1].userId == userId {
        forall k | 0 <= k < |prefix| ensures prefix[k].userId != userId {
          assert !Conflicts(rows[k], rows[|rows| - 1]);
        }
      }
      if IndexOfUser(prefix, userId).Some? {
        var k := IndexOfUser(prefix, userId).value;
        assert rows[k].userId == userId;
      }
      if IndexOfUser(rows, userId).None? {
        assert forall k :: 0 <= k < |prefix| ==> prefix[k] == rows[k];
      }
    }
  }

  /** A new row that conflicts with none of the stored ones keeps the table stored. */
  lemma AppendKeepsStored(rows: seq<SettingRow>, nextId: nat, row: SettingRow, nextId': nat)
    requires Stored(rows, nextId) && !Clashes(rows, row)
    requires 0 < row.settingId < nextId' && nextId <= nextId' && |row.language| <= LanguageWidth
    ensures Stored(rows + [row], nextId')
  {
    var s := rows + [row];
    forall i, j | 0 <= i < j < |s| ensures !Conflicts(s[i], s[j]) {
      if j == |rows| {
        assert !Conflicts(rows[i], row);
      }
    }
  }

  /** A replacement that conflicts with none of the other rows keeps the table stored. */
  lemma ReplaceKeepsStored(rows: seq<SettingRow>, nextId: nat, i: nat, row: SettingRow)
    requires Stored(rows, nextId) && i < |rows|
    requires !Clashes(rows[..i] + rows[i + 1..], row)
    requires 0 < row.settingId < nextId && |row.language| <= LanguageWidth
    ensures Stored(rows[i := row], nextId)
  {
    var others := rows[..i] + rows[i + 1..];
    var s := rows[i := row];
    forall a, b | 0 <= a < b < |s| ensures !Conflicts(s[a], s[b]) {
      if a == i {
        assert others[b - 1] == rows[b];
        assert !Conflicts(others[b - 1], row);
      } else if b == i {
        assert others[a] == rows[a];
        assert !Conflicts(others[a], row);
      }
    }
  }

  /** A row whose key and user are those of the row it replaces fits among the others. */
  lemma SameKeysFit(rows: seq<SettingRow>, nextId: nat, i: nat, row: SettingRow)
    requires Stored(rows, nextId) && i < |rows|
    requires row.settingId == rows[i].settingId && row.userId == rows[i].userId
    ensures !Clashes(rows[..i] + rows[i + 1..], row)
  {
    var others := rows[..i] + rows[i + 1..];
    forall k | 0 <= k < |others| ensures !Conflicts(others[k], row) {
      if k < i { assert others[k] == rows[k]; } else { assert others[k] == rows[k + 1]; }
    }
  }

  /** Asking twice is asking once, and afterwards the user has exactly one row. */
  lemma GetOrCreateOnce(rows: seq<SettingRow>, nextId: nat, userId: nat, laterId: nat)
    requires Stored(rows, nextId) && nextId > 0
    ensures var once := AfterGetOrCreate(rows, nextId, userId);
            && AfterGetOrCreate(once, laterId, userId) == once
            && CountOf(once, userId) == 1
  {
    var once := AfterGetOrCreate(rows, nextId, userId);
    if IndexOfUser(rows, userId).None? {
      forall k | 0 <= k < |rows| ensures !Conflicts(rows[k], DefaultSetting(nextId, userId)) {
      }
      AppendKeepsStored(rows, nextId, DefaultSetting(nextId, userId), nextId + 1);
      AtMostOneRow(once, nextId + 1, userId);
    } else {
      AtMostOneRow(once, nextId, userId);
    }
  }

  class SettingTable {
    var rows: seq<SettingRow>
    /** The next value of the primary-key serial. */
    var nextId: nat

    ghost predicate Valid()
      reads this
    {
      nextId > 0 && Stored(rows, nextId)
    }

    constructor ()
      ensures Valid() && rows == []
    {
      rows := [];
      nextId := 1;
    }

    /** settingRepository.GetOrCreateByUserID: the stored row, or a new row
        with the defaults when the user has none. */
    method GetOrCreateByUserID(userId: nat, lookupFault: Option<string>, createFault: Option<string>)
      returns (r: Result<UserSetting>)
      requires Valid()
      modifies this
      ensures Valid()
      ensures lookupFault.Some? ==> r == Err(Driver(lookupFault.value)) && unchanged(this)
      ensures lookupFault.None? && createFault.Some? && IndexOfUser(old(rows), userId).None? ==>
                r == Err(Driver(createFault.value)) && rows == old(rows)
      ensures r.Ok? ==> fresh(r.value)
                        && rows == AfterGetOrCreate(old(rows), old(nextId), userId)
                        && r.value.Row() == rows[IndexOfUser(rows, userId).value]
      ensures lookupFault.None? && (createFault.None? || IndexOfUser(old(rows), userId).Some?) ==> r.Ok?
    {
      if lookupFault.Some? {
        return Err(Driver(lookupFault.value));
      }
      var i := IndexOfUser(rows, userId);
      if i.Some? {
        var s := new UserSetting.FromRow(rows[i.value]);
        return Ok(s);
      }
      var row := DefaultSetting(nextId, userId);
      nextId := nextId + 1;
      if createFault.Some? {
        return Err(Driver(createFault.value));
      }
      forall k | 0 <= k < |rows| ensures !Conflicts(rows[k], row) {
      }
      AppendKeepsStored(rows, nextId - 1, row, nextId);
      rows := rows + [row];
      assert IndexOfUser(rows, userId) == Some(|rows| - 1) by {
        assert IndexOfUser(old(rows), userId).None?;
        IndexOfAppended(old(rows), row);
      }
      var s := new UserSetting.FromRow(row);
      r := Ok(s);
    }

    /** settingRepository.Update (GORM's Save): the row with the record's
        primary key is overwritten with the record, all columns. */
    method Update(s: UserSetting, fault: Option<string>) returns (err: Option<Error>)
      requires Valid()
      modifies this, s
      ensures Valid()
      ensures fault.Some? ==> err == Some(Driver(fault.value)) && rows == old(rows)
      ensures fault.None? && |s.language| > LanguageWidth ==> err == Some(ValueTooLong) && rows == old(rows)
      ensures old(IndexOfKey(rows, s.settingId)).Some? ==>
                var i := old(IndexOfKey(rows, s.settingId)).value;
                && s.Row() == old(s.Row())
                && (fault.None? && |s.language| <= LanguageWidth ==>
                      err == (if Clashes(old(rows[..i] + rows[i + 1..]), s.Row()) then Some(UniqueViolation) else None))
                && rows == if err.None? then old(rows)[i := s.Row()] else old(rows)
      ensures old(IndexOfKey(rows, s.settingId)).None? ==>
                && s.Row() == (if err.None? then old(s.Row()).(settingId := old(nextId)) else old(s.Row()))
                && (fault.None? && |s.language| <= LanguageWidth ==>
                      err == (if Clashes(old(rows), old(s.Row()).(settingId := old(nextId))) then Some(UniqueViolation) else None))
                && rows == if err.None? then old(rows) + [s.Row()] else old(rows)
    {
      if fault.Some? {
        return Some(Driver(fault.value));
      }
      if |s.language| > LanguageWidth {
        return Some(ValueTooLong);
      }
      var i := IndexOfKey(rows, s.settingId);
      if i.None? {
        err := Insert(s);
      } else {
        err := Replace(s, i.value);
      }
    }

    /** Save of a setting whose key is not stored: an INSERT under the next
        serial key. For the zero key this is what GORM's Save does (it runs
        Create); a non-zero key that is not stored is re-keyed the same way. */
    method Insert(s: UserSetting) returns (err: Option<Error>)
      requires Valid() && |s.language| <= LanguageWidth
      modifies this, s
      ensures Valid()
      ensures err == if Clashes(old(rows), old(s.Row()).(settingId := old(nextId))) then Some(UniqueViolation) else None
      ensures s.Row() == (if err.None? then old(s.Row()).(settingId := old(nextId)) else old(s.Row()))
      ensures rows == if err.None? then old(rows) + [s.Row()] else old(rows)
    {
      var row := s.Row().(settingId := nextId);
      nextId := nextId + 1;
      if Clashes(rows, row) {
        return Some(UniqueViolation);
      }
      s.settingId := row.settingId;
      AppendKeepsStored(rows, nextId - 1, s.Row(), nextId);
      rows := rows + [s.Row()];
      err := None;
    }

    /** Save of a setting whose key is stored at i: an UPDATE of that row. */
    method Replace(s: UserSetting, i: nat) returns (err: Option<Error>)
      requires Valid() && i < |rows| && rows[i].settingId == s.settingId && |s.language| <= LanguageWidth
      modifies this
      ensures Valid()
      ensures err == if Clashes(old(rows[..i] + rows[i + 1..]), s.Row()) then Some(UniqueViolation) else None
      ensures rows == if err.None? then old(rows)[i := s.Row()] else old(rows)
    {
      var others := rows[..i] + rows[i + 1..];
      if Clashes(others, s.Row()) {
        return Some(UniqueViolation);
      }
      ReplaceKeepsStored(rows, nextId, i, s.Row());
      rows := rows[i := s.Row()];
      err := None;
    }
  }

  /** The lookup finds a row appended for a user who had none. */
  lemma IndexOfAppended(rows: seq<SettingRow>, row: SettingRow)
    requires IndexOfUser(rows, row.userId).None?
    ensures IndexOfUser(rows + [row], row.userId) == Some(|rows|)
  {
    if rows != [] {
      assert (rows + [row])[1..] == rows[1..] + [row];
      IndexOfAppended(rows[1..], row);
    }
  }
}
