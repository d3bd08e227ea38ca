/** The settings endpoints: read the user's settings (creating the defaults
    on first use) and apply a partial update. */
module SettingService {
  import opened Base
  import opened SettingRepository

  datatype SettingsResponse = SettingsResponse(pushEnabled: bool, emailEnabled: bool, language: string)

  /** A partial update: an absent flag and an empty language leave the stored value alone. */
  datatype UpdateSettingsRequest = UpdateSettingsRequest(pushEnabled: Option<bool>, emailEnabled: Option<bool>, language: string)

  function ToResponse(row: SettingRow): SettingsResponse
  {
    SettingsResponse(row.pushEnabled, row.emailEnabled, row.language)
  }

  /** The setting after the request is applied: each given value overwrites
      its field, every other field (owner and key included) is kept. */
  function Applied(row: SettingRow, req: UpdateSettingsRequest): (r: SettingRow)
    ensures r.settingId == row.settingId && r.userId == row.userId
    ensures r.pushEnabled == if req.pushEnabled.Some? then req.pushEnabled.value else row.pushEnabled
    ensures r.emailEnabled == if req.emailEnabled.Some? then req.emailEnabled.value else row.emailEnabled
    ensures r.language == if req.language != "" then req.language else row.language
  {
    row.(pushEnabled := if req.pushEnabled.Some? then req.pushEnabled.value else row.pushEnabled,
         emailEnabled := if req.emailEnabled.Some? then req.emailEnabled.value else row.emailEnabled,
         language := if req.language != "" then req.language else row.language)
  }

  /** An empty request changes nothing, and a request applied twice is applied once. */
  lemma AppliedIdempotent(row: SettingRow, req: UpdateSettingsRequest)
    ensures Applied(row, UpdateSettingsRequest(None, None, "")) == row
    ensures Applied(Applied(row, req), req) == Applied(row, req)
  {
  }

  /** In a stored table a row is found again by its own primary key and by its own user. */
  lemma RowIsFoundByKeys(rows: seq<SettingRow>, nextId: nat, i: nat)
    requires Stored(rows, nextId) && i < |rows|
    ensures IndexOfKey(rows, rows[i].settingId) == Some(i)
    ensures IndexOfUser(rows, rows[i].userId) == Some(i)
  {
    var k := IndexOfKey(rows, rows[i].settingId).value;
    if k != i {
      if k < i { assert Conflicts(rows[k], rows[i]); } else { assert Conflicts(rows[i], rows[k]); }
    }
    var u := IndexOfUser(rows, rows[i].userId).value;
    if u != i {
      if u < i { assert Conflicts(rows[u], rows[i]); } else { assert Conflicts(rows[i], rows[u]); }
    }
  }

  /** After an update, reading the settings again gives the updated values. */
  lemma UpdateIsReadBack(rows: seq<SettingRow>, nextId: nat, userId: nat, req: UpdateSettingsRequest, laterId: nat)
    requires Stored(rows, nextId) && IndexOfUser(rows, userId).Some?
    requires var i := IndexOfUser(rows, userId).value;
             |Applied(rows[i], req).language| <= LanguageWidth
    ensures var i := IndexOfUser(rows, userId).value;
            var after := rows[i := Applied(rows[i], req)];
            && AfterGetOrCreate(after, laterId, userId) == after
            && IndexOfUser(after, userId) == Some(i)
            && ToResponse(after[IndexOfUser(after, userId).value]) == ToResponse(Applied(rows[i], req))
  {
    var i := IndexOfUser(rows, userId).value;
    var row := Applied(rows[i], req);
    SameKeysFit(rows, nextId, i, row);
    ReplaceKeepsStored(rows, nextId, i, row);
    RowIsFoundByKeys(rows[i := row], nextId, i);
  }

  /** The field assignments of settingService.Update: each value the
      request gives overwrites the fetched setting's. */
  method ApplyRequest(setting: UserSetting, req: UpdateSettingsRequest)
    modifies setting
    ensures setting.Row() == Applied(old(setting.Row()), req)
  {
    if req.pushEnabled.Some? {
      setting.pushEnabled := req.pushEnabled.value;
    }
    if req.emailEnabled.Some? {
      setting.emailEnabled := req.emailEnabled.value;
    }
    if req.language != "" {
      setting.language := req.language;
    }
  }

  class SettingService {
    const repo: SettingTable

    constructor (repo: SettingTable)
      ensures this.repo == repo
    {
      this.repo := repo;
    }

    /** settingService.Get: the stored values, the defaults being created first when needed. */
    method Get(userId: nat, lookupFault: Option<string>, createFault: Option<string>) returns (r: Result<SettingsResponse>)
      requires repo.Valid()
      modifies repo
      ensures repo.Valid()
      ensures lookupFault.Some? ==> r == Err(Driver(lookupFault.value)) && repo.rows == old(repo.rows)
      ensures lookupFault.None? && createFault.Some? && IndexOfUser(old(repo.rows), userId).None? ==>
                r == Err(Driver(createFault.value)) && repo.rows == old(repo.rows)
      ensures lookupFault.None? && (createFault.None? || IndexOfUser(old(repo.rows), userId).Some?) ==>
                && repo.rows == AfterGetOrCreate(old(repo.rows), old(repo.nextId), userId)
                && r == Ok(ToResponse(repo.rows[IndexOfUser(repo.rows, userId).value]))
    {
      var setting := repo.GetOrCreateByUserID(userId, lookupFault, createFault);
      if setting.Err? {
        return Err(setting.error);
      }
      r := Ok(ToResponse(setting.value.Row()));
    }

    /** settingService.Update: fetch (or create) the setting, apply the request, save. */
    method Update(userId: nat, req: UpdateSettingsRequest,
                  lookupFault: Option<string>, createFault: Option<string>, saveFault: Option<string>)
      returns (r: Result<SettingsResponse>)
      requires repo.Valid()
      modifies repo
      ensures repo.Valid()
      ensures lookupFault.Some? ==> r == Err(Driver(lookupFault.value)) && repo.rows == old(repo.rows)
      ensures lookupFault.None? && createFault.Some? && IndexOfUser(old(repo.rows), userId).None? ==>
                r == Err(Driver(createFault.value)) && repo.rows == old(repo.rows)
      ensures lookupFault.None? && (createFault.None? || IndexOfUser(old(repo.rows), userId).Some?) ==>
                var fetched := AfterGetOrCreate(old(repo.rows), old(repo.nextId), userId);
                var i := IndexOfUser(fetched, userId).value;
                var row := Applied(fetched[i], req);
                && (saveFault.Some? ==> r == Err(Driver(saveFault.value)) && repo.rows == fetched)
                && (saveFault.None? && |row.language| > LanguageWidth ==> r == Err(ValueTooLong) && repo.rows == fetched)
                && (saveFault.None? && |row.language| <= LanguageWidth ==>
                      r == Ok(ToResponse(row)) && repo.rows == fetched[i := row])
    {
      var found := repo.GetOrCreateByUserID(userId, lookupFault, createFault);
      if found.Err? {
        return Err(found.error);
      }
      ghost var i := IndexOfUser(repo.rows, userId).value;
      r := ApplyAndSave(found.value, req, saveFault, i);
    }

    /** The second half of Update: overwrite the fetched setting's fields
        with the request's given values and save it. */
    method ApplyAndSave(setting: UserSetting, req: UpdateSettingsRequest, saveFault: Option<string>, ghost i: nat)
      returns (r: Result<SettingsResponse>)
      requires repo.Valid() && i < |repo.rows| && setting.Row() == repo.rows[i]
      modifies repo, setting
      ensures repo.Valid()
      ensures var row := Applied(old(repo.rows)[i], req);
              && (saveFault.Some? ==> r == Err(Driver(saveFault.value)) && repo.rows == old(repo.rows))
              && (saveFault.None? && |row.language| > LanguageWidth ==> r == Err(ValueTooLong) && repo.rows == old(repo.rows))
              && (saveFault.None? && |row.language| <= LanguageWidth ==>
                    r == Ok(ToResponse(row)) && repo.rows == old(repo.rows)[i := row])
    {
      ghost var row := Applied(setting.Row(), req);
      ApplyRequest(setting, req);
      RowIsFoundByKeys(repo.rows, repo.nextId, i);
      SameKeysFit(repo.rows, repo.nextId, i, row);
      var err := repo.Update(setting, saveFault);
      if err.Some? {
        return Err(err.value);
      }
      r := Ok(ToResponse(setting.Row()));
    }
  }
}
