# Gym backend core, modelled in Dafny

This project models the core of a Go gym backend built on GORM and Fiber. It covers:

- the QR gate scan, which admits or refuses a member and records an IN/OUT passage;
- the membership lifecycle: status normalisation, the current/history view, and renewal that expires older periods;
- the attendance ledger;
- the Bearer `Authorization` header check and the access-token lifetime;
- the user, settings, template-follow, target-progress and notification rules;
- the LIMIT/OFFSET clause renderer and the API response envelope.

How the model represents the system:

- **Tables.** Each database table is a class that owns a sequence of rows.
- **Database failures.** Each repository call takes an injected driver fault (`Option<string>`). A fault is returned as `Driver(detail)` and changes nothing. "Record not found" comes only from the data.
- **Time.** Time is integer instants in seconds. All the `time.Now()` calls of one request are one `now` parameter.
- **Ordering.** `ORDER BY … desc` becomes an insertion sort (`Ordering.SortBy`) over a total preorder. `First`-style lookups are specified by `Ordering.Latest`, and `Ordering.HeadIsLatest` proves that the two agree.

Each module corresponds to one source file. `Base`, `Decimal`, `Text`, `Ordering` and `Tokens` are shared helpers:

- `Decimal` covers `strconv.Itoa` and `strconv.Atoi`.
- `Text` covers first-space splitting and words.
- `Tokens` is the JWT oracle, with the type check of `utils/jwt.go`.

## Model

| member | source | states |
|---|---|---|
| Base.Outcome | internal/repository/membership_repository.go:25-33 | A write reports an error exactly when the driver fails. |
| Tokens.ParseToken | internal/utils/jwt.go:51-69 | A token is accepted iff the signature/expiry oracle accepts it and, when a type is expected, its type matches; the claims returned are the verified ones; every refusal is "invalid token". |
| Tokens.TypeSeparatesTokens | internal/utils/jwt.go:64-66 | No token is accepted under two different non-empty expected types (a QR token is never an access token). |
| Decimal.AtoiItoa | internal/services/auth_service.go:70 | Reading back the decimal form of any int64 gives the same number. |
| Decimal.DigitsValueOfDigits | internal/config/database.go:57 | The digit string written for a natural number has that number as its value. |
| QrService.NextDirection | internal/services/qr_service.go:66-72 | The next direction is "out" iff the last-row lookup succeeded with direction "in"; otherwise "in" (no row, lookup error, last "out"). |
| QrService.CodeStatus | internal/services/qr_service.go:28-33 | The QR screen shows "active" iff the latest membership was found, is "active" and now is strictly before its end; any lookup error shows "expired". |
| QrService.ScanAdmitsIsNormalized | internal/services/qr_service.go:62-64 | The scan's admission test agrees exactly with the membership service's normalised status. |
| QrService.EndInstantBoundary | internal/services/qr_service.go:30 | At now == EndsAt an active membership is admitted by Scan yet shown "expired" by GetMyQRCode; at every other instant the two agree. |
| QrService.Passage | internal/services/qr_service.go:74-80 | The row a scan writes carries the token's user, source "qr", time now and the toggled direction. |
| QrService.NoneLaterStep | internal/services/qr_service.go:74-83 | Appending a passage at the first of a nondecreasing run of instants keeps the rest of the run no earlier than every stored row. |
| QrService.AlternatingShift | internal/services/qr_service.go:67-72 | Flipping the starting direction shifts the alternation by one. |
| QrService.ReplayAlternates | internal/services/qr_service.go:67-83 | A run of accepted scans at nondecreasing instants appends exactly one row per scan, alternating from the direction the existing ledger implies. |
| QrService.ShiftRun | internal/services/qr_service.go:67-83 | A run that alternates after the first passage alternates from the first passage on. |
| QrService.ScansAlternate | internal/services/qr_service.go:67-80 | For a member with no earlier passages, successive accepted scans go in, out, in, …: passage k is "in" iff k is even. |
| QrService.QrService.constructor | internal/services/qr_service.go:23-25 | The service reads the membership table and writes the attendance ledger it is given. |
| QrService.QrService.GetMyQRCode | internal/services/qr_service.go:27-46 | A signing failure is returned; otherwise the QR token is issued for the user with a 60-second lifetime, ExpiresAt is now+60, and the status is CodeStatus of the latest-membership lookup. |
| QrService.QrService.Scan | internal/services/qr_service.go:48-90 | In order: a rejected token gives invalid_qr; no membership gives membership_required; another lookup error is returned; a non-active or ended membership gives membership_expired; otherwise exactly one passage is appended and echoed, or the create error is returned. Only an accepted scan changes the ledger. |
| MembershipRepository.LaterEndIsTotalPreorder | internal/repository/membership_repository.go:37 | "ends_at desc" is a total preorder. |
| MembershipRepository.ExpireActive | internal/repository/membership_repository.go:29-33 | The bulk update keeps the table's length and applies the per-row rule to every row. |
| MembershipRepository.ExpireActiveEffect | internal/repository/membership_repository.go:29-33 | This user's active rows become "expired" with ends_at = the given instant; every other row is unchanged; no row changes owner. |
| MembershipRepository.ExpireActiveIdempotent | internal/repository/membership_repository.go:29-33 | Afterwards the user has no active row, so a second call (at any instant) changes nothing. |
| MembershipRepository.LatestLookup | internal/repository/membership_repository.go:35-41 | The latest-by-end lookup returns one of the user's rows with maximal ends_at; not-found iff the user has no rows; a driver fault is returned. |
| MembershipRepository.MembershipTable.constructor | internal/repository/membership_repository.go:21-23 | A new table is empty. |
| MembershipRepository.MembershipTable.Create | internal/repository/membership_repository.go:25-27 | Appends exactly the given row and leaves the others unchanged, unless the driver fails. |
| MembershipRepository.MembershipTable.ExpireActiveForUser | internal/repository/membership_repository.go:29-33 | The table becomes ExpireActive of the old table (or is unchanged on a fault). |
| MembershipRepository.MembershipTable.FindLatestByUserID | internal/repository/membership_repository.go:35-41 | Returns a row of the user with maximal ends_at, or not-found iff the user has none. |
| MembershipRepository.MembershipTable.ListByUserID | internal/repository/membership_repository.go:43-49 | Returns exactly the user's rows (as a multiset), sorted by ends_at descending, and its head is the FindLatestByUserID result. |
| MembershipService.NormalizeStatus | internal/services/membership_service.go:103-114 | "active" iff a row is given, its status is "active" and now is not after EndsAt; "expired" otherwise. |
| MembershipService.CurrentIsLatest | internal/services/membership_service.go:45-57 | The first row of the sorted listing is the latest membership, so Current describes the latest row. |
| MembershipService.ListingView | internal/services/membership_service.go:36-58 | A view built from the listing holds one normalised item per row in listing order, and its Current status is the normalised status of the latest row (or "expired" when there is none). |
| MembershipService.EffectiveMonths | internal/services/membership_service.go:62-64 | Months ≤ 0 become 1; positive months are kept. |
| MembershipService.EffectivePlan | internal/services/membership_service.go:65-67 | An empty plan becomes "standard"; any other plan is kept. |
| MembershipService.AddMonths | internal/services/membership_service.go:70 | Adding a positive number of months moves strictly forward, by at least that many seconds. |
| MembershipService.RenewedPeriodIsCurrent | internal/services/membership_service.go:61-87 | When no surviving period of the user ends after the new one, the renewed period is the latest and is shown "active" at now. |
| MembershipService.ExpiredEndBefore | internal/services/membership_service.go:72-81 | After the best-effort expiry, every row of the user ends no later than the new period. |
| MembershipService.RenewHiddenByLaterPeriod | internal/services/membership_service.go:61-87 | A concrete table where an earlier, non-active period ends later than the renewal: after Renew the latest row is that old period and the view reports "expired". |
| MembershipService.BuildView | internal/services/membership_service.go:36-58 | The loop yields one history item per listed row, in order, and Current is the first item (or the "expired" placeholder). |
| MembershipService.MembershipService.constructor | internal/services/membership_service.go:23-25 | The service works on the membership table it is given. |
| MembershipService.MembershipService.GetMyMembership | internal/services/membership_service.go:27-59 | A list error is returned; otherwise the view describes the user's rows in ends_at-descending order, and Current's status is the normalised status of the latest row. |
| MembershipService.MembershipService.Renew | internal/services/membership_service.go:61-88 | The table becomes: expiry applied (skipped on its failure), then the new active period [now, AddMonths(now, months)) with the defaults applied; a create failure is returned; otherwise the fresh view is returned. |
| MembershipService.MembershipService.IsActive | internal/services/membership_service.go:90-101 | A lookup fault is returned; with no rows the answer is (false, none); otherwise it is (normalised status == "active", the latest row). |
| AttendanceRepository.LaterOccurrenceIsTotalPreorder | internal/repository/attendance_repository.go:29 | "occurred_at desc" is a total preorder. |
| AttendanceRepository.LastLookup | internal/repository/attendance_repository.go:27-33 | Returns one of the user's rows with maximal occurred_at; not-found iff the user has none; a fault is returned. |
| AttendanceRepository.AppendBecomesLast | internal/repository/attendance_repository.go:23-33 | A row appended no earlier than the user's other rows is the user's last row. |
| AttendanceRepository.AppendOtherUser | internal/repository/attendance_repository.go:23-33 | Appending another user's row does not change this user's last row. |
| AttendanceRepository.AttendanceLedger.constructor | internal/repository/attendance_repository.go:19-21 | A new ledger is empty. |
| AttendanceRepository.AttendanceLedger.Create | internal/repository/attendance_repository.go:23-25 | Appends exactly the given row, leaving earlier rows unchanged, unless the driver fails. |
| AttendanceRepository.AttendanceLedger.FindLastByUserID | internal/repository/attendance_repository.go:27-33 | Returns the user's row with maximal occurred_at, or not-found iff the user has none. |
| AttendanceRepository.AttendanceLedger.ListByUserID | internal/repository/attendance_repository.go:35-45 | Only the user's rows, sorted by occurred_at descending; at most `limit` rows (a prefix) when limit > 0, all of them when limit ≤ 0; the head is the last row. |
| AuthMiddleware.SplitFirst | internal/middleware/auth.go:22 | Splitting on the first space: one part iff there is no space; with two parts the header is part0 + " " + part1 and part0 has no space. |
| AuthMiddleware.RequireAuth | internal/middleware/auth.go:15-35 | An empty header is rejected with "missing Authorization header"; every rejection is a 401 failure envelope. |
| AuthMiddleware.GetUserID | internal/middleware/auth.go:37-47 | Succeeds iff a uint is stored and returns it; "missing user context" when nothing is stored, "invalid user context" for another value. |
| AuthMiddleware.MalformedHeader | internal/middleware/auth.go:22-25 | A non-empty header with no space, or whose first word is not Bearer (ignoring case), is rejected with "invalid Authorization header". |
| AuthMiddleware.TokenIsRestOfHeader | internal/middleware/auth.go:22-33 | With a Bearer scheme (in any case) the token is everything after the first space, later spaces included; the outcome is admission of the verified user when it is a valid access token, and "invalid or expired token" otherwise. |
| AuthMiddleware.SchemeIgnoresCase | internal/middleware/auth.go:23 | "bearer" and "BEARER" match the scheme; "Basic" does not. |
| AuthMiddleware.QrTokenIsNoAccessToken | internal/middleware/auth.go:27-30 | A valid QR-type token in a Bearer header is rejected with "invalid or expired token". |
| AuthMiddleware.AdmittedUserIsReadBack | internal/middleware/auth.go:32-47 | An admitted request stores the verified token's user id, and GetUserID reads exactly that id back. |
| AuthService.AccessTokenTtlMinutes | internal/services/auth_service.go:65-75 | An empty, non-integer or non-positive setting gives 24 hours; a positive integer n gives n minutes; the result is always positive. |
| AuthService.TtlReadsDecimal | internal/services/auth_service.go:70-74 | The decimal form of any positive int64 n gives n minutes. |
| AuthService.TtlRejectsNonPositive | internal/services/auth_service.go:70-73 | The decimal form of any n ≤ 0 gives the 24-hour default. |
| AuthService.LoginOutcome | internal/services/auth_service.go:28-63 | A lookup error is returned; an unknown email or a wrong password is "invalid credentials"; with a matching password the login succeeds iff signing the claims (that user, access type, expiry now + ttl·60) succeeds, and a signer error is returned unchanged; a success means that email's row matched the password, the access token was signed for that user with expiry now + ttl, the type is "Bearer" and ExpiresIn = ttl·60 > 0. |
| AuthService.CredentialsFailAlike | internal/services/auth_service.go:29-39 | When signing cannot fail, every failed login without a driver fault is the same "invalid credentials", whether the email or the password was wrong. |
| AuthService.LoginTokenAdmitted | internal/services/auth_service.go:41-51 | The token a successful login returns passes the Bearer middleware for the logged-in user. |
| AuthService.AuthService.constructor | internal/services/auth_service.go:24-26 | The service reads the user table it is given. |
| AuthService.AuthService.Login | internal/services/auth_service.go:28-63 | Returns exactly LoginOutcome of the current table. |
| LimitClause.Builder.constructor | internal/config/database.go:49-54 | The builder starts empty. |
| LimitClause.Builder.WriteString | internal/config/database.go:56 | Appends exactly the given string. |
| LimitClause.Builder.WriteByte | internal/config/database.go:62 | Appends exactly the given character. |
| LimitClause.RenderedCases | internal/config/database.go:54-66 | Limit n with offset m > 0 renders "LIMIT n OFFSET m"; with m ≤ 0 "LIMIT n"; no limit with m > 0 "OFFSET m"; no limit with m ≤ 0 nothing. |
| LimitClause.BuildLimit | internal/config/database.go:49-67 | The closure appends exactly the rendered clause to what the builder held (nothing for a non-Limit expression). |
| LimitClause.WrittenIsRendered | internal/config/database.go:54-66 | The text each branch writes is the rendered clause. |
| LimitClause.RenderedWords | internal/config/database.go:50-66 | The output is one of "", "LIMIT n", "OFFSET m", "LIMIT n OFFSET m" split into words; the separating space is written iff both parts are. |
| LimitClause.WordsOfBoth | internal/config/database.go:54-66 | With both parts the output is exactly the four words LIMIT, n, OFFSET, m (one space each, none leading or trailing). |
| LimitClause.WordsOfLimit | internal/config/database.go:55-59 | With only a limit the output is exactly the words LIMIT, n. |
| LimitClause.WordsOfOffset | internal/config/database.go:60-66 | With only an offset the output is exactly the words OFFSET, m. |
| LimitClause.NumberHasNoSpace | internal/config/database.go:57 | A decimal number never contains a space, so each number is one word. |
| LimitClause.RenderRoundTrip | internal/config/database.go:49-67 | Parsing the rendered clause gives back the expression, with its ignored parts (offset ≤ 0) normalised away: nothing else is lost. |
| CommonDto.SuccessIdentifiesConstructor | internal/dto/common_dto.go:27-52 | Success is true exactly for the two success constructors; message, data, pagination and error are the ones given, and an error response carries no data or pagination. |
| CommonDto.NilPaginationIsPlainSuccess | internal/dto/common_dto.go:27-43 | A paginated success with no pagination is the plain success response. |
| UserModel.GenerateHash | internal/services/user_service.go:43-46 | Hashing fails only on a library fault; a hash matches the password it was made from and no other. |
| UserModel.User.FromRow | internal/repository/user_repository.go:48-54 | A record read from a row holds exactly that row. |
| UserModel.User.Row | internal/models/user.go:10-24 | The stored row carries the record's id, email, phone, hash, status, role, full name and photo URL. |
| UserModel.User.BeforeCreate | internal/models/user.go:26-34 | A nil id becomes the fresh id and a non-nil one is kept; an empty status becomes "active" and a non-empty one is kept; the hook returns no error. |
| UserModel.WithDefaults | internal/models/user.go:26-34 | The hook's effect leaves a non-nil id and non-empty status and touches no other column. |
| UserModel.WithDefaultsIdempotent | internal/models/user.go:26-34 | Running the hook again (with any fresh id) changes nothing. |
| UserRepository.IndexOfId | internal/repository/user_repository.go:48-54 | Finds the first row with that id, or none iff no row has it. |
| UserRepository.IndexOfEmail | internal/repository/user_repository.go:56-62 | Finds the first row with that email, or none iff no row has it. |
| UserRepository.IdIsKey | internal/repository/user_repository.go:48-54 | In a keyed table the row found by a stored id is that row. |
| UserRepository.EmailIsKey | internal/repository/user_repository.go:56-62 | In a keyed table the row found by a stored email is that row. |
| UserRepository.Window | internal/repository/user_repository.go:35-41 | The page holds at most `limit` rows: the contiguous slice from the offset, cut short at the end of the table (a partial last page), nothing past the end, and the first `limit` rows for an offset ≤ 0. |
| UserRepository.HugePageWrapsToFirstPage | internal/repository/user_repository.go:35-41 | Page 4611686018427387905 of 4 wraps to offset 0 and page MaxInt64 of 10 to offset −20, which lists the first page. |
| Decimal.WrapInt64 | internal/repository/user_repository.go:35 | The result is an int64 congruent to the input modulo 2^64, and equals the input when it already fits. |
| UserRepository.PageOfRow | internal/repository/user_repository.go:35-41 | Row i appears on page i / perPage + 1 at position i mod perPage. |
| UserRepository.Without | internal/repository/user_repository.go:68-70 | Delete leaves exactly the rows with a different id. |
| UserRepository.WithoutKeepsKeys | internal/repository/user_repository.go:68-70 | Deleting keeps the primary-key and unique-index invariant. |
| UserRepository.UserTable.constructor | internal/repository/user_repository.go:23-25 | A new table is empty. |
| UserRepository.UserTable.Create | internal/repository/user_repository.go:27-29 | Runs the create hook, then appends the row unless the driver fails or a key is taken (UniqueViolation); the keys still hold. |
| UserRepository.UserTable.FindAll | internal/repository/user_repository.go:31-46 | Total is the count of all rows, whatever the page; the rows are the window of at most perPage rows from (page−1)·perPage computed with Go's 64-bit wrap-around (the plain product whenever it fits in an int64); count and find faults and a negative LIMIT are errors. |
| UserRepository.UserTable.FindByID | internal/repository/user_repository.go:48-54 | A fresh record holding the row with that id, or not-found iff there is none. |
| UserRepository.UserTable.FindByEmail | internal/repository/user_repository.go:56-62 | A fresh record holding the row with that email, or not-found iff there is none. |
| UserRepository.UserTable.Update | internal/repository/user_repository.go:64-66 | Save replaces the row with the record's id and leaves the others unchanged (or reports a key clash), and, when the id is not stored, inserts the record with the hook's defaults (fresh key for a nil id, status "active" when empty); for a non-nil id GORM's fallback skips the hook but yields the same row. |
| UserRepository.UserTable.Delete | internal/repository/user_repository.go:68-70 | Removes exactly the rows with that id, keeping the keys. |
| UserRepository.StoredRowFits | internal/repository/user_repository.go:64-66 | Saving back a stored row with its own id, email and phone never clashes with the other rows. |
| UserRepository.ReplaceKeepsKeys | internal/repository/user_repository.go:64-66 | Replacing a row by a non-clashing one with the same id keeps the keys. |
| UserService.Given | internal/services/user_service.go:55-63 | An empty request field is absent; a non-empty one is present with that value. |
| UserService.Shown | internal/services/user_service.go:196-204 | A present column is shown as its value; an absent one as "". |
| UserService.ShownGiven | internal/services/user_service.go:55-63 | Showing a stored request field gives back the request's text. |
| UserService.NewUserRow | internal/services/user_service.go:48-64 | A created user has the fresh id, status "active", the request's role and name, email, phone and photo only when non-empty, and a hash of the request's password. |
| UserService.Merged | internal/services/user_service.go:123-142 | Each non-empty request field overwrites its column; id, role and password hash, and every column with an empty request field, are unchanged. |
| UserService.MergedIdempotent | internal/services/user_service.go:123-142 | An empty request changes nothing, and applying a request twice is the same as once. |
| UserService.EffectivePage | internal/services/user_service.go:74-76 | Page ≤ 0 becomes 1; positive pages are kept. |
| UserService.EffectivePerPage | internal/services/user_service.go:77-79 | perPage ≤ 0 becomes 10; positive values are kept. |
| UserService.PageCount | internal/services/user_service.go:94 | The least page count covering all rows: pages·perPage ≥ total and one page fewer would not. |
| UserService.PageWithinCount | internal/services/user_service.go:91-96 | The page of every row is within TotalPages. |
| UserService.EveryUserOnAPage | internal/services/user_service.go:73-99 | Row i of the table appears in the window of page i / perPage + 1, and that page lies between 1 and TotalPages. |
| UserService.NewUser | internal/services/user_service.go:48-64 | The built record has no id yet, status "active", the given hash and only the non-empty optional fields. |
| UserService.UserResponses | internal/services/user_service.go:86-89 | One response per row, in the same order. |
| UserService.UserService.constructor | internal/services/user_service.go:29-31 | The service works on the user table it is given. |
| UserService.UserService.CreateUser | internal/services/user_service.go:33-71 | A registered non-empty email fails with "email already registered" and creates nothing; a hashing fault creates nothing; otherwise exactly the new user row is appended unless the driver fails or a key is taken, and then the create error (the driver error, or the unique-key violation) is returned. |
| UserService.UserService.GetAllUsers | internal/services/user_service.go:73-99 | With the page defaults applied, the responses are the page window in order (its offset wrapped to 64 bits as in the repository), and pagination is (page, perPage, ceiling of total/perPage, total). |
| UserService.UserService.GetUserByID | internal/services/user_service.go:101-111 | An unknown id is "user not found", a driver error is returned, a known id returns that row's response. |
| UserService.UserService.UpdateUser | internal/services/user_service.go:113-149 | An unknown id is "user not found"; an email held by another user is "email already used by another user" and saves nothing (the user's own email is allowed); otherwise the merged row replaces the stored one and nothing else changes, or the save error leaves the table as it was. |
| UserService.UserService.EmailTakenByOther | internal/services/user_service.go:126-133 | True iff the request email is non-empty, the lookup succeeds and finds a row of a different user. |
| UserService.UserService.ApplyUpdate | internal/services/user_service.go:123-142 | The record becomes the merge of the request into it. |
| UserService.UserService.SaveUser | internal/services/user_service.go:144-148 | Saving a fetched record replaces exactly its row, or returns the driver or key-clash error with the table unchanged. |
| UserService.UserService.DeleteUser | internal/services/user_service.go:151-161 | An unknown id is "user not found" and deletes nothing; otherwise exactly the rows with that id are removed unless the driver fails. |
| UserService.UserService.ChangePassword | internal/services/user_service.go:163-185 | A wrong old password is "old password is incorrect" and leaves the stored hash unchanged; otherwise the row gets a hash of the new password, unless hashing or saving fails. |
| UserService.ChangedPasswordMatches | internal/services/user_service.go:172-183 | After a change the stored hash matches the new password and no longer the old one. |
| SettingRepository.DefaultSetting | internal/repository/setting_repository.go:31-32 | A created setting is push on, email on, language "id", for that user. |
| SettingRepository.UserSetting.FromRow | internal/repository/setting_repository.go:22-27 | A record read from a row holds exactly that row. |
| SettingRepository.UserSetting.Row | internal/models/setting.go:9-18 | The stored row carries every field of the record. |
| SettingRepository.IndexOfUser | internal/repository/setting_repository.go:24 | Finds a row of that user, or none iff there is none. |
| SettingRepository.IndexOfKey | internal/repository/setting_repository.go:39-41 | Finds the row with that primary key, or none iff there is none. |
| SettingRepository.AfterGetOrCreate | internal/repository/setting_repository.go:22-37 | Afterwards the user has a row; an existing table is unchanged; otherwise exactly the default row is appended. |
| SettingRepository.AtMostOneRow | internal/models/setting.go:11 | The unique index on user_id leaves at most one row per user, and none exactly when the lookup finds none. |
| SettingRepository.AppendKeepsStored | internal/repository/setting_repository.go:33 | Inserting a non-clashing row under a fresh key keeps the table's keys. |
| SettingRepository.ReplaceKeepsStored | internal/repository/setting_repository.go:39-41 | Overwriting a row by a non-clashing one keeps the table's keys. |
| SettingRepository.SameKeysFit | internal/repository/setting_repository.go:39-41 | Saving a fetched setting with its own key and user never clashes. |
| SettingRepository.GetOrCreateOnce | internal/repository/setting_repository.go:22-37 | Calling get-or-create twice gives the same table as once, with exactly one row for the user. |
| SettingRepository.SettingTable.constructor | internal/repository/setting_repository.go:18-20 | A new table is empty and keyed. |
| SettingRepository.SettingTable.GetOrCreateByUserID | internal/repository/setting_repository.go:22-37 | A lookup fault is returned and nothing changes; an existing row is returned unchanged; otherwise the default row is created and returned, or the create error is returned with nothing created. |
| SettingRepository.SettingTable.Update | internal/repository/setting_repository.go:39-41 | Save overwrites the row with the record's key (all columns) and leaves the others, or inserts under the next serial key when the key is not stored (GORM keeps a non-zero unknown key, see Left out); a language over 10 characters, a key clash or a fault changes nothing. |
| SettingRepository.SettingTable.Insert | internal/repository/setting_repository.go:39-41 | Save of a key that is not stored appends the record under the next serial key (GORM's Create for the zero key), unless the user already has a row. |
| SettingRepository.SettingTable.Replace | internal/repository/setting_repository.go:39-41 | Save of a stored key replaces exactly that row, unless it clashes. |
| SettingRepository.IndexOfAppended | internal/repository/setting_repository.go:33-36 | A row appended for a user who had none is the one the lookup then finds. |
| SettingService.Applied | internal/services/setting_service.go:35-43 | A given push or email flag overwrites its column, a non-empty language overwrites the language, and everything else is kept. |
| SettingService.AppliedIdempotent | internal/services/setting_service.go:35-43 | An empty request changes nothing; applying a request twice is the same as once. |
| SettingService.RowIsFoundByKeys | internal/services/setting_service.go:30-45 | In a keyed table a stored row is found both by its key and by its user. |
| SettingService.UpdateIsReadBack | internal/services/setting_service.go:21-48 | After a successful Update, Get returns exactly the merged settings. |
| SettingService.ApplyRequest | internal/services/setting_service.go:35-43 | The fetched record becomes Applied of its old contents. |
| SettingService.SettingService.constructor | internal/services/setting_service.go:17-19 | The service works on the settings table it is given. |
| SettingService.SettingService.Get | internal/services/setting_service.go:21-27 | Errors are returned; otherwise the table is get-or-created and the response holds the user's stored push, email and language. |
| SettingService.SettingService.Update | internal/services/setting_service.go:29-49 | Errors are returned; otherwise the user's row is replaced by the merged row and the response equals it, or the save error leaves the fetched table unchanged. |
| SettingService.SettingService.ApplyAndSave | internal/services/setting_service.go:35-48 | Applying and saving replaces exactly the fetched row by its merge, and the response equals the saved row. |
| TemplateRepository.LexLeTotal | internal/repository/template_repository.go:29 | Byte-wise name order is total. |
| TemplateRepository.LexLeTransitive | internal/repository/template_repository.go:29 | Byte-wise name order is transitive. |
| TemplateRepository.NameLeIsTotalPreorder | internal/repository/template_repository.go:29 | "name asc" is a total preorder. |
| TemplateRepository.FollowsLast | internal/repository/template_repository.go:26-28 | A user follows a template iff the last follow row is that pair or an earlier row is. |
| TemplateRepository.Joined | internal/repository/template_repository.go:24-33 | The join yields exactly the templates the user has a follow row for. |
| TemplateRepository.AfterFollow | internal/repository/template_repository.go:44-55 | Afterwards the pair is followed; an existing pair leaves the rows unchanged; otherwise exactly one row (user, template, followedAt) is appended. |
| TemplateRepository.FollowIdempotent | internal/repository/template_repository.go:44-55 | Following twice equals following once, and at most one row per pair is kept. |
| TemplateRepository.FollowListsTemplate | internal/repository/template_repository.go:24-55 | After a follow the user's list gains exactly that template (if it exists), and other users' lists are unchanged. |
| TemplateRepository.TemplateCatalog.constructor | internal/repository/template_repository.go:20-22 | The catalogue holds the given templates and no follows. |
| TemplateRepository.TemplateCatalog.ListFollowedByUserID | internal/repository/template_repository.go:24-34 | Exactly the followed templates, sorted by name ascending. |
| TemplateRepository.TemplateCatalog.FindByID | internal/repository/template_repository.go:36-42 | The template with that id, or not-found iff there is none. |
| TemplateRepository.TemplateCatalog.Follow | internal/repository/template_repository.go:44-55 | A lookup fault is returned and nothing is created; an existing pair returns nil and creates nothing; otherwise one row is created unless the create fails; at most one row per pair is kept. |
| TargetRepository.OrdersAreTotalPreorders | internal/repository/target_repository.go:25-63 | "start_date desc" and "recorded_at desc" are total preorders. |
| TargetRepository.InPeriod | internal/repository/target_repository.go:28-30 | An empty period keeps every target; otherwise exactly those of that period. |
| TargetRepository.TargetLookup | internal/repository/target_repository.go:37-43 | The target with that id, not-found iff there is none, or the driver error. |
| TargetRepository.TargetStore.constructor | internal/repository/target_repository.go:21-23 | The store holds the given targets and no progress. |
| TargetRepository.TargetStore.ListByUserIDAndPeriod | internal/repository/target_repository.go:25-35 | Exactly the user's targets of that period (all periods for ""), sorted by start date descending. |
| TargetRepository.TargetStore.FindByID | internal/repository/target_repository.go:37-43 | Returns TargetLookup of the stored targets. |
| TargetRepository.TargetStore.CreateProgress | internal/repository/target_repository.go:49-51 | Appends one progress row with the next serial id, the given target, value and time, unless the driver fails. |
| TargetRepository.TargetStore.ListProgress | internal/repository/target_repository.go:53-63 | Only that target's rows, sorted by recorded_at descending, at most `limit` when limit > 0. |
| TargetService.RecordedTime | internal/services/target_service.go:53-58 | An empty or unparseable RecordedAt falls back to now; a parseable one is used. |
| TargetService.OwnedTarget | internal/services/target_service.go:45-51 | A lookup error is passed on unchanged; another user's target is "target not found"; the user's own target is kept. |
| TargetService.RecordedProgressIsListed | internal/services/target_service.go:59-82 | A recorded progress row appears in the target's history, first when it is the newest. |
| TargetService.TargetResponses | internal/services/target_service.go:30-41 | One response per target, in the same order. |
| TargetService.ProgressResponses | internal/services/target_service.go:78-82 | One response per progress row, in the same order. |
| TargetService.ResponsesOfListed | internal/services/target_service.go:25-42 | Every response describes one of the user's own targets of the requested period. |
| TargetService.TargetService.constructor | internal/services/target_service.go:21-23 | The service works on the target store it is given. |
| TargetService.TargetService.MyTargets | internal/services/target_service.go:25-42 | A list error is returned; otherwise one response per listed target in order, each describing a target of the user in that period. |
| TargetService.TargetService.AddProgress | internal/services/target_service.go:44-64 | A lookup error or another user's target ("target not found") creates nothing; otherwise one row with the target, the value and the recorded time is created and echoed, or the create error is returned. |
| TargetService.TargetService.ProgressHistory | internal/services/target_service.go:66-83 | Ownership errors as in AddProgress; otherwise one response per listed progress row in order, or the list error. |
| NotificationRepository.LaterCreationIsTotalPreorder | internal/repository/notification_repository.go:25 | "created_at desc" is a total preorder. |
| NotificationRepository.FindForUser | internal/repository/notification_repository.go:35-41 | Returns a row matching both id and user, not-found iff there is none, or the driver error. |
| NotificationRepository.OthersNotificationNotFound | internal/repository/notification_repository.go:35-41 | Looking up another user's notification by its id gives not-found. |
| NotificationRepository.MarkedRead | internal/repository/notification_repository.go:43-45 | Rows matching both id and user get is_read = true; every other row is unchanged. |
| NotificationRepository.MarkReadIdempotent | internal/repository/notification_repository.go:43-45 | Marking twice equals marking once. |
| NotificationRepository.MarkReadOfOthersChangesNothing | internal/repository/notification_repository.go:43-45 | Marking a notification the user cannot see changes nothing and is still no error. |
| NotificationRepository.MarkedIsFoundRead | internal/repository/notification_repository.go:35-45 | After marking, the owner's lookup finds the notification read. |
| NotificationRepository.NotificationTable.constructor | internal/repository/notification_repository.go:19-21 | The table holds the given rows. |
| NotificationRepository.NotificationTable.ListByUserID | internal/repository/notification_repository.go:23-33 | Only the user's rows, sorted by created_at descending; at most `limit` when limit > 0, all of them otherwise. |
| NotificationRepository.NotificationTable.FindByIDForUser | internal/repository/notification_repository.go:35-41 | Returns FindForUser of the table. |
| NotificationRepository.NotificationTable.MarkRead | internal/repository/notification_repository.go:43-45 | The table becomes MarkedRead of the old table, or is unchanged on a fault. |
| Ordering.InsertSorted | internal/repository/membership_repository.go:43-49 | Inserting into a sorted listing keeps it sorted. |
| Ordering.SortBySorted | internal/repository/membership_repository.go:43-49 | The modelled ORDER BY produces a sorted listing. |
| Ordering.LatestIsFirst | internal/repository/membership_repository.go:35-41 | The latest row exists iff the user has rows, and is a row of the user that is ordered before all the user's other rows. |
| Ordering.LatestAfterAppend | internal/repository/attendance_repository.go:23-33 | A row appended for a user that is ordered first among the user's rows becomes the latest. |
| Ordering.TiesNewestFirst | internal/repository/membership_repository.go:43-49 | Of two rows that tie under the order, the later-inserted one is listed first. |
| Ordering.HeadIsLatest | internal/repository/membership_repository.go:35-49 | The first row of the sorted listing is exactly the row the First-style lookup returns. |
| Ordering.Take | internal/repository/attendance_repository.go:38-40 | With limit > 0 the result is the first min(limit, n) rows; with limit ≤ 0 it is everything. |
| Ordering.TakeKeepsOrder | internal/repository/attendance_repository.go:38-40 | A LIMIT keeps the order, the head and only listed rows. |
| Ordering.SelectedRows | internal/repository/attendance_repository.go:35-37 | The listing holds exactly the owner's rows (as a multiset) and is sorted. |
| Ordering.Select | internal/repository/attendance_repository.go:35-37 | The selecting loop produces the owner's rows sorted, as the specification function does. |
| Ordering.FindFirst | internal/repository/attendance_repository.go:27-33 | The lookup loop returns the latest owner's row, none iff the owner has no rows. |

## Left out

- Database I/O, connection set-up, migrations and seeding are not modelled; every failure of the database is an injected driver fault per call.
- JSON Web Tokens (RFC 7519) signed with HS256 (section 3.2 of RFC 7518) are abstract: a `Signer` produces a token for claims, and a `Verifier` stands for signature and expiry checks. Only the type discriminator is modelled.
- bcrypt is abstract: a hash records its password and salt, and comparison is equality of passwords; the cost and the 72-byte limit are not modelled.
- RFC 3339 formatting and parsing are abstract: instants are integers, and `time.Parse` is the `TimeParser` parameter of `TargetService.RecordedTime`.
- MembershipService.AddMonths: calendar months (`AddDate` normalisation) are modelled as 30-day months; only "strictly later, by at least that many seconds" is relied on.
- UserService.PageCount: `math.Ceil` on floats is modelled as integer ceiling division; float rounding for totals beyond 2^53 is not modelled.
- AuthService.LoginOutcome: `ttl.Seconds()` is minutes·60 on unbounded integers; int64 overflow of huge minute counts is not modelled.
- UUIDs are natural numbers with 0 as the nil UUID, and a fresh id is a parameter; the source's `uint` ids are naturals without 64-bit wrap-around.
- Concurrency: the read-then-write race between the last-row lookup and the insert in `Scan` (and between lookup and create in the get-or-create and follow operations) is not modelled; requests run one at a time.
- MembershipService.MembershipService.GetMyMembership: the not-found branch at membership_service.go:30-31 is not modelled, because a listing `Find` never reports not-found.
- Row order: rows with equal sort keys are listed newest-inserted first (`Ordering.TiesNewestFirst`), the same tie-break `Ordering.Latest` uses for a `First`-style lookup; PostgreSQL leaves their order unspecified. `QrService.ReplayAlternates` and `QrService.ScansAlternate` rely on this tie-break when two passages share an instant. Table scans without ORDER BY (`FindAll`) are in table order.
- TemplateRepository.NameLeIsTotalPreorder: "name asc" is byte-wise comparison, as under the C collation; other database collations are not modelled.
- `created_at`, `updated_at` and GORM soft delete (`deleted_at`) columns are not modelled; a deleted user row is removed.
- HTTP handlers, routes, status-code mapping and the thin read-and-map services (workout, trainer, template, notification and attendance services) are not modelled.
- Record shapes follow the services where the model files differ: `auth_service.go` reads `user.ID`, `user.Password` and `user.Name`, which are taken as the same user row (id, password hash, full name); the membership and attendance rows use the fields the services write; statuses and directions are the lowercase strings the services compare; the notification row holds the columns the repository filters on and sets.
- MembershipService.RenewedPeriodIsCurrent: it holds only when no surviving period of the user ends after the new one. `MembershipService.RenewHiddenByLaterPeriod` shows a non-active period that ends later and so stays the one Renew's view reports.
- QrService.EndInstantBoundary: the scan and the QR screen disagree at the single instant now == EndsAt; the model keeps both tests as written.
- TemplateRepository.TemplateCatalog.Follow: there is no foreign-key check that the template exists, as in the source.
- SettingRepository.SettingTable.Update: a language longer than the 10-character column is refused with the database's error; a setting whose key is zero is inserted under the next serial key, as GORM's `Save` does; a setting whose non-zero key is not stored is re-keyed to the next serial key as well, where GORM would upsert it under its own key without advancing the sequence. `SettingService` only saves rows it has fetched, so it never takes that path.
- SettingRepository.SettingTable.Insert: re-keys a record whose non-zero key is not stored to the next serial key, where GORM's `Save` would keep the record's own key.
- CommonDto.NewSuccessResponse, CommonDto.NewSuccessResponseWithPagination and CommonDto.NewErrorResponse carry no contract of their own; their properties are stated by `CommonDto.SuccessIdentifiesConstructor` over all three.
- Tokens.NewToken is a plain construction of the claims handed to the signer; it is stated through `QrService.QrService.GetMyQRCode` and `AuthService.LoginOutcome`.
