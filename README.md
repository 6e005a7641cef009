# A verified model of the Django REST template's core logic

This project is a Dafny model of the logic inside a Django REST Framework
starter template. Everything else in the template is framework wiring. The
model covers:

- **Expiring activation tokens.** The plaintext is the text, a `|` and the
  issue time, encrypted with Fernet. Decoding splits at the last `|` and
  rejects tokens more than three days old.
- **Bearer-token authentication.** Failures come in a fixed order. An
  expired token is deleted.
- **The password-reset whitelist protocol.** Sending a reset inserts a
  (token, email) row. Verifying a reset consumes that row.
- **Validated-data partitioning.** Field-named keys are popped out of the
  caller's dict, for both core models and users.
- **The bulk serializer helpers.** These are the operation filter; create,
  update and delete; the CRUD driver; and the list-field sync.
- **The account-settings rules.** Validation first, then the update.
- **Error-message flattening** and the exception handler's envelope.
- **Query-string offset extraction** for pagination.
- **The user serializers.** Their field lists, sign-up, email verification
  and the reset-mail request.

## Modelling choices

- ORM tables are in-memory maps held by the class `Orm.Db`:
  - users keyed by their unique email;
  - bearer tokens keyed by their key;
  - the reset whitelist keyed by its unique token.
- A plain Python dict that the code changes in place is the class
  `Values.Dict`. A bulk-operation table is `CoreSerializers.Table`, whose
  rows are kept in order.
- A raised exception is the `Failure` side of a `Result`. `None` is `Option`.
- Time is whole UTC seconds.
- The following settings are parameters:
  - `FRONTEND_URL`;
  - `USER_AUTH_TOKEN_EXPIRATION_SECONDS` (`lifetime`);
  - the site domain.
- Four foreign components are replaced by small stand-ins with the
  properties the core relies on:
  - Fernet: `Fernet.Encrypt`/`Fernet.Decrypt`, where decrypting inverts
    encrypting and anything else fails to decrypt;
  - the password hashers: `Hashers.MakePassword`/`Hashers.CheckPassword`;
  - the `%Y-%m-%d %H-%M-%S` time format: `TimeFormat`, the decimal count of
    seconds, which is second-resolution, holds no `|`, and parses back;
  - UUID text: `UuidText`.

## Where the model follows the code rather than the description

- `VerifyEmailSerializer.validate` has an `except InvalidToken` branch that
  can never run. `get_token_value` already turns every `InvalidToken` into
  `ValidationError("Invalid token.")`. A malformed time inside a decrypted
  token escapes as a `ValueError`. The model has both outcomes:
  `Rejected("Invalid token.")` and `BadTimestamp`.
- `AbstractAccountSettingsSerializer.validate` treats an old password and a
  new password that are both sent as null as a password check. The check
  fails, so the answer is "Incorrect password!" and not acceptance.
  `AccountSettings.ValidateAcceptsIff` states this.
- `get_offset_from_url` reads a link without `?` as a query string as a
  whole. A parameter without `=` raises `IndexError`, and the model returns
  that error.

## Model

| member | source | states |
|---|---|---|
| ActivationTokens.RoundTrip | core/classes.py:76-98 | decoding a generated token gives back its text, including a text holding `\|`, until it is more than three days old; it is then rejected as an invalid token |
| ActivationTokens.ExpiryBoundary | core/classes.py:93-94 | a token exactly three days old is accepted; one second later it is rejected (the comparison is strict) |
| ActivationTokens.PayloadLastSeparator | core/classes.py:78-88 | the last `\|` of a plaintext is the one right after the text, whatever the text holds |
| ActivationTokens.FailureKinds | core/classes.py:85-96 | a token that does not decrypt is an invalid token; the time-format error arises only from a decrypted plaintext whose part after the last `\|` is not a time |
| ActivationTokens.AcceptedTokenShape | core/classes.py:82-98 | an accepted token decrypts to its text, a `\|` and a fresh time with no `\|`, or (never generated) to a bare fresh time |
| ActivationTokens.GeneratedTokenDeterminesText | core/classes.py:76-80 | two equal generated tokens carry the same text |
| TimeFormat.FormatTimeHasNoBar | core/classes.py:65-70 | the time text never holds the separator `\|` |
| TimeFormat.ParseFormatTime | core/classes.py:68-74 | parsing the time text gives back the time, at one-second resolution |
| Fernet.DecryptEncrypt | core/classes.py:78-86 | decrypting an encrypted plaintext gives the plaintext |
| Fernet.DecryptOnlyTokens | core/classes.py:86 | only encryptions decrypt: any other string fails |
| Fernet.EncryptInjective | core/classes.py:79 | distinct plaintexts give distinct tokens |
| Hashers.CheckMakePassword | core/serializers.py:148-160 | a password checks against its own encoding |
| Hashers.MakePassword | user/models.py:77 | the encoding of a string password is usable; the encoding of None is the unusable marker |
| TokenAuth.IsExpired | core/classes.py:35-43 | a token has expired exactly when the elapsed seconds exceed the lifetime |
| TokenAuth.AuthenticateCredentials | core/classes.py:45-58 | the outcome of the ordered checks; only an expired token is deleted from the table, and the table invariant is kept |
| TokenAuth.CheckOrder | core/classes.py:45-56 | an unknown key is "Invalid token."; an inactive user is "User inactive or deleted." even when the token has expired; an active user's expired token is "Token expired." |
| TokenAuth.SucceedsIff | core/classes.py:45-58 | authentication succeeds exactly for a known key of an active user within the lifetime, and returns that user and token |
| TokenAuth.ExpiredTokenIsGone | core/classes.py:54-56 | once an expired token has been refused, its key is unknown at any later time |
| CoreModels.GetHiddenFields | core/models.py:12-14 | the hidden fields are every core field except the primary key, in declaration order |
| CoreModels.FromValidatedData | core/models.py:16-25 | the new object holds exactly the field-named entries; the dict keeps exactly its other entries with their values |
| CoreModels.PopFields | core/models.py:20-24 | the comprehension's pops: the constructor arguments are the field-named entries, and the dict loses exactly those |
| CoreModels.PartitionRecombines | core/models.py:16-25 | the popped entries and the entries left behind are disjoint and together form the original dict |
| CoreModels.Instance.UpdateFromValidatedData | core/models.py:27-34 | each present field takes the popped value; absent fields keep theirs; the dict keeps its non-field entries; the object is saved |
| CoreModels.Instance.Str | core/models.py:36-37 | the text of the object is the UUID text of its id, which parses back to the id |
| UuidText.ParseUuidString | core/models.py:36-37 | the UUID text is 36 characters and parses back to the id |
| UuidText.UuidStringInjective | core/models.py:36-37 | distinct ids have distinct texts |
| Orm.UserFromRow | user/models.py:73-83 | the built user takes its email from the arguments; an absent `is_active` defaults to true and an absent `is_verified` to false |
| UserModels.GetHiddenFields | user/models.py:85-94 | the core hidden fields are a prefix, followed by the six user fields in order; all are model fields |
| UserModels.HashedPassword | user/models.py:77 | the password entry is replaced by its encoding; every other entry is unchanged |
| UserModels.FromValidatedData | user/models.py:73-83 | without a password, KeyError and no change; otherwise the user holds the password's encoding and exactly the field-named entries, and the dict keeps the rest |
| UserModels.ProfilePhoto | user/models.py:104-108 | there is a photo URL exactly when a file name is set, and it is the domain followed by the file's URL |
| UserModels.VerificationLink | user/models.py:134-142 | the verification link is the frontend URL, `/email-verification?token=` and the token |
| UserModels.ResetLink | user/models.py:167-175 | the reset link is the frontend URL, `/password-reset?token=` and the token |
| UserModels.SendPasswordResetMail | user/models.py:154-175 | the outcome of the whitelist insert and the link; on failure the whitelist is unchanged; the invariant is kept |
| UserModels.SendResetKeepsInvariant | user/models.py:26-28 | an insert keeps emails unique and every token generated for its email |
| UserModels.SendResetFailsIffEntryExists | user/models.py:160-165 | a send fails with "already sent" exactly when the email has a row; otherwise exactly one row (token, email) is added |
| UserModels.SecondSendFails | user/models.py:160-165 | after a successful send, any second send for the same email fails |
| UserModels.WhitelistedTokenDecodes | user/models.py:191-195 | a whitelisted token decodes to the email beside it, or is rejected as expired; it never fails to parse |
| UserModels.VerifyPasswordReset | user/models.py:187-204 | the outcome of the verification; on failure nothing changes; the invariant is kept |
| UserModels.VerifyResetOutcome | user/models.py:187-204 | verification succeeds exactly for a whitelisted, fresh token naming a user; it then sets that user's password, changes no other user, and deletes exactly that row; every failure is "Invalid token." |
| UserModels.NoReplay | user/models.py:202-204 | a token that reset a password fails on any later use |
| UserModels.ResetProtocol | user/models.py:154-204 | end to end: a reset sent and verified within three days sets the new password and restores the whitelist |
| UserModels.ExpiredEntryLocksOut | user/models.py:160-165 | as written: once a whitelisted token has expired, its verification fails and every further send for the email fails |
| UserModels.LockOutExample | user/models.py:160-165 | as written: a reset sent at time 0 blocks the send three days and one second later |
| UserModels.RemoveStale | user/models.py:160-165 | exactly the email's rows whose token no longer decodes are removed; other rows keep their values |
| UserModels.RenewingKeepsInvariant | user/models.py:26-28 | the corrected send keeps emails unique and tokens generated for their emails |
| UserModels.RenewingReplacesExpiredEntry | user/models.py:160-165 | corrected: a row whose token has expired is replaced by the new send |
| UserModels.StaleEntryRemoved | user/models.py:160-165 | removing stale rows drops exactly the email's expired row, leaving it no row |
| UserModels.RenewingRejectsLiveEntry | user/models.py:160-165 | corrected: a row whose token is still fresh blocks the send as before |
| UserModels.SendPasswordResetMailRenewing | user/models.py:154-175 | the corrected send on the tables: the outcome of the renewing insert and the link, keeping the invariant |
| CoreSerializers.Filter | core/serializers.py:28-30 | a comprehension with a condition keeps exactly the elements that pass, and no more of them than there were |
| CoreSerializers.FilterConcat | core/serializers.py:28-30 | filtering keeps input order across a concatenation |
| CoreSerializers.FilterPartition | core/serializers.py:64-66 | the elements that pass and those that fail number as many as the input |
| CoreSerializers.OperationFilterSelects | core/serializers.py:25-42 | "add" and "update" keep exactly the records tagged so; "delete" gives one id (None when missing) per "delete" record; any other operation gives nothing |
| CoreSerializers.OperationFilterConcat | core/serializers.py:25-42 | the filter keeps input order |
| CoreSerializers.CreateFromSavesValidPrefix | core/serializers.py:47-56 | the create loop from any point saves the serializer's rows for a prefix of the records |
| CoreSerializers.CreateAllSavesValidPrefix | core/serializers.py:47-56 | the saved rows are those for a prefix of the records; on success that prefix is all of them and the count is their number; on failure the next record is the first one rejected |
| CoreSerializers.CreateRecords | core/serializers.py:49-56 | the loop appends exactly the rows and returns the result that the create specification gives |
| CoreSerializers.PerformCreate | core/serializers.py:44-56 | create runs the loop on the "add" records |
| CoreSerializers.UpdateTouchesOnlySelected | core/serializers.py:74-76 | an update writes its values to the selected rows only, and those rows keep their other columns |
| CoreSerializers.UpdateFrom | core/serializers.py:72-77 | an update pass keeps the table's size, and its only error is a missing `id`; each record adds what its `update()` returns (`UpdatedCount`: the rows selected, or 0 for a record with no values to write) |
| CoreSerializers.UpdateFromSucceedsIff | core/serializers.py:72-77 | an update pass succeeds exactly when every record carries an id |
| CoreSerializers.UpdateFromWithoutMatches | core/serializers.py:72-77 | when no record selects a row, nothing changes and nothing is counted |
| CoreSerializers.UpdateWithoutValuesCountsNothing | core/serializers.py:74-77 | an "update" record with only `operation` and `id` leaves every row as it was and counts 0, since `update()` with no values sends no query |
| CoreSerializers.UpdateSelected | core/serializers.py:74-76 | the filtered update gives the rows with the values written to the selected ones and returns their number; with no values to write, nothing changes and it returns 0, as Django sends no query |
| CoreSerializers.UpdateFromStep | core/serializers.py:72-77 | one step of the loop: the first record is applied, then the rest to the rows it leaves |
| CoreSerializers.ApplyUpdates | core/serializers.py:72-77 | the loop leaves the table and result that the update specification gives |
| CoreSerializers.PerformUpdate | core/serializers.py:69-77 | update runs the loop on the "update" records |
| CoreSerializers.DeleteRemovesExactlySelected | core/serializers.py:58-67 | delete keeps exactly the rows not selected by id and kwargs; deleted plus kept rows are the whole table |
| CoreSerializers.PerformDelete | core/serializers.py:58-67 | delete leaves the unselected rows in order and returns the number of selected rows |
| CoreSerializers.PerformCrudOperations | core/serializers.py:79-92 | add, then update, then delete, each on the table the previous step left |
| CoreSerializers.CrudStepsInOrder | core/serializers.py:88-92 | when all steps succeed the add count is the number of "add" records, and a row created by an "add" is removed by a "delete" naming its id |
| CoreSerializers.KeepRows | core/serializers.py:115-117 | the rows left are exactly those not matching the query with a value to delete, in order |
| CoreSerializers.BuildNewRows | core/serializers.py:118-120 | one new row per value to add, each holding that value and the query parameters |
| CoreSerializers.PerformListFieldUpdate | core/serializers.py:100-121 | the table is the kept rows followed by the new rows, and the count is the number of values added plus the number deleted |
| CoreSerializers.NewRowMatches | core/serializers.py:119 | a new row matches the query and, when the field is no query parameter, holds its item |
| CoreSerializers.SyncedRowOrigin | core/serializers.py:113-120 | every row after the sync is a kept old row or a new row |
| CoreSerializers.SyncReachesTarget | core/serializers.py:107-121 | after the sync the field's values among matching rows are exactly the target, so a repeat call returns 0 |
| CoreSerializers.SyncKeepsUnaffectedRows | core/serializers.py:113-117 | rows outside the query, and matching rows whose value stays in the target, survive |
| AccountSettings.ValidateAcceptsIff | core/serializers.py:137-155 | validation accepts exactly when old and new passwords come together, a delete password comes with a reason, and any given old or delete password checks; it then returns the data unchanged; two null passwords are "Incorrect password!" |
| AccountSettings.PasswordChangeTakesEffect | core/serializers.py:159-161 | after a validated change, the new password checks against the stored one and the email is kept; without a truthy delete password in the same request, the active and deleted flags are kept too |
| AccountSettings.DeletionDeactivates | core/serializers.py:162-167 | a validated deletion deactivates and soft-deletes the user and marks the object deleted; the user's bearer tokens are then refused as inactive |
| AccountSettings.NothingToApply | core/serializers.py:157-173 | without a truthy old password, delete password or notification email, nothing changes |
| AccountSettings.Update | core/serializers.py:157-173 | the user row and the settings object change as the update specification says and are saved; a KeyError leaves everything as it was |
| AccountSettings.ChangePasswordStep | core/serializers.py:159-161 | the password step on the dict: it pops the new password and encodes it |
| AccountSettings.MarkDeletedStep | core/serializers.py:162-167 | the deletion step on the user, the object and the dict |
| AccountSettings.TakeNotificationEmailStep | core/serializers.py:168-169 | a truthy notification email is popped into the object |
| ErrorMessages.RecursiveErrorMessage | core/exceptions.py:8-22 | the loop with recursion computes the rendering of the error data |
| ErrorMessages.RenderEntriesPrefix | core/exceptions.py:15-21 | the message after the first n entries does not depend on later entries |
| ErrorMessages.EmptyDictMessage | core/exceptions.py:14-22 | an empty dict gives the empty message |
| ErrorMessages.TextEntryAppendsVerbatim | core/exceptions.py:16-17 | a string value is appended verbatim, with no key and no separator |
| ErrorMessages.NestedEntryAppendsKeyed | core/exceptions.py:18-21 | a non-string value appends `key: <its message>`, after one space exactly when the message so far is not empty |
| ErrorMessages.TextDictConcatenates | core/exceptions.py:15-17 | a dict of strings gives their concatenation in order |
| ErrorMessages.ListMessageSplits | core/exceptions.py:12-13 | a list renders as its items joined by single spaces: splitting at spaces gives back items that hold none |
| ErrorMessages.ItemMessagesKeepsStrings | core/exceptions.py:33-38 | list data keeps exactly its string and ErrorDetail items |
| ErrorMessages.HandlerMessageShapes | core/exceptions.py:31-41 | dict data becomes its one flattened message; other data, or a list of other items, gives an empty message |
| ErrorMessages.CollectMessages | core/exceptions.py:33-38 | the loop collects the kept list items in order |
| ErrorMessages.CustomExceptionHandler | core/exceptions.py:28-45 | no response is returned as it is; otherwise the data becomes the envelope with the copied status code, the message and no result |
| Pagination.ConstructDictFailsIff | core/pagination.py:12-15 | building the dict fails exactly when some item has no `=` |
| Pagination.ConstructDictLastWins | core/pagination.py:12-15 | each item's key maps to the text between the first and second `=` of the last item with that key |
| Pagination.ConstructDictKeysFromItems | core/pagination.py:12-15 | every key comes from some item |
| Pagination.NoLinkNoOffset | core/pagination.py:18-19 | a missing or empty link has no offset |
| Pagination.OnlyLastQueryIsRead | core/pagination.py:20-25 | only the text after the last `?` is read; a link without `?` is read whole |
| Pagination.OffsetRoundTrip | core/pagination.py:17-25 | a link whose query joins plain `k=v` pairs yields the value of its last `offset` pair, or None |
| Pagination.GetPaginatedResponse | core/pagination.py:27-39 | the envelope gains both offsets, read from `previous` first; other keys keep their values; an error leaves it unchanged |
| UserSerializers.ModelFieldNames | user/serializers.py:28 | the model's field-name set has exactly the model's fields |
| UserSerializers.LoginFields | user/serializers.py:27-29 | the login fields are the model fields except the photo file, plus `token`, `profile_photo` and `username` |
| UserSerializers.LoginExtraKwargs | user/serializers.py:30-32 | every login field except `email` has an option; `password` is write-only and all others are read-only |
| UserSerializers.LoginFieldsShape | user/serializers.py:27-29 | the login fields include the credentials and the photo URL, never the photo file |
| UserSerializers.LoginWritesOnlyCredentials | user/serializers.py:30-32 | only `email` and `password` can be written at login, and only `password` is write-only |
| UserSerializers.SignUpFields | user/serializers.py:55-58 | the sign-up fields are the model fields less the hidden ones, the photo file and `last_login`, plus `token` and `profile_photo` |
| UserSerializers.SignUpFieldsShape | user/serializers.py:55-58 | sign-up takes the credentials, the photo and the token, never the photo file or the last login |
| UserSerializers.SignUpCannotSetHiddenFields | user/serializers.py:55-58 | no hidden field, such as `is_active` or `is_verified`, is a sign-up field |
| UserSerializers.SignUpValidate | user/serializers.py:38-41 | "User with this mail already exists." exactly when a user has that email; otherwise the attributes pass unchanged |
| UserSerializers.SignedUpUserFields | user/serializers.py:43-51 | the new user has the given email and the password's encoding; the photo is set when `profile_photo` is truthy; the flags default to active and unverified |
| UserSerializers.SignUpCreate | user/serializers.py:43-51 | a missing password is a KeyError with no change; otherwise the built user is the only one added, and the table invariant is kept |
| UserSerializers.BuildUser | user/serializers.py:44-47 | the user built from the validated data with the photo when one is given |
| UserSerializers.VerifyEmailValidate | user/serializers.py:69-85 | on success the user is activated and attached as `data["user"]`; on failure nothing changes |
| UserSerializers.VerifyEmailOutcome | user/serializers.py:69-85 | verification succeeds exactly when the token decodes to a known email; that user becomes active and verified with the password kept, and no other user changes |
| UserSerializers.VerificationTokenRoundTrip | user/serializers.py:71-83 | the token of the verification mail verifies its user for three days and is then "Invalid token." |
| UserSerializers.VerifyEmailIdempotent | user/serializers.py:81-83 | verifying twice changes nothing more |
| UserSerializers.SignUpThenVerify | user/serializers.py:43-85 | a user who has just signed up is verified by the fresh token of their mail, keeping the sign-up password |
| UserSerializers.PasswordResetEmailValidate | user/serializers.py:91-98 | an unknown email is "User does not exist" with no change; a known one's user is attached as `data["user"]` |

## Left out

- Fernet's cryptography, the hashers' algorithms, `strftime`/`strptime` and UUID generation are replaced by the stand-ins above. Only the properties stated about them are relied on.
- Time below one second is left out. `utcnow()`, `datetime.now(timezone.utc)` and `token.created` are whole seconds.
- Mail sending and template rendering are I/O. `send_email_verification_mail` is modelled only through its link (`UserModels.VerificationLink`) and the token it carries (`UserSerializers.VerificationTokenRoundTrip`).
- The `User.token` property (`Token.get_or_create`), `set_user_ip`, the framework's own `exception_handler` and `LimitOffsetPagination` are not modelled. Their effects are left out, or their outputs are parameters.
- The photo setter's file storage is not modelled. `generate_file_and_name` is replaced by the `photoFile` parameter, which is the name the storage assigns. The getter's file URL is the `photoUrl` parameter.
- Dict insertion order is not modelled. Rows are maps. Error data keeps its entries as an ordered sequence.
- SQL NULL and `__in` lookups are not modelled as SQL evaluates them. A row matches a filter when each keyword argument is present with an equal value.
- `str()` of a list item in error data is its message text. The `repr` of other objects is not modelled.
- The operation serializer of `_perform_create` is abstracted as the function `serialize`, which validates the merged data and yields the row it saves. The UUID primary key of a new row is not assigned.
- `_perform_update` pops `operation` and `id` out of the caller's record dicts. The model reads them and does not show the caller's dicts changing.
- The order in which `bulk_create` receives the set of new values is chosen arbitrarily, as a Python set iterates. Only membership is stated.
- CoreModels.FromValidatedData: the primary key is the `id` parameter. An `"id"` entry in the data goes into the attributes, not into the key, where `cls(**kwargs)` would use it. No serializer supplies one, because the field is not editable.
- `FieldError` for an unknown field name in an update or a query is not modelled.
- AccountSettings.PasswordChangeTakesEffect: requires every value to be a string or None (`AccountSettings.CharFields`). The serializer's character fields ensure this.
- ErrorMessages.CustomExceptionHandler: requires that the incoming data is not already an envelope. The framework's handler never produces one.
- Pagination.GetPaginatedResponse: requires that the `previous` and `next` keys are present. The framework's envelope always has them.
- UserSerializers.SignUpCreate: requires that `validate` has passed. Creating a user whose email is taken would violate the unique constraint, and that path is not modelled.
- The ordering of `Meta.fields` (`list(set(...))`) is not modelled. The field lists are sets.
- `UserSerializer`, `PasswordResetSerializer` and the views that call these serializers are framework glue and are not modelled.

## Findings

| source | as written | input that shows it | evidently intended | confidence | as-written member | corrected member |
|---|---|---|---|---|---|---|
| user/models.py:160-165 | a whitelist row is deleted only by a successful `verify_password_reset`, so a row whose token expired unused stays forever, and the email's unique constraint then makes every later `send_password_reset_mail` for that email fail with "Password reset mail is already sent." | a reset sent for `user@example.com` at time 0 and never used; a second request three days and one second later fails, and so does every one after it | a row whose token no longer decodes should be removed, or replaced, before the insert | not executed | UserModels.ExpiredEntryLocksOut | UserModels.RenewingReplacesExpiredEntry |
