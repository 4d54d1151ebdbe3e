# Sirioweb service core in Dafny

This project models the deterministic core of the Sirioweb furniture-shop API:

- **UserService** keeps the user repository. It fetches users by id or by email and deletes them. It creates users, storing the password encoder's output split at `:` into a hash and a salt. It applies partial updates where a null field means "keep the stored value". As Spring Security's `UserDetailsService`, it turns a stored user into user details whose password is `"hash:salt"` again.
- **FurnitureService** keeps the furniture repository. It fetches, updates and deletes furniture. Creating a furniture also creates each of its items, stamped with the new furniture and a reference built from the furniture id and the category id.
- **CustomAuthenticationFilter** passes the login form's `email` and `password` to the authentication manager. On success it builds the response map:
  - an access token and a refresh token, which are JWTs with the registered claims `sub`, `iss` and `exp` of section 4.1 of RFC 7519, signed with HS256 (section 3.2 of RFC 7518);
  - the user's role label;
  - the user's id.

The modules are:

- `Common`: nullable values, results carrying the thrown exception, and the keep-unless-supplied rule.
- `Decimal`: `Long.toString` and its inverse.
- `PasswordFormat`: Java's `String.split(":")` and the `"%s:%s"` join.
- `Users`, `Furnitures`, `AuthenticationFilter`: the three source files.

Each service is a class. Its repository is a `map` field from id to entity, and a counter gives new ids. The methods change these fields and are proved against specification functions: `UpdatedUser`, `NewUser`, `UpdatedFurniture`, `SavedFurniture`, `AccessClaims` and `RefreshClaims`. The contracts of those functions and the lemmas beside them state what each stored value is, field by field.

Collaborators are parameters:

- the password encoder (`encode`, `matches`);
- the authentication manager;
- the JWT signer;
- the item service's `createItem`, as a predicate saying whether it accepts an item;
- the clock, as integer milliseconds.

A Java exception becomes the `Failure` of a `Result`. A `@Transactional` method that throws leaves its repositories unchanged.

The model keeps these properties of the code:

- hash and salt are produced by splitting one string at `:` and re-joined with `:`;
- the token lifetimes are the literals 3600*60 ms and 20000*60 ms;
- the `roles` claim is the principal's whole authority list;
- the signing key is the fixed bytes of `"secret"`.

## Model

| member | source | states |
|---|---|---|
| `Common.KeepUnlessSupplied` | api/src/main/java/com/sirioitalia/api/service/UserService.java:73-83 | a supplied (non-null) patch value wins; otherwise the stored value is kept |
| `Decimal.NatToString` | api/src/main/java/com/sirioitalia/api/service/FurnitureService.java:49 | the decimal digits of a non-negative id are non-empty, all digits, and have no leading zero |
| `Decimal.LongToString` | api/src/main/java/com/sirioitalia/api/service/FurnitureService.java:49 | `Long.toString` gives all digits exactly for non-negative ids and a leading `-` exactly for negative ones |
| `Decimal.ParseNatToString` | api/src/main/java/com/sirioitalia/api/service/FurnitureService.java:49 | parsing the digits of a non-negative id gives the id back |
| `Decimal.LongToStringRoundTrip` | api/src/main/java/com/sirioitalia/api/service/FurnitureService.java:49 | parsing `Long.toString(n)` gives `n` back for every integer |
| `Decimal.LongToStringInjective` | api/src/main/java/com/sirioitalia/api/service/FurnitureService.java:49 | distinct ids render as distinct strings |
| `PasswordFormat.Fields` | api/src/main/java/com/sirioitalia/api/service/UserService.java:145 | cutting at every `:` gives at least one field, and no field contains `:` |
| `PasswordFormat.DropTrailingEmpty` | api/src/main/java/com/sirioitalia/api/service/UserService.java:145 | Java's removal of trailing empty strings keeps a prefix of the fields that does not end in an empty string, and every field it drops is empty |
| `PasswordFormat.Split` | api/src/main/java/com/sirioitalia/api/service/UserService.java:145 | Java's `split(":")`: at most one more part than there are `:`, and no part contains `:`. The exact cuts are proved in `SplitOfOneColon` and `SplitThenJoin` |
| `PasswordFormat.JoinHashAndSalt` | api/src/main/java/com/sirioitalia/api/service/UserService.java:162 | `String.format("%s:%s", hash, salt)`: the hash, then `:` at the index equal to the hash's length, then the salt; `JoinHasOneColon` and `JoinThenSplit` prove what splitting it gives |
| `PasswordFormat.JoinFieldsOfFields` | api/src/main/java/com/sirioitalia/api/service/UserService.java:145 | re-joining the fields with `:` gives the string back |
| `PasswordFormat.FieldsCount` | api/src/main/java/com/sirioitalia/api/service/UserService.java:145 | cutting at every `:` gives exactly one more field than there are `:` |
| `PasswordFormat.SplitHashAndSalt` | api/src/main/java/com/sirioitalia/api/service/UserService.java:145-148 | succeeds iff `split(":")` gives at least two parts, and then hash and salt are parts 0 and 1, neither containing `:`; fewer than two parts throw ArrayIndexOutOfBoundsException |
| `PasswordFormat.SplitOfOneColon` | api/src/main/java/com/sirioitalia/api/service/UserService.java:145 | `split(":")` on `h:t` with colon-free `h` and `t` gives `[h, t]`; an empty `t` is dropped, and if `h` is empty too the result is empty |
| `PasswordFormat.JoinThenSplit` | api/src/main/java/com/sirioitalia/api/service/UserService.java:145-148 | joining a colon-free hash and a non-empty colon-free salt with `:` and splitting again gives both back |
| `PasswordFormat.OneColonShape` | api/src/main/java/com/sirioitalia/api/service/UserService.java:145 | a string with exactly one `:` is a colon-free prefix, the `:`, and a colon-free suffix |
| `PasswordFormat.SplitOfOneColonOutput` | api/src/main/java/com/sirioitalia/api/service/UserService.java:145-148 | for an encoder output with exactly one `:`, splitting succeeds iff the output does not end in `:`, and then `"%s:%s"` of the parts is the output itself |
| `PasswordFormat.SplitKeepsPrefix` | api/src/main/java/com/sirioitalia/api/service/UserService.java:145-148 | when splitting succeeds, `"hash:salt"` is a prefix of the encoder output; it equals the output only if the output has exactly one `:` |
| `PasswordFormat.JoinHasOneColon` | api/src/main/java/com/sirioitalia/api/service/UserService.java:86 | a colon-free hash and salt glued with `:` hold exactly one `:` |
| `PasswordFormat.JoinOfFirstTwoIsPrefix` | api/src/main/java/com/sirioitalia/api/service/UserService.java:145-148 | the first two `:`-separated fields, glued back with `:`, begin the whole string |
| `PasswordFormat.SplitThenJoin` | api/src/main/java/com/sirioitalia/api/service/UserService.java:142-152 | the storage round trip: no `:` means failure; with one `:` success iff the salt is non-empty; on success the re-joined string is a prefix of the output, and equal to it iff the output has exactly one `:` |
| `Users.SaveKeepsEmailsUnique` | api/src/main/java/com/sirioitalia/api/service/UserService.java:118 | saving a user under its own id, with an email no other user holds, keeps the repository keyed by id with unique emails |
| `Users.FindByEmail` | api/src/main/java/com/sirioitalia/api/service/UserService.java:47-48 | `findByEmail` finds a user iff one holds the email, and then it is that stored user |
| `Users.UpdatedUser` | api/src/main/java/com/sirioitalia/api/service/UserService.java:73-118 | the user `updateUser` saves: id and role label are kept; the only exceptions while building it are ArrayIndexOutOfBoundsException (re-encoding) and NullPointerException (null stored address); hash and salt are either both kept or both colon-free. Its field-by-field meaning is proved in `UpdateUserMergesFields`, `UpdateUserPassword` and `UpdateUserOutcome` |
| `Users.NewUser` | api/src/main/java/com/sirioitalia/api/service/UserService.java:130-136 | the user `createUser` saves: it exists iff the encoder output splits into at least two parts. It is the request body with the new id, and with hash and salt set to parts 0 and 1 of the split encoder output; every other field is the body's. Hash and salt are colon-free, and their join begins the encoder output |
| `Users.UserService.GetUserById` | api/src/main/java/com/sirioitalia/api/service/UserService.java:39-44 | returns the stored user under the id, or fails with NOT_FOUND exactly when the id is absent |
| `Users.UserService.GetUserByEmail` | api/src/main/java/com/sirioitalia/api/service/UserService.java:46-51 | returns the stored user holding the email, or fails with NOT_FOUND exactly when nobody holds it |
| `Users.UserService.DeleteUser` | api/src/main/java/com/sirioitalia/api/service/UserService.java:57-64 | removes exactly the given id; an absent id throws and leaves the repository unchanged |
| `Users.UserService.EncodePassword` | api/src/main/java/com/sirioitalia/api/service/UserService.java:142-152 | the map has exactly the keys `hash` and `salt`, holding parts 0 and 1 of the split encoder output; their join is a prefix of the output, and equals it when the output has exactly one `:`; fewer than two parts throw |
| `Users.UserService.CreateUser` | api/src/main/java/com/sirioitalia/api/service/UserService.java:127-140 | on success the user is stored under a fresh id, with the split encoding in place of the plaintext; any failure (bad encoder output, email taken) gives INTERNAL_SERVER_ERROR and stores nothing |
| `Users.UserService.PasswordToStore` | api/src/main/java/com/sirioitalia/api/service/UserService.java:85-93 | a supplied password that the encoder does not match against the stored `"hash:salt"` gives the split re-encoding; otherwise the stored pair is kept |
| `Users.UserService.ApplyAddressPatch` | api/src/main/java/com/sirioitalia/api/service/UserService.java:95-112 | the four address setters give the field-by-field merge of the stored address with the patch |
| `Users.UserService.ApplyPatch` | api/src/main/java/com/sirioitalia/api/service/UserService.java:73-116 | the setter sequence on the fetched user gives exactly the specified updated user, or the exception it would throw |
| `Users.UserService.UpdateUser` | api/src/main/java/com/sirioitalia/api/service/UserService.java:66-125 | on success exactly the patched user replaces the stored one and nothing else changes; a missing id or any other failure gives INTERNAL_SERVER_ERROR and leaves the repository unchanged |
| `Users.UserService.LoadUserByUsername` | api/src/main/java/com/sirioitalia/api/service/UserService.java:154-166 | an unknown email gives UsernameNotFoundException; a role label without a non-whitespace character, or an empty email, gives IllegalArgumentException; otherwise username = email, password = `"hash:salt"`, and the single authority is the role label |
| `Users.UpdateUserOutcome` | api/src/main/java/com/sirioitalia/api/service/UserService.java:85-112 | an update reaches `save` iff a needed re-encoding splits into two parts and an address patch finds a stored address |
| `Users.UpdateUserMergesFields` | api/src/main/java/com/sirioitalia/api/service/UserService.java:73-116 | email, names and phone number take the patch value when supplied and keep the stored one otherwise; a null address patch keeps the stored address, and a non-null one merges city, street name, street number and zip code by the same rule |
| `Users.UpdateUserPassword` | api/src/main/java/com/sirioitalia/api/service/UserService.java:85-93 | hash and salt both change only when a supplied password does not match the stored `"hash:salt"`, and then they become the split encoding; id and role never change |
| `Users.EmptyPatchIsIdentity` | api/src/main/java/com/sirioitalia/api/service/UserService.java:67-118 | an all-null patch saves the user unchanged |
| `Users.ProfilePatchIdempotent` | api/src/main/java/com/sirioitalia/api/service/UserService.java:67-118 | a patch without a password, applied again to its own result, changes nothing |
| `Users.PasswordPatchIdempotent` | api/src/main/java/com/sirioitalia/api/service/UserService.java:85-93 | if the encoder matches a password against its own one-colon output, a repeated password patch leaves the user unchanged, whatever salt the second encoding would draw |
| `Users.CreatedPasswordIsEncoderOutput` | api/src/main/java/com/sirioitalia/api/service/UserService.java:130-133 | for a one-colon encoder output, the `"hash:salt"` later given to `matches` is exactly what the encoder returned at creation |
| `Furnitures.SavedFurniture` | api/src/main/java/com/sirioitalia/api/service/FurnitureService.java:44-52 | the saved furniture is the request body under the new id, with every other field as given and as many items as were listed; the item contents are proved in `SavedItemsShareReference` |
| `Furnitures.ItemReference` | api/src/main/java/com/sirioitalia/api/service/FurnitureService.java:49 | `String.format("%s%s", …)` of the two ids: at least two characters, all digits iff both ids are non-negative; `ItemReferenceHoldsBothIds` and `ItemReferenceNotInjective` prove what can be read back |
| `Furnitures.UpdatedFurniture` | api/src/main/java/com/sirioitalia/api/service/FurnitureService.java:66-84 | the furniture `updateFurniture` saves: id and items are kept, and the empty patch changes nothing; the field rule is proved in `UpdateFurnitureMergesFields` |
| `Furnitures.FurnitureService.GetFurnitureById` | api/src/main/java/com/sirioitalia/api/service/FurnitureService.java:35-38 | returns the stored furniture, or fails with NOT_FOUND exactly when the id is absent |
| `Furnitures.FurnitureService.CreateFurniture` | api/src/main/java/com/sirioitalia/api/service/FurnitureService.java:41-58 | succeeds iff every item can be stamped and is accepted; on success the furniture is stored under a fresh id and the item service receives the stamped items in list order; any failure gives CONFLICT and changes nothing |
| `Furnitures.FurnitureService.UpdateFurniture` | api/src/main/java/com/sirioitalia/api/service/FurnitureService.java:61-87 | a missing id gives NOT_FOUND, not re-wrapped, with the store unchanged; otherwise the patched furniture replaces exactly the stored one |
| `Furnitures.FurnitureService.DeleteFurniture` | api/src/main/java/com/sirioitalia/api/service/FurnitureService.java:90-96 | removes exactly the given id and keeps every other entry; an absent id gives NOT_FOUND |
| `Furnitures.SavedItemsShareReference` | api/src/main/java/com/sirioitalia/api/service/FurnitureService.java:46-52 | every saved item points at the new furniture and carries the reference decimal(furniture id) ++ decimal(category id); its other columns are kept |
| `Furnitures.ItemReferenceHoldsBothIds` | api/src/main/java/com/sirioitalia/api/service/FurnitureService.java:49 | for non-negative ids the reference is all digits, and both ids can be read back once the length of the furniture id's digits is known |
| `Furnitures.ItemReferenceNotInjective` | api/src/main/java/com/sirioitalia/api/service/FurnitureService.java:49 | without that length the reference is ambiguous: furniture 1 in category 23 and furniture 12 in category 3 both give `123` |
| `Furnitures.UpdateFurnitureMergesFields` | api/src/main/java/com/sirioitalia/api/service/FurnitureService.java:66-84 | label, description, category and dimension take the patch value when supplied; weight keeps the stored value iff the patch weight is 0; id and items never change |
| `Furnitures.EmptyFurniturePatchIsIdentity` | api/src/main/java/com/sirioitalia/api/service/FurnitureService.java:62-87 | a patch with nothing supplied and weight 0 leaves the furniture unchanged |
| `Furnitures.UpdateFurnitureIdempotent` | api/src/main/java/com/sirioitalia/api/service/FurnitureService.java:62-87 | applying the same patch twice gives the same result as applying it once |
| `AuthenticationFilter.AsciiBytes` | api/src/main/java/com/sirioitalia/api/security/filter/CustomAuthenticationFilter.java:60 | the UTF-8 bytes of an ASCII string are its character codes, one per character |
| `AuthenticationFilter.SigningKeyIsSecret` | api/src/main/java/com/sirioitalia/api/security/filter/CustomAuthenticationFilter.java:60 | both tokens are signed with HMAC256 keyed by the six bytes of `secret` |
| `AuthenticationFilter.Parameter` | api/src/main/java/com/sirioitalia/api/security/filter/CustomAuthenticationFilter.java:42-43 | a request parameter is its value when present and null when absent |
| `AuthenticationFilter.AttemptAuthentication` | api/src/main/java/com/sirioitalia/api/security/filter/CustomAuthenticationFilter.java:41-49 | the authentication manager decides on a token whose principal is the `email` parameter and whose credentials are the `password` parameter, both unchanged |
| `AuthenticationFilter.AttemptAuthenticationReadsOnlyCredentials` | api/src/main/java/com/sirioitalia/api/security/filter/CustomAuthenticationFilter.java:42-48 | two requests with the same `email` and `password` parameters get the same outcome, whatever other parameters they carry |
| `AuthenticationFilter.AccessClaims` | api/src/main/java/com/sirioitalia/api/security/filter/CustomAuthenticationFilter.java:62-67 | subject is the username, issuer the request URL, expiry after the clock reading, and `roles` the authorities in order; exact values in `TokenClaims` |
| `AuthenticationFilter.RefreshClaims` | api/src/main/java/com/sirioitalia/api/security/filter/CustomAuthenticationFilter.java:69-73 | same subject and issuer, expiry after the clock reading, no `roles` claim; exact values in `TokenClaims` |
| `AuthenticationFilter.SuccessfulAuthentication` | api/src/main/java/com/sirioitalia/api/security/filter/CustomAuthenticationFilter.java:57-81 | the map has exactly the keys `jwt`, `jwt_refresh`, `userRight` and `sessionUserId`: the two signed claim sets, then the role label and id of the user holding the username; an unknown username gives NOT_FOUND |
| `AuthenticationFilter.TokenClaims` | api/src/main/java/com/sirioitalia/api/security/filter/CustomAuthenticationFilter.java:62-73 | both tokens have the username as subject and the request URL as issuer. Access expires at now + 216000 ms and carries the authorities in order as `roles`. Refresh expires at now + 1200000 ms and has no roles. For one clock reading refresh expires strictly later, and in general unless the clock went back by at least 984000 ms |

## Left out

- Cryptography: PBKDF2 `encode` and `matches` and the HMAC signature are not modelled; they are function parameters. The service holds `matches`. `EncodePassword`, `CreateUser`, `PasswordToStore`, `ApplyPatch` and `UpdateUser` each take the `encode` of their own call, so two calls may draw different salts.
- Whether `encode`'s output has exactly one `:` is not decided by the model. It is a hypothesis of the round-trip lemmas, and outputs of any other shape are modelled as Java's `split` treats them.
- The authentication manager is a parameter. Its wiring in SecurityConfiguration.java (a DAO provider over `loadUserByUsername` and the PBKDF2 encoder) is not part of this model. `unsuccessfulAuthentication` only defers to the framework.
- Servlet and JSON I/O are not modelled. The request is reduced to its parameters, a map from name to value, and its URL, a string. The response content type and writing the map with an `ObjectMapper` are left out.
- Projections are not modelled: `UserProjection`, `FurnitureProjection` and `ProjectionFactory`. Operations return the whole entity.
- The `sessionUserId` value is the projection's `getId()`. It is modelled as the decimal string of the user id, because the projection type is not part of this model.
- `getUsers` and `getFurnitures` are not modelled. They only return the repository's contents.
- Exception messages and causes are not modelled; only the exception kind and the HTTP status are kept. The status of the two-argument `ResourceException` constructor is unknown here and is modelled as `Unstated`.
- The unique-email constraint is assumed, because the User entity mapping is not part of this model. The model treats a save that would give two users the same email as a failure. This is what makes `findByEmail` well defined.
- The status of an email clash is assumed. `createUser` and `updateUser` report it as INTERNAL_SERVER_ERROR with nothing saved. For `updateUser` the source's `save` merges a managed entity, so the violation may only surface at flush or commit, after the catch at UserService.java:122-124.
- An address is a value owned by one user. The source sets the fields of the stored `Address` object in place. If two users shared one address row, the other user would see the change, and the model's "only this user changes" would not describe it.
- Other database constraints and save failures are not modelled. Ids come from a counter and are not reused. `createUser` and `createFurniture` always allocate a new id, even if the request body carries one. In the source, `save` of a body that carries an existing id merges into that row instead.
- `Users.UserService.LoadUserByUsername`: a null role label is not modelled. A blank one fails with IllegalArgumentException, as the granted authority refuses it.
- `Furnitures.FurnitureService.DeleteFurniture`: the items that reference the deleted furniture are not modelled. The source's delete either cascades to them or fails on the item table's foreign key at commit; which one depends on the entity mapping, which is not part of this model. The model leaves the item repository unchanged.
- Null stored fields are not modelled, except the address, category and dimension references. A null plaintext in `createUser` is also not modelled.
- Furniture weight is a `double` in the source and is not modelled as floating point. It is an integer whose zero means "not supplied", so `-0.0` and NaN are not modelled.
- Ids and clock values are unbounded integers: 64-bit overflow of `Long` and of `now + lifetime` is not modelled. Truncating the expiry to whole seconds in the serialized `exp` claim is left to the signer.
- Spring's user details keep authorities sorted. This does not matter here, because `loadUserByUsername` gives a single authority. The filter's `roles` claim follows the principal's authority order as given.
- SecurityConfiguration.java (filter chain and CORS setup), UserInfo.jsx (React display) and ColorRepository.java (an empty repository interface) are not part of this model.
