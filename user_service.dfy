/** UserService: lookups, creation, deletion and the partial update of users
    kept in a repository, plus the `UserDetailsService` hook that hands Spring
    Security a user's stored credentials. The repository is an in-memory map
    from id to user; the password encoder is a pair of functions. */
module Users {
  import opened Common
  import opened PasswordFormat

  datatype Address = Address(city: string, streetName: string, streetNumber: string, zipCode: string)

  /** A user as stored. `address` is a nullable reference. */
  datatype User = User(
    id: int,
    email: string,
    firstName: string,
    lastName: string,
    passwordHash: string,
    passwordSalt: string,
    address: Option<Address>,
    phoneNumber: string,
    roleLabel: string)

  /** The request body of an update: null (None) means "keep the stored value".
      `password` is the plaintext carried in the body's passwordHash field. */
  datatype AddressPatch = AddressPatch(
    city: Option<string>,
    streetName: Option<string>,
    streetNumber: Option<string>,
    zipCode: Option<string>)

  datatype UserPatch = UserPatch(
    email: Option<string>,
    firstName: Option<string>,
    lastName: Option<string>,
    password: Option<string>,
    address: Option<AddressPatch>,
    phoneNumber: Option<string>)

  const EmptyPatch := UserPatch(None, None, None, None, None, None)

  /** The password encoder: `encode` stands for one call of the encoder (its
      random salt included), `matches(raw, stored)` for its verification.
      The service holds `matches` and is handed a fresh `encode` per call. */
  datatype PasswordEncoder = PasswordEncoder(encode: string -> string, matches: (string, string) -> bool)

  /** What `loadUserByUsername` hands to Spring Security. */
  datatype UserDetails = UserDetails(username: string, password: string, authorities: seq<string>)

  /** The `"hash:salt"` string the encoder's `matches` is given. */
  function StoredPassword(u: User): string
  {
    JoinHashAndSalt(u.passwordHash, u.passwordSalt)
  }

  /** An update re-encodes the password only when one is supplied and the
      encoder does not match it against the stored one. */
  predicate NeedsReencoding(u: User, patch: UserPatch, encoder: PasswordEncoder)
  {
    patch.password.Some? && !encoder.matches(patch.password.value, StoredPassword(u))
  }

  function MergeAddress(stored: Address, patch: AddressPatch): Address
  {
    Address(
      KeepUnlessSupplied(stored.city, patch.city),
      KeepUnlessSupplied(stored.streetName, patch.streetName),
      KeepUnlessSupplied(stored.streetNumber, patch.streetNumber),
      KeepUnlessSupplied(stored.zipCode, patch.zipCode))
  }

  /** The hash and salt an update stores: the split re-encoding when the
      password needs re-encoding, the stored pair otherwise. */
  function HashAndSaltToStore(u: User, patch: UserPatch, encoder: PasswordEncoder): Result<HashAndSalt>
  {
    if NeedsReencoding(u, patch, encoder) then SplitHashAndSalt(encoder.encode(patch.password.value))
    else Success(HashAndSalt(u.passwordHash, u.passwordSalt))
  }

  /** The user `updateUser` hands to `save`, or the exception raised while
      building it: splitting an encoder output with fewer than two parts, or
      dereferencing the stored address when it is null. */
  function UpdatedUser(u: User, patch: UserPatch, encoder: PasswordEncoder): (r: Result<User>)
    ensures r.Failure? ==> r.error == ArrayIndexOutOfBoundsException || r.error == NullPointerException
    ensures r.Success? ==> r.value.id == u.id && r.value.roleLabel == u.roleLabel
    // the stored pair is kept, or replaced by two colon-free parts of a new encoding
    ensures r.Success? ==>
              || (r.value.passwordHash == u.passwordHash && r.value.passwordSalt == u.passwordSalt)
              || (':' !in r.value.passwordHash && ':' !in r.value.passwordSalt)
  {
    var hashed := HashAndSaltToStore(u, patch, encoder);
    if hashed.Failure? then Failure(hashed.error)
    else if patch.address.Some? && u.address.None? then Failure(NullPointerException)
    else
      Success(User(
        u.id,
        KeepUnlessSupplied(u.email, patch.email),
        KeepUnlessSupplied(u.firstName, patch.firstName),
        KeepUnlessSupplied(u.lastName, patch.lastName),
        hashed.value.hash,
        hashed.value.salt,
        if patch.address.Some? then Some(MergeAddress(u.address.value, patch.address.value)) else u.address,
        KeepUnlessSupplied(u.phoneNumber, patch.phoneNumber),
        u.roleLabel))
  }

  /** The user `createUser` saves under `id`: the plaintext in the
      passwordHash field replaced by the split output of this call's `encode`. */
  function NewUser(details: User, id: int, encode: string -> string): (r: Result<User>)
    ensures r.Success? <==> |Split(encode(details.passwordHash))| >= 2
    ensures r.Failure? ==> r.error == ArrayIndexOutOfBoundsException
    ensures r.Success? ==>
              && r.value.id == id && r.value.email == details.email && r.value.roleLabel == details.roleLabel
              && ':' !in r.value.passwordHash && ':' !in r.value.passwordSalt
              && JoinHashAndSalt(r.value.passwordHash, r.value.passwordSalt) <= encode(details.passwordHash)
    ensures r.Success? ==>
              HashAndSalt(r.value.passwordHash, r.value.passwordSalt) == SplitHashAndSalt(encode(details.passwordHash)).value
    ensures r.Success? ==>
              r.value.(id := details.id, passwordHash := details.passwordHash, passwordSalt := details.passwordSalt) == details
  {
    var hashed := SplitHashAndSalt(encode(details.passwordHash));
    if hashed.Failure? then Failure(hashed.error)
    else
      SplitKeepsPrefix(encode(details.passwordHash));
      Success(details.(id := id, passwordHash := hashed.value.hash, passwordSalt := hashed.value.salt))
  }

  /** The user table's unique constraint on email. */
  ghost predicate EmailsUnique(users: map<int, User>)
  {
    forall i, j :: i in users && j in users && users[i].email == users[j].email ==> i == j
  }

  /** No user other than the one under `id` holds `email`: saving a user with
      that email under `id` keeps the constraint. */
  predicate EmailFreeFor(users: map<int, User>, id: int, email: string)
  {
    forall j :: j in users && j != id ==> users[j].email != email
  }

  /** Every user is stored under its own id. */
  ghost predicate KeyedById(users: map<int, User>)
  {
    forall id :: id in users ==> users[id].id == id
  }

  /** `Character.isWhitespace`: the Unicode space, line and paragraph
      separators except the three no-break spaces, the controls from tab to
      carriage return, and the four separators U+001C to U+001F. */
  predicate IsWhitespace(c: char)
  {
    || c == ' ' || '\t' <= c <= '\r' || '\U{1C}' <= c <= '\U{1F}'
    || c == '\U{1680}' || ('\U{2000}' <= c <= '\U{200A}' && c != '\U{2007}')
    || c == '\U{2028}' || c == '\U{2029}' || c == '\U{205F}' || c == '\U{3000}'
  }

  /** Spring's `StringUtils.hasText`: some character is not whitespace. */
  predicate HasText(s: string)
  {
    exists i :: 0 <= i < |s| && !IsWhitespace(s[i])
  }

  predicate HasEmail(users: map<int, User>, email: string)
  {
    exists id :: id in users && users[id].email == email
  }

  /** `findByEmail`: the one user holding `email`, if any. */
  function FindByEmail(users: map<int, User>, email: string): (r: Option<User>)
    requires EmailsUnique(users) && KeyedById(users)
    ensures r.Some? <==> HasEmail(users, email)
    ensures r.Some? ==> r.value.id in users && r.value == users[r.value.id] && r.value.email == email
    ensures r.Some? ==> forall id :: id in users && users[id].email == email ==> users[id] == r.value
  {
    if HasEmail(users, email) then
      var id :| id in users && users[id].email == email;
      Some(users[id])
    else None
  }

  /** Saving a user under its own id, with an email no other user holds,
      keeps the repository keyed by id and emails unique. */
  lemma SaveKeepsEmailsUnique(users: map<int, User>, id: int, u: User)
    requires EmailsUnique(users) && KeyedById(users)
    requires EmailFreeFor(users, id, u.email) && u.id == id
    ensures EmailsUnique(users[id := u]) && KeyedById(users[id := u])
  {
  }

  class UserService {
    /** The repository: every saved user under its id. */
    var users: map<int, User>
    /** The id the repository gives the next saved user. */
    var nextId: int
    /** The encoder's verification; each encoding call brings its own `encode`. */
    const matches: (string, string) -> bool

    ghost predicate Valid()
      reads this
    {
      && EmailsUnique(users)
      && KeyedById(users)
      && forall id :: id in users ==> id < nextId
    }

    constructor (matches: (string, string) -> bool)
      ensures Valid() && users == map[] && this.matches == matches
    {
      users := map[];
      nextId := 1;
      this.matches := matches;
    }

    /** `getUserById`: the stored user, or NOT_FOUND. */
    method GetUserById(id: int) returns (r: Result<User>)
      requires Valid()
      ensures r.Success? <==> id in users
      ensures r.Success? ==> r.value == users[id] && r.value.id == id
      ensures r.Failure? ==> r.error == ResourceException(NotFound)
    {
      if id in users {
        r := Success(users[id]);
      } else {
        r := Failure(ResourceException(NotFound));
      }
    }

    /** `getUserByEmail`: the user holding `email`, or NOT_FOUND. */
    method GetUserByEmail(email: string) returns (r: Result<User>)
      requires Valid()
      ensures r.Success? <==> HasEmail(users, email)
      ensures r.Success? ==> r.value.id in users && users[r.value.id] == r.value && r.value.email == email
      ensures r.Failure? ==> r.error == ResourceException(NotFound)
    {
      var found := FindByEmail(users, email);
      if found.None? {
        r := Failure(ResourceException(NotFound));
      } else {
        r := Success(found.value);
      }
    }

    /** `deleteUser`: removes exactly `id`; a missing id throws the
        two-argument ResourceException and leaves the repository alone. */
    method DeleteUser(id: int) returns (thrown: Option<Failure>)
      requires Valid()
      modifies this
      ensures Valid() && nextId == old(nextId)
      ensures thrown.None? <==> id in old(users)
      ensures thrown.None? ==> users == old(users) - {id}
      ensures thrown.Some? ==> thrown.value == ResourceException(Unstated) && users == old(users)
    {
      if id !in users {
        thrown := Some(ResourceException(Unstated));
        return;
      }
      users := users - {id};
      thrown := None;
    }

    /** `encodePassword`: encodes once and fills a map with part 0 of the
        split output as "hash" and part 1 as "salt". */
    method EncodePassword(password: string, encode: string -> string) returns (r: Result<map<string, string>>)
      ensures r.Success? <==> SplitHashAndSalt(encode(password)).Success?
      ensures r.Failure? ==> r.error == ArrayIndexOutOfBoundsException
      ensures r.Success? ==>
                && r.value.Keys == {"hash", "salt"}
                && HashAndSalt(r.value["hash"], r.value["salt"]) == SplitHashAndSalt(encode(password)).value
                && ':' !in r.value["hash"] && ':' !in r.value["salt"]
                && JoinHashAndSalt(r.value["hash"], r.value["salt"]) <= encode(password)
      ensures r.Success? && ColonCount(encode(password)) == 1 ==>
                JoinHashAndSalt(r.value["hash"], r.value["salt"]) == encode(password)
    {
      var encoded := encode(password);
      var hashAndSalt := Split(encoded);
      if |hashAndSalt| < 2 {
        r := Failure(ArrayIndexOutOfBoundsException);
        return;
      }
      var hashed: map<string, string> := map[];
      hashed := hashed["hash" := hashAndSalt[0]];
      hashed := hashed["salt" := hashAndSalt[1]];
      SplitThenJoin(encoded);
      r := Success(hashed);
    }

    /** `createUser`: stores the split encoding of the plaintext carried in
        the passwordHash field under a fresh id. Every failure, a clash with
        the unique email included, surfaces as INTERNAL_SERVER_ERROR and
        saves nothing. */
    method CreateUser(details: User, encode: string -> string) returns (r: Result<User>)
      requires Valid()
      modifies this
      ensures Valid()
      ensures r.Success? <==> NewUser(details, old(nextId), encode).Success? && !HasEmail(old(users), details.email)
      ensures r.Success? ==>
                && r.value == NewUser(details, old(nextId), encode).value
                && old(nextId) !in old(users)
                && users == old(users)[old(nextId) := r.value]
      ensures r.Failure? ==> r.error == ResourceException(InternalServerError) && users == old(users)
    {
      var hashed := EncodePassword(details.passwordHash, encode);
      if hashed.Failure? {
        r := Failure(ResourceException(InternalServerError));
        return;
      }
      var user := details;
      user := user.(passwordHash := hashed.value["hash"]);
      user := user.(passwordSalt := hashed.value["salt"]);
      if !EmailFreeFor(users, nextId, user.email) {
        r := Failure(ResourceException(InternalServerError));
        return;
      }
      user := user.(id := nextId);
      SaveKeepsEmailsUnique(users, nextId, user);
      users := users[nextId := user];
      nextId := nextId + 1;
      r := Success(user);
    }

    /** The setters `updateUser` calls on the stored address. */
    static method ApplyAddressPatch(stored: Address, details: AddressPatch) returns (address: Address)
      ensures address == MergeAddress(stored, details)
    {
      address := stored;
      address := address.(city := if details.city.None? then address.city else details.city.value);
      address := address.(streetName := if details.streetName.None? then address.streetName else details.streetName.value);
      address := address.(streetNumber := if details.streetNumber.None? then address.streetNumber else details.streetNumber.value);
      address := address.(zipCode := if details.zipCode.None? then address.zipCode else details.zipCode.value);
    }

    /** The password step of `updateUser`: a supplied password that does not
        match the stored `"hash:salt"` is encoded again and split. */
    method PasswordToStore(user: User, patch: UserPatch, encode: string -> string) returns (r: Result<HashAndSalt>)
      ensures r == HashAndSaltToStore(user, patch, PasswordEncoder(encode, matches))
    {
      if patch.password.Some? {
        var formatted := JoinHashAndSalt(user.passwordHash, user.passwordSalt);
        if !matches(patch.password.value, formatted) {
          var hashed := EncodePassword(patch.password.value, encode);
          if hashed.Failure? {
            r := Failure(hashed.error);
            return;
          }
          r := Success(HashAndSalt(hashed.value["hash"], hashed.value["salt"]));
          return;
        }
      }
      r := Success(HashAndSalt(user.passwordHash, user.passwordSalt));
    }

    /** The setter sequence of `updateUser` on the fetched user: each field
        the patch supplies overwrites the stored one, a supplied password the
        encoder does not match is re-encoded, and a supplied address is merged
        into the stored one field by field. */
    method ApplyPatch(found: User, patch: UserPatch, encode: string -> string) returns (r: Result<User>)
      ensures r == UpdatedUser(found, patch, PasswordEncoder(encode, matches))
    {
      ghost var saved := UpdatedUser(found, patch, PasswordEncoder(encode, matches));
      var user := found;
      user := user.(email := if patch.email.None? then user.email else patch.email.value);
      user := user.(firstName := if patch.firstName.None? then user.firstName else patch.firstName.value);
      user := user.(lastName := if patch.lastName.None? then user.lastName else patch.lastName.value);
      assert user == found.(email := KeepUnlessSupplied(found.email, patch.email),
                            firstName := KeepUnlessSupplied(found.firstName, patch.firstName),
                            lastName := KeepUnlessSupplied(found.lastName, patch.lastName));
      var hashed := PasswordToStore(user, patch, encode);
      if hashed.Failure? {
        r := Failure(hashed.error);
        return;
      }
      user := user.(passwordHash := hashed.value.hash);
      user := user.(passwordSalt := hashed.value.salt);
      if patch.address.Some? {
        if user.address.None? {
          r := Failure(NullPointerException);
          return;
        }
        var address := ApplyAddressPatch(user.address.value, patch.address.value);
        user := user.(address := Some(address));
      }
      user := user.(phoneNumber := if patch.phoneNumber.None? then user.phoneNumber else patch.phoneNumber.value);
      assert saved.Success?;
      assert user == saved.value;
      r := Success(user);
    }

    /** `updateUser`: applies the patch to the stored user and saves it.
        Every failure, a missing id included, surfaces as
        INTERNAL_SERVER_ERROR and saves nothing. */
    method UpdateUser(id: int, patch: UserPatch, encode: string -> string) returns (r: Result<User>)
      requires Valid()
      modifies this
      ensures Valid() && nextId == old(nextId)
      ensures r.Success? <==>
                && id in old(users)
                && UpdatedUser(old(users)[id], patch, PasswordEncoder(encode, matches)).Success?
                && EmailFreeFor(old(users), id, UpdatedUser(old(users)[id], patch, PasswordEncoder(encode, matches)).value.email)
      ensures r.Success? ==>
                r.value == UpdatedUser(old(users)[id], patch, PasswordEncoder(encode, matches)).value && users == old(users)[id := r.value]
      ensures r.Failure? ==> r.error == ResourceException(InternalServerError) && users == old(users)
    {
      if id !in users {
        r := Failure(ResourceException(InternalServerError));
        return;
      }
      var updated := ApplyPatch(users[id], patch, encode);
      if updated.Failure? || !EmailFreeFor(users, id, updated.value.email) {
        r := Failure(ResourceException(InternalServerError));
        return;
      }
      SaveKeepsEmailsUnique(users, id, updated.value);
      users := users[id := updated.value];
      r := updated;
    }

    /** `loadUserByUsername`: the user holding `email` as Spring Security
        user details, or UsernameNotFoundException. A granted authority
        refuses a role label without text, and Spring's user details refuse
        an empty username, both with IllegalArgumentException. */
    method LoadUserByUsername(email: string) returns (r: Result<UserDetails>)
      requires Valid()
      ensures r.Failure? <==>
                || !HasEmail(users, email)
                || email == ""
                || exists id :: id in users && users[id].email == email && !HasText(users[id].roleLabel)
      ensures !HasEmail(users, email) ==> r == Failure(UsernameNotFoundException)
      ensures HasEmail(users, email) && r.Failure? ==> r.error == IllegalArgumentException
      ensures r.Success? ==>
                exists id :: id in users && users[id].email == email && HasText(users[id].roleLabel) &&
                  r.value == UserDetails(email, StoredPassword(users[id]), [users[id].roleLabel])
    {
      var found := FindByEmail(users, email);
      if found.None? {
        r := Failure(UsernameNotFoundException);
        return;
      }
      var user := found.value;
      var authorities: seq<string> := [];
      if !HasText(user.roleLabel) {
        r := Failure(IllegalArgumentException);
        return;
      }
      authorities := authorities + [user.roleLabel];
      var formattedPassword := JoinHashAndSalt(user.passwordHash, user.passwordSalt);
      if user.email == "" {
        r := Failure(IllegalArgumentException);
        return;
      }
      r := Success(UserDetails(user.email, formattedPassword, authorities));
    }
  }

  /** Whether `updateUser` gets as far as saving: a re-encoding must split
      into two parts, and an address patch needs a stored address. */
  lemma UpdateUserOutcome(u: User, patch: UserPatch, encoder: PasswordEncoder)
    ensures UpdatedUser(u, patch, encoder).Success? <==>
              && (NeedsReencoding(u, patch, encoder) ==>
                    SplitHashAndSalt(encoder.encode(patch.password.value)).Success?)
              && (patch.address.Some? ==> u.address.Some?)
  {
  }

  /** Each profile field takes the patch value when one is supplied and keeps
      the stored one otherwise; a null address patch keeps the whole stored
      address, a non-null one merges it field by field. */
  lemma UpdateUserMergesFields(u: User, patch: UserPatch, encoder: PasswordEncoder)
    requires UpdatedUser(u, patch, encoder).Success?
    ensures var v := UpdatedUser(u, patch, encoder).value;
            && (if patch.email.Some? then v.email == patch.email.value else v.email == u.email)
            && (if patch.firstName.Some? then v.firstName == patch.firstName.value else v.firstName == u.firstName)
            && (if patch.lastName.Some? then v.lastName == patch.lastName.value else v.lastName == u.lastName)
            && (if patch.phoneNumber.Some? then v.phoneNumber == patch.phoneNumber.value else v.phoneNumber == u.phoneNumber)
            && (patch.address.None? ==> v.address == u.address)
            && (patch.address.Some? ==>
                  var a, p, w := u.address.value, patch.address.value, v.address.value;
                  && v.address.Some?
                  && (if p.city.Some? then w.city == p.city.value else w.city == a.city)
                  && (if p.streetName.Some? then w.streetName == p.streetName.value else w.streetName == a.streetName)
                  && (if p.streetNumber.Some? then w.streetNumber == p.streetNumber.value else w.streetNumber == a.streetNumber)
                  && (if p.zipCode.Some? then w.zipCode == p.zipCode.value else w.zipCode == a.zipCode))
  {
  }

  /** The stored hash and salt change only when a supplied password does not
      match the stored `"hash:salt"`, and then both become the split
      encoding; id and role never change. */
  lemma UpdateUserPassword(u: User, patch: UserPatch, encoder: PasswordEncoder)
    requires UpdatedUser(u, patch, encoder).Success?
    ensures var v := UpdatedUser(u, patch, encoder).value;
            && v.id == u.id && v.roleLabel == u.roleLabel
            && (!NeedsReencoding(u, patch, encoder) ==>
                  v.passwordHash == u.passwordHash && v.passwordSalt == u.passwordSalt)
            && (NeedsReencoding(u, patch, encoder) ==>
                  HashAndSalt(v.passwordHash, v.passwordSalt)
                    == SplitHashAndSalt(encoder.encode(patch.password.value)).value)
  {
  }

  /** An all-null patch saves the user unchanged. */
  lemma EmptyPatchIsIdentity(u: User, encoder: PasswordEncoder)
    ensures UpdatedUser(u, EmptyPatch, encoder) == Success(u)
  {
  }

  /** A patch without password, applied to its own result, changes nothing
      more. */
  lemma ProfilePatchIdempotent(u: User, patch: UserPatch, encoder: PasswordEncoder)
    requires patch.password.None? && UpdatedUser(u, patch, encoder).Success?
    ensures var v := UpdatedUser(u, patch, encoder).value;
            UpdatedUser(v, patch, encoder) == Success(v)
  {
  }

  /** A password the encoder matches against its own output is stored so
      that the same patch applied again leaves the user unchanged, whatever
      fresh salt the second encoding would have drawn. */
  lemma PasswordPatchIdempotent(u: User, patch: UserPatch, encoder: PasswordEncoder, again: PasswordEncoder)
    requires patch.password.Some? && UpdatedUser(u, patch, encoder).Success?
    requires again.matches == encoder.matches
    requires var e := encoder.encode(patch.password.value); ColonCount(e) == 1 && encoder.matches(patch.password.value, e)
    ensures var v := UpdatedUser(u, patch, encoder).value;
            UpdatedUser(v, patch, again) == Success(v)
  {
    var v := UpdatedUser(u, patch, encoder).value;
    if NeedsReencoding(u, patch, encoder) {
      SplitOfOneColonOutput(encoder.encode(patch.password.value));
      assert StoredPassword(v) == encoder.encode(patch.password.value);
    }
    assert !NeedsReencoding(v, patch, again);
  }

  /** What `loadUserByUsername` later hands to `matches` for a created user
      is the encoder's output itself when that output has one ':'. */
  lemma CreatedPasswordIsEncoderOutput(details: User, id: int, encode: string -> string)
    requires NewUser(details, id, encode).Success?
    requires ColonCount(encode(details.passwordHash)) == 1
    ensures StoredPassword(NewUser(details, id, encode).value) == encode(details.passwordHash)
  {
    SplitOfOneColonOutput(encode(details.passwordHash));
  }
}
