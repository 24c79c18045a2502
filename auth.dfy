/**
 * The auth routes: a `users` table with a unique, lower-case email column,
 * registration and login.
 *
 * The libraries the routes call are modelled abstractly: a bcrypt hash is a
 * symbolic term that only `Verify` inspects, a signed token is the record of
 * its claims, and zod's email check is a structural stand-in that, like the
 * real check, ignores ASCII case.
 */
module Auth {
  import opened Http

  const MaxEmail: nat := 255
  const MinRegisterPassword: nat := 8
  const MinLoginPassword: nat := 1
  const MaxPassword: nat := 200
  /** `expiresIn: "7d"`, in seconds. */
  const TokenLifetime: int := 7 * 24 * 60 * 60

  // ---------------------------------------------------------------------------
  // Case folding and the email check

  /** `toLowerCase` on one character, for the ASCII letters. */
  function LowerChar(c: char): char {
    if 'A' <= c <= 'Z' then (c as int + 32) as char else c
  }

  function Lower(s: string): (r: string)
    ensures |r| == |s|
    ensures forall i :: 0 <= i < |s| ==> r[i] == LowerChar(s[i])
  {
    if s == [] then [] else [LowerChar(s[0])] + Lower(s[1..])
  }

  lemma LowerIsIdempotent(s: string)
    ensures Lower(Lower(s)) == Lower(s)
  {
  }

  function AtCount(s: string): nat {
    if s == [] then 0 else (if s[0] == '@' then 1 else 0) + AtCount(s[1..])
  }

  lemma {:induction false} AtCountZero(s: string)
    ensures AtCount(s) == 0 <==> '@' !in s
  {
    if s != [] {
      AtCountZero(s[1..]);
      assert s == [s[0]] + s[1..];
    }
  }

  /** Exactly one '@' means an '@' with none before it and none after it. */
  lemma {:induction false} AtCountOne(s: string)
    ensures AtCount(s) == 1 <==> exists i :: 0 <= i < |s| && s[i] == '@' && '@' !in s[..i] && '@' !in s[i + 1..]
  {
    if s != [] {
      var t := s[1..];
      AtCountZero(t);
      AtCountOne(t);
      if s[0] == '@' {
        if AtCount(s) == 1 {
          assert s[..0] == [] && s[1..] == t;
        }
        forall i | 0 < i < |s| ensures '@' in s[..i] {
          assert s[..i][0] == '@';
        }
      } else {
        if AtCount(s) == 1 {
          var j :| 0 <= j < |t| && t[j] == '@' && '@' !in t[..j] && '@' !in t[j + 1..];
          assert s[..j + 1] == [s[0]] + t[..j];
          assert s[j + 2..] == t[j + 1..];
          assert s[j + 1] == '@';
        }
        if exists i :: 0 <= i < |s| && s[i] == '@' && '@' !in s[..i] && '@' !in s[i + 1..] {
          var i :| 0 <= i < |s| && s[i] == '@' && '@' !in s[..i] && '@' !in s[i + 1..];
          assert i > 0;
          assert t[..i - 1] == s[1..i];
          assert s[..i] == [s[0]] + s[1..i];
          assert t[i..] == s[i + 1..];
          assert t[i - 1] == '@';
        }
      }
    }
  }

  /**
   * Stands for zod's `.email()`: exactly one '@', neither first nor last
   * (see `IsEmailShape`).
   */
  predicate IsEmail(s: string) {
    0 < |s| && AtCount(s) == 1 && s[0] != '@' && s[|s| - 1] != '@'
  }

  /** The addresses the check accepts: a non-empty part on each side of the only '@'. */
  lemma IsEmailShape(s: string)
    ensures IsEmail(s) <==> exists i :: 0 < i < |s| - 1 && s[i] == '@' && '@' !in s[..i] && '@' !in s[i + 1..]
  {
    AtCountOne(s);
  }

  lemma {:induction false} AtCountIgnoresCase(s: string)
    ensures AtCount(Lower(s)) == AtCount(s)
  {
    if s != [] {
      assert Lower(s)[1..] == Lower(s[1..]);
      AtCountIgnoresCase(s[1..]);
    }
  }

  /** The email check gives the same answer for every ASCII casing of an address. */
  lemma EmailCheckIgnoresCase(s: string)
    ensures IsEmail(Lower(s)) == IsEmail(s)
  {
    AtCountIgnoresCase(s);
  }

  // ---------------------------------------------------------------------------
  // Password hashing

  /**
   * A bcrypt hash as a symbolic term: the salt drawn when it was computed and
   * the password it was computed from. Only `Verify` looks inside it.
   */
  datatype PasswordHash = Bcrypt(salt: nat, password: string)

  /**
   * `bcrypt.hash(password, 12)` with the salt it draws: whatever the salt,
   * the password verifies against its own hash and no other password does.
   */
  function Hash(password: string, salt: nat): (h: PasswordHash)
    ensures h.salt == salt
    ensures Verify(password, h)
    ensures forall other :: Verify(other, h) ==> other == password
  {
    Bcrypt(salt, password)
  }

  /** `bcrypt.compare(password, hash)`: accepts exactly the hashes of `password`, under any salt. */
  function Verify(password: string, h: PasswordHash): (ok: bool)
    ensures ok <==> exists salt :: h == Bcrypt(salt, password)
  {
    assert h == Bcrypt(h.salt, h.password);
    h.password == password
  }

  // ---------------------------------------------------------------------------
  // Tokens

  function Digit(d: nat): (c: char)
    requires d < 10
    ensures '0' <= c <= '9'
  {
    ('0' as int + d) as char
  }

  /** `String(id)` for a non-negative integer: its decimal digits, without leading zeros. */
  function DecimalString(n: nat): (s: string)
    ensures 0 < |s|
    decreases n
  {
    if n < 10 then [Digit(n)] else DecimalString(n / 10) + [Digit(n % 10)]
  }

  /** Reads a non-empty string of decimal digits back as a number. */
  function ParseDecimal(s: string): Option<nat>
    decreases |s|
  {
    if s == [] || !('0' <= s[|s| - 1] <= '9') then None
    else
      var d := s[|s| - 1] as int - '0' as int;
      if |s| == 1 then Some(d)
      else match ParseDecimal(s[..|s| - 1])
        case None => None
        case Some(v) => Some(10 * v + d)
  }

  /** The subject of a token decodes to the id it was made from. */
  lemma {:induction false} ParseDecimalString(n: nat)
    ensures ParseDecimal(DecimalString(n)) == Some(n)
    decreases n
  {
    if n >= 10 {
      var s := DecimalString(n);
      assert s[..|s| - 1] == DecimalString(n / 10);
      ParseDecimalString(n / 10);
    }
  }

  /** What a client is told about a user: never the hash. */
  datatype PublicUser = PublicUser(id: UserId, email: string)

  /** The claims of a signed token: `sub`, the `email` claim and the expiry. */
  datatype Token = Token(sub: string, email: string, exp: int)

  /** `signToken`: subject `String(user.id)`, claim `email`, expiring 7 days after `now`. */
  function SignToken(user: PublicUser, now: int): (t: Token)
    ensures ParseDecimal(t.sub) == Some(user.id)
    ensures t.email == user.email
    ensures t.exp == now + TokenLifetime
  {
    ParseDecimalString(user.id);
    Token(DecimalString(user.id), user.email, now + TokenLifetime)
  }

  // ---------------------------------------------------------------------------
  // Request validation

  datatype Credentials = Credentials(email: string, password: string)

  /** `z.string().email().max(255)` on member "email". */
  predicate EmailMemberOk(members: map<string, Value>) {
    "email" in members && members["email"].Str?
    && |members["email"].s| <= MaxEmail && IsEmail(members["email"].s)
  }

  /** `z.string().min(min).max(200)` on member "password". */
  predicate PasswordMemberOk(members: map<string, Value>, min: nat) {
    "password" in members && members["password"].Str?
    && min <= |members["password"].s| <= MaxPassword
  }

  function CheckCredentials(b: Body, minPassword: nat): Option<Credentials> {
    match (Member(b, "email"), Member(b, "password"))
    case (Some(Str(email)), Some(Str(password))) =>
      if |email| <= MaxEmail && IsEmail(email) && minPassword <= |password| <= MaxPassword
      then Some(Credentials(email, password))
      else None
    case _ => None
  }

  /** `registerSchema`: an email of at most 255 characters and a password of 8 to 200. */
  function RegisterSchema(b: Body): (c: Option<Credentials>)
    ensures c.Some? <==> b.Object? && EmailMemberOk(b.members) && PasswordMemberOk(b.members, MinRegisterPassword)
    ensures c.Some? ==> c.value == Credentials(b.members["email"].s, b.members["password"].s)
  {
    CheckCredentials(b, MinRegisterPassword)
  }

  /** `loginSchema`: the same email check and a password of 1 to 200 characters. */
  function LoginSchema(b: Body): (c: Option<Credentials>)
    ensures c.Some? <==> b.Object? && EmailMemberOk(b.members) && PasswordMemberOk(b.members, MinLoginPassword)
    ensures c.Some? ==> c.value == Credentials(b.members["email"].s, b.members["password"].s)
  {
    CheckCredentials(b, MinLoginPassword)
  }

  // ---------------------------------------------------------------------------
  // The users table and the two routes, as functions of the table

  datatype Account = Account(id: UserId, hash: PasswordHash)

  /** The `users` table, keyed by its UNIQUE email column. */
  type Users = map<string, Account>

  /**
   * What holds of the table between requests: every stored email passed the
   * email check and is already lower-case, ids are distinct and below the
   * next value of the sequence.
   */
  ghost predicate WellFormed(users: Users, nextId: UserId) {
    1 <= nextId && AccountsBelow(users, nextId) && IdsDistinct(users)
  }

  ghost predicate AccountsBelow(users: Users, nextId: UserId) {
    forall e :: e in users ==> Lower(e) == e && IsEmail(e) && |e| <= MaxEmail && 1 <= users[e].id < nextId
  }

  ghost predicate IdsDistinct(users: Users) {
    forall e1, e2 :: e1 in users && e2 in users && users[e1].id == users[e2].id ==> e1 == e2
  }

  datatype AuthReply =
    | Registered(token: Token, user: PublicUser)  // 201 { token, user }
    | LoggedIn(token: Token, user: PublicUser)    // 200 { token, user }
    | InvalidInput                                // 400 { error: "Invalid input", details }
    | EmailTaken                                  // 409 { error: "Email already registered" }
    | InvalidCredentials                          // 401 { error: "Invalid credentials" }

  function Status(r: AuthReply): int {
    match r
    case Registered(_, _) => 201
    case LoggedIn(_, _) => 200
    case InvalidInput => 400
    case EmailTaken => 409
    case InvalidCredentials => 401
  }

  /**
   * POST /register: validate, hash, and insert the lower-cased email under the
   * id `newId` the sequence hands out; an email already present is a 409.
   */
  function RegisterOutcome(users: Users, b: Body, newId: UserId, salt: nat, now: int): (o: Outcome<AuthReply, Users>)
    ensures RegisterSchema(b).None? ==> o == Outcome(InvalidInput, users)
    ensures RegisterSchema(b).Some? && Lower(RegisterSchema(b).value.email) in users ==> o == Outcome(EmailTaken, users)
    ensures RegisterSchema(b).Some? && Lower(RegisterSchema(b).value.email) !in users ==> o.reply.Registered?
    ensures !o.reply.Registered? ==> o.table == users
    ensures o.reply.Registered? ==>
      var c := RegisterSchema(b).value;
      var key := Lower(c.email);
      && RegisterSchema(b).Some? && key !in users
      && o.table.Keys == users.Keys + {key}
      && (forall e :: e in users ==> o.table[e] == users[e])
      && o.table[key].id == newId
      && Verify(c.password, o.table[key].hash)
      && o.reply.user == PublicUser(newId, key)
      && o.reply.token == SignToken(o.reply.user, now)
      && ParseDecimal(o.reply.token.sub) == Some(newId)
      && o.reply.token.email == key
      && o.reply.token.exp == now + TokenLifetime
    ensures Status(o.reply) in {201, 400, 409}
  {
    match RegisterSchema(b)
    case None => Outcome(InvalidInput, users)
    case Some(c) =>
      var hash := Hash(c.password, salt);
      var key := Lower(c.email);
      if key in users then Outcome(EmailTaken, users)
      else
        var user := PublicUser(newId, key);
        Outcome(Registered(SignToken(user, now), user), users[key := Account(newId, hash)])
  }

  /**
   * POST /login: validate, look the lower-cased email up and verify the
   * password. A missing user and a wrong password get the same 401.
   */
  function LoginReply(users: Users, b: Body, now: int): (r: AuthReply)
    ensures r == InvalidInput <==> LoginSchema(b).None?
    ensures r == InvalidCredentials <==>
      && LoginSchema(b).Some?
      && var c := LoginSchema(b).value;
        Lower(c.email) !in users || !Verify(c.password, users[Lower(c.email)].hash)
    ensures r.LoggedIn? ==>
      var c := LoginSchema(b).value;
      var key := Lower(c.email);
      && LoginSchema(b).Some? && key in users && Verify(c.password, users[key].hash)
      && r.user == PublicUser(users[key].id, key)
      && r.token == SignToken(r.user, now)
      && ParseDecimal(r.token.sub) == Some(users[key].id)
      && r.token.email == key
      && r.token.exp == now + TokenLifetime
    ensures Status(r) in {200, 400, 401}
  {
    match LoginSchema(b)
    case None => InvalidInput
    case Some(c) =>
      var key := Lower(c.email);
      if key !in users then InvalidCredentials
      else if !Verify(c.password, users[key].hash) then InvalidCredentials
      else
        var user := PublicUser(users[key].id, key);
        LoggedIn(SignToken(user, now), user)
  }

  // ---------------------------------------------------------------------------
  // Properties that relate several requests

  /** Registering keeps the table well formed when `newId` is the next value of the sequence. */
  lemma RegisterKeepsWellFormed(users: Users, nextId: UserId, b: Body, salt: nat, now: int)
    requires WellFormed(users, nextId)
    ensures var o := RegisterOutcome(users, b, nextId, salt, now);
      WellFormed(o.table, if o.reply.Registered? then nextId + 1 else nextId)
  {
    var o := RegisterOutcome(users, b, nextId, salt, now);
    if o.reply.Registered? {
      var c := RegisterSchema(b).value;
      var key := Lower(c.email);
      StoredEmailOk(c.email);
      InsertKeepsWellFormed(users, nextId, key, Account(nextId, Hash(c.password, salt)));
    }
  }

  /** An address that passed the schema is stored as one that passes it too, in lower case. */
  lemma StoredEmailOk(email: string)
    requires IsEmail(email) && |email| <= MaxEmail
    ensures Lower(Lower(email)) == Lower(email) && IsEmail(Lower(email)) && |Lower(email)| <= MaxEmail
  {
    LowerIsIdempotent(email);
    EmailCheckIgnoresCase(email);
  }

  /** Adding a checked, lower-case address under the next id keeps the table well formed. */
  lemma InsertKeepsWellFormed(users: Users, nextId: UserId, key: string, a: Account)
    requires WellFormed(users, nextId) && key !in users && a.id == nextId
    requires Lower(key) == key && IsEmail(key) && |key| <= MaxEmail
    ensures WellFormed(users[key := a], nextId + 1)
  {
    InsertKeepsAccountsBelow(users, nextId, key, a);
    InsertKeepsIdsDistinct(users, nextId, key, a);
  }

  lemma InsertKeepsAccountsBelow(users: Users, nextId: UserId, key: string, a: Account)
    requires 1 <= nextId && AccountsBelow(users, nextId) && a.id == nextId
    requires Lower(key) == key && IsEmail(key) && |key| <= MaxEmail
    ensures AccountsBelow(users[key := a], nextId + 1)
  {
    var after := users[key := a];
    forall e | e in after
      ensures Lower(e) == e && IsEmail(e) && |e| <= MaxEmail && 1 <= after[e].id < nextId + 1
    {
      if e != key {
        assert after[e] == users[e];
      }
    }
  }

  lemma InsertKeepsIdsDistinct(users: Users, nextId: UserId, key: string, a: Account)
    requires AccountsBelow(users, nextId) && IdsDistinct(users) && key !in users && a.id == nextId
    ensures IdsDistinct(users[key := a])
  {
    var after := users[key := a];
    forall e1, e2 | e1 in after && e2 in after && after[e1].id == after[e2].id
      ensures e1 == e2
    {
      if e1 != key && e2 != key {
        assert after[e1] == users[e1] && after[e2] == users[e2];
      }
    }
  }

  /**
   * Once an address is registered, logging in with any ASCII casing of it and
   * the same password succeeds, for the new user's id and the stored email.
   */
  lemma RegisterThenLogin(users: Users, rb: Body, lb: Body, newId: UserId, salt: nat, now: int, later: int, email: string)
    requires RegisterOutcome(users, rb, newId, salt, now).reply.Registered?
    requires lb.Object? && "email" in lb.members && lb.members["email"] == Str(email)
    requires Lower(email) == Lower(RegisterSchema(rb).value.email)
    requires "password" in lb.members && lb.members["password"] == Str(RegisterSchema(rb).value.password)
    ensures var key := Lower(email);
      LoginReply(RegisterOutcome(users, rb, newId, salt, now).table, lb, later)
        == LoggedIn(SignToken(PublicUser(newId, key), later), PublicUser(newId, key))
  {
    var original := RegisterSchema(rb).value.email;
    EmailCheckIgnoresCase(email);
    EmailCheckIgnoresCase(original);
    assert |email| == |Lower(email)| == |Lower(original)| == |original|;
    assert LoginSchema(lb).Some?;
  }

  /** Registering an address again, in any ASCII casing, is refused with 409 and changes nothing. */
  lemma RegisterTwiceConflicts(users: Users, b1: Body, b2: Body, id1: UserId, id2: UserId, salt1: nat, salt2: nat, now1: int, now2: int)
    requires RegisterOutcome(users, b1, id1, salt1, now1).reply.Registered?
    requires RegisterSchema(b2).Some?
    requires Lower(RegisterSchema(b2).value.email) == Lower(RegisterSchema(b1).value.email)
    ensures var after := RegisterOutcome(users, b1, id1, salt1, now1).table;
      RegisterOutcome(after, b2, id2, salt2, now2) == Outcome(EmailTaken, after)
  {
  }

  /**
   * A 401 says nothing about whether the address is registered: the same
   * request gets the same reply once that account is removed.
   */
  lemma InvalidCredentialsHideAccounts(users: Users, b: Body, now: int, e: string)
    requires LoginReply(users, b, now) == InvalidCredentials
    ensures LoginReply(users - {e}, b, now) == InvalidCredentials
  {
  }

  /**
   * In a well-formed table every stored account can log in: with its email
   * in any ASCII casing and a password that verifies, the reply names that
   * account's id and the email exactly as stored.
   */
  lemma StoredAccountLogsIn(users: Users, nextId: UserId, b: Body, now: int, stored: string, email: string, password: string)
    requires WellFormed(users, nextId) && stored in users
    requires b.Object? && "email" in b.members && b.members["email"] == Str(email) && Lower(email) == Lower(stored)
    requires "password" in b.members && b.members["password"] == Str(password)
    requires MinLoginPassword <= |password| <= MaxPassword && Verify(password, users[stored].hash)
    ensures LoginReply(users, b, now) == LoggedIn(SignToken(PublicUser(users[stored].id, stored), now), PublicUser(users[stored].id, stored))
  {
    EmailCheckIgnoresCase(email);
    assert |email| == |Lower(email)| == |stored|;
    assert LoginSchema(b).Some?;
  }

  // ---------------------------------------------------------------------------
  // The table as state

  class UserRegistry {
    var users: Users
    var nextId: UserId

    ghost predicate Valid()
      reads this
    {
      WellFormed(users, nextId)
    }

    constructor ()
      ensures Valid() && users == map[] && nextId == 1
    {
      users := map[];
      nextId := 1;
    }

    /** POST /register; `salt` is what bcrypt draws, `now` the signing time. */
    method Register(b: Body, salt: nat, now: int) returns (r: AuthReply)
      requires Valid()
      modifies this
      ensures Valid()
      ensures var o := RegisterOutcome(old(users), b, old(nextId), salt, now); r == o.reply && users == o.table
      ensures nextId == if r.Registered? then old(nextId) + 1 else old(nextId)
    {
      RegisterKeepsWellFormed(users, nextId, b, salt, now);
      var c := RegisterSchema(b);
      if c.None? {
        return InvalidInput;
      }
      var hash := Hash(c.value.password, salt);
      var key := Lower(c.value.email);
      if key in users {
        return EmailTaken;
      }
      users := users[key := Account(nextId, hash)];
      var user := PublicUser(nextId, key);
      r := Registered(SignToken(user, now), user);
      nextId := nextId + 1;
    }

    /** POST /login: reads the table and changes nothing. */
    method Login(b: Body, now: int) returns (r: AuthReply)
      ensures r == LoginReply(users, b, now)
      ensures Valid() && r.LoggedIn? ==>
        && r.user.email in users
        && forall e :: e in users && users[e].id == r.user.id ==> e == r.user.email
    {
      var c := LoginSchema(b);
      if c.None? {
        return InvalidInput;
      }
      var key := Lower(c.value.email);
      if key !in users || !Verify(c.value.password, users[key].hash) {
        return InvalidCredentials;
      }
      var user := PublicUser(users[key].id, key);
      r := LoggedIn(SignToken(user, now), user);
    }
  }
}
