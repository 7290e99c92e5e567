/**
 * The credential table behind the `/register` and `/login` endpoints of
 * server.js: `userDatabase`, keyed by e-mail. bcrypt is abstracted: the
 * digest `bcrypt.hash` produced (or its failure) is a parameter, and
 * `bcrypt.compare` is an uninterpreted function.
 *
 * `/register` awaits `bcrypt.hash` between its checks and its write, so it is
 * two atomic steps: `CheckRegistration` before the await and
 * `CompleteRegistration` after it. Other requests may run in between.
 */
module Accounts {
  import opened Wrappers
  import Names

  datatype Account = Account(email: string, password: string, username: string, createdAt: string)

  type Database = map<string, Account>

  /** The JSON reply: `{ success: true, username }` or an HTTP error status with `{ error }`. */
  datatype Reply = Success(username: string) | Failure(status: nat, error: string)

  const FieldsRequired := "Email and password are required"
  const AlreadyRegistered := "Email already registered"
  const RegistrationFailed := "Registration failed"
  const InvalidCredentials := "Invalid email or password"
  const LoginFailed := "Login failed"

  /** A request-body field is truthy when it is present and not the empty string. */
  predicate Given(f: Option<string>)
  {
    f.Some? && f.value != ""
  }

  /** The outcome of `await bcrypt.hash(password, 10)`. */
  datatype Hashed = Digest(digest: string) | HashThrew

  /** The outcome of `await bcrypt.compare(password, user.password)`. */
  datatype Verdict = Match | Mismatch | CompareThrew

  /**
   * `/register` up to the await: an early reply (status 400) when e-mail or
   * password is missing or the e-mail is taken, None to go on.
   */
  function CheckRegistration(db: Database, email: Option<string>, password: Option<string>): (early: Option<Reply>)
    ensures early.None? <==> Given(email) && Given(password) && email.value !in db
    ensures early.Some? ==> early.value.Failure? && early.value.status == 400
    ensures early == Some(Failure(400, FieldsRequired)) <==> !Given(email) || !Given(password)
    ensures early == Some(Failure(400, AlreadyRegistered)) <==> Given(email) && Given(password) && email.value in db
  {
    if !Given(email) || !Given(password) then Some(Failure(400, FieldsRequired))
    else if email.value in db then Some(Failure(400, AlreadyRegistered))
    else None
  }

  datatype Completion = Completion(db: Database, reply: Option<Reply>)

  /**
   * `/register` after the await. A failed hash answers 500 and writes
   * nothing. `name` is what `generateUsername()` returned; None means only
   * that the finite draws ran out, and then nothing is written or answered.
   * (In the source a loop that never returns blocks the whole server.)
   * Otherwise exactly one entry, keyed by the e-mail, is written, without
   * checking again whether the e-mail is in the table.
   */
  function CompleteRegistration(db: Database, email: string, hashed: Hashed, name: Option<string>, now: string): (c: Completion)
    ensures hashed.HashThrew? ==> c == Completion(db, Some(Failure(500, RegistrationFailed)))
    ensures hashed.Digest? && name.None? ==> c == Completion(db, None)
    ensures hashed.Digest? && name.Some? ==>
              && c.db.Keys == db.Keys + {email}
              && c.db[email] == Account(email, hashed.digest, name.value, now)
              && (forall e :: e in db && e != email ==> c.db[e] == db[e])
              && c.reply == Some(Success(name.value))
  {
    match hashed
    case HashThrew => Completion(db, Some(Failure(500, RegistrationFailed)))
    case Digest(h) =>
      match name
      case None => Completion(db, None)
      case Some(u) => Completion(db[email := Account(email, h, u, now)], Some(Success(u)))
  }

  /** `/register` when nothing else runs during the await. */
  function Register(db: Database, email: Option<string>, password: Option<string>,
                    hashed: Hashed, name: Option<string>, now: string): (c: Completion)
    ensures c.reply.Some? && c.reply.value.Success? ==>
              && Given(email) && Given(password) && email.value !in db
              && c.db.Keys == db.Keys + {email.value}
              && c.db[email.value].username == c.reply.value.username
    ensures !(c.reply.Some? && c.reply.value.Success?) ==> c.db == db
    ensures c.reply.Some? && c.reply.value.Failure? ==> c.reply.value.status in {400, 500}
  {
    var early := CheckRegistration(db, email, password);
    if early.Some? then Completion(db, early)
    else CompleteRegistration(db, email.value, hashed, name, now)
  }

  /**
   * A rejected request leaves the table as it was; an accepted one adds
   * exactly one entry, keyed by the new e-mail, and touches no other entry.
   */
  lemma RegisterAddsAtMostOne(db: Database, email: Option<string>, password: Option<string>,
                              hashed: Hashed, name: Option<string>, now: string)
    ensures var c := Register(db, email, password, hashed, name, now);
            && (c.reply.Some? && c.reply.value.Success? <==>
                  Given(email) && Given(password) && email.value !in db && hashed.Digest? && name.Some?)
            && (c.reply.Some? && c.reply.value.Success? ==>
                  c.db.Keys == db.Keys + {email.value} && email.value !in db
                  && c.db[email.value].username == c.reply.value.username
                  && forall e :: e in db ==> c.db[e] == db[e])
            && (!(c.reply.Some? && c.reply.value.Success?) ==> c.db == db)
  {
  }

  /** A second registration of the same e-mail after the first completed is refused. */
  lemma SequentialDuplicateRefused(db: Database, email: string, p1: string, p2: string,
                                   h: string, u: string, now: string)
    requires email != "" && p1 != "" && p2 != ""
    requires email !in db
    ensures var c := Register(db, Some(email), Some(p1), Digest(h), Some(u), now);
            Register(c.db, Some(email), Some(p2), Digest(h), Some(u), now)
              == Completion(c.db, Some(Failure(400, AlreadyRegistered)))
  {
  }

  /**
   * Two requests for one new e-mail that both pass the check before either
   * completes both succeed; the later write replaces the account the first
   * client was told about.
   */
  lemma OverlappingRegistrationsBothSucceed(db: Database, email: string, p1: string, p2: string,
                                            h1: string, h2: string, u1: string, u2: string, t1: string, t2: string)
    requires email != "" && p1 != "" && p2 != "" && email !in db
    ensures CheckRegistration(db, Some(email), Some(p1)).None?
    ensures CheckRegistration(db, Some(email), Some(p2)).None?
    ensures var c1 := CompleteRegistration(db, email, Digest(h1), Some(u1), t1);
            var c2 := CompleteRegistration(c1.db, email, Digest(h2), Some(u2), t2);
            && c1.reply == Some(Success(u1)) && c2.reply == Some(Success(u2))
            && c2.db.Keys == db.Keys + {email}
            && c2.db[email] == Account(email, h2, u2, t2)
  {
  }

  /**
   * The name `/register` stores is checked only against the live names, never
   * against the table: whenever the generator returns the username of an
   * existing account, the new account carries the same username.
   */
  lemma GeneratedNameMayRepeatAccount(db: Database, email: string, other: string, h: string,
                                      ds: seq<real>, live: set<string>, now: string)
    requires Names.AllUnit(ds) && Names.FirstFree(ds, live).Some?
    requires other in db && other != email && db[other].username == Names.FirstFree(ds, live).value
    ensures var c := CompleteRegistration(db, email, Digest(h), Names.FirstFree(ds, live), now);
            && c.reply == Some(Success(db[other].username))
            && other in c.db && email in c.db && other != email
            && c.db[email].username == c.db[other].username
  {
  }

  /**
   * Such a clash happens: with one account named "aaaa", nobody online and
   * every draw 0, a new e-mail is given the username "aaaa" as well.
   */
  lemma DuplicateUsernameExample(ds: seq<real>, h: string, now: string)
    requires |ds| == Names.NameLength && forall i :: 0 <= i < |ds| ==> ds[i] == 0.0
    ensures var db := map["x@y" := Account("x@y", "digest", "aaaa", "then")];
            var c := CompleteRegistration(db, "p@q", Digest(h), Names.FirstFree(ds, {}), now);
            c.reply == Some(Success("aaaa")) && c.db["p@q"].username == c.db["x@y"].username == "aaaa"
  {
    Names.AllZeroDrawsGiveAaaa(ds);
  }

  /**
   * `/login` never writes the table. It succeeds exactly for a known e-mail
   * whose password compares true, and then answers the stored username.
   */
  function Login(db: Database, email: Option<string>, password: Option<string>,
                 compare: (string, string) -> Verdict): (reply: Reply)
    ensures reply.Success? <==>
              Given(email) && Given(password) && email.value in db
              && compare(password.value, db[email.value].password) == Match
    ensures reply.Success? ==> reply.username == db[email.value].username
    ensures reply == Failure(400, FieldsRequired) <==> !Given(email) || !Given(password)
    ensures reply == Failure(401, InvalidCredentials) <==>
              Given(email) && Given(password)
              && (email.value !in db || compare(password.value, db[email.value].password) == Mismatch)
    ensures reply == Failure(500, LoginFailed) <==>
              Given(email) && Given(password) && email.value in db
              && compare(password.value, db[email.value].password) == CompareThrew
  {
    if !Given(email) || !Given(password) then Failure(400, FieldsRequired)
    else if email.value !in db then Failure(401, InvalidCredentials)
    else
      match compare(password.value, db[email.value].password)
      case CompareThrew => Failure(500, LoginFailed)
      case Mismatch => Failure(401, InvalidCredentials)
      case Match => Success(db[email.value].username)
  }
}
