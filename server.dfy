/**
 * The module-level state of server.js as one object: the dictionaries
 * `users` and `sockets` (with the property order of `sockets`), the
 * credential table `userDatabase`, and the stream of events handed to
 * socket.io. Each handler is a method that updates the fields in place, as
 * the JavaScript does, and is proved to perform exactly the step the pure
 * model in `Chat` and `Accounts` describes.
 */
module Server {
  import opened Wrappers
  import opened Chat
  import Names
  import Accounts

  class ChatServer {
    var users: map<SocketId, User>
    var sockets: map<Username, SocketId>
    /** The property order of `sockets`: what `Object.keys(sockets)` lists. */
    var order: seq<Username>
    /** Every event emitted so far, in emission order. */
    var outbox: seq<Emit>
    var userDatabase: Accounts.Database

    function State(): Registry
      reads this
    {
      Registry(users, sockets, order)
    }

    ghost predicate Valid()
      reads this
    {
      Chat.Valid(State())
    }

    /** Start-up: empty socket maps; `db` is what `loadUsers()` read from disk. */
    constructor (db: Accounts.Database)
      ensures Valid() && State() == Empty && outbox == [] && userDatabase == db
    {
      users, sockets, order, outbox := map[], map[], [], [];
      userDatabase := db;
    }

    method OnRegister(s: SocketId, u: Username)
      requires Valid()
      modifies this`users, this`sockets, this`order, this`outbox
      ensures Valid()
      ensures users == old(users)[s := User(u)] && sockets == old(sockets)[u := s]
      ensures order == if u in old(sockets) then old(order) else old(order) + [u]
      ensures outbox == old(outbox) + [Broadcast(Joined(u)), Broadcast(Roster(order))]
      ensures Chat.OnRegister(old(State()), s, u) == Reaction(State(), outbox[|old(outbox)|..])
    {
      var known := u in sockets;
      users := users[s := User(u)];
      sockets := sockets[u := s];
      if !known {
        order := order + [u];
      }
      outbox := outbox + [Broadcast(Joined(u))];
      outbox := outbox + [Broadcast(Roster(order))];
    }

    method OnDisconnect(s: SocketId)
      requires Valid()
      modifies this`users, this`sockets, this`order, this`outbox
      ensures Valid()
      ensures s !in old(users) ==> State() == old(State()) && outbox == old(outbox)
      ensures s in old(users) ==>
                var name := old(users)[s].username;
                && users == old(users) - {s}
                && sockets == old(sockets) - {name}
                && order == Without(old(order), name)
                && outbox == old(outbox) + [Broadcast(Left(name)), Broadcast(Roster(order))]
      ensures Chat.OnDisconnect(old(State()), s) == Reaction(State(), outbox[|old(outbox)|..])
    {
      if s in users {
        var gone := users[s];
        sockets := sockets - {gone.username};
        order := Without(order, gone.username);
        users := users - {s};
        outbox := outbox + [Broadcast(Left(gone.username))];
        outbox := outbox + [Broadcast(Roster(order))];
      }
    }

    method OnMessage(s: SocketId, text: string)
      modifies this`outbox
      ensures s !in users ==> outbox == old(outbox)
      ensures s in users ==> outbox == old(outbox) + [Broadcast(Public(users[s].username, text))]
      ensures Chat.OnMessage(State(), s, text) == Reaction(State(), outbox[|old(outbox)|..])
    {
      if s in users {
        var user := users[s];
        outbox := outbox + [Broadcast(Public(user.username, text))];
      }
    }

    method OnPrivateMessage(s: SocketId, to: Username, message: string)
      modifies this`outbox
      ensures !(s in users && to in sockets) ==> outbox == old(outbox)
      ensures s in users && to in sockets ==>
                outbox == old(outbox) + [ToSocket(sockets[to], Private(users[s].username, message))]
      ensures Chat.OnPrivateMessage(State(), s, to, message) == Reaction(State(), outbox[|old(outbox)|..])
    {
      if s in users && to in sockets {
        var fromUser := users[s];
        var toSocketId := sockets[to];
        outbox := outbox + [ToSocket(toSocketId, Private(fromUser.username, message))];
      }
    }

    /**
     * `generateUsername()`: draws four letters at a time until the candidate
     * is not a key of `sockets`; None when the draws run out first.
     */
    method GenerateUsername(draws: seq<real>) returns (name: Option<string>)
      requires Names.AllUnit(draws)
      ensures name == Names.FirstFree(draws, sockets.Keys)
      ensures name.Some? ==> Names.IsName(name.value) && name.value !in sockets
    {
      var k: nat := 0;
      while Names.HasAttempt(draws, k)
        invariant Names.FirstFreeFrom(draws, sockets.Keys, k) == Names.FirstFree(draws, sockets.Keys)
        decreases |draws| - k * Names.NameLength
      {
        var start := k * Names.NameLength;
        var username := "";
        for i := 0 to Names.NameLength
          invariant username == Names.Letters(draws[start .. start + i])
        {
          assert draws[start .. start + i + 1][..i] == draws[start .. start + i];
          username := username + [Names.Letter(draws[start + i])];
        }
        if username !in sockets {
          return Some(username);
        }
        k := k + 1;
      }
      return None;
    }

    /** `/register` up to `await bcrypt.hash`: reads the table, writes nothing. */
    method RegisterCheck(email: Option<string>, password: Option<string>) returns (early: Option<Accounts.Reply>)
      ensures early == Accounts.CheckRegistration(userDatabase, email, password)
      ensures early.None? <==> Accounts.Given(email) && Accounts.Given(password) && email.value !in userDatabase
    {
      if !Accounts.Given(email) || !Accounts.Given(password) {
        return Some(Accounts.Failure(400, Accounts.FieldsRequired));
      }
      if email.value in userDatabase {
        return Some(Accounts.Failure(400, Accounts.AlreadyRegistered));
      }
      return None;
    }

    /**
     * `/register` after the await: a failed hash answers 500; otherwise a
     * name is generated against the live `sockets` and the account written.
     */
    method RegisterComplete(email: string, hashed: Accounts.Hashed, draws: seq<real>, now: string)
      returns (reply: Option<Accounts.Reply>)
      requires Names.AllUnit(draws)
      modifies this`userDatabase
      ensures Accounts.CompleteRegistration(old(userDatabase), email, hashed, Names.FirstFree(draws, sockets.Keys), now)
                == Accounts.Completion(userDatabase, reply)
      ensures reply.Some? && reply.value.Success? ==>
                userDatabase == old(userDatabase)[email := Accounts.Account(email, hashed.digest, reply.value.username, now)]
                && Names.IsName(reply.value.username) && reply.value.username !in sockets
      ensures !(reply.Some? && reply.value.Success?) ==> userDatabase == old(userDatabase)
    {
      if hashed.HashThrew? {
        return Some(Accounts.Failure(500, Accounts.RegistrationFailed));
      }
      var username := GenerateUsername(draws);
      if username.None? {
        return None;
      }
      userDatabase := userDatabase[email := Accounts.Account(email, hashed.digest, username.value, now)];
      return Some(Accounts.Success(username.value));
    }

    /** `/login`: reads the table, writes nothing. */
    method Login(email: Option<string>, password: Option<string>, compare: (string, string) -> Accounts.Verdict)
      returns (reply: Accounts.Reply)
      ensures reply == Accounts.Login(userDatabase, email, password, compare)
      ensures reply.Success? ==> email.value in userDatabase && reply.username == userDatabase[email.value].username
    {
      if !Accounts.Given(email) || !Accounts.Given(password) {
        return Accounts.Failure(400, Accounts.FieldsRequired);
      }
      if email.value !in userDatabase {
        return Accounts.Failure(401, Accounts.InvalidCredentials);
      }
      var user := userDatabase[email.value];
      var verdict := compare(password.value, user.password);
      if verdict.CompareThrew? {
        return Accounts.Failure(500, Accounts.LoginFailed);
      }
      if verdict.Mismatch? {
        return Accounts.Failure(401, Accounts.InvalidCredentials);
      }
      return Accounts.Success(user.username);
    }
  }
}
