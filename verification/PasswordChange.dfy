/** Sessions and the password change protocol: what each critical section does, and what holds
    over every interleaving of changes, logins, logouts and invalidations. */
module PasswordChange {
  import opened Models

  const MINIMUM_LENGTH := 12

  /** Argon2 over password and salt, taken as injective. */
  datatype Hash = Hash(password: string, salt: nat)

  datatype User = User(id: string, username: string, hash: Hash, mustChange: bool)

  datatype Session = Session(userID: string, username: string, mustChange: bool, expiresAt: Time)

  /** The hash of a session cookie. */
  type Token = string

  type Sessions = map<Token, Session>

  /** The user table by its unique username. */
  type Users = map<string, User>

  datatype Outcome = Ok | WeakPassword | InvalidCredentials | PasswordReuse | StoreFailed

  // ---- critical sections ----

  function Live(sessions: Sessions, now: Time): Sessions {
    map t | t in sessions && sessions[t].expiresAt > now :: sessions[t]
  }

  function WithoutUser(sessions: Sessions, userID: string): Sessions {
    map t | t in sessions && sessions[t].userID != userID :: sessions[t]
  }

  /** After a change only the caller's own session of the user survives, cleared. */
  function Swept(sessions: Sessions, userID: string, token: Token): Sessions {
    map t | t in sessions && (sessions[t].userID != userID || t == token) ::
      if sessions[t].userID == userID then sessions[t].(mustChange := false) else sessions[t]
  }

  predicate Authenticates(users: Users, username: string, password: string) {
    username in users && Hash(password, users[username].hash.salt) == users[username].hash
  }

  function WithPassword(users: Users, id: string, hash: Hash): Users {
    map n | n in users :: if users[n].id == id then users[n].(hash := hash, mustChange := false) else users[n]
  }

  class Manager {
    const ttl: Time
    var sessions: Sessions
    var users: Users

    method Prune(now: Time)
      modifies `sessions
      ensures sessions == Live(old(sessions), now)
    {
      var left := sessions.Keys;
      ghost var start := sessions;
      while left != {}
        invariant left <= start.Keys
        invariant sessions == map t | t in start && (t in left || start[t].expiresAt > now) :: start[t]
        decreases left
      {
        var t :| t in left;
        left := left - {t};
        if sessions[t].expiresAt <= now {
          sessions := sessions - {t};
        }
      }
    }

    /** `Start`: the token is freshly drawn. */
    method Start(user: User, token: Token, now: Time)
      modifies `sessions
      ensures sessions == Live(old(sessions), now)[token := Session(user.id, user.username, user.mustChange, now + ttl)]
      ensures forall t :: t in sessions && t != token ==> t in old(sessions) && sessions[t] == old(sessions)[t]
      ensures forall t :: t in old(sessions) && t != token ==> (t in sessions <==> now < old(sessions)[t].expiresAt)
    {
      Prune(now);
      sessions := sessions[token := Session(user.id, user.username, user.mustChange, now + ttl)];
    }

    method Lookup(token: Token, now: Time) returns (session: Option<Session>)
      modifies `sessions
      ensures sessions == Live(old(sessions), now)
      ensures forall t :: t in sessions <==> t in old(sessions) && now < old(sessions)[t].expiresAt
      ensures forall t :: t in sessions ==> sessions[t] == old(sessions)[t]
      ensures session == if token in old(sessions) && old(sessions)[token].expiresAt > now
                then Some(old(sessions)[token]) else None
    {
      Prune(now);
      session := if token in sessions && sessions[token].expiresAt > now then Some(sessions[token]) else None;
    }

    method InvalidateUser(userID: string)
      modifies `sessions
      ensures sessions == WithoutUser(old(sessions), userID)
      ensures forall t :: t in sessions <==> t in old(sessions) && old(sessions)[t].userID != userID
      ensures forall t :: t in sessions ==> sessions[t] == old(sessions)[t]
    {
      var left := sessions.Keys;
      ghost var start := sessions;
      while left != {}
        invariant left <= start.Keys
        invariant sessions == map t | t in start && (t in left || start[t].userID != userID) :: start[t]
        decreases left
      {
        var t :| t in left;
        left := left - {t};
        if sessions[t].userID == userID {
          sessions := sessions - {t};
        }
      }
    }

    method Sweep(userID: string, token: Token)
      modifies `sessions
      ensures sessions == Swept(old(sessions), userID, token)
    {
      var left := sessions.Keys;
      ghost var start := sessions;
      while left != {}
        invariant left <= start.Keys
        invariant sessions == map t | t in start && (t in left || start[t].userID != userID || t == token) ::
            if t !in left && start[t].userID == userID then start[t].(mustChange := false) else start[t]
        decreases left
      {
        var t :| t in left;
        left := left - {t};
        if sessions[t].userID == userID {
          if t != token {
            sessions := sessions - {t};
          } else {
            sessions := sessions[t := sessions[t].(mustChange := false)];
          }
        }
      }
    }

    /** `ChangePassword` when nothing interferes. */
    method ChangePassword(token: Token, current: string, next: string, salt: nat, now: Time) returns (outcome: Outcome)
      modifies this
      ensures outcome == Ok <==>
                && |next| >= 12 && next != current
                && token in old(sessions) && now < old(sessions)[token].expiresAt
                && old(sessions)[token].username in old(users)
                && old(users)[old(sessions)[token].username].hash.password == current
      ensures outcome == Ok ==>
                var user := old(users)[old(sessions)[token].username];
                && users == WithPassword(old(users), user.id, Hash(next, salt))
                && sessions == Swept(Live(old(sessions), now), user.id, token)
      ensures outcome == Ok ==>
                var id := old(users)[old(sessions)[token].username].id;
                && users.Keys == old(users).Keys
                && (forall n :: n in users && old(users)[n].id != id ==> users[n] == old(users)[n])
                && (forall n :: n in users && old(users)[n].id == id ==>
                      users[n] == User(id, old(users)[n].username, Hash(next, salt), false))
                && (forall t :: t in sessions <==>
                      && t in old(sessions) && now < old(sessions)[t].expiresAt
                      && (t == token || old(sessions)[t].userID != id))
                && (forall t :: t in sessions && old(sessions)[t].userID != id ==> sessions[t] == old(sessions)[t])
                && (token in sessions && old(sessions)[token].userID == id ==>
                      sessions[token] == old(sessions)[token].(mustChange := false))
      ensures outcome == WeakPassword <==> |next| < 12
      ensures outcome == PasswordReuse ==> next == current
      ensures outcome != Ok ==>
                users == old(users) && (sessions == old(sessions) || sessions == Live(old(sessions), now))
    {
      if |next| < MINIMUM_LENGTH {
        return WeakPassword;
      }
      var session := Lookup(token, now);
      if session.None? || !Authenticates(users, session.value.username, current) {
        return InvalidCredentials;
      }
      var user := users[session.value.username];
      if Hash(next, user.hash.salt) == user.hash {
        return PasswordReuse;
      }
      users := WithPassword(users, user.id, Hash(next, salt));
      Sweep(user.id, token);
      return Ok;
    }
  }

  // ---- interleavings ----

  type CallID = nat

  /** Where a call stands; the middle four hold the password mutex. */
  datatype Stage =
    | Waiting
    | Locked
    | Found(session: Session)
    | Authenticated(user: User)
    | Updated(userID: string)
    | Done(outcome: Outcome)

  datatype Call = Call(token: Token, current: string, next: string, stage: Stage)

  /** A committed password update. */
  datatype Change = Change(call: CallID, userID: string, before: string, next: string)

  datatype World = World(users: Users, sessions: Sessions, mutex: Option<CallID>, calls: map<CallID, Call>,
    log: seq<Change>, now: Time)

  predicate Critical(stage: Stage) {
    stage.Locked? || stage.Found? || stage.Authenticated? || stage.Updated?
  }

  function At(w: World, c: CallID, stage: Stage): map<CallID, Call>
    requires c in w.calls
  {
    w.calls[c := w.calls[c].(stage := stage)]
  }

  /** A call arrives; a short password is refused before the mutex. */
  ghost predicate Arrive(w: World, w': World, c: CallID, token: Token, current: string, next: string) {
    && c !in w.calls
    && w' == w.(calls := w.calls[c :=
         Call(token, current, next, if |next| < MINIMUM_LENGTH then Done(WeakPassword) else Waiting)])
  }

  ghost predicate Acquire(w: World, w': World, c: CallID) {
    && c in w.calls && w.calls[c].stage.Waiting? && w.mutex.None?
    && w' == w.(mutex := Some(c), calls := At(w, c, Locked))
  }

  /** The caller's session, if it is still live. */
  ghost predicate FindSession(w: World, w': World, c: CallID) {
    && c in w.calls && w.calls[c].stage.Locked?
    && var token := w.calls[c].token;
       if token in w.sessions && w.sessions[token].expiresAt > w.now
       then w' == w.(sessions := Live(w.sessions, w.now), calls := At(w, c, Found(w.sessions[token])))
       else w' == w.(sessions := Live(w.sessions, w.now), mutex := None, calls := At(w, c, Done(InvalidCredentials)))
  }

  /** The password check against the user as stored now. */
  ghost predicate CheckPassword(w: World, w': World, c: CallID) {
    && c in w.calls && w.calls[c].stage.Found?
    && var username := w.calls[c].stage.session.username;
       if Authenticates(w.users, username, w.calls[c].current)
       then w' == w.(calls := At(w, c, Authenticated(w.users[username])))
       else w' == w.(mutex := None, calls := At(w, c, Done(InvalidCredentials)))
  }

  ghost predicate Update(w: World, w': World, c: CallID, salt: nat, stored: bool) {
    && c in w.calls && w.calls[c].stage.Authenticated?
    && var call := w.calls[c];
       var user := call.stage.user;
       if Hash(call.next, user.hash.salt) == user.hash
       then w' == w.(mutex := None, calls := At(w, c, Done(PasswordReuse)))
       else if !stored then w' == w.(mutex := None, calls := At(w, c, Done(StoreFailed)))
       else w' == w.(users := WithPassword(w.users, user.id, Hash(call.next, salt)),
                     calls := At(w, c, Updated(user.id)),
                     log := w.log + [Change(c, user.id, call.current, call.next)])
  }

  ghost predicate Finish(w: World, w': World, c: CallID) {
    && c in w.calls && w.calls[c].stage.Updated?
    && w' == w.(sessions := Swept(w.sessions, w.calls[c].stage.userID, w.calls[c].token), mutex := None,
         calls := At(w, c, Done(Ok)))
  }

  /** Logins, logouts, invalidations and expiry change sessions in any way. */
  ghost predicate SessionsChange(w: World, w': World) {
    w' == w.(sessions := w'.sessions, now := w'.now) && w'.now >= w.now
  }

  ghost predicate CreateUser(w: World, w': World, user: User) {
    && user.username !in w.users && (forall n :: n in w.users ==> w.users[n].id != user.id)
    && w' == w.(users := w.users[user.username := user])
  }

  ghost predicate Next(w: World, w': World) {
    || (exists c, token, current, next :: Arrive(w, w', c, token, current, next))
    || (exists c :: Acquire(w, w', c))
    || (exists c :: FindSession(w, w', c))
    || (exists c :: CheckPassword(w, w', c))
    || (exists c, salt, stored :: Update(w, w', c, salt, stored))
    || (exists c :: Finish(w, w', c))
    || SessionsChange(w, w')
    || (exists user :: CreateUser(w, w', user))
  }

  ghost predicate UsersGood(users: Users) {
    && (forall n :: n in users ==> users[n].username == n)
    && (forall m, n :: m in users && n in users && users[m].id == users[n].id ==> m == n)
  }

  ghost predicate Run(trace: seq<World>) {
    && |trace| > 0 && UsersGood(trace[0].users) && trace[0].mutex.None? && trace[0].calls == map[] && trace[0].log == []
    && forall k :: 0 < k < |trace| ==> Next(trace[k - 1], trace[k])
  }

  // ---- the invariant ----

  /** At most one call is inside, and it owns the mutex. */
  ghost predicate Exclusive(w: World) {
    && (w.mutex.Some? ==> w.mutex.value in w.calls)
    && forall c :: c in w.calls ==> (Critical(w.calls[c].stage) <==> w.mutex == Some(c))
  }

  /** An authenticated call still sees the user as stored. */
  ghost predicate SnapshotsFresh(w: World) {
    forall c :: c in w.calls && w.calls[c].stage.Authenticated? ==>
      var user := w.calls[c].stage.user;
      user.username in w.users && w.users[user.username] == user && user.hash.password == w.calls[c].current
  }

  /** Each user's committed changes form a chain that ends at the stored password: none is lost
      and none starts from a password that was no longer current. */
  ghost predicate Chained(log: seq<Change>, users: Users) {
    && (forall i :: 0 <= i < |log| ==> log[i].before != log[i].next)
    && (forall i, j :: 0 <= i < j < |log| && log[i].userID == log[j].userID && !Between(log, i, j) ==>
          log[j].before == log[i].next)
    && (forall i, n :: 0 <= i < |log| && n in users && users[n].id == log[i].userID && !Between(log, i, |log|) ==>
          users[n].hash.password == log[i].next)
  }

  /** Another change of the same user lies strictly between positions `i` and `j`. */
  ghost predicate Between(log: seq<Change>, i: nat, j: nat)
    requires i < |log| && j <= |log|
  {
    exists k :: i < k < j && log[k].userID == log[i].userID
  }

  /** The log names exactly the calls that have updated, once each, with what they presented. */
  ghost predicate Logged(w: World) {
    && (forall i :: 0 <= i < |w.log| ==>
          var c := w.log[i].call;
          c in w.calls && (w.calls[c].stage.Updated? || w.calls[c].stage == Done(Ok)) &&
            w.log[i].before == w.calls[c].current)
    && (forall i, j :: 0 <= i < j < |w.log| ==> w.log[i].call != w.log[j].call)
    && (forall c :: c in w.calls && (w.calls[c].stage.Updated? || w.calls[c].stage == Done(Ok)) ==> InLog(w.log, c))
  }

  ghost predicate InLog(log: seq<Change>, c: CallID) {
    exists i :: 0 <= i < |log| && log[i].call == c
  }

  ghost predicate Known(users: Users, id: string) {
    exists n :: n in users && users[n].id == id
  }

  ghost predicate Inv(w: World) {
    && UsersGood(w.users) && Exclusive(w) && SnapshotsFresh(w) && Chained(w.log, w.users) && Logged(w)
    && (forall i :: 0 <= i < |w.log| ==> Known(w.users, w.log[i].userID))
  }

  /** A step that neither touches users nor the log keeps their part. */
  lemma SameUsersAndLog(w: World, w': World)
    requires Inv(w) && w'.users == w.users && w'.log == w.log
    ensures UsersGood(w'.users) && Chained(w'.log, w'.users)
    ensures forall i :: 0 <= i < |w'.log| ==> Known(w'.users, w'.log[i].userID)
  {
  }

  lemma ArriveKeeps(w: World, w': World, c: CallID, token: Token, current: string, next: string)
    requires Inv(w) && Arrive(w, w', c, token, current, next)
    ensures Inv(w')
  {
    SameUsersAndLog(w, w');
    hide Chained, UsersGood;
  }

  /** A move of one call that neither enters nor leaves the set of updated calls. */
  lemma MoveKeeps(w: World, w': World, c: CallID, stage: Stage)
    requires Inv(w) && c in w.calls && w'.users == w.users && w'.log == w.log && w'.calls == At(w, c, stage)
    requires !w.calls[c].stage.Updated? && w.calls[c].stage != Done(Ok) && !stage.Updated? && stage != Done(Ok)
    requires Critical(stage) ==> w'.mutex == Some(c)
    requires !Critical(stage) ==> w'.mutex == None
    requires w.mutex == None || w.mutex == Some(c)
    requires stage.Authenticated? ==>
               stage.user.username in w.users && w.users[stage.user.username] == stage.user &&
                 stage.user.hash.password == w.calls[c].current
    ensures Inv(w')
  {
    SameUsersAndLog(w, w');
    hide Chained, UsersGood;
    forall d | d in w'.calls && (w'.calls[d].stage.Updated? || w'.calls[d].stage == Done(Ok))
      ensures InLog(w'.log, d)
    {
      assert d in w.calls && w.calls[d] == w'.calls[d];
    }
  }

  lemma StoreKeepsChain(log: seq<Change>, users: Users, change: Change, username: string, salt: nat)
    requires UsersGood(users) && Chained(log, users)
    requires username in users && users[username].id == change.userID && users[username].hash.password == change.before
    requires change.next != change.before
    ensures Chained(log + [change], WithPassword(users, change.userID, Hash(change.next, salt)))
  {
    var longer, users' := log + [change], WithPassword(users, change.userID, Hash(change.next, salt));
    forall i: nat, j: nat | i < j < |longer| && longer[i].userID == longer[j].userID && !Between(longer, i, j)
      ensures longer[j].before == longer[i].next
    {
      forall k | i < k < j ensures log[k].userID != log[i].userID { assert longer[k] == log[k] && longer[i] == log[i]; }
    }
    forall i: nat, n | i < |longer| && n in users' && users'[n].id == longer[i].userID && !Between(longer, i, |longer|)
      ensures users'[n].hash.password == longer[i].next
    {
      if i < |log| {
        assert longer[|log|].userID != longer[i].userID;
        forall k | i < k < |log|
          ensures log[k].userID != log[i].userID
        {
          assert longer[k] == log[k] && longer[i] == log[i];
        }
      }
    }
  }

  lemma UpdateIsLogged(w: World, w': World, c: CallID, change: Change)
    requires Logged(w) && c in w.calls && w.calls[c].stage.Authenticated? && change.call == c &&
              change.before == w.calls[c].current
    requires w'.log == w.log + [change] && w'.calls == At(w, c, Updated(change.userID))
    ensures Logged(w')
  {
    assert w'.log[|w.log|] == change;
    forall i | 0 <= i < |w.log| ensures w'.log[i] == w.log[i] && w.log[i].call != c { }
    forall d | d in w'.calls && (w'.calls[d].stage.Updated? || w'.calls[d].stage == Done(Ok))
      ensures InLog(w'.log, d)
    {
      if d != c {
        assert InLog(w.log, d);
        var i :| 0 <= i < |w.log| && w.log[i].call == d;
        assert w'.log[i].call == d;
      }
    }
  }

  lemma UpdateKnows(w: World, w': World, user: User, hash: Hash, change: Change)
    requires (forall i :: 0 <= i < |w.log| ==> Known(w.users, w.log[i].userID)) && UsersGood(w.users)
    requires user.username in w.users && w.users[user.username] == user && change.userID == user.id
    requires w'.users == WithPassword(w.users, user.id, hash) && w'.log == w.log + [change]
    ensures (forall i :: 0 <= i < |w'.log| ==> Known(w'.users, w'.log[i].userID)) && UsersGood(w'.users)
  {
    forall i | 0 <= i < |w'.log| ensures Known(w'.users, w'.log[i].userID) {
      if i < |w.log| {
        assert Known(w.users, w.log[i].userID);
        var n :| n in w.users && w.users[n].id == w.log[i].userID;
        assert n in w'.users;
      } else {
        assert user.username in w'.users;
      }
    }
  }

  lemma UpdateKeeps(w: World, w': World, c: CallID, salt: nat)
    requires Inv(w) && Update(w, w', c, salt, true) && w'.log != w.log
    ensures Inv(w')
  {
    hide Chained, Logged, UsersGood, WithPassword;
    var call := w.calls[c];
    var user := call.stage.user;
    var change := Change(c, user.id, call.current, call.next);
    StoreKeepsChain(w.log, w.users, change, user.username, salt);
    UpdateIsLogged(w, w', c, change);
    UpdateKnows(w, w', user, Hash(call.next, salt), change);
    forall d | d in w'.calls ensures !w'.calls[d].stage.Authenticated? {
      if d != c { assert Critical(w.calls[d].stage) <==> w.mutex == Some(d); }
    }
  }

  lemma FinishKeeps(w: World, w': World, c: CallID)
    requires Inv(w) && Finish(w, w', c)
    ensures Inv(w')
  {
    SameUsersAndLog(w, w');
    hide Chained, UsersGood;
    forall d | d in w'.calls && (w'.calls[d].stage.Updated? || w'.calls[d].stage == Done(Ok))
      ensures InLog(w'.log, d)
    {
      assert d in w.calls && (w.calls[d].stage.Updated? || w.calls[d].stage == Done(Ok));
    }
  }

  lemma CreateKeeps(w: World, w': World, user: User)
    requires Inv(w) && CreateUser(w, w', user)
    ensures Inv(w')
  {
    forall i | 0 <= i < |w'.log|
      ensures w'.log[i].userID != user.id && Known(w'.users, w'.log[i].userID)
    {
      assert Known(w.users, w.log[i].userID);
      var n :| n in w.users && w.users[n].id == w.log[i].userID;
      assert n in w'.users && w'.users[n] == w.users[n];
    }
  }

  lemma SessionsChangeKeeps(w: World, w': World)
    requires Inv(w) && SessionsChange(w, w')
    ensures Inv(w')
  {
    hide Chained, UsersGood;
  }

  lemma NextKeepsInv(w: World, w': World)
    requires Inv(w) && Next(w, w')
    ensures Inv(w')
  {
    hide Chained, Logged, UsersGood, WithPassword;
    if c, token, current, next :| Arrive(w, w', c, token, current, next) {
      ArriveKeeps(w, w', c, token, current, next);
    } else if c :| Acquire(w, w', c) {
      MoveKeeps(w, w', c, w'.calls[c].stage);
    } else if c :| FindSession(w, w', c) {
      MoveKeeps(w, w', c, w'.calls[c].stage);
    } else if c :| CheckPassword(w, w', c) {
      CheckKeeps(w, w', c);
    } else if c, salt, stored :| Update(w, w', c, salt, stored) {
      if w'.log != w.log {
        assert Update(w, w', c, salt, true);
        UpdateKeeps(w, w', c, salt);
      } else {
        UnstoredKeeps(w, w', c, salt, stored);
      }
    } else if c :| Finish(w, w', c) {
      FinishKeeps(w, w', c);
    } else if SessionsChange(w, w') {
      SessionsChangeKeeps(w, w');
    } else {
      var user :| CreateUser(w, w', user);
      CreateKeeps(w, w', user);
    }
  }

  lemma CheckKeeps(w: World, w': World, c: CallID)
    requires Inv(w) && CheckPassword(w, w', c)
    ensures Inv(w')
  {
    var username := w.calls[c].stage.session.username;
    if Authenticates(w.users, username, w.calls[c].current) {
      assert w.users[username].username == username;
    }
    hide Chained, Logged, UsersGood;
    MoveKeeps(w, w', c, w'.calls[c].stage);
  }

  lemma UnstoredKeeps(w: World, w': World, c: CallID, salt: nat, stored: bool)
    requires Inv(w) && Update(w, w', c, salt, stored) && w'.log == w.log
    ensures Inv(w')
  {
    hide Chained, Logged, UsersGood;
    MoveKeeps(w, w', c, w'.calls[c].stage);
  }

  lemma InitHolds(w: World)
    requires UsersGood(w.users) && w.mutex.None? && w.calls == map[] && w.log == []
    ensures Inv(w)
  {
  }

  lemma {:induction false} RunKeepsInv(trace: seq<World>)
    requires Run(trace)
    ensures Inv(trace[|trace| - 1])
  {
    hide Inv, Next;
    if |trace| > 1 {
      RunKeepsInv(trace[..|trace| - 1]);
      NextKeepsInv(trace[|trace| - 2], trace[|trace| - 1]);
    } else {
      InitHolds(trace[0]);
    }
  }

  // ---- the theorems ----

  /** The next change of the same user. */
  lemma {:induction false} NextChange(log: seq<Change>, i: nat, j: nat) returns (k: nat)
    requires i < j < |log| && log[i].userID == log[j].userID
    ensures i < k <= j && log[k].userID == log[i].userID && !Between(log, i, k)
    decreases j
  {
    if m: nat :| i < m < j && log[m].userID == log[i].userID {
      k := NextChange(log, i, m);
    } else {
      k := j;
    }
  }

  /** Two changes of one user: not all of them can have started from the same password. */
  lemma ChangesStartApart(log: seq<Change>, users: Users, i: nat, j: nat) returns (k: nat)
    requires Chained(log, users) && i < j < |log| && log[i].userID == log[j].userID
    ensures k < |log| && log[k].userID == log[i].userID && log[k].before != log[i].before
  {
    k := NextChange(log, i, j);
  }

  /** Whether call `c` has succeeded in changing the password of `userID`. */
  ghost predicate Succeeded(w: World, c: CallID, userID: string) {
    && c in w.calls && w.calls[c].stage == Done(Ok)
    && exists i :: 0 <= i < |w.log| && w.log[i].call == c && w.log[i].userID == userID
  }

  /** Every call that changed the user's password presented `password` as the current one. */
  ghost predicate AllPresented(w: World, userID: string, password: string) {
    forall k :: 0 <= k < |w.log| && w.log[k].userID == userID ==>
      w.log[k].call in w.calls && w.calls[w.log[k].call].current == password
  }

  lemma TwoSuccesses(w: World, userID: string, password: string, c: CallID, d: CallID)
    requires Chained(w.log, w.users) && Logged(w)
    requires AllPresented(w, userID, password) && Succeeded(w, c, userID) && Succeeded(w, d, userID)
    ensures c == d
  {
    var i :| 0 <= i < |w.log| && w.log[i].call == c && w.log[i].userID == userID;
    var j :| 0 <= j < |w.log| && w.log[j].call == d && w.log[j].userID == userID;
    if i != j {
      var k := ChangesStartApart(w.log, w.users, if i < j then i else j, if i < j then j else i);
    }
  }

  lemma LogChains(w: World)
    requires Inv(w)
    ensures Chained(w.log, w.users) && Logged(w)
  {
  }

  /** Over every interleaving: if all calls that changed a user's password presented the same current
      password, at most one of them has succeeded. */
  lemma ChangesOverAllRuns(trace: seq<World>, userID: string, password: string, c: CallID, d: CallID)
    requires Run(trace)
    requires AllPresented(trace[|trace| - 1], userID, password)
    requires Succeeded(trace[|trace| - 1], c, userID) && Succeeded(trace[|trace| - 1], d, userID)
    ensures c == d
  {
    hide Inv, AllPresented, Succeeded, Chained, Logged;
    RunKeepsInv(trace);
    LogChains(trace[|trace| - 1]);
    TwoSuccesses(trace[|trace| - 1], userID, password, c, d);
  }

  /** Over every interleaving no committed change is lost: each one starts from what the one
      before it set, and the last one is what is stored. */
  lemma ChangesChainOverAllRuns(trace: seq<World>)
    requires Run(trace)
    ensures Chained(trace[|trace| - 1].log, trace[|trace| - 1].users)
  {
    RunKeepsInv(trace);
  }

  // ---- what a finished change has done ----

  /** A call that has stored a password and not swept yet made the newest change, and sweeps the
      user whose password that was; the user need not change it again. */
  ghost predicate Tied(w: World) {
    forall c :: c in w.calls && w.calls[c].stage.Updated? ==>
      && w.log != []
      && var change := w.log[|w.log| - 1];
         && change.call == c && change.userID == w.calls[c].stage.userID && change.next == w.calls[c].next
         && forall n :: n in w.users && w.users[n].id == change.userID ==> !w.users[n].mustChange
  }

  lemma UpdateTies(w: World, w': World, c: CallID, salt: nat)
    requires Inv(w) && Update(w, w', c, salt, true) && w'.log != w.log
    ensures Tied(w')
  {
    hide Chained, Logged, SnapshotsFresh;
    forall d | d in w'.calls && w'.calls[d].stage.Updated? ensures d == c {
      assert d in w.calls && (Critical(w.calls[d].stage) <==> w.mutex == Some(d));
    }
  }

  /** Steps that store no password update no call. */
  lemma OthersUpdateNothing(w: World, w': World)
    requires Next(w, w') && w'.log == w.log
    ensures forall c :: c in w'.calls && w'.calls[c].stage.Updated? ==> c in w.calls && w'.calls[c] == w.calls[c]
    ensures forall n :: n in w'.users && n in w.users ==> w'.users[n] == w.users[n]
    ensures forall n, m :: n in w'.users && n !in w.users && m in w.users ==> w'.users[n].id != w.users[m].id
  {
    hide WithPassword, Live, Swept, Authenticates;
    if c, token, current, next :| Arrive(w, w', c, token, current, next) {
    } else if c :| Acquire(w, w', c) {
    } else if c :| FindSession(w, w', c) {
    } else if c :| CheckPassword(w, w', c) {
    } else if c, salt, stored :| Update(w, w', c, salt, stored) {
      hide *;
      NotStored(w, w', c, salt, stored);
    } else if c :| Finish(w, w', c) {
    } else if SessionsChange(w, w') {
    } else {
      var user :| CreateUser(w, w', user);
    }
  }

  lemma NotStored(w: World, w': World, c: CallID, salt: nat, stored: bool)
    requires Update(w, w', c, salt, stored) && w'.log == w.log
    ensures w'.users == w.users
    ensures forall d :: d in w'.calls && w'.calls[d].stage.Updated? ==> d in w.calls && w'.calls[d] == w.calls[d]
  {
  }

  lemma NextKeepsTied(w: World, w': World)
    requires Inv(w) && Tied(w) && Next(w, w')
    ensures Tied(w')
  {
    hide Chained, Logged, Exclusive, SnapshotsFresh;
    if w'.log != w.log {
      var c, salt, stored :| Update(w, w', c, salt, stored);
      assert Update(w, w', c, salt, true);
      UpdateTies(w, w', c, salt);
    } else {
      OthersUpdateNothing(w, w');
      hide Next;
      forall c | c in w'.calls && w'.calls[c].stage.Updated?
        ensures forall n :: n in w'.users && w'.users[n].id == w'.log[|w'.log| - 1].userID ==> !w'.users[n].mustChange
      {
        assert Known(w.users, w.log[|w.log| - 1].userID);
      }
    }
  }

  lemma {:induction false} RunKeepsTied(trace: seq<World>)
    requires Run(trace)
    ensures Tied(trace[|trace| - 1])
  {
    hide Inv, Next, Tied;
    if |trace| > 1 {
      RunKeepsTied(trace[..|trace| - 1]);
      RunKeepsInv(trace[..|trace| - 1]);
      NextKeepsTied(trace[|trace| - 2], trace[|trace| - 1]);
    } else {
      assert Tied(trace[0]) by { hide *; NothingTied(trace[0]); }
    }
  }

  lemma NothingTied(w: World)
    requires w.calls == map[]
    ensures Tied(w)
  {
  }

  /** What a successful call leaves behind in `w` when its last step is taken from `before`: the
      user whose password change `i` of the log committed. */
  ghost predicate Revoked(before: World, w: World, c: CallID, i: nat)
    requires i < |w.log| && c in w.calls
  {
    var change := w.log[i];
    && change.call == c && change.before == w.calls[c].current && change.next == w.calls[c].next
    && (exists n :: n in w.users && w.users[n].id == change.userID)
    && (forall n :: n in w.users && w.users[n].id == change.userID ==>
          w.users[n].hash.password == change.next && !w.users[n].mustChange)
    && (forall t :: t in w.sessions && w.sessions[t].userID == change.userID ==>
          t == w.calls[c].token && !w.sessions[t].mustChange)
    && (forall t :: t in before.sessions && before.sessions[t].userID != change.userID ==>
          t in w.sessions && w.sessions[t] == before.sessions[t])
    && (forall t :: t in w.sessions ==> t in before.sessions && w.sessions[t].userID == before.sessions[t].userID)
  }

  /** Over every interleaving: when a call finishes, the user whose password it changed has the new
      password and need not change it again, no session of that user is left but the caller's own,
      which is cleared too, and no session of anybody else is touched. */
  lemma FinishRevokesOverAllRuns(trace: seq<World>, c: CallID) returns (i: nat)
    requires Run(trace) && |trace| > 1 && Finish(trace[|trace| - 2], trace[|trace| - 1], c)
    ensures c in trace[|trace| - 1].calls && trace[|trace| - 1].calls[c].stage == Done(Ok)
    ensures i < |trace[|trace| - 1].log| && Revoked(trace[|trace| - 2], trace[|trace| - 1], c, i)
  {
    var w, w' := trace[|trace| - 2], trace[|trace| - 1];
    assert Inv(w) && Tied(w) by {
      hide *;
      BeforeLast(trace);
      RunKeepsInv(trace[..|trace| - 1]);
      RunKeepsTied(trace[..|trace| - 1]);
    }
    i := |w.log| - 1;
    LastChangeIsStored(w, i);
  }

  lemma BeforeLast(trace: seq<World>)
    requires Run(trace) && |trace| > 1
    ensures Run(trace[..|trace| - 1]) && trace[..|trace| - 1][|trace| - 2] == trace[|trace| - 2]
  {
    hide Next;
  }

  lemma LastChangeIsStored(w: World, i: nat)
    requires Inv(w) && i + 1 == |w.log|
    ensures Known(w.users, w.log[i].userID)
    ensures w.log[i].call in w.calls && w.log[i].before == w.calls[w.log[i].call].current
    ensures forall n :: n in w.users && w.users[n].id == w.log[i].userID ==> w.users[n].hash.password == w.log[i].next
  {
    assert !Between(w.log, i, |w.log|);
  }
}
