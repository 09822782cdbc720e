/**
 * The session reconciler: what a login line, a logout line, a server-start
 * line and a shutdown line do to the login table. Each handler is a pure
 * effect on `StoreState` and a method on `Store` that is proved to have
 * exactly that effect. The replies of the service, which the model cannot
 * see, are parameters: `ok` for the one write of a login, an `Ack` for the
 * two writes of a logout.
 */
module Reconciler {
  import opened Wrappers
  import opened PyText
  import opened Sessions
  import opened Classifier

  /** Whether each of `logout_user`'s two writes was stored (answered 2xx). */
  datatype Ack = Ack(first: bool, second: bool)

  /** `str(floor(time()))`: the sort key of the archive copy of a closed session. */
  function ArchiveVersion(now: nat): (v: string)
    ensures v != HOT_VERSION
    ensures |v| >= 1 && forall i :: 0 <= i < |v| ==> IsDigit(v[i])
  {
    var v := NatToString(now);
    assert IsDigit(v[0]) && !IsDigit(HOT_VERSION[0]);
    v
  }

  /** Logouts at different times archive under different keys. */
  lemma ArchiveVersionInjective(a: nat, b: nat)
    requires a != b
    ensures ArchiveVersion(a) != ArchiveVersion(b)
  {
    if ArchiveVersion(a) == ArchiveVersion(b) {
      NatToStringInjective(a, b);
    }
  }

  // ----- logout_user -----

  /** The request of one `logout_user` call: the session closed at `now`. */
  function Closing(user: string, loginTime: Option<int>, version: string, now: nat): Session
  {
    Session(user, version, loginTime, Some(now))
  }

  /**
   * `logout_user`: write the session closed at `now` under `version`; only when
   * that write was stored and `version` is the hot slot, call itself again to
   * write the same session under the archive key `str(now)`. The first request
   * is always the close of `version`; a refused first write changes no slot;
   * no slot but `version` and the archive key is touched.
   */
  function LogoutEffect(st: StoreState, user: string, loginTime: Option<int>, version: string, now: nat, ack: Ack): (r: StoreState)
    ensures r.started == st.started
    ensures st.sent <= r.sent && |st.sent| < |r.sent| && r.sent[|st.sent|] == Closing(user, loginTime, version, now)
    ensures !ack.first ==> r.rows == st.rows
    ensures ack.first ==> (user, version) in r.rows && r.rows[(user, version)] == Closing(user, loginTime, version, now)
    ensures forall k :: k != (user, version) && k != (user, ArchiveVersion(now)) ==>
      (k in r.rows <==> k in st.rows) && (k in r.rows ==> r.rows[k] == st.rows[k])
    decreases if version == HOT_VERSION then 1 else 0
  {
    var st1 := Put(st, Closing(user, loginTime, version, now), ack.first);
    if ack.first && version == HOT_VERSION then
      LogoutEffect(st1, user, loginTime, ArchiveVersion(now), now, Ack(ack.second, false))
    else st1
  }

  /** The requests a hot-slot logout sends: the close, then the archive copy only after the close was stored. */
  lemma LogoutRequests(st: StoreState, user: string, loginTime: Option<int>, now: nat, ack: Ack)
    ensures LogoutEffect(st, user, loginTime, HOT_VERSION, now, ack).sent == st.sent
      + [Closing(user, loginTime, HOT_VERSION, now)]
      + (if ack.first then [Closing(user, loginTime, ArchiveVersion(now), now)] else [])
    ensures LogoutEffect(st, user, loginTime, HOT_VERSION, now, ack).started == st.started
  {
    var st1 := Put(st, Closing(user, loginTime, HOT_VERSION, now), ack.first);
    if ack.first {
      assert LogoutEffect(st, user, loginTime, HOT_VERSION, now, ack)
        == Put(st1, Closing(user, loginTime, ArchiveVersion(now), now), ack.second);
    }
  }

  /**
   * A hot-slot logout touches at most the user's hot slot and the archive key
   * `str(now)`: the hot slot holds the closed session once the first write was
   * stored, the archive key holds the same times once both were stored.
   */
  lemma LogoutRows(st: StoreState, user: string, loginTime: Option<int>, now: nat, ack: Ack)
    ensures var r := LogoutEffect(st, user, loginTime, HOT_VERSION, now, ack).rows;
      forall k :: k != (user, HOT_VERSION) && k != (user, ArchiveVersion(now)) ==>
        (k in r <==> k in st.rows) && (k in r ==> r[k] == st.rows[k])
    ensures var r := LogoutEffect(st, user, loginTime, HOT_VERSION, now, ack).rows;
      !ack.first ==> r == st.rows
    ensures var r := LogoutEffect(st, user, loginTime, HOT_VERSION, now, ack).rows;
      ack.first ==> (user, HOT_VERSION) in r && r[(user, HOT_VERSION)] == Closing(user, loginTime, HOT_VERSION, now)
    ensures var r := LogoutEffect(st, user, loginTime, HOT_VERSION, now, ack).rows;
      var a := (user, ArchiveVersion(now));
      (ack.first && ack.second ==> a in r && r[a] == Closing(user, loginTime, ArchiveVersion(now), now))
      && (!(ack.first && ack.second) ==> (a in r <==> a in st.rows) && (a in r ==> r[a] == st.rows[a]))
  {
    var st1 := Put(st, Closing(user, loginTime, HOT_VERSION, now), ack.first);
    if ack.first {
      assert LogoutEffect(st, user, loginTime, HOT_VERSION, now, ack)
        == Put(st1, Closing(user, loginTime, ArchiveVersion(now), now), ack.second);
    }
  }

  // ----- handle_logout -----

  /**
   * `handle_logout` after the name is parsed: close the hot slot unless it is
   * already closed. Requests are only appended, and the slots of every other
   * user are left alone.
   */
  function LogoutEventEffect(st: StoreState, user: string, now: nat, ack: Ack): (r: StoreState)
    ensures r.started == st.started && st.sent <= r.sent
    ensures forall k: Key :: k.0 != user ==> (k in r.rows <==> k in st.rows) && (k in r.rows ==> r.rows[k] == st.rows[k])
  {
    var last := LastLogin(st.rows, user);
    if !Truthy(LogoutTimeOf(last)) then LogoutEffect(st, user, LoginTimeOf(last), HOT_VERSION, now, ack)
    else st
  }

  /** A user whose hot slot is closed is not written again: a repeated logout is a no-op. */
  lemma LogoutOfClosedIsNoOp(st: StoreState, user: string, now: nat, ack: Ack)
    requires Truthy(LogoutTimeOf(LastLogin(st.rows, user)))
    ensures LogoutEventEffect(st, user, now, ack) == st
  {
  }

  /**
   * A user whose hot slot is open, or who has none, is logged out: the close
   * of the hot slot is sent, then the archive copy only after the close was
   * stored, and a refused close leaves every item as it was.
   */
  lemma LogoutOfOpenCloses(st: StoreState, user: string, now: nat, ack: Ack)
    requires !Truthy(LogoutTimeOf(LastLogin(st.rows, user)))
    ensures var r := LogoutEventEffect(st, user, now, ack);
      var lt := LoginTimeOf(LastLogin(st.rows, user));
      && r.sent == st.sent + [Closing(user, lt, HOT_VERSION, now)]
           + (if ack.first then [Closing(user, lt, ArchiveVersion(now), now)] else [])
      && (ack.first ==> (user, HOT_VERSION) in r.rows && r.rows[(user, HOT_VERSION)] == Closing(user, lt, HOT_VERSION, now))
      && (!ack.first ==> r.rows == st.rows)
  {
    var lt := LoginTimeOf(LastLogin(st.rows, user));
    LogoutRequests(st, user, lt, now, ack);
    LogoutRows(st, user, lt, now, ack);
  }

  /** After a stored logout at a real time, a second logout of the same user changes nothing. */
  lemma LogoutIdempotent(st: StoreState, user: string, now: nat, ack: Ack, now2: nat, ack2: Ack)
    requires now != 0 && ack.first
    ensures var st1 := LogoutEventEffect(st, user, now, ack);
      LogoutEventEffect(st1, user, now2, ack2) == st1
  {
    var st1 := LogoutEventEffect(st, user, now, ack);
    if !Truthy(LogoutTimeOf(LastLogin(st.rows, user))) {
      LogoutRows(st, user, LoginTimeOf(LastLogin(st.rows, user)), now, ack);
      assert LastLogin(st1.rows, user).value.logoutTime == Some(now);
    }
    LogoutOfClosedIsNoOp(st1, user, now2, ack2);
  }

  // ----- handle_login -----

  /** `last.get('LogoutTime') or not last.get('LoginTime')`: the last session is unusable. */
  predicate NeedsNewLogin(last: Option<Session>)
  {
    Truthy(LogoutTimeOf(last)) || !Truthy(LoginTimeOf(last))
  }

  /** On the empty dict `{}`, a login opens a new session and a logout goes ahead with no login time. */
  lemma EmptyLastLogin()
    ensures NeedsNewLogin(None) && !Truthy(LogoutTimeOf(None)) && LoginTimeOf(None) == None
  {
  }

  /** The request of `log_new_login`: an open hot-slot session that starts at `now`. */
  function NewLogin(user: string, now: nat): Session
  {
    Session(user, HOT_VERSION, Some(now), Some(0))
  }

  /**
   * `handle_login` after the name is parsed: open a new session unless the
   * last one is still open. Once a login at a real time was stored the user's
   * hot slot is usable, and no other slot changes.
   */
  function LoginEventEffect(st: StoreState, user: string, now: nat, ok: bool): (r: StoreState)
    ensures r.started == st.started && st.sent <= r.sent
    ensures ok && now != 0 ==> !NeedsNewLogin(LastLogin(r.rows, user))
    ensures forall k :: k != (user, HOT_VERSION) ==> (k in r.rows <==> k in st.rows) && (k in r.rows ==> r.rows[k] == st.rows[k])
  {
    if NeedsNewLogin(LastLogin(st.rows, user)) then Put(st, NewLogin(user, now), ok) else st
  }

  /** A login sends exactly one request, the new session, when the last session is unusable, and nothing otherwise. */
  lemma LoginCreatesIff(st: StoreState, user: string, now: nat, ok: bool)
    ensures var r := LoginEventEffect(st, user, now, ok);
      NeedsNewLogin(LastLogin(st.rows, user)) <==> r.sent == st.sent + [NewLogin(user, now)]
    ensures var r := LoginEventEffect(st, user, now, ok);
      !NeedsNewLogin(LastLogin(st.rows, user)) <==> r == st
  {
    var r := LoginEventEffect(st, user, now, ok);
    if NeedsNewLogin(LastLogin(st.rows, user)) {
      assert |r.sent| == |st.sent| + 1;
    }
  }

  /** After a stored login at a real time the user has an open session, so a second login is a no-op. */
  lemma LoginIdempotent(st: StoreState, user: string, now: nat, ok: bool, now2: nat, ok2: bool)
    requires now != 0 && ok
    ensures var st1 := LoginEventEffect(st, user, now, ok);
      !NeedsNewLogin(LastLogin(st1.rows, user)) && LoginEventEffect(st1, user, now2, ok2) == st1
  {
    var st1 := LoginEventEffect(st, user, now, ok);
    if NeedsNewLogin(LastLogin(st.rows, user)) {
      assert LastLogin(st1.rows, user) == Some(NewLogin(user, now));
    }
  }

  /**
   * Login, logout at a real time, and login again, for a user whose last
   * session is closed or missing, with every write stored: the user ends with exactly
   * one open session, the fresh one in the hot slot, and one archived copy of
   * the first session, closed at the logout; every other slot of the table,
   * the user's own among them, is as it was.
   */
  lemma LoginLogoutLogin(st: StoreState, user: string, t1: nat, t2: nat, t3: nat)
    requires NeedsNewLogin(LastLogin(st.rows, user))
    requires 0 < t2
    ensures var s1 := LoginEventEffect(st, user, t1, true);
      var s2 := LogoutEventEffect(s1, user, t2, Ack(true, true));
      var s3 := LoginEventEffect(s2, user, t3, true);
      var a := (user, ArchiveVersion(t2));
      && (user, HOT_VERSION) in s3.rows && s3.rows[(user, HOT_VERSION)] == NewLogin(user, t3)
      && a in s3.rows && s3.rows[a] == Session(user, ArchiveVersion(t2), Some(t1), Some(t2))
      && (forall k :: k != (user, HOT_VERSION) && k != a ==>
            (k in s3.rows <==> k in st.rows) && (k in s3.rows ==> s3.rows[k] == st.rows[k]))
  {
    var s1 := LoginEventEffect(st, user, t1, true);
    assert LastLogin(s1.rows, user) == Some(NewLogin(user, t1));
    var s2 := LogoutEventEffect(s1, user, t2, Ack(true, true));
    LogoutRows(s1, user, Some(t1), t2, Ack(true, true));
    assert LastLogin(s2.rows, user) == Some(Closing(user, Some(t1), HOT_VERSION, t2));
  }

  // ----- handle_stop and logout_users.main -----

  /** One iteration of the shutdown loop: `logout_user` for a listed session with a falsy `LogoutTime`. */
  function CloseOne(st: StoreState, u: Session, ack: Ack, now: nat): (r: StoreState)
    ensures r.started == st.started && st.sent <= r.sent
    ensures Truthy(u.logoutTime) ==> r == st
    ensures !Truthy(u.logoutTime) ==>
      |st.sent| < |r.sent| && r.sent[|st.sent|] == Closing(u.username, u.loginTime, HOT_VERSION, now)
  {
    if Truthy(u.logoutTime) then st else LogoutEffect(st, u.username, u.loginTime, HOT_VERSION, now, ack)
  }

  /**
   * The shutdown loop over the listed sessions, in list order; `acks(i)`
   * answers the writes for `users[i]`. It only appends requests, between one
   * and two for each open listed session.
   */
  function CloseAllEffect(st: StoreState, users: seq<Session>, acks: nat -> Ack, now: nat): (r: StoreState)
    ensures r.started == st.started && st.sent <= r.sent
    ensures |st.sent| + OpenCount(users) <= |r.sent| <= |st.sent| + 2 * OpenCount(users)
    decreases |users|
  {
    if users == [] then st
    else
      var n := |users| - 1;
      var mid := CloseAllEffect(st, users[..n], acks, now);
      CloseOneRequests(mid, users[n], acks(n), now);
      CloseOne(mid, users[n], acks(n), now)
  }

  /** How many listed sessions are open (falsy `LogoutTime`): the loop's `count`; 0 exactly when all are closed. */
  function OpenCount(users: seq<Session>): (c: nat)
    ensures c <= |users|
    ensures c == 0 <==> forall i :: 0 <= i < |users| ==> Truthy(users[i].logoutTime)
  {
    if users == [] then 0
    else
      var n := |users| - 1;
      var c := OpenCount(users[..n]) + (if Truthy(users[n].logoutTime) then 0 else 1);
      assert forall i :: 0 <= i < n ==> users[..n][i] == users[i];
      c
  }

  /** Every open listed session, closed at `now`, in list order: the hot-slot requests of a shutdown. */
  function ClosingRequests(users: seq<Session>, now: nat): (reqs: seq<Session>)
    ensures |reqs| == OpenCount(users)
  {
    if users == [] then []
    else
      var u := users[|users| - 1];
      ClosingRequests(users[..|users| - 1], now)
      + (if Truthy(u.logoutTime) then [] else [Closing(u.username, u.loginTime, HOT_VERSION, now)])
  }

  /** The hot-slot requests among `reqs`, in order: every one of them, and nothing else. */
  function HotOnly(reqs: seq<Session>): (hot: seq<Session>)
    ensures multiset(hot) <= multiset(reqs)
    ensures forall x :: x in hot <==> x in reqs && x.version == HOT_VERSION
  {
    if reqs == [] then []
    else
      var n := |reqs| - 1;
      assert reqs == reqs[..n] + [reqs[n]];
      HotOnly(reqs[..n]) + (if reqs[n].version == HOT_VERSION then [reqs[n]] else [])
  }

  lemma {:induction false} HotOnlyAppend(a: seq<Session>, b: seq<Session>)
    ensures HotOnly(a + b) == HotOnly(a) + HotOnly(b)
    decreases |b|
  {
    if b == [] {
      assert a + b == a;
    } else {
      var n := |b| - 1;
      assert (a + b)[..|a + b| - 1] == a + b[..n];
      assert (a + b)[|a + b| - 1] == b[n];
      HotOnlyAppend(a, b[..n]);
    }
  }

  /** The part of `z` after a prefix `x` is what `y` adds to `x` followed by what `z` adds to `y`. */
  lemma SliceSplit(x: seq<Session>, y: seq<Session>, z: seq<Session>)
    requires x <= y <= z
    ensures z[|x|..] == y[|x|..] + z[|y|..]
  {
  }

  /** One shutdown step sends one or two requests for an open session, none for a closed one, and keeps the earlier ones. */
  lemma CloseOneRequests(st: StoreState, u: Session, ack: Ack, now: nat)
    ensures var r := CloseOne(st, u, ack, now);
      r.started == st.started && st.sent <= r.sent
      && HotOnly(r.sent[|st.sent|..]) == (if Truthy(u.logoutTime) then [] else [Closing(u.username, u.loginTime, HOT_VERSION, now)])
      && (Truthy(u.logoutTime) ==> |r.sent| == |st.sent|)
      && (!Truthy(u.logoutTime) ==> |st.sent| + 1 <= |r.sent| <= |st.sent| + 2)
  {
    var r := CloseOne(st, u, ack, now);
    if !Truthy(u.logoutTime) {
      LogoutRequests(st, u.username, u.loginTime, now, ack);
      var c := Closing(u.username, u.loginTime, HOT_VERSION, now);
      var tail := if ack.first then [Closing(u.username, u.loginTime, ArchiveVersion(now), now)] else [];
      assert r.sent[|st.sent|..] == [c] + tail;
      HotOnlyAppend([c], tail);
      assert HotOnly([c]) == HotOnly([]) + [c];
      if ack.first {
        assert HotOnly(tail) == HotOnly([]) + [];
      }
    }
  }

  /**
   * The shutdown loop calls `logout_user` exactly once per open listed session,
   * in list order: the hot-slot requests it sends are `ClosingRequests`.
   */
  lemma {:induction false} CloseAllRequests(st: StoreState, users: seq<Session>, acks: nat -> Ack, now: nat)
    ensures var r := CloseAllEffect(st, users, acks, now);
      r.started == st.started && st.sent <= r.sent
      && HotOnly(r.sent[|st.sent|..]) == ClosingRequests(users, now)
    decreases |users|
  {
    if users == [] {
      assert st.sent[|st.sent|..] == [];
    } else {
      var n := |users| - 1;
      var mid := CloseAllEffect(st, users[..n], acks, now);
      var r := CloseAllEffect(st, users, acks, now);
      CloseAllRequests(st, users[..n], acks, now);
      CloseOneRequests(mid, users[n], acks(n), now);
      SliceSplit(st.sent, mid.sent, r.sent);
      HotOnlyAppend(mid.sent[|st.sent|..], r.sent[|mid.sent|..]);
    }
  }

  /** `count == 0` exactly when the shutdown sends no request at all. */
  lemma NoRequestsIffAllClosed(st: StoreState, users: seq<Session>, acks: nat -> Ack, now: nat)
    ensures CloseAllEffect(st, users, acks, now) == st <==> OpenCount(users) == 0
  {
    CloseAllRequests(st, users, acks, now);
    var r := CloseAllEffect(st, users, acks, now);
    if OpenCount(users) == 0 {
      assert r.sent == st.sent;
      CloseAllRowsOfClosedUsers(st, users, acks, now);
      assert r.rows == st.rows;
    }
  }

  /** With no open listed session, the shutdown changes no slot. */
  lemma {:induction false} CloseAllRowsOfClosedUsers(st: StoreState, users: seq<Session>, acks: nat -> Ack, now: nat)
    requires OpenCount(users) == 0
    ensures CloseAllEffect(st, users, acks, now).rows == st.rows
    decreases |users|
  {
    if users != [] {
      var n := |users| - 1;
      CloseAllRowsOfClosedUsers(st, users[..n], acks, now);
    }
  }

  /** A user with no open listed session keeps every one of their slots through a shutdown. */
  lemma {:induction false} CloseAllFrame(st: StoreState, users: seq<Session>, acks: nat -> Ack, now: nat, k: Key)
    requires forall i :: 0 <= i < |users| && users[i].username == k.0 ==> Truthy(users[i].logoutTime)
    ensures var r := CloseAllEffect(st, users, acks, now).rows;
      (k in r <==> k in st.rows) && (k in r ==> r[k] == st.rows[k])
    decreases |users|
  {
    if users != [] {
      var n := |users| - 1;
      var mid := CloseAllEffect(st, users[..n], acks, now);
      assert CloseAllEffect(st, users, acks, now) == CloseOne(mid, users[n], acks(n), now);
      CloseAllFrame(st, users[..n], acks, now, k);
    }
  }

  /** Every slot a shutdown step stores is closed at `now`; slots already closed at `now` stay so. */
  lemma CloseOneKeepsClosed(st: StoreState, u: Session, ack: Ack, now: nat, k: Key)
    requires k in st.rows ==> st.rows[k].logoutTime == Some(now)
    ensures var r := CloseOne(st, u, ack, now).rows;
      k in r ==> r[k].logoutTime == Some(now)
  {
    if !Truthy(u.logoutTime) {
      LogoutRows(st, u.username, u.loginTime, now, ack);
    }
  }

  /** After a shutdown, every open listed user whose close was stored has a hot slot closed at `now`. */
  lemma {:induction false} CloseAllClosesHot(st: StoreState, users: seq<Session>, acks: nat -> Ack, now: nat, i: nat)
    requires i < |users| && !Truthy(users[i].logoutTime) && acks(i).first
    ensures var r := CloseAllEffect(st, users, acks, now).rows;
      var k := (users[i].username, HOT_VERSION);
      k in r && r[k].logoutTime == Some(now)
    decreases |users|
  {
    var n := |users| - 1;
    var k := (users[i].username, HOT_VERSION);
    var mid := CloseAllEffect(st, users[..n], acks, now);
    assert CloseAllEffect(st, users, acks, now) == CloseOne(mid, users[n], acks(n), now);
    if i < n {
      CloseAllClosesHot(st, users[..n], acks, now, i);
      CloseOneKeepsClosed(mid, users[n], acks(n), now, k);
    }
  }

  /** Shutdown with A and B open and C closed: two users logged out, C untouched. */
  lemma ShutdownExample(st: StoreState, a: Session, b: Session, c: Session, now: nat)
    requires a.logoutTime == Some(0) && b.logoutTime == None && c.logoutTime == Some(1700000000)
    requires c.username != a.username && c.username != b.username
    ensures var r := CloseAllEffect(st, [a, b, c], (i: nat) => Ack(true, true), now);
      OpenCount([a, b, c]) == 2
      && (a.username, HOT_VERSION) in r.rows && r.rows[(a.username, HOT_VERSION)].logoutTime == Some(now)
      && (b.username, HOT_VERSION) in r.rows && r.rows[(b.username, HOT_VERSION)].logoutTime == Some(now)
      && ((c.username, HOT_VERSION) in r.rows <==> (c.username, HOT_VERSION) in st.rows)
      && ((c.username, HOT_VERSION) in st.rows ==> r.rows[(c.username, HOT_VERSION)] == st.rows[(c.username, HOT_VERSION)])
  {
    var users := [a, b, c];
    var acks := (i: nat) => Ack(true, true);
    assert users[..2] == [a, b] && users[..2][..1] == [a] && users[..2][..1][..0] == [];
    assert OpenCount([a]) == 1;
    assert OpenCount([a, b]) == 2;
    CloseAllClosesHot(st, users, acks, now, 0);
    CloseAllClosesHot(st, users, acks, now, 1);
    CloseAllFrame(st, users, acks, now, (c.username, HOT_VERSION));
  }

  // ----- handle_server_start -----

  /** How the tailer goes on after a line. */
  datatype Status = Continue | Exit | Crash

  /**
   * `handle_server_start` as written: on a non-2xx reply it calls `print_log`
   * with two arguments, which raises TypeError and ends the tailer.
   */
  function StartStatusAsWritten(status: int): (s: Status)
    ensures s == Crash <==> !IsSuccess(status)
    ensures s == Continue <==> IsSuccess(status)
  {
    if IsSuccess(status) then Continue else Crash
  }

  /** A 500 reply to `markStarted` crashes the tailer as written. */
  lemma StartFailureCrashes()
    ensures StartStatusAsWritten(500) == Crash
  {
    SuccessOnHttpCodes(500);
  }

  /** `handle_server_start` as intended: a failed notification is logged and the tailer goes on. */
  function StartStatus(status: int): (s: Status)
    ensures s == Continue
  {
    Continue
  }

  // ----- handle_log -----

  /** What the world answers while one line is handled. */
  datatype Env = Env(
    now: nat,               // floor(time()) during the handler
    loginOk: bool,          // reply to log_new_login's write
    logoutAck: Ack,         // replies to logout_user's writes
    startStatus: int,       // status of the markStarted reply
    usersStatus: int,       // status of get_users' reply
    usersBody: Body,        // body of get_users' reply
    stopAcks: nat -> Ack)   // replies to the shutdown's writes for the i-th listed session

  /**
   * `handle_log`: the store and the tailer's status after one line. A login or
   * logout line with fewer than four tokens raises IndexError (`Crash`); a
   * shutdown line closes every open listed session and exits. Only a
   * server-start line sends a notification, and a crashing line leaves the
   * store as it was.
   */
  function LineEffect(st: StoreState, line: string, env: Env): (r: (StoreState, Status))
    ensures r.1 == Crash ==> r.0 == st
  {
    var action := Classify(line);
    if action == MarkStarted then (st.(started := st.started + 1), StartStatus(env.startStatus))
    else if action == Login then
      (match LoggedInUser(line)
       case None => (st, Crash)
       case Some(user) => (LoginEventEffect(st, user, env.now, env.loginOk), Continue))
    else if action == Logout then
      (match LoggedOutUser(line)
       case None => (st, Crash)
       case Some(user) => (LogoutEventEffect(st, user, env.now, env.logoutAck), Continue))
    else if action == Stop then
      (CloseAllEffect(st, GetUsers(env.usersStatus, env.usersBody), env.stopAcks, env.now), Exit)
    else (st, Continue)
  }

  /** A line only ever appends requests to those already sent. */
  lemma LineOnlyAppends(st: StoreState, line: string, env: Env)
    ensures st.sent <= LineEffect(st, line, env).0.sent
  {
  }

  /** Lines nothing handles, the empty read among them, leave the store alone and the tailer running. */
  lemma IgnoredLineChangesNothing(st: StoreState, line: string, env: Env)
    requires Classify(line) == Ignore
    ensures LineEffect(st, line, env) == (st, Continue)
  {
  }

  /** Exactly the server-start lines send a `markStarted` notification, one each. */
  lemma LineNotifies(st: StoreState, line: string, env: Env)
    ensures LineEffect(st, line, env).0.started == st.started + (if Classify(line) == MarkStarted then 1 else 0)
  {
  }

  /** A server-start line never stops the tailer and sends one notification. */
  lemma StartLineContinues(st: StoreState, line: string, env: Env)
    requires Classify(line) == MarkStarted
    ensures LineEffect(st, line, env) == (st.(started := st.started + 1), Continue)
  {
  }

  /** Only a shutdown line exits, and only a login or logout line without a fourth token crashes. */
  lemma LineStatus(st: StoreState, line: string, env: Env)
    ensures LineEffect(st, line, env).1 == Exit <==> Classify(line) == Stop
    ensures LineEffect(st, line, env).1 == Crash <==>
      (Classify(line) == Login || Classify(line) == Logout) && Token(line, 3).None?
  {
  }

  // ----- the methods that drive the store -----

  /** `logout_user(username, login_time, version)`. */
  method LogoutUser(store: Store, user: string, loginTime: Option<int>, version: string, now: nat, ack: Ack)
    modifies store
    ensures store.State() == LogoutEffect(old(store.State()), user, loginTime, version, now, ack)
    decreases if version == HOT_VERSION then 1 else 0
  {
    store.Upsert(Closing(user, loginTime, version, now), ack.first);
    if ack.first && version == HOT_VERSION {
      LogoutUser(store, user, loginTime, ArchiveVersion(now), now, Ack(ack.second, false));
    }
  }

  /** `log_new_login(username)`. */
  method LogNewLogin(store: Store, user: string, now: nat, ok: bool)
    modifies store
    ensures store.State() == Put(old(store.State()), NewLogin(user, now), ok)
  {
    store.Upsert(NewLogin(user, now), ok);
  }

  /** `handle_login` once the name is parsed. */
  method HandleLogin(store: Store, user: string, now: nat, ok: bool)
    modifies store
    ensures store.State() == LoginEventEffect(old(store.State()), user, now, ok)
  {
    var last := LastLogin(store.rows, user);
    if NeedsNewLogin(last) {
      LogNewLogin(store, user, now, ok);
    }
  }

  /** `handle_logout` once the name is parsed. */
  method HandleLogout(store: Store, user: string, now: nat, ack: Ack)
    modifies store
    ensures store.State() == LogoutEventEffect(old(store.State()), user, now, ack)
  {
    var last := LastLogin(store.rows, user);
    if !Truthy(LogoutTimeOf(last)) {
      LogoutUser(store, user, LoginTimeOf(last), HOT_VERSION, now, ack);
    }
  }

  /** One more listed session adds its own `count` and its own shutdown step. */
  lemma CloseAllStep(st: StoreState, users: seq<Session>, acks: nat -> Ack, now: nat, i: nat)
    requires i < |users|
    ensures OpenCount(users[..i + 1]) == OpenCount(users[..i]) + (if Truthy(users[i].logoutTime) then 0 else 1)
    ensures CloseAllEffect(st, users[..i + 1], acks, now) == CloseOne(CloseAllEffect(st, users[..i], acks, now), users[i], acks(i), now)
  {
    assert users[..i + 1][..i] == users[..i];
  }

  /** The shutdown loop shared by `handle_stop` and `logout_users.main`; `count` is the number of users logged out. */
  method CloseAllOpen(store: Store, users: seq<Session>, acks: nat -> Ack, now: nat) returns (count: nat)
    modifies store
    ensures count == OpenCount(users)
    ensures store.State() == CloseAllEffect(old(store.State()), users, acks, now)
  {
    count := 0;
    var i := 0;
    while i < |users|
      invariant 0 <= i <= |users|
      invariant count == OpenCount(users[..i])
      invariant store.State() == CloseAllEffect(old(store.State()), users[..i], acks, now)
    {
      ghost var before := store.State();
      CloseAllStep(old(store.State()), users, acks, now, i);
      if !Truthy(users[i].logoutTime) {
        count := count + 1;
        LogoutUser(store, users[i].username, users[i].loginTime, HOT_VERSION, now, acks(i));
      }
      assert store.State() == CloseOne(before, users[i], acks(i), now);
      i := i + 1;
    }
    assert users[..|users|] == users;
  }

  /** `logout_users.main`: close every open listed session; `noAction` is the "already logged out" message. */
  method LogoutUsersMain(store: Store, status: int, body: Body, acks: nat -> Ack, now: nat) returns (count: nat, noAction: bool)
    modifies store
    ensures count == OpenCount(GetUsers(status, body))
    ensures noAction <==> count == 0
    ensures store.State() == CloseAllEffect(old(store.State()), GetUsers(status, body), acks, now)
  {
    count := CloseAllOpen(store, GetUsers(status, body), acks, now);
    noAction := count == 0;
  }

  /** `handle_stop`: the shutdown loop, then `sys.exit(0)`. */
  method HandleStop(store: Store, env: Env) returns (status: Status)
    modifies store
    ensures status == Exit
    ensures store.State() == CloseAllEffect(old(store.State()), GetUsers(env.usersStatus, env.usersBody), env.stopAcks, env.now)
  {
    var _ := CloseAllOpen(store, GetUsers(env.usersStatus, env.usersBody), env.stopAcks, env.now);
    status := Exit;
  }

  /** `handle_server_start`: send the notification; its reply decides nothing in the corrected model. */
  method MarkServerStarted(store: Store, startStatus: int) returns (status: Status)
    modifies store
    ensures status == StartStatus(startStatus)
    ensures store.State() == old(store.State()).(started := old(store.started) + 1)
  {
    store.NotifyStarted();
    status := StartStatus(startStatus);
  }

  /** `handle_log(line)`: dispatch to the first handler whose markers the line contains. */
  method HandleLog(store: Store, line: string, env: Env) returns (status: Status)
    modifies store
    ensures (store.State(), status) == LineEffect(old(store.State()), line, env)
  {
    var action := Classify(line);
    if action == MarkStarted {
      status := MarkServerStarted(store, env.startStatus);
    } else if action == Login {
      var user := LoggedInUser(line);
      if user.None? {
        status := Crash;
      } else {
        HandleLogin(store, user.value, env.now, env.loginOk);
        status := Continue;
      }
    } else if action == Logout {
      var user := LoggedOutUser(line);
      if user.None? {
        status := Crash;
      } else {
        HandleLogout(store, user.value, env.now, env.logoutAck);
        status := Continue;
      }
    } else if action == Stop {
      status := HandleStop(store, env);
    } else {
      status := Continue;
    }
  }
}
