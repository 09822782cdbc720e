/**
 * The login table behind the session API: its items, Python's truthiness of
 * their optional time fields, the status test every call makes, the handling
 * of the `getLogins` response, and the table itself as a map keyed by
 * `(Username, Version)` that upserts overwrite.
 */
module Sessions {
  import opened Wrappers
  import opened PyText

  /** `API_VERSION`: the sort key of the slot that holds a user's current session. */
  const HOT_VERSION := "v1"

  /**
   * One item of the login table. `Username` and `Version` are the table's key
   * and always present; either time field can be missing (`null`).
   */
  datatype Session = Session(username: string, version: string, loginTime: Option<int>, logoutTime: Option<int>)

  type Key = (string, string)

  function KeyOf(s: Session): Key
  {
    (s.username, s.version)
  }

  /** Python truthiness of an optional integer: missing and 0 are both unset. */
  predicate Truthy(v: Option<int>)
  {
    v.Some? && v.value != 0
  }

  /** `last.get('LoginTime')`, where `None` stands for the empty dict `{}`. */
  function LoginTimeOf(last: Option<Session>): Option<int>
  {
    if last.Some? then last.value.loginTime else None
  }

  /** `last.get('LogoutTime')`, where `None` stands for the empty dict `{}`. */
  function LogoutTimeOf(last: Option<Session>): Option<int>
  {
    if last.Some? then last.value.logoutTime else None
  }

  /** Missing and 0 are the falsy times; every other value is set. */
  lemma TruthyCases()
    ensures !Truthy(None) && !Truthy(Some(0))
    ensures forall t: int :: t != 0 ==> Truthy(Some(t))
  {
  }

  /** The empty dict `{}` has neither time, and an item's `.get` reads its own field. */
  lemma GetOfLastLogin()
    ensures LoginTimeOf(None) == None && LogoutTimeOf(None) == None
    ensures forall s: Session :: LoginTimeOf(Some(s)) == s.loginTime
    ensures forall s: Session :: LogoutTimeOf(Some(s)) == s.logoutTime
  {
  }

  /** `str(status)[0] == '2'`: the test every call applies to the HTTP status. */
  predicate IsSuccess(status: int)
  {
    status >= 0 && NatToString(status)[0] == '2'
  }

  /** The status test accepts exactly the numbers whose leading digit is 2. */
  lemma SuccessIsLeadingTwo(status: int)
    ensures IsSuccess(status) <==> status >= 0 && LeadingDigit(status) == 2
  {
    if status >= 0 {
      NatToStringHead(status);
      if NatToString(status)[0] == '2' {
        assert DigitValue(DigitChar(LeadingDigit(status))) == LeadingDigit(status);
      }
    }
  }

  /** On three-digit codes the status test is the 2xx class. */
  lemma SuccessOnHttpCodes(status: int)
    requires 100 <= status <= 999
    ensures IsSuccess(status) <==> 200 <= status <= 299
  {
    SuccessIsLeadingTwo(status);
    assert LeadingDigit(status) == LeadingDigit(status / 10) == status / 100;
  }

  /** The body of a `getLogins` response: the literal `null`, or a JSON list of items. */
  datatype Body = Null | Items(items: seq<Session>)

  /** `get_users`: the listed items, or `[]` for a `null` body or a non-2xx status. */
  function GetUsers(status: int, body: Body): (users: seq<Session>)
    ensures !IsSuccess(status) || body.Null? ==> users == []
    ensures IsSuccess(status) && body.Items? ==> users == body.items
  {
    if body.Null? || !IsSuccess(status) then [] else body.items
  }

  /** What `get_last_login` returns: an item, `{}` (None), or IndexError on an empty list. */
  datatype Fetched = Found(last: Option<Session>) | IndexError

  /**
   * `get_last_login`: the first listed item, `{}` for a `null` body or a
   * non-2xx status. Both handlers read the same response, so this is the head
   * of what `get_users` gives, and it raises when an accepted response lists
   * nothing.
   */
  function GetLastLogin(status: int, body: Body): (r: Fetched)
    ensures r == IndexError <==> IsSuccess(status) && body.Items? && GetUsers(status, body) == []
    ensures r == Found(None) <==> body.Null? || !IsSuccess(status)
    ensures r.Found? && r.last.Some? ==> GetUsers(status, body) != [] && r.last.value == GetUsers(status, body)[0]
  {
    if body.Null? || !IsSuccess(status) then Found(None)
    else if body.items == [] then IndexError
    else Found(Some(body.items[0]))
  }

  /**
   * What the model observes of the table: its items by key, every upsert
   * request sent (in order, accepted or not), and how many `markStarted`
   * notifications were sent.
   */
  datatype StoreState = StoreState(rows: map<Key, Session>, sent: seq<Session>, started: nat)

  /** One `upsertLogin` request; `ok` is whether the service answered 2xx and stored it. */
  function Put(st: StoreState, s: Session, ok: bool): (r: StoreState)
    ensures r.sent == st.sent + [s] && r.started == st.started
    ensures ok ==> KeyOf(s) in r.rows && r.rows[KeyOf(s)] == s
    ensures forall k :: k != KeyOf(s) || !ok ==> (k in r.rows <==> k in st.rows)
    ensures forall k :: (k != KeyOf(s) || !ok) && k in st.rows ==> r.rows[k] == st.rows[k]
  {
    StoreState(if ok then st.rows[KeyOf(s) := s] else st.rows, st.sent + [s], st.started)
  }

  /** `get_last_login(user)` read from the table: the user's hot slot, or `{}`. */
  function LastLogin(rows: map<Key, Session>, user: string): (last: Option<Session>)
    ensures last.Some? <==> (user, HOT_VERSION) in rows
    ensures last.Some? ==> last.value == rows[(user, HOT_VERSION)]
  {
    if (user, HOT_VERSION) in rows then Some(rows[(user, HOT_VERSION)]) else None
  }

  /** The remote login table, written through `upsertLogin` and notified through `markStarted`. */
  class Store {
    var rows: map<Key, Session>
    var sent: seq<Session>
    var started: nat

    function State(): StoreState
      reads this
    {
      StoreState(rows, sent, started)
    }

    constructor (initial: map<Key, Session>)
      ensures State() == StoreState(initial, [], 0)
    {
      rows := initial;
      sent := [];
      started := 0;
    }

    /** Send one upsert request; the service stored it exactly when `ok`. */
    method Upsert(s: Session, ok: bool)
      modifies this
      ensures State() == Put(old(State()), s, ok)
    {
      if ok {
        rows := rows[KeyOf(s) := s];
      }
      sent := sent + [s];
    }

    /** Send one `markStarted` notification; it changes no item. */
    method NotifyStarted()
      modifies this
      ensures State() == old(State()).(started := old(started) + 1)
    {
      started := started + 1;
    }
  }
}
