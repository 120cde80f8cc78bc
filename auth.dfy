/** The session logic of `AuthService`: one cookie that holds the signed-in
    user, and four requests whose replies decide what happens to it. */
module Auth {
  import opened Wrappers

  /** The user record the server returns; its fields are not inspected here. */
  datatype User = User(json: string)

  /** An HTTP response that reached the success path of the request. */
  datatype Response = Response(ok: bool, status: int, body: User)

  /** What a request produced: a value on the success path (which may be
      null), or an error with its status code. */
  datatype Reply = Answered(res: Option<Response>) | Errored(status: int)

  /** The value a call yields: a boolean it produced itself, the response it
      passes through (`login` and `signup` do the latter), or `undefined`
      from a call that returns nothing (`clearUser`). */
  datatype Emission = Flag(b: bool) | Passed(res: Option<Response>) | Undefined

  /** JavaScript truthiness of an emission: a response object is truthy, null
      and `false` are not. */
  predicate Truthy(e: Emission)
  {
    match e
    case Flag(b) => b
    case Passed(res) => res.Some?
    case Undefined => false
  }

  /** One call on the service, together with the reply it got. */
  datatype Op =
    | IsAuthenticated(reply: Reply)
    | Login(email: string, password: string, reply: Reply)
    | Signup(email: string, password: string, reply: Reply)
    | Logout(reply: Reply)
    | ClearUser

  /** An operation that stores a user in the cookie. */
  predicate Stores(op: Op)
  {
    (op.Login? || op.Signup?) && op.reply.Answered? && op.reply.res.Some?
  }

  /** An operation that removes the cookie. */
  predicate Clears(op: Op)
  {
    match op
    case IsAuthenticated(reply) => !(reply.Answered? && reply.res.Some?)
    case Logout(reply) => reply.Answered? && reply.res.Some? && reply.res.value.ok
    case ClearUser => true
    case _ => false
  }

  /** The emission and the new cookie after `op`, starting from `stored`.
      `isAuthenticated` keeps the user only on a present response and clears
      it on anything else, a 403 included; `login` and `signup` store the
      body of a present response and pass the response on; `logout` clears
      the user only on a response whose `ok` is set (a null response makes
      reading `ok` throw, which the error path turns into `false`). */
  function Step(stored: Option<User>, op: Op): (r: (Emission, Option<User>))
    ensures Stores(op) ==> r.1 == Some(op.reply.res.value.body)
    ensures Clears(op) ==> r.1 == None
    ensures !Stores(op) && !Clears(op) ==> r.1 == stored
    ensures op.IsAuthenticated? ==> (Truthy(r.0) <==> !Clears(op))
    ensures op.Logout? ==> (Truthy(r.0) <==> Clears(op))
    ensures (op.Login? || op.Signup?) ==> (Truthy(r.0) <==> Stores(op))
  {
    match op
    case IsAuthenticated(reply) =>
      if reply.Answered? && reply.res.Some? then (Flag(true), stored) else (Flag(false), None)
    case Login(_, _, reply) =>
      if reply.Errored? then (Flag(false), stored)
      else if reply.res.Some? then (Passed(reply.res), Some(reply.res.value.body))
      else (Passed(reply.res), stored)
    case Signup(_, _, reply) =>
      if reply.Errored? then (Flag(false), stored)
      else if reply.res.Some? then (Passed(reply.res), Some(reply.res.value.body))
      else (Passed(reply.res), stored)
    case Logout(reply) =>
      if reply.Answered? && reply.res.Some? && reply.res.value.ok then (Flag(true), None)
      else (Flag(false), stored)
    case ClearUser =>
      (Undefined, None)
  }

  /** The cookie after the calls `ops`, in order, starting from `init`. */
  function Run(init: Option<User>, ops: seq<Op>): Option<User>
  {
    if ops == [] then init else Step(Run(init, ops[..|ops| - 1]), ops[|ops| - 1]).1
  }

  /** A stored user is the one the session started with, or the body of a
      login or signup that succeeded. */
  lemma {:induction false} StoredUserProvenance(init: Option<User>, ops: seq<Op>)
    requires Run(init, ops).Some?
    ensures Run(init, ops) == init
         || exists k :: 0 <= k < |ops| && Stores(ops[k]) && ops[k].reply.res.value.body == Run(init, ops).value
    decreases |ops|
  {
    if ops != [] {
      var last := |ops| - 1;
      var before := ops[..last];
      if Stores(ops[last]) {
      } else {
        assert !Clears(ops[last]);
        StoredUserProvenance(init, before);
        if Run(init, before) != init {
          var k :| 0 <= k < |before| && Stores(before[k]) && before[k].reply.res.value.body == Run(init, before).value;
          assert ops[k] == before[k];
        }
      }
    }
  }

  /** After a call that clears the cookie (a failed identity check, a
      successful logout, `clearUser`), nobody is signed in until a later
      login or signup succeeds. */
  lemma {:induction false} ClearedUntilStored(init: Option<User>, ops: seq<Op>, k: nat)
    requires k < |ops| && Clears(ops[k])
    requires forall m | k < m < |ops| :: !Stores(ops[m])
    ensures Run(init, ops) == None
    decreases |ops|
  {
    var last := |ops| - 1;
    if k < last {
      ClearedUntilStored(init, ops[..last], k);
    }
  }

  /** Identity checks that succeed never change who is signed in. */
  lemma {:induction false} ChecksKeepUser(init: Option<User>, ops: seq<Op>)
    requires forall m | 0 <= m < |ops| :: ops[m].IsAuthenticated? && !Clears(ops[m])
    ensures Run(init, ops) == init
    decreases |ops|
  {
    if ops != [] {
      ChecksKeepUser(init, ops[..|ops| - 1]);
    }
  }

  /** `AuthService`: the cookie `currentUser` is the one field it changes. */
  class AuthService {
    var cookie: Option<User>

    /** The service starts with whatever cookie the browser already holds. */
    constructor(existing: Option<User>)
      ensures cookie == existing
    {
      cookie := existing;
    }

    /** `getUser()`. */
    method GetUser() returns (u: Option<User>)
      ensures u == cookie
    {
      u := cookie;
    }

    /** `setUser(value)`. */
    method SetUser(value: User)
      modifies this
      ensures cookie == Some(value)
    {
      cookie := Some(value);
    }

    /** `clearUser()`: removing the cookie, also when there is none. */
    method ClearUser()
      modifies this
      ensures cookie == None
      ensures (Undefined, cookie) == Step(old(cookie), Op.ClearUser)
    {
      cookie := None;
    }

    /** `isAuthenticated()` with the reply to `GET /user/identity`. */
    method IsAuthenticated(reply: Reply) returns (authenticated: bool)
      modifies this
      ensures authenticated <==> reply.Answered? && reply.res.Some?
      ensures cookie == if authenticated then old(cookie) else None
      ensures (Flag(authenticated), cookie) == Step(old(cookie), Op.IsAuthenticated(reply))
    {
      match reply
      case Answered(res) =>
        if res.Some? {
          authenticated := true;
        } else {
          ClearUser();
          authenticated := false;
        }
      case Errored(status) =>
        ClearUser();
        authenticated := false;
    }

    /** `login(email, password)` with the reply to `PUT /user/login`. */
    method Login(email: string, password: string, reply: Reply) returns (e: Emission)
      modifies this
      ensures reply.Answered? ==> e == Passed(reply.res)
      ensures reply.Errored? ==> e == Flag(false)
      ensures cookie == if reply.Answered? && reply.res.Some? then Some(reply.res.value.body) else old(cookie)
      ensures (e, cookie) == Step(old(cookie), Op.Login(email, password, reply))
    {
      match reply
      case Answered(res) =>
        if res.Some? {
          SetUser(res.value.body);
        }
        e := Passed(res);
      case Errored(_) =>
        e := Flag(false);
    }

    /** `signup(email, password)` with the reply to `POST /user`. */
    method Signup(email: string, password: string, reply: Reply) returns (e: Emission)
      modifies this
      ensures reply.Answered? ==> e == Passed(reply.res)
      ensures reply.Errored? ==> e == Flag(false)
      ensures cookie == if reply.Answered? && reply.res.Some? then Some(reply.res.value.body) else old(cookie)
      ensures (e, cookie) == Step(old(cookie), Op.Signup(email, password, reply))
    {
      match reply
      case Answered(res) =>
        if res.Some? {
          SetUser(res.value.body);
        }
        e := Passed(res);
      case Errored(_) =>
        e := Flag(false);
    }

    /** `logout()` with the reply to `GET /user/logout`. */
    method Logout(reply: Reply) returns (loggedOut: bool)
      modifies this
      ensures loggedOut <==> reply.Answered? && reply.res.Some? && reply.res.value.ok
      ensures cookie == if loggedOut then None else old(cookie)
      ensures (Flag(loggedOut), cookie) == Step(old(cookie), Op.Logout(reply))
    {
      match reply
      case Answered(res) =>
        if res.None? {
          // Reading `ok` of null throws; the error path yields false.
          loggedOut := false;
        } else if res.value.ok {
          ClearUser();
          loggedOut := true;
        } else {
          loggedOut := false;
        }
      case Errored(_) =>
        loggedOut := false;
    }
  }
}
