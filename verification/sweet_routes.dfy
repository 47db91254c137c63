/**
  The router of backend/routes/sweetRoutes.js: which handler a request
  reaches, and whether the caller may run it.

  Paths are given as their segments below the router's mount point, so
  `/search` is `["search"]` and `/:id/purchase` is `[id, "purchase"]`.
  Authentication runs on every request before any route is matched; a route
  marked admin-only then refuses every other role.
*/
module SweetRoutes {
  import opened Wrappers
  import opened SweetSchema
  import opened SweetController

  datatype Verb = GET | POST | PUT | DELETE

  datatype Role = UserRole | AdminRole

  /** Who sent the request, as the authentication step establishes it. */
  datatype Caller = Anonymous | Authenticated(id: UserId, role: Role)

  /** The operations the router binds, one per controller handler. */
  datatype Operation =
    | GetAllSweets | SearchSweets | GetSweet | PurchaseSweet
    | CreateSweet | UpdateSweet | DeleteSweet | RestockSweet

  // ---------------------------------------------------------------------------
  // Access table
  // ---------------------------------------------------------------------------

  /** The operations mounted behind the admin guard. */
  predicate AdminOnly(op: Operation) {
    op.CreateSweet? || op.UpdateSweet? || op.DeleteSweet? || op.RestockSweet?
  }

  /** Whether a caller, authenticated or not, may run `op`. */
  function Allowed(caller: Caller, op: Operation): (allow: bool)
    ensures caller.Anonymous? ==> !allow
    ensures caller.Authenticated? && !AdminOnly(op) ==> allow
    ensures caller.Authenticated? && AdminOnly(op) ==> (allow <==> caller.role == AdminRole)
  {
    match caller
    case Anonymous => false
    case Authenticated(_, role) => role == AdminRole || !AdminOnly(op)
  }

  /** An admin may run every operation; any other role exactly the four that read or purchase. */
  lemma AccessTable(id: UserId, op: Operation)
    ensures Allowed(Authenticated(id, AdminRole), op)
    ensures Allowed(Authenticated(id, UserRole), op)
      <==> op in {GetAllSweets, SearchSweets, GetSweet, PurchaseSweet}
  {
  }

  // ---------------------------------------------------------------------------
  // Route table
  // ---------------------------------------------------------------------------

  /** A path segment of a route: a literal, or the `:id` parameter. */
  datatype Segment = Literal(text: string) | IdParam

  datatype Route = Route(verb: Verb, pattern: seq<Segment>, op: Operation)

  /** The routes in the order they are registered; the first that matches wins. */
  const Routes: seq<Route> := [
    Route(GET, [], GetAllSweets),
    Route(GET, [Literal("search")], SearchSweets),
    Route(GET, [IdParam], GetSweet),
    Route(POST, [IdParam, Literal("purchase")], PurchaseSweet),
    Route(POST, [], CreateSweet),
    Route(PUT, [IdParam], UpdateSweet),
    Route(DELETE, [IdParam], DeleteSweet),
    Route(POST, [IdParam, Literal("restock")], RestockSweet)
  ]

  /** A parameter segment takes any non-empty segment; a literal only itself. */
  predicate SegmentMatches(p: Segment, s: string) {
    match p
    case Literal(t) => s == t
    case IdParam => s != ""
  }

  predicate RouteMatches(r: Route, verb: Verb, path: seq<string>) {
    && r.verb == verb
    && |r.pattern| == |path|
    && forall i | 0 <= i < |path| :: SegmentMatches(r.pattern[i], path[i])
  }

  /** The position of the first route of `table` that matches, if any. */
  function FirstMatch(table: seq<Route>, verb: Verb, path: seq<string>): (k: Option<nat>)
    ensures k.Some? ==> k.value < |table| && RouteMatches(table[k.value], verb, path)
    ensures k.Some? ==> forall j | 0 <= j < k.value :: !RouteMatches(table[j], verb, path)
    ensures k.None? <==> forall j | 0 <= j < |table| :: !RouteMatches(table[j], verb, path)
  {
    if table == [] then None
    else if RouteMatches(table[0], verb, path) then Some(0)
    else
      match FirstMatch(table[1..], verb, path)
      case None => None
      case Some(j) => Some(j + 1)
  }

  /** The value the `:id` parameter of a pattern captures; every pattern here has it first. */
  function Capture(pattern: seq<Segment>, path: seq<string>): Id {
    if pattern != [] && path != [] && pattern[0] == IdParam then path[0] else ""
  }

  /** How the router disposes of a request. */
  datatype Decision =
    | Unauthenticated            // 401, from the authentication step
    | NoRoute                    // no route of this router matches
    | Forbidden                  // 403, from the admin guard
    | Admit(op: Operation, id: Id)

  /** The route `Routes[k]` is the one a request for `verb` and `path` reaches. */
  predicate Selects(verb: Verb, path: seq<string>, k: int) {
    && 0 <= k < |Routes|
    && RouteMatches(Routes[k], verb, path)
    && forall j | 0 <= j < k :: !RouteMatches(Routes[j], verb, path)
  }

  /**
    Authentication first, for every path; then the first matching route;
    then its guard.
  */
  function Dispatch(caller: Caller, verb: Verb, path: seq<string>): (d: Decision)
    ensures caller.Anonymous? <==> d == Unauthenticated
    ensures d == NoRoute <==> caller.Authenticated? && forall r | r in Routes :: !RouteMatches(r, verb, path)
    ensures d.Forbidden? <==> exists k :: Selects(verb, path, k) && !Allowed(caller, Routes[k].op) && caller.Authenticated?
    ensures d.Admit? ==> exists k :: Selects(verb, path, k) && Allowed(caller, Routes[k].op) && d.op == Routes[k].op
  {
    if caller.Anonymous? then Unauthenticated
    else
      match FirstMatch(Routes, verb, path)
      case None => NoRoute
      case Some(k) =>
        assert Selects(verb, path, k);
        var r := Routes[k];
        if Allowed(caller, r.op) then Admit(r.op, Capture(r.pattern, path)) else Forbidden
  }

  /** An admitted request always runs an operation its caller is allowed to run. */
  lemma {:induction false} AdmittedIsAllowed(caller: Caller, verb: Verb, path: seq<string>)
    ensures Dispatch(caller, verb, path).Admit? ==> Allowed(caller, Dispatch(caller, verb, path).op)
  {
    if Dispatch(caller, verb, path).Admit? {
      var k :| Selects(verb, path, k) && Allowed(caller, Routes[k].op) && Dispatch(caller, verb, path).op == Routes[k].op;
    }
  }

  /** `FirstMatch` finds the route that matches with no matching route before it. */
  lemma FirstMatchIs(table: seq<Route>, verb: Verb, path: seq<string>, k: nat)
    requires k < |table| && RouteMatches(table[k], verb, path)
    requires forall j | 0 <= j < k :: !RouteMatches(table[j], verb, path)
    ensures FirstMatch(table, verb, path) == Some(k)
  {
  }

  /** An authenticated request whose first matching route is `Routes[k]` is admitted to it or forbidden by its guard. */
  lemma DispatchTo(caller: Caller, verb: Verb, path: seq<string>, k: nat)
    requires caller.Authenticated?
    requires k < |Routes| && RouteMatches(Routes[k], verb, path)
    requires forall j | 0 <= j < k :: !RouteMatches(Routes[j], verb, path)
    ensures Dispatch(caller, verb, path)
      == if Allowed(caller, Routes[k].op) then Admit(Routes[k].op, Capture(Routes[k].pattern, path)) else Forbidden
  {
    FirstMatchIs(Routes, verb, path, k);
  }

  // Each route as an authenticated caller reaches it. The four routes without
  // a guard admit every role; `/search` is matched before `/:id`.

  lemma ListRoute(caller: Caller)
    requires caller.Authenticated?
    ensures Dispatch(caller, GET, []) == Admit(GetAllSweets, "")
  {
    DispatchTo(caller, GET, [], 0);
  }

  lemma SearchRoute(caller: Caller)
    requires caller.Authenticated?
    ensures Dispatch(caller, GET, ["search"]) == Admit(SearchSweets, "")
  {
    assert !RouteMatches(Routes[0], GET, ["search"]);
    DispatchTo(caller, GET, ["search"], 1);
  }

  lemma GetOneRoute(caller: Caller, id: Id)
    requires caller.Authenticated?
    requires id != "" && id != "search"
    ensures Dispatch(caller, GET, [id]) == Admit(GetSweet, id)
  {
    assert !RouteMatches(Routes[0], GET, [id]);
    assert !SegmentMatches(Routes[1].pattern[0], [id][0]);
    DispatchTo(caller, GET, [id], 2);
  }

  lemma PurchaseRoute(caller: Caller, id: Id)
    requires caller.Authenticated?
    requires id != ""
    ensures Dispatch(caller, POST, [id, "purchase"]) == Admit(PurchaseSweet, id)
  {
    assert RouteMatches(Routes[3], POST, [id, "purchase"]);
    DispatchTo(caller, POST, [id, "purchase"], 3);
  }

  // The four routes behind the admin guard: admitted for an admin, forbidden
  // for every other role.

  lemma CreateRoute(caller: Caller)
    requires caller.Authenticated?
    ensures Dispatch(caller, POST, []) == if caller.role == AdminRole then Admit(CreateSweet, "") else Forbidden
  {
    assert !RouteMatches(Routes[3], POST, []);
    DispatchTo(caller, POST, [], 4);
  }

  lemma UpdateRoute(caller: Caller, id: Id)
    requires caller.Authenticated?
    requires id != ""
    ensures Dispatch(caller, PUT, [id]) == if caller.role == AdminRole then Admit(UpdateSweet, id) else Forbidden
  {
    DispatchTo(caller, PUT, [id], 5);
  }

  lemma DeleteRoute(caller: Caller, id: Id)
    requires caller.Authenticated?
    requires id != ""
    ensures Dispatch(caller, DELETE, [id]) == if caller.role == AdminRole then Admit(DeleteSweet, id) else Forbidden
  {
    DispatchTo(caller, DELETE, [id], 6);
  }

  lemma RestockRoute(caller: Caller, id: Id)
    requires caller.Authenticated?
    requires id != ""
    ensures Dispatch(caller, POST, [id, "restock"]) == if caller.role == AdminRole then Admit(RestockSweet, id) else Forbidden
  {
    assert !SegmentMatches(Routes[3].pattern[1], [id, "restock"][1]);
    assert RouteMatches(Routes[7], POST, [id, "restock"]);
    DispatchTo(caller, POST, [id, "restock"], 7);
  }

  /** No request path reaches the get-one-record handler with the id "search". */
  lemma {:induction false} SearchIsNeverAnId(caller: Caller, path: seq<string>)
    ensures Dispatch(caller, GET, path) != Admit(GetSweet, "search")
  {
    if caller.Authenticated? && path == ["search"] {
      SearchRoute(caller);
    }
  }

  // ---------------------------------------------------------------------------
  // Requests against the table
  // ---------------------------------------------------------------------------

  /** What the router sends back. */
  datatype Reply =
    | Rejected(reason: Decision)
    | Listing(entries: seq<Entry>)
    | Answer(response: Response)

  /** The operations that may change the table. */
  predicate Writes(op: Operation) {
    op.PurchaseSweet? || AdminOnly(op)
  }

  /**
    What a write operation answers, and the table `m2` and clock `c2` it leaves,
    starting from the table `m` and clock `c`: each handler's outcome, stated
    through the purchase rule and the schema's validation.
  */
  /** What `purchaseSweet` answers and leaves behind, given the table `m` and clock `c` before it and `m2`, `c2` after. */
  ghost predicate PurchaseOutcome(id: Id, body: Body, m: map<Id, Sweet>, c: nat, reply: Reply, m2: map<Id, Sweet>, c2: nat) {
    && reply == Answer(if id in m then Purchased(id, m[id], RequestedUnits(body.quantity)) else NotFound)
    && m2 == (if reply.response.Ok? then m[id := reply.response.sweet] else m)
    && c2 == c
  }

  /** What `createSweet` answers and leaves behind: the body, stamped with the caller, is validated and stored under `newId`. */
  ghost predicate CreateOutcome(callerId: UserId, body: Body, newId: Id, m: map<Id, Sweet>, c: nat, reply: Reply, m2: map<Id, Sweet>, c2: nat) {
    var v := Validate(body.(createdBy := Some(callerId)), c);
    && (v.Failure? ==> reply == Answer(ValidationError(v.error)) && m2 == m && c2 == c)
    && (v.Success? ==> reply == Answer(Ok(newId, v.value)) && m2 == m[newId := v.value] && c2 == c + 1)
  }

  /** What `updateSweet` answers and leaves behind. */
  ghost predicate UpdateOutcome(id: Id, body: Body, m: map<Id, Sweet>, c: nat, reply: Reply, m2: map<Id, Sweet>, c2: nat) {
    && c2 == c
    && (id !in m ==> reply == Answer(NotFound) && m2 == m)
    && (id in m ==>
          var u := ApplyUpdate(m[id], body);
          && (u.Failure? ==> reply == Answer(ValidationError(u.error)) && m2 == m)
          && (u.Success? ==> reply == Answer(Ok(id, u.value)) && m2 == m[id := u.value]))
  }

  /** What `deleteSweet` answers and leaves behind. */
  ghost predicate DeleteOutcome(id: Id, m: map<Id, Sweet>, c: nat, reply: Reply, m2: map<Id, Sweet>, c2: nat) {
    && c2 == c
    && (id !in m ==> reply == Answer(NotFound) && m2 == m)
    && (id in m ==> reply == Answer(Deleted) && m2 == m - {id})
  }

  /** What `restockSweet` answers and leaves behind. */
  ghost predicate RestockOutcome(id: Id, body: Body, m: map<Id, Sweet>, c: nat, reply: Reply, m2: map<Id, Sweet>, c2: nat) {
    && c2 == c
    && ((body.quantity.None? || body.quantity.value <= 0) ==> reply == Answer(InvalidQuantity) && m2 == m)
    && (body.quantity.Some? && body.quantity.value > 0 && id !in m ==> reply == Answer(NotFound) && m2 == m)
    && (body.quantity.Some? && body.quantity.value > 0 && id in m ==>
          var restocked := m[id].(quantity := m[id].quantity + body.quantity.value);
          reply == Answer(Ok(id, restocked)) && m2 == m[id := restocked])
  }

  /** The outcome of write operation `op`; every other operation leaves table and clock alone. */
  ghost predicate WriteOutcome(
    op: Operation, callerId: UserId, id: Id, body: Body, newId: Id,
    m: map<Id, Sweet>, c: nat, reply: Reply, m2: map<Id, Sweet>, c2: nat)
  {
    match op
    case PurchaseSweet => PurchaseOutcome(id, body, m, c, reply, m2, c2)
    case CreateSweet => CreateOutcome(callerId, body, newId, m, c, reply, m2, c2)
    case UpdateSweet => UpdateOutcome(id, body, m, c, reply, m2, c2)
    case DeleteSweet => DeleteOutcome(id, m, c, reply, m2, c2)
    case RestockSweet => RestockOutcome(id, body, m, c, reply, m2, c2)
    case _ => m2 == m && c2 == c
  }

  /** `purchaseSweet` bound to a store. */
  method RunPurchase(store: Inventory, id: Id, body: Body) returns (reply: Reply)
    requires store.Valid()
    modifies store
    ensures store.Valid()
    ensures PurchaseOutcome(id, body, old(store.records), old(store.clock), reply, store.records, store.clock)
  {
    var r := store.Purchase(id, body.quantity);
    reply := Answer(r);
  }

  /** `createSweet` bound to a store; the record is created on behalf of `callerId`. */
  method RunCreate(store: Inventory, callerId: UserId, body: Body, newId: Id) returns (reply: Reply)
    requires store.Valid()
    requires newId !in store.records
    modifies store
    ensures store.Valid()
    ensures CreateOutcome(callerId, body, newId, old(store.records), old(store.clock), reply, store.records, store.clock)
  {
    var r := store.Create(callerId, body, newId);
    reply := Answer(r);
  }

  /** `updateSweet` bound to a store. */
  method RunUpdate(store: Inventory, id: Id, body: Body) returns (reply: Reply)
    requires store.Valid()
    modifies store
    ensures store.Valid()
    ensures UpdateOutcome(id, body, old(store.records), old(store.clock), reply, store.records, store.clock)
  {
    var r := store.Update(id, body);
    reply := Answer(r);
  }

  /** `deleteSweet` bound to a store. */
  method RunDelete(store: Inventory, id: Id) returns (reply: Reply)
    requires store.Valid()
    modifies store
    ensures store.Valid()
    ensures DeleteOutcome(id, old(store.records), old(store.clock), reply, store.records, store.clock)
  {
    var r := store.Delete(id);
    reply := Answer(r);
  }

  /** `restockSweet` bound to a store. */
  method RunRestock(store: Inventory, id: Id, body: Body) returns (reply: Reply)
    requires store.Valid()
    modifies store
    ensures store.Valid()
    ensures RestockOutcome(id, body, old(store.records), old(store.clock), reply, store.records, store.clock)
  {
    var r := store.Restock(id, body.quantity);
    reply := Answer(r);
  }

  /** Run the handler bound to write operation `op`. */
  method RunWrite(store: Inventory, op: Operation, callerId: UserId, id: Id, body: Body, newId: Id)
    returns (reply: Reply)
    requires store.Valid()
    requires Writes(op)
    requires newId !in store.records
    modifies store
    ensures store.Valid()
    ensures WriteOutcome(op, callerId, id, body, newId, old(store.records), old(store.clock), reply, store.records, store.clock)
  {
    if op == PurchaseSweet {
      reply := RunPurchase(store, id, body);
    } else if op == CreateSweet {
      reply := RunCreate(store, callerId, body, newId);
    } else if op == UpdateSweet {
      reply := RunUpdate(store, id, body);
    } else if op == DeleteSweet {
      reply := RunDelete(store, id);
    } else {
      reply := RunRestock(store, id, body);
    }
  }

  /**
    Serve one request: dispatch it, and when it is admitted run the bound
    handler with the body and query string. `newId` is the id a created record
    receives.
  */
  method Handle(store: Inventory, caller: Caller, verb: Verb, path: seq<string>, body: Body, query: Query, newId: Id)
    returns (reply: Reply)
    requires store.Valid()
    requires newId !in store.records
    modifies store
    ensures store.Valid()
    ensures var d := Dispatch(caller, verb, path);
      !d.Admit? ==> reply == Rejected(d) && store.records == old(store.records) && store.clock == old(store.clock)
    ensures var d := Dispatch(caller, verb, path);
      d.Admit? && !Writes(d.op) ==> store.records == old(store.records) && store.clock == old(store.clock)
    ensures var d := Dispatch(caller, verb, path);
      && (d == Admit(GetAllSweets, "") ==> reply == Listing(store.GetAll()))
      && (d == Admit(SearchSweets, "") ==> reply == Listing(store.Search(query)))
      && (d.Admit? && d.op == GetSweet ==> reply == Answer(store.Get(d.id)))
    ensures var d := Dispatch(caller, verb, path);
      d.Admit? && Writes(d.op) ==>
        WriteOutcome(d.op, caller.id, d.id, body, newId, old(store.records), old(store.clock), reply, store.records, store.clock)
    ensures store.records != old(store.records) ==>
      var d := Dispatch(caller, verb, path);
      d.Admit? && Writes(d.op) && Allowed(caller, d.op)
    ensures store.records != old(store.records) && caller.Authenticated? && caller.role == UserRole ==>
      Dispatch(caller, verb, path).op == PurchaseSweet
  {
    var d := Dispatch(caller, verb, path);
    if !d.Admit? {
      return Rejected(d);
    }
    AdmittedIsAllowed(caller, verb, path);
    var callerId := caller.id;
    match d.op
    case GetAllSweets =>
      reply := Listing(store.GetAll());
    case SearchSweets =>
      reply := Listing(store.Search(query));
    case GetSweet =>
      reply := Answer(store.Get(d.id));
    case _ =>
      reply := RunWrite(store, d.op, callerId, d.id, body, newId);
  }
}
