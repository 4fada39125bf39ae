/** The backend's policy table: which handler a request under /api/sweets
    or /api/orders reaches, and which middleware stands before it. The
    authentication middleware itself is not part of this model; it is taken
    to answer 401 without a valid identity, and `requireAdmin` 403 for a
    signed-in non-admin. */
module ApiRoutes {
  import opened Wrappers
  import opened SweetModel

  datatype Verb = GET | POST | PUT | DELETE

  datatype Operation =
    | CreateSweet | ListSweets | SearchSweets | UpdateSweet | DeleteSweet
    | PurchaseSweet | RestockSweet | ListOrders

  datatype Middleware = Authenticate | RequireAdmin | CreateValidators | UpdateValidators | Handler(op: Operation)

  /** A request: its verb and the segments of its path, e.g. `POST
      /api/sweets/7/purchase` is `(POST, ["api", "sweets", "7", "purchase"])`. */
  datatype Request = Request(verb: Verb, segments: seq<string>)

  /** Express's routing of the two routers, in declaration order; `:id` is
      any non-empty segment. */
  function Route(r: Request): (op: Option<Operation>)
    ensures op == Some(SearchSweets) <==> r == Request(GET, ["api", "sweets", "search"])
    ensures op == Some(ListOrders) <==> r == Request(GET, ["api", "orders"])
  {
    var s := r.segments;
    if |s| < 2 || s[0] != "api" then None
    else if s[1] == "orders" then
      (if r.verb == GET && |s| == 2 then Some(ListOrders) else None)
    else if s[1] != "sweets" then None
    else if |s| == 2 then
      (match r.verb
       case POST => Some(CreateSweet)
       case GET => Some(ListSweets)
       case _ => None)
    else if |s| == 3 then
      (if r.verb == GET && s[2] == "search" then Some(SearchSweets)
       else if r.verb == PUT && s[2] != "" then Some(UpdateSweet)
       else if r.verb == DELETE && s[2] != "" then Some(DeleteSweet)
       else None)
    else if |s| == 4 && r.verb == POST && s[2] != "" then
      (if s[3] == "purchase" then Some(PurchaseSweet)
       else if s[3] == "restock" then Some(RestockSweet)
       else None)
    else None
  }

  /** The request that reaches an operation, for the sweet id `id`. */
  function RequestFor(op: Operation, id: string): Request {
    match op
    case CreateSweet => Request(POST, ["api", "sweets"])
    case ListSweets => Request(GET, ["api", "sweets"])
    case SearchSweets => Request(GET, ["api", "sweets", "search"])
    case UpdateSweet => Request(PUT, ["api", "sweets", id])
    case DeleteSweet => Request(DELETE, ["api", "sweets", id])
    case PurchaseSweet => Request(POST, ["api", "sweets", id, "purchase"])
    case RestockSweet => Request(POST, ["api", "sweets", id, "restock"])
    case ListOrders => Request(GET, ["api", "orders"])
  }

  /** Every operation is reached by its own request, whatever the id. */
  lemma RouteFindsEveryOperation(op: Operation, id: string)
    requires id != ""
    ensures Route(RequestFor(op, id)) == Some(op)
  {
  }

  predicate AdminOnly(op: Operation) {
    op == DeleteSweet || op == RestockSweet || op == ListOrders
  }

  /** The middleware chain of each operation, in the order Express runs it:
      the router-level `authenticate` (and, for orders, `requireAdmin`),
      then the route's own middleware, then the handler. */
  function Chain(op: Operation): (c: seq<Middleware>)
    ensures |c| >= 2 && c[0] == Authenticate && c[|c| - 1] == Handler(op)
    ensures RequireAdmin in c <==> AdminOnly(op)
    ensures CreateValidators in c <==> op == CreateSweet
    ensures UpdateValidators in c <==> op == UpdateSweet
    ensures forall i :: 0 <= i < |c| - 1 ==> !c[i].Handler?
  {
    match op
    case CreateSweet => [Authenticate, CreateValidators, Handler(op)]
    case UpdateSweet => [Authenticate, UpdateValidators, Handler(op)]
    case DeleteSweet => [Authenticate, RequireAdmin, Handler(op)]
    case RestockSweet => [Authenticate, RequireAdmin, Handler(op)]
    case ListOrders => [Authenticate, RequireAdmin, Handler(op)]
    case _ => [Authenticate, Handler(op)]
  }

  /** The outcome of running a chain: the handler is reached, or a
      middleware answers first with its status. The validators never
      answer: they record their errors for the handler to report. */
  datatype Gate = Reached | Stopped(status: nat)

  /** `identity` is the role the token carries, `None` without a valid
      token. */
  function Run(c: seq<Middleware>, identity: Option<Role>): Gate {
    if c == [] then Reached
    else match c[0]
      case Authenticate => if identity.None? then Stopped(401) else Run(c[1..], identity)
      case RequireAdmin => if identity.None? || identity.value != Admin then Stopped(403) else Run(c[1..], identity)
      case Handler(_) => Reached
      case _ => Run(c[1..], identity)
  }

  /** Decision for an operation: signed-out callers get 401, non-admins
      get 403 on the admin-only operations, and everyone else reaches the
      handler. */
  lemma {:induction false} AuthorizationPolicy(op: Operation, identity: Option<Role>)
    ensures identity.None? ==> Run(Chain(op), identity) == Stopped(401)
    ensures identity.Some? && AdminOnly(op) && identity.value != Admin ==> Run(Chain(op), identity) == Stopped(403)
    ensures Run(Chain(op), identity) == Reached <==> identity.Some? && (AdminOnly(op) ==> identity.value == Admin)
  {
    var c := Chain(op);
    if identity.Some? {
      var rest := c[1..];
      assert Run(c, identity) == Run(rest, identity);
      assert Run([Handler(op)], identity) == Reached;
      if |c| == 3 {
        assert rest == [c[1], Handler(op)];
        assert rest[1..] == [Handler(op)];
        if c[1] == RequireAdmin {
          assert Run(rest, identity) == if identity.value != Admin then Stopped(403) else Reached;
        } else {
          assert Run(rest, identity) == Reached;
        }
      } else {
        assert rest == [Handler(op)];
      }
    }
  }

  /** A customer may purchase but not restock; an admin may do both. */
  lemma CustomerPurchasesAdminRestocks()
    ensures Run(Chain(PurchaseSweet), Some(Customer)) == Reached
    ensures Run(Chain(RestockSweet), Some(Customer)) == Stopped(403)
    ensures Run(Chain(RestockSweet), Some(Admin)) == Reached
  {
    AuthorizationPolicy(PurchaseSweet, Some(Customer));
    AuthorizationPolicy(RestockSweet, Some(Customer));
    AuthorizationPolicy(RestockSweet, Some(Admin));
  }
}
