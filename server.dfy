/**
 * The WebDAV service manager: one handler per sub-directory, created on
 * first use, and the routing of each request to the throttled GET, the
 * throttled PUT or the handler's own WebDAV processing.
 */
module Server {
  import opened Wrappers
  import opened Put

  /** What a user is allowed: the sub-directory served and the transfer rates. */
  datatype Strategy = Strategy(subDir: string, upRate: int, downRate: int, maxVolume: int)

  /**
   * filepath.Join(root, dir) for a root and a sub-directory name as the
   * server receives them, without the cleaning of the joined path.
   */
  function JoinPath(root: string, dir: string): string {
    if root == [] then dir
    else if dir == [] then root
    else root + "/" + dir
  }

  /** A webdav.Handler: the directory it serves and its own lock system. */
  class Handler {
    const dir: string
    const locks: LockSystem

    constructor (dir: string)
      ensures this.dir == dir && fresh(locks) && locks.Valid() && locks.held == map[]
    {
      this.dir := dir;
      locks := new LockSystem();
    }
  }

  /** Where a request goes. */
  datatype Route = RangedGet(rate: int) | ThrottledPut(rate: int) | PassThrough

  /** GET with a download rate and PUT with an upload rate are served here; everything else by the handler. */
  function RouteFor(verb: string, t: Strategy): (r: Route)
    ensures r.RangedGet? <==> verb == "GET" && t.downRate > 0
    ensures r.ThrottledPut? <==> verb == "PUT" && t.upRate > 0
    ensures r.RangedGet? ==> r.rate == t.downRate
    ensures r.ThrottledPut? ==> r.rate == t.upRate
  {
    if verb == "GET" && t.downRate > 0 then RangedGet(t.downRate)
    else if verb == "PUT" && t.upRate > 0 then ThrottledPut(t.upRate)
    else PassThrough
  }

  /** The outcome of dispatching a request: a 500 when no handler was found, else a handler and a route. */
  datatype Dispatch = InternalError | Serve(handler: Handler, route: Route)

  const StatusInternalServerError := 500

  /** ServeWebDav's decision once loadHandler has answered. */
  function Decide(found: Option<Handler>, verb: string, t: Strategy): (d: Dispatch)
    ensures d.InternalError? <==> found.None?
    ensures d.Serve? ==> d.handler == found.value && d.route == RouteFor(verb, t)
  {
    match found
    case None => InternalError
    case Some(h) => Serve(h, RouteFor(verb, t))
  }

  /** The server: its root directory and the handlers created so far, by sub-directory. */
  class WebDavServer {
    const root: string
    var handlers: map<string, Handler>

    constructor (root: string)
      ensures this.root == root && handlers == map[]
    {
      this.root := root;
      handlers := map[];
    }

    /**
     * loadHandler: the handler of `dir`, created with a fresh lock system
     * for root/dir and remembered when there is none yet.
     */
    method LoadHandler(dir: string) returns (handler: Handler?, ok: bool)
      modifies this
      ensures ok == (handler != null)
      ensures dir in old(handlers) ==> handler == old(handlers)[dir] && handlers == old(handlers)
      ensures dir !in old(handlers) ==>
                handler != null && fresh(handler) && fresh(handler.locks) &&
                handler.dir == JoinPath(root, dir) && handler.locks.held == map[] &&
                handlers == old(handlers)[dir := handler]
    {
      if dir in handlers {
        handler := handlers[dir];
      } else {
        handler := new Handler(JoinPath(root, dir));
        handlers := handlers[dir := handler];
      }
      ok := handler != null;
    }

    /** ServeWebDav: finds the user's handler and routes the request. */
    method ServeWebDav(verb: string, t: Strategy) returns (d: Dispatch)
      modifies this
      ensures t.subDir in handlers
      ensures d == Serve(handlers[t.subDir], RouteFor(verb, t))
      ensures t.subDir in old(handlers) ==> handlers == old(handlers)
      ensures t.subDir !in old(handlers) ==>
                handlers == old(handlers)[t.subDir := handlers[t.subDir]] &&
                fresh(handlers[t.subDir]) && fresh(handlers[t.subDir].locks) &&
                handlers[t.subDir].dir == JoinPath(root, t.subDir) && handlers[t.subDir].locks.held == map[]
    {
      var handler, ok := LoadHandler(t.subDir);
      var found: Option<Handler> := None;
      if ok {
        found := Some(handler);
      }
      d := Decide(found, verb, t);
    }
  }
}
