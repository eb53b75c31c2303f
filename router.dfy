/**
 * The route registry and the request dispatch of src/bhh.py.
 *
 * `register_handler` keeps an insertion-ordered dictionary from template
 * text to an entry holding a handler per HTTP command, the compiled
 * matcher and the placeholder names; here the dictionary is the pair of
 * fields `order` (key order) and `routes` (the entries). The dispatch part
 * of `handle_one_request` scans the keys in order, stops at the first
 * template whose matcher accepts the raw request path, runs that entry's
 * handler for the command if it has one (with the raw captures bound to
 * the names by position), and otherwise falls back to `do_<command>`,
 * which exists for GET only, or answers 501.
 */
module Router {

  import opened Options
  import opened Templates
  import opened Matcher
  import opened StaticFiles

  /** A registered handler callable, known by its identity only. */
  datatype Handler = Handler(id: nat)

  /** One registry entry: `{"handlers": …, "regexp": …, "variables": …}`. */
  datatype Route = Route(handlers: map<string, Handler>, matcher: seq<Piece>, variables: seq<string>)

  /**
   * The entry created for a template seen for the first time, before its
   * handler is added: no handler yet, a matcher that writes back to the
   * template, and the names of its captures in order.
   */
  function NewRoute(template: string): (r: Route)
    ensures r.handlers == map[]
    ensures Unparse(r.matcher) == template && NormalForm(r.matcher)
    ensures r.variables == CapNames(r.matcher)
  {
    UnparseCompile(template);
    CompileNormal(template);
    VariablesAreCaptures(template);
    Route(map[], Compile(template), Variables(template))
  }

  /**
   * The registry invariant: every key once, in insertion order; one entry
   * per key; each entry's matcher and names compiled from its own key.
   */
  predicate WellFormed(order: seq<string>, routes: map<string, Route>)
  {
    && (forall i, j :: 0 <= i < j < |order| ==> order[i] != order[j])
    && (forall i :: 0 <= i < |order| ==> order[i] in routes)
    && (forall k :: k in routes ==> k in order)
    && (forall k :: k in routes ==> routes[k].matcher == Compile(k) && routes[k].variables == Variables(k))
  }

  /** `hasattr(self, 'do_' + command)`: the request handler class defines `do_GET` only. */
  predicate HasDoMethod(command: string)
  {
    command == "GET"
  }

  /** What the local `method` of `handle_one_request` holds: None, the bound `do_<command>`, or "external". */
  datatype Action = NoMethod | DoMethod | ExternalRan

  /** The result of one request. */
  datatype Outcome =
    | External(template: string, handler: Handler, arguments: map<string, string>)
      // the registered handler that ran, and the keyword arguments it received
    | Static(response: Response)
      // `do_GET` answered
    | NotImplemented(command: string)
      // `send_error(501, "Unsupported method (%r)" % command)`

  /** Index of the first template, at `i` or later, whose matcher accepts `path`. */
  function ScanFrom(order: seq<string>, routes: map<string, Route>, path: string, i: nat): (r: Option<nat>)
    requires i <= |order| && forall j :: 0 <= j < |order| ==> order[j] in routes
    ensures r.Some? ==>
              && i <= r.value < |order| && Match(routes[order[r.value]].matcher, path).Some?
              && forall j :: i <= j < r.value ==> Match(routes[order[j]].matcher, path).None?
    ensures r.None? ==> forall j :: i <= j < |order| ==> Match(routes[order[j]].matcher, path).None?
    decreases |order| - i
  {
    if i == |order| then None
    else if Match(routes[order[i]].matcher, path).Some? then Some(i)
    else ScanFrom(order, routes, path, i + 1)
  }

  /** Index, in registration order, of the first template whose matcher accepts `path`. */
  function FirstMatch(order: seq<string>, routes: map<string, Route>, path: string): Option<nat>
    requires forall j :: 0 <= j < |order| ==> order[j] in routes
  {
    ScanFrom(order, routes, path, 0)
  }

  /** The groups of a successful match: one raw capture per name of the entry. */
  function Captures(template: string, route: Route, path: string): (caps: seq<string>)
    requires route.matcher == Compile(template) && route.variables == Variables(template)
    requires Match(route.matcher, path).Some?
    ensures |caps| == |route.variables| && Accepts(route.matcher, path, caps)
  {
    MatchSound(route.matcher, path);
    VariablesAreCaptures(template);
    Match(route.matcher, path).value
  }

  /** The keyword arguments, filled index by index: `variables[names[i]] = groups[i]`. */
  function Bind(names: seq<string>, groups: seq<string>): (m: map<string, string>)
    requires |names| == |groups|
    ensures forall x :: x in m <==> x in names
    decreases |names|
  {
    if names == [] then map[]
    else
      var n := |names| - 1;
      assert forall x :: x in names <==> x in names[..n] || x == names[n] by {
        assert names == names[..n] + [names[n]];
      }
      Bind(names[..n], groups[..n])[names[n] := groups[n]]
  }

  /** The argument loop of `handle_one_request`: `variables[names[i]] = groups[i]` for each index in turn. */
  method BindArguments(names: seq<string>, groups: seq<string>) returns (variables: map<string, string>)
    requires |names| == |groups|
    ensures variables == Bind(names, groups)
  {
    variables := map[];
    var j := 0;
    while j < |names|
      invariant 0 <= j <= |names|
      invariant variables == Bind(names[..j], groups[..j])
    {
      assert names[..j + 1][..j] == names[..j] && groups[..j + 1][..j] == groups[..j];
      variables := variables[names[j] := groups[j]];
      j := j + 1;
    }
    assert names[..j] == names && groups[..j] == groups;
  }

  /** A name receives the capture at its last position in the name list. */
  lemma {:induction false} BindLastWins(names: seq<string>, groups: seq<string>, i: nat)
    requires |names| == |groups| && i < |names|
    requires forall j :: i < j < |names| ==> names[j] != names[i]
    ensures names[i] in Bind(names, groups) && Bind(names, groups)[names[i]] == groups[i]
    decreases |names|
  {
    var n := |names| - 1;
    if i < n {
      BindLastWins(names[..n], groups[..n], i);
    }
  }

  /** With distinct names, arguments are bound to captures by position. */
  lemma BindByPosition(names: seq<string>, groups: seq<string>)
    requires |names| == |groups|
    requires forall i, j :: 0 <= i < j < |names| ==> names[i] != names[j]
    ensures forall i :: 0 <= i < |names| ==> Bind(names, groups)[names[i]] == groups[i]
  {
    forall i | 0 <= i < |names| ensures Bind(names, groups)[names[i]] == groups[i] {
      BindLastWins(names, groups, i);
    }
  }

  /**
   * What happens when no registered handler ran: `do_<command>` if it
   * exists, else 501. No handler runs here; only GET reaches the static
   * files, and the 501 names the command.
   */
  function Fallback(command: string, path: string, root: string, fs: FileSystem, guessType: string -> Option<string>): (r: Outcome)
    ensures !r.External?
    ensures r.Static? <==> command == "GET"
    ensures r.Static? ==> r.response == GetResponse(root, path, fs, guessType)
    ensures r.NotImplemented? ==> r.command == command
  {
    if HasDoMethod(command) then Static(GetResponse(root, path, fs, guessType)) else NotImplemented(command)
  }

  /**
   * The outcome of a request with command `command` and raw path `path`: a
   * handler that ran is the one registered for the command under a template
   * whose matcher accepts the path; when none ran, the fallback answers.
   */
  function Dispatch(order: seq<string>, routes: map<string, Route>, command: string, path: string,
                    root: string, fs: FileSystem, guessType: string -> Option<string>): (r: Outcome)
    requires WellFormed(order, routes)
    ensures r.External? ==>
              && r.template in routes && command in routes[r.template].handlers
              && r.handler == routes[r.template].handlers[command]
              && Match(routes[r.template].matcher, path).Some?
    ensures !r.External? ==> r == Fallback(command, path, root, fs, guessType)
  {
    match FirstMatch(order, routes, path)
    case Some(i) =>
      var k := order[i];
      if command in routes[k].handlers then
        External(k, routes[k].handlers[command], Bind(routes[k].variables, Captures(k, routes[k], path)))
      else Fallback(command, path, root, fs, guessType)
    case None => Fallback(command, path, root, fs, guessType)
  }

  /**
   * A handler runs exactly when the first matching template has one for the
   * command; it is that template's handler, and its arguments are the
   * groups the engine returns for the path, bound to the names by position.
   * Those groups are raw pieces of the path: filling them into the template
   * gives back the path, up to one trailing `/`.
   */
  lemma DispatchExternal(order: seq<string>, routes: map<string, Route>, command: string, path: string,
                         root: string, fs: FileSystem, guessType: string -> Option<string>)
    requires WellFormed(order, routes)
    ensures var o := Dispatch(order, routes, command, path, root, fs, guessType);
            o.External? <==>
              FirstMatch(order, routes, path).Some? && command in routes[order[FirstMatch(order, routes, path).value]].handlers
    ensures var o := Dispatch(order, routes, command, path, root, fs, guessType);
            o.External? ==>
              var i := FirstMatch(order, routes, path).value;
              var route := routes[o.template];
              && o.template == order[i]
              && (forall j :: 0 <= j < i ==> Match(routes[order[j]].matcher, path).None?)
              && o.handler == route.handlers[command]
              && Match(route.matcher, path).Some?
              && var groups := Match(route.matcher, path).value;
                 && |groups| == |route.variables| && Accepts(route.matcher, path, groups)
                 && o.arguments == Bind(route.variables, groups)
  {
    var o := Dispatch(order, routes, command, path, root, fs, guessType);
    if o.External? {
      VariablesAreCaptures(o.template);
      MatchSound(routes[o.template].matcher, path);
    }
  }

  /**
   * When no handler runs, GET goes to the static resolver and every other
   * command is answered 501, whether no template matched or the first one
   * that matched has no handler for the command.
   */
  lemma DispatchFallback(order: seq<string>, routes: map<string, Route>, command: string, path: string,
                         root: string, fs: FileSystem, guessType: string -> Option<string>)
    requires WellFormed(order, routes)
    ensures var o := Dispatch(order, routes, command, path, root, fs, guessType);
            !o.External? ==>
              && (command == "GET" ==> o == Static(GetResponse(root, path, fs, guessType)))
              && (command != "GET" ==> o == NotImplemented(command))
  {
  }

  /** The scan result is fixed by which templates match, up to and including the first one. */
  lemma FirstMatchUnique(order: seq<string>, routes: map<string, Route>, path: string, i: nat)
    requires forall j :: 0 <= j < |order| ==> order[j] in routes
    requires i < |order| && Match(routes[order[i]].matcher, path).Some?
    requires forall j :: 0 <= j < i ==> Match(routes[order[j]].matcher, path).None?
    ensures FirstMatch(order, routes, path) == Some(i)
  {
  }

  /**
   * Templates after the first one that matches are never consulted: a
   * registry that agrees with this one up to that template, whatever it
   * holds afterwards, gives the same outcome, even when the first matching
   * template has no handler for the command and a later one does.
   */
  lemma LaterRoutesIgnored(order: seq<string>, routes: map<string, Route>,
                           order': seq<string>, routes': map<string, Route>,
                           command: string, path: string, root: string, fs: FileSystem,
                           guessType: string -> Option<string>)
    requires WellFormed(order, routes) && WellFormed(order', routes')
    requires FirstMatch(order, routes, path).Some?
    requires var i := FirstMatch(order, routes, path).value;
             i < |order'| && forall j :: 0 <= j <= i ==> order'[j] == order[j] && routes'[order'[j]] == routes[order[j]]
    ensures Dispatch(order', routes', command, path, root, fs, guessType)
         == Dispatch(order, routes, command, path, root, fs, guessType)
  {
    var i := FirstMatch(order, routes, path).value;
    FirstMatchUnique(order', routes', path, i);
    var k := order[i];
    assert order'[i] == k && routes'[k] == routes[k];
  }

  /**
   * The registry after registering `handler` for `command` on `template`: a
   * new template is appended to the key order with a fresh entry; a known
   * one keeps its place, matcher and names, and only its handler for
   * `command` is set (added or overwritten); every other entry and every
   * other command's handler is unchanged.
   */
  function Registered(order: seq<string>, routes: map<string, Route>,
                      command: string, template: string, handler: Handler): (r: (seq<string>, map<string, Route>))
    ensures r.0 == (if template in routes then order else order + [template])
    ensures r.1.Keys == routes.Keys + {template}
    ensures forall k :: k in routes && k != template ==> r.1[k] == routes[k]
    ensures template in routes ==>
              r.1[template].matcher == routes[template].matcher && r.1[template].variables == routes[template].variables
    ensures template !in routes ==>
              r.1[template].matcher == Compile(template) && r.1[template].variables == Variables(template)
    ensures r.1[template].handlers
            == (if template in routes then routes[template].handlers else map[])[command := handler]
  {
    var order1 := if template in routes then order else order + [template];
    var routes1 := if template in routes then routes else routes[template := NewRoute(template)];
    var entry := routes1[template];
    (order1, routes1[template := entry.(handlers := entry.handlers[command := handler])])
  }

  /** Registration keeps the registry well formed. */
  lemma RegisteredWellFormed(order: seq<string>, routes: map<string, Route>,
                             command: string, template: string, handler: Handler)
    requires WellFormed(order, routes)
    ensures var r := Registered(order, routes, command, template, handler); WellFormed(r.0, r.1)
  {
    if template !in routes {
      AppendDistinct(order, template);
    }
  }

  lemma AppendDistinct(order: seq<string>, k: string)
    requires forall i, j :: 0 <= i < j < |order| ==> order[i] != order[j]
    requires k !in order
    ensures var o := order + [k]; forall i, j :: 0 <= i < j < |o| ==> o[i] != o[j]
  {
    var o := order + [k];
    forall i, j | 0 <= i < j < |o| ensures o[i] != o[j] {
      assert o[i] == order[i];
    }
  }

  class Registry {
    var order: seq<string>
    var routes: map<string, Route>

    ghost predicate Valid()
      reads this
    {
      WellFormed(order, routes)
    }

    constructor ()
      ensures Valid() && order == [] && routes == map[]
    {
      order := [];
      routes := map[];
    }

    /** `register_handler(method, path, handler)`. */
    method Register(command: string, template: string, handler: Handler)
      requires Valid()
      modifies this
      ensures Valid()
      ensures order == Registered(old(order), old(routes), command, template, handler).0
      ensures routes == Registered(old(order), old(routes), command, template, handler).1
    {
      RegisteredWellFormed(order, routes, command, template, handler);
      if template !in routes {
        routes := routes[template := NewRoute(template)];
        order := order + [template];
      }
      var entry := routes[template];
      routes := routes[template := entry.(handlers := entry.handlers[command := handler])];
    }

    /** The decorator form: `@handle(method, path)` applied to `handler`. */
    method Handle(command: string, template: string, handler: Handler)
      requires Valid()
      modifies this
      ensures Valid()
      ensures order == Registered(old(order), old(routes), command, template, handler).0
      ensures routes == Registered(old(order), old(routes), command, template, handler).1
    {
      Register(command, template, handler);
    }

    /** The route scan and fallback of `handle_one_request`, for a request already parsed. */
    method HandleOneRequest(command: string, path: string, root: string, fs: FileSystem,
                            guessType: string -> Option<string>)
      returns (outcome: Outcome)
      requires Valid()
      ensures outcome == Dispatch(order, routes, command, path, root, fs, guessType)
    {
      var action := if HasDoMethod(command) then DoMethod else NoMethod;
      outcome := NotImplemented(command);
      var i := 0;
      while i < |order|
        invariant 0 <= i <= |order|
        invariant FirstMatch(order, routes, path) == ScanFrom(order, routes, path, i)
        invariant action == if HasDoMethod(command) then DoMethod else NoMethod
      {
        var k := order[i];
        var m := Match(routes[k].matcher, path);
        if m.Some? {
          if command in routes[k].handlers {
            var names := routes[k].variables;
            var groups := Captures(k, routes[k], path);
            var variables := BindArguments(names, groups);
            assert FirstMatch(order, routes, path) == Some(i);
            outcome := External(k, routes[k].handlers[command], variables);
            action := ExternalRan;
          }
          break;
        }
        i := i + 1;
      }
      if action == NoMethod {
        outcome := NotImplemented(command);
        return;
      }
      if action != ExternalRan {
        var response := DoGet(root, path, fs, guessType);
        outcome := Static(response);
      }
    }
  }

}
