/** The router's table of named route descriptors (`Router::$routes`):
    a PHP array keyed by route name, so insertion-ordered, and assigning
    to an existing name replaces the entry where it stands. */
module RouteTable {
  import opened Wrappers
  import opened RoutePattern

  /** `Router::$restful_methods`, returned by `getRestfulMethods`. */
  const RestfulMethods: seq<string> := ["GET", "POST", "PUT", "DELETE"]

  /** One compiled route: `allowed_methods`, `request_uri`, `param_count`,
      `pattern`, `class` and `method` (as `cls` and `action`). */
  datatype Descriptor = Descriptor(
    methods: seq<string>,
    requestUri: string,
    paramCount: int,
    pattern: Pattern,
    cls: string,
    action: string)

  /** The shape every descriptor built by the route compiler has: known
      verbs only, a non-negative count, and a pattern made from the
      descriptor's own methods, URI and count. */
  predicate Compiled(d: Descriptor)
  {
    && (forall k :: 0 <= k < |d.methods| ==> d.methods[k] in RestfulMethods)
    && d.paramCount >= 0
    && d.pattern == Pattern(d.methods, d.requestUri, d.paramCount)
  }

  /** The RESTful verbs are non-empty upper-case words. */
  lemma RestfulShape(v: string)
    requires v in RestfulMethods
    ensures |v| >= 1 && forall k :: 0 <= k < |v| ==> 'A' <= v[k] <= 'Z'
  {
  }

  datatype Route = Route(name: string, descriptor: Descriptor)

  /** The table in iteration order. */
  type Table = seq<Route>

  function Names(t: Table): (ns: seq<string>)
    ensures |ns| == |t|
    ensures forall k :: 0 <= k < |t| ==> ns[k] == t[k].name
  {
    if t == [] then [] else [t[0].name] + Names(t[1..])
  }

  /** A PHP array never holds a key twice. */
  predicate UniqueNames(t: Table)
  {
    forall i, j :: 0 <= i < j < |t| ==> t[i].name != t[j].name
  }

  /** The position of the entry called `name`. */
  function FindName(t: Table, name: string): (r: Option<nat>)
    ensures r.Some? ==> r.value < |t| && t[r.value].name == name
    ensures r.Some? ==> forall j :: 0 <= j < r.value ==> t[j].name != name
    ensures r.None? ==> forall j :: 0 <= j < |t| ==> t[j].name != name
  {
    if t == [] then None
    else if t[0].name == name then Some(0)
    else match FindName(t[1..], name)
      case None => None
      case Some(k) => Some(k + 1)
  }

  /** `$routes[$name]`, or nothing when no route has that name. */
  function Lookup(t: Table, name: string): (r: Option<Descriptor>)
    ensures r.Some? <==> name in Names(t)
  {
    match FindName(t, name)
    case None => None
    case Some(k) => Some(t[k].descriptor)
  }

  /** `addRoute(name, descriptor)`: `$routes[$name] = $descriptor`. */
  function AddRoute(t: Table, name: string, d: Descriptor): (r: Table)
    ensures UniqueNames(t) ==> UniqueNames(r)
  {
    match FindName(t, name)
    case None => t + [Route(name, d)]
    case Some(k) => t[k := Route(name, d)]
  }

  /*-------------------------------------------------------------------
    Lemmas
   -------------------------------------------------------------------*/

  /** The first entry called `name` is the one `FindName` reports. */
  lemma {:induction false} FindNameIs(t: Table, name: string, i: nat)
    requires i < |t| && t[i].name == name
    requires forall j :: 0 <= j < i ==> t[j].name != name
    ensures FindName(t, name) == Some(i)
  {
    if i > 0 {
      FindNameIs(t[1..], name, i - 1);
    }
  }

  lemma {:induction false} FindNameAbsent(t: Table, name: string)
    requires forall j :: 0 <= j < |t| ==> t[j].name != name
    ensures FindName(t, name) == None
  {
    if t != [] {
      FindNameAbsent(t[1..], name);
    }
  }

  /** After `addRoute(n, d)` the name `n` leads to `d` and every other name
      to what it led to before. */
  lemma LookupAfterAdd(t: Table, n: string, d: Descriptor, m: string)
    ensures Lookup(AddRoute(t, n, d), m) == if m == n then Some(d) else Lookup(t, m)
  {
    var r := AddRoute(t, n, d);
    match FindName(t, n)
    case None =>
      if m == n {
        FindNameIs(r, m, |t|);
      } else {
        match FindName(t, m)
        case None =>
          FindNameAbsent(r, m);
        case Some(k) =>
          FindNameIs(r, m, k);
      }
    case Some(i) =>
      if m == n {
        FindNameIs(r, m, i);
      } else {
        match FindName(t, m)
        case None =>
          FindNameAbsent(r, m);
        case Some(k) =>
          FindNameIs(r, m, k);
      }
  }

  /** Adding keeps the order of names: a known name stays where it was, a
      new one goes last. */
  lemma NamesAfterAdd(t: Table, n: string, d: Descriptor)
    ensures Names(AddRoute(t, n, d)) == if n in Names(t) then Names(t) else Names(t) + [n]
  {
    match FindName(t, n)
    case Some(k) =>
      assert n in Names(t) by {
        assert Names(t)[k] == n;
      }
      NamesAfterReplace(t, k, Route(n, d));
    case None =>
      assert n !in Names(t);
      NamesAfterAppend(t, Route(n, d));
  }

  /** Overwriting an entry under its own name keeps the names. */
  lemma NamesAfterReplace(t: Table, k: nat, e: Route)
    requires k < |t| && t[k].name == e.name
    ensures Names(t[k := e]) == Names(t)
  {
    var r := t[k := e];
    assert forall j :: 0 <= j < |r| ==> Names(r)[j] == Names(t)[j];
  }

  /** Appending an entry appends its name. */
  lemma NamesAfterAppend(t: Table, e: Route)
    ensures Names(t + [e]) == Names(t) + [e.name]
  {
    var r := t + [e];
    assert forall j :: 0 <= j < |r| ==> Names(r)[j] == (Names(t) + [e.name])[j];
  }

  /** Every entry after adding is the new one or an entry that was
      already there, at the same place. */
  lemma EntriesAfterAdd(t: Table, n: string, d: Descriptor)
    ensures forall k :: 0 <= k < |AddRoute(t, n, d)| ==>
              AddRoute(t, n, d)[k] == Route(n, d) || (k < |t| && AddRoute(t, n, d)[k] == t[k])
  {
  }

  /** Adding touches no entry with another name. */
  lemma OthersAfterAdd(t: Table, n: string, d: Descriptor, k: int)
    requires 0 <= k < |t| && t[k].name != n
    ensures AddRoute(t, n, d)[k] == t[k]
  {
  }
}
