/** Request dispatch of `Router`: the request URI and script name are
    reduced to an action path, the request verb and the action form a
    match key, the first route whose pattern accepts the key wins, and the
    handler's positional parameters are cut out of the action. */
module Router {
  import opened Wrappers
  import opened Text
  import opened RoutePattern
  import opened RouteTable
  import opened RouterActuator

  /** `Router::VARIABLE_PARAM_COUNT`: parameters are extracted whatever
      their number. */
  const VariableParamCount: int := -1

  /** `Router::IGNORE_PARAMS`. */
  const IgnoreParams: int := -2

  /** The handler chosen for a request: class, method and parameters. */
  datatype Action = Action(cls: string, handler: string, params: seq<string>)

  /*-------------------------------------------------------------------
    Action path
   -------------------------------------------------------------------*/

  /** `str_replace(['index.php?/', 'index.php?', 'index.php'], '', uri)`:
      the three searches are applied one after the other. */
  function StripIndex(uri: string): string
  {
    StrReplace(StrReplace(StrReplace(uri, "index.php?/", ""), "index.php?", ""), "index.php", "")
  }

  /** `str_replace('index.php', '', $_SERVER['SCRIPT_NAME'])`. */
  function ScriptPath(scriptName: string): string
  {
    StrReplace(scriptName, "index.php", "")
  }

  /** The action path of a request: empty when the stripped request URI is
      the script directory itself, otherwise what follows the directory's
      length, with `/` trimmed from both ends. */
  function ActionPath(requestUri: string, scriptName: string): (r: string)
    ensures StripIndex(requestUri) == ScriptPath(scriptName) ==> r == ""
    ensures StripIndex(requestUri) != ScriptPath(scriptName) ==>
              r == TrimSlashes(Drop(StripIndex(requestUri), |ScriptPath(scriptName)|))
  {
    var stripped := StripIndex(requestUri);
    var scriptPath := ScriptPath(scriptName);
    if stripped == scriptPath then "" else TrimSlashes(Drop(stripped, |scriptPath|))
  }

  /** The match key `strtoupper(verb) . ':' . action`. */
  function Key(verb: string, action: string): string
  {
    Upper(verb) + ":" + action
  }

  /*-------------------------------------------------------------------
    First match and parameters
   -------------------------------------------------------------------*/

  /** The position of the first route whose pattern accepts `key`. */
  function FirstMatch(t: Table, key: string): (r: Option<nat>)
    ensures r.Some? ==> r.value < |t| && Matches(t[r.value].descriptor.pattern, key)
    ensures r.Some? ==> forall j :: 0 <= j < r.value ==> !Matches(t[j].descriptor.pattern, key)
    ensures r.None? <==> forall j :: 0 <= j < |t| ==> !Matches(t[j].descriptor.pattern, key)
  {
    FirstMatchFrom(t, key, 0)
  }

  /** The routes are tried from position `from` on. */
  function FirstMatchFrom(t: Table, key: string, from: nat): (r: Option<nat>)
    requires from <= |t|
    ensures r.Some? ==> from <= r.value < |t| && Matches(t[r.value].descriptor.pattern, key)
    ensures r.Some? ==> forall j :: from <= j < r.value ==> !Matches(t[j].descriptor.pattern, key)
    ensures r.None? <==> forall j :: from <= j < |t| ==> !Matches(t[j].descriptor.pattern, key)
    decreases |t| - from
  {
    if from == |t| then None
    else if Matches(t[from].descriptor.pattern, key) then Some(from)
    else FirstMatchFrom(t, key, from + 1)
  }

  /** `parseParameters`: the action minus as many characters as the
      route's URI text has, then `/`-trimmed and split on `/`; a remainder
      that PHP reads as false (`''` or `'0'`) gives no parameters. */
  function ParseParameters(action: string, requestUri: string): (r: seq<string>)
    ensures var rest := Drop(action, |requestUri|);
      (rest == "" || rest == "0") ==> r == []
    ensures var rest := Drop(action, |requestUri|);
      !(rest == "" || rest == "0") ==>
        |r| >= 1 && Join(r, "/") == TrimSlashes(rest) && forall k :: 0 <= k < |r| ==> !Contains(r[k], "/")
  {
    var rest := Drop(action, |requestUri|);
    if rest == "" || rest == "0" then [] else Explode(TrimSlashes(rest), "/")
  }

  /** The parameters of a matched route: extracted for a variable count or
      a positive one, none otherwise. Extracted parameters hold no `/`
      and, joined with `/`, give back what follows the route's URI text in
      the action, without its outer slashes. */
  function ParamsFor(d: Descriptor, action: string): (r: seq<string>)
    ensures d.paramCount != VariableParamCount && d.paramCount <= 0 ==> r == []
    ensures forall k :: 0 <= k < |r| ==> !Contains(r[k], "/")
    ensures r != [] ==> Join(r, "/") == TrimSlashes(Drop(action, |d.requestUri|))
  {
    if d.paramCount == VariableParamCount || d.paramCount > 0 then ParseParameters(action, d.requestUri) else []
  }

  /** The loop of `getActionFromURI`: the routes are tried in order and
      the first whose pattern accepts the key decides the handler; without
      one the request fails with 404, naming the action. */
  function Resolve(t: Table, verb: string, action: string): (r: Result<Action>)
    ensures r.Err? <==> forall j :: 0 <= j < |t| ==> !Matches(t[j].descriptor.pattern, Key(verb, action))
    ensures r.Err? ==> r.error == Failure(404, "Unable to resolve the request " + action)
    ensures r.Ok? ==> exists k :: 0 <= k < |t| && Matches(t[k].descriptor.pattern, Key(verb, action))
                        && (forall j :: 0 <= j < k ==> !Matches(t[j].descriptor.pattern, Key(verb, action)))
                        && r.value == Action(t[k].descriptor.cls, t[k].descriptor.action, ParamsFor(t[k].descriptor, action))
  {
    match FirstMatch(t, Key(verb, action))
    case None => Err(Failure(404, "Unable to resolve the request " + action))
    case Some(k) =>
      var d := t[k].descriptor;
      Ok(Action(d.cls, d.action, ParamsFor(d, action)))
  }

  /** `getActionFromURI` with the server values `REQUEST_METHOD`,
      `REQUEST_URI` and `SCRIPT_NAME` as parameters: the request fails
      with 404 naming its action path exactly when no route accepts the
      key of the verb and that path; otherwise the first route that does
      decides the handler, and its parameters come out of the path. */
  function GetActionFromUri(t: Table, requestMethod: string, requestUri: string, scriptName: string): (r: Result<Action>)
    ensures var action := ActionPath(requestUri, scriptName);
      && (r.Err? <==> forall j :: 0 <= j < |t| ==> !Matches(t[j].descriptor.pattern, Key(requestMethod, action)))
      && (r.Err? ==> r.error == Failure(404, "Unable to resolve the request " + action))
      && (r.Ok? ==> exists k :: 0 <= k < |t| && Matches(t[k].descriptor.pattern, Key(requestMethod, action))
                     && (forall j :: 0 <= j < k ==> !Matches(t[j].descriptor.pattern, Key(requestMethod, action)))
                     && r.value == Action(t[k].descriptor.cls, t[k].descriptor.action, ParamsFor(t[k].descriptor, action)))
  {
    Resolve(t, requestMethod, ActionPath(requestUri, scriptName))
  }

  /** `getActionName`: `Class::method`. */
  function GetActionName(cls: string, handler: string): string
  {
    cls + "::" + handler
  }

  /*-------------------------------------------------------------------
    Lemmas
   -------------------------------------------------------------------*/

  /** The first match is the one route that matches with no match before
      it. */
  lemma FirstMatchIs(t: Table, key: string, k: nat)
    requires k < |t| && Matches(t[k].descriptor.pattern, key)
    requires forall j :: 0 <= j < k ==> !Matches(t[j].descriptor.pattern, key)
    ensures FirstMatch(t, key) == Some(k)
  {
    var r := FirstMatch(t, key);
    assert r.Some?;
    assert !(r.value < k) && !(k < r.value);
  }

  /** Routes after the first matching one are never consulted: appending
      routes to the table does not change a request it already resolves. */
  lemma LaterRoutesIgnored(t: Table, extra: Table, verb: string, action: string)
    requires Resolve(t, verb, action).Ok?
    ensures Resolve(t + extra, verb, action) == Resolve(t, verb, action)
  {
    var key := Key(verb, action);
    var k := FirstMatch(t, key).value;
    FirstMatchIs(t + extra, key, k);
  }

  /** A route shadowed by an earlier matching route is never chosen. */
  lemma ShadowedRoute(t: Table, j: int, k: int, verb: string, action: string)
    requires 0 <= j < k < |t|
    requires Matches(t[j].descriptor.pattern, Key(verb, action))
    ensures Resolve(t, verb, action).Ok?
    ensures FirstMatch(t, Key(verb, action)).value <= j
  {
  }

  /** Non-empty values without a slash. */
  predicate SlashFree(vs: seq<string>)
  {
    forall k :: 0 <= k < |vs| ==> vs[k] != [] && '/' !in vs[k]
  }

  /** When what follows a route's URI text in the action is `/v1/.../vn`,
      `parseParameters` gives back exactly `v1, ..., vn`. */
  lemma ParametersAfter(action: string, uri: string, vs: seq<string>)
    requires |uri| <= |action| && Drop(action, |uri|) == SlashPath(vs)
    requires SlashFree(vs)
    ensures ParseParameters(action, uri) == vs
  {
    if vs != [] {
      SlashPathJoin(vs);
      var joined := Join(vs, "/");
      JoinEnds(vs, "/");
      assert SlashPath(vs) == ['/'] + joined;
      assert SlashPath(vs) != "0";
      TrimLeading('/', joined, {'/'});
      ExplodeJoin(vs, "/");
    }
  }

  /** Parameter values appended to a route's URI text as `/v1/.../vn`
      come back out of `parseParameters` unchanged. */
  lemma ParametersRoundTrip(uri: string, vs: seq<string>)
    requires SlashFree(vs)
    ensures ParseParameters(uri + SlashPath(vs), uri) == vs
  {
    var action := uri + SlashPath(vs);
    assert Drop(action, |uri|) == SlashPath(vs);
    ParametersAfter(action, uri, vs);
  }

  /** Words are non-empty and slash-free. */
  lemma WordsSlashFree(ws: seq<string>)
    requires AllWords(ws)
    ensures SlashFree(ws)
  {
    forall k | 0 <= k < |ws|
      ensures '/' !in ws[k]
    {
      assert forall i :: 0 <= i < |ws[k]| ==> IsWordChar(ws[k][i]);
    }
  }

  /** A request built from a compiled route — one of its verbs, its URI
      text and as many word segments as it counts — is dispatched to that
      route's handler with exactly those segments as parameters, when no
      earlier route accepts it. */
  lemma DispatchRoundTrip(t: Table, k: int, i: int, ws: seq<string>)
    requires 0 <= k < |t| && Compiled(t[k].descriptor)
    requires 0 <= i < |t[k].descriptor.methods|
    requires AllWords(ws) && |ws| == t[k].descriptor.paramCount
    requires var d := t[k].descriptor;
      forall j :: 0 <= j < k ==> !Matches(t[j].descriptor.pattern, Key(d.methods[i], d.requestUri + SlashPath(ws)))
    ensures var d := t[k].descriptor;
      Resolve(t, d.methods[i], d.requestUri + SlashPath(ws)) == Ok(Action(d.cls, d.action, ws))
  {
    var d := t[k].descriptor;
    var verb := d.methods[i];
    var action := d.requestUri + SlashPath(ws);
    DispatchFinds(t, k, i, ws, verb, action);
    DispatchParameters(d, ws, action);
  }

  /** The request's key is first accepted by route `k`. */
  lemma DispatchFinds(t: Table, k: int, i: int, ws: seq<string>, verb: string, action: string)
    requires 0 <= k < |t| && Compiled(t[k].descriptor)
    requires 0 <= i < |t[k].descriptor.methods|
    requires AllWords(ws) && |ws| == t[k].descriptor.paramCount
    requires verb == t[k].descriptor.methods[i] && action == t[k].descriptor.requestUri + SlashPath(ws)
    requires forall j :: 0 <= j < k ==> !Matches(t[j].descriptor.pattern, Key(verb, action))
    ensures FirstMatch(t, Key(verb, action)) == Some(k)
  {
    var d := t[k].descriptor;
    RestfulShape(verb);
    UpperOfUpper(verb);
    assert Key(verb, action) == verb + ":" + d.requestUri + SlashPath(ws);
    MatchesRequest(d.pattern, i, ws);
    FirstMatchIs(t, Key(verb, action), k);
  }

  /** The segments of the request are the parameters of its route. */
  lemma DispatchParameters(d: Descriptor, ws: seq<string>, action: string)
    requires AllWords(ws) && |ws| == d.paramCount
    requires action == d.requestUri + SlashPath(ws)
    ensures ParamsFor(d, action) == ws
  {
    WordsSlashFree(ws);
    ParametersRoundTrip(d.requestUri, ws);
  }

  /** The upper-cased verb of a key ends where the key's first `:` is, so
      a method name without `:` that the key starts with, ignoring case,
      has the verb's length. */
  lemma KeyVerbLength(verb: string, action: string, m: string)
    requires ':' !in verb && ':' !in m
    requires |m| < |Key(verb, action)| && Key(verb, action)[|m|] == ':'
    requires EqualsIgnoreCase(Key(verb, action)[..|m|], m)
    ensures |m| == |verb|
    ensures Key(verb, action)[|m| + 1..] == action
  {
    var key := Key(verb, action);
    assert forall j :: 0 <= j < |verb| ==> key[j] == UpperChar(verb[j]) && verb[j] != ':';
    assert forall j :: 0 <= j < |m| ==> LowerChar(key[..|m|][j]) == LowerChar(m[j]) && m[j] != ':';
    assert forall j :: 0 <= j < |m| ==> key[..|m|][j] == key[j];
    assert key[|verb|] == ':';
  }

  /** A key matched through the alternative `m` carries the segments
      right after the route's URI text in the action. */
  lemma MatchedSegments(m: string, uri: string, n: nat, verb: string, action: string)
    requires ':' !in verb && ':' !in m
    requires MatchesVia(m, uri, n, Key(verb, action))
    ensures |uri| <= |action| && IsSegments(Drop(action, |uri|), n)
  {
    var key := Key(verb, action);
    KeyVerbLength(verb, action, m);
    assert key[|m| + 1..] == action;
    assert key[|m| + 1 + |uri|..] == action[|uri|..];
  }

  /** A key a compiled route accepts whole yields exactly as many word
      parameters as the route counts, read from the segments after the
      route's URI text. */
  lemma MatchedParameters(d: Descriptor, verb: string, action: string)
    requires Compiled(d) && d.paramCount > 0
    requires ':' !in verb
    requires MatchesWhole(d.pattern, Key(verb, action))
    ensures |ParamsFor(d, action)| == d.paramCount
    ensures AllWords(ParamsFor(d, action))
    ensures SlashPath(ParamsFor(d, action)) == Drop(action, |d.requestUri|)
  {
    var n := SegmentCount(d.paramCount);
    var i :| 0 <= i < |d.methods| && MatchesVia(d.methods[i], d.requestUri, n, Key(verb, action));
    RestfulShape(d.methods[i]);
    assert ':' !in d.methods[i];
    MatchedSegments(d.methods[i], d.requestUri, n, verb, action);
    var ws := SegmentWords(Drop(action, |d.requestUri|), n);
    WordsSlashFree(ws);
    ParametersAfter(action, d.requestUri, ws);
  }

  /** Removing `index.php` from a script name inside a directory without
      one leaves the directory. */
  lemma ScriptDirectory(base: string)
    requires !Contains(base, "index.php")
    ensures ScriptPath(base + "index.php") == base
  {
    var name := base + "index.php";
    SplitsOnceAtUnique(base, "index.php", "");
    assert base + "index.php" + "" == name;
    ExplodeSplitsOnce(name, "index.php", |base|);
    assert name[..|base|] == base && name[|base| + 9..] == "";
    assert Join([base, ""], "") == base + "" + "";
  }

  /** A URI with none of the three `index.php` forms is left alone. */
  lemma StripIndexAbsent(uri: string)
    requires !Contains(uri, "index.php")
    ensures StripIndex(uri) == uri
  {
    AbsentLonger(uri, "index.php", "?/");
    AbsentLonger(uri, "index.php", "?");
    assert "index.php" + "?/" == "index.php?/" && "index.php" + "?" == "index.php?";
    StrReplaceAbsent(uri, "index.php?/", "");
    StrReplaceAbsent(uri, "index.php?", "");
    StrReplaceAbsent(uri, "index.php", "");
  }

  /** A rewritten URL `base/action` under the script `base/index.php`
      has the action path `action` without its outer slashes. */
  lemma ActionPathRewritten(base: string, action: string)
    requires !Contains(base, "index.php") && !Contains(base + action, "index.php")
    ensures ActionPath(base + action, base + "index.php") == TrimSlashes(action)
  {
    ScriptDirectory(base);
    StripIndexAbsent(base + action);
    if action == [] {
      assert base + action == base;
      assert TrimSlashes(action) == [];
    } else {
      assert Drop(base + action, |base|) == action;
    }
  }

  /** Removing `index.php?/` from `base/index.php?/action` leaves
      `base/action`. */
  lemma FrontControllerStrip(base: string, action: string)
    requires !Contains(base, "index.php") && !Contains(action, "index.php")
    ensures StrReplace(base + "index.php?/" + action, "index.php?/", "") == base + action
  {
    var uri := base + "index.php?/" + action;
    AbsentLonger(base, "index.php", "?/");
    AbsentLonger(action, "index.php", "?/");
    assert "index.php?/" == "index.php" + "?/";
    SplitsOnceAtUnique(base, "index.php?/", action);
    ExplodeSplitsOnce(uri, "index.php?/", |base|);
    assert uri[..|base|] == base && uri[|base| + 11..] == action;
    assert Join([base, action], "") == base + "" + action;
  }

  /** A front-controller URL `base/index.php?/action` under the script
      `base/index.php` has the same action path. */
  lemma ActionPathFrontController(base: string, action: string)
    requires !Contains(base, "index.php") && !Contains(action, "index.php")
    requires !Contains(base + action, "index.php")
    ensures ActionPath(base + "index.php?/" + action, base + "index.php") == TrimSlashes(action)
  {
    FrontControllerStrip(base, action);
    AbsentLonger(base + action, "index.php", "?/");
    assert "index.php" + "?/" == "index.php?/";
    StrReplaceAbsent(base + action, "index.php?/", "");
    assert StripIndex(base + "index.php?/" + action) == StripIndex(base + action);
    ActionPathRewritten(base, action);
  }

  /** A request `base/index.php?/U/w1/.../wn` through the front controller
      `base/index.php`, where `U` is a compiled route's URI and the `wi`
      are as many words as the route counts, is dispatched to that route's
      handler with the words as parameters, unless an earlier route takes
      the request. */
  lemma FrontControllerDispatch(t: Table, k: int, i: int, ws: seq<string>, base: string)
    requires 0 <= k < |t| && Compiled(t[k].descriptor)
    requires 0 <= i < |t[k].descriptor.methods|
    requires AllWords(ws) && |ws| == t[k].descriptor.paramCount
    requires var a := t[k].descriptor.requestUri + SlashPath(ws);
      a == [] || (a[0] != '/' && a[|a| - 1] != '/')
    requires var a := t[k].descriptor.requestUri + SlashPath(ws);
      !Contains(base, "index.php") && !Contains(a, "index.php") && !Contains(base + a, "index.php")
    requires var d := t[k].descriptor;
      forall j :: 0 <= j < k ==> !Matches(t[j].descriptor.pattern, Key(d.methods[i], d.requestUri + SlashPath(ws)))
    ensures var d := t[k].descriptor;
      GetActionFromUri(t, d.methods[i], base + "index.php?/" + d.requestUri + SlashPath(ws), base + "index.php")
        == Ok(Action(d.cls, d.action, ws))
  {
    var d := t[k].descriptor;
    var a := d.requestUri + SlashPath(ws);
    FrontControllerPath(base, a, base + "index.php?/" + d.requestUri + SlashPath(ws));
    DispatchRoundTrip(t, k, i, ws);
  }

  /** Through the front controller the action path is the action itself
      when it has no outer slashes. */
  lemma FrontControllerPath(base: string, a: string, uri: string)
    requires a == [] || (a[0] != '/' && a[|a| - 1] != '/')
    requires !Contains(base, "index.php") && !Contains(a, "index.php") && !Contains(base + a, "index.php")
    requires uri == base + "index.php?/" + a
    ensures ActionPath(uri, base + "index.php") == a
  {
    ActionPathFrontController(base, a);
    TrimUntouched(a, {'/'});
  }

  /** The action name of a handler reads back through `parseAction`. */
  lemma ActionNameParses(cls: string, handler: string)
    requires ':' !in cls && ':' !in handler
    requires cls != [] && cls[0] !in Whitespace && cls[|cls| - 1] !in Whitespace
    requires handler != [] && handler[0] !in Whitespace && handler[|handler| - 1] !in Whitespace
    ensures ParseAction(GetActionName(cls, handler)) == Ok((cls, handler))
  {
    CompileActionSide(cls, handler);
  }
}
