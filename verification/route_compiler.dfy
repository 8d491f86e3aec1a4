/** The route compiler (`RouterActuator`): turns each textual rule of the
    routes section of the configuration, such as
    `PUT|POST:/orders/preview/%1/%2 => app\web\Orders::preview`, into a
    route descriptor, and the whole section into a route table. */
module RouterActuator {
  import opened Wrappers
  import opened Text
  import opened RoutePattern
  import opened RouteTable

  /** What `parseUri` produces: the allowed verbs, the URI text before the
      first placeholder, the placeholder count and the match pattern. */
  datatype UriPart = UriPart(methods: seq<string>, requestUri: string, paramCount: int, pattern: Pattern)

  /** The shape `splitToUriAndAction` and `parseAction` share: `s` must
      contain `sep` exactly once (in the sense of `explode`), else the
      call fails with 500 and `message` followed by `s`; the two sides
      are whitespace-trimmed. */
  function SplitOnce(s: string, sep: string, message: string): (r: Result<(string, string)>)
    requires |sep| > 0
    ensures r.Err? <==> !exists i :: SplitsOnceAt(s, sep, i)
    ensures r.Err? ==> r.error == Failure(500, message + s)
    ensures forall i :: SplitsOnceAt(s, sep, i) ==>
              r == Ok((TrimSpace(s[..i]), TrimSpace(s[i + |sep|..])))
  {
    ExplodeTwo(s, sep);
    var a := Explode(s, sep);
    if |a| != 2 then Err(Failure(500, message + s))
    else Ok((TrimSpace(a[0]), TrimSpace(a[1])))
  }

  /** `splitToUriAndAction`: the rule must contain `=>` exactly once. */
  function SplitToUriAndAction(description: string): (r: Result<(string, string)>)
    ensures r.Err? <==> !exists i :: SplitsOnceAt(description, "=>", i)
    ensures r.Err? ==> r.error == Failure(500, "Invalid route format: " + description)
    ensures forall i :: SplitsOnceAt(description, "=>", i) ==>
              r == Ok((TrimSpace(description[..i]), TrimSpace(description[i + 2..])))
  {
    SplitOnce(description, "=>", "Invalid route format: ")
  }

  /** The position of the first verb that is not a RESTful method. */
  function FirstUnknown(ms: seq<string>): (r: Option<nat>)
    ensures r.Some? ==> r.value < |ms| && ms[r.value] !in RestfulMethods
    ensures r.Some? ==> forall j :: 0 <= j < r.value ==> ms[j] in RestfulMethods
    ensures r.None? <==> forall j :: 0 <= j < |ms| ==> ms[j] in RestfulMethods
  {
    if ms == [] then None
    else if ms[0] !in RestfulMethods then Some(0)
    else match FirstUnknown(ms[1..])
      case None => None
      case Some(k) => Some(k + 1)
  }

  /** The verbs a rule's prefix lists: upper-cased, trimmed, split on `|`. */
  function ListedMethods(prefix: string): seq<string>
  {
    Explode(TrimSpace(Upper(prefix)), "|")
  }

  /** The verb check of `parseUri`: `array_walk` visits the listed verbs in
      order and throws, without an exception code, at the first one that
      is not a RESTful method. */
  function ParseMethods(prefix: string): (r: Result<seq<string>>)
    ensures var listed := ListedMethods(prefix);
      r.Ok? <==> forall k :: 0 <= k < |listed| ==> listed[k] in RestfulMethods
    ensures r.Ok? ==> |r.value| >= 1 && Join(r.value, "|") == TrimSpace(Upper(prefix))
    ensures r.Ok? ==> forall k :: 0 <= k < |r.value| ==> !Contains(r.value[k], "|")
    ensures var listed := ListedMethods(prefix);
      r.Err? ==> exists k :: 0 <= k < |listed| && listed[k] !in RestfulMethods
                   && (forall j :: 0 <= j < k ==> listed[j] in RestfulMethods)
                   && r.error == Failure(0, "Invalid request method " + listed[k])
  {
    var listed := ListedMethods(prefix);
    match FirstUnknown(listed)
    case None => Ok(listed)
    case Some(k) => Err(Failure(0, "Invalid request method " + listed[k]))
  }

  /** `i` is the position of the first `:` of `uri`. */
  predicate FirstColonAt(uri: string, i: int)
  {
    0 <= i < |uri| && uri[i] == ':' && ':' !in uri[..i]
  }

  /** The URI part of a rule after the verb prefix, if there is one
      (`explode(':', $uri, 2)`). */
  function PathOf(uri: string): string
  {
    match SplitFirst(uri, ":")
    case None => uri
    case Some(parts) => parts.1
  }

  /** `trim(trim($request_uri), '/')`. */
  function CleanPath(path: string): string
  {
    TrimSlashes(TrimSpace(path))
  }

  /** `extractUriAndParamCount`: the text before the first `/%` marker and
      the number of markers. */
  function ExtractUriAndParamCount(uri: string): (r: (string, nat))
    ensures r.1 == Occurrences(uri, "/%")
    ensures !Contains(r.0, "/%")
    ensures r.1 == 0 ==> r.0 == uri
    ensures r.1 > 0 ==> StartsWith(uri, r.0 + "/%")
    ensures StartsWith(uri, r.0)
  {
    ExplodeCount(uri, "/%");
    var a := Explode(uri, "/%");
    assert |a| > 1 ==> uri == a[0] + "/%" + Join(a[1..], "/%");
    assert uri[..|a[0]|] == a[0];
    (a[0], |a| - 1)
  }

  /** The descriptor fields `parseUri` derives from the path of a rule. */
  function UriPartOf(methods: seq<string>, path: string): (r: UriPart)
    ensures r.methods == methods
    ensures r.pattern == Pattern(r.methods, r.requestUri, r.paramCount)
    ensures r.paramCount == Occurrences(CleanPath(path), "/%")
    ensures !Contains(r.requestUri, "/%") && StartsWith(CleanPath(path), r.requestUri)
    ensures r.paramCount == 0 ==> r.requestUri == CleanPath(path)
    ensures r.paramCount > 0 ==> StartsWith(CleanPath(path), r.requestUri + "/%")
  {
    var cleaned := CleanPath(path);
    var e := ExtractUriAndParamCount(cleaned);
    UriPart(methods, e.0, e.1, Pattern(methods, e.0, e.1))
  }

  /** `parseUri`: without a verb prefix every RESTful method is allowed;
      with one, the listed verbs must all be RESTful. The count is the
      number of `/%` markers of the trimmed path and the URI text is what
      precedes the first of them. */
  function ParseUri(uri: string): (r: Result<UriPart>)
    ensures r.Ok? ==> forall k :: 0 <= k < |r.value.methods| ==> r.value.methods[k] in RestfulMethods
    ensures r.Ok? ==> r.value == UriPartOf(r.value.methods, PathOf(uri))
    ensures !Contains(uri, ":") ==> PathOf(uri) == uri && r == Ok(UriPartOf(RestfulMethods, uri))
  {
    match SplitFirst(uri, ":")
    case None =>
      Ok(UriPartOf(RestfulMethods, uri))
    case Some(parts) =>
      var methods :- ParseMethods(parts.0);
      Ok(UriPartOf(methods, parts.1))
  }

  /** `parseAction`: the action must contain `::` exactly once; class
      and method are the trimmed sides. */
  function ParseAction(action: string): (r: Result<(string, string)>)
    ensures r.Err? <==> !exists i :: SplitsOnceAt(action, "::", i)
    ensures r.Err? ==> r.error == Failure(500, "Invalid action format: " + action)
    ensures forall i :: SplitsOnceAt(action, "::", i) ==>
              r == Ok((TrimSpace(action[..i]), TrimSpace(action[i + 2..])))
  {
    SplitOnce(action, "::", "Invalid action format: ")
  }

  /** `parseRoute`: the rule is split first, then its URI side is parsed,
      then its action side; the first failure is the one reported. */
  function ParseRoute(description: string): (r: Result<Descriptor>)
    ensures r.Ok? ==> Compiled(r.value)
    ensures !(exists i :: SplitsOnceAt(description, "=>", i)) ==>
              r == Err(Failure(500, "Invalid route format: " + description))
  {
    var sides :- SplitToUriAndAction(description);
    var u :- ParseUri(sides.0);
    var a :- ParseAction(sides.1);
    Ok(Descriptor(u.methods, u.requestUri, u.paramCount, u.pattern, a.0, a.1))
  }

  /** No later rule of the section has the same name as rule `k`. */
  predicate LastWithName(rules: seq<(string, string)>, k: int)
    requires 0 <= k < |rules|
  {
    forall j :: k < j < |rules| ==> rules[j].0 != rules[k].0
  }

  /** Compiling a routes section with a given rule compiler: the rules
      are compiled in order and added under their names, and the first
      failure aborts the table. */
  function BuildTable(rules: seq<(string, string)>, compile: string -> Result<Descriptor>): (r: Result<Table>)
    ensures r.Ok? <==> forall k :: 0 <= k < |rules| ==> compile(rules[k].1).Ok?
    ensures r.Err? ==> exists k :: 0 <= k < |rules| && compile(rules[k].1).Err?
                         && (forall j :: 0 <= j < k ==> compile(rules[j].1).Ok?)
                         && r.error == compile(rules[k].1).error
  {
    if rules == [] then Ok([])
    else
      var init := rules[..|rules| - 1];
      var last := rules[|rules| - 1];
      assert forall k :: 0 <= k < |init| ==> init[k] == rules[k];
      var t :- BuildTable(init, compile);
      var d :- compile(last.1);
      Ok(AddRoute(t, last.0, d))
  }

  /** `run`: the routes section compiled with `parseRoute`. */
  function Run(rules: seq<(string, string)>): (r: Result<Table>)
    ensures r.Ok? <==> forall k :: 0 <= k < |rules| ==> ParseRoute(rules[k].1).Ok?
    ensures r.Err? ==> exists k :: 0 <= k < |rules| && ParseRoute(rules[k].1).Err?
                         && (forall j :: 0 <= j < k ==> ParseRoute(rules[j].1).Ok?)
                         && r.error == ParseRoute(rules[k].1).error
  {
    BuildTable(rules, ParseRoute)
  }

  /*-------------------------------------------------------------------
    Lemmas
   -------------------------------------------------------------------*/

  /** The table built holds every name of the section exactly once. */
  lemma {:induction false} BuildTableNames(rules: seq<(string, string)>, compile: string -> Result<Descriptor>)
    requires BuildTable(rules, compile).Ok?
    ensures UniqueNames(BuildTable(rules, compile).value)
    ensures forall name :: name in Names(BuildTable(rules, compile).value) <==> exists k :: 0 <= k < |rules| && rules[k].0 == name
  {
    if rules != [] {
      var init := rules[..|rules| - 1];
      var last := rules[|rules| - 1];
      BuildTableLast(rules, compile, init, last);
      BuildTableNames(init, compile);
      var t := BuildTable(init, compile).value;
      var d := compile(last.1).value;
      NamesAfterAdd(t, last.0, d);
    }
  }

  /** Every entry of the table built is the compilation of some rule. */
  lemma {:induction false} BuildTableEntries(rules: seq<(string, string)>, compile: string -> Result<Descriptor>)
    requires BuildTable(rules, compile).Ok?
    ensures forall k :: 0 <= k < |BuildTable(rules, compile).value| ==>
              exists j :: 0 <= j < |rules| && compile(rules[j].1) == Ok(BuildTable(rules, compile).value[k].descriptor)
  {
    if rules != [] {
      var init := rules[..|rules| - 1];
      var last := rules[|rules| - 1];
      BuildTableLast(rules, compile, init, last);
      BuildTableEntries(init, compile);
      var t := BuildTable(init, compile).value;
      var d := compile(last.1).value;
      var r := BuildTable(rules, compile).value;
      EntriesAfterAdd(t, last.0, d);
      forall k | 0 <= k < |r|
        ensures exists j :: 0 <= j < |rules| && compile(rules[j].1) == Ok(r[k].descriptor)
      {
        if r[k] == Route(last.0, d) {
          assert compile(rules[|rules| - 1].1) == Ok(r[k].descriptor);
        } else {
          var j :| 0 <= j < |init| && compile(init[j].1) == Ok(t[k].descriptor);
          assert compile(rules[j].1) == Ok(r[k].descriptor);
        }
      }
    }
  }

  /** Each name of the table built leads to the descriptor compiled from
      the last rule with that name. */
  lemma {:induction false} BuildTableLookup(rules: seq<(string, string)>, compile: string -> Result<Descriptor>, k: int)
    requires BuildTable(rules, compile).Ok?
    requires 0 <= k < |rules| && LastWithName(rules, k)
    ensures Lookup(BuildTable(rules, compile).value, rules[k].0) == Some(compile(rules[k].1).value)
  {
    var init := rules[..|rules| - 1];
    var last := rules[|rules| - 1];
    BuildTableLast(rules, compile, init, last);
    var t := BuildTable(init, compile).value;
    var d := compile(last.1).value;
    LookupAfterAdd(t, last.0, d, rules[k].0);
    if k < |init| {
      assert init[k] == rules[k];
      assert last.0 != rules[k].0;
      assert LastWithName(init, k);
      BuildTableLookup(init, compile, k);
    } else {
      SameIndex(rules, k, |rules| - 1);
    }
  }

  lemma SameIndex<T>(s: seq<T>, i: int, j: int)
    requires 0 <= i < |s| && i == j
    ensures s[i] == s[j]
  {
  }

  /** A table built from a non-empty section is the table of the rules
      before the last one with the last rule added. */
  lemma BuildTableLast(rules: seq<(string, string)>, compile: string -> Result<Descriptor>,
                       init: seq<(string, string)>, last: (string, string))
    requires BuildTable(rules, compile).Ok? && |rules| >= 1
    requires init == rules[..|rules| - 1] && last == rules[|rules| - 1]
    ensures forall j :: 0 <= j < |init| ==> init[j] == rules[j]
    ensures BuildTable(init, compile).Ok? && compile(last.1).Ok?
    ensures BuildTable(rules, compile).value
         == AddRoute(BuildTable(init, compile).value, last.0, compile(last.1).value)
  {
  }

  /** The table `run` builds holds every name of the section once, each
      leading to the compiled descriptor of its last rule, and every entry
      is a compiled descriptor. */
  lemma RunTable(rules: seq<(string, string)>)
    requires Run(rules).Ok?
    ensures UniqueNames(Run(rules).value)
    ensures forall k :: 0 <= k < |Run(rules).value| ==> Compiled(Run(rules).value[k].descriptor)
    ensures forall name :: name in Names(Run(rules).value) <==> exists k :: 0 <= k < |rules| && rules[k].0 == name
    ensures forall k :: 0 <= k < |rules| && LastWithName(rules, k) ==>
              Lookup(Run(rules).value, rules[k].0) == Some(ParseRoute(rules[k].1).value)
  {
    BuildTableNames(rules, ParseRoute);
    BuildTableEntries(rules, ParseRoute);
    forall k | 0 <= k < |rules| && LastWithName(rules, k)
      ensures Lookup(Run(rules).value, rules[k].0) == Some(ParseRoute(rules[k].1).value)
    {
      BuildTableLookup(rules, ParseRoute, k);
    }
    var t := Run(rules).value;
    forall k | 0 <= k < |t|
      ensures Compiled(t[k].descriptor)
    {
      var j :| 0 <= j < |rules| && ParseRoute(rules[j].1) == Ok(t[k].descriptor);
    }
  }

  lemma FirstColonOfSplit(uri: string, pre: string, path: string)
    requires uri == pre + ":" + path && !Contains(pre, ":")
    ensures FirstColonAt(uri, |pre|) && uri[..|pre|] == pre && uri[|pre| + 1..] == path
    ensures forall i :: FirstColonAt(uri, i) ==> i == |pre|
  {
    assert uri[..|pre|] == pre;
    forall k | 0 <= k < |pre|
      ensures pre[k] != ':'
    {
      assert !OccursAt(pre, ":", k);
      assert pre[k..k + 1] == [pre[k]];
    }
  }

  /** Once the rule splits at `=>`, a URI side failure takes precedence
      over an action side failure; with neither, the descriptor joins the
      two sides' fields. */
  lemma ParseRouteSides(description: string, i: int)
    requires SplitsOnceAt(description, "=>", i)
    ensures var u := ParseUri(TrimSpace(description[..i]));
      var a := ParseAction(TrimSpace(description[i + 2..]));
      && (u.Err? ==> ParseRoute(description) == Err(u.error))
      && (u.Ok? && a.Err? ==> ParseRoute(description) == Err(a.error))
      && (u.Ok? && a.Ok? ==>
            ParseRoute(description) == Ok(Descriptor(u.value.methods, u.value.requestUri, u.value.paramCount,
                                                      u.value.pattern, a.value.0, a.value.1)))
  {
  }

  /** With a verb prefix ending at the first `:`, the verbs are those the
      prefix lists, the path is the rest, and a verb check failure is the
      failure of the whole URI side. */
  lemma ParseUriPrefixed(uri: string, i: int)
    requires FirstColonAt(uri, i)
    ensures PathOf(uri) == uri[i + 1..]
    ensures var m := ParseMethods(uri[..i]);
      && (m.Err? ==> ParseUri(uri) == Err(m.error))
      && (m.Ok? ==> ParseUri(uri) == Ok(UriPartOf(m.value, uri[i + 1..])))
  {
    var parts := SplitFirst(uri, ":");
    assert OccursAt(uri, ":", i);
    assert parts.Some?;
    FirstColonOfSplit(uri, parts.value.0, parts.value.1);
  }

  /** A verb prefix naming one RESTful verb, then a path. */
  lemma CompileUriSide(verb: string, path: string)
    requires verb in RestfulMethods
    requires path != [] && path[0] != '/' && path[|path| - 1] != '/'
    requires path[|path| - 1] !in Whitespace
    ensures ParseUri(verb + ":/" + path) == Ok(UriPartOf([verb], "/" + path))
  {
    RestfulShape(verb);
    var uri := verb + ":/" + path;
    assert uri == verb + ":" + ("/" + path);
    AbsentChar(verb, ":", 0);
    FirstColonOfSplit(uri, verb, "/" + path);
    UpperOfUpper(verb);
    TrimUntouched(verb, Whitespace);
    AbsentChar(verb, "|", 0);
    ExplodeAbsent(verb, "|");
    assert ListedMethods(verb) == [verb];
    assert ParseMethods(verb) == Ok([verb]);
    ParseUriPrefixed(uri, |verb|);
  }

  /** A path after the root slash comes out of the trimming unchanged. */
  lemma CleanRootedPath(path: string)
    requires path != [] && path[0] != '/' && path[|path| - 1] != '/'
    requires path[|path| - 1] !in Whitespace
    ensures CleanPath("/" + path) == path
  {
    RootedTrimSpace(path);
    RootedTrimSlashes(path);
  }

  lemma RootedTrimSpace(path: string)
    requires path != [] && path[|path| - 1] !in Whitespace
    ensures TrimSpace("/" + path) == "/" + path
  {
    TrimUntouched("/" + path, Whitespace);
  }

  lemma RootedTrimSlashes(path: string)
    requires path != [] && path[0] != '/' && path[|path| - 1] != '/'
    ensures TrimSlashes("/" + path) == path
  {
    TrimLeading('/', path, {'/'});
  }

  /** An action `Class::method` whose parts are already trimmed. */
  lemma CompileActionSide(cls: string, act: string)
    requires ':' !in cls && ':' !in act
    requires cls != [] && cls[0] !in Whitespace && cls[|cls| - 1] !in Whitespace
    requires act != [] && act[0] !in Whitespace && act[|act| - 1] !in Whitespace
    ensures ParseAction(cls + "::" + act) == Ok((cls, act))
  {
    var action := cls + "::" + act;
    SplitsOnceAtFirstFree(cls, "::", act);
    assert action[..|cls|] == cls && action[|cls| + 2..] == act;
    TrimUntouched(cls, Whitespace);
    TrimUntouched(act, Whitespace);
  }

  /** The `=>` of a rule whose sides hold no `=` splits it there. */
  lemma SplitRule(uriSide: string, actionSide: string)
    requires '=' !in uriSide && '=' !in actionSide
    requires uriSide != [] && uriSide[0] !in Whitespace && uriSide[|uriSide| - 1] !in Whitespace
    requires actionSide != [] && actionSide[0] !in Whitespace && actionSide[|actionSide| - 1] !in Whitespace
    ensures SplitToUriAndAction(uriSide + " => " + actionSide) == Ok((uriSide, actionSide))
  {
    var a := uriSide + " ";
    var b := " " + actionSide;
    ArrowAt(uriSide, actionSide, a, b);
    PaddedRight(uriSide, a);
    PaddedLeft(actionSide, b);
  }

  /** The rule splits at its `=>`, between the padded sides. */
  lemma ArrowAt(uriSide: string, actionSide: string, a: string, b: string)
    requires '=' !in uriSide && '=' !in actionSide
    requires a == uriSide + " " && b == " " + actionSide
    ensures var d := uriSide + " => " + actionSide;
      SplitsOnceAt(d, "=>", |a|) && d[..|a|] == a && d[|a| + 2..] == b
  {
    var d := uriSide + " => " + actionSide;
    assert d == a + "=>" + b;
    SplitsOnceAtFirstFree(a, "=>", b);
    assert d[..|a|] == a;
    assert d[|a| + 2..] == b;
  }

  lemma PaddedRight(x: string, a: string)
    requires x != [] && x[0] !in Whitespace && x[|x| - 1] !in Whitespace
    requires a == x + " "
    ensures TrimSpace(a) == x
  {
    assert [] + x + [' '] == a;
    TrimPadded([], x, [' '], Whitespace);
  }

  lemma PaddedLeft(x: string, b: string)
    requires x != [] && x[0] !in Whitespace && x[|x| - 1] !in Whitespace
    requires b == " " + x
    ensures TrimSpace(b) == x
  {
    assert [' '] + x + [] == b;
    TrimPadded([' '], x, [], Whitespace);
  }

  /** The parts of a rule `VERB:/path => Class::method` written the way
      the documentation shows: a RESTful verb, a path with no `=`, no
      slash at either end and no trailing blank, and a class and method
      with no `:` or `=` and no blanks around them. */
  predicate PlainRule(verb: string, path: string, cls: string, act: string)
  {
    && verb in RestfulMethods
    && '=' !in path && '=' !in cls && '=' !in act
    && ':' !in cls && ':' !in act
    && path != [] && path[0] != '/' && path[|path| - 1] != '/'
    && path[|path| - 1] !in Whitespace
    && cls != [] && cls[0] !in Whitespace && cls[|cls| - 1] !in Whitespace
    && act != [] && act[0] !in Whitespace && act[|act| - 1] !in Whitespace
  }

  /** A rule of the documented form `VERB:/path => Class::method` compiles
      to the one verb, the part of the path before its first `/%` marker,
      the marker count, and the class and method. */
  lemma CompileRule(verb: string, path: string, cls: string, act: string)
    requires PlainRule(verb, path, cls, act)
    ensures var e := ExtractUriAndParamCount(path);
      ParseRoute(verb + ":/" + path + " => " + cls + "::" + act)
        == Ok(Descriptor([verb], e.0, e.1, Pattern([verb], e.0, e.1), cls, act))
  {
    RestfulShape(verb);
    var uriSide := verb + ":/" + path;
    var actionSide := cls + "::" + act;
    assert verb + ":/" + path + " => " + cls + "::" + act == uriSide + " => " + actionSide;
    SplitRule(uriSide, actionSide);
    CompileUriSide(verb, path);
    CompileActionSide(cls, act);
    CleanRootedPath(path);
  }

  /* The example rules below take the pieces of each rule as parameters
     fixed by `requires`, and the rule text is their concatenation: the
     verifier then works with the pieces instead of taking one long
     literal apart character by character. */

  /** The first rule of the compiler's own test data:
      `GET:/order/create => app\web\Order::create`. */
  lemma OrderCreateRule(description: string, verb: string, path: string, cls: string, act: string)
    requires verb == "GET" && path == "order/create" && cls == "app\\web\\Order" && act == "create"
    requires description == verb + ":/" + path + " => " + cls + "::" + act
    ensures ParseRoute(description) == Ok(Descriptor([verb], path, 0, Pattern([verb], path, 0), cls, act))
  {
    assert PlainRule(verb, path, cls, act);
    NoMarker(path);
    RuleParts(description, verb, path, cls, act);
  }

  /** The second rule of the test data, `GET:/order/view?/%1 => …::view`:
      the source keeps the `?` in the URI text (its tests expect
      `order/view`) and counts one placeholder. */
  lemma OrderViewRule(description: string, verb: string, uri: string, rest: string, cls: string, act: string)
    requires verb == "GET" && uri == "order/view?" && rest == "1" && cls == "app\\web\\Order" && act == "view"
    requires description == verb + ":/" + (uri + "/%" + rest) + " => " + cls + "::" + act
    ensures ParseRoute(description) == Ok(Descriptor([verb], uri, 1, Pattern([verb], uri, 1), cls, act))
  {
    assert PlainRule(verb, uri + "/%" + rest, cls, act);
    OneMarker(uri, rest);
    RuleParts(description, verb, uri + "/%" + rest, cls, act);
  }

  /** The third rule of the test data, `POST:/order/save => …::save`. */
  lemma OrderSaveRule(description: string, verb: string, path: string, cls: string, act: string)
    requires verb == "POST" && path == "order/save" && cls == "app\\web\\Order" && act == "save"
    requires description == verb + ":/" + path + " => " + cls + "::" + act
    ensures ParseRoute(description) == Ok(Descriptor([verb], path, 0, Pattern([verb], path, 0), cls, act))
  {
    assert PlainRule(verb, path, cls, act);
    NoMarker(path);
    RuleParts(description, verb, path, cls, act);
  }

  /** A placeholder right after the root is eaten by the slash trimming:
      `GET:/%1 => Page::show` compiles to the URI text `%1` with no
      parameters. */
  lemma RootPlaceholderRule(description: string, verb: string, path: string, cls: string, act: string)
    requires verb == "GET" && path == "%1" && cls == "Page" && act == "show"
    requires description == verb + ":/" + path + " => " + cls + "::" + act
    ensures ParseRoute(description) == Ok(Descriptor([verb], path, 0, Pattern([verb], path, 0), cls, act))
  {
    assert PlainRule(verb, path, cls, act);
    AbsentChar(path, "/%", 0);
    ExplodeAbsent(path, "/%");
    RuleParts(description, verb, path, cls, act);
  }

  /** A concrete rule seen through its parts. */
  lemma RuleParts(description: string, verb: string, path: string, cls: string, act: string)
    requires description == verb + ":/" + path + " => " + cls + "::" + act
    requires PlainRule(verb, path, cls, act)
    ensures var e := ExtractUriAndParamCount(path);
      ParseRoute(description) == Ok(Descriptor([verb], e.0, e.1, Pattern([verb], e.0, e.1), cls, act))
  {
    CompileRule(verb, path, cls, act);
  }

  /** A path with no `%` has no placeholder. */
  lemma NoMarker(path: string)
    requires '%' !in path
    ensures ExtractUriAndParamCount(path) == (path, 0)
  {
    AbsentChar(path, "/%", 1);
    ExplodeAbsent(path, "/%");
  }

  /** A path with exactly one `%`, right after a slash. */
  lemma OneMarker(uri: string, rest: string)
    requires '%' !in uri && '%' !in rest
    ensures ExtractUriAndParamCount(uri + "/%" + rest) == (uri, 1)
  {
    SplitsOnceAtLastFree(uri, "/%", rest);
    ExplodeSplitsOnce(uri + "/%" + rest, "/%", |uri|);
    assert (uri + "/%" + rest)[..|uri|] == uri;
  }

  /** A rule naming a single verb outside the RESTful set is rejected with
      that verb and no exception code, whatever its action side. */
  lemma RejectVerb(description: string, verb: string, path: string, actionSide: string)
    requires description == verb + ":" + path + " => " + actionSide
    requires verb !in RestfulMethods
    requires verb != [] && forall k :: 0 <= k < |verb| ==> 'A' <= verb[k] <= 'Z'
    requires '=' !in path && '=' !in actionSide
    requires path != [] && path[|path| - 1] !in Whitespace
    requires actionSide != [] && actionSide[0] !in Whitespace && actionSide[|actionSide| - 1] !in Whitespace
    ensures ParseRoute(description) == Err(Failure(0, "Invalid request method " + verb))
  {
    var uri := verb + ":" + path;
    assert description == uri + " => " + actionSide;
    SplitRule(uri, actionSide);
    RejectVerbUri(verb, path);
  }

  lemma RejectVerbUri(verb: string, path: string)
    requires verb !in RestfulMethods
    requires verb != [] && forall k :: 0 <= k < |verb| ==> 'A' <= verb[k] <= 'Z'
    ensures ParseUri(verb + ":" + path) == Err(Failure(0, "Invalid request method " + verb))
  {
    var uri := verb + ":" + path;
    AbsentChar(verb, ":", 0);
    FirstColonOfSplit(uri, verb, path);
    RejectVerbMethods(verb);
    ParseUriPrefixed(uri, |verb|);
  }

  lemma RejectVerbMethods(verb: string)
    requires verb !in RestfulMethods
    requires verb != [] && forall k :: 0 <= k < |verb| ==> 'A' <= verb[k] <= 'Z'
    ensures ParseMethods(verb) == Err(Failure(0, "Invalid request method " + verb))
  {
    UpperOfUpper(verb);
    TrimUntouched(verb, Whitespace);
    AbsentChar(verb, "|", 0);
    ExplodeAbsent(verb, "|");
    assert ListedMethods(verb) == [verb];
  }

  /** `PATCH:/order => app\web\Order::patch` is rejected. */
  lemma UnknownVerbRule(description: string, verb: string, path: string, actionSide: string)
    requires verb == "PATCH" && path == "/order" && actionSide == "app\\web\\Order::patch"
    requires description == verb + ":" + path + " => " + actionSide
    ensures ParseRoute(description) == Err(Failure(0, "Invalid request method " + verb))
  {
    RejectVerb(description, verb, path, actionSide);
  }

  /** A rule without `=>` is rejected with code 500. */
  lemma MissingArrowRule(description: string)
    requires description == "GET:/order app\\web\\Order::index"
    ensures ParseRoute(description) == Err(Failure(500, "Invalid route format: " + description))
  {
    AbsentChar(description, "=>", 0);
  }
}
