# Routing and property core of the Crystal PHP framework, in Dafny

This project models three parts of the framework:

- **Route compiler.** `RouterActuator` turns each textual rule of the configuration's routes section into a route descriptor. An example rule is `GET|POST:/orders/preview/%1/%2 => app\web\Orders::preview`. The descriptor holds:
  - the allowed verbs;
  - the URI text before the first placeholder;
  - the placeholder count;
  - a PCRE pattern;
  - the handler class and method.

  `run` folds the rules into the router's route table.
- **Router.** It reduces a request to an action path and builds the match key `VERB:action`. It dispatches to the first route whose pattern accepts the key and cuts the positional parameters out of the action. It also handles command-line invocations, checks the handler's required parameters and builds the two usage messages.
- **Property base class.** This is a typed model field. It has:
  - a value and a default;
  - name, title and database-default accessors;
  - a read-only flag;
  - validation rules and the errors they record.

Modules, one per file:

| module | file | contents |
|---|---|---|
| `Wrappers` | wrappers.dfy | `Option`, `Result` and the `Failure(code, message)` that stands for a thrown `RuntimeException` or for `App::failure` |
| `Text` | text.dfy | PHP string primitives: `explode`, `str_replace`, `trim`, `substr`, `strtoupper`, decimal rendering, and their lemmas |
| `RoutePattern` | pattern.dfy | the pattern a route stores, the exact text `createPattern` renders, a decoder for that text, and a structural matcher |
| `RouteTable` | route_table.dfy | route descriptors, the name-keyed route table, and `addRoute` |
| `RouterActuator` | route_compiler.dfy | `parseRoute` and its helpers, and `run` |
| `Router` | router.dfy | action path, match key, first match, `parseParameters`, `getActionFromURI`, `getActionName` |
| `HandlerParameters` | handler_parameters.dfy | `checkParameters`, the two usage messages, and the method-existence check of `execAction` |
| `CommandLine` | command_line.dfy | `getActionFromCommandLine` |
| `Properties` | property.dfy | `Property` and the parts of `Rule` it uses |

How PHP constructs become Dafny:

- PHP's associative arrays become sequences of `(name, descriptor)` entries, kept in insertion order. Re-adding a name keeps its position.
- A thrown exception or an `App::failure` becomes `Err(Failure(code, message))`. An exception thrown without a code has code 0.
- `$_SERVER` values, the handler's reflected signature and `Utils::isCLI()` are passed in as parameters.
- PHP strings are byte strings; a `string` here holds one `char` per byte. `strlen`, `substr`, `strtoupper`, `trim` and `\w` agree with the code only under that reading, and the case folding and word characters are ASCII, as PHP's byte functions are.

## Model

| member | source | states |
|---|---|---|
| RouterActuator.SplitToUriAndAction | core/actuators/RouterActuator.php:69-76 | fails with 500 "Invalid route format: …" exactly when `=>` does not occur exactly once; otherwise gives the whitespace-trimmed text on either side of that occurrence |
| RouterActuator.ParseMethods | core/actuators/RouterActuator.php:84-94 | the verb prefix is upper-cased, trimmed and split on `|`; it is accepted iff every listed verb is RESTful; otherwise it fails with code 0 naming the first offending verb |
| RouterActuator.ExtractUriAndParamCount | core/actuators/RouterActuator.php:143-152 | the count is the number of `/%` markers; the URI is the prefix before the first marker (the whole text when there is none) and holds no marker |
| RouterActuator.UriPartOf | core/actuators/RouterActuator.php:95-106 | the descriptor's URI and count come from the space- and slash-trimmed path: the count is the number of `/%` markers in it, the URI is the whole path when there are none and otherwise the text directly followed by the first `/%`; the pattern is built from the same verbs, URI and count |
| RouterActuator.ParseUri | core/actuators/RouterActuator.php:82-107 | without a `:` every RESTful method is allowed and the path is the whole text; with one, the verbs before the first `:` must all be RESTful |
| RouterActuator.ParseAction | core/actuators/RouterActuator.php:158-169 | fails with 500 "Invalid action format: …" exactly when `::` does not occur exactly once; otherwise gives the trimmed class and method |
| RouterActuator.ParseRoute | core/actuators/RouterActuator.php:59-63 | every descriptor it produces is well-formed (RESTful verbs; the pattern built from the descriptor's own fields); a rule without a single `=>` fails with the route-format error before anything else is checked |
| RouterActuator.ParseRouteSides | core/actuators/RouterActuator.php:59-63 | once the rule splits, a URI-side failure is reported before any action-side failure; success assembles the two sides' fields |
| RouterActuator.ParseUriPrefixed | core/actuators/RouterActuator.php:82-99 | with a prefix ending at the first `:`, the verbs are those the prefix lists and the path is what follows the colon |
| RouterActuator.CompileRule | core/actuators/RouterActuator.php:59-169 | a rule of the form `VERB:/path => Class::method` with plain parts compiles to `[VERB]`, the path before its first marker, the marker count, and the class and method |
| RouterActuator.OrderCreateRule | core/actuators/RouterActuator.php:59-169 | `GET:/order/create => app\web\Order::create` compiles to verbs `[GET]`, URI `order/create`, count 0, class `app\web\Order`, method `create` |
| RouterActuator.OrderViewRule | core/actuators/RouterActuator.php:143-152 | `GET:/order/view?/%1 => …::view` compiles to URI `order/view?` with one parameter |
| RouterActuator.OrderSaveRule | core/actuators/RouterActuator.php:82-107 | `POST:/order/save => …::save` compiles to verbs `[POST]` with no parameters |
| RouterActuator.RootPlaceholderRule | core/actuators/RouterActuator.php:95-99 | in `GET:/%1` the slash trimming removes the slash of the only marker, so the URI is `%1` and the count is 0 |
| RouterActuator.RejectVerb | core/actuators/RouterActuator.php:90-94 | a rule naming a single non-RESTful upper-case verb fails with code 0 and "Invalid request method VERB", for a path without `=` that does not end in whitespace and a non-empty, whitespace-trimmed action side without `=` |
| RouterActuator.UnknownVerbRule | core/actuators/RouterActuator.php:90-94 | `PATCH:/order => …` is rejected with "Invalid request method PATCH" |
| RouterActuator.MissingArrowRule | core/actuators/RouterActuator.php:69-76 | a rule without `=>` is rejected with the route-format error |
| RouterActuator.BuildTable | core/actuators/RouterActuator.php:31-41 | the fold succeeds iff every rule compiles; on failure it reports the error of the first rule that fails |
| RouterActuator.Run | core/actuators/RouterActuator.php:31-41 | `run` with `parseRoute` succeeds iff every rule parses and otherwise reports the first failure |
| RouterActuator.BuildTableNames | core/actuators/RouterActuator.php:31-41 | the table built holds each name of the section exactly once, and no other names |
| RouterActuator.BuildTableLookup | core/Router.php:66-69 | looking up a name in the table built gives the descriptor compiled from the last rule with that name |
| RouterActuator.RunTable | core/actuators/RouterActuator.php:31-41 | the table `run` builds has unique names, all of them well-formed, exactly the names of the section, and for each name the last rule's descriptor |
| RoutePattern.Quantifier | core/actuators/RouterActuator.php:128-133 | the quantifier is `{n}` for a positive count n and `{0}` otherwise |
| RoutePattern.Render | core/actuators/RouterActuator.php:115-137 | the pattern text determines the verbs, the unescaped URI and the count: for at least one verb without `\|` or `)`, a URI without backslashes and a count of zero or more, decoding the rendered text gives the pattern back |
| RoutePattern.UnescapeEscape | core/actuators/RouterActuator.php:126 | escaping `/` as `\/` is undone by unescaping, for URIs without backslashes |
| RoutePattern.RenderOrderCreate | core/actuators/RouterActuator.php:115-137 | the pattern of `GET order/create` with no parameters is `/^(GET):order\/create(\/\w+){0}$/i` |
| RoutePattern.MatchesRequest | core/actuators/RouterActuator.php:115-137 | the pattern accepts a key made of one of its verbs, its URI and as many word segments as it counts |
| RoutePattern.MatchesShape | core/Router.php:116 | `preg_match` with the rendered pattern accepts a key iff it is one of the verbs, `:`, the URI (both up to ASCII case) and as many word segments as the quantifier demands, optionally followed by one final newline, which `$` without the `D` modifier lets through |
| RoutePattern.SegmentWords | core/actuators/RouterActuator.php:127-133 | the text the segment group consumes splits back into exactly n words, each following a `/` |
| RouteTable.Lookup | core/Router.php:66-69 | a name is found iff it is in the table |
| RouteTable.AddRoute | core/Router.php:66-69 | adding under a name keeps the table's names unique |
| RouteTable.LookupAfterAdd | core/Router.php:66-69 | after an add, the added name gives the new descriptor and every other name gives what it gave before |
| RouteTable.NamesAfterAdd | core/Router.php:66-69 | an add appends a new name at the end and leaves the order alone when the name is already present |
| RouteTable.OthersAfterAdd | core/Router.php:66-69 | entries under other names are unchanged in place |
| RouteTable.RestfulShape | core/Router.php:25 | the RESTful methods are non-empty upper-case words |
| Router.ActionPath | core/Router.php:101-112 | the action is empty when the stripped request URI equals the script directory; otherwise it is the slash-trimmed remainder after that directory's length |
| Router.ActionPathRewritten | core/Router.php:101-112 | for a rewritten URL `base + action` under script `base + index.php`, the action path is the slash-trimmed action |
| Router.ActionPathFrontController | core/Router.php:101-112 | for `base + index.php?/ + action`, the action path is the slash-trimmed action |
| Router.StripIndexAbsent | core/Router.php:101-105 | a URI without `index.php` passes the stripping unchanged |
| Router.ScriptDirectory | core/Router.php:106 | the script path of `base + index.php` is its directory `base` |
| Router.FirstMatch | core/Router.php:114-129 | gives the position of the first route whose pattern accepts the key, and none exactly when no route does |
| Router.ParseParameters | core/Router.php:173-181 | the remainder after the route's URI length gives no parameters when it is `""` or `"0"`; otherwise its slash-trimmed text splits into slash-free pieces that join back to it |
| Router.ParametersRoundTrip | core/Router.php:173-181 | for slash-free values, the parameters of `uri + /v1/…/vn` are exactly `v1 … vn` |
| Router.Resolve | core/Router.php:114-130 | fails with 404 "Unable to resolve the request ACTION" iff no route accepts the key; otherwise returns the class, method and parameters of the first route that accepts it |
| Router.GetActionFromUri | core/Router.php:99-131 | the request fails with 404 "Unable to resolve the request A", where A is the action path of the request URI and script name, iff no route's pattern accepts the key of the upper-cased verb and A; otherwise the handler is the class and method of the first route that accepts it, with the parameters that route extracts from A |
| Router.FrontControllerDispatch | core/Router.php:99-131 | a request `base/index.php?/U/w1/.../wn` to the script `base/index.php`, with U a compiled route's URI and n words for its n placeholders, is dispatched to that route's class and method with exactly the words as parameters, unless an earlier route accepts it |
| Router.ParamsFor | core/Router.php:120-125 | a route with a count of zero gets no parameters; extracted parameters contain no `/` and, joined with `/`, are what follows the route's URI in the action without outer slashes |
| Router.DispatchParameters | core/Router.php:120-125 | for an action made of a route's URI and as many words as it counts, the extracted parameters are exactly those words |
| Router.LaterRoutesIgnored | core/Router.php:114-129 | appending routes after a table in which a route accepts the request never changes the outcome; replacing a route in place through `addRoute` is not covered |
| Router.ShadowedRoute | core/Router.php:114-129 | when an earlier route accepts the key, the winner is at or before it |
| Router.DispatchRoundTrip | core/Router.php:114-129 | a request made of a compiled route's verb, its URI and one word per counted segment resolves to that route's handler, with exactly those words as parameters, unless an earlier route takes it |
| Router.MatchedParameters | core/Router.php:120-124 | when a compiled route with n > 0 parameters accepts a key without the final newline that `$` also allows, the extracted parameters are n words that rebuild the action's tail |
| Router.KeyVerbLength | core/Router.php:112 | the verb a key starts with ends at the key's first `:`, and what follows is the action |
| Router.ActionNameParses | core/Router.php:218-221 | `Class::method` built by `getActionName` parses back into the class and method |
| HandlerParameters.FirstMissing | core/Router.php:242-247 | gives the first required formal parameter that is not set, and none iff every required one is set |
| HandlerParameters.CheckParameters | core/Router.php:239-249 | fails iff some required formal parameter is not set in the stored parameters; the failure is 400 with the usage message for the context |
| HandlerParameters.OptionalNeverFail | core/Router.php:239-249 | a handler with only optional parameters always passes |
| HandlerParameters.MoreNamedStillPass | core/Router.php:239-249 | adding more named parameters never turns a pass into a failure |
| HandlerParameters.PositionalRejected | core/Router.php:239-249 | with positional parameters from the URI, any required parameter with an identifier name fails the check, however many values there are |
| HandlerParameters.OrderViewRejected | core/Router.php:239-249 | `view($id)` reached with parameters `["42"]` fails with 400 "Required parameters: &id=value" |
| HandlerParameters.CheckBound | core/Router.php:239-249 | the corrected check binds positional values to formal parameters in declared order, then fails iff some required parameter is unbound |
| HandlerParameters.BoundPositional | core/Router.php:239-249 | for distinct formal names, the corrected check passes positional values iff every required parameter's position is below the value count |
| HandlerParameters.OrderViewAccepted | core/Router.php:239-249 | `view($id)` with `["42"]` passes the corrected check |
| HandlerParameters.PrepareCall | core/Router.php:84-90 | as written: a missing method fails with 500 "Method M in class C not exist" before the parameters are checked; otherwise the call is ready iff every required formal parameter's name is set in the stored parameters as they are, and fails with 400 and the usage message otherwise |
| HandlerParameters.PrepareBoundCall | core/Router.php:84-92 | corrected: the same 500 for a missing method; otherwise a positional list is bound to the formal parameters by position, as `call_user_func_array` binds a list, and a named map is checked by its names as it is; the call is ready iff every required formal parameter is then set, else 400 with the usage message (`NamedCallsAgree`: identical to the code for named maps) |
| HandlerParameters.DispatchedCallAccepted | core/Router.php:84-129 | corrected half: a request built from a compiled route reaches its handler, and with the parameters bound by position the call is ready when the handler requires no more parameters than the route counts |
| HandlerParameters.DispatchedCallRejected | core/Router.php:84-129 | as written: the same request reaches the same handler, but if the handler has a required parameter `execAction` refuses it with 400 and the usage message |
| HandlerParameters.UsageMessage | core/Router.php:251-256 | the message for the console starts with the syntax header, class and method, the one for the web with `Required parameters: `; when parameter names are words, the rest reads back as the full signature |
| HandlerParameters.CliUsageLists | core/Router.php:258-275 | the command-line usage is the syntax header, class and method, then every formal parameter in declared order, optional ones bracketed; decoding the tail gives the signature back |
| HandlerParameters.WebUsageLists | core/Router.php:277-291 | the web usage is `Required parameters: ` followed by every formal parameter in order, optional ones bracketed; decoding gives the signature back |
| HandlerParameters.IdentifierNotPosition | core/Router.php:243 | an identifier is never the decimal key of a list position |
| CommandLine.Assign | core/Router.php:145-155 | the token loop succeeds iff every token contains `=`; otherwise it fails with 400 and the handler's usage |
| CommandLine.AssignLastWins | core/Router.php:145-155 | each name ends with the value of the last token naming it; names no token names keep their earlier value |
| CommandLine.GetActionFromCommandLine | core/Router.php:138-163 | without `argv` or with fewer than three tokens it fails with 400 and the short syntax; otherwise the class and method are tokens 1 and 2, and the call succeeds iff every later token contains `=`; the parameter map then holds exactly the names some later token names, each with the text between the first and second `=` of the last token naming it |
| CommandLine.SecondEqualsDropped | core/Router.php:149-154 | in `name=value=more` only `value` is assigned |
| CommandLine.OrderViewCommand | core/Router.php:138-163 | `console.php Order view id=42` names `Order::view` with `id` = `42` |
| Properties.New | core/generic/Property.php:80-84 | a new property has its name, no value, no default, no rules and no errors, and is writable |
| Properties.SetThenGet | core/generic/Property.php:96-108 | `get` after `set` returns the value, or its cast when casting is requested |
| Properties.Clear | core/generic/Property.php:134-138 | a cleared property is not initialised and nothing else changes |
| Properties.InitializedIffSet | core/generic/Property.php:134-147 | a set value makes the property initialised and `clear` undoes it |
| Properties.ApplyDefault | core/generic/Property.php:176-182 | the default is copied in only when the property is uninitialised and has one; the returned value is the property's value afterwards |
| Properties.ApplyDefaultIdempotent | core/generic/Property.php:176-182 | applying the default twice is the same as once |
| Properties.ApplyDefaultKeepsValue | core/generic/Property.php:153-182 | an initialised value survives a new default |
| Properties.ClearedTakesDefault | core/generic/Property.php:134-182 | after `clear`, `applyDefault` yields the default |
| Properties.AccessorsRoundTrip | core/generic/Property.php:163-216 | reading name, title or database default after writing it gives what was written (the database default as its string value) |
| Properties.ReadOnlyRoundTrip | core/generic/Property.php:230-243 | `isReadOnly` reports the flag last given to `readOnly` |
| Properties.HasRule | core/generic/Property.php:314-323 | finds the first rule that is an instance of the type, class names compared without regard to ASCII case, and none iff there is no such rule |
| Properties.HasRuleIgnoresCase | core/generic/Property.php:314-323 | in any namespace `ns` (such as `core\rules\`), `hasRule('\ns\greaterorequal')` finds the one attached rule of class `ns\GreaterOrEqual` |
| Properties.AddRule | core/generic/Property.php:250-260 | fails with code 0 and "Rule \C already assigned to property N" iff a rule of that class is already present; otherwise appends the rule |
| Properties.AddRuleKeepsRules | core/generic/Property.php:250-260 | adding a rule keeps true that no rule is an instance of a later rule's class |
| Properties.SubclassAfterBaseKept | core/generic/Property.php:250-260 | a rule whose class extends an attached rule's class is still accepted, and is then an instance of that earlier rule's class |
| Properties.DistinctRuleClasses | core/generic/Property.php:250-260 | such a rule list has pairwise distinct classes, even compared without regard to case |
| Properties.AddError | core/generic/Property.php:294-306 | an error is appended to the errors and nothing else changes |
| Properties.ApplyRule | core/generic/Property.php:281-288 | reports whether the rule accepts the value and records the rule's message, made for the property's name and value, exactly when it does not |
| Properties.IsValid | core/generic/Property.php:266-274 | the errors are first emptied, then every rule is applied in order, none skipped after a failure; the errors become exactly the failing rules' messages in rule order, each made for the property's name and value, and the result is true iff all rules accept, that is iff no error is recorded |

## Left out

- I/O: `$_SERVER`, `App::config()`, the logger and `echo`/`exit` in `App::failure` are not modelled. Server values become parameters, and a failure becomes an `Err` result.
- Reflection, `new $class` and `call_user_func_array` in `execAction` are not modelled. The handler's signature (`Option<Signature>`, `None` when the method does not exist) is a parameter, and the call itself is not modelled.
- `Utils::isCLI()` is a boolean parameter, and `PHP_EOL` is taken to be `"\n"`.
- RoutePattern.Matches: reads the request URI literally instead of running PCRE. It agrees with PCRE only for URIs free of the characters PCRE treats specially outside a character class (`\ ^ $ . [ ] | ( ) ? * + { }`). Rules such as `order/view?` contain `?`, which PCRE treats as a quantifier; the model does not follow that.
- RoutePattern.Matches: `/i` is modelled as ASCII case folding only; PCRE's handling of other characters under `/i` is not modelled.
- `Router::VARIABLE_PARAM_COUNT` and `IGNORE_PARAMS` are kept as constants, but no rule the compiler accepts ever produces them.
- `makeUrl` and the bracketed optional-parameter grammar are not modelled. They appear only in the repository's tests, not in the router or the compiler.
- `controllerName`, `setControllerName`, `methodName`, `setMethodName`, `controller` and `setParameters` are plain field accessors. Dispatch returns an `Action` value instead.
- HandlerParameters.PrepareBoundCall: a named map, which command-line dispatch stores, is checked by its names. `call_user_func_array` does not bind it that way: PHP 5 and 7 ignore string keys and bind the values in insertion order, and PHP 8 binds by name but fails for a name the handler does not declare (`id=42 x=1` for `view($id)`). Which PHP version runs the code is outside the model, so neither binding is promised.
- Properties.IsValid: a rule is a value owned by the property. In PHP, `rule()` binds the rule object to the property (`forProperty`), and the rule reads the property it was bound to last. A rule object shared by two properties therefore validates and words its message for the later one; the model does not follow that sharing. The rules' own checks, including the database lookup of `BelongsTo`, are an opaque function of the value.
- Properties.IsValid: returns a `bool`. PHP's `&=` actually yields the integer 1 or 0 once a rule has been applied, and `true` when there are no rules.
- Properties.Set: takes the subclass's abstract `cast` as a function parameter.
- Properties.DbDefault: takes `strval` as a function parameter.
- Properties.HasRule: `instanceof` is modelled as an ASCII-case-blind comparison of the class name with the rule's class and its listed ancestors; the class hierarchy itself and class autoloading are not modelled.
- The abstract members `type`, `asString`, `preparedForDb`, `isEmpty` and `cast`, and `setOutputFormat`, belong to the concrete property types and are not modelled. The same holds for the rule classes, the database drivers and the error view.
- `getActionFromCommandLine` reflects on the named handler to build its usage, which throws when the class does not exist. The model takes the signature as given.

## Where the repository's tests disagree with the code

- The tests in `tests/RouterActuatorTest.php` expect descriptor fields that the compiler does not produce: `cleared_uri`, and separate required and optional counts. They also expect the pattern `/^(GET):\/order\/create(\/\w+){0,0}$/i`. The code stores `request_uri` and a single `param_count`, and renders `/^(GET):order\/create(\/\w+){0}$/i`: the leading slash is trimmed off and the quantifier is a single number. The model follows the code (`RoutePattern.RenderOrderCreate`, `RouterActuator.OrderCreateRule`).

## Findings

| source | as written | input that shows it | evidently intended | confidence | as-written member | corrected member |
|---|---|---|---|---|---|---|
| core/Router.php:239-249 | `checkParameters` looks each required formal parameter up by name in the stored parameters. After URI dispatch those parameters are a list keyed 0, 1, …, so an identifier name is never set. | Route `GET:/order/view/%1 => app\web\Order::view`, handler `view($id)`, request `GET order/view/42`: the parameters are `["42"]` and the check fails with 400 "Required parameters: &id=value" | bind positional values to the formal parameters in declared order, as `call_user_func_array` will, and check the bound names. The discrepancy is shown by `DispatchedCallRejected` and `OrderViewRejected`; the corrected check passes the same requests (`DispatchedCallAccepted`, `OrderViewAccepted`) | not executed | HandlerParameters.PrepareCall | HandlerParameters.PrepareBoundCall |
