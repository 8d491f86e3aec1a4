/** The handler-signature side of `Router`: the required-parameter check
    run before a handler is called, and the two usage messages it fails
    with. The signature reflection would read is an explicit list of
    formal parameters here. */
module HandlerParameters {
  import opened Wrappers
  import opened Text
  import opened RoutePattern
  import opened RouteTable
  import opened Router

  /** A formal parameter: its name and whether it has a default value. */
  datatype Param = Param(name: string, optional: bool)

  /** A handler's formal parameters in declaration order. */
  type Signature = seq<Param>

  /** `Router::$parameters`: the command line stores a map from names to
      values, URI dispatch a list whose keys are the positions 0..n-1. */
  datatype Arguments = Named(values: map<string, string>) | Positional(list: seq<string>)

  /** `isset($parameters[name])`. PHP reads a key string that is the
      canonical decimal form of an integer as that integer, so a list has
      exactly the keys `"0"`, `"1"`, ... up to its length. */
  predicate IsSet(args: Arguments, name: string)
  {
    match args
    case Named(values) => name in values
    case Positional(list) => exists k: nat :: k < |list| && NatToString(k) == name
  }

  /** A PHP identifier: a word that does not start with a digit, as every
      formal parameter name is. */
  predicate Identifier(name: string)
  {
    IsWord(name) && !IsDigit(name[0])
  }

  /** Formal parameter names are unique within a signature. */
  predicate DistinctNames(sig: Signature)
  {
    forall i, j :: 0 <= i < j < |sig| ==> sig[i].name != sig[j].name
  }

  /*-------------------------------------------------------------------
    Usage messages
   -------------------------------------------------------------------*/

  /** `PHP_EOL` on the Unix hosts the console scripts target. */
  const Eol: string := "\n"

  const CliHeader: string := "Not enough parameters." + Eol + "Syntax:" + Eol + "php crystal.php "

  const WebHeader: string := "Required parameters: "

  function CliEntry(p: Param): string
  {
    if p.optional then " [" + p.name + "=value]" else " " + p.name + "=value"
  }

  function CliEntries(sig: Signature): string
  {
    if sig == [] then "" else CliEntry(sig[0]) + CliEntries(sig[1..])
  }

  /** `makeErrorMessageForInvalidParamsCLI`. */
  function CliUsage(cls: string, handler: string, sig: Signature): string
  {
    CliHeader + cls + " " + handler + CliEntries(sig)
  }

  function WebEntry(p: Param): string
  {
    if p.optional then "[&" + p.name + "=value]" else "&" + p.name + "=value"
  }

  function WebEntries(sig: Signature): string
  {
    if sig == [] then "" else WebEntry(sig[0]) + WebEntries(sig[1..])
  }

  /** `makeErrorMessageForInvalidParamsWeb`. */
  function WebUsage(sig: Signature): string
  {
    WebHeader + WebEntries(sig)
  }

  /** `makeErrorMessageForInvalidParams`, with `Utils::isCLI()` as `cli`:
      the header of the caller's kind, then every formal parameter in
      order, marked optional or required, so that the parameters can be
      read back from the message. */
  function UsageMessage(cli: bool, cls: string, handler: string, sig: Signature): (r: string)
    ensures cli ==> StartsWith(r, CliHeader + cls + " " + handler)
    ensures !cli ==> StartsWith(r, WebHeader)
    ensures (forall k :: 0 <= k < |sig| ==> IsWord(sig[k].name)) ==>
              if cli then DecodeCliEntries(r[|CliHeader + cls + " " + handler|..]) == Some(sig)
              else DecodeWebEntries(r[|WebHeader|..]) == Some(sig)
  {
    if cli then
      var head := CliHeader + cls + " " + handler;
      var u := CliUsage(cls, handler, sig);
      assert u[..|head|] == head;
      if forall k :: 0 <= k < |sig| ==> IsWord(sig[k].name) then
        CliUsageLists(cls, handler, sig);
        u
      else u
    else
      var u := WebUsage(sig);
      assert u[..|WebHeader|] == WebHeader;
      if forall k :: 0 <= k < |sig| ==> IsWord(sig[k].name) then
        WebUsageLists(sig);
        u
      else u
  }

  /** Reads a list of command-line usage entries back into a signature. */
  function DecodeCliEntries(s: string): (r: Option<Signature>)
    decreases |s|
  {
    if s == [] then Some([])
    else if |s| >= 2 && s[0] == ' ' && s[1] == '[' then
      var w := WordRun(s, 2);
      if w > 2 && StartsWith(s[w..], "=value]") then
        match DecodeCliEntries(s[w + 7..])
        case None => None
        case Some(rest) => Some([Param(s[2..w], true)] + rest)
      else None
    else if s[0] == ' ' then
      var w := WordRun(s, 1);
      if w > 1 && StartsWith(s[w..], "=value") then
        match DecodeCliEntries(s[w + 6..])
        case None => None
        case Some(rest) => Some([Param(s[1..w], false)] + rest)
      else None
    else None
  }

  /** Reads a list of web usage entries back into a signature. */
  function DecodeWebEntries(s: string): (r: Option<Signature>)
    decreases |s|
  {
    if s == [] then Some([])
    else if |s| >= 2 && s[0] == '[' && s[1] == '&' then
      var w := WordRun(s, 2);
      if w > 2 && StartsWith(s[w..], "=value]") then
        match DecodeWebEntries(s[w + 7..])
        case None => None
        case Some(rest) => Some([Param(s[2..w], true)] + rest)
      else None
    else if s[0] == '&' then
      var w := WordRun(s, 1);
      if w > 1 && StartsWith(s[w..], "=value") then
        match DecodeWebEntries(s[w + 6..])
        case None => None
        case Some(rest) => Some([Param(s[1..w], false)] + rest)
      else None
    else None
  }

  /*-------------------------------------------------------------------
    checkParameters
   -------------------------------------------------------------------*/

  /** The position of the first required parameter that is not set. */
  function FirstMissing(sig: Signature, args: Arguments): (r: Option<nat>)
    ensures r.Some? ==> r.value < |sig| && !sig[r.value].optional && !IsSet(args, sig[r.value].name)
    ensures r.None? <==> forall k :: 0 <= k < |sig| ==> sig[k].optional || IsSet(args, sig[k].name)
  {
    if sig == [] then None
    else if !sig[0].optional && !IsSet(args, sig[0].name) then Some(0)
    else match FirstMissing(sig[1..], args)
      case None => None
      case Some(k) => Some(k + 1)
  }

  /** `checkParameters` as written: every required formal parameter's name
      must be a key of the stored parameters, else the call fails with 400
      and the usage message. */
  function CheckParameters(cli: bool, cls: string, handler: string, sig: Signature, args: Arguments): (r: Result<()>)
    ensures r.Err? <==> exists k :: 0 <= k < |sig| && !sig[k].optional && !IsSet(args, sig[k].name)
    ensures r.Err? ==> r.error == Failure(400, UsageMessage(cli, cls, handler, sig))
  {
    match FirstMissing(sig, args)
    case None => Ok(())
    case Some(_) => Err(Failure(400, UsageMessage(cli, cls, handler, sig)))
  }

  /** The names a positional list is bound to when the handler is called:
      the k-th value goes to the k-th formal parameter, extra values are
      dropped and missing ones leave their parameters unbound. */
  function BindPositional(sig: Signature, vs: seq<string>): (m: map<string, string>)
    ensures forall k :: 0 <= k < |sig| && k < |vs| ==> sig[k].name in m
    ensures forall n :: n in m ==> exists k :: 0 <= k < |sig| && k < |vs| && sig[k].name == n
  {
    if sig == [] || vs == [] then map[]
    else BindPositional(sig[1..], vs[1..])[sig[0].name := vs[0]]
  }

  /** The parameters the corrected check looks names up in: a list is
      bound to the formal parameters by position, as the call binds it; a
      map is looked up by its own names. */
  function Bind(sig: Signature, args: Arguments): (r: Arguments)
    ensures r.Named?
  {
    match args
    case Named(_) => args
    case Positional(vs) => Named(BindPositional(sig, vs))
  }

  /** The required-parameter check over the parameters as bound: a
      required parameter is missing exactly when the call would leave it
      without a value. */
  function CheckBound(cli: bool, cls: string, handler: string, sig: Signature, args: Arguments): (r: Result<()>)
    ensures r.Err? <==> exists k :: 0 <= k < |sig| && !sig[k].optional && !IsSet(Bind(sig, args), sig[k].name)
    ensures r.Err? ==> r.error == Failure(400, UsageMessage(cli, cls, handler, sig))
  {
    CheckParameters(cli, cls, handler, sig, Bind(sig, args))
  }

  /** The 500 message of `execAction` for a method the class lacks. */
  function MissingMethod(cls: string, handler: string): string
  {
    "Method " + handler + " in class " + cls + " not exist"
  }

  /** `execAction` up to the call, as written: a handler method that does
      not exist (no signature) fails with 500, otherwise the stored
      parameters go through `checkParameters` unchanged, so a list of
      values is looked up by the names of the formal parameters. */
  function PrepareCall(cli: bool, cls: string, handler: string, sig: Option<Signature>, args: Arguments): (r: Result<()>)
    ensures r.Ok? <==> sig.Some? && forall k :: 0 <= k < |sig.value| && !sig.value[k].optional ==> IsSet(args, sig.value[k].name)
    ensures sig.None? ==> r == Err(Failure(500, MissingMethod(cls, handler)))
    ensures sig.Some? && r.Err? ==> r.error == Failure(400, UsageMessage(cli, cls, handler, sig.value))
  {
    match sig
    case None => Err(Failure(500, MissingMethod(cls, handler)))
    case Some(s) => CheckParameters(cli, cls, handler, s, args)
  }

  /** `execAction` up to the call with the check the call needs: the
      parameters are checked as the call binds them. */
  function PrepareBoundCall(cli: bool, cls: string, handler: string, sig: Option<Signature>, args: Arguments): (r: Result<()>)
    ensures r.Ok? <==> sig.Some? && forall k :: 0 <= k < |sig.value| && !sig.value[k].optional ==> IsSet(Bind(sig.value, args), sig.value[k].name)
    ensures sig.None? ==> r == Err(Failure(500, MissingMethod(cls, handler)))
    ensures sig.Some? && r.Err? ==> r.error == Failure(400, UsageMessage(cli, cls, handler, sig.value))
  {
    match sig
    case None => Err(Failure(500, MissingMethod(cls, handler)))
    case Some(s) => CheckBound(cli, cls, handler, s, args)
  }

  /*-------------------------------------------------------------------
    Lemmas
   -------------------------------------------------------------------*/

  /** A handler whose parameters all have defaults passes any check. */
  lemma OptionalNeverFail(cli: bool, cls: string, handler: string, sig: Signature, args: Arguments)
    requires forall k :: 0 <= k < |sig| ==> sig[k].optional
    ensures CheckParameters(cli, cls, handler, sig, args) == Ok(())
  {
  }

  /** More named values never turn a passing check into a failing one. */
  lemma MoreNamedStillPass(cli: bool, cls: string, handler: string, sig: Signature, m: map<string, string>, m': map<string, string>)
    requires m.Keys <= m'.Keys
    requires CheckParameters(cli, cls, handler, sig, Named(m)).Ok?
    ensures CheckParameters(cli, cls, handler, sig, Named(m')).Ok?
  {
  }

  /** No identifier is the decimal form of a position. */
  lemma IdentifierNotPosition(name: string, vs: seq<string>)
    requires Identifier(name)
    ensures !IsSet(Positional(vs), name)
  {
    forall k: nat | k < |vs|
      ensures NatToString(k) != name
    {
      assert IsDigit(NatToString(k)[0]);
    }
  }

  /** As written, a list of values never satisfies a required parameter:
      URI dispatch fails with 400 whatever values the URL carries. */
  lemma PositionalRejected(cli: bool, cls: string, handler: string, sig: Signature, vs: seq<string>, k: int)
    requires 0 <= k < |sig| && !sig[k].optional && Identifier(sig[k].name)
    ensures CheckParameters(cli, cls, handler, sig, Positional(vs)) == Err(Failure(400, UsageMessage(cli, cls, handler, sig)))
  {
    IdentifierNotPosition(sig[k].name, vs);
  }

  /** The request `order/view/42` for a handler `view($id)`: the URL does
      carry the value, yet the check fails. */
  lemma OrderViewRejected()
    ensures CheckParameters(false, "app\\web\\Order", "view", [Param("id", false)], Positional(["42"]))
         == Err(Failure(400, "Required parameters: &id=value"))
  {
    var sig := [Param("id", false)];
    assert IsWordChar('i') && IsWordChar('d');
    PositionalRejected(false, "app\\web\\Order", "view", sig, ["42"], 0);
    assert WebEntries(sig) == WebEntry(sig[0]) + WebEntries([]);
  }

  /** Bound by position, the list passes exactly when it has a value for
      every required parameter. */
  lemma BoundPositional(cli: bool, cls: string, handler: string, sig: Signature, vs: seq<string>)
    requires DistinctNames(sig)
    ensures CheckBound(cli, cls, handler, sig, Positional(vs)).Ok? <==>
              forall k :: 0 <= k < |sig| && !sig[k].optional ==> k < |vs|
  {
  }

  /** The same request with the corrected binding passes. */
  lemma OrderViewAccepted()
    ensures CheckBound(false, "app\\web\\Order", "view", [Param("id", false)], Positional(["42"])) == Ok(())
  {
    BoundPositional(false, "app\\web\\Order", "view", [Param("id", false)], ["42"]);
  }

  /** A word starting at `from`, then a suffix starting with `=`, then
      the rest: the word run ends at `w`, the suffix follows it and the
      rest starts at `next`. */
  lemma EntryAt(s: string, from: nat, name: string, suffix: string, n: nat, tail: string, w: nat, next: nat)
    requires IsWord(name) && from <= |s| && s[from..] == name + suffix + tail
    requires |suffix| == n && n > 0 && suffix[0] == '='
    requires w == from + |name| && next == w + n
    ensures next <= |s|
    ensures WordRun(s, from) == w && w > from
    ensures StartsWith(s[w..], suffix)
    ensures s[from..w] == name && s[next..] == tail
  {
    var x := s[from..];
    assert forall k :: from <= k < w ==> s[k] == x[k - from] == name[k - from];
    assert s[w] == x[|name|] == '=';
    assert s[w..][..n] == x[|name|..|name| + n] == suffix;
    assert s[from..w] == x[..|name|];
    assert s[next..] == x[|name| + n..];
  }

  /** One command-line entry in front of others is read as its parameter. */
  lemma CliEntryDecodes(p: Param, tail: string)
    requires IsWord(p.name)
    ensures DecodeCliEntries(CliEntry(p) + tail) ==
              match DecodeCliEntries(tail)
              case None => None
              case Some(rest) => Some([p] + rest)
  {
    if p.optional {
      CliOptionalDecodes(p.name, tail);
    } else {
      CliRequiredDecodes(p.name, tail);
    }
  }

  lemma CliOptionalDecodes(name: string, tail: string)
    requires IsWord(name)
    ensures DecodeCliEntries(" [" + name + "=value]" + tail) ==
              match DecodeCliEntries(tail)
              case None => None
              case Some(rest) => Some([Param(name, true)] + rest)
  {
    var s := " [" + name + "=value]" + tail;
    assert s[2..] == name + "=value]" + tail;
    EntryAt(s, 2, name, "=value]", 7, tail, 2 + |name|, 2 + |name| + 7);
  }

  lemma CliRequiredDecodes(name: string, tail: string)
    requires IsWord(name)
    ensures DecodeCliEntries(" " + name + "=value" + tail) ==
              match DecodeCliEntries(tail)
              case None => None
              case Some(rest) => Some([Param(name, false)] + rest)
  {
    var s := " " + name + "=value" + tail;
    assert s[1] == name[0] != '[' by {
      assert IsWordChar(name[0]);
    }
    assert s[1..] == name + "=value" + tail;
    EntryAt(s, 1, name, "=value", 6, tail, 1 + |name|, 1 + |name| + 6);
  }

  /** The command-line entries read back as the signature they list. */
  lemma {:induction false} CliEntriesDecode(sig: Signature)
    requires forall k :: 0 <= k < |sig| ==> IsWord(sig[k].name)
    ensures DecodeCliEntries(CliEntries(sig)) == Some(sig)
  {
    if sig != [] {
      CliEntriesDecode(sig[1..]);
      CliEntryDecodes(sig[0], CliEntries(sig[1..]));
      assert sig == [sig[0]] + sig[1..];
    }
  }

  /** One web entry in front of others is read as its parameter. */
  lemma WebEntryDecodes(p: Param, tail: string)
    requires IsWord(p.name)
    ensures DecodeWebEntries(WebEntry(p) + tail) ==
              match DecodeWebEntries(tail)
              case None => None
              case Some(rest) => Some([p] + rest)
  {
    if p.optional {
      WebOptionalDecodes(p.name, tail);
    } else {
      WebRequiredDecodes(p.name, tail);
    }
  }

  lemma WebOptionalDecodes(name: string, tail: string)
    requires IsWord(name)
    ensures DecodeWebEntries("[&" + name + "=value]" + tail) ==
              match DecodeWebEntries(tail)
              case None => None
              case Some(rest) => Some([Param(name, true)] + rest)
  {
    var s := "[&" + name + "=value]" + tail;
    assert s[2..] == name + "=value]" + tail;
    EntryAt(s, 2, name, "=value]", 7, tail, 2 + |name|, 2 + |name| + 7);
  }

  lemma WebRequiredDecodes(name: string, tail: string)
    requires IsWord(name)
    ensures DecodeWebEntries("&" + name + "=value" + tail) ==
              match DecodeWebEntries(tail)
              case None => None
              case Some(rest) => Some([Param(name, false)] + rest)
  {
    var s := "&" + name + "=value" + tail;
    assert s[1..] == name + "=value" + tail;
    EntryAt(s, 1, name, "=value", 6, tail, 1 + |name|, 1 + |name| + 6);
  }

  /** The web entries read back as the signature they list. */
  lemma {:induction false} WebEntriesDecode(sig: Signature)
    requires forall k :: 0 <= k < |sig| ==> IsWord(sig[k].name)
    ensures DecodeWebEntries(WebEntries(sig)) == Some(sig)
  {
    if sig != [] {
      WebEntriesDecode(sig[1..]);
      WebEntryDecodes(sig[0], WebEntries(sig[1..]));
      assert sig == [sig[0]] + sig[1..];
    }
  }

  /** The command-line usage names the class and method after the syntax
      header, then lists every formal parameter in order. */
  lemma CliUsageLists(cls: string, handler: string, sig: Signature)
    requires forall k :: 0 <= k < |sig| ==> IsWord(sig[k].name)
    ensures var head := CliHeader + cls + " " + handler;
      StartsWith(CliUsage(cls, handler, sig), head)
      && DecodeCliEntries(CliUsage(cls, handler, sig)[|head|..]) == Some(sig)
  {
    var head := CliHeader + cls + " " + handler;
    var u := CliUsage(cls, handler, sig);
    assert u == head + CliEntries(sig);
    assert u[..|head|] == head && u[|head|..] == CliEntries(sig);
    CliEntriesDecode(sig);
  }

  /** The web usage lists every formal parameter in order after its
      header. */
  lemma WebUsageLists(sig: Signature)
    requires forall k :: 0 <= k < |sig| ==> IsWord(sig[k].name)
    ensures StartsWith(WebUsage(sig), WebHeader)
    ensures DecodeWebEntries(WebUsage(sig)[|WebHeader|..]) == Some(sig)
  {
    var u := WebUsage(sig);
    assert u[..|WebHeader|] == WebHeader && u[|WebHeader|..] == WebEntries(sig);
    WebEntriesDecode(sig);
  }

  /** The two checks differ only on lists: for named parameters, which is
      what the command line delivers, the call is prepared alike. */
  lemma NamedCallsAgree(cli: bool, cls: string, handler: string, sig: Option<Signature>, m: map<string, string>)
    ensures PrepareCall(cli, cls, handler, sig, Named(m)) == PrepareBoundCall(cli, cls, handler, sig, Named(m))
  {
  }

  /** Corrected: a request built from a compiled route and one word per
      counted segment reaches that route's handler, and a handler that
      declares no more required parameters than that is ready to call
      once the values are bound by position. */
  lemma DispatchedCallAccepted(cli: bool, t: Table, k: int, i: int, ws: seq<string>, sig: Signature)
    requires 0 <= k < |t| && Compiled(t[k].descriptor)
    requires 0 <= i < |t[k].descriptor.methods|
    requires AllWords(ws) && |ws| == t[k].descriptor.paramCount
    requires var d := t[k].descriptor;
      forall j :: 0 <= j < k ==> !Matches(t[j].descriptor.pattern, Key(d.methods[i], d.requestUri + SlashPath(ws)))
    requires DistinctNames(sig)
    requires forall j :: 0 <= j < |sig| && !sig[j].optional ==> j < |ws|
    ensures var d := t[k].descriptor;
      && Resolve(t, d.methods[i], d.requestUri + SlashPath(ws)) == Ok(Action(d.cls, d.action, ws))
      && PrepareBoundCall(cli, d.cls, d.action, Some(sig), Positional(ws)) == Ok(())
  {
    var d := t[k].descriptor;
    DispatchRoundTrip(t, k, i, ws);
    BoundPositional(cli, d.cls, d.action, sig, ws);
  }

  /** As written: the same request reaches the same handler, but as soon
      as the handler has one required parameter the call is refused with
      400 and the usage message, although the URL carries its value. */
  lemma DispatchedCallRejected(cli: bool, t: Table, k: int, i: int, ws: seq<string>, sig: Signature, r: int)
    requires 0 <= k < |t| && Compiled(t[k].descriptor)
    requires 0 <= i < |t[k].descriptor.methods|
    requires AllWords(ws) && |ws| == t[k].descriptor.paramCount
    requires var d := t[k].descriptor;
      forall j :: 0 <= j < k ==> !Matches(t[j].descriptor.pattern, Key(d.methods[i], d.requestUri + SlashPath(ws)))
    requires DistinctNames(sig)
    requires forall j :: 0 <= j < |sig| && !sig[j].optional ==> j < |ws|
    requires 0 <= r < |sig| && !sig[r].optional && Identifier(sig[r].name)
    ensures var d := t[k].descriptor;
      && Resolve(t, d.methods[i], d.requestUri + SlashPath(ws)) == Ok(Action(d.cls, d.action, ws))
      && PrepareCall(cli, d.cls, d.action, Some(sig), Positional(ws)) == Err(Failure(400, UsageMessage(cli, d.cls, d.action, sig)))
  {
    var d := t[k].descriptor;
    DispatchRoundTrip(t, k, i, ws);
    PositionalRejected(cli, d.cls, d.action, sig, ws, r);
  }
}
