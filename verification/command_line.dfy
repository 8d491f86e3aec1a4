/** `Router::getActionFromCommandLine`: `php console.php <class>
    <method> name=value ...` names the handler and its parameters. The
    `exit` in `App::failure` becomes an error result. */
module CommandLine {
  import opened Wrappers
  import opened Text
  import opened HandlerParameters

  /** The handler named on the command line and its parameter map. */
  datatype Invocation = Invocation(cls: string, handler: string, params: map<string, string>)

  /** The message for a command line without class and method. */
  const ShortUsage: string :=
    "Not enough parameters." + Eol + "Syntax:" + " php console.php controller methods [param1=value1 [ ... ]]" + Eol

  /** The value of the last token among `tokens` whose name is `name`. */
  function LastValue(tokens: seq<string>, name: string): Option<string>
  {
    if tokens == [] then None
    else
      var a := Explode(tokens[|tokens| - 1], "=");
      if |a| >= 2 && a[0] == name then Some(a[1])
      else LastValue(tokens[..|tokens| - 1], name)
  }

  /** The loop over the tokens after the method: each is exploded on `=`,
      the first piece naming the parameter and the second giving its
      value, with later tokens overwriting earlier ones; a token without
      `=` fails with 400 and the handler's command-line usage. */
  function Assign(acc: map<string, string>, tokens: seq<string>, usage: string): (r: Result<map<string, string>>)
    ensures r.Ok? <==> forall k :: 0 <= k < |tokens| ==> '=' in tokens[k]
    ensures r.Err? ==> r.error == Failure(400, usage)
    decreases |tokens|
  {
    if tokens == [] then Ok(acc)
    else
      var a := Explode(tokens[0], "=");
      NoEqualsOnePiece(tokens[0]);
      if |a| < 2 then Err(Failure(400, usage))
      else Assign(acc[a[0] := a[1]], tokens[1..], usage)
  }

  /** `getActionFromCommandLine`, with `$_SERVER['argv']` as `argv` and
      the signature of the named handler as `sig`. */
  function GetActionFromCommandLine(argv: Option<seq<string>>, sig: Signature): (r: Result<Invocation>)
    ensures (argv.None? || |argv.value| < 3) ==> r == Err(Failure(400, ShortUsage))
    ensures r.Ok? ==> argv.Some? && |argv.value| >= 3
                      && r.value.cls == argv.value[1] && r.value.handler == argv.value[2]
    ensures argv.Some? && |argv.value| >= 3 ==>
              (r.Ok? <==> forall k :: 3 <= k < |argv.value| ==> '=' in argv.value[k])
    ensures argv.Some? && |argv.value| >= 3 && r.Err? ==>
              r.error == Failure(400, CliUsage(argv.value[1], argv.value[2], sig))
    ensures r.Ok? ==> forall name ::
              && (name in r.value.params <==> LastValue(argv.value[3..], name).Some?)
              && (name in r.value.params ==> r.value.params[name] == LastValue(argv.value[3..], name).value)
  {
    match argv
    case None => Err(Failure(400, ShortUsage))
    case Some(args) =>
      if |args| < 3 then Err(Failure(400, ShortUsage))
      else
        var usage := CliUsage(args[1], args[2], sig);
        var params :- Assign(map[], args[3..], usage);
        AssignIsLastValue(args[3..], usage);
        Ok(Invocation(args[1], args[2], params))
  }

  /*-------------------------------------------------------------------
    Lemmas
   -------------------------------------------------------------------*/

  /** A token has a second `=`-piece exactly when it contains `=`. */
  lemma NoEqualsOnePiece(token: string)
    ensures |Explode(token, "=")| >= 2 <==> '=' in token
  {
    if '=' in token {
      var i :| 0 <= i < |token| && token[i] == '=';
      CharContains(token, '=', i);
      ExplodeSeveral(token, "=");
    } else {
      AbsentChar(token, "=", 0);
      ExplodeAbsent(token, "=");
    }
  }

  /** Every assignment after the last token naming a parameter is about
      another name: the map holds, for every name, the value of the last
      token naming it, and names no token named stay as they were. */
  lemma {:induction false} AssignLastWins(acc: map<string, string>, tokens: seq<string>, usage: string, name: string)
    requires Assign(acc, tokens, usage).Ok?
    ensures LastValue(tokens, name).Some? ==>
              name in Assign(acc, tokens, usage).value
              && Assign(acc, tokens, usage).value[name] == LastValue(tokens, name).value
    ensures LastValue(tokens, name).None? ==>
              (name in Assign(acc, tokens, usage).value <==> name in acc)
              && (name in acc ==> Assign(acc, tokens, usage).value[name] == acc[name])
    decreases |tokens|
  {
    if tokens != [] {
      var init := tokens[..|tokens| - 1];
      var last := tokens[|tokens| - 1];
      assert tokens == init + [last];
      AssignSnoc(acc, init, last, usage);
      AssignLastWins(acc, init, usage, name);
      var a := Explode(last, "=");
      var mid := Assign(acc, init, usage).value;
      assert Assign(acc, tokens, usage).value == mid[a[0] := a[1]];
      assert LastValue(tokens, name) == if a[0] == name then Some(a[1]) else LastValue(init, name);
    }
  }

  /** Starting from no parameters, the map holds exactly the names some
      token names, each with the value of the last token naming it. */
  lemma AssignIsLastValue(tokens: seq<string>, usage: string)
    requires Assign(map[], tokens, usage).Ok?
    ensures var m := Assign(map[], tokens, usage).value;
      forall name ::
        && (name in m <==> LastValue(tokens, name).Some?)
        && (name in m ==> m[name] == LastValue(tokens, name).value)
  {
    forall name
      ensures var m := Assign(map[], tokens, usage).value;
        && (name in m <==> LastValue(tokens, name).Some?)
        && (name in m ==> m[name] == LastValue(tokens, name).value)
    {
      AssignLastWins(map[], tokens, usage, name);
    }
  }

  /** Assigning a list that ends in `last` is assigning the list before it
      and then `last`. */
  lemma {:induction false} AssignSnoc(acc: map<string, string>, init: seq<string>, last: string, usage: string)
    requires Assign(acc, init + [last], usage).Ok?
    ensures Assign(acc, init, usage).Ok? && |Explode(last, "=")| >= 2
    ensures var a := Explode(last, "=");
      Assign(acc, init + [last], usage) == Ok(Assign(acc, init, usage).value[a[0] := a[1]])
    decreases |init|
  {
    assert (init + [last])[|init|] == last;
    NoEqualsOnePiece(last);
    if init == [] {
      assert [] + [last] == [last];
    } else {
      var a := Explode(init[0], "=");
      NoEqualsOnePiece(init[0]);
      assert (init + [last])[0] == init[0];
      assert (init + [last])[1..] == init[1..] + [last];
      AssignSnoc(acc[a[0] := a[1]], init[1..], last, usage);
    }
  }

  /** `name=value` tokens give back their values by name when neither side
      holds `=`; a later token for the same name wins. */
  lemma AssignmentToken(name: string, value: string)
    requires '=' !in name && '=' !in value
    ensures Explode(name + "=" + value, "=") == [name, value]
  {
    assert Join([name, value], "=") == name + "=" + value;
    ExplodeJoin([name, value], "=");
  }

  /** Whatever follows a second `=` is lost: `name=value=more` assigns
      `value`. */
  lemma SecondEqualsDropped(name: string, value: string, more: string)
    requires '=' !in name && '=' !in value && '=' !in more
    ensures var a := Explode(name + "=" + value + "=" + more, "=");
      |a| >= 2 && a[0] == name && a[1] == value
  {
    assert Join([value, more], "=") == value + "=" + more;
    assert [name, value, more][1..] == [value, more];
    assert Join([name, value, more], "=") == name + "=" + value + "=" + more;
    ExplodeJoin([name, value, more], "=");
  }

  /** The command line `php console.php Order view id=42` names the
      handler `Order::view` with `id` set to `42`. */
  lemma OrderViewCommand(sig: Signature)
    ensures GetActionFromCommandLine(Some(["console.php", "Order", "view", "id=42"]), sig)
         == Ok(Invocation("Order", "view", map["id" := "42"]))
  {
    var argv := ["console.php", "Order", "view", "id=42"];
    var usage := CliUsage("Order", "view", sig);
    assert argv[3..] == ["id=42"];
    assert "id=42" == "id" + "=" + "42";
    AssignmentToken("id", "42");
    assert Assign(map["id" := "42"], [], usage) == Ok(map["id" := "42"]);
    assert ["id=42"][1..] == [];
    assert Assign(map[], ["id=42"], usage) == Ok(map["id" := "42"]);
  }
}
