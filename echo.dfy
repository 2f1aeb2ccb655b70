/**
  The `echo` command (`ssi_cmd_echo`) and the argument lookup it uses
  (`uwsgi_ssi_get_arg`). The request's variables are a map from names to
  values (what `uwsgi_get_var` finds).
*/
module EchoCommand {
  import opened Bytes
  import opened Args

  /** The request variables: name to value. */
  type Vars = map<seq<byte>, seq<byte>>

  /** "var" */
  const VAR: seq<byte> := [118, 97, 114]

  /** The position of the first recorded pair whose key is `key`, if any. */
  function FindArg(doc: seq<byte>, args: seq<Arg>, key: seq<byte>): (r: Option<nat>)
    requires forall a <- args :: ArgWithin(doc, a)
    ensures r.Some? ==> r.value < |args| && KeyOf(doc, args[r.value]) == key
    ensures r.Some? ==> forall j | 0 <= j < r.value :: KeyOf(doc, args[j]) != key
    ensures r.None? <==> forall a <- args :: KeyOf(doc, a) != key
    decreases |args|
  {
    if args == [] then None
    else if KeyOf(doc, args[0]) == key then Some(0)
    else
      match FindArg(doc, args[1..], key)
      case None => None
      case Some(k) => Some(k + 1)
  }

  /** `k` is the first recorded pair whose key is `key`. */
  predicate FirstKey(doc: seq<byte>, args: seq<Arg>, key: seq<byte>, k: nat)
    requires forall a <- args :: ArgWithin(doc, a)
  {
    k < |args| && KeyOf(doc, args[k]) == key && forall j | 0 <= j < k :: KeyOf(doc, args[j]) != key
  }

  /**
    The value span `uwsgi_ssi_get_arg` hands back for `key`. A pair written
    `key=""` was recorded with a NULL value pointer, since the pointer is
    only set at the first byte inside the quotes; NULL is None.
  */
  function ArgValue(doc: seq<byte>, args: seq<Arg>, key: seq<byte>): (r: Option<Span>)
    requires forall a <- args :: ArgWithin(doc, a)
    ensures r.Some? ==> Within(doc, r.value) && r.value.len > 0
  {
    match FindArg(doc, args, key)
    case None => None
    case Some(k) =>
      assert args[k] in args;
      if args[k].valLen == 0 then None else Some(Span(args[k].value, args[k].valLen))
  }

  /** A value comes back exactly when the first pair with that key has a non-empty value, and it is that value. */
  lemma ArgValueFirst(doc: seq<byte>, args: seq<Arg>, key: seq<byte>)
    requires forall a <- args :: ArgWithin(doc, a)
    ensures ArgValue(doc, args, key).Some? <==> exists k: nat :: FirstKey(doc, args, key, k) && args[k].valLen > 0
    ensures forall k: nat | FirstKey(doc, args, key, k) && ArgValue(doc, args, key).Some? ::
              ArgValue(doc, args, key).value == Span(args[k].value, args[k].valLen)
  {
    match FindArg(doc, args, key)
    case None =>
    case Some(k) =>
      assert FirstKey(doc, args, key, k);
      assert forall j: nat | FirstKey(doc, args, key, j) :: j == k;
  }

  /** `uwsgi_ssi_get_arg`: scans the first `argc` slots of `argv` for `key`. */
  method GetArg(doc: seq<byte>, argv: array<Arg>, argc: nat, key: seq<byte>) returns (r: Option<Span>)
    requires argc <= argv.Length
    requires forall a <- argv[..argc] :: ArgWithin(doc, a)
    ensures r == ArgValue(doc, argv[..argc], key)
  {
    var i := 0;
    while i < argc
      invariant 0 <= i <= argc
      invariant forall j | 0 <= j < i :: KeyOf(doc, argv[..argc][j]) != key
    {
      assert argv[..argc][i] == argv[i];
      if KeyOf(doc, argv[i]) == key {
        FindArgFirst(doc, argv[..argc], key, i);
        if argv[i].valLen == 0 {
          return None;
        }
        return Some(Span(argv[i].value, argv[i].valLen));
      }
      i := i + 1;
    }
    return None;
  }

  /** A pair with key `key` and none before it is what FindArg returns. */
  lemma FindArgFirst(doc: seq<byte>, args: seq<Arg>, key: seq<byte>, k: nat)
    requires forall a <- args :: ArgWithin(doc, a)
    requires k < |args| && KeyOf(doc, args[k]) == key
    requires forall j | 0 <= j < k :: KeyOf(doc, args[j]) != key
    ensures FindArg(doc, args, key) == Some(k)
  {
    assert args[k] in args;
  }

  /** `k` is the first recorded pair whose key is `var`. */
  predicate FirstVar(doc: seq<byte>, args: seq<Arg>, k: nat)
    requires forall a <- args :: ArgWithin(doc, a)
  {
    k < |args| && KeyOf(doc, args[k]) == VAR && forall j | 0 <= j < k :: KeyOf(doc, args[j]) != VAR
  }

  lemma FirstVarIsFind(doc: seq<byte>, args: seq<Arg>)
    requires forall a <- args :: ArgWithin(doc, a)
    ensures forall k: nat :: FirstVar(doc, args, k) <==> FindArg(doc, args, VAR) == Some(k)
  {
    forall k: nat | FirstVar(doc, args, k) ensures FindArg(doc, args, VAR) == Some(k) {
      FindArgFirst(doc, args, VAR, k);
    }
  }

  /** The fragment `echo` produces: the value of the variable named by the first `var` argument. */
  function EchoOutput(doc: seq<byte>, args: seq<Arg>, vars: Vars): (r: Option<seq<byte>>)
    requires forall a <- args :: ArgWithin(doc, a)
    ensures r.Some? <==> exists k: nat :: FirstVar(doc, args, k) && ValueOf(doc, args[k]) != []
                                     && ValueOf(doc, args[k]) in vars && vars[ValueOf(doc, args[k])] != []
    ensures forall k: nat | FirstVar(doc, args, k) && r.Some? :: r.value == vars[ValueOf(doc, args[k])]
    ensures r.Some? ==> r.value != []
  {
    FirstVarIsFind(doc, args);
    match FindArg(doc, args, VAR)
    case None => None
    case Some(k) =>
      var name := ValueOf(doc, args[k]);
      if |name| == 0 || name !in vars || vars[name] == [] then None else Some(vars[name])
  }

  /**
    `ssi_cmd_echo`: no fragment when the first `var` argument is missing or
    empty, or when that variable is missing or empty; otherwise a fragment
    holding exactly the variable's value.
  */
  method Echo(doc: seq<byte>, argv: array<Arg>, argc: nat, vars: Vars) returns (r: Option<seq<byte>>)
    requires argc <= argv.Length
    requires forall a <- argv[..argc] :: ArgWithin(doc, a)
    ensures r == EchoOutput(doc, argv[..argc], vars)
  {
    var v := GetArg(doc, argv, argc, VAR);
    EchoLooksUp(doc, argv[..argc], vars);
    if v.None? || v.value.len == 0 {
      return None;
    }
    var name := doc[v.value.start..v.value.start + v.value.len];
    assert name == Slice(doc, v.value);
    if name !in vars {
      return None;
    }
    var value := vars[name];
    if |value| == 0 {
      return None;
    }
    return Some(value);
  }

  /**
    `echo` is `uwsgi_ssi_get_arg` for `var` followed by a variable lookup:
    nothing without a non-empty `var` value, otherwise the named variable's
    value when it is present and not empty.
  */
  lemma EchoLooksUp(doc: seq<byte>, args: seq<Arg>, vars: Vars)
    requires forall a <- args :: ArgWithin(doc, a)
    ensures ArgValue(doc, args, VAR).None? ==> EchoOutput(doc, args, vars) == None
    ensures ArgValue(doc, args, VAR).Some? ==>
              var name := Slice(doc, ArgValue(doc, args, VAR).value);
              EchoOutput(doc, args, vars) == if name in vars && vars[name] != [] then Some(vars[name]) else None
  {
    match FindArg(doc, args, VAR)
    case None =>
    case Some(k) =>
      var name := ValueOf(doc, args[k]);
      assert ArgValue(doc, args, VAR) == if args[k].valLen == 0 then None else Some(Span(args[k].value, args[k].valLen));
      assert EchoOutput(doc, args, vars) == if |name| == 0 || name !in vars || vars[name] == [] then None else Some(vars[name]);
  }

  /** Only the first `var` argument counts: pairs after it, whatever their key, change nothing. */
  lemma EchoFirstVarWins(doc: seq<byte>, args: seq<Arg>, more: seq<Arg>, vars: Vars)
    requires forall a <- args + more :: ArgWithin(doc, a)
    requires exists a <- args :: KeyOf(doc, a) == VAR
    ensures EchoOutput(doc, args + more, vars) == EchoOutput(doc, args, vars)
  {
    var k := FindArg(doc, args, VAR).value;
    var all := args + more;
    assert forall j | 0 <= j <= k :: all[j] == args[j];
    FindArgFirst(doc, all, VAR, k);
  }
}
