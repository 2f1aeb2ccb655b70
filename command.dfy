/**
  The command parser (`uwsgi_ssi_parse_command`): trims a directive body,
  splits off the command name at the first whitespace byte, looks the name
  up, and calls its handler on the tokenized arguments.
*/
module CommandParser {
  import opened Bytes
  import opened Args
  import opened CommandRegistry
  import opened EchoCommand

  /** Every byte of doc[lo..hi) is whitespace. */
  predicate Spaces(doc: seq<byte>, lo: nat, hi: nat)
    requires hi <= |doc|
  {
    forall k | lo <= k < hi :: IsSpace(doc[k])
  }

  /** No byte of doc[lo..hi) is whitespace. */
  predicate NoSpaces(doc: seq<byte>, lo: nat, hi: nat)
    requires hi <= |doc|
  {
    forall k | lo <= k < hi :: !IsSpace(doc[k])
  }

  /** The number of whitespace bytes that open doc[lo..lo + n). */
  function LeadingSpaces(doc: seq<byte>, lo: nat, n: nat): (r: nat)
    requires lo + n <= |doc|
    ensures r <= n && Spaces(doc, lo, lo + r)
    ensures r < n ==> !IsSpace(doc[lo + r])
    decreases n
  {
    if n == 0 || !IsSpace(doc[lo]) then 0 else 1 + LeadingSpaces(doc, lo + 1, n - 1)
  }

  /**
    The number of whitespace bytes that close doc[lo..lo + n), counted from
    the end but never including the byte at lo (the C loop stops at index 1).
  */
  function TrailingSpaces(doc: seq<byte>, lo: nat, n: nat): (r: nat)
    requires lo + n <= |doc|
    ensures n > 0 ==> r < n
    ensures n == 0 ==> r == 0
    ensures Spaces(doc, lo + n - r, lo + n)
    ensures 0 < n && r < n - 1 ==> !IsSpace(doc[lo + n - 1 - r])
    decreases n
  {
    if n <= 1 || !IsSpace(doc[lo + n - 1]) then 0 else 1 + TrailingSpaces(doc, lo, n - 1)
  }

  /** The offset of the first whitespace byte in doc[lo..lo + n), or n if there is none. */
  function FirstSpace(doc: seq<byte>, lo: nat, n: nat): (r: nat)
    requires lo + n <= |doc|
    ensures r <= n && NoSpaces(doc, lo, lo + r)
    ensures r < n ==> IsSpace(doc[lo + r])
    decreases n
  {
    if n == 0 || IsSpace(doc[lo]) then 0 else 1 + FirstSpace(doc, lo + 1, n - 1)
  }

  /**
    The body with its leading and trailing whitespace removed, or None when
    it is whitespace only (C: an empty or all-whitespace body underflows
    `len - 1` or `cmd_len`; here it runs nothing).
  */
  function Trim(doc: seq<byte>, body: Span): (r: Option<Span>)
    requires Within(doc, body)
    ensures r.None? <==> Spaces(doc, body.start, body.End())
    ensures r.Some? ==> body.start <= r.value.start && r.value.len > 0 && r.value.End() <= body.End()
    ensures r.Some? ==> Spaces(doc, body.start, r.value.start) && Spaces(doc, r.value.End(), body.End())
    ensures r.Some? ==> !IsSpace(doc[r.value.start]) && !IsSpace(doc[r.value.End() - 1])
  {
    var l := LeadingSpaces(doc, body.start, body.len);
    if l == body.len then None
    else
      var t := TrailingSpaces(doc, body.start, body.len);
      assert !IsSpace(doc[body.start + l]);
      Some(Span(body.start + l, body.len - l - t))
  }

  /** What a handler returns, as a function of the document, its arguments and the request variables. */
  type ExternalHandlers = (nat, seq<byte>, seq<Arg>, Vars) -> Option<seq<byte>>

  /** Calls the handler: `echo`, or a handler registered by other code. */
  function Invoke(h: Handler, doc: seq<byte>, args: seq<Arg>, vars: Vars, ext: ExternalHandlers): Option<seq<byte>>
    requires forall a <- args :: ArgWithin(doc, a)
  {
    match h
    case EchoHandler => EchoOutput(doc, args, vars)
    case External(id) => ext(id, doc, args, vars)
  }

  /** What one directive body leads to. */
  datatype Dispatch =
    | Inert
    | Unknown(name: Span)
    | Invoked(name: Span, handler: Handler, region: Span, args: seq<Arg>, fragment: Option<seq<byte>>)

  /** The outcome of `uwsgi_ssi_parse_command` on the body `body` of a directive. */
  function Command(doc: seq<byte>, body: Span, entries: seq<Entry>, vars: Vars, ext: ExternalHandlers): Dispatch
    requires Within(doc, body)
  {
    match Trim(doc, body)
    case None => Inert
    case Some(cmd) => Trimmed(doc, cmd, entries, vars, ext)
  }

  /** The outcome for the trimmed body `cmd`: nothing runs unless a whitespace byte ends the name. */
  function Trimmed(doc: seq<byte>, cmd: Span, entries: seq<Entry>, vars: Vars, ext: ExternalHandlers): Dispatch
    requires Within(doc, cmd)
  {
    var n := FirstSpace(doc, cmd.start, cmd.len);
    if n == cmd.len then Inert else Named(doc, cmd, n, entries, vars, ext)
  }

  /** The outcome once the name doc[cmd.start..cmd.start + n) is split off. */
  function Named(doc: seq<byte>, cmd: Span, n: nat, entries: seq<Entry>, vars: Vars, ext: ExternalHandlers): Dispatch
    requires Within(doc, cmd) && n < cmd.len
  {
    match Lookup(entries, doc[cmd.start..cmd.start + n])
    case None => Unknown(Span(cmd.start, n))
    case Some(e) => Run(doc, cmd, n, e.handler, vars, ext)
  }

  /** The argument region: what follows the name and the whitespace after it. */
  function Region(doc: seq<byte>, cmd: Span, n: nat): Span
    requires Within(doc, cmd) && n < cmd.len
  {
    var skip := LeadingSpaces(doc, cmd.start + n + 1, cmd.len - (n + 1));
    Span(cmd.start + n + 1 + skip, cmd.len - (n + 1) - skip)
  }

  /** The handler `h` runs once, on the pairs tokenized from the region. */
  function Run(doc: seq<byte>, cmd: Span, n: nat, h: Handler, vars: Vars, ext: ExternalHandlers): Dispatch
    requires Within(doc, cmd) && n < cmd.len
  {
    var region := Region(doc, cmd, n);
    var args := Tokenize(doc, region.start, region.End());
    Invoked(Span(cmd.start, n), h, region, args, Invoke(h, doc, args, vars, ext))
  }

  /** The leading-whitespace loop: how far `cmd` advances over doc[lo..lo + n). */
  method SkipSpaces(doc: seq<byte>, lo: nat, n: nat) returns (r: nat)
    requires lo + n <= |doc|
    ensures r == LeadingSpaces(doc, lo, n)
  {
    r := 0;
    while r < n
      invariant r <= n && Spaces(doc, lo, lo + r)
    {
      if !IsSpace(doc[lo + r]) {
        break;
      }
      r := r + 1;
    }
  }

  /** The trailing-whitespace loop, from index n - 1 down to index 1: how much `cmd_len` shrinks. */
  method StripTrailing(doc: seq<byte>, lo: nat, n: nat) returns (r: nat)
    requires 0 < n && lo + n <= |doc|
    ensures r == TrailingSpaces(doc, lo, n)
  {
    var i := n - 1;
    while i > 0
      invariant i < n && Spaces(doc, lo + i + 1, lo + n)
    {
      if !IsSpace(doc[lo + i]) {
        break;
      }
      i := i - 1;
    }
    r := n - 1 - i;
    TrailingUnique(doc, lo, n, r);
  }

  /** TrailingSpaces is the only count with its two properties. */
  lemma TrailingUnique(doc: seq<byte>, lo: nat, n: nat, r: nat)
    requires 0 < n && lo + n <= |doc| && r < n
    requires Spaces(doc, lo + n - r, lo + n)
    requires r < n - 1 ==> !IsSpace(doc[lo + n - 1 - r])
    ensures r == TrailingSpaces(doc, lo, n)
  {
    var t := TrailingSpaces(doc, lo, n);
    assert lo + n - 1 - r < |doc| && lo + n - 1 - t < |doc|;
  }

  /** The name loop: the length of the command name, and whether a whitespace byte ends it. */
  method NameLength(doc: seq<byte>, lo: nat, n: nat) returns (len: nat, found: bool)
    requires lo + n <= |doc|
    ensures len == FirstSpace(doc, lo, n)
    ensures found <==> len < n
  {
    len, found := 0, false;
    var i := 0;
    while i < n
      invariant i <= n && len == i && NoSpaces(doc, lo, lo + i)
    {
      if IsSpace(doc[lo + i]) {
        found := true;
        break;
      }
      len := len + 1;
      i := i + 1;
    }
  }

  /**
    The C function. The registry is read, never changed; the fragment the
    handler returns is the result (C logs it and frees it).
  */
  method ParseCommand(doc: seq<byte>, body: Span, reg: Registry, vars: Vars, ext: ExternalHandlers) returns (d: Dispatch)
    requires Within(doc, body)
    ensures d == Command(doc, body, reg.entries, vars, ext)
  {
    var trimmed := TrimBody(doc, body);
    if trimmed.None? {
      return Inert;
    }
    d := ParseTrimmed(doc, trimmed.value, reg, vars, ext);
  }

  /** The two whitespace-stripping loops: `cmd` and `cmd_len` as they leave them. */
  method TrimBody(doc: seq<byte>, body: Span) returns (r: Option<Span>)
    requires Within(doc, body)
    ensures r == Trim(doc, body)
  {
    var l := SkipSpaces(doc, body.start, body.len);
    var cmd, cmdLen := body.start + l, body.len - l;
    if cmdLen == 0 {
      return None;
    }
    var t := StripTrailing(doc, body.start, body.len);
    assert t < cmdLen by {
      assert !IsSpace(doc[body.start + l]);
    }
    cmdLen := cmdLen - t;
    return Some(Span(cmd, cmdLen));
  }

  /**
    The name loop, the lookup, and the call. `Trimmed` says what this
    computes; the method is kept beside it because it runs the loops
    themselves (`NameLength`, `Registry.GetCmd`), which a function cannot call.
  */
  method ParseTrimmed(doc: seq<byte>, cmd: Span, reg: Registry, vars: Vars, ext: ExternalHandlers) returns (d: Dispatch)
    requires Within(doc, cmd)
    ensures d == Trimmed(doc, cmd, reg.entries, vars, ext)
  {
    var nameLen, found := NameLength(doc, cmd.start, cmd.len);
    if !found {
      return Inert;
    }
    var entry := reg.GetCmd(doc[cmd.start..cmd.start + nameLen]);
    if entry.None? {
      return Unknown(Span(cmd.start, nameLen));
    }
    d := RunHandler(doc, cmd, nameLen, entry.value.handler, vars, ext);
  }

  /**
    The tail of the C function: skip the whitespace after the name, tokenize,
    call the handler. `Run` says what this computes; the method is kept
    because it fills the `argv` array in place through `ParseArgs`.
  */
  method RunHandler(doc: seq<byte>, cmd: Span, nameLen: nat, handler: Handler, vars: Vars, ext: ExternalHandlers) returns (d: Dispatch)
    requires Within(doc, cmd) && nameLen < cmd.len
    ensures d == Run(doc, cmd, nameLen, handler, vars, ext)
  {
    var skip := SkipSpaces(doc, cmd.start + nameLen + 1, cmd.len - (nameLen + 1));
    var region := Span(cmd.start + nameLen + 1 + skip, cmd.len - (nameLen + 1) - skip);
    assert region == Region(doc, cmd, nameLen);
    var argv := new Arg[MAX_ARGS](_ => Arg(0, 0, 0, 0));
    var argc := ParseArgs(doc, region.start, region.End(), argv);
    var args := argv[..argc];
    var fragment := CallHandler(handler, doc, argv, argc, vars, ext);
    d := Invoked(Span(cmd.start, nameLen), handler, region, args, fragment);
  }

  /**
    The handler's call on the `argc` pairs recorded in `argv`. `Invoke` says
    what this computes; the method is kept because `echo` runs as the
    method `Echo`, which reads the array and runs its lookup loop.
  */
  method CallHandler(handler: Handler, doc: seq<byte>, argv: array<Arg>, argc: nat, vars: Vars, ext: ExternalHandlers)
    returns (fragment: Option<seq<byte>>)
    requires argc <= argv.Length
    requires forall a <- argv[..argc] :: ArgWithin(doc, a)
    ensures fragment == Invoke(handler, doc, argv[..argc], vars, ext)
  {
    match handler {
      case EchoHandler =>
        fragment := Echo(doc, argv, argc, vars);
      case External(id) =>
        fragment := ext(id, doc, argv[..argc], vars);
    }
  }

  // ---------------------------------------------------------------------
  // What a body leads to

  /** The body holds a whitespace byte with a non-whitespace byte on each side of it. */
  predicate InnerSpace(doc: seq<byte>, body: Span)
    requires Within(doc, body)
  {
    exists i, j, k | body.start <= i < j < k < body.End() :: !IsSpace(doc[i]) && IsSpace(doc[j]) && !IsSpace(doc[k])
  }

  /**
    No name is looked up exactly when the body has no whitespace between two
    non-whitespace bytes (`echo`, `  echo  `, an empty or all-whitespace
    body). A name that is looked up but not registered runs nothing either
    (`CommandName`).
  */
  lemma CommandInert(doc: seq<byte>, body: Span, entries: seq<Entry>, vars: Vars, ext: ExternalHandlers)
    requires Within(doc, body)
    ensures Command(doc, body, entries, vars, ext).Inert? <==> !InnerSpace(doc, body)
  {
    var d := Command(doc, body, entries, vars, ext);
    match Trim(doc, body)
    case None =>
      assert d == Inert;
      AllSpaces(doc, body);
    case Some(cmd) =>
      var n := FirstSpace(doc, cmd.start, cmd.len);
      if n < cmd.len {
        assert d == Named(doc, cmd, n, entries, vars, ext);
        NamedNotInert(doc, cmd, n, entries, vars, ext);
        SpaceInside(doc, body, cmd, n);
      } else {
        assert d == Inert;
        NoInnerSpace(doc, body, cmd);
      }
  }

  /** A whitespace-only body has no whitespace between non-whitespace bytes. */
  lemma AllSpaces(doc: seq<byte>, body: Span)
    requires Within(doc, body) && Spaces(doc, body.start, body.End())
    ensures !InnerSpace(doc, body)
  {
  }

  /** A whitespace byte inside the trimmed body lies between two non-whitespace bytes. */
  lemma SpaceInside(doc: seq<byte>, body: Span, cmd: Span, n: nat)
    requires Within(doc, body) && Trim(doc, body) == Some(cmd)
    requires n < cmd.len && IsSpace(doc[cmd.start + n])
    ensures InnerSpace(doc, body)
  {
    assert n > 0 && cmd.start + n < cmd.End() - 1;
    assert !IsSpace(doc[cmd.start]) && IsSpace(doc[cmd.start + n]) && !IsSpace(doc[cmd.End() - 1]);
  }

  lemma NamedNotInert(doc: seq<byte>, cmd: Span, n: nat, entries: seq<Entry>, vars: Vars, ext: ExternalHandlers)
    requires Within(doc, cmd) && n < cmd.len
    ensures !Named(doc, cmd, n, entries, vars, ext).Inert?
  {
  }

  /** A trimmed body with no whitespace: the body has no whitespace between non-whitespace bytes. */
  lemma NoInnerSpace(doc: seq<byte>, body: Span, cmd: Span)
    requires Within(doc, body) && Trim(doc, body) == Some(cmd)
    requires NoSpaces(doc, cmd.start, cmd.End())
    ensures !InnerSpace(doc, body)
  {
  }

  /** What Named yields: the name span it was given, looked up in the registry. */
  lemma NamedLookup(doc: seq<byte>, cmd: Span, n: nat, entries: seq<Entry>, vars: Vars, ext: ExternalHandlers)
    requires Within(doc, cmd) && n < cmd.len
    ensures var d := Named(doc, cmd, n, entries, vars, ext);
      (d.Unknown? || d.Invoked?) && d.name == Span(cmd.start, n)
    ensures var d := Named(doc, cmd, n, entries, vars, ext);
      d.Unknown? ==> Lookup(entries, Slice(doc, d.name)) == None
    ensures var d := Named(doc, cmd, n, entries, vars, ext);
      d.Invoked? ==> Lookup(entries, Slice(doc, d.name)) == Some(Entry(Slice(doc, d.name), d.handler))
  {
  }

  /**
    When a name is looked up, it is the run of non-whitespace bytes that
    opens the trimmed body, and a whitespace byte inside the body ends it;
    an unknown name is one the registry does not hold, a known one runs the
    handler registered under it.
  */
  lemma CommandName(doc: seq<byte>, body: Span, entries: seq<Entry>, vars: Vars, ext: ExternalHandlers)
    requires Within(doc, body)
    ensures var d := Command(doc, body, entries, vars, ext);
      (d.Unknown? || d.Invoked?) ==>
        body.start <= d.name.start && 0 < d.name.len && d.name.End() < body.End()
        && Spaces(doc, body.start, d.name.start) && NoSpaces(doc, d.name.start, d.name.End())
        && IsSpace(doc[d.name.End()])
    ensures var d := Command(doc, body, entries, vars, ext);
      d.Unknown? ==> Lookup(entries, Slice(doc, d.name)) == None
    ensures var d := Command(doc, body, entries, vars, ext);
      d.Invoked? ==> Lookup(entries, Slice(doc, d.name)) == Some(Entry(Slice(doc, d.name), d.handler))
  {
    var d := Command(doc, body, entries, vars, ext);
    match Trim(doc, body)
    case None =>
      assert d == Inert;
    case Some(cmd) =>
      assert d == Trimmed(doc, cmd, entries, vars, ext);
      TrimmedName(doc, cmd, entries, vars, ext);
      assert Spaces(doc, body.start, cmd.start);
  }

  lemma TrimmedName(doc: seq<byte>, cmd: Span, entries: seq<Entry>, vars: Vars, ext: ExternalHandlers)
    requires Within(doc, cmd) && 0 < cmd.len && !IsSpace(doc[cmd.start])
    ensures var d := Trimmed(doc, cmd, entries, vars, ext);
      (d.Unknown? || d.Invoked?) ==>
        d.name.start == cmd.start && 0 < d.name.len < cmd.len
        && NoSpaces(doc, d.name.start, d.name.End()) && IsSpace(doc[d.name.End()])
    ensures var d := Trimmed(doc, cmd, entries, vars, ext);
      d.Unknown? ==> Lookup(entries, Slice(doc, d.name)) == None
    ensures var d := Trimmed(doc, cmd, entries, vars, ext);
      d.Invoked? ==> Lookup(entries, Slice(doc, d.name)) == Some(Entry(Slice(doc, d.name), d.handler))
  {
    var n := FirstSpace(doc, cmd.start, cmd.len);
    var d := Trimmed(doc, cmd, entries, vars, ext);
    if n < cmd.len {
      assert d == Named(doc, cmd, n, entries, vars, ext);
      NamedLookup(doc, cmd, n, entries, vars, ext);
      assert d.name == Span(cmd.start, n) && n > 0;
    } else {
      assert d == Inert;
    }
  }

  /** A name the registry holds runs the handler registered under it. */
  lemma NamedRun(doc: seq<byte>, cmd: Span, n: nat, entries: seq<Entry>, vars: Vars, ext: ExternalHandlers, e: Entry)
    requires Within(doc, cmd) && n < cmd.len
    requires Lookup(entries, doc[cmd.start..cmd.start + n]) == Some(e)
    ensures Named(doc, cmd, n, entries, vars, ext) == Run(doc, cmd, n, e.handler, vars, ext)
  {
  }

  /**
    The handler of `d` ran on a region that starts at the first
    non-whitespace byte after the name, with the pairs Tokenize records for
    that region, and its result is the fragment.
  */
  predicate RanOnRegion(doc: seq<byte>, d: Dispatch, vars: Vars, ext: ExternalHandlers)
    requires d.Invoked?
  {
    d.name.End() < d.region.start && 0 < d.region.len && d.region.End() <= |doc|
    && Spaces(doc, d.name.End(), d.region.start) && !IsSpace(doc[d.region.start])
    && d.args == Tokenize(doc, d.region.start, d.region.End())
    && d.fragment == Invoke(d.handler, doc, d.args, vars, ext)
  }

  /** Where Run puts the region, and what it runs on it. */
  lemma RunRegion(doc: seq<byte>, cmd: Span, n: nat, h: Handler, vars: Vars, ext: ExternalHandlers)
    requires Within(doc, cmd) && n < cmd.len && IsSpace(doc[cmd.start + n]) && !IsSpace(doc[cmd.End() - 1])
    ensures var d := Run(doc, cmd, n, h, vars, ext);
      d.handler == h && d.name == Span(cmd.start, n) && d.region.End() == cmd.End()
      && RanOnRegion(doc, d, vars, ext)
  {
    var lo := cmd.start + n + 1;
    assert cmd.start + n != cmd.End() - 1;
    var skip := LeadingSpaces(doc, lo, cmd.len - (n + 1));
    assert cmd.End() - 1 == lo + (cmd.len - (n + 1)) - 1;
    assert skip < cmd.len - (n + 1);
    var region := Span(lo + skip, cmd.len - (n + 1) - skip);
    assert region == Region(doc, cmd, n);
    var args := Tokenize(doc, region.start, region.End());
    assert Run(doc, cmd, n, h, vars, ext) == Invoked(Span(cmd.start, n), h, region, args, Invoke(h, doc, args, vars, ext));
    assert Spaces(doc, cmd.start + n, region.start);
  }

  /**
    A handler runs on the region that starts at the first non-whitespace
    byte after the name and ends at the end of the trimmed body, with the
    pairs Tokenize records for that region; its result is the fragment.
  */
  lemma CommandRegion(doc: seq<byte>, body: Span, entries: seq<Entry>, vars: Vars, ext: ExternalHandlers)
    requires Within(doc, body)
    ensures var d := Command(doc, body, entries, vars, ext);
      d.Invoked? ==>
        RanOnRegion(doc, d, vars, ext) && d.region.End() <= body.End()
        && Spaces(doc, d.region.End(), body.End()) && !IsSpace(doc[d.region.End() - 1])
  {
    var d := Command(doc, body, entries, vars, ext);
    match Trim(doc, body)
    case None =>
      assert d == Inert;
    case Some(cmd) =>
      assert d == Trimmed(doc, cmd, entries, vars, ext);
      TrimmedRegion(doc, cmd, entries, vars, ext);
  }

  lemma TrimmedRegion(doc: seq<byte>, cmd: Span, entries: seq<Entry>, vars: Vars, ext: ExternalHandlers)
    requires Within(doc, cmd) && 0 < cmd.len && !IsSpace(doc[cmd.End() - 1])
    ensures var d := Trimmed(doc, cmd, entries, vars, ext);
      d.Invoked? ==> RanOnRegion(doc, d, vars, ext) && d.region.End() == cmd.End()
  {
    var n := FirstSpace(doc, cmd.start, cmd.len);
    var d := Trimmed(doc, cmd, entries, vars, ext);
    if n < cmd.len {
      assert d == Named(doc, cmd, n, entries, vars, ext);
      NamedRegion(doc, cmd, n, entries, vars, ext);
    } else {
      assert d == Inert;
    }
  }

  lemma NamedRegion(doc: seq<byte>, cmd: Span, n: nat, entries: seq<Entry>, vars: Vars, ext: ExternalHandlers)
    requires Within(doc, cmd) && n < cmd.len && IsSpace(doc[cmd.start + n]) && !IsSpace(doc[cmd.End() - 1])
    ensures var d := Named(doc, cmd, n, entries, vars, ext);
      d.Invoked? ==> RanOnRegion(doc, d, vars, ext) && d.region.End() == cmd.End()
  {
    match Lookup(entries, doc[cmd.start..cmd.start + n])
    case None =>
      NamedLookup(doc, cmd, n, entries, vars, ext);
    case Some(e) =>
      NamedRun(doc, cmd, n, entries, vars, ext, e);
      RunRegion(doc, cmd, n, e.handler, vars, ext);
  }
}
