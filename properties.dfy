/**
  End to end: what processing a document that holds a single directive
  leads to, from the scanner through the command parser, the tokenizer and
  the `echo` handler.
*/
module DirectiveProperties {
  import opened Bytes
  import opened Args
  import opened CommandRegistry
  import opened EchoCommand
  import opened CommandParser
  import opened Scanner
  import opened ScannerProperties

  /** `<!--#` body `-->` */
  function Lone(body: seq<byte>): seq<byte> {
    OPENER + body + CLOSER
  }

  /** `name key="value" key="value" ...` */
  function CallBody(name: seq<byte>, ps: seq<Pair>): seq<byte> {
    name + [SPACE] + RenderArgs(ps)
  }

  /**
    A name with neither whitespace nor `>`, and at least one pair, none of
    whose bytes is a `>`: the directive is closed only by its own `-->`.
  */
  predicate Callable(name: seq<byte>, ps: seq<Pair>) {
    |name| > 0 && (forall b <- name :: !IsSpace(b) && b != GT)
    && ps != [] && forall pr <- ps :: ValidPair(pr) && GT !in pr.key && GT !in pr.value
  }

  // ---------------------------------------------------------------------
  // The text of the pairs

  /** Rendered pairs end with the closing quote of the last value. */
  lemma {:induction false} RenderArgsEnd(ps: seq<Pair>)
    requires ps != []
    ensures |RenderArgs(ps)| > 0 && RenderArgs(ps)[|RenderArgs(ps)| - 1] == QUOTE
    decreases |ps|
  {
    if |ps| > 1 {
      RenderArgsEnd(ps[1..]);
      var rest := RenderArgs(ps[1..]);
      assert RenderArgs(ps) == (RenderPair(ps[0]) + [SPACE]) + rest;
    }
  }

  /** Rendered pairs hold a `>` only where a key or a value does. */
  lemma {:induction false} RenderArgsNoGt(ps: seq<Pair>)
    requires forall pr <- ps :: GT !in pr.key && GT !in pr.value
    ensures GT !in RenderArgs(ps)
    decreases |ps|
  {
    if |ps| > 0 {
      var x := RenderPair(ps[0]);
      assert GT !in ps[0].key && GT !in ps[0].value;
      assert GT !in x;
      if |ps| > 1 {
        RenderArgsNoGt(ps[1..]);
        assert RenderArgs(ps) == x + [SPACE] + RenderArgs(ps[1..]);
      }
    }
  }

  // ---------------------------------------------------------------------
  // One directive

  /** A document holding one directive dispatches its body, and only it. */
  lemma LoneScan(body: seq<byte>)
    requires NoCloser(body) && (body != [] ==> body[|body| - 1] != DASH)
    ensures Scan(Lone(body)) == [Span(5, |body|)]
    ensures Slice(Lone(body), Span(5, |body|)) == body
  {
    var d := Directive([], body);
    LtFreeSettles([], 0);
    assert Clean(d);
    assert Separable([d]);
    Unroll([d], 0, 0);
    assert RenderedFrom([d], 1) == [];
    assert Render(d) == Lone(body);
    assert Rendered([d]) + [] == Lone(body);
    ScanRendered([d], []);
    assert BodySpans([d]) == [Span(5, |body|)] + BodySpansFrom([d], 1, |Render(d)|);
  }

  /** Processing a lone directive yields one outcome: the command parser's verdict on its body. */
  lemma LoneProcess(body: seq<byte>, entries: seq<Entry>, vars: Vars, ext: ExternalHandlers)
    requires NoCloser(body) && (body != [] ==> body[|body| - 1] != DASH)
    ensures Within(Lone(body), Span(5, |body|))
    ensures Process(Lone(body), entries, vars, ext) == [Command(Lone(body), Span(5, |body|), entries, vars, ext)]
  {
    var doc := Lone(body);
    LoneScan(body);
    ProcessScan(doc, entries, vars, ext);
    assert Scan(doc)[0] == Span(5, |body|);
  }

  /** A lone word, `<!--#echo-->` say, runs nothing: a name needs whitespace after it. */
  lemma LoneWordInert(word: seq<byte>, entries: seq<Entry>, vars: Vars, ext: ExternalHandlers)
    requires forall b <- word :: !IsSpace(b) && b != GT
    requires word != [] ==> word[|word| - 1] != DASH
    ensures Process(Lone(word), entries, vars, ext) == [Inert]
  {
    var doc := Lone(word);
    var body := Span(5, |word|);
    NoGtNoCloser(word);
    LoneProcess(word, entries, vars, ext);
    LoneScan(word);
    forall k | 5 <= k < 5 + |word| ensures !IsSpace(doc[k]) {
      assert doc[k] == Slice(doc, body)[k - 5];
      assert word[k - 5] in word;
    }
    CommandInert(doc, body, entries, vars, ext);
  }

  /** `<!--#echo-->` leads to nothing, whatever is registered. */
  lemma EchoAloneInert(entries: seq<Entry>, vars: Vars, ext: ExternalHandlers)
    ensures Process([LT, BANG, DASH, DASH, HASH, 101, 99, 104, 111, DASH, DASH, GT], entries, vars, ext) == [Inert]
  {
    assert Lone(ECHO) == [LT, BANG, DASH, DASH, HASH, 101, 99, 104, 111, DASH, DASH, GT];
    LoneWordInert(ECHO, entries, vars, ext);
  }

  /** The body of a lone call holds no `>` and ends with a quote. */
  lemma CallBodyClean(name: seq<byte>, ps: seq<Pair>)
    requires Callable(name, ps)
    ensures GT !in CallBody(name, ps) && CallBody(name, ps)[|CallBody(name, ps)| - 1] == QUOTE
  {
    var r := RenderArgs(ps);
    RenderArgsEnd(ps);
    RenderArgsNoGt(ps);
    assert GT !in name;
    assert CallBody(name, ps) == (name + [SPACE]) + r;
  }

  /** Where the body of a lone directive lies. */
  lemma LoneLayout(body: seq<byte>)
    ensures |Lone(body)| == |body| + 8 && At(Lone(body), 5, body)
  {
    var doc := Lone(body);
    assert doc == OPENER + (body + CLOSER);
    assert At(doc, 0, doc) by { assert doc[0..|doc|] == doc; }
    AtConcat(doc, 0, OPENER, body + CLOSER);
    AtConcat(doc, 5, body, CLOSER);
  }

  /** Where the name, the space after it and the pairs lie in a lone call. */
  lemma CallLayout(name: seq<byte>, ps: seq<Pair>)
    requires Callable(name, ps)
    ensures var doc := Lone(CallBody(name, ps));
      |doc| == 9 + |name| + |RenderArgs(ps)|
      && At(doc, 5, name) && doc[5 + |name|] == SPACE && At(doc, 6 + |name|, RenderArgs(ps))
  {
    var doc := Lone(CallBody(name, ps));
    var r := RenderArgs(ps);
    LoneLayout(CallBody(name, ps));
    assert CallBody(name, ps) == (name + [SPACE]) + r;
    AtConcat(doc, 5, name + [SPACE], r);
    AtConcat(doc, 5, name, [SPACE]);
    AtIndex(doc, 5 + |name|, [SPACE], 0);
  }

  /** The bytes of a lone call the command parser's whitespace tests look at. */
  lemma CallBytes(doc: seq<byte>, name: seq<byte>, ps: seq<Pair>)
    requires Callable(name, ps)
    requires At(doc, 5, name) && At(doc, 6 + |name|, RenderArgs(ps))
    ensures !IsSpace(doc[5]) && !IsSpace(doc[6 + |name|]) && doc[5 + |name| + |RenderArgs(ps)|] == QUOTE
    ensures forall k | 5 <= k < 5 + |name| :: !IsSpace(doc[k])
  {
    var r := RenderArgs(ps);
    forall k | 5 <= k < 5 + |name| ensures !IsSpace(doc[k]) {
      AtIndex(doc, 5, name, k - 5);
      assert name[k - 5] in name;
    }
    RenderFirstByte(doc, 6 + |name|, ps);
    RenderArgsEnd(ps);
    AtIndex(doc, 6 + |name|, r, |r| - 1);
  }

  /**
    A body that opens with `n` non-whitespace bytes, then a whitespace byte
    and a non-whitespace one: the name looked up is exactly those `n` bytes.
  */
  lemma NameAt(doc: seq<byte>, body: Span, n: nat, entries: seq<Entry>, vars: Vars, ext: ExternalHandlers)
    requires Within(doc, body) && 0 < n && body.start + n + 1 < body.End()
    requires NoSpaces(doc, body.start, body.start + n)
    requires IsSpace(doc[body.start + n]) && !IsSpace(doc[body.start + n + 1])
    ensures var d := Command(doc, body, entries, vars, ext);
      (d.Unknown? || d.Invoked?) && d.name == Span(body.start, n)
  {
    var s := body.start;
    assert !IsSpace(doc[s]) && IsSpace(doc[s + n]) && !IsSpace(doc[s + n + 1]);
    assert InnerSpace(doc, body);
    CommandInert(doc, body, entries, vars, ext);
    CommandName(doc, body, entries, vars, ext);
  }

  /**
    Such a body, ending in a non-whitespace byte: a handler that runs is
    given everything after the whitespace byte, tokenized.
  */
  lemma RegionAt(doc: seq<byte>, body: Span, n: nat, entries: seq<Entry>, vars: Vars, ext: ExternalHandlers)
    requires Within(doc, body) && 0 < n && body.start + n + 1 < body.End()
    requires NoSpaces(doc, body.start, body.start + n)
    requires IsSpace(doc[body.start + n]) && !IsSpace(doc[body.start + n + 1])
    requires !IsSpace(doc[body.End() - 1])
    requires Command(doc, body, entries, vars, ext).Invoked?
    ensures var d := Command(doc, body, entries, vars, ext);
      d.region == Span(body.start + n + 1, body.len - (n + 1))
      && d.args == Tokenize(doc, body.start + n + 1, body.End())
      && d.fragment == Invoke(d.handler, doc, d.args, vars, ext)
  {
    var d := Command(doc, body, entries, vars, ext);
    NameAt(doc, body, n, entries, vars, ext);
    CommandRegion(doc, body, entries, vars, ext);
    assert d.region.start == body.start + n + 1;
    assert d.region.End() == body.End();
  }

  /** In a lone call, the name looked up is the whole of `name`. */
  lemma CallName(name: seq<byte>, ps: seq<Pair>, entries: seq<Entry>, vars: Vars, ext: ExternalHandlers)
    requires Callable(name, ps)
    ensures Within(Lone(CallBody(name, ps)), Span(5, |CallBody(name, ps)|))
    ensures var d := Command(Lone(CallBody(name, ps)), Span(5, |CallBody(name, ps)|), entries, vars, ext);
      (d.Unknown? || d.Invoked?) && d.name == Span(5, |name|)
      && Slice(Lone(CallBody(name, ps)), d.name) == name
  {
    var doc := Lone(CallBody(name, ps));
    CallLayout(name, ps);
    CallBytes(doc, name, ps);
    NameAt(doc, Span(5, |CallBody(name, ps)|), |name|, entries, vars, ext);
  }

  /**
    A body made of a name, one whitespace byte and rendered pairs: a handler
    that runs is given those pairs, the first MAX_ARGS of them.
  */
  lemma PairsAt(doc: seq<byte>, body: Span, n: nat, ps: seq<Pair>, entries: seq<Entry>, vars: Vars, ext: ExternalHandlers)
    requires Within(doc, body) && 0 < n && ps != [] && forall pr <- ps :: ValidPair(pr)
    requires At(doc, body.start + n + 1, RenderArgs(ps)) && body.End() == body.start + n + 1 + |RenderArgs(ps)|
    requires NoSpaces(doc, body.start, body.start + n) && IsSpace(doc[body.start + n])
    requires Command(doc, body, entries, vars, ext).Invoked?
    ensures var d := Command(doc, body, entries, vars, ext);
      d.region == Span(body.start + n + 1, |RenderArgs(ps)|)
      && (forall a <- d.args :: ArgWithin(doc, a))
      && Contents(doc, d.args) == ps[..Min(|ps|, MAX_ARGS)]
      && d.fragment == Invoke(d.handler, doc, d.args, vars, ext)
  {
    var lo := body.start + n + 1;
    PairsEdges(doc, lo, ps);
    RegionAt(doc, body, n, entries, vars, ext);
    TokenizeRender(doc, lo, body.End(), ps);
  }

  /** Rendered pairs open with a key byte and close with a quote, neither of them whitespace. */
  lemma PairsEdges(doc: seq<byte>, lo: nat, ps: seq<Pair>)
    requires ps != [] && ValidPair(ps[0]) && At(doc, lo, RenderArgs(ps))
    ensures |RenderArgs(ps)| > 0 && !IsSpace(doc[lo]) && !IsSpace(doc[lo + |RenderArgs(ps)| - 1])
  {
    var r := RenderArgs(ps);
    RenderFirstByte(doc, lo, ps);
    RenderArgsEnd(ps);
    AtIndex(doc, lo, r, |r| - 1);
  }

  /** In a lone call, a handler that runs is given the pairs written after the name. */
  lemma CallRegion(name: seq<byte>, ps: seq<Pair>, entries: seq<Entry>, vars: Vars, ext: ExternalHandlers)
    requires Callable(name, ps)
    requires Within(Lone(CallBody(name, ps)), Span(5, |CallBody(name, ps)|))
    requires Command(Lone(CallBody(name, ps)), Span(5, |CallBody(name, ps)|), entries, vars, ext).Invoked?
    ensures var doc := Lone(CallBody(name, ps));
      var d := Command(doc, Span(5, |CallBody(name, ps)|), entries, vars, ext);
      d.region == Span(6 + |name|, |RenderArgs(ps)|)
      && (forall a <- d.args :: ArgWithin(doc, a))
      && Contents(doc, d.args) == ps[..Min(|ps|, MAX_ARGS)]
      && d.fragment == Invoke(d.handler, doc, d.args, vars, ext)
  {
    var doc := Lone(CallBody(name, ps));
    CallLayout(name, ps);
    CallBytes(doc, name, ps);
    PairsAt(doc, Span(5, |CallBody(name, ps)|), |name|, ps, entries, vars, ext);
  }

  /**
    A lone call `<!--#name k1="v1" ...-->`: an unregistered name is reported
    as unknown; a registered one runs its handler exactly once, on the pairs
    written after it (only the first MAX_ARGS of them), and its fragment is
    what the handler makes of them.
  */
  lemma LoneCall(name: seq<byte>, ps: seq<Pair>, entries: seq<Entry>, vars: Vars, ext: ExternalHandlers)
    requires Callable(name, ps)
    ensures |Process(Lone(CallBody(name, ps)), entries, vars, ext)| == 1
    ensures Lookup(entries, name).None? ==>
              Process(Lone(CallBody(name, ps)), entries, vars, ext)[0] == Unknown(Span(5, |name|))
    ensures Lookup(entries, name).Some? ==>
              var doc := Lone(CallBody(name, ps));
              var d := Process(doc, entries, vars, ext)[0];
              d.Invoked? && d.name == Span(5, |name|) && d.handler == Lookup(entries, name).value.handler
              && d.region == Span(6 + |name|, |RenderArgs(ps)|)
              && (forall a <- d.args :: ArgWithin(doc, a))
              && Contents(doc, d.args) == ps[..Min(|ps|, MAX_ARGS)]
              && d.fragment == Invoke(d.handler, doc, d.args, vars, ext)
  {
    var doc := Lone(CallBody(name, ps));
    var body := Span(5, |CallBody(name, ps)|);
    CallBodyClean(name, ps);
    NoGtNoCloser(CallBody(name, ps));
    LoneProcess(CallBody(name, ps), entries, vars, ext);
    var d := Command(doc, body, entries, vars, ext);
    CallName(name, ps, entries, vars, ext);
    CommandName(doc, body, entries, vars, ext);
    if d.Invoked? {
      CallRegion(name, ps, entries, vars, ext);
    }
  }

  /**
    `echo` at work: with only `echo` registered, `<!--#echo var="v" ...-->`
    yields the value of the request variable `v`, or no fragment when `v`
    is empty, unset or set to the empty value.
  */
  lemma EchoLone(v: seq<byte>, more: seq<Pair>, vars: Vars, ext: ExternalHandlers)
    requires Callable(ECHO, [Pair(VAR, v)] + more)
    ensures |Process(Lone(CallBody(ECHO, [Pair(VAR, v)] + more)), Initial(), vars, ext)| == 1
    ensures var d := Process(Lone(CallBody(ECHO, [Pair(VAR, v)] + more)), Initial(), vars, ext)[0];
      d.Invoked? && d.handler == EchoHandler
      && d.fragment == if v != [] && v in vars && vars[v] != [] then Some(vars[v]) else None
  {
    var ps := [Pair(VAR, v)] + more;
    var doc := Lone(CallBody(ECHO, ps));
    InitialLookup(ECHO);
    LoneCall(ECHO, ps, Initial(), vars, ext);
    var d := Process(doc, Initial(), vars, ext)[0];
    var args := d.args;
    assert Contents(doc, args) == ps[..Min(|ps|, MAX_ARGS)];
    assert Contents(doc, args)[0] == ps[0];
    assert KeyOf(doc, args[0]) == VAR && ValueOf(doc, args[0]) == v;
    assert FirstVar(doc, args, 0);
    assert forall k: nat | FirstVar(doc, args, k) :: k == 0;
  }

  /**
    Eight pairs fill `argv`: a `var` written ninth is never read, so `echo`
    yields nothing when none of the first eight is a `var`.
  */
  lemma NinthVarIgnored(ps: seq<Pair>, v: seq<byte>, vars: Vars, ext: ExternalHandlers)
    requires |ps| == MAX_ARGS && forall pr <- ps :: pr.key != VAR
    requires Callable(ECHO, ps + [Pair(VAR, v)])
    ensures |Process(Lone(CallBody(ECHO, ps + [Pair(VAR, v)])), Initial(), vars, ext)| == 1
    ensures var d := Process(Lone(CallBody(ECHO, ps + [Pair(VAR, v)])), Initial(), vars, ext)[0];
      d.Invoked? && d.handler == EchoHandler && d.fragment == None
  {
    var all := ps + [Pair(VAR, v)];
    var doc := Lone(CallBody(ECHO, all));
    InitialLookup(ECHO);
    LoneCall(ECHO, all, Initial(), vars, ext);
    var d := Process(doc, Initial(), vars, ext)[0];
    var args := d.args;
    assert all[..MAX_ARGS] == ps;
    assert Contents(doc, args) == ps;
    forall k: nat | k < |args| ensures KeyOf(doc, args[k]) != VAR {
      assert Contents(doc, args)[k] == ps[k];
      assert ps[k] in ps;
    }
  }

  /**
    `<!--#ec--ho var="X"-->`: the dashes inside the body are given back to
    it, so the name looked up is `ec--ho`, which is not registered.
  */
  lemma DashedNameUnknown(vars: Vars, ext: ExternalHandlers)
    ensures Process([LT, BANG, DASH, DASH, HASH, 101, 99, DASH, DASH, 104, 111, SPACE,
                     118, 97, 114, EQ, QUOTE, 88, QUOTE, DASH, DASH, GT], Initial(), vars, ext)
         == [Unknown(Span(5, 6))]
  {
    var name: seq<byte> := [101, 99, DASH, DASH, 104, 111];
    var ps := [Pair(VAR, [88])];
    assert RenderArgs(ps) == [118, 97, 114, EQ, QUOTE, 88, QUOTE];
    assert Lone(CallBody(name, ps)) == [LT, BANG, DASH, DASH, HASH, 101, 99, DASH, DASH, 104, 111, SPACE,
                                        118, 97, 114, EQ, QUOTE, 88, QUOTE, DASH, DASH, GT];
    InitialLookup(name);
    LoneCall(name, ps, Initial(), vars, ext);
  }

  /** `echo var="v`: an echo call whose value is never closed. */
  function UnclosedEcho(v: seq<byte>): seq<byte> {
    ECHO + [SPACE] + VAR + [EQ, QUOTE] + v
  }

  /** The bytes of an unclosed echo call written at offset 5 that the command parser looks at. */
  lemma UnclosedEchoBytes(doc: seq<byte>, v: seq<byte>)
    requires v != [] ==> !IsSpace(v[|v| - 1])
    requires At(doc, 5, UnclosedEcho(v))
    ensures 15 + |v| <= |doc| && doc[5..9] == ECHO
    ensures NoSpaces(doc, 5, 9) && IsSpace(doc[9]) && !IsSpace(doc[10]) && !IsSpace(doc[14 + |v|])
    ensures At(doc, 10, VAR + [EQ, QUOTE] + v)
  {
    var text := UnclosedEcho(v);
    var rest := VAR + [EQ, QUOTE] + v;
    assert text == (ECHO + [SPACE]) + rest;
    assert text[|text| - 1] == if v == [] then QUOTE else v[|v| - 1];
    AtConcat(doc, 5, ECHO + [SPACE], rest);
    AtConcat(doc, 5, ECHO, [SPACE]);
    AtIndex(doc, 9, [SPACE], 0);
    AtIndex(doc, 10, rest, 0);
    AtIndex(doc, 5, text, |text| - 1);
    forall k | 5 <= k < 9 ensures !IsSpace(doc[k]) {
      AtIndex(doc, 5, ECHO, k - 5);
    }
  }

  /** An unclosed echo call as a body: `echo` runs with no arguments and yields nothing. */
  lemma UnclosedEchoAt(doc: seq<byte>, body: Span, v: seq<byte>, vars: Vars, ext: ExternalHandlers)
    requires Within(doc, body) && body == Span(5, 10 + |v|) && QUOTE !in v && doc[5..9] == ECHO
    requires NoSpaces(doc, 5, 9) && IsSpace(doc[9]) && !IsSpace(doc[10]) && !IsSpace(doc[14 + |v|])
    requires At(doc, 10, VAR + [EQ, QUOTE] + v)
    ensures var d := Command(doc, body, Initial(), vars, ext);
      d.Invoked? && d.handler == EchoHandler && d.args == [] && d.fragment == None
  {
    var d := Command(doc, body, Initial(), vars, ext);
    NameAt(doc, body, 4, Initial(), vars, ext);
    CommandName(doc, body, Initial(), vars, ext);
    InitialLookup(ECHO);
    assert Slice(doc, Span(5, 4)) == ECHO;
    assert d.Invoked?;
    RegionAt(doc, body, 4, Initial(), vars, ext);
    FirstUnclosed(doc, 10, body.End(), VAR, v);
  }

  /**
    `<!--#echo var="v-->`: the value's closing quote is missing, so the
    tokenizer records no pair and `echo` runs with no arguments and yields
    nothing, whatever the request variables are.
  */
  lemma EchoUnclosedValue(v: seq<byte>, vars: Vars, ext: ExternalHandlers)
    requires QUOTE !in v && GT !in v
    requires v != [] ==> !IsSpace(v[|v| - 1]) && v[|v| - 1] != DASH
    ensures |Process(Lone(UnclosedEcho(v)), Initial(), vars, ext)| == 1
    ensures var d := Process(Lone(UnclosedEcho(v)), Initial(), vars, ext)[0];
      d.Invoked? && d.handler == EchoHandler && d.args == [] && d.fragment == None
  {
    var text := UnclosedEcho(v);
    assert text[|text| - 1] == if v == [] then QUOTE else v[|v| - 1];
    assert GT !in text;
    NoGtNoCloser(text);
    LoneProcess(text, Initial(), vars, ext);
    LoneLayout(text);
    UnclosedEchoBytes(Lone(text), v);
    UnclosedEchoAt(Lone(text), Span(5, |text|), v, vars, ext);
  }
}
