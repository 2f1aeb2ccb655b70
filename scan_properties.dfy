/** What the directive scanner guarantees about the bodies it dispatches. */
module ScannerProperties {
  import opened Bytes
  import opened CommandRegistry
  import opened EchoCommand
  import opened CommandParser
  import opened Scanner

  /** Processing applies the verdict to each scanned body, in order. */
  lemma {:induction false} ProcessFromScan(doc: seq<byte>, i: nat, s: ScanState, f: Span -> Dispatch)
    requires ScanInv(doc, i, s)
    ensures |ProcessFrom(doc, i, s, f)| == |ScanFrom(doc, i, s)|
    ensures forall k | 0 <= k < |ScanFrom(doc, i, s)| :: ProcessFrom(doc, i, s, f)[k] == f(ScanFrom(doc, i, s)[k])
    decreases |doc| - i
  {
    if i < |doc| {
      var m := Advance(doc[i], i, s);
      ProcessStep(doc, i, s, f);
      ScanStep(doc, i, s);
      ProcessFromScan(doc, i + 1, m.next, f);
      if m.body.Some? {
        var spans := ScanFrom(doc, i + 1, m.next);
        var outs := ProcessFrom(doc, i + 1, m.next, f);
        forall k | 1 <= k < |ScanFrom(doc, i, s)| ensures ProcessFrom(doc, i, s, f)[k] == f(ScanFrom(doc, i, s)[k]) {
          assert ScanFrom(doc, i, s)[k] == spans[k - 1];
          assert ProcessFrom(doc, i, s, f)[k] == outs[k - 1];
        }
      }
    }
  }

  /** The outcomes are the command parser's verdicts on the scanned bodies, one each, in order. */
  lemma ProcessScan(doc: seq<byte>, entries: seq<Entry>, vars: Vars, ext: ExternalHandlers)
    ensures |Process(doc, entries, vars, ext)| == |Scan(doc)|
    ensures forall k | 0 <= k < |Scan(doc)| :: Process(doc, entries, vars, ext)[k] == Command(doc, Scan(doc)[k], entries, vars, ext)
  {
    var f := Verdict(doc, entries, vars, ext);
    ProcessFromScan(doc, 0, Reset, f);
    forall k | 0 <= k < |Scan(doc)| ensures Process(doc, entries, vars, ext)[k] == Command(doc, Scan(doc)[k], entries, vars, ext) {
      assert Scan(doc)[k] in Scan(doc);
    }
  }

  // -------------------------------------------------------------------------
  // Runs of bytes

  /** A byte that moves the automaton from `s` to `t` and dispatches nothing. */
  lemma Quiet(doc: seq<byte>, i: nat, s: ScanState, t: ScanState)
    requires ScanInv(doc, i, s) && i < |doc| && Advance(doc[i], i, s) == Scanned(t, None)
    ensures ScanInv(doc, i + 1, t) && ScanFrom(doc, i, s) == ScanFrom(doc, i + 1, t)
  {
    ScanStep(doc, i, s);
    assert ScanFrom(doc, i, s) == [] + ScanFrom(doc, i + 1, t);
  }

  /** A byte that dispatches `sp` and moves the automaton from `s` to `t`. */
  lemma Emits(doc: seq<byte>, i: nat, s: ScanState, t: ScanState, sp: Span)
    requires ScanInv(doc, i, s) && i < |doc| && Advance(doc[i], i, s) == Scanned(t, Some(sp))
    ensures ScanInv(doc, i + 1, t) && ScanFrom(doc, i, s) == [sp] + ScanFrom(doc, i + 1, t)
  {
    ScanStep(doc, i, s);
  }

  /** Outside a directive, bytes without `<` dispatch nothing and leave the automaton idle. */
  lemma {:induction false} PlainRun(doc: seq<byte>, i: nat, j: nat)
    requires i <= j <= |doc|
    requires forall k | i <= k < j :: doc[k] != LT
    ensures ScanFrom(doc, i, Reset) == ScanFrom(doc, j, Reset)
    decreases j - i
  {
    if i < j {
      Quiet(doc, i, Reset, Reset);
      PlainRun(doc, i + 1, j);
    }
  }

  /** `<!--#` read while idle opens a body that starts right after the `#`. */
  lemma OpenerRun(doc: seq<byte>, i: nat)
    requires At(doc, i, OPENER)
    ensures ScanFrom(doc, i, Reset) == ScanFrom(doc, i + 5, ScanState(InBody, i + 5, 0))
  {
    AtIndex(doc, i, OPENER, 0);
    AtIndex(doc, i, OPENER, 1);
    AtIndex(doc, i, OPENER, 2);
    AtIndex(doc, i, OPENER, 3);
    AtIndex(doc, i, OPENER, 4);
    var s1 := ScanState(SawLt, 0, 0);
    var s2 := ScanState(SawBang, 0, 0);
    var s3 := ScanState(SawDash1, 0, 0);
    var s4 := ScanState(SawDash2, 0, 0);
    Quiet(doc, i, Reset, s1);
    Quiet(doc, i + 1, s1, s2);
    Quiet(doc, i + 2, s2, s3);
    Quiet(doc, i + 3, s3, s4);
    Quiet(doc, i + 4, s4, ScanState(InBody, i + 5, 0));
    assert ScanFrom(doc, i, Reset) == ScanFrom(doc, i + 1, s1);
    assert ScanFrom(doc, i + 1, s1) == ScanFrom(doc, i + 2, s2);
    assert ScanFrom(doc, i + 2, s2) == ScanFrom(doc, i + 3, s3);
    assert ScanFrom(doc, i + 3, s3) == ScanFrom(doc, i + 4, s4);
  }

  /**
    Inside a body opened at `c`, bytes that hold no `-->` and do not end in
    `-` are all counted: dashes held back are restored once the next byte
    shows they do not close. The count goes from `m` to `n`.
  */
  lemma {:induction false} BodyRun(doc: seq<byte>, c: nat, m: nat, n: nat)
    requires m <= n && c + n <= |doc|
    requires forall k | c + m <= k && k + 3 <= c + n :: !CloserAt(doc, k)
    requires m < n ==> doc[c + n - 1] != DASH
    ensures ScanFrom(doc, c + m, ScanState(InBody, c, m)) == ScanFrom(doc, c + n, ScanState(InBody, c, n))
    decreases n - m
  {
    if m < n {
      var m' := BodyChunk(doc, c, m, n);
      BodyRun(doc, c, m', n);
    }
  }

  /** One step of `BodyRun`: a byte, or a run of one or two dashes and the byte after it. */
  lemma BodyChunk(doc: seq<byte>, c: nat, m: nat, n: nat) returns (m': nat)
    requires m < n && c + n <= |doc|
    requires forall k | c + m <= k && k + 3 <= c + n :: !CloserAt(doc, k)
    requires doc[c + n - 1] != DASH
    ensures m < m' <= n
    ensures ScanFrom(doc, c + m, ScanState(InBody, c, m)) == ScanFrom(doc, c + m', ScanState(InBody, c, m'))
  {
    var i := c + m;
    var s := ScanState(InBody, c, m);
    var d1 := ScanState(BodyDash1, c, m);
    var d2 := ScanState(BodyDash2, c, m);
    if doc[i] != DASH {
      m' := m + 1;
      Quiet(doc, i, s, ScanState(InBody, c, m'));
    } else if doc[i + 1] != DASH {
      m' := m + 2;
      Quiet(doc, i, s, d1);
      Quiet(doc, i + 1, d1, ScanState(InBody, c, m'));
    } else {
      assert !CloserAt(doc, i);
      m' := m + 3;
      Quiet(doc, i, s, d1);
      Quiet(doc, i + 1, d1, d2);
      Quiet(doc, i + 2, d2, ScanState(InBody, c, m'));
    }
  }

  /** A body holding no `-->` up to the end of the document is never dispatched, whatever its last bytes. */
  lemma {:induction false} OpenRun(doc: seq<byte>, c: nat, m: nat)
    requires c + m <= |doc|
    requires forall k | c + m <= k :: !CloserAt(doc, k)
    ensures ScanFrom(doc, c + m, ScanState(InBody, c, m)) == []
    decreases |doc| - (c + m)
  {
    var i := c + m;
    if i < |doc| {
      var s := ScanState(InBody, c, m);
      var d1 := ScanState(BodyDash1, c, m);
      var d2 := ScanState(BodyDash2, c, m);
      if doc[i] != DASH {
        Quiet(doc, i, s, ScanState(InBody, c, m + 1));
        OpenRun(doc, c, m + 1);
      } else {
        Quiet(doc, i, s, d1);
        if i + 1 < |doc| {
          if doc[i + 1] != DASH {
            Quiet(doc, i + 1, d1, ScanState(InBody, c, m + 2));
            OpenRun(doc, c, m + 2);
          } else {
            Quiet(doc, i + 1, d1, d2);
            if i + 2 < |doc| {
              assert !CloserAt(doc, i);
              Quiet(doc, i + 2, d2, ScanState(InBody, c, m + 3));
              OpenRun(doc, c, m + 3);
            }
          }
        }
      }
    }
  }

  /** `-->` read in a body dispatches exactly the `n` bytes counted since the `#` and goes back to idle. */
  lemma CloserRun(doc: seq<byte>, c: nat, n: nat)
    requires At(doc, c + n, CLOSER)
    ensures ScanFrom(doc, c + n, ScanState(InBody, c, n)) == [Span(c, n)] + ScanFrom(doc, c + n + 3, Reset)
  {
    var i := c + n;
    AtIndex(doc, i, CLOSER, 0);
    AtIndex(doc, i, CLOSER, 1);
    AtIndex(doc, i, CLOSER, 2);
    var s := ScanState(InBody, c, n);
    var d1 := ScanState(BodyDash1, c, n);
    var d2 := ScanState(BodyDash2, c, n);
    Quiet(doc, i, s, d1);
    Quiet(doc, i + 1, d1, d2);
    Emits(doc, i + 2, d2, Reset, Span(c, n));
    assert ScanFrom(doc, i, s) == ScanFrom(doc, i + 1, d1);
    assert ScanFrom(doc, i + 1, d1) == ScanFrom(doc, i + 2, d2);
  }

  /** A body that meets no `>` is never dispatched: whatever follows, nothing comes out. */
  lemma {:induction false} NoCloseRun(doc: seq<byte>, i: nat, s: ScanState)
    requires ScanInv(doc, i, s) && InDirective(s)
    requires forall k | i <= k < |doc| :: doc[k] != GT
    ensures ScanFrom(doc, i, s) == []
    decreases |doc| - i
  {
    if i < |doc| {
      var t := Advance(doc[i], i, s).next;
      Quiet(doc, i, s, t);
      NoCloseRun(doc, i + 1, t);
    }
  }

  /** Without a `#` after the current position, nothing not already open is ever dispatched. */
  lemma {:induction false} NoHashRun(doc: seq<byte>, i: nat, s: ScanState)
    requires ScanInv(doc, i, s) && !InDirective(s)
    requires forall k | i <= k < |doc| :: doc[k] != HASH
    ensures ScanFrom(doc, i, s) == []
    decreases |doc| - i
  {
    if i < |doc| {
      var t := Advance(doc[i], i, s).next;
      Quiet(doc, i, s, t);
      NoHashRun(doc, i + 1, t);
    }
  }

  // -------------------------------------------------------------------------
  // Text between directives

  /**
    The opener state the automaton reaches after `text[k..]`, read from the
    opener state `st`, or None when the text opens a directive. Outside a
    directive the index of a byte does not matter.
  */
  function Drift(st: Status, text: seq<byte>, k: nat): (r: Option<Status>)
    requires k <= |text| && !InDirective(ScanState(st, 0, 0))
    ensures r.Some? ==> !InDirective(ScanState(r.value, 0, 0))
    decreases |text| - k
  {
    if k == |text| then Some(st)
    else
      var t := Advance(text[k], 0, ScanState(st, 0, 0)).next.status;
      if InDirective(ScanState(t, 0, 0)) then None else Drift(t, text, k + 1)
  }

  /** Text that, read from idle, opens no directive. */
  predicate Plain(text: seq<byte>) {
    Drift(Idle, text, 0).Some?
  }

  /** Plain text after which the automaton is idle again, so that a `<!--#` right after it opens a directive. */
  predicate Settles(text: seq<byte>) {
    Drift(Idle, text, 0) == Some(Idle)
  }

  /** Bytes that hold no `-->`. */
  predicate NoCloser(body: seq<byte>) {
    forall k | 0 <= k && k + 2 < |body| :: !(body[k] == DASH && body[k + 1] == DASH && body[k + 2] == GT)
  }

  /** Text that opens no directive dispatches nothing and leaves the automaton where Drift says. */
  lemma {:induction false} DriftRun(doc: seq<byte>, p: nat, text: seq<byte>, k: nat, st: Status)
    requires At(doc, p, text) && k <= |text| && !InDirective(ScanState(st, 0, 0)) && Drift(st, text, k).Some?
    ensures ScanFrom(doc, p + k, ScanState(st, 0, 0)) == ScanFrom(doc, p + |text|, ScanState(Drift(st, text, k).value, 0, 0))
    decreases |text| - k
  {
    if k < |text| {
      AtIndex(doc, p, text, k);
      var t := Advance(text[k], 0, ScanState(st, 0, 0)).next.status;
      Quiet(doc, p + k, ScanState(st, 0, 0), ScanState(t, 0, 0));
      DriftRun(doc, p, text, k + 1, t);
    }
  }

  /** Settling text read from idle dispatches nothing and ends idle. */
  lemma SettledRun(doc: seq<byte>, p: nat, text: seq<byte>)
    requires At(doc, p, text) && Settles(text)
    ensures ScanFrom(doc, p, Reset) == ScanFrom(doc, p + |text|, Reset)
  {
    DriftRun(doc, p, text, 0, Idle);
  }

  /** Text without `<` settles: the automaton never leaves idle. */
  lemma {:induction false} LtFreeSettles(text: seq<byte>, k: nat)
    requires k <= |text| && forall j | k <= j < |text| :: text[j] != LT
    ensures Drift(Idle, text, k) == Some(Idle)
    decreases |text| - k
  {
    if k < |text| {
      LtFreeSettles(text, k + 1);
    }
  }

  /** Bytes without `>` hold no `-->`. */
  lemma NoGtNoCloser(body: seq<byte>)
    requires GT !in body
    ensures NoCloser(body)
  {
    forall k | 0 <= k && k + 2 < |body| ensures !(body[k] == DASH && body[k + 1] == DASH && body[k + 2] == GT) {
      assert body[k + 2] in body;
    }
  }

  // -------------------------------------------------------------------------
  // Round trip over rendered documents

  /** Plain text followed by one directive `<!--#body-->`. */
  datatype Directive = Directive(text: seq<byte>, body: seq<byte>)

  function Render(d: Directive): (r: seq<byte>)
    ensures |r| == |d.text| + |d.body| + 8
  {
    d.text + OPENER + d.body + CLOSER
  }

  /** The rendering of `ds[i..]`, one directive after another. */
  function RenderedFrom(ds: seq<Directive>, i: nat): seq<byte>
    requires i <= |ds|
    decreases |ds| - i
  {
    if i == |ds| then [] else Render(ds[i]) + RenderedFrom(ds, i + 1)
  }

  function Rendered(ds: seq<Directive>): seq<byte> {
    RenderedFrom(ds, 0)
  }

  /** Where the bodies of `ds[i..]` lie when it is rendered at offset `p`. */
  function BodySpansFrom(ds: seq<Directive>, i: nat, p: nat): seq<Span>
    requires i <= |ds|
    decreases |ds| - i
  {
    if i == |ds| then []
    else [Span(p + |ds[i].text| + 5, |ds[i].body|)] + BodySpansFrom(ds, i + 1, p + |Render(ds[i])|)
  }

  /** Where the bodies of `ds` lie in its rendering. */
  function BodySpans(ds: seq<Directive>): seq<Span> {
    BodySpansFrom(ds, 0, 0)
  }

  /**
    The text opens no directive and leaves the automaton idle, so that the
    `<!--#` after it opens one; the body holds no `-->` and does not end in
    `-`, so that it neither closes early nor merges with its `-->`. HTML
    text qualifies, as long as it does not end inside a partial `<!--`.
  */
  predicate Clean(d: Directive) {
    Settles(d.text) && NoCloser(d.body) && (d.body != [] ==> d.body[|d.body| - 1] != DASH)
  }

  predicate Separable(ds: seq<Directive>) {
    forall i | 0 <= i < |ds| :: Clean(ds[i])
  }

  /** Settling text and then `<!--#`, read from idle, open a body right after the `#`. */
  lemma TextOpenerRun(doc: seq<byte>, p: nat, text: seq<byte>)
    requires At(doc, p, text + OPENER) && Settles(text)
    ensures ScanFrom(doc, p, Reset) == ScanFrom(doc, p + |text| + 5, ScanState(InBody, p + |text| + 5, 0))
  {
    AtConcat(doc, p, text, OPENER);
    SettledOpener(doc, p, text);
  }

  /** TextOpenerRun with the text and the opener placed one after the other. */
  lemma SettledOpener(doc: seq<byte>, p: nat, text: seq<byte>)
    requires At(doc, p, text) && At(doc, p + |text|, OPENER) && Settles(text)
    ensures ScanFrom(doc, p, Reset) == ScanFrom(doc, p + |text| + 5, ScanState(InBody, p + |text| + 5, 0))
  {
    OpenerRun(doc, p + |text|);
    SettledRun(doc, p, text);
  }

  /** The bytes of a clean body, and the `-->` after it, as they lie in the document. */
  lemma CleanBodyAt(doc: seq<byte>, c: nat, body: seq<byte>)
    requires At(doc, c, body + CLOSER) && NoCloser(body) && (body != [] ==> body[|body| - 1] != DASH)
    ensures c + |body| <= |doc| && forall k | c <= k && k + 3 <= c + |body| :: !CloserAt(doc, k)
    ensures 0 < |body| ==> doc[c + |body| - 1] != DASH
    ensures At(doc, c + |body|, CLOSER)
  {
    AtConcat(doc, c, body, CLOSER);
    forall k | c <= k && k + 3 <= c + |body| ensures !CloserAt(doc, k) {
      AtIndex(doc, c, body, k - c);
      AtIndex(doc, c, body, k - c + 1);
      AtIndex(doc, c, body, k - c + 2);
    }
    if 0 < |body| {
      AtIndex(doc, c, body, |body| - 1);
    }
  }

  /** A clean body of `n` bytes and then `-->`, read in a body opened at `c`, dispatch that body and end idle. */
  lemma BodyThenCloser(doc: seq<byte>, c: nat, n: nat)
    requires c + n <= |doc| && forall k | c <= k && k + 3 <= c + n :: !CloserAt(doc, k)
    requires 0 < n ==> doc[c + n - 1] != DASH
    requires At(doc, c + n, CLOSER)
    ensures ScanFrom(doc, c, ScanState(InBody, c, 0)) == [Span(c, n)] + ScanFrom(doc, c + n + 3, Reset)
  {
    CloserRun(doc, c, n);
    BodyRun(doc, c, 0, n);
  }

  /** Where the parts of a directive rendered at `p` lie. */
  lemma RenderSplit(doc: seq<byte>, p: nat, d: Directive)
    requires At(doc, p, Render(d))
    ensures At(doc, p, d.text + OPENER)
    ensures At(doc, p + |d.text| + 5, d.body + CLOSER) && At(doc, p + |d.text| + 5, d.body)
  {
    assert Render(d) == (d.text + OPENER) + (d.body + CLOSER);
    AtConcat(doc, p, d.text + OPENER, d.body + CLOSER);
    AtConcat(doc, p + |d.text| + 5, d.body, CLOSER);
  }

  /** One clean directive, read from idle, dispatches its body and ends idle after its `-->`. */
  lemma DirectiveRun(doc: seq<byte>, p: nat, d: Directive)
    requires Clean(d) && At(doc, p, Render(d))
    ensures ScanFrom(doc, p, Reset) == [Span(p + |d.text| + 5, |d.body|)] + ScanFrom(doc, p + |Render(d)|, Reset)
  {
    RenderSplit(doc, p, d);
    var c := p + |d.text| + 5;
    var e := c + |d.body| + 3;
    TextOpenerRun(doc, p, d.text);
    assert ScanFrom(doc, p, Reset) == ScanFrom(doc, c, ScanState(InBody, c, 0));
    CleanBodyAt(doc, c, d.body);
    BodyThenCloser(doc, c, |d.body|);
    assert ScanFrom(doc, c, ScanState(InBody, c, 0)) == [Span(c, |d.body|)] + ScanFrom(doc, e, Reset);
    assert e == p + |Render(d)|;
  }

  /** Dispatches that split as `head` then `y`, where `y` splits as `spans` then `tail`. */
  lemma Regroup(x: seq<Span>, y: seq<Span>, head: seq<Span>, spans: seq<Span>, tail: seq<Span>, w: seq<Span>)
    requires x == head + y && y == spans + tail && w == head + spans
    ensures x == w + tail
  {
  }

  /** The first directive of `ds[i..]`, split off its rendering and its body spans. */
  lemma Unroll(ds: seq<Directive>, i: nat, p: nat)
    requires i < |ds|
    ensures RenderedFrom(ds, i) == Render(ds[i]) + RenderedFrom(ds, i + 1)
    ensures BodySpansFrom(ds, i, p) == [Span(p + |ds[i].text| + 5, |ds[i].body|)] + BodySpansFrom(ds, i + 1, p + |Render(ds[i])|)
  {
  }

  /** A directive followed by more bytes dispatches its body, and the bytes after it follow. */
  lemma DirectiveThen(doc: seq<byte>, p: nat, d: Directive, rest: seq<byte>)
    requires Clean(d) && At(doc, p, Render(d) + rest)
    ensures At(doc, p + |Render(d)|, rest)
    ensures ScanFrom(doc, p, Reset) == [Span(p + |d.text| + 5, |d.body|)] + ScanFrom(doc, p + |Render(d)|, Reset)
  {
    AtConcat(doc, p, Render(d), rest);
    DirectiveRun(doc, p, d);
  }

  /** The first directive of a rendered run dispatches its body, and the rest of the run follows it. */
  lemma RenderedHead(doc: seq<byte>, p: nat, ds: seq<Directive>, i: nat)
    requires i < |ds| && Clean(ds[i]) && At(doc, p, RenderedFrom(ds, i))
    ensures At(doc, p + |Render(ds[i])|, RenderedFrom(ds, i + 1))
    ensures p + |RenderedFrom(ds, i)| == p + |Render(ds[i])| + |RenderedFrom(ds, i + 1)|
    ensures ScanFrom(doc, p, Reset) == [Span(p + |ds[i].text| + 5, |ds[i].body|)] + ScanFrom(doc, p + |Render(ds[i])|, Reset)
  {
    var d := ds[i];
    var rest := RenderedFrom(ds, i + 1);
    assert RenderedFrom(ds, i) == Render(d) + rest;
    DirectiveThen(doc, p, d, rest);
  }

  /** Scanning a rendered run of directives from idle yields exactly their bodies, and ends idle. */
  lemma {:induction false} RenderedRun(doc: seq<byte>, p: nat, ds: seq<Directive>, i: nat)
    requires i <= |ds| && Separable(ds) && At(doc, p, RenderedFrom(ds, i))
    ensures ScanFrom(doc, p, Reset) == BodySpansFrom(ds, i, p) + ScanFrom(doc, p + |RenderedFrom(ds, i)|, Reset)
    decreases |ds| - i
  {
    if i < |ds| {
      var d := ds[i];
      var q := p + |Render(d)|;
      var rest := RenderedFrom(ds, i + 1);
      var head := [Span(p + |d.text| + 5, |d.body|)];
      var spans := BodySpansFrom(ds, i + 1, q);
      Unroll(ds, i, p);
      RenderedHead(doc, p, ds, i);
      RenderedRun(doc, q, ds, i + 1);
      Regroup(ScanFrom(doc, p, Reset), ScanFrom(doc, q, Reset), head, spans, ScanFrom(doc, q + |rest|, Reset), BodySpansFrom(ds, i, p));
    }
  }

  /** Plain text up to the end dispatches nothing. */
  lemma TailRun(doc: seq<byte>, e: nat, tail: seq<byte>)
    requires At(doc, e, tail) && e + |tail| == |doc| && Plain(tail)
    ensures ScanFrom(doc, e, Reset) == []
  {
    DriftRun(doc, e, tail, 0, Idle);
  }

  /** Settling text, then a directive whose body runs to the end without a `-->`, dispatches nothing. */
  lemma UnclosedRun(doc: seq<byte>, e: nat, text: seq<byte>, body: seq<byte>)
    requires At(doc, e, text + OPENER + body) && e + |text| + 5 + |body| == |doc|
    requires Settles(text) && NoCloser(body)
    ensures ScanFrom(doc, e, Reset) == []
  {
    var c := e + |text| + 5;
    AtConcat(doc, e, text + OPENER, body);
    forall k | c <= k ensures !CloserAt(doc, k) {
      if k + 3 <= |doc| {
        AtIndex(doc, c, body, k - c);
        AtIndex(doc, c, body, k - c + 1);
        AtIndex(doc, c, body, k - c + 2);
      }
    }
    TextOpenerRun(doc, e, text);
    OpenRun(doc, c, 0);
  }

  /** The body of the first directive of a rendered run lies after its text and `<!--#`, and the rest of the run follows it. */
  lemma BodyHead(doc: seq<byte>, p: nat, ds: seq<Directive>, i: nat)
    requires i < |ds| && At(doc, p, RenderedFrom(ds, i))
    ensures At(doc, p + |Render(ds[i])|, RenderedFrom(ds, i + 1))
    ensures At(doc, p + |ds[i].text| + 5, ds[i].body)
  {
    Unroll(ds, i, p);
    AtConcat(doc, p, Render(ds[i]), RenderedFrom(ds, i + 1));
    RenderSplit(doc, p, ds[i]);
  }

  /** The bodies of a rendered run lie where BodySpansFrom says, byte for byte. */
  lemma {:induction false} BodySpansAt(doc: seq<byte>, p: nat, ds: seq<Directive>, i: nat)
    requires i <= |ds| && At(doc, p, RenderedFrom(ds, i))
    ensures |BodySpansFrom(ds, i, p)| == |ds| - i
    ensures forall k | 0 <= k < |ds| - i ::
              BodySpansFrom(ds, i, p)[k].len == |ds[i + k].body| && At(doc, BodySpansFrom(ds, i, p)[k].start, ds[i + k].body)
    decreases |ds| - i
  {
    if i < |ds| {
      var q := p + |Render(ds[i])|;
      var spans := BodySpansFrom(ds, i + 1, q);
      Unroll(ds, i, p);
      BodyHead(doc, p, ds, i);
      BodySpansAt(doc, q, ds, i + 1);
      forall k | 1 <= k < |ds| - i
        ensures BodySpansFrom(ds, i, p)[k] == spans[k - 1] && ds[i + k] == ds[(i + 1) + (k - 1)]
      {
      }
    }
  }

  /**
    Round trip: in a document made of plain text and directives, followed by
    plain text, the scanner dispatches one body per directive, in order, and
    each is exactly the bytes between its `<!--#` and its `-->`.
  */
  lemma ScanRendered(ds: seq<Directive>, tail: seq<byte>)
    requires Separable(ds) && Plain(tail)
    ensures Scan(Rendered(ds) + tail) == BodySpans(ds)
    ensures |Scan(Rendered(ds) + tail)| == |ds|
    ensures forall k | 0 <= k < |ds| ::
              Within(Rendered(ds) + tail, Scan(Rendered(ds) + tail)[k]) &&
              Slice(Rendered(ds) + tail, Scan(Rendered(ds) + tail)[k]) == ds[k].body
  {
    var doc := Rendered(ds) + tail;
    RenderedThenPlain(ds, tail);
    BodySpansAt(doc, 0, ds, 0);
    forall k | 0 <= k < |ds| ensures Within(doc, Scan(doc)[k]) && Slice(doc, Scan(doc)[k]) == ds[k].body {
      var sp := BodySpans(ds)[k];
      assert ds[k] == ds[0 + k];
    }
  }

  /** The span list of `ScanRendered`, without the per-directive reading. */
  lemma RenderedThenPlain(ds: seq<Directive>, tail: seq<byte>)
    requires Separable(ds) && Plain(tail)
    ensures Scan(Rendered(ds) + tail) == BodySpans(ds)
  {
    var doc := Rendered(ds) + tail;
    assert At(doc, 0, doc) by { assert doc[0..|doc|] == doc; }
    AtConcat(doc, 0, Rendered(ds), tail);
    RenderedRun(doc, 0, ds, 0);
    TailRun(doc, |Rendered(ds)|, tail);
    assert Scan(doc) == BodySpans(ds) + [];
  }

  /** A directive still open when the document ends is never dispatched. */
  lemma ScanUnclosed(ds: seq<Directive>, text: seq<byte>, body: seq<byte>)
    requires Separable(ds) && Settles(text) && NoCloser(body)
    ensures Scan(Rendered(ds) + text + OPENER + body) == BodySpans(ds)
  {
    var rest := text + OPENER + body;
    var doc := Rendered(ds) + rest;
    assert Rendered(ds) + text + OPENER + body == doc;
    assert At(doc, 0, doc) by { assert doc[0..|doc|] == doc; }
    AtConcat(doc, 0, Rendered(ds), rest);
    RenderedRun(doc, 0, ds, 0);
    UnclosedRun(doc, |Rendered(ds)|, text, body);
    assert Scan(doc) == BodySpans(ds) + [];
  }

  /**
    HTML around a directive: `<p><!--#echo var="x"--></p>` dispatches the
    12 bytes `echo var="x"` that start right after the `#`.
  */
  lemma HtmlAroundDirective()
    ensures Scan([LT, 112, GT] + OPENER + [101, 99, 104, 111, SPACE, 118, 97, 114, EQ, QUOTE, 120, QUOTE] + CLOSER + [LT, 47, 112, GT])
         == [Span(8, 12)]
  {
    var text: seq<byte> := [LT, 112, GT];
    var body: seq<byte> := [101, 99, 104, 111, SPACE, 118, 97, 114, EQ, QUOTE, 120, QUOTE];
    var tail: seq<byte> := [LT, 47, 112, GT];
    assert Drift(Idle, text, 3) == Some(Idle);
    assert Drift(Idle, text, 2) == Some(Idle);
    assert Drift(Idle, text, 0) == Drift(SawLt, text, 1) == Some(Idle);
    assert Drift(Idle, tail, 4) == Some(Idle);
    assert Drift(Idle, tail, 3) == Some(Idle);
    assert Drift(Idle, tail, 2) == Some(Idle);
    assert Drift(Idle, tail, 0) == Drift(SawLt, tail, 1) == Some(Idle);
    assert GT !in body;
    NoGtNoCloser(body);
    var d := Directive(text, body);
    assert Clean(d);
    assert Separable([d]);
    Unroll([d], 0, 0);
    assert RenderedFrom([d], 1) == [];
    assert Rendered([d]) + tail == text + OPENER + body + CLOSER + tail;
    ScanRendered([d], tail);
    assert BodySpans([d]) == [Span(8, 12)] + BodySpansFrom([d], 1, |Render(d)|);
  }

  /** A document without `#` dispatches nothing. */
  lemma NoHashNoDirective(doc: seq<byte>)
    requires HASH !in doc
    ensures Scan(doc) == []
  {
    NoHashRun(doc, 0, Reset);
  }

  /**
    A `<` right before `<!--#` is not an opener's first byte: after `<` the
    automaton goes back to idle on the second `<` without looking at it again,
    so the `#` is read while idle.
  */
  lemma DoubleLtNotOpener(rest: seq<byte>)
    requires HASH !in rest
    ensures Scan([LT] + OPENER + rest) == []
  {
    var doc := [LT] + OPENER + rest;
    assert doc[0] == LT && doc[1] == LT && doc[2] == BANG && doc[3] == DASH && doc[4] == DASH && doc[5] == HASH;
    Quiet(doc, 0, Reset, ScanState(SawLt, 0, 0));
    Quiet(doc, 1, ScanState(SawLt, 0, 0), Reset);
    PlainRun(doc, 2, 6);
    forall k | 6 <= k < |doc| ensures doc[k] != HASH {
      assert doc[k] == rest[k - 6];
    }
    NoHashRun(doc, 6, Reset);
  }

  /**
    A third dash is counted as a body byte: in `<!--#a--->b-->` the first
    `-->` does not close, and the body is `a--->b`.
  */
  lemma ThirdDashAbsorbed()
    ensures Scan([LT, BANG, DASH, DASH, HASH, 97, DASH, DASH, DASH, GT, 98, DASH, DASH, GT]) == [Span(5, 6)]
  {
    var doc: seq<byte> := [LT, BANG, DASH, DASH, HASH, 97, DASH, DASH, DASH, GT, 98, DASH, DASH, GT];
    assert doc[..5] == OPENER;
    OpenerRun(doc, 0);
    Quiet(doc, 5, ScanState(InBody, 5, 0), ScanState(InBody, 5, 1));
    Quiet(doc, 6, ScanState(InBody, 5, 1), ScanState(BodyDash1, 5, 1));
    Quiet(doc, 7, ScanState(BodyDash1, 5, 1), ScanState(BodyDash2, 5, 1));
    Quiet(doc, 8, ScanState(BodyDash2, 5, 1), ScanState(InBody, 5, 4));
    Quiet(doc, 9, ScanState(InBody, 5, 4), ScanState(InBody, 5, 5));
    Quiet(doc, 10, ScanState(InBody, 5, 5), ScanState(InBody, 5, 6));
    assert doc[11..14] == CLOSER;
    CloserRun(doc, 5, 6);
    assert ScanFrom(doc, 14, Reset) == [];
  }
}
