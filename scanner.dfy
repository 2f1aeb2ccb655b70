/**
  The directive scanner (`uwsgi_ssi_parse`): an eight-state automaton over
  the document that finds `<!--#` ... `-->` and hands each body to the
  command parser.
*/
module Scanner {
  import opened Bytes
  import opened CommandRegistry
  import opened EchoCommand
  import opened CommandParser

  /**
    The `status` of the C loop: 0 outside, 1 after `<`, 2 after `<!`,
    3 after `<!-`, 4 after `<!--`, 5 inside the body, 6 after one `-` in the
    body, 7 after two.
  */
  datatype Status = Idle | SawLt | SawBang | SawDash1 | SawDash2 | InBody | BodyDash1 | BodyDash2

  /** The loop's variables: the body starts at `cmd` and `cmdLen` of its bytes are counted. */
  datatype ScanState = ScanState(status: Status, cmd: nat, cmdLen: nat)

  /** Outside any directive (`cmd` NULL, `cmd_len` 0). */
  const Reset: ScanState := ScanState(Idle, 0, 0)

  /** `<!--#` */
  const OPENER: seq<byte> := [LT, BANG, DASH, DASH, HASH]

  /** `-->` */
  const CLOSER: seq<byte> := [DASH, DASH, GT]

  /** The state after one byte, and the body dispatched at that byte, if any. */
  datatype Scanned = Scanned(next: ScanState, body: Option<Span>)

  predicate InDirective(s: ScanState) {
    s.status == InBody || s.status == BodyDash1 || s.status == BodyDash2
  }

  /**
    The body of the C loop for the byte `b` at index `i`. A mismatch in the
    opener goes back to Idle without looking at `b` again. Dashes inside the
    body are not counted until it is known they do not close it: `-x` adds 2,
    `--x` adds 3 (and a third `-` is such an `x`).
  */
  function Advance(b: byte, i: nat, s: ScanState): Scanned {
    match s.status
    case Idle => Scanned(if b == LT then s.(status := SawLt) else s, None)
    case SawLt => Scanned(s.(status := if b == BANG then SawBang else Idle), None)
    case SawBang => Scanned(s.(status := if b == DASH then SawDash1 else Idle), None)
    case SawDash1 => Scanned(s.(status := if b == DASH then SawDash2 else Idle), None)
    case SawDash2 => Scanned(if b == HASH then s.(status := InBody, cmd := i + 1) else s.(status := Idle), None)
    case InBody => Scanned(if b == DASH then s.(status := BodyDash1) else s.(cmdLen := s.cmdLen + 1), None)
    case BodyDash1 => Scanned(if b == DASH then s.(status := BodyDash2) else ScanState(InBody, s.cmd, s.cmdLen + 2), None)
    case BodyDash2 =>
      if b == GT then Scanned(Reset, Some(Span(s.cmd, s.cmdLen)))
      else Scanned(ScanState(InBody, s.cmd, s.cmdLen + 3), None)
  }

  /**
    What one step of the automaton can do: a body is dispatched only on the
    `>` of `-->`, and it is the span counted so far; a body opens only on
    the `#` of `<!--#`, right after it; an open body keeps its start and
    its count never shrinks.
  */
  lemma AdvanceDispatch(b: byte, i: nat, s: ScanState)
    ensures Advance(b, i, s).body.Some? <==> s.status == BodyDash2 && b == GT
    ensures Advance(b, i, s).body.Some? ==> Advance(b, i, s).body.value == Span(s.cmd, s.cmdLen) && Advance(b, i, s).next == Reset
    ensures !InDirective(s) && InDirective(Advance(b, i, s).next) ==> s.status == SawDash2 && b == HASH && Advance(b, i, s).next.cmd == i + 1
    ensures InDirective(s) && Advance(b, i, s).body.None? ==>
              InDirective(Advance(b, i, s).next) && Advance(b, i, s).next.cmd == s.cmd && s.cmdLen <= Advance(b, i, s).next.cmdLen
  {
  }

  /** The dashes read but not yet counted in the body. */
  function Pending(st: Status): nat {
    match st
    case BodyDash1 => 1
    case BodyDash2 => 2
    case _ => 0
  }

  /**
    How the counted body relates to the index `i` of the next byte: inside a
    directive every byte since `cmd` is counted or pending; outside, `cmd`
    and `cmdLen` are reset.
  */
  predicate ScanInv(doc: seq<byte>, i: nat, s: ScanState) {
    i <= |doc|
    && if InDirective(s) then s.cmd + s.cmdLen + Pending(s.status) == i else s.cmd == 0 && s.cmdLen == 0
  }

  /** The bodies dispatched from index `i` on, in state `s`, in order. */
  function ScanFrom(doc: seq<byte>, i: nat, s: ScanState): (r: seq<Span>)
    requires ScanInv(doc, i, s)
    ensures forall sp <- r :: Within(doc, sp)
    decreases |doc| - i
  {
    if i == |doc| then []
    else
      var m := Advance(doc[i], i, s);
      (if m.body.Some? then [m.body.value] else []) + ScanFrom(doc, i + 1, m.next)
  }

  /** One byte of the scan: the invariant is kept and the dispatched body, if any, comes first. */
  lemma ScanStep(doc: seq<byte>, i: nat, s: ScanState)
    requires ScanInv(doc, i, s) && i < |doc|
    ensures ScanInv(doc, i + 1, Advance(doc[i], i, s).next)
    ensures Advance(doc[i], i, s).body.Some? ==> Within(doc, Advance(doc[i], i, s).body.value)
    ensures ScanFrom(doc, i, s)
         == (if Advance(doc[i], i, s).body.Some? then [Advance(doc[i], i, s).body.value] else [])
            + ScanFrom(doc, i + 1, Advance(doc[i], i, s).next)
  {
  }

  /**
    The bodies `uwsgi_ssi_parse` hands to the command parser, in any
    document: each lies right after a `<!--#` and right before a `-->`.
  */
  function Scan(doc: seq<byte>): (r: seq<Span>)
    ensures forall sp <- r :: Within(doc, sp) && Bracketed(doc, sp)
  {
    ScanFramed(doc, 0, Reset);
    ScanFrom(doc, 0, Reset)
  }

  /** `<!--#` ends right before index `c`. */
  predicate Opened(doc: seq<byte>, c: nat) {
    5 <= c <= |doc|
    && doc[c - 5] == LT && doc[c - 4] == BANG && doc[c - 3] == DASH && doc[c - 2] == DASH && doc[c - 1] == HASH
  }

  /** `-->` starts at index `k`. */
  predicate CloserAt(doc: seq<byte>, k: nat) {
    k + 3 <= |doc| && doc[k] == DASH && doc[k + 1] == DASH && doc[k + 2] == GT
  }

  /** The span is framed by an opener right before it and a closer right after it. */
  predicate Bracketed(doc: seq<byte>, sp: Span) {
    Opened(doc, sp.start) && CloserAt(doc, sp.End())
  }

  /**
    What the automaton's state says about the bytes just read: a partial
    opener in the opener states, the opener before `cmd` inside a body, and
    the dashes held back in the dash states.
  */
  predicate Framed(doc: seq<byte>, i: nat, s: ScanState) {
    ScanInv(doc, i, s)
    && match s.status
       case Idle => true
       case SawLt => 1 <= i && doc[i - 1] == LT
       case SawBang => 2 <= i && doc[i - 2] == LT && doc[i - 1] == BANG
       case SawDash1 => 3 <= i && doc[i - 3] == LT && doc[i - 2] == BANG && doc[i - 1] == DASH
       case SawDash2 => 4 <= i && doc[i - 4] == LT && doc[i - 3] == BANG && doc[i - 2] == DASH && doc[i - 1] == DASH
       case InBody => Opened(doc, s.cmd)
       case BodyDash1 => Opened(doc, s.cmd) && doc[i - 1] == DASH
       case BodyDash2 => Opened(doc, s.cmd) && doc[i - 2] == DASH && doc[i - 1] == DASH
  }

  /** One byte keeps the frame, and a body it dispatches is bracketed. */
  lemma FramedStep(doc: seq<byte>, i: nat, s: ScanState)
    requires Framed(doc, i, s) && i < |doc|
    ensures Framed(doc, i + 1, Advance(doc[i], i, s).next)
    ensures Advance(doc[i], i, s).body.Some? ==> Bracketed(doc, Advance(doc[i], i, s).body.value)
  {
    ScanStep(doc, i, s);
  }

  /** Every body dispatched from a framed state is bracketed. */
  lemma {:induction false} ScanFramed(doc: seq<byte>, i: nat, s: ScanState)
    requires Framed(doc, i, s)
    ensures forall sp <- ScanFrom(doc, i, s) :: Bracketed(doc, sp)
    decreases |doc| - i
  {
    if i < |doc| {
      var m := Advance(doc[i], i, s);
      FramedStep(doc, i, s);
      ScanStep(doc, i, s);
      ScanFramed(doc, i + 1, m.next);
    }
  }

  /**
    The command parser's verdict on a body. Every body the scanner dispatches
    lies inside the document, so the `Inert` branch is never taken for one.
  */
  function Verdict(doc: seq<byte>, entries: seq<Entry>, vars: Vars, ext: ExternalHandlers): Span -> Dispatch {
    sp => if Within(doc, sp) then Command(doc, sp, entries, vars, ext) else Inert
  }

  /** The verdict `f` on each body dispatched from index `i` on, in state `s`, in order. */
  function ProcessFrom(doc: seq<byte>, i: nat, s: ScanState, f: Span -> Dispatch): (r: seq<Dispatch>)
    requires ScanInv(doc, i, s)
    decreases |doc| - i
  {
    if i == |doc| then []
    else
      ScanStep(doc, i, s);
      var m := Advance(doc[i], i, s);
      (if m.body.Some? then [f(m.body.value)] else []) + ProcessFrom(doc, i + 1, m.next, f)
  }

  /** One byte of processing: the verdict on the body dispatched at `i`, if any, comes first. */
  lemma ProcessStep(doc: seq<byte>, i: nat, s: ScanState, f: Span -> Dispatch)
    requires ScanInv(doc, i, s) && i < |doc|
    ensures ScanInv(doc, i + 1, Advance(doc[i], i, s).next)
    ensures Advance(doc[i], i, s).body.Some? ==> Within(doc, Advance(doc[i], i, s).body.value)
    ensures ProcessFrom(doc, i, s, f)
         == (if Advance(doc[i], i, s).body.Some? then [f(Advance(doc[i], i, s).body.value)] else [])
            + ProcessFrom(doc, i + 1, Advance(doc[i], i, s).next, f)
  {
    ScanStep(doc, i, s);
  }

  /** What processing the whole document leads to: one outcome per dispatched body, in order. */
  function Process(doc: seq<byte>, entries: seq<Entry>, vars: Vars, ext: ExternalHandlers): (r: seq<Dispatch>)
  {
    ProcessFrom(doc, 0, Reset, Verdict(doc, entries, vars, ext))
  }

  /**
    The `switch` of the C loop for the byte `b` at index `i`, written as the
    C code writes it: assignments to `status`, `cmd` and `cmd_len`, case by
    case. `Advance` is the same step as one value; the scan functions and
    their lemmas use `Advance`, and this method is proved to agree with it.
  */
  method Feed(b: byte, i: nat, s: ScanState) returns (m: Scanned)
    ensures m == Advance(b, i, s)
  {
    var status, cmd, cmdLen := s.status, s.cmd, s.cmdLen;
    var body := None;
    assert s == ScanState(status, cmd, cmdLen);
    match status {
      case Idle =>
        if b == LT {
          status := SawLt;
        }
      case SawLt =>
        status := Idle;
        if b == BANG {
          status := SawBang;
        }
      case SawBang =>
        status := Idle;
        if b == DASH {
          status := SawDash1;
        }
      case SawDash1 =>
        status := Idle;
        if b == DASH {
          status := SawDash2;
        }
      case SawDash2 =>
        status := Idle;
        if b == HASH {
          status, cmd := InBody, i + 1;
        }
      case InBody =>
        if b == DASH {
          status := BodyDash1;
        } else {
          cmdLen := cmdLen + 1;
        }
      case BodyDash1 =>
        status := InBody;
        if b == DASH {
          status := BodyDash2;
        } else {
          cmdLen := cmdLen + 2;
        }
      case BodyDash2 =>
        status := InBody;
        if b == GT {
          body := Some(Span(cmd, cmdLen));
          status, cmd, cmdLen := Idle, 0, 0;
        } else {
          cmdLen := cmdLen + 3;
        }
    }
    return Scanned(ScanState(status, cmd, cmdLen), body);
  }

  /**
    One pass of the C loop: the byte at `i` moves the automaton, and a body
    it closes is handed to the command parser at once.
  */
  method ParseByte(doc: seq<byte>, i: nat, s: ScanState, reg: Registry, vars: Vars, ext: ExternalHandlers, ghost done: seq<Dispatch>)
    returns (next: ScanState, out: seq<Dispatch>)
    requires ScanInv(doc, i, s) && i < |doc|
    ensures next == Advance(doc[i], i, s).next && ScanInv(doc, i + 1, next)
    ensures ProcessFrom(doc, i, s, Verdict(doc, reg.entries, vars, ext))
         == out + ProcessFrom(doc, i + 1, next, Verdict(doc, reg.entries, vars, ext))
    ensures done + ProcessFrom(doc, i, s, Verdict(doc, reg.entries, vars, ext))
         == (done + out) + ProcessFrom(doc, i + 1, next, Verdict(doc, reg.entries, vars, ext))
  {
    ghost var f := Verdict(doc, reg.entries, vars, ext);
    ProcessStep(doc, i, s, f);
    var m := Feed(doc[i], i, s);
    next := m.next;
    out := [];
    if m.body.Some? {
      var d := ParseCommand(doc, m.body.value, reg, vars, ext);
      assert d == f(m.body.value);
      out := [d];
    } else {
      assert out + ProcessFrom(doc, i + 1, next, f) == ProcessFrom(doc, i + 1, next, f);
    }
  }

  /**
    `uwsgi_ssi_parse`. Each closed directive's body is handed to the command
    parser as soon as its `-->` is read; the outcomes are collected in order.
  */
  method Parse(doc: seq<byte>, reg: Registry, vars: Vars, ext: ExternalHandlers) returns (outcomes: seq<Dispatch>)
    ensures outcomes == Process(doc, reg.entries, vars, ext)
  {
    var s := Reset;
    ghost var entries := reg.entries;
    ghost var f := Verdict(doc, entries, vars, ext);
    ghost var all := ProcessFrom(doc, 0, Reset, f);
    outcomes := [];
    var i := 0;
    while i < |doc|
      invariant ScanInv(doc, i, s) && reg.entries == entries
      invariant outcomes + ProcessFrom(doc, i, s, f) == all
      decreases |doc| - i
    {
      var next, out := ParseByte(doc, i, s, reg, vars, ext, outcomes);
      outcomes := outcomes + out;
      s := next;
      i := i + 1;
    }
    assert outcomes + ProcessFrom(doc, i, s, f) == outcomes;
  }
}
