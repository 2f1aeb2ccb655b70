/**
  The argument tokenizer (`uwsgi_ssi_parse_args`): a four-state machine that
  reads `key="value"` pairs out of the region [lo, hi) of the document and
  records them, as spans, into a fixed array of MAX_ARGS slots.
*/
module Args {
  import opened Bytes

  /** UWSGI_SSI_MAX_ARGS: the capacity of the argument array. */
  const MAX_ARGS: nat := 8

  /**
    One recorded pair (struct uwsgi_ssi_arg): the key is
    doc[key..key + keyLen], the value doc[value..value + valLen].
  */
  datatype Arg = Arg(key: nat, keyLen: nat, value: nat, valLen: nat)

  predicate ArgWithin(doc: seq<byte>, a: Arg) {
    a.key + a.keyLen <= |doc| && a.value + a.valLen <= |doc|
  }

  function KeyOf(doc: seq<byte>, a: Arg): seq<byte>
    requires ArgWithin(doc, a)
  {
    doc[a.key..a.key + a.keyLen]
  }

  function ValueOf(doc: seq<byte>, a: Arg): seq<byte>
    requires ArgWithin(doc, a)
  {
    doc[a.value..a.value + a.valLen]
  }

  /** The `status` of the C loop: 0 key, 1 after `=`, 2 inside quotes, 3 after the closing quote. */
  datatype ArgStatus = KeyRun | ExpectQuote | ValueRun | AfterValue

  /**
    The loop's variables. `value` is None while the C pointer is NULL,
    i.e. until the first byte inside the quotes.
  */
  datatype ArgState = ArgState(status: ArgStatus, key: nat, keyLen: nat, value: Option<nat>, valLen: nat, argv: seq<Arg>)

  /** The state before the first byte: the first key starts at the region start. */
  function Start(lo: nat): ArgState {
    ArgState(KeyRun, lo, 0, None, 0, [])
  }

  /** The state after a pair was recorded (key and value reset to NULL). */
  function Between(argv: seq<Arg>): ArgState {
    ArgState(AfterValue, 0, 0, None, 0, argv)
  }

  /** The pair recorded at a closing quote at index `i`; a NULL value (`""`) is the empty span at `i`. */
  function Closed(s: ArgState, i: nat): Arg {
    Arg(s.key, s.keyLen, if s.value.Some? then s.value.value else i, s.valLen)
  }

  /** What one byte does: the machine goes on in a new state, or the function returns. */
  datatype ArgStep = Go(next: ArgState) | Done(argv: seq<Arg>)

  /** The body of the C loop for the byte `b` at index `i`. */
  function Step(b: byte, i: nat, s: ArgState): (r: ArgStep)
    requires |s.argv| < MAX_ARGS
    ensures r.Go? ==> |r.next.argv| < MAX_ARGS
  {
    match s.status
    case KeyRun =>
      if b == EQ then Go(s.(status := ExpectQuote)) else Go(s.(keyLen := s.keyLen + 1))
    case ExpectQuote =>
      if b == QUOTE then Go(s.(status := ValueRun)) else Done(s.argv)
    case ValueRun =>
      if b == QUOTE then
        var argv := s.argv + [Closed(s, i)];
        if |argv| >= MAX_ARGS then Done(argv) else Go(Between(argv))
      else
        Go(s.(value := if s.value.None? then Some(i) else s.value, valLen := s.valLen + 1))
    case AfterValue =>
      if !IsSpace(b) then Go(s.(status := KeyRun, key := i, keyLen := 1)) else Go(s)
  }

  /**
    The pairs recorded when the machine runs from index `i` to `hi` in state
    `s`. Recording the MAX_ARGS-th pair, or a byte other than `"` after `=`,
    ends the run; reaching `hi` keeps only the pairs already closed.
  */
  function ArgsFrom(doc: seq<byte>, i: nat, hi: nat, s: ArgState): (r: seq<Arg>)
    requires i <= hi <= |doc|
    requires |s.argv| < MAX_ARGS
    ensures |r| <= MAX_ARGS
    decreases hi - i
  {
    if i == hi then s.argv
    else
      match Step(doc[i], i, s)
      case Done(argv) => argv
      case Go(t) => ArgsFrom(doc, i + 1, hi, t)
  }

  /** The pairs `uwsgi_ssi_parse_args` records for the region [lo, hi). */
  function Tokenize(doc: seq<byte>, lo: nat, hi: nat): (r: seq<Arg>)
    requires lo <= hi <= |doc|
    ensures forall a <- r :: ArgWithin(doc, a)
  {
    ArgsFromShape(doc, lo, lo, hi, Start(lo));
    ArgsFrom(doc, lo, hi, Start(lo))
  }

  /**
    The C function: fills `argv` in place and returns the count that it
    leaves in `*argc` (which its only caller sets to 0).
  */
  method ParseArgs(doc: seq<byte>, lo: nat, hi: nat, argv: array<Arg>) returns (argc: nat)
    requires lo <= hi <= |doc|
    requires argv.Length == MAX_ARGS
    modifies argv
    ensures argc <= MAX_ARGS
    ensures argv[..argc] == Tokenize(doc, lo, hi)
  {
    var status := KeyRun;
    var key, keyLen := lo, 0;
    var value: Option<nat>, valLen := None, 0;
    argc := 0;
    var i := lo;
    while i < hi
      invariant lo <= i <= hi
      invariant argc < MAX_ARGS
      invariant ArgsFrom(doc, i, hi, ArgState(status, key, keyLen, value, valLen, argv[..argc])) == Tokenize(doc, lo, hi)
      decreases hi - i
    {
      ghost var s := ArgState(status, key, keyLen, value, valLen, argv[..argc]);
      match status {
        case KeyRun =>
          if doc[i] == EQ {
            status := ExpectQuote;
          } else {
            keyLen := keyLen + 1;
          }
        case ExpectQuote =>
          if doc[i] == QUOTE {
            status := ValueRun;
          } else {
            return;
          }
        case ValueRun =>
          if doc[i] == QUOTE {
            status := AfterValue;
            argv[argc] := Arg(key, keyLen, if value.Some? then value.value else i, valLen);
            argc := argc + 1;
            assert argv[..argc] == s.argv + [Closed(s, i)];
            if argc >= MAX_ARGS {
              return;
            }
            key, keyLen, value, valLen := 0, 0, None, 0;
          } else {
            if value.None? {
              value := Some(i);
            }
            valLen := valLen + 1;
          }
        case AfterValue =>
          if !IsSpace(doc[i]) {
            key, keyLen, status := i, 1, KeyRun;
          }
      }
      i := i + 1;
    }
  }

  // ---------------------------------------------------------------------
  // Shape of the recorded pairs

  /**
    A recorded pair is literally `key="value"` inside [lo, hi): the key is
    followed by `=` and `"`, the value by the closing `"`, the value holds no
    `"`, and no byte of the key after its first is `=`.
  */
  predicate WellFormed(doc: seq<byte>, lo: nat, hi: nat, a: Arg) {
    hi <= |doc| && lo <= a.key && a.key + a.keyLen + 2 == a.value && a.value + a.valLen < hi
    && doc[a.key + a.keyLen] == EQ && doc[a.value - 1] == QUOTE && doc[a.value + a.valLen] == QUOTE
    && (forall k | a.key < k < a.key + a.keyLen :: doc[k] != EQ)
    && (forall k | a.value <= k < a.value + a.valLen :: doc[k] != QUOTE)
  }

  /** Pairs are recorded in order of appearance and do not overlap. */
  predicate InOrder(argv: seq<Arg>) {
    forall j | 0 <= j < |argv| - 1 :: argv[j].value + argv[j].valLen < argv[j + 1].key
  }

  predicate EndsBefore(argv: seq<Arg>, p: nat) {
    argv == [] || argv[|argv| - 1].value + argv[|argv| - 1].valLen < p
  }

  /** What the loop knows about its variables at index `i`. */
  predicate ArgInv(doc: seq<byte>, lo: nat, i: nat, hi: nat, s: ArgState) {
    lo <= i <= hi <= |doc| && |s.argv| < MAX_ARGS
    && (forall a <- s.argv :: WellFormed(doc, lo, hi, a) && a.value + a.valLen < i)
    && InOrder(s.argv)
    && match s.status
       case KeyRun =>
         lo <= s.key && s.key + s.keyLen == i && EndsBefore(s.argv, s.key)
         && s.value.None? && s.valLen == 0
         && (forall k | s.key < k < i :: doc[k] != EQ)
       case ExpectQuote =>
         lo <= s.key && s.key + s.keyLen + 1 == i && EndsBefore(s.argv, s.key)
         && s.value.None? && s.valLen == 0
         && (forall k | s.key < k < s.key + s.keyLen :: doc[k] != EQ) && doc[i - 1] == EQ
       case ValueRun =>
         lo <= s.key && s.key + s.keyLen + 2 + s.valLen == i && EndsBefore(s.argv, s.key)
         && (forall k | s.key < k < s.key + s.keyLen :: doc[k] != EQ)
         && doc[s.key + s.keyLen] == EQ && doc[s.key + s.keyLen + 1] == QUOTE
         && (s.value.Some? ==> s.value.value == s.key + s.keyLen + 2)
         && (s.value.None? ==> s.valLen == 0)
         && (forall k | s.key + s.keyLen + 2 <= k < i :: doc[k] != QUOTE)
       case AfterValue => EndsBefore(s.argv, i) && s.value.None? && s.valLen == 0
  }

  lemma AppendInOrder(argv: seq<Arg>, a: Arg)
    requires InOrder(argv) && EndsBefore(argv, a.key)
    ensures InOrder(argv + [a])
  {
    var all := argv + [a];
    forall j | 0 <= j < |all| - 1
      ensures all[j].value + all[j].valLen < all[j + 1].key
    {
      if j < |argv| - 1 {
        assert all[j] == argv[j] && all[j + 1] == argv[j + 1];
      }
    }
  }

  /** Closing a value at index `i` records a well-formed pair, in order. */
  lemma CloseShape(doc: seq<byte>, lo: nat, i: nat, hi: nat, s: ArgState)
    requires ArgInv(doc, lo, i, hi, s) && s.status == ValueRun && i < hi && doc[i] == QUOTE
    ensures forall a <- s.argv + [Closed(s, i)] :: WellFormed(doc, lo, hi, a) && a.value + a.valLen < i + 1
    ensures InOrder(s.argv + [Closed(s, i)])
  {
    assert WellFormed(doc, lo, hi, Closed(s, i));
    AppendInOrder(s.argv, Closed(s, i));
  }

  /** Closing a value below capacity keeps the invariant. */
  lemma CloseKeepsInv(doc: seq<byte>, lo: nat, i: nat, hi: nat, s: ArgState)
    requires ArgInv(doc, lo, i, hi, s) && s.status == ValueRun && i < hi && doc[i] == QUOTE
    requires |s.argv| + 1 < MAX_ARGS
    ensures ArgInv(doc, lo, i + 1, hi, Between(s.argv + [Closed(s, i)]))
  {
    CloseShape(doc, lo, i, hi, s);
  }

  /** What one byte does, once the invariant holds, in the form ArgsFromShape needs. */
  predicate StepKeeps(doc: seq<byte>, lo: nat, i: nat, hi: nat, s: ArgState)
    requires |s.argv| < MAX_ARGS && i < |doc|
  {
    match Step(doc[i], i, s)
    case Go(t) => ArgInv(doc, lo, i + 1, hi, t)
    case Done(argv) => (forall a <- argv :: WellFormed(doc, lo, hi, a)) && InOrder(argv)
  }

  lemma KeyStep(doc: seq<byte>, lo: nat, i: nat, hi: nat, s: ArgState)
    requires ArgInv(doc, lo, i, hi, s) && i < hi && s.status == KeyRun
    ensures StepKeeps(doc, lo, i, hi, s)
  {
  }

  lemma QuoteStep(doc: seq<byte>, lo: nat, i: nat, hi: nat, s: ArgState)
    requires ArgInv(doc, lo, i, hi, s) && i < hi && s.status == ExpectQuote
    ensures StepKeeps(doc, lo, i, hi, s)
  {
  }

  lemma ValueStep(doc: seq<byte>, lo: nat, i: nat, hi: nat, s: ArgState)
    requires ArgInv(doc, lo, i, hi, s) && i < hi && s.status == ValueRun
    ensures StepKeeps(doc, lo, i, hi, s)
  {
    if doc[i] == QUOTE {
      CloseShape(doc, lo, i, hi, s);
      if |s.argv| + 1 < MAX_ARGS {
        CloseKeepsInv(doc, lo, i, hi, s);
      }
    } else {
      ValueByteStep(doc, lo, i, hi, s);
    }
  }

  lemma ValueByteStep(doc: seq<byte>, lo: nat, i: nat, hi: nat, s: ArgState)
    requires ArgInv(doc, lo, i, hi, s) && i < hi && s.status == ValueRun && doc[i] != QUOTE
    ensures ArgInv(doc, lo, i + 1, hi, s.(value := if s.value.None? then Some(i) else s.value, valLen := s.valLen + 1))
  {
  }

  lemma AfterStep(doc: seq<byte>, lo: nat, i: nat, hi: nat, s: ArgState)
    requires ArgInv(doc, lo, i, hi, s) && i < hi && s.status == AfterValue
    ensures StepKeeps(doc, lo, i, hi, s)
  {
  }

  lemma {:induction false} ArgsFromShape(doc: seq<byte>, lo: nat, i: nat, hi: nat, s: ArgState)
    requires ArgInv(doc, lo, i, hi, s)
    ensures forall a <- ArgsFrom(doc, i, hi, s) :: WellFormed(doc, lo, hi, a)
    ensures InOrder(ArgsFrom(doc, i, hi, s))
    decreases hi - i
  {
    if i < hi {
      match s.status {
        case KeyRun => KeyStep(doc, lo, i, hi, s);
        case ExpectQuote => QuoteStep(doc, lo, i, hi, s);
        case ValueRun => ValueStep(doc, lo, i, hi, s);
        case AfterValue => AfterStep(doc, lo, i, hi, s);
      }
      match Step(doc[i], i, s)
      case Done(_) =>
      case Go(t) => ArgsFromShape(doc, lo, i + 1, hi, t);
    }
  }

  /**
    Every pair Tokenize records is a `key="value"` text inside the region,
    the pairs come in order, and there are at most MAX_ARGS of them.
  */
  lemma TokenizeShape(doc: seq<byte>, lo: nat, hi: nat)
    requires lo <= hi <= |doc|
    ensures |Tokenize(doc, lo, hi)| <= MAX_ARGS
    ensures forall a <- Tokenize(doc, lo, hi) :: WellFormed(doc, lo, hi, a) && ArgWithin(doc, a)
    ensures InOrder(Tokenize(doc, lo, hi))
  {
    ArgsFromShape(doc, lo, lo, hi, Start(lo));
  }


  // ---------------------------------------------------------------------
  // Round trip: writing pairs out as text and tokenizing them back

  /** A key and a value as bytes. */
  datatype Pair = Pair(key: seq<byte>, value: seq<byte>)

  /** `key="value"` */
  function RenderPair(p: Pair): seq<byte> {
    p.key + [EQ, QUOTE] + p.value + [QUOTE]
  }

  /** The pairs written one after another, separated by single spaces. */
  function RenderArgs(ps: seq<Pair>): seq<byte>
    decreases |ps|
  {
    if |ps| == 0 then []
    else if |ps| == 1 then RenderPair(ps[0])
    else RenderPair(ps[0]) + [SPACE] + RenderArgs(ps[1..])
  }

  /** A pair the directive syntax can carry: a key that starts with a non-space and has no `=`, a value with no `"`. */
  predicate ValidPair(p: Pair) {
    |p.key| > 0 && !IsSpace(p.key[0]) && EQ !in p.key && QUOTE !in p.value
  }

  /** The bytes of the recorded keys and values. */
  function Contents(doc: seq<byte>, args: seq<Arg>): seq<Pair>
    requires forall a <- args :: ArgWithin(doc, a)
  {
    seq(|args|, k requires 0 <= k < |args| => Pair(KeyOf(doc, args[k]), ValueOf(doc, args[k])))
  }

  /** Where the keys and values of RenderArgs(ps), written at offset p, lie. */
  function ArgSpans(ps: seq<Pair>, p: nat): seq<Arg>
    decreases |ps|
  {
    if ps == [] then []
    else [Arg(p, |ps[0].key|, p + |ps[0].key| + 2, |ps[0].value|)] + ArgSpans(ps[1..], p + |RenderPair(ps[0])| + 1)
  }

  /** How the run goes on once the pairs `all` are recorded and index `e` is next. */
  function Resume(doc: seq<byte>, e: nat, hi: nat, all: seq<Arg>): seq<Arg>
    requires e <= hi <= |doc|
  {
    if |all| >= MAX_ARGS then all[..MAX_ARGS] else ArgsFrom(doc, e, hi, Between(all))
  }

  lemma {:induction false} KeyBytes(doc: seq<byte>, i: nat, j: nat, hi: nat, s: ArgState)
    requires i <= j <= hi <= |doc| && |s.argv| < MAX_ARGS && s.status == KeyRun
    requires forall k | i <= k < j :: doc[k] != EQ
    ensures ArgsFrom(doc, i, hi, s) == ArgsFrom(doc, j, hi, s.(keyLen := s.keyLen + (j - i)))
    decreases j - i
  {
    if i < j {
      KeyBytes(doc, i + 1, j, hi, s.(keyLen := s.keyLen + 1));
    }
  }

  lemma {:induction false} ValueBytes(doc: seq<byte>, i: nat, j: nat, hi: nat, s: ArgState)
    requires i <= j <= hi <= |doc| && |s.argv| < MAX_ARGS && s.status == ValueRun
    requires forall k | i <= k < j :: doc[k] != QUOTE
    ensures ArgsFrom(doc, i, hi, s)
         == ArgsFrom(doc, j, hi, s.(value := if s.value.None? && i < j then Some(i) else s.value, valLen := s.valLen + (j - i)))
    decreases j - i
  {
    if i < j {
      ValueBytes(doc, i + 1, j, hi, s.(value := if s.value.None? then Some(i) else s.value, valLen := s.valLen + 1));
    }
  }

  /** The bytes of a rendered pair, by index. */
  lemma RenderPairAt(doc: seq<byte>, q: nat, pr: Pair)
    requires At(doc, q, RenderPair(pr))
    ensures forall k | 0 <= k < |pr.key| :: doc[q + k] == pr.key[k]
    ensures doc[q + |pr.key|] == EQ && doc[q + |pr.key| + 1] == QUOTE
    ensures forall k | 0 <= k < |pr.value| :: doc[q + |pr.key| + 2 + k] == pr.value[k]
    ensures doc[q + |pr.key| + 2 + |pr.value|] == QUOTE
  {
    var x := RenderPair(pr);
    forall k | 0 <= k < |x| ensures doc[q + k] == x[k] {
      AtIndex(doc, q, x, k);
    }
    assert x[|pr.key|] == EQ && x[|pr.key| + 1] == QUOTE && x[|pr.key| + 2 + |pr.value|] == QUOTE;
    forall k | 0 <= k < |pr.key| ensures doc[q + k] == pr.key[k] {
      assert x[k] == pr.key[k];
    }
    forall k | 0 <= k < |pr.value| ensures doc[q + |pr.key| + 2 + k] == pr.value[k] {
      assert x[|pr.key| + 2 + k] == pr.value[k];
    }
  }

  /** The key of a rendered pair, then its `="`: the machine is inside the value. */
  lemma PairKey(doc: seq<byte>, q: nat, hi: nat, pr: Pair, argv: seq<Arg>)
    requires ValidPair(pr) && At(doc, q, RenderPair(pr)) && q + |RenderPair(pr)| <= hi <= |doc|
    requires |argv| < MAX_ARGS
    ensures ArgsFrom(doc, q + 1, hi, ArgState(KeyRun, q, 1, None, 0, argv))
         == ArgsFrom(doc, q + |pr.key| + 2, hi, ArgState(ValueRun, q, |pr.key|, None, 0, argv))
  {
    var e := q + |pr.key|;
    assert forall k | q + 1 <= k < e :: doc[k] != EQ by {
      RenderPairAt(doc, q, pr);
      forall k | q + 1 <= k < e ensures doc[k] != EQ {
        assert doc[q + (k - q)] == pr.key[k - q];
      }
    }
    assert doc[e] == EQ && doc[e + 1] == QUOTE by {
      RenderPairAt(doc, q, pr);
    }
    var s := ArgState(KeyRun, q, 1, None, 0, argv);
    KeyBytes(doc, q + 1, e, hi, s);
    var s1 := s.(keyLen := |pr.key|);
    assert Step(doc[e], e, s1) == Go(s1.(status := ExpectQuote));
    assert Step(doc[e + 1], e + 1, s1.(status := ExpectQuote)) == Go(s1.(status := ValueRun));
  }

  /** The value of a rendered pair and its closing quote: the pair is recorded. */
  lemma PairValue(doc: seq<byte>, q: nat, hi: nat, pr: Pair, argv: seq<Arg>)
    requires ValidPair(pr) && At(doc, q, RenderPair(pr)) && q + |RenderPair(pr)| <= hi <= |doc|
    requires |argv| < MAX_ARGS
    ensures ArgsFrom(doc, q + |pr.key| + 2, hi, ArgState(ValueRun, q, |pr.key|, None, 0, argv))
         == Resume(doc, q + |RenderPair(pr)|, hi, argv + [Arg(q, |pr.key|, q + |pr.key| + 2, |pr.value|)])
  {
    var v := q + |pr.key| + 2;
    var f := v + |pr.value|;
    assert forall k | v <= k < f :: doc[k] != QUOTE by {
      RenderPairAt(doc, q, pr);
      forall k | v <= k < f ensures doc[k] != QUOTE {
        assert doc[v + (k - v)] == pr.value[k - v];
      }
    }
    assert doc[f] == QUOTE by {
      RenderPairAt(doc, q, pr);
    }
    var s2 := ArgState(ValueRun, q, |pr.key|, None, 0, argv);
    ValueBytes(doc, v, f, hi, s2);
    var s3 := s2.(value := if v < f then Some(v) else None, valLen := |pr.value|);
    assert Closed(s3, f) == Arg(q, |pr.key|, v, |pr.value|);
    var all := argv + [Closed(s3, f)];
    assert ArgsFrom(doc, f, hi, s3) == if |all| >= MAX_ARGS then all else ArgsFrom(doc, f + 1, hi, Between(all));
    assert |all| >= MAX_ARGS ==> all[..MAX_ARGS] == all;
  }

  /** A space after a closed pair, then a non-space byte: that byte starts the next key. */
  lemma Separator(doc: seq<byte>, i: nat, hi: nat, all: seq<Arg>)
    requires i + 2 <= hi <= |doc| && |all| < MAX_ARGS
    requires IsSpace(doc[i]) && !IsSpace(doc[i + 1])
    ensures ArgsFrom(doc, i, hi, Between(all)) == ArgsFrom(doc, i + 2, hi, ArgState(KeyRun, i + 1, 1, None, 0, all))
  {
    assert ArgsFrom(doc, i, hi, Between(all)) == ArgsFrom(doc, i + 1, hi, Between(all));
  }

  /**
    Between two pairs, a run of whitespace of any length acts as a single
    space: the first byte after it starts the next key.
  */
  lemma {:induction false} SpaceRun(doc: seq<byte>, i: nat, j: nat, hi: nat, all: seq<Arg>)
    requires i <= j < hi <= |doc| && |all| < MAX_ARGS
    requires forall k | i <= k < j :: IsSpace(doc[k])
    requires !IsSpace(doc[j])
    ensures ArgsFrom(doc, i, hi, Between(all)) == ArgsFrom(doc, j + 1, hi, ArgState(KeyRun, j, 1, None, 0, all))
    decreases j - i
  {
    if i < j {
      assert ArgsFrom(doc, i, hi, Between(all)) == ArgsFrom(doc, i + 1, hi, Between(all));
      SpaceRun(doc, i + 1, j, hi, all);
    }
  }

  /** The text of pairs splits into the first pair, a space and the text of the rest. */
  lemma RenderSplit(doc: seq<byte>, p: nat, ps: seq<Pair>)
    requires |ps| > 1 && At(doc, p, RenderArgs(ps))
    ensures At(doc, p, RenderPair(ps[0])) && At(doc, p + |RenderPair(ps[0])| + 1, RenderArgs(ps[1..]))
    ensures doc[p + |RenderPair(ps[0])|] == SPACE
    ensures |RenderArgs(ps)| == |RenderPair(ps[0])| + 1 + |RenderArgs(ps[1..])|
  {
    var x := RenderPair(ps[0]);
    var rest := RenderArgs(ps[1..]);
    assert RenderArgs(ps) == x + ([SPACE] + rest);
    AtConcat(doc, p, x, [SPACE] + rest);
    AtConcat(doc, p + |x|, [SPACE], rest);
    AtIndex(doc, p + |x|, [SPACE], 0);
  }

  /** The text of pairs starts with the first byte of the first key. */
  lemma RenderFirstByte(doc: seq<byte>, p: nat, ps: seq<Pair>)
    requires |ps| > 0 && ValidPair(ps[0]) && At(doc, p, RenderArgs(ps))
    ensures doc[p] == ps[0].key[0] && !IsSpace(doc[p]) && doc[p] != EQ
  {
    AtIndex(doc, p, RenderArgs(ps), 0);
    assert RenderArgs(ps)[0] == RenderPair(ps[0])[0];
    assert ps[0].key[0] in ps[0].key;
  }

  /** One rendered pair, entered right after its first key byte: it is recorded with its spans. */
  lemma OnePair(doc: seq<byte>, q: nat, hi: nat, pr: Pair, argv: seq<Arg>)
    requires ValidPair(pr) && At(doc, q, RenderPair(pr)) && q + |RenderPair(pr)| <= hi <= |doc|
    requires |argv| < MAX_ARGS
    ensures ArgsFrom(doc, q + 1, hi, ArgState(KeyRun, q, 1, None, 0, argv))
         == Resume(doc, q + |RenderPair(pr)|, hi, argv + [Arg(q, |pr.key|, q + |pr.key| + 2, |pr.value|)])
  {
    PairKey(doc, q, hi, pr, argv);
    PairValue(doc, q, hi, pr, argv);
  }

  /**
    Rendered pairs, entered right after the first key byte of the first one:
    they are recorded with exactly their spans, up to the capacity.
  */
  lemma {:induction false} RenderRun(doc: seq<byte>, p: nat, hi: nat, ps: seq<Pair>, argv: seq<Arg>)
    requires |ps| > 0 && forall pr <- ps :: ValidPair(pr)
    requires At(doc, p, RenderArgs(ps)) && p + |RenderArgs(ps)| <= hi <= |doc|
    requires |argv| < MAX_ARGS
    ensures ArgsFrom(doc, p + 1, hi, ArgState(KeyRun, p, 1, None, 0, argv))
         == Resume(doc, p + |RenderArgs(ps)|, hi, argv + ArgSpans(ps, p))
    decreases |ps|, 2
  {
    var x := RenderPair(ps[0]);
    var a0 := Arg(p, |ps[0].key|, p + |ps[0].key| + 2, |ps[0].value|);
    var spans := ArgSpans(ps[1..], p + |x| + 1);
    assert ArgSpans(ps, p) == [a0] + spans;
    assert argv + ArgSpans(ps, p) == (argv + [a0]) + spans;
    if |ps| == 1 {
      OnePair(doc, p, hi, ps[0], argv);
      assert (argv + [a0]) + spans == argv + [a0];
    } else {
      RenderRunMore(doc, p, hi, ps, argv);
    }
  }

  lemma {:induction false} RenderRunMore(doc: seq<byte>, p: nat, hi: nat, ps: seq<Pair>, argv: seq<Arg>)
    requires |ps| > 1 && forall pr <- ps :: ValidPair(pr)
    requires At(doc, p, RenderArgs(ps)) && p + |RenderArgs(ps)| <= hi <= |doc|
    requires |argv| < MAX_ARGS
    ensures
      var a0 := Arg(p, |ps[0].key|, p + |ps[0].key| + 2, |ps[0].value|);
      ArgsFrom(doc, p + 1, hi, ArgState(KeyRun, p, 1, None, 0, argv))
      == Resume(doc, p + |RenderArgs(ps)|, hi, (argv + [a0]) + ArgSpans(ps[1..], p + |RenderPair(ps[0])| + 1))
    decreases |ps|, 1
  {
    var x := RenderPair(ps[0]);
    var a0 := Arg(p, |ps[0].key|, p + |ps[0].key| + 2, |ps[0].value|);
    var all := argv + [a0];
    RenderSplit(doc, p, ps);
    OnePair(doc, p, hi, ps[0], argv);
    if |all| >= MAX_ARGS {
      FullPrefix(doc, p + |RenderArgs(ps)|, hi, all, ArgSpans(ps[1..], p + |x| + 1));
    } else {
      NextPair(doc, p, hi, ps, all);
    }
  }

  /** After the first pair, below capacity: the space and the remaining pairs. */
  lemma {:induction false} NextPair(doc: seq<byte>, p: nat, hi: nat, ps: seq<Pair>, all: seq<Arg>)
    requires |ps| > 1 && forall pr <- ps :: ValidPair(pr)
    requires At(doc, p + |RenderPair(ps[0])| + 1, RenderArgs(ps[1..]))
    requires doc[p + |RenderPair(ps[0])|] == SPACE
    requires p + |RenderPair(ps[0])| + 1 + |RenderArgs(ps[1..])| <= hi <= |doc|
    requires |all| < MAX_ARGS
    ensures ArgsFrom(doc, p + |RenderPair(ps[0])|, hi, Between(all))
         == Resume(doc, p + |RenderPair(ps[0])| + 1 + |RenderArgs(ps[1..])|, hi, all + ArgSpans(ps[1..], p + |RenderPair(ps[0])| + 1))
    decreases |ps|, 0
  {
    var q := p + |RenderPair(ps[0])| + 1;
    RenderFirstByte(doc, q, ps[1..]);
    Separator(doc, q - 1, hi, all);
    RenderRun(doc, q, hi, ps[1..], all);
  }

  lemma FullPrefix(doc: seq<byte>, e: nat, hi: nat, all: seq<Arg>, more: seq<Arg>)
    requires |all| == MAX_ARGS && e <= hi <= |doc|
    ensures Resume(doc, e, hi, all + more) == all
  {
    assert (all + more)[..MAX_ARGS] == all;
  }


  /** The key and the value of a rendered pair, as slices. */
  lemma PairSlices(doc: seq<byte>, p: nat, pr: Pair)
    requires At(doc, p, RenderPair(pr))
    ensures At(doc, p, pr.key) && At(doc, p + |pr.key| + 2, pr.value)
  {
    assert RenderPair(pr) == (pr.key + [EQ, QUOTE]) + (pr.value + [QUOTE]);
    AtConcat(doc, p, pr.key + [EQ, QUOTE], pr.value + [QUOTE]);
    AtConcat(doc, p, pr.key, [EQ, QUOTE]);
    AtConcat(doc, p + |pr.key| + 2, pr.value, [QUOTE]);
  }

  /** The recorded pair `a` has exactly the key and value of `pr`. */
  predicate Holds(doc: seq<byte>, a: Arg, pr: Pair) {
    ArgWithin(doc, a) && KeyOf(doc, a) == pr.key && ValueOf(doc, a) == pr.value
  }

  lemma FirstHolds(doc: seq<byte>, p: nat, ps: seq<Pair>)
    requires ps != [] && At(doc, p, RenderPair(ps[0]))
    ensures Holds(doc, ArgSpans(ps, p)[0], ps[0])
  {
    PairSlices(doc, p, ps[0]);
  }

  lemma {:induction false} ArgSpansMatch(doc: seq<byte>, p: nat, ps: seq<Pair>)
    requires At(doc, p, RenderArgs(ps))
    ensures |ArgSpans(ps, p)| == |ps|
    ensures forall k | 0 <= k < |ps| :: Holds(doc, ArgSpans(ps, p)[k], ps[k])
    decreases |ps|
  {
    if ps != [] {
      var x := RenderPair(ps[0]);
      var spans := ArgSpans(ps, p);
      var tail := ArgSpans(ps[1..], p + |x| + 1);
      assert spans == [spans[0]] + tail;
      if |ps| == 1 {
        FirstHolds(doc, p, ps);
      } else {
        RenderSplit(doc, p, ps);
        FirstHolds(doc, p, ps);
        ArgSpansMatch(doc, p + |x| + 1, ps[1..]);
        forall k | 1 <= k < |ps| ensures Holds(doc, spans[k], ps[k]) {
          assert spans[k] == tail[k - 1] && ps[k] == ps[1..][k - 1];
        }
      }
    }
  }

  lemma ArgSpansContents(doc: seq<byte>, p: nat, ps: seq<Pair>)
    requires At(doc, p, RenderArgs(ps))
    ensures |ArgSpans(ps, p)| == |ps|
    ensures forall a <- ArgSpans(ps, p) :: ArgWithin(doc, a)
    ensures Contents(doc, ArgSpans(ps, p)) == ps
  {
    ArgSpansMatch(doc, p, ps);
    var spans := ArgSpans(ps, p);
    assert forall k | 0 <= k < |ps| :: Holds(doc, spans[k], ps[k]);
  }

  /**
    Tokenizing the text of up to MAX_ARGS pairs gives back exactly those
    pairs; of more pairs it gives back the first MAX_ARGS (a 9th is dropped).
  */
  lemma {:induction false} TokenizeRender(doc: seq<byte>, lo: nat, hi: nat, ps: seq<Pair>)
    requires forall pr <- ps :: ValidPair(pr)
    requires At(doc, lo, RenderArgs(ps)) && hi == lo + |RenderArgs(ps)|
    ensures |Tokenize(doc, lo, hi)| == Min(|ps|, MAX_ARGS)
    ensures forall a <- Tokenize(doc, lo, hi) :: ArgWithin(doc, a)
    ensures Contents(doc, Tokenize(doc, lo, hi)) == ps[..Min(|ps|, MAX_ARGS)]
  {
    ArgSpansContents(doc, lo, ps);
    var spans := ArgSpans(ps, lo);
    var r := Tokenize(doc, lo, hi);
    if ps == [] {
      assert r == [];
    } else {
      TokenizeFirstByte(doc, lo, hi, ps);
      RenderRun(doc, lo, hi, ps, []);
      assert r == spans[..Min(|ps|, MAX_ARGS)];
      var c := Contents(doc, spans);
      forall k | 0 <= k < |r| ensures Contents(doc, r)[k] == ps[k] {
        assert r[k] == spans[k];
        assert c[k] == ps[k];
      }
    }
  }

  /** The first key byte of rendered pairs starts the first key. */
  lemma TokenizeFirstByte(doc: seq<byte>, lo: nat, hi: nat, ps: seq<Pair>)
    requires |ps| > 0 && ValidPair(ps[0])
    requires At(doc, lo, RenderArgs(ps)) && lo + |RenderArgs(ps)| <= hi <= |doc|
    ensures Tokenize(doc, lo, hi) == ArgsFrom(doc, lo + 1, hi, ArgState(KeyRun, lo, 1, None, 0, []))
  {
    RenderFirstByte(doc, lo, ps);
  }

  // ---------------------------------------------------------------------
  // Where tokenizing stops

  /** Recorded pairs are never taken back: the run only appends. */
  lemma {:induction false} ArgsFromKeeps(doc: seq<byte>, i: nat, hi: nat, s: ArgState)
    requires i <= hi <= |doc| && |s.argv| < MAX_ARGS
    ensures s.argv <= ArgsFrom(doc, i, hi, s)
    decreases hi - i
  {
    if i < hi {
      match Step(doc[i], i, s)
      case Done(_) =>
      case Go(t) =>
        ArgsFromKeeps(doc, i + 1, hi, t);
    }
  }

  /** Up to MAX_ARGS - 1 rendered pairs: they are recorded, and the run goes on after them. */
  lemma TokenizePrefix(doc: seq<byte>, lo: nat, hi: nat, ps: seq<Pair>)
    requires 0 < |ps| < MAX_ARGS && forall pr <- ps :: ValidPair(pr)
    requires At(doc, lo, RenderArgs(ps)) && lo + |RenderArgs(ps)| <= hi <= |doc|
    ensures |ArgSpans(ps, lo)| == |ps| && forall a <- ArgSpans(ps, lo) :: ArgWithin(doc, a)
    ensures Contents(doc, ArgSpans(ps, lo)) == ps
    ensures Tokenize(doc, lo, hi) == ArgsFrom(doc, lo + |RenderArgs(ps)|, hi, Between(ArgSpans(ps, lo)))
  {
    ArgSpansContents(doc, lo, ps);
    TokenizeFirstByte(doc, lo, hi, ps);
    RenderRun(doc, lo, hi, ps, []);
    assert [] + ArgSpans(ps, lo) == ArgSpans(ps, lo);
  }

  /** The bytes of ` key=`, by index. */
  lemma KeyText(doc: seq<byte>, e: nat, key: seq<byte>)
    requires |key| > 0 && EQ !in key && At(doc, e, [SPACE] + key + [EQ])
    ensures doc[e] == SPACE && doc[e + 1] == key[0] && doc[e + 1 + |key|] == EQ
    ensures forall k | e + 1 <= k < e + 1 + |key| :: doc[k] != EQ
  {
    AtConcat(doc, e, [SPACE] + key, [EQ]);
    AtConcat(doc, e, [SPACE], key);
    AtIndex(doc, e, [SPACE], 0);
    AtIndex(doc, e + 1, key, 0);
    AtIndex(doc, e + 1 + |key|, [EQ], 0);
    forall k | e + 1 <= k < e + 1 + |key| ensures doc[k] != EQ {
      AtIndex(doc, e + 1, key, k - e - 1);
      assert key[k - e - 1] in key;
    }
  }

  /** A space, then a key and its `=`, after recorded pairs: the machine waits for the opening quote. */
  lemma KeyAfter(doc: seq<byte>, e: nat, hi: nat, all: seq<Arg>, key: seq<byte>)
    requires |all| < MAX_ARGS && |key| > 0 && !IsSpace(key[0]) && EQ !in key
    requires At(doc, e, [SPACE] + key + [EQ]) && e + |key| + 2 <= hi <= |doc|
    ensures ArgsFrom(doc, e, hi, Between(all)) == ArgsFrom(doc, e + |key| + 2, hi, ArgState(ExpectQuote, e + 1, |key|, None, 0, all))
  {
    KeyText(doc, e, key);
    Separator(doc, e, hi, all);
    var s := ArgState(KeyRun, e + 1, 1, None, 0, all);
    KeyBytes(doc, e + 2, e + 1 + |key|, hi, s);
    assert Step(doc[e + 1 + |key|], e + 1 + |key|, s.(keyLen := |key|)) == Go(s.(keyLen := |key|, status := ExpectQuote));
  }

  /** After recorded pairs: ` key=` and a byte other than `"` end the run with those pairs. */
  lemma StopAfter(doc: seq<byte>, e: nat, hi: nat, all: seq<Arg>, key: seq<byte>, b: byte)
    requires |all| < MAX_ARGS && |key| > 0 && !IsSpace(key[0]) && EQ !in key && b != QUOTE
    requires At(doc, e, [SPACE] + key + [EQ] + [b]) && e + |key| + 3 <= hi <= |doc|
    ensures ArgsFrom(doc, e, hi, Between(all)) == all
  {
    AtConcat(doc, e, [SPACE] + key + [EQ], [b]);
    AtIndex(doc, e + |key| + 2, [b], 0);
    KeyAfter(doc, e, hi, all, key);
    var s := ArgState(ExpectQuote, e + 1, |key|, None, 0, all);
    assert Step(doc[e + |key| + 2], e + |key| + 2, s) == Done(all);
  }

  /** After recorded pairs: ` key="` and a value with no closing quote up to `hi` add nothing. */
  lemma UnclosedAfter(doc: seq<byte>, e: nat, hi: nat, all: seq<Arg>, key: seq<byte>, v: seq<byte>)
    requires |all| < MAX_ARGS && |key| > 0 && !IsSpace(key[0]) && EQ !in key && QUOTE !in v
    requires At(doc, e, [SPACE] + key + [EQ] + ([QUOTE] + v)) && hi == e + |key| + 3 + |v| <= |doc|
    ensures ArgsFrom(doc, e, hi, Between(all)) == all
  {
    var q := e + |key| + 2;
    AtConcat(doc, e, [SPACE] + key + [EQ], [QUOTE] + v);
    OpenQuoteAt(doc, q, v);
    KeyAfter(doc, e, hi, all, key);
    var s := ArgState(ValueRun, e + 1, |key|, None, 0, all);
    assert Step(doc[q], q, s.(status := ExpectQuote)) == Go(s);
    ValueBytes(doc, q + 1, hi, hi, s);
  }

  /**
    What comes before a pair in the region: nothing for the first pair (the
    first key starts at the region start), otherwise the pairs before it and
    a space.
  */
  function Lead(ps: seq<Pair>): seq<byte> {
    if ps == [] then [] else RenderArgs(ps) + [SPACE]
  }

  /** The first key runs from the region start to its `=`: the machine then waits for the opening quote. */
  lemma FirstKeyRun(doc: seq<byte>, lo: nat, hi: nat, key: seq<byte>)
    requires EQ !in key && At(doc, lo, key + [EQ]) && lo + |key| + 1 <= hi <= |doc|
    ensures Tokenize(doc, lo, hi) == ArgsFrom(doc, lo + |key| + 1, hi, ArgState(ExpectQuote, lo, |key|, None, 0, []))
  {
    KeyEqAt(doc, lo, key);
    var n := |key|;
    KeyThenEq(doc, lo, n, hi);
    assert Tokenize(doc, lo, hi) == ArgsFrom(doc, lo + n + 1, hi, ArgState(ExpectQuote, lo, n, None, 0, []));
  }

  /** A key without `=` and its `=`, by index. */
  lemma KeyEqAt(doc: seq<byte>, lo: nat, key: seq<byte>)
    requires EQ !in key && At(doc, lo, key + [EQ])
    ensures lo + |key| < |doc| && doc[lo + |key|] == EQ && forall k | lo <= k < lo + |key| :: doc[k] != EQ
  {
    AtConcat(doc, lo, key, [EQ]);
    AtIndex(doc, lo + |key|, [EQ], 0);
    forall k | lo <= k < lo + |key| ensures doc[k] != EQ {
      AtIndex(doc, lo, key, k - lo);
      assert key[k - lo] in key;
    }
  }

  /** FirstKeyRun by index: no `=` in the `n` bytes from `lo`, and `=` right after them. */
  lemma KeyThenEq(doc: seq<byte>, lo: nat, n: nat, hi: nat)
    requires lo + n < hi <= |doc| && doc[lo + n] == EQ && forall k | lo <= k < lo + n :: doc[k] != EQ
    ensures Tokenize(doc, lo, hi) == ArgsFrom(doc, lo + n + 1, hi, ArgState(ExpectQuote, lo, n, None, 0, []))
  {
    KeyBytes(doc, lo, lo + n, hi, Start(lo));
    var s1 := Start(lo).(keyLen := n);
    assert Step(doc[lo + n], lo + n, s1) == Go(s1.(status := ExpectQuote));
  }

  /**
    A byte other than `"` right after a key's `=` ends tokenizing: the pairs
    before it are kept and nothing after it is read. For the first pair the
    key is everything from the region start to the `=`.
  */
  lemma TokenizeStops(doc: seq<byte>, lo: nat, hi: nat, ps: seq<Pair>, key: seq<byte>, b: byte)
    requires |ps| < MAX_ARGS && forall pr <- ps :: ValidPair(pr)
    requires EQ !in key && b != QUOTE && (ps != [] ==> |key| > 0 && !IsSpace(key[0]))
    requires At(doc, lo, Lead(ps) + key + [EQ, b]) && lo + |Lead(ps)| + |key| + 2 <= hi <= |doc|
    ensures forall a <- Tokenize(doc, lo, hi) :: ArgWithin(doc, a)
    ensures Contents(doc, Tokenize(doc, lo, hi)) == ps
  {
    if ps == [] {
      FirstStops(doc, lo, hi, key, b);
    } else {
      LaterStops(doc, lo, hi, ps, key, b);
    }
  }

  /** TokenizeStops for the first pair. */
  lemma FirstStops(doc: seq<byte>, lo: nat, hi: nat, key: seq<byte>, b: byte)
    requires EQ !in key && b != QUOTE
    requires At(doc, lo, key + [EQ, b]) && lo + |key| + 2 <= hi <= |doc|
    ensures Tokenize(doc, lo, hi) == []
  {
    assert key + [EQ, b] == (key + [EQ]) + [b];
    AtConcat(doc, lo, key + [EQ], [b]);
    AtIndex(doc, lo + |key| + 1, [b], 0);
    FirstKeyRun(doc, lo, hi, key);
  }

  /** TokenizeStops after recorded pairs. */
  lemma LaterStops(doc: seq<byte>, lo: nat, hi: nat, ps: seq<Pair>, key: seq<byte>, b: byte)
    requires ps != [] && |ps| < MAX_ARGS && forall pr <- ps :: ValidPair(pr)
    requires EQ !in key && b != QUOTE && |key| > 0 && !IsSpace(key[0])
    requires At(doc, lo, Lead(ps) + key + [EQ, b]) && lo + |Lead(ps)| + |key| + 2 <= hi <= |doc|
    ensures Contents(doc, Tokenize(doc, lo, hi)) == ps
  {
    var r := RenderArgs(ps);
    assert Lead(ps) + key + [EQ, b] == r + ([SPACE] + key + [EQ] + [b]);
    AtConcat(doc, lo, r, [SPACE] + key + [EQ] + [b]);
    TokenizePrefix(doc, lo, hi, ps);
    StopAfter(doc, lo + |r|, hi, ArgSpans(ps, lo), key, b);
  }

  /**
    A pair whose value is still open when the region ends is dropped; the
    pairs before it are kept. For the first pair the key is everything from
    the region start to the `=`.
  */
  lemma TokenizeDropsUnclosed(doc: seq<byte>, lo: nat, hi: nat, ps: seq<Pair>, key: seq<byte>, v: seq<byte>)
    requires |ps| < MAX_ARGS && forall pr <- ps :: ValidPair(pr)
    requires EQ !in key && QUOTE !in v && (ps != [] ==> |key| > 0 && !IsSpace(key[0]))
    requires At(doc, lo, Lead(ps) + key + [EQ, QUOTE] + v)
    requires hi == lo + |Lead(ps)| + |key| + 2 + |v|
    ensures forall a <- Tokenize(doc, lo, hi) :: ArgWithin(doc, a)
    ensures Contents(doc, Tokenize(doc, lo, hi)) == ps
  {
    if ps == [] {
      FirstUnclosed(doc, lo, hi, key, v);
    } else {
      LaterUnclosed(doc, lo, hi, ps, key, v);
    }
  }

  /** An opening quote followed by a value holding no quote: no byte after the quote closes it. */
  lemma OpenQuoteAt(doc: seq<byte>, q: nat, v: seq<byte>)
    requires QUOTE !in v && At(doc, q, [QUOTE] + v)
    ensures doc[q] == QUOTE && q + 1 + |v| <= |doc|
    ensures forall k | q + 1 <= k < q + 1 + |v| :: doc[k] != QUOTE
  {
    AtConcat(doc, q, [QUOTE], v);
    AtIndex(doc, q, [QUOTE], 0);
    forall k | q + 1 <= k < q + 1 + |v| ensures doc[k] != QUOTE {
      AtIndex(doc, q + 1, v, k - q - 1);
      assert v[k - q - 1] in v;
    }
  }

  /** TokenizeDropsUnclosed for the first pair. */
  lemma FirstUnclosed(doc: seq<byte>, lo: nat, hi: nat, key: seq<byte>, v: seq<byte>)
    requires EQ !in key && QUOTE !in v
    requires At(doc, lo, key + [EQ, QUOTE] + v) && hi == lo + |key| + 2 + |v|
    ensures Tokenize(doc, lo, hi) == []
  {
    var q := lo + |key| + 1;
    assert key + [EQ, QUOTE] + v == (key + [EQ]) + ([QUOTE] + v);
    AtConcat(doc, lo, key + [EQ], [QUOTE] + v);
    OpenQuoteAt(doc, q, v);
    FirstKeyRun(doc, lo, hi, key);
    var s := ArgState(ValueRun, lo, |key|, None, 0, []);
    assert Step(doc[q], q, s.(status := ExpectQuote)) == Go(s);
    ValueBytes(doc, q + 1, hi, hi, s);
  }

  /** TokenizeDropsUnclosed after recorded pairs. */
  lemma LaterUnclosed(doc: seq<byte>, lo: nat, hi: nat, ps: seq<Pair>, key: seq<byte>, v: seq<byte>)
    requires ps != [] && |ps| < MAX_ARGS && forall pr <- ps :: ValidPair(pr)
    requires EQ !in key && QUOTE !in v && |key| > 0 && !IsSpace(key[0])
    requires At(doc, lo, Lead(ps) + key + [EQ, QUOTE] + v)
    requires hi == lo + |Lead(ps)| + |key| + 2 + |v|
    ensures Contents(doc, Tokenize(doc, lo, hi)) == ps
  {
    var r := RenderArgs(ps);
    assert Lead(ps) + key + [EQ, QUOTE] + v == r + ([SPACE] + key + [EQ] + ([QUOTE] + v));
    AtConcat(doc, lo, r, [SPACE] + key + [EQ] + ([QUOTE] + v));
    TokenizePrefix(doc, lo, hi, ps);
    UnclosedAfter(doc, lo + |r|, hi, ArgSpans(ps, lo), key, v);
  }
}
