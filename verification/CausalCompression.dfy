/** Run-length compression of causal-trie proof paths (src/merkle.rs): runs of
    canonical empty siblings become one entry, and the decompressor rejects
    every encoding that the compressor would not have produced. */
module CausalCompression {
  import opened CausalProofs
  import opened CausalTrie
  import opened Sequences
  import opened Wrappers

  datatype CompressedStep = Step(step: ProofStep) | EmptyRun(startDepth: nat, length: nat)

  datatype ProofError =
    | InvalidDepth(depth: nat)
    | PathLengthMismatch(decompressed: nat, expected: nat)
    | Truncated
    | ExcessData
    | RunBelowRoot
    | NonContiguousRun(expected: nat, actual: nat)
    | NonMaximalRun
    | NonCanonicalStep

  datatype Result<T> = Ok(value: T) | Err(error: ProofError)

  /** The conversion of a length or depth to 16 bits, saturating. */
  function U16(n: nat): nat {
    if n <= 65535 then n else 65535
  }

  predicate IsEmptyStep(s: ProofStep, d: nat) {
    s.count == 0 && d <= CAUSAL_DEPTH && s.hash == EmptyHash(d)
  }

  /** The empty siblings at depths start, start - 1, ..., start - length + 1. */
  function EmptySteps(start: nat, length: nat): (r: seq<ProofStep>)
    requires length <= start <= CAUSAL_DEPTH
    ensures |r| == length
  {
    seq(length, j requires 0 <= j < length => ProofStep(EmptyHash(start - j), 0))
  }

  // ---- compressing ----

  /** The entry for a finished run of empties that ends just above depth d. */
  function Flush(run: nat, d: nat): seq<CompressedStep> {
    if run == 0 then [] else [EmptyRun(d + run, run)]
  }

  /** The encoding of path, whose first sibling has depth d, after run empties that are not written yet. */
  function Encode(run: nat, d: nat, path: seq<ProofStep>): seq<CompressedStep>
    requires |path| == d
    decreases path
  {
    if path == [] then Flush(run, d)
    else if IsEmptyStep(path[0], d) then Encode(run + 1, d - 1, path[1..])
    else Flush(run, d) + [Step(path[0])] + Encode(0, d - 1, path[1..])
  }

  /** What is written for any path whatever: depths stop at 0 and lengths at 16 bits.  start is where
      the unwritten run began. */
  function Compressed(run: nat, start: nat, d: nat, path: seq<ProofStep>): seq<CompressedStep>
    decreases path
  {
    if path == [] then Written(run, start)
    else
      var next := if d > 0 then d - 1 else 0;
      if IsEmptyStep(path[0], d) then Compressed(U16(run + 1), if run == 0 then d else start, next, path[1..])
      else Written(run, start) + [Step(path[0])] + Compressed(0, d, next, path[1..])
  }

  function Written(run: nat, start: nat): seq<CompressedStep> {
    if run == 0 then [] else [EmptyRun(U16(start), run)]
  }

  method CompressCausalPath(t: nat, path: seq<ProofStep>) returns (out: seq<CompressedStep>)
    ensures out == Compressed(0, t, t, path)
  {
    out := [];
    var runStart: Option<nat>, runLen: nat := None, 0;
    ghost var target := Compressed(0, t, t, path);
    ghost var start: nat := t;
    assert path[0..] == path;
    for i := 0 to |path|
      invariant runStart == if runLen == 0 then None else Some(start)
      invariant out + Compressed(runLen, start, if i <= t then t - i else 0, path[i..]) == target
    {
      var step := path[i];
      var siblingDepth := if i <= t then t - i else 0;
      assert path[i..][0] == step && path[i..][1..] == path[i + 1..];
      ghost var rest := path[i..];
      if IsEmptyStep(step, siblingDepth) {
        EmptyWritten(runLen, start, siblingDepth, rest);
        if runStart.None? {
          runStart, runLen, start := Some(siblingDepth), 1, siblingDepth;
        } else {
          runLen := U16(runLen + 1);
        }
      } else {
        StepWritten(out, runLen, start, siblingDepth, rest);
        assert runStart.None? ==> out + Written(runLen, start) == out;
        if runStart.Some? {
          out := out + [EmptyRun(U16(runStart.value), runLen)];
          runStart, runLen := None, 0;
        }
        out, start := out + [Step(step)], siblingDepth;
      }
    }
    if runStart.Some? {
      out := out + [EmptyRun(U16(runStart.value), runLen)];
    }
  }

  lemma EmptyWritten(run: nat, start: nat, d: nat, path: seq<ProofStep>)
    requires path != [] && IsEmptyStep(path[0], d)
    ensures Compressed(run, start, d, path) ==
            Compressed(U16(run + 1), if run == 0 then d else start, if d > 0 then d - 1 else 0, path[1..])
  {
  }

  lemma StepWritten(out: seq<CompressedStep>, run: nat, start: nat, d: nat, path: seq<ProofStep>)
    requires path != [] && !IsEmptyStep(path[0], d)
    ensures out + Compressed(run, start, d, path) ==
            out + Written(run, start) + [Step(path[0])] + Compressed(0, d, if d > 0 then d - 1 else 0, path[1..])
  {
  }

  /** On a path as long as its terminal depth this is the plain encoding. */
  lemma {:induction false} CompressedIsEncoded(run: nat, start: nat, d: nat, path: seq<ProofStep>)
    requires |path| == d && d + run <= CAUSAL_DEPTH && (run > 0 ==> start == d + run)
    ensures Compressed(run, start, d, path) == Encode(run, d, path)
    decreases path
  {
    if path != [] {
      if IsEmptyStep(path[0], d) {
        CompressedIsEncoded(run + 1, d + run, d - 1, path[1..]);
      } else {
        CompressedIsEncoded(0, d, d - 1, path[1..]);
      }
    }
  }

  // ---- decompressing ----

  function Prepend(front: seq<ProofStep>, rest: Result<seq<ProofStep>>): Result<seq<ProofStep>> {
    if rest.Ok? then Ok(front + rest.value) else rest
  }

  /** What the entries cs add to the n steps already decoded towards t; afterRun says that the last entry was a run. */
  function Decode(t: nat, n: nat, afterRun: bool, cs: seq<CompressedStep>): Result<seq<ProofStep>>
    requires n <= t <= CAUSAL_DEPTH
    decreases cs
  {
    if cs == [] then if n == t then Ok([]) else Err(PathLengthMismatch(n, t))
    else match cs[0]
      case Step(s) =>
        if n >= t then Err(ExcessData)
        else if IsEmptyStep(s, t - n) then Err(NonCanonicalStep)
        else Prepend([s], Decode(t, n + 1, false, cs[1..]))
      case EmptyRun(start, len) =>
        if afterRun then Err(NonMaximalRun)
        else if len == 0 then Err(Truncated)
        else if start == 0 || start > CAUSAL_DEPTH then Err(InvalidDepth(start))
        else if len > start then Err(RunBelowRoot)
        else if start != t - n then Err(NonContiguousRun(t - n, start))
        else Prepend(EmptySteps(start, len), Decode(t, n + len, true, cs[1..]))
  }

  method DecompressCausalPath(t: nat, cs: seq<CompressedStep>) returns (r: Result<seq<ProofStep>>)
    ensures r == if t > CAUSAL_DEPTH then Err(InvalidDepth(U16(t))) else Decode(t, 0, false, cs)
  {
    if t > CAUSAL_DEPTH {
      return Err(InvalidDepth(U16(t)));
    }
    var out: seq<ProofStep>, prevWasEmptyRun := [], false;
    PrependNothing(Decode(t, 0, false, cs));
    assert cs[0..] == cs;
    for i := 0 to |cs|
      invariant |out| <= t
      invariant Decode(t, 0, false, cs) == Prepend(out, Decode(t, |out|, prevWasEmptyRun, cs[i..]))
    {
      assert cs[i..][0] == cs[i] && cs[i..][1..] == cs[i + 1..];
      ghost var before := out;
      match cs[i]
      case Step(s) =>
        if |out| >= t {
          return Err(ExcessData);
        }
        if IsEmptyStep(s, t - |out|) {
          return Err(NonCanonicalStep);
        }
        prevWasEmptyRun := false;
        out := out + [s];
        PrependTwice(before, [s], Decode(t, |out|, false, cs[i + 1..]));
      case EmptyRun(start, len) =>
        if prevWasEmptyRun {
          return Err(NonMaximalRun);
        }
        prevWasEmptyRun := true;
        if len == 0 {
          return Err(Truncated);
        }
        if start == 0 || start > CAUSAL_DEPTH {
          return Err(InvalidDepth(start));
        }
        if len > start {
          return Err(RunBelowRoot);
        }
        if start != t - |out| {
          return Err(NonContiguousRun(t - |out|, start));
        }
        for j := 0 to len
          invariant out == before + EmptySteps(start, len)[..j]
        {
          out := out + [ProofStep(EmptyHash(start - j), 0)];
        }
        assert EmptySteps(start, len)[..len] == EmptySteps(start, len);
        PrependTwice(before, EmptySteps(start, len), Decode(t, |out|, true, cs[i + 1..]));
    }
    if |out| != t {
      return Err(PathLengthMismatch(|out|, t));
    }
    assert out + [] == out;
    r := Ok(out);
  }

  lemma PrependTwice(a: seq<ProofStep>, b: seq<ProofStep>, r: Result<seq<ProofStep>>)
    ensures Prepend(a, Prepend(b, r)) == Prepend(a + b, r)
  {
    if r.Ok? { assert a + (b + r.value) == a + b + r.value; }
  }

  lemma PrependNothing(r: Result<seq<ProofStep>>)
    ensures Prepend([], r) == r
  {
    if r.Ok? { assert [] + r.value == r.value; }
  }

  // ---- the round trips ----

  lemma EmptyStepsGrow(d: nat, run: nat, path: seq<ProofStep>)
    requires 0 < d && d + run <= CAUSAL_DEPTH && path != [] && IsEmptyStep(path[0], d)
    ensures EmptySteps(d + run, run + 1) + path[1..] == EmptySteps(d + run, run) + path
  {
    assert EmptySteps(d + run, run + 1) == EmptySteps(d + run, run) + [path[0]];
    assert path == [path[0]] + path[1..];
  }

  lemma FlushDecodes(t: nat, d: nat, run: nat, rest: seq<CompressedStep>, tail: seq<ProofStep>)
    requires d + run <= t <= CAUSAL_DEPTH
    requires rest != [] ==> rest[0].Step?
    requires Decode(t, t - d, false, rest) == Ok(tail)
    ensures Decode(t, t - d - run, false, Flush(run, d) + rest) == Ok(EmptySteps(d + run, run) + tail)
  {
    if run == 0 {
      assert Flush(run, d) + rest == rest;
      assert EmptySteps(d, 0) + tail == tail;
    } else {
      var cs := Flush(run, d) + rest;
      assert cs[0] == EmptyRun(d + run, run) && cs[1..] == rest;
      assert Decode(t, t - d, true, rest) == Decode(t, t - d, false, rest);
    }
  }

  lemma {:induction false} DecodeEncode(t: nat, run: nat, d: nat, path: seq<ProofStep>)
    requires |path| == d && d + run <= t <= CAUSAL_DEPTH
    ensures Decode(t, t - d - run, false, Encode(run, d, path)) == Ok(EmptySteps(d + run, run) + path)
    decreases path
  {
    if path == [] {
      FlushDecodes(t, d, run, [], []);
      assert Flush(run, d) + [] == Flush(run, d);
    } else if IsEmptyStep(path[0], d) {
      DecodeEncode(t, run + 1, d - 1, path[1..]);
      EmptyStepsGrow(d, run, path);
    } else {
      DecodeEncode(t, 0, d - 1, path[1..]);
      assert EmptySteps(d - 1, 0) + path[1..] == path[1..];
      StepDecodes(t, run, d, path);
    }
  }

  lemma StepDecodes(t: nat, run: nat, d: nat, path: seq<ProofStep>)
    requires 0 < |path| == d && d + run <= t <= CAUSAL_DEPTH && !IsEmptyStep(path[0], d)
    requires Decode(t, t - d + 1, false, Encode(0, d - 1, path[1..])) == Ok(path[1..])
    ensures Decode(t, t - d - run, false, Encode(run, d, path)) == Ok(EmptySteps(d + run, run) + path)
  {
    var tail := Encode(0, d - 1, path[1..]);
    var rest := [Step(path[0])] + tail;
    assert rest[1..] == tail && path == [path[0]] + path[1..];
    assert Decode(t, t - d, false, rest) == Ok(path);
    FlushDecodes(t, d, run, rest, path);
    Reassociate(Flush(run, d), [Step(path[0])], tail);
  }

  /** Decompressing a compressed path gives the path back. */
  lemma CompressedPathReturns(path: seq<ProofStep>)
    requires |path| <= CAUSAL_DEPTH
    ensures Decode(|path|, 0, false, Encode(0, |path|, path)) == Ok(path)
  {
    DecodeWhole(|path|, 0, path);
  }

  lemma DecodeWhole(t: nat, none: nat, path: seq<ProofStep>)
    requires none == 0 && |path| == t <= CAUSAL_DEPTH
    ensures Decode(t, none, false, Encode(none, t, path)) == Ok(path)
  {
    DecodeEncode(t, none, t, path);
    assert EmptySteps(t, none) == [];
    assert [] + path == path;
  }

  lemma {:induction false} EncodeEmptySteps(run: nat, start: nat, len: nat, path: seq<ProofStep>)
    requires len <= start <= CAUSAL_DEPTH && |path| == start - len
    ensures Encode(run, start, EmptySteps(start, len) + path) == Encode(run + len, start - len, path)
    decreases len
  {
    var whole := EmptySteps(start, len) + path;
    if len == 0 {
      assert whole == path;
    } else {
      assert whole[0] == ProofStep(EmptyHash(start), 0);
      assert whole[1..] == EmptySteps(start - 1, len - 1) + path;
      EncodeEmptySteps(run + 1, start - 1, len - 1, path);
    }
  }

  lemma {:induction false} EncodeDecode(t: nat, n: nat, afterRun: bool, cs: seq<CompressedStep>, path: seq<ProofStep>)
    requires n <= t <= CAUSAL_DEPTH && Decode(t, n, afterRun, cs) == Ok(path)
    ensures |path| == t - n && Encode(0, t - n, path) == cs
    ensures afterRun && path != [] ==> !IsEmptyStep(path[0], t - n)
    decreases cs
  {
    if cs != [] {
      assert cs == [cs[0]] + cs[1..];
      match cs[0]
      case Step(s) =>
        EncodeDecode(t, n + 1, false, cs[1..], path[1..]);
      case EmptyRun(start, len) =>
        var rest := path[len..];
        assert path == EmptySteps(start, len) + rest;
        EncodeDecode(t, n + len, true, cs[1..], rest);
        RunEncodes(start, len, rest);
    }
  }

  /** A maximal run in front of a path becomes one entry. */
  lemma RunEncodes(start: nat, len: nat, rest: seq<ProofStep>)
    requires 0 < len <= start <= CAUSAL_DEPTH && |rest| == start - len
    requires rest != [] ==> !IsEmptyStep(rest[0], start - len)
    ensures Encode(0, start, EmptySteps(start, len) + rest) == [EmptyRun(start, len)] + Encode(0, start - len, rest)
  {
    EncodeEmptySteps(0, start, len, rest);
    RunThenStep(len, start - len, rest);
  }

  lemma RunThenStep(run: nat, d: nat, path: seq<ProofStep>)
    requires |path| == d && (path != [] ==> !IsEmptyStep(path[0], d))
    ensures Encode(run, d, path) == Flush(run, d) + Encode(0, d, path)
  {
    if path != [] {
      assert Flush(run, d) + [Step(path[0])] + Encode(0, d - 1, path[1..]) ==
             Flush(run, d) + ([Step(path[0])] + Encode(0, d - 1, path[1..]));
      assert Flush(0, d) + [Step(path[0])] == [Step(path[0])];
    }
  }

  /** Whatever the decompressor accepts is what the compressor writes for the path it returns. */
  lemma AcceptedEncodingIsCanonical(t: nat, cs: seq<CompressedStep>, path: seq<ProofStep>)
    requires t <= CAUSAL_DEPTH && Decode(t, 0, false, cs) == Ok(path)
    ensures |path| == t && Encode(0, t, path) == cs
  {
    EncodeDecode(t, 0, false, cs, path);
  }

  // ---- paths of the wrong length ----

  /** The number of steps that entries stand for. */
  function Expanded(cs: seq<CompressedStep>): nat {
    if cs == [] then 0
    else Expanded(cs[..|cs| - 1]) + match cs[|cs| - 1] case Step(_) => 1 case EmptyRun(_, n) => n
  }

  lemma {:induction false} ExpandedAppend(a: seq<CompressedStep>, b: seq<CompressedStep>)
    ensures Expanded(a + b) == Expanded(a) + Expanded(b)
    decreases |b|
  {
    if b == [] {
      assert a + b == a;
    } else {
      var front := b[..|b| - 1];
      ExpandedAppend(a, front);
      assert (a + b)[..|a + b| - 1] == a + front;
    }
  }

  lemma ExpandedOne(c: CompressedStep)
    ensures Expanded([c]) == match c case Step(_) => 1 case EmptyRun(_, n) => n
  {
    assert [c][..0] == [];
  }

  /** The entries stand for the whole path, unless a run fills its 16 bits. */
  lemma {:induction false} CompressedLength(run: nat, start: nat, d: nat, path: seq<ProofStep>)
    requires run <= 65535
    ensures Expanded(Compressed(run, start, d, path)) <= run + |path|
    ensures Expanded(Compressed(run, start, d, path)) >= U16(run + |path|)
    decreases path
  {
    if run > 0 { ExpandedOne(EmptyRun(U16(start), run)); }
    if path != [] {
      var next := if d > 0 then d - 1 else 0;
      if IsEmptyStep(path[0], d) {
        CompressedLength(U16(run + 1), if run == 0 then d else start, next, path[1..]);
      } else {
        var rest := Compressed(0, d, next, path[1..]);
        CompressedLength(0, d, next, path[1..]);
        ExpandedOne(Step(path[0]));
        ExpandedAppend(Written(run, start), [Step(path[0])]);
        ExpandedAppend(Written(run, start) + [Step(path[0])], rest);
      }
    }
  }

  lemma {:induction false} DecodedLength(t: nat, n: nat, afterRun: bool, cs: seq<CompressedStep>)
    requires n <= t <= CAUSAL_DEPTH && Decode(t, n, afterRun, cs).Ok?
    ensures Expanded(cs) == t - n
    decreases cs
  {
    if cs != [] {
      ExpandedOne(cs[0]);
      ExpandedAppend([cs[0]], cs[1..]);
      assert cs == [cs[0]] + cs[1..];
      match cs[0]
      case Step(_) => DecodedLength(t, n + 1, false, cs[1..]);
      case EmptyRun(_, len) => DecodedLength(t, n + len, true, cs[1..]);
    }
  }

  /** Compressing and decompressing returns the path exactly when its length is the terminal depth, and
      is an error otherwise. */
  lemma ReturnsExactly(t: nat, path: seq<ProofStep>)
    requires t <= CAUSAL_DEPTH
    ensures var r := Decode(t, 0, false, Compressed(0, t, t, path));
      if |path| == t then r == Ok(path) else r.Err?
  {
    var cs := Compressed(0, t, t, path);
    if |path| == t {
      CompressedIsEncoded(0, t, t, path);
      CompressedPathReturns(path);
    } else if Decode(t, 0, false, cs).Ok? {
      DecodedLength(t, 0, false, cs);
      CompressedLength(0, t, t, path);
    }
  }

  // ---- what each error means ----

  /** Entry i is at fault, or, at the end, the length is: n steps were decoded before the entries, and
      afterRun says that a run came last. */
  ghost predicate Fault(t: nat, n: nat, afterRun: bool, cs: seq<CompressedStep>, i: nat, e: ProofError)
    requires t <= CAUSAL_DEPTH
  {
    i <= |cs| &&
    var before: nat, ran := n + Expanded(cs[..i]), if i == 0 then afterRun else cs[i - 1].EmptyRun?;
    if i == |cs| then before != t && e == PathLengthMismatch(before, t)
    else match cs[i]
      case Step(s) => StepFault(t, before, s, e)
      case EmptyRun(start, len) => RunFault(t, before, ran, start, len, e)
  }

  ghost predicate StepFault(t: nat, before: nat, s: ProofStep, e: ProofError)
    requires t <= CAUSAL_DEPTH
  {
    match e
    case ExcessData => before >= t
    case NonCanonicalStep => before < t && s == ProofStep(EmptyHash(t - before), 0)
    case _ => false
  }

  ghost predicate RunFault(t: nat, before: nat, ran: bool, start: nat, len: nat, e: ProofError) {
    match e
    case NonMaximalRun => ran
    case Truncated => !ran && len == 0
    case InvalidDepth(x) => !ran && len > 0 && x == start && !(0 < start <= CAUSAL_DEPTH)
    case RunBelowRoot => !ran && 0 < start <= CAUSAL_DEPTH && len > start
    case NonContiguousRun(x, y) =>
      !ran && 0 < len <= start <= CAUSAL_DEPTH && x == t - before && y == start && x != y
    case _ => false
  }

  /** The fault of a later entry, seen from one entry further on. */
  lemma FaultShifts(t: nat, n: nat, afterRun: bool, cs: seq<CompressedStep>, i: nat, e: ProofError)
    requires cs != [] && t <= CAUSAL_DEPTH
    ensures var next := n + Expanded(cs[..1]);
      Fault(t, n, afterRun, cs, i + 1, e) <==> Fault(t, next, cs[0].EmptyRun?, cs[1..], i, e)
  {
    if i < |cs| {
      assert cs[..i + 1] == cs[..1] + cs[1..][..i];
      ExpandedAppend(cs[..1], cs[1..][..i]);
    }
  }

  ghost predicate Faultless(t: nat, n: nat, afterRun: bool, cs: seq<CompressedStep>, k: nat)
    requires t <= CAUSAL_DEPTH
  {
    forall i: nat, e :: i < k ==> !Fault(t, n, afterRun, cs, i, e)
  }

  /** The first entry is at fault, or is decoded and leaves the rest. */
  lemma HeadFault(t: nat, n: nat, afterRun: bool, cs: seq<CompressedStep>)
    requires n <= t <= CAUSAL_DEPTH && cs != []
    ensures var next, r := n + Expanded(cs[..1]), Decode(t, n, afterRun, cs);
      || (r.Err? && Fault(t, n, afterRun, cs, 0, r.error))
      || (&& Faultless(t, n, afterRun, cs, 1) && next <= t
          && match Decode(t, next, cs[0].EmptyRun?, cs[1..])
             case Ok(_) => r.Ok?
             case Err(e) => r == Err(e))
  {
    assert cs[..1] == [cs[0]] && cs[..0] == [];
    ExpandedOne(cs[0]);
  }

  /** The rest's first fault is the whole's. */
  lemma LaterFault(t: nat, n: nat, afterRun: bool, cs: seq<CompressedStep>, k: nat)
    requires cs != [] && t <= CAUSAL_DEPTH && Faultless(t, n, afterRun, cs, 1)
    requires Faultless(t, n + Expanded(cs[..1]), cs[0].EmptyRun?, cs[1..], k)
    ensures Faultless(t, n, afterRun, cs, k + 1)
  {
    forall i: nat, e | i < k + 1 ensures !Fault(t, n, afterRun, cs, i, e) {
      if i > 0 { FaultShifts(t, n, afterRun, cs, i - 1, e); }
    }
  }

  /** The decompressor reports the first fault there is, and succeeds when there is none. */
  lemma {:induction false} DecodeFaults(t: nat, n: nat, afterRun: bool, cs: seq<CompressedStep>)
    requires n <= t <= CAUSAL_DEPTH
    ensures match Decode(t, n, afterRun, cs)
      case Ok(_) => Faultless(t, n, afterRun, cs, |cs| + 1)
      case Err(e) => exists i: nat :: Fault(t, n, afterRun, cs, i, e) && Faultless(t, n, afterRun, cs, i)
    decreases cs
  {
    var r := Decode(t, n, afterRun, cs);
    if cs == [] {
      assert Faultless(t, n, afterRun, cs, 0);
      assert r.Err? ==> Fault(t, n, afterRun, cs, 0, r.error);
    } else {
      HeadFault(t, n, afterRun, cs);
      var next: nat, ran := n + Expanded(cs[..1]), cs[0].EmptyRun?;
      if !(r.Err? && Fault(t, n, afterRun, cs, 0, r.error)) {
        DecodeFaults(t, next, ran, cs[1..]);
        if r.Ok? {
          LaterFault(t, n, afterRun, cs, |cs|);
        } else {
          var i: nat :| Fault(t, next, ran, cs[1..], i, r.error) && Faultless(t, next, ran, cs[1..], i);
          FaultShifts(t, n, afterRun, cs, i, r.error);
          LaterFault(t, n, afterRun, cs, i);
        }
      }
    }
  }

  // ---- compressed proofs ----

  method VerifyCausalInclusionCompressed(key: Key, cs: seq<CompressedStep>, root: Hash, count: u64)
    returns (r: Result<bool>)
    ensures r == AcceptsCompressedInclusion(key, cs, root, count)
  {
    var path := DecompressCausalPath(CAUSAL_DEPTH, cs);
    if path.Err? {
      return Err(path.error);
    }
    var ok := VerifyCausalInclusion(key, path.value, root, count);
    r := Ok(ok);
  }

  function AcceptsCompressedInclusion(key: Key, cs: seq<CompressedStep>, root: Hash, count: u64): Result<bool> {
    match Decode(CAUSAL_DEPTH, 0, false, cs)
    case Err(e) => Err(e)
    case Ok(path) => Ok(AcceptsInclusion(key, path, root, count))
  }

  method VerifyCausalNonInclusionCompressed(key: Key, t: nat, cs: seq<CompressedStep>, root: Hash, count: u64)
    returns (r: Result<bool>)
    ensures r == AcceptsCompressedNonInclusion(key, t, cs, root, count)
  {
    var path := DecompressCausalPath(t, cs);
    if path.Err? {
      return Err(path.error);
    }
    var ok := VerifyCausalNonInclusion(key, t, path.value, root, count);
    r := Ok(ok);
  }

  function AcceptsCompressedNonInclusion(key: Key, t: nat, cs: seq<CompressedStep>, root: Hash,
                                         count: u64): Result<bool>
  {
    if t > CAUSAL_DEPTH then Err(InvalidDepth(U16(t)))
    else match Decode(t, 0, false, cs)
      case Err(e) => Err(e)
      case Ok(path) => Ok(AcceptsNonInclusion(key, t, path, root, count))
  }

  /** Against the root of a key set, one compressed inclusion proof is accepted per member and none otherwise. */
  lemma CompressedInclusionExact(keys: set<Key>, key: Key, cs: seq<CompressedStep>, count: u64)
    requires |keys| <= MAX_U64
    ensures AcceptsCompressedInclusion(key, cs, RootOf(keys), count) == Ok(true) <==>
            key in keys && count == |keys| && cs == Encode(0, CAUSAL_DEPTH, PathOf(keys, key, CAUSAL_DEPTH))
  {
    var own := PathOf(keys, key, CAUSAL_DEPTH);
    CompressedPathReturns(own);
    InclusionExact(keys, key, own, count);
    var r := Decode(CAUSAL_DEPTH, 0, false, cs);
    if r.Ok? {
      AcceptedEncodingIsCanonical(CAUSAL_DEPTH, cs, r.value);
      InclusionExact(keys, key, r.value, count);
    }
  }

  /** Likewise for absence: the accepted depth and encoding are those the key set determines. */
  lemma CompressedNonInclusionExact(keys: set<Key>, key: Key, t: nat, cs: seq<CompressedStep>, count: u64)
    requires |keys| <= MAX_U64
    ensures AcceptsCompressedNonInclusion(key, t, cs, RootOf(keys), count) == Ok(true) <==>
            key !in keys && count == |keys| && TerminatesAt(keys, key, t) && cs == Encode(0, t, PathOf(keys, key, t))
  {
    if t <= CAUSAL_DEPTH {
      var own := PathOf(keys, key, t);
      CompressedPathReturns(own);
      NonInclusionExact(keys, key, t, own, count);
      var r := Decode(t, 0, false, cs);
      if r.Ok? {
        AcceptedEncodingIsCanonical(t, cs, r.value);
        NonInclusionExact(keys, key, t, r.value, count);
      }
    }
  }
}
