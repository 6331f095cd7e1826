/** From chunked reads to a register value: a partial stream never becomes a usable one. */
module Capture {
  import opened Wrappers
  import opened Syntax
  import opened Evaluation
  import opened Soundness

  newtype Byte = x: int | 0 <= x < 256

  datatype Read = Chunk(bytes: seq<Byte>) | Eof | Interrupted | WouldBlock | Failed

  /** What is kept of a stream, and whether bytes of it are missing. */
  datatype Captured = Captured(bytes: seq<Byte>, truncated: bool)

  function Min(a: nat, b: nat): nat { if a < b then a else b }

  /** The promise: the prefix of at most `cap` bytes, marked exactly when bytes were lost. */
  function Capture(stream: seq<Byte>, cap: nat): Captured {
    Captured(stream[..Min(cap, |stream|)], |stream| > cap)
  }

  /** Keep what there is room for. */
  method Absorb(buf: seq<Byte>, truncated: bool, chunk: seq<Byte>, cap: nat, ghost before: seq<Byte>)
    returns (buf': seq<Byte>, truncated': bool)
    requires Captured(buf, truncated) == Capture(before, cap)
    ensures Captured(buf', truncated') == Capture(before + chunk, cap)
  {
    buf', truncated' := buf, truncated;
    if |buf| >= cap {
      truncated' := truncated || |chunk| > 0;
    } else {
      var room := cap - |buf|;
      var take := Min(|chunk|, room);
      assert before == buf;
      buf' := buf + chunk[..take];
      if take < |chunk| { truncated' := true; }
      assert buf' == (before + chunk)[..Min(cap, |before + chunk|)];
    }
  }

  // ---------------------------------------------------------------- local pipes

  /** The bytes a pipe delivers before it ends, and whether it ended cleanly. */
  function Delivered(events: seq<Read>): (seq<Byte>, bool) {
    if events == [] then ([], true)
    else
      match events[0]
      case Chunk(b) => if b == [] then ([], true) else (b + Delivered(events[1..]).0, Delivered(events[1..]).1)
      case Eof => ([], true)
      case Interrupted => Delivered(events[1..])
      case WouldBlock => ([], false)
      case Failed => ([], false)
  }

  /** What a pipe delivers does not depend on where its reads are cut or interrupted. */
  lemma CutAnywhere(a: seq<Byte>, b: seq<Byte>, rest: seq<Read>)
    requires a != [] && b != []
    ensures Delivered([Chunk(a), Chunk(b)] + rest) == Delivered([Chunk(a + b)] + rest)
    ensures Delivered([Chunk(a)] + rest) == (a + Delivered(rest).0, Delivered(rest).1)
    ensures Delivered([Interrupted] + rest) == Delivered(rest)
    ensures Delivered([Eof] + rest) == ([], true)
    ensures forall r :: r in {WouldBlock, Failed} ==> Delivered([r] + rest) == ([], false)
  {
    assert ([Chunk(a), Chunk(b)] + rest)[1..] == [Chunk(b)] + rest && ([Chunk(b)] + rest)[1..] == rest;
    assert ([Chunk(a + b)] + rest)[1..] == rest && ([Interrupted] + rest)[1..] == rest && ([Chunk(a)] + rest)[1..] == rest;
    Associative(a, b, Delivered(rest).0);
  }

  method ReadCapped(pipe: Option<seq<Read>>, cap: nat) returns (r: Captured)
    ensures pipe.None? ==> r == Captured([], false)
    ensures pipe.Some? ==>
      var (stream, clean) := Delivered(pipe.value);
      r == Captured(Capture(stream, cap).bytes, Capture(stream, cap).truncated || !clean)
  {
    var buf: seq<Byte>, truncated := [], false;
    if pipe.Some? {
      var events := pipe.value;
      ghost var so: seq<Byte> := [];
      var i := 0;
      assert events[0..] == events;
      assert [] + Delivered(events).0 == Delivered(events).0;
      while i < |events|
        invariant i <= |events|
        invariant Captured(buf, truncated) == Capture(so, cap)
        invariant Delivered(events) == (so + Delivered(events[i..]).0, Delivered(events[i..]).1)
      {
        assert events[i..][1..] == events[i + 1..];
        match events[i] {
          case Chunk(b) =>
            if b == [] { break; }
            buf, truncated := Absorb(buf, truncated, b, cap, so);
            assert so + (b + Delivered(events[i + 1..]).0) == so + b + Delivered(events[i + 1..]).0;
            so := so + b;
          case Eof => break;
          case Interrupted =>
          case _ =>
            assert so + [] == so;
            return Captured(buf, true);
        }
        i := i + 1;
      }
      assert so + [] == so;
    }
    r := Captured(buf, truncated);
  }

  // ------------------------------------------------------------- remote streams

  datatype Drained = Progress(total: nat) | Blocked | Broken

  /** A read of no bytes is the end of the stream. */
  predicate AtEnd(events: seq<Read>) { events == [] || events[0].Eof? || events[0] == Chunk([]) }

  /** All bytes of a stream up to its end. */
  function Bytes(events: seq<Read>): seq<Byte> {
    if AtEnd(events) then []
    else (if events[0].Chunk? then events[0].bytes else []) + Bytes(events[1..])
  }

  /** Up to its end the stream delivers bytes or makes the reader wait, and nothing else. */
  predicate Undisturbed(events: seq<Read>) {
    AtEnd(events) || ((events[0].Chunk? || events[0].WouldBlock?) && Undisturbed(events[1..]))
  }

  /** Moving one event's bytes from the pending side to the taken side. */
  lemma Moved(taken: seq<Byte>, pending: seq<Read>)
    requires !AtEnd(pending)
    ensures var b := if pending[0].Chunk? then pending[0].bytes else [];
      taken + Bytes(pending) == (taken + b) + Bytes(pending[1..])
  {
    var b := if pending[0].Chunk? then pending[0].bytes else [];
    assert Bytes(pending) == b + Bytes(pending[1..]);
    hide Bytes;
    Associative(taken, b, Bytes(pending[1..]));
  }

  lemma Associative(a: seq<Byte>, b: seq<Byte>, c: seq<Byte>)
    ensures a + (b + c) == (a + b) + c
  {
  }

  lemma UndisturbedHead(pending: seq<Read>)
    ensures pending != [] && pending[0] in {Interrupted, Failed} ==> !Undisturbed(pending)
  {
  }

  lemma NothingLeft(pending: seq<Read>)
    requires AtEnd(pending)
    ensures Bytes(pending) == []
  {
  }

  class RemoteStream {
    const whole: seq<Read>
    const cap: nat
    var pending: seq<Read>
    var sink: seq<Byte>
    var truncated: bool
    var eof: bool
    ghost var taken: seq<Byte>

    /** What was taken is captured, and with what is pending makes up the whole stream. */
    ghost predicate Valid()
      reads this
    {
      && Captured(sink, truncated) == Capture(taken, cap)
      && taken + Bytes(pending) == Bytes(whole)
      && (eof ==> Bytes(pending) == [])
    }

    constructor (events: seq<Read>, cap: nat)
      ensures Valid() && whole == events && this.cap == cap && !eof && pending == events
    {
      whole, this.cap := events, cap;
      pending, sink, truncated, eof, taken := events, [], false, false, [];
    }

    /** Take what is there until it would block, the end, an error, or the deadline. */
    method Drain(ticks: nat) returns (left: nat, r: Drained)
      requires Valid()
      modifies this`pending, this`sink, this`truncated, this`taken
      ensures Valid() && left <= ticks && |pending| <= |old(pending)|
      ensures old(taken) <= taken && pending == old(pending)[|old(pending)| - |pending|..]
      ensures Undisturbed(old(pending)) ==> Undisturbed(pending)
      ensures r.Progress? ==> r.total == |taken| - |old(taken)|
      ensures r == Progress(0) ==> AtEnd(pending) && pending == old(pending)
      ensures r.Progress? && r.total > 0 ==> |pending| < |old(pending)|
      ensures r.Blocked? ==> old(pending) != [] && old(pending)[0].WouldBlock? && pending == old(pending)[1..]
      ensures r.Broken? ==>
        (left == 0 && ticks == |old(pending)| - |pending|) || (pending != [] && pending[0] in {Interrupted, Failed})
      ensures ticks - left <= |old(pending)| - |pending| + 1
    {
      hide Bytes, Capture;
      var total: nat := 0;
      left := ticks;
      while true
        invariant Valid() && left <= ticks && |pending| <= |old(pending)|
        invariant total > 0 ==> |pending| < |old(pending)|
        invariant total == 0 ==> pending == old(pending)
        invariant old(taken) <= taken && total == |taken| - |old(taken)|
        invariant pending == old(pending)[|old(pending)| - |pending|..]
        invariant ticks - left == |old(pending)| - |pending|
        invariant Undisturbed(old(pending)) ==> Undisturbed(pending)
        decreases left
      {
        if left == 0 { return left, Broken; }
        left := left - 1;
        if AtEnd(pending) { return left, Progress(total); }
        Moved(taken, pending);
        match pending[0] {
          case Chunk(b) =>
            total := total + |b|;
            sink, truncated := Absorb(sink, truncated, b, cap, taken);
            taken := taken + b;
            pending := pending[1..];
          case WouldBlock =>
            assert taken + [] == taken;
            pending := pending[1..];
            return left, if total == 0 then Blocked else Progress(total);
          case _ =>
            return left, Broken;
        }
      }
    }

    /** One turn: drain, and notice the end. Each event read takes at most two ticks. */
    method Poll(ticks: nat) returns (left: nat, ok: bool)
      requires Valid() && !eof
      modifies this
      ensures Valid() && left <= ticks
      ensures !ok ==> !(Undisturbed(old(pending)) && ticks > |old(pending)|)
      ensures ok ==>
        && |pending| + (if eof then 0 else 1) < |old(pending)| + 1
        && ticks - left <= 2 * (|old(pending)| - |pending|) + (if eof then 1 else 0)
        && (Undisturbed(old(pending)) ==> Undisturbed(pending))
    {
      hide Bytes, Capture, Undisturbed;
      var r;
      left, r := Drain(ticks);
      UndisturbedHead(pending);
      if r == Progress(0) {
        NothingLeft(pending);
        eof := true;
      }
      ok := !r.Broken?;
    }
  }

  /** Both streams of a remote command, polled in turn until both ended. Not `done`: an error or
      the deadline came first, and the command is reported indeterminate. Undisturbed streams and a
      deadline late enough for two reads an event are always collected. */
  method CollectRemote(out: RemoteStream, err: RemoteStream, ticks: nat) returns (done: bool)
    requires out != err && out.Valid() && err.Valid() && !out.eof && !err.eof
    modifies out, err
    ensures done ==>
      && Captured(out.sink, out.truncated) == Capture(Bytes(out.whole), out.cap)
      && Captured(err.sink, err.truncated) == Capture(Bytes(err.whole), err.cap)
    ensures old(InTime(out, err, ticks)) ==> done
  {
    hide Bytes, Capture, Undisturbed;
    var left: nat := ticks;
    while !(out.eof && err.eof)
      invariant out.Valid() && err.Valid()
      invariant old(InTime(out, err, ticks)) ==> InTime(out, err, left)
      decreases |out.pending| + |err.pending| + (if out.eof then 0 else 1) + if err.eof then 0 else 1
    {
      var ok;
      if !out.eof {
        left, ok := out.Poll(left);
        if !ok { return false; }
      }
      if !err.eof {
        left, ok := err.Poll(left);
        if !ok { return false; }
      }
    }
    assert out.taken + [] == out.taken && err.taken + [] == err.taken;
    done := true;
  }

  /** Nothing disturbs the streams, and the deadline leaves two ticks an event and one for each end. */
  ghost predicate InTime(out: RemoteStream, err: RemoteStream, ticks: nat)
    reads out, err
  {
    && Undisturbed(out.pending) && Undisturbed(err.pending)
    && ticks > 2 * (|out.pending| + |err.pending|) + (if out.eof then 0 else 1) + (if err.eof then 0 else 1)
  }

  // ---------------------------------------------------------- from capture to value

  datatype Completion = Exited(code: int) | Signaled(signal: int) | Indeterminate

  datatype Output = Output(completion: Completion, stdout: Captured, stderr: Captured)

  /** `c` was captured from `stream`: with the cap, with more marked as missing, or given up. */
  predicate CapturedFrom(c: Captured, stream: seq<Byte>, cap: nat) {
    c == Capture(stream, cap) || c.truncated
  }

  /** A command that exited or was signaled: each capture is of its whole stream. */
  predicate Collected(o: Output, out: seq<Byte>, err: seq<Byte>, cap: nat) {
    !o.completion.Indeterminate? ==> CapturedFrom(o.stdout, out, cap) && CapturedFrom(o.stderr, err, cap)
  }

  const MAX_CAPTURE: nat := 1024 * 1024

  /** How waiting for a local child ends. */
  datatype Wait = Ended(status: Completion) | TimedOut | WaitFailed

  /** Take a reader's result, or give it up when it does not end in time. */
  method Join(events: seq<Read>, inTime: bool) returns (r: Captured)
    ensures CapturedFrom(r, Delivered(events).0, MAX_CAPTURE)
    ensures inTime && Delivered(events).1 ==> r == Capture(Delivered(events).0, MAX_CAPTURE)
    ensures !inTime ==> r == Captured([], true)
  {
    if !inTime { return Captured([], true); }
    r := ReadCapped(Some(events), MAX_CAPTURE);
  }

  /** A local command: wait for the child, then join the two readers. */
  method RunLocal(out: seq<Read>, err: seq<Read>, wait: Wait, outInTime: bool, errInTime: bool) returns (o: Output)
    ensures Collected(o, Delivered(out).0, Delivered(err).0, MAX_CAPTURE)
    ensures o.completion == if wait.Ended? then wait.status else Indeterminate
    ensures outInTime && Delivered(out).1 ==> o.stdout == Capture(Delivered(out).0, MAX_CAPTURE)
    ensures errInTime && Delivered(err).1 ==> o.stderr == Capture(Delivered(err).0, MAX_CAPTURE)
  {
    hide Capture, Delivered;
    var stdout := Join(out, outInTime);
    var stderr := Join(err, errInTime);
    var completion := match wait case Ended(status) => status case _ => Indeterminate;
    o := Output(completion, stdout, stderr);
  }

  /** A remote command: collect both streams, confirm the close, ask for the exit status. */
  method RunRemote(out: RemoteStream, err: RemoteStream, ticks: nat, closed: bool, status: Completion) returns (o: Output)
    requires out != err && out.Valid() && err.Valid() && !out.eof && !err.eof
    requires out.cap == err.cap == MAX_CAPTURE
    modifies out, err
    ensures Collected(o, Bytes(out.whole), Bytes(err.whole), MAX_CAPTURE)
    ensures !o.completion.Indeterminate? ==> closed && o.completion == status
    ensures old(InTime(out, err, ticks)) && closed ==> o.completion == status
  {
    hide Capture, Bytes, InTime;
    var done := CollectRemote(out, err, ticks);
    var completion := if done && closed then status else Indeterminate;
    o := Output(completion, Captured(out.sink, out.truncated), Captured(err.sink, err.truncated));
  }

  /** UTF-8 decoding: any partial function will do. */
  type Decoder = seq<Byte> -> Option<string>

  predicate Usable(c: Captured, decode: Decoder) { !c.truncated && decode(c.bytes).Some? }

  function StreamValue(c: Captured, decode: Decoder): Value {
    if Usable(c, decode) then VStr(decode(c.bytes).value) else VNull
  }

  function ExitValue(o: Output): Value { if o.completion.Exited? then VInt(o.completion.code) else VNull }

  /** The register of a command, in key order. */
  function RegisterMap(executed: bool, o: Option<Output>, changed: Option<bool>, execution: string, decode: Decoder): Value {
    if !executed then
      VMap([Entry("changed", VBool(false)), Entry("executed", VBool(false)), Entry("execution", VStr(execution)),
            Entry("exit_code", VNull), Entry("stderr", VNull), Entry("stderr_complete", VBool(true)),
            Entry("stdout", VNull), Entry("stdout_complete", VBool(true))])
    else
      var stdout := if o.Some? then StreamValue(o.value.stdout, decode) else VNull;
      var stderr := if o.Some? then StreamValue(o.value.stderr, decode) else VNull;
      VMap([Entry("changed", if changed.Some? then VBool(changed.value) else VNull),
            Entry("executed", VBool(true)),
            Entry("execution", VStr(execution)),
            Entry("exit_code", if o.Some? then ExitValue(o.value) else VNull),
            Entry("stderr", stderr),
            Entry("stderr_complete", VBool(o.Some? && Usable(o.value.stderr, decode))),
            Entry("stdout", stdout),
            Entry("stdout_complete", VBool(o.Some? && Usable(o.value.stdout, decode)))])
  }

  /** What `changed_when` sees as `result`. */
  function ResultScope(o: Output, sensitive: bool, decode: Decoder): Bindings {
    map["executed" := Known(VBool(true)),
        "exit_code" := Known(ExitValue(o)),
        "stdout" := EvalVal(Some(StreamValue(o.stdout, decode)), sensitive),
        "stderr" := EvalVal(Some(StreamValue(o.stderr, decode)), sensitive),
        "stdout_complete" := Known(VBool(Usable(o.stdout, decode))),
        "stderr_complete" := Known(VBool(Usable(o.stderr, decode)))]
  }

  function StreamOf(o: Output, field: string): Captured { if field == "stdout" then o.stdout else o.stderr }

  /** Reading a stream from an executed command's register: its text when usable, else an error. */
  lemma RegisterRead(
      name: string, field: string, o: Output, changed: Option<bool>, execution: string, sensitive: bool,
      sc: Scope, decode: Decoder, fl: Floats)
    requires field in {"stdout", "stderr"} && sc.registers.Some? && name in sc.registers.value
    requires sc.registers.value[name] == EvalVal(Some(RegisterMap(true, Some(o), changed, execution, decode)), sensitive)
    ensures var c := StreamOf(o, field);
      Eval(Register(name, field), sc, fl) ==
      if Usable(c, decode) then Ok(EvalVal(Some(VStr(decode(c.bytes).value)), sensitive)) else Err(Incomplete)
  {
    var m := RegisterMap(true, Some(o), changed, execution, decode).entries;
    GetAt(m, 0);
    GetAt(m, 4);
    GetAt(m, 5);
    GetAt(m, 6);
    GetAt(m, 7);
  }

  /** Reading the other fields of an executed command's register. */
  lemma RegisterFields(
      name: string, o: Output, changed: Option<bool>, execution: string, sensitive: bool, sc: Scope, decode: Decoder,
      fl: Floats)
    requires sc.registers.Some? && name in sc.registers.value
    requires sc.registers.value[name] == EvalVal(Some(RegisterMap(true, Some(o), changed, execution, decode)), sensitive)
    ensures Eval(Register(name, "executed"), sc, fl) == Ok(EvalVal(Some(VBool(true)), sensitive))
    ensures Eval(Register(name, "exit_code"), sc, fl) ==
      Ok(EvalVal(Some(if o.completion.Exited? then VInt(o.completion.code) else VNull), sensitive))
    ensures Eval(Register(name, "changed"), sc, fl) ==
      Ok(EvalVal(Some(if changed.Some? then VBool(changed.value) else VNull), sensitive))
    ensures Eval(Register(name, "execution"), sc, fl) == Ok(EvalVal(Some(VStr(execution)), sensitive))
  {
    var m := RegisterMap(true, Some(o), changed, execution, decode).entries;
    GetAt(m, 0);
    GetAt(m, 1);
    GetAt(m, 2);
    GetAt(m, 3);
    FieldLengths();
  }

  lemma FieldLengths()
    ensures CompleteKey("executed") == CompleteKey("exit_code") == CompleteKey("changed") == CompleteKey("execution") == None
  {
    assert |"stdout"| == 6 && |"stderr"| == 6;
  }

  /** Reading the register of a command whose guard was satisfied. */
  lemma GuardFields(name: string, sensitive: bool, sc: Scope, decode: Decoder, fl: Floats)
    requires sc.registers.Some? && name in sc.registers.value
    requires sc.registers.value[name] ==
      EvalVal(Some(RegisterMap(false, None, Some(false), "succeeded", decode)), sensitive)
    ensures forall field :: field in {"executed", "changed"} ==>
      Eval(Register(name, field), sc, fl) == Ok(EvalVal(Some(VBool(false)), sensitive))
    ensures forall field :: field in {"exit_code", "stdout", "stderr"} ==>
      Eval(Register(name, field), sc, fl) == Ok(EvalVal(Some(VNull), sensitive))
    ensures Eval(Register(name, "execution"), sc, fl) == Ok(EvalVal(Some(VStr("succeeded")), sensitive))
  {
    var m := RegisterMap(false, None, Some(false), "succeeded", decode).entries;
    assert InKeyOrder(m);
    assert m[5].value == m[7].value == VBool(true);
    EntryRead(name, m, 0, sensitive, sc, fl);
    EntryRead(name, m, 1, sensitive, sc, fl);
    EntryRead(name, m, 2, sensitive, sc, fl);
    EntryRead(name, m, 3, sensitive, sc, fl);
    EntryRead(name, m, 4, sensitive, sc, fl);
    EntryRead(name, m, 6, sensitive, sc, fl);
    hide Eval;
  }

  /** The fields of a register, in key order. */
  predicate InKeyOrder(m: seq<Entry>) {
    && |m| == 8
    && m[0].key == "changed" && m[1].key == "executed" && m[2].key == "execution" && m[3].key == "exit_code"
    && m[4].key == "stderr" && m[5].key == "stderr_complete" && m[6].key == "stdout" && m[7].key == "stdout_complete"
  }

  lemma KeysDiffer(m: seq<Entry>)
    requires InKeyOrder(m)
    ensures forall j, k :: 0 <= j < k < 8 ==> m[j].key != m[k].key
  {
    assert m[4].key[3] != m[6].key[3] && m[5].key[3] != m[7].key[3];
    assert |m[0].key| == 7 && |m[1].key| == 8 && m[1].key[7] == 'd' && |m[2].key| == 9 && |m[3].key| == 9;
    assert m[2].key[2] == 'e' && m[3].key[2] == 'i';
    assert |m[4].key| == |m[6].key| == 6 && |m[5].key| == |m[7].key| == 15;
  }

  /** Reading a field of a register whose streams are complete. */
  lemma EntryRead(name: string, m: seq<Entry>, k: nat, sensitive: bool, sc: Scope, fl: Floats)
    requires InKeyOrder(m) && k < 8 && m[5].value == m[7].value == VBool(true)
    requires sc.registers.Some? && name in sc.registers.value && sc.registers.value[name] == EvalVal(Some(VMap(m)), sensitive)
    ensures Eval(Register(name, m[k].key), sc, fl) == Ok(EvalVal(Some(m[k].value), sensitive))
  {
    KeysDiffer(m);
    GetAt(m, k);
    GetAt(m, 5);
    GetAt(m, 7);
    hide InKeyOrder, Get;
  }

  /** With the keys in order, looking one up finds its own entry. */
  lemma {:induction false} GetAt(m: seq<Entry>, k: nat)
    requires k < |m| && forall j :: 0 <= j < k ==> m[j].key != m[k].key
    ensures Get(m, m[k].key) == Some(m[k].value)
  {
    if k > 0 { GetAt(m[1..], k - 1); }
  }

  /** Reading a stream as `result` in `changed_when`: the same. */
  lemma ResultRead(field: string, o: Output, sensitive: bool, sc: Scope, decode: Decoder, fl: Floats)
    requires field in {"stdout", "stderr"} && sc.result == Some(ResultScope(o, sensitive, decode))
    ensures var c := StreamOf(o, field);
      Eval(ResultField(field), sc, fl) ==
      if Usable(c, decode) then Ok(EvalVal(Some(VStr(decode(c.bytes).value)), sensitive)) else Err(Incomplete)
  {
  }

  // What a sensitive command's `changed_when` gives away.

  /** The scope in which `changed_when` of a sensitive command with this output is evaluated. */
  function SensitiveScope(sc: Scope, o: Output, decode: Decoder): Scope {
    sc.(result := Some(ResultScope(o, true, decode)))
  }

  /** Both exited, with the same code, or neither did. */
  predicate SameExit(o: Output, o': Output) {
    && (o.completion.Exited? <==> o'.completion.Exited?)
    && (o.completion.Exited? ==> o.completion.code == o'.completion.code)
  }

  /** The exit, and for each stream whether it can be used. */
  predicate SameOutside(o: Output, o': Output, decode: Decoder) {
    && SameExit(o, o')
    && Usable(o.stdout, decode) == Usable(o'.stdout, decode)
    && Usable(o.stderr, decode) == Usable(o'.stderr, decode)
  }

  /** Every unflagged result of every expression is the same for both outputs. */
  ghost predicate PubliclyAlike(sc: Scope, o: Output, o': Output, decode: Decoder, fl: Floats) {
    forall e ::
      && Public(Eval(e, SensitiveScope(sc, o, decode), fl), Eval(e, SensitiveScope(sc, o', decode), fl))
      && Public(Eval(e, SensitiveScope(sc, o', decode), fl), Eval(e, SensitiveScope(sc, o, decode), fl))
  }

  /** What unflagged results tell of a sensitive command's output is exactly its exit value and, for
      each stream, whether it can be used. Errors are not compared here: see `ErrorsTell`. */
  lemma ChangedWhenTells(sc: Scope, o: Output, o': Output, decode: Decoder, fl: Floats)
    ensures PubliclyAlike(sc, o, o', decode, fl) <==> SameOutside(o, o', decode)
  {
    hide Eval;
    var s, t := SensitiveScope(sc, o, decode), SensitiveScope(sc, o', decode);
    if SameOutside(o, o', decode) {
      forall e
        ensures Public(Eval(e, s, fl), Eval(e, t, fl)) && Public(Eval(e, t, fl), Eval(e, s, fl))
      {
        NonInterference(e, s, t, fl);
        NonInterference(e, t, s, fl);
      }
    }
    if PubliclyAlike(sc, o, o', decode, fl) {
      AlikeOutside(sc, o, o', decode, fl);
    }
  }

  lemma AlikeOutside(sc: Scope, o: Output, o': Output, decode: Decoder, fl: Floats)
    requires PubliclyAlike(sc, o, o', decode, fl)
    ensures SameOutside(o, o', decode)
  {
    hide Eval;
    var s, t := SensitiveScope(sc, o, decode), SensitiveScope(sc, o', decode);
    PublicFields(sc, o, decode, fl);
    PublicFields(sc, o', decode, fl);
    assert Public(Eval(ResultField("exit_code"), s, fl), Eval(ResultField("exit_code"), t, fl));
    assert Public(Eval(ResultField("stdout_complete"), s, fl), Eval(ResultField("stdout_complete"), t, fl));
    assert Public(Eval(ResultField("stderr_complete"), s, fl), Eval(ResultField("stderr_complete"), t, fl));
  }

  lemma PublicFields(sc: Scope, o: Output, decode: Decoder, fl: Floats)
    ensures var s := SensitiveScope(sc, o, decode);
      && Eval(ResultField("executed"), s, fl) == Ok(Known(VBool(true)))
      && Eval(ResultField("exit_code"), s, fl) ==
         Ok(Known(if o.completion.Exited? then VInt(o.completion.code) else VNull))
      && Eval(ResultField("stdout_complete"), s, fl) == Ok(Known(VBool(Usable(o.stdout, decode))))
      && Eval(ResultField("stderr_complete"), s, fl) == Ok(Known(VBool(Usable(o.stderr, decode))))
  {
  }

  /** The completeness flags are public although they are computed from sensitive bytes: two
      sensitive outputs, one not decodable, told apart by a public true and a public false. */
  lemma CompletenessTells(sc: Scope, decode: Decoder, fl: Floats)
    requires decode([97]).Some? && decode([255]).None?
    ensures
      var letter := Output(Exited(0), Captured([97], false), Captured([], false));
      var byte := letter.(stdout := Captured([255], false));
      && Eval(ResultField("stdout_complete"), SensitiveScope(sc, letter, decode), fl) == Ok(Known(VBool(true)))
      && Eval(ResultField("stdout_complete"), SensitiveScope(sc, byte, decode), fl) == Ok(Known(VBool(false)))
      && !PubliclyAlike(sc, letter, byte, decode, fl)
  {
    var letter := Output(Exited(0), Captured([97], false), Captured([], false));
    var byte := letter.(stdout := Captured([255], false));
    PublicFields(sc, letter, decode, fl);
    PublicFields(sc, byte, decode, fl);
    ChangedWhenTells(sc, letter, byte, decode, fl);
  }

  /** What is reported of an evaluation: the error, that there is a flagged value, or the value. */
  datatype Reported = ReportedError(error: ExprError) | Hidden | Shown(val: Option<Value>)

  function Report(r: Evaluated): Reported {
    match r
    case Err(e) => ReportedError(e)
    case Ok(v) => if v.sensitive then Hidden else Shown(v.val)
  }

  /** Every `changed_when` is reported alike for both outputs, errors included. */
  ghost predicate ReportedAlike(sc: Scope, o: Output, o': Output, decode: Decoder, fl: Floats) {
    forall e ::
      Report(EvalBoolean(e, SensitiveScope(sc, o, decode), fl)) == Report(EvalBoolean(e, SensitiveScope(sc, o', decode), fl))
  }

  /** The exit and what each stream says, where it can be used. */
  predicate SameInside(o: Output, o': Output, decode: Decoder) {
    && SameExit(o, o')
    && StreamValue(o.stdout, decode) == StreamValue(o'.stdout, decode)
    && StreamValue(o.stderr, decode) == StreamValue(o'.stderr, decode)
  }

  /** Once errors are reported, what is told is the whole usable output: a condition can be an error
      exactly for one content. */
  lemma ErrorsTell(sc: Scope, o: Output, o': Output, decode: Decoder, fl: Floats)
    ensures ReportedAlike(sc, o, o', decode, fl) <==> SameInside(o, o', decode)
  {
    hide EvalBoolean, ResultScope;
    if SameInside(o, o', decode) {
      SameScope(o, o', decode);
    }
    if ReportedAlike(sc, o, o', decode, fl) {
      AlikeExit(sc, o, o', decode, fl);
      AlikeStream(sc, o, o', "stdout", decode, fl);
      AlikeStream(sc, o, o', "stderr", decode, fl);
    }
  }

  lemma SameScope(o: Output, o': Output, decode: Decoder)
    requires SameInside(o, o', decode)
    ensures ResultScope(o, true, decode) == ResultScope(o', true, decode)
  {
  }

  /** Whether the exit code is `k`. */
  lemma ExitIs(sc: Scope, o: Output, decode: Decoder, fl: Floats, k: int)
    ensures Report(EvalBoolean(Cmp(ResultField("exit_code"), Eq, Int(k)), SensitiveScope(sc, o, decode), fl)) ==
      if o.completion.Exited? then Shown(Some(VBool(o.completion.code == k))) else ReportedError(NotComparable)
  {
    hide ResultScope;
    var s := SensitiveScope(sc, o, decode);
    PublicFields(sc, o, decode, fl);
    assert Eval(Int(k), s, fl) == Ok(Known(VInt(k)));
  }

  lemma AlikeExit(sc: Scope, o: Output, o': Output, decode: Decoder, fl: Floats)
    requires ReportedAlike(sc, o, o', decode, fl)
    ensures SameExit(o, o')
  {
    hide EvalBoolean, ResultScope;
    var k := if o.completion.Exited? then o.completion.code else if o'.completion.Exited? then o'.completion.code else 0;
    ExitIs(sc, o, decode, fl, k);
    ExitIs(sc, o', decode, fl, k);
  }

  /** An error when the stream says `text`, and a flagged value when it says anything else. */
  function ErrsFor(field: string, text: string): Expr { And(Cmp(ResultField(field), Eq, Str(text)), Int(5)) }

  lemma ErrsForText(sc: Scope, o: Output, field: string, text: string, decode: Decoder, fl: Floats)
    requires field in {"stdout", "stderr"} && Usable(StreamOf(o, field), decode)
    ensures Report(EvalBoolean(ErrsFor(field, text), SensitiveScope(sc, o, decode), fl)) ==
      if decode(StreamOf(o, field).bytes).value == text then ReportedError(BooleanRequired) else Hidden
  {
    hide ResultScope;
    var s := SensitiveScope(sc, o, decode);
    ResultRead(field, o, true, s, decode, fl);
    var d := decode(StreamOf(o, field).bytes).value;
    var c := Cmp(ResultField(field), Eq, Str(text));
    assert Eval(Str(text), s, fl) == Ok(Known(VStr(text)));
    assert Eval(c, s, fl) == Ok(EvalVal(Some(VBool(d == text)), true));
    assert Eval(Int(5), s, fl) == Ok(Known(VInt(5)));
    assert Eval(ErrsFor(field, text), s, fl) == if d == text then Err(BooleanRequired) else Eval(c, s, fl);
  }

  lemma UsableShown(sc: Scope, o: Output, field: string, decode: Decoder, fl: Floats)
    requires field in {"stdout", "stderr"}
    ensures Report(EvalBoolean(ResultField(CompleteKey(field).value), SensitiveScope(sc, o, decode), fl)) ==
      Shown(Some(VBool(Usable(StreamOf(o, field), decode))))
  {
    hide ResultScope;
    PublicFields(sc, o, decode, fl);
  }

  lemma AlikeStream(sc: Scope, o: Output, o': Output, field: string, decode: Decoder, fl: Floats)
    requires ReportedAlike(sc, o, o', decode, fl) && field in {"stdout", "stderr"}
    ensures StreamValue(StreamOf(o, field), decode) == StreamValue(StreamOf(o', field), decode)
  {
    hide EvalBoolean, ResultScope;
    UsableShown(sc, o, field, decode, fl);
    UsableShown(sc, o', field, decode, fl);
    if Usable(StreamOf(o, field), decode) && Usable(StreamOf(o', field), decode) {
      var text := decode(StreamOf(o, field).bytes).value;
      ErrsForText(sc, o, field, text, decode, fl);
      ErrsForText(sc, o', field, text, decode, fl);
    }
  }

  /** Two sensitive outputs alike in every unflagged result, and told apart by an error. */
  lemma ErrorTells(sc: Scope, decode: Decoder, fl: Floats)
    requires decode([120]) == Some("x") && decode([121]) == Some("y")
    ensures
      var x := Output(Exited(0), Captured([120], false), Captured([], false));
      var y := x.(stdout := Captured([121], false));
      var e := ErrsFor("stdout", "x");
      && PubliclyAlike(sc, x, y, decode, fl)
      && EvalBoolean(e, SensitiveScope(sc, x, decode), fl).Err? && EvalBoolean(e, SensitiveScope(sc, y, decode), fl).Ok?
      && !ReportedAlike(sc, x, y, decode, fl)
  {
    hide EvalBoolean, ResultScope, ErrsFor;
    var x := Output(Exited(0), Captured([120], false), Captured([], false));
    var y := x.(stdout := Captured([121], false));
    ChangedWhenTells(sc, x, y, decode, fl);
    ErrsForText(sc, x, "stdout", "x", decode, fl);
    ErrsForText(sc, y, "stdout", "x", decode, fl);
  }

  function StreamField(field: string, out: seq<Byte>, err: seq<Byte>): seq<Byte> { if field == "stdout" then out else err }

  /** Whoever reads the stream of a command that exited or was signaled gets all of it, decoded, or
      an error: never a part. And all of it exactly when it fits the cap, was read to its end, and
      decodes. */
  lemma WholeStreamOrError(
      name: string, field: string, o: Output, out: seq<Byte>, err: seq<Byte>, cap: nat, changed: Option<bool>,
      execution: string, sensitive: bool, sc: Scope, decode: Decoder, fl: Floats)
    requires field in {"stdout", "stderr"} && sc.registers.Some? && name in sc.registers.value
    requires sc.registers.value[name] == EvalVal(Some(RegisterMap(true, Some(o), changed, execution, decode)), sensitive)
    requires Collected(o, out, err, cap) && !o.completion.Indeterminate?
    ensures var r, stream := Eval(Register(name, field), sc, fl), StreamField(field, out, err);
      && (r.Ok? ==> decode(stream).Some? && r == Ok(EvalVal(Some(VStr(decode(stream).value)), sensitive)))
      && (r.Ok? <==> StreamOf(o, field) == Capture(stream, cap) && |stream| <= cap && decode(stream).Some?)
  {
    hide Eval;
    RegisterRead(name, field, o, changed, execution, sensitive, sc, decode, fl);
    WholeWhenUsable(StreamOf(o, field), StreamField(field, out, err), cap);
  }

  lemma WholeWhenUsable(c: Captured, stream: seq<Byte>, cap: nat)
    requires CapturedFrom(c, stream, cap)
    ensures !c.truncated <==> c == Capture(stream, cap) && |stream| <= cap
    ensures !c.truncated ==> c.bytes == stream
  {
    assert |stream| <= cap ==> stream[..Min(cap, |stream|)] == stream;
  }

  /** `changed_when`, which is evaluated only for a command that exited: the same. */
  lemma ChangedWhenWhole(
      field: string, o: Output, out: seq<Byte>, err: seq<Byte>, cap: nat, sensitive: bool, sc: Scope, decode: Decoder,
      fl: Floats)
    requires field in {"stdout", "stderr"} && sc.result == Some(ResultScope(o, sensitive, decode))
    requires Collected(o, out, err, cap) && o.completion.Exited?
    ensures var r, stream := Eval(ResultField(field), sc, fl), StreamField(field, out, err);
      && (r.Ok? ==> decode(stream).Some? && r == Ok(EvalVal(Some(VStr(decode(stream).value)), sensitive)))
      && (r.Ok? <==> StreamOf(o, field) == Capture(stream, cap) && |stream| <= cap && decode(stream).Some?)
  {
    hide Eval;
    ResultRead(field, o, sensitive, sc, decode, fl);
    WholeWhenUsable(StreamOf(o, field), StreamField(field, out, err), cap);
  }

  /** A remote command cut off by an error is why this needs the command to have ended: the
      bytes so far are not marked truncated, only the completion says that they are partial. */
  lemma CutOffIsNotMarked(cap: nat, decode: Decoder)
    requires cap > 0 && decode([97]).Some?
    ensures Usable(Capture([97], cap), decode) && !CapturedFrom(Capture([97], cap), [97, 98], cap)
    ensures Collected(Output(Indeterminate, Capture([97], cap), Capture([], cap)), [97, 98], [], cap)
  {
    assert [97 as Byte][..Min(cap, 1)] == [97];
  }
}
