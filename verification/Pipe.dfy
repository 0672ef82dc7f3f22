/**
 The in-memory pipe: a writer and a reader share a locked buffer and wake each other
 through two channels of one slot each.  Every block under the lock, every receive and
 every send is one step; the steps of the two sides interleave in any order, calls may
 be abandoned while they wait, and either side may be dropped.
 */
module Pipe {
  import opened Prelude

  const MAX_BUFFER_SIZE: nat := 4096

  datatype CloseResult = Success | Failure(code: nat)

  // What the writer sends: new data, or the end of the stream.
  datatype Notice = NewData | Closed(result: CloseResult)

  // ---- The blocks under the lock ----

  // The state both sides share: the buffer and the slot of each channel.
  datatype Shared = Shared(buffer: seq<Byte>, toReader: Option<Notice>, toWriter: bool)

  // Writing: None when the buffer is full, otherwise the number of bytes taken.
  function WriteBlock(s: Shared, buf: seq<Byte>): (r: (Shared, Option<nat>))
    ensures r.1.None? <==> |s.buffer| >= MAX_BUFFER_SIZE
    ensures r.1.None? ==> r.0 == s
    // All of the bytes, or as many as there is room for, and there is a message for the reader.
    ensures r.1.Some? ==>
      && r.1.value <= |buf| && r.0.buffer == s.buffer + buf[..r.1.value]
      && (r.1.value == |buf| || |r.0.buffer| == MAX_BUFFER_SIZE)
      && r.0.toReader.Some? && (s.toReader.Some? ==> r.0.toReader == s.toReader) && r.0.toWriter == s.toWriter
  {
    if |s.buffer| < MAX_BUFFER_SIZE then
      var n := Min(MAX_BUFFER_SIZE - |s.buffer|, |buf|);
      (Shared(s.buffer + buf[..n], if s.toReader.None? then Some(NewData) else s.toReader, s.toWriter), Some(n))
    else (s, None)
  }

  // Reading: None when the buffer is empty, otherwise the bytes removed.
  function ReadBlock(s: Shared, len: nat): (r: (Shared, Option<seq<Byte>>))
    ensures r.1.None? <==> s.buffer == []
    ensures r.1.None? ==> r.0 == s
    // As many bytes as were asked for, or all there are, and there is a message for the writer.
    ensures r.1.Some? ==>
      && r.1.value + r.0.buffer == s.buffer
      && |r.1.value| <= len && (|r.1.value| == len || r.0.buffer == [])
      && r.0.toWriter && r.0.toReader == s.toReader
  {
    if s.buffer != [] then
      var n := Min(len, |s.buffer|);
      (Shared(s.buffer[n..], s.toReader, true), Some(s.buffer[..n]))
    else (s, None)
  }

  // ---- Steps ----

  datatype WriterState =
    | WriterIdle
    | WriteChecking(buf: seq<Byte>)  // about to take the lock
    | WriteParked(buf: seq<Byte>)    // waiting for room
    | Closing(result: CloseResult)   // waiting to send the result
    | WriterGone

  datatype ReaderState =
    | ReaderIdle
    | ReadChecking(len: nat)
    | ReadParked(len: nat)
    | ReaderGone

  // What a read returns once there is nothing left to read: the result given to close, or that the
  // writer was never closed.
  datatype End = Result(result: CloseResult) | NeverClosed

  // What has happened so far: the bytes of the two sides, whether a close notice was placed in the
  // channel, what the reader was told of the end, and how many writes found no reader.
  datatype History = History(written: seq<Byte>, read: seq<Byte>, closeSent: bool, told: seq<End>, refused: nat)

  datatype State = State(shared: Shared, w: WriterState, r: ReaderState, h: History)

  datatype Action =
    | BeginWrite(buf: seq<Byte>) | BeginClose(result: CloseResult) | BeginRead(len: nat)
    | WriteCheck | WriteReceive | SendClose
    | ReadCheck | ReadReceive
    | AbandonWriter | AbandonReader | DropWriter | DropReader

  const Init: State := State(Shared([], None, false), WriterIdle, ReaderIdle, History([], [], false, [], 0))

  predicate Ended(s: State) {
    s.h.told != []
  }

  // The state after an action, or None when it cannot happen.
  function Next(s: State, a: Action): Option<State> {
    match a
    case BeginWrite(buf) => if s.w.WriterIdle? then Some(s.(w := WriteChecking(buf))) else None
    case BeginClose(result) => if s.w.WriterIdle? then Some(s.(w := Closing(result))) else None
    case BeginRead(len) => if s.r.ReaderIdle? then Some(s.(r := ReadChecking(len))) else None
    case WriteCheck =>
      if !s.w.WriteChecking? then None else
        var (t, n) := WriteBlock(s.shared, s.w.buf);
        if n.None? then Some(s.(w := WriteParked(s.w.buf)))
        else Some(s.(shared := t, w := WriterIdle, h := s.h.(written := s.h.written + s.w.buf[..n.value])))
    case WriteReceive =>
      if !s.w.WriteParked? then None
      else if s.shared.toWriter then Some(s.(shared := s.shared.(toWriter := false), w := WriteChecking(s.w.buf)))
      else if s.r.ReaderGone? then
        Some(s.(w := WriterIdle, h := s.h.(refused := s.h.refused + 1)))  // RemoteReaderClosed
      else None
    case SendClose =>
      if !s.w.Closing? then None
      else if s.r.ReaderGone? then Some(s.(w := WriterIdle))
      else if s.shared.toReader.None? then
        Some(s.(shared := s.shared.(toReader := Some(Closed(s.w.result))), w := WriterIdle,
                h := s.h.(closeSent := true)))
      else None
    case ReadCheck =>
      if !s.r.ReadChecking? then None else
        var (t, bytes) := ReadBlock(s.shared, s.r.len);
        if bytes.None? then Some(s.(r := ReadParked(s.r.len)))
        else Some(s.(shared := t, r := ReaderIdle, h := s.h.(read := s.h.read + bytes.value)))
    case ReadReceive =>
      if !s.r.ReadParked? then None
      else (match s.shared.toReader
        case Some(NewData) => Some(s.(shared := s.shared.(toReader := None), r := ReadChecking(s.r.len)))
        case Some(Closed(result)) =>
          Some(s.(shared := s.shared.(toReader := None), r := ReaderIdle,
                  h := s.h.(told := s.h.told + [Result(result)])))
        case None =>
          if s.w.WriterGone? then Some(s.(r := ReaderIdle, h := s.h.(told := s.h.told + [NeverClosed]))) else None)
    case AbandonWriter => if s.w.WriterGone? then None else Some(s.(w := WriterIdle))
    case AbandonReader => if s.r.ReaderGone? then None else Some(s.(r := ReaderIdle))
    case DropWriter => Some(s.(w := WriterGone))
    case DropReader => Some(s.(r := ReaderGone))
  }

  // The caller's side of the deal: no bytes after a close notice, as long as there is a reader to
  // take the notice or one that has taken it.
  predicate Allowed(s: State, a: Action) {
    a.BeginWrite? && a.buf != [] && s.h.closeSent ==> s.r.ReaderGone? && !Ended(s)
  }

  // The states of a run, from Init, under a list of actions that all can happen.
  ghost predicate Run(actions: seq<Action>, s: State)
    decreases |actions|
  {
    if actions == [] then s == Init
    else
      var n := |actions| - 1;
      exists t :: Run(actions[..n], t) && Allowed(t, actions[n]) && Next(t, actions[n]) == Some(s)
  }

  // ---- What every step keeps ----

  ghost predicate Conserved(s: State) {
    s.h.read + s.shared.buffer == s.h.written && |s.shared.buffer| <= MAX_BUFFER_SIZE
  }

  // No wake-up is lost: bytes for a waiting reader, or room for a waiting writer, come
  // with a message in the channel.
  ghost predicate Awake(s: State) {
    && (s.r.ReadParked? && s.shared.buffer != [] ==> s.shared.toReader == Some(NewData))
    && (s.w.WriteParked? && |s.shared.buffer| < MAX_BUFFER_SIZE ==> s.shared.toWriter)
  }

  // After a close notice, and while anyone may learn of it, no call has bytes to write.
  ghost predicate Quiet(s: State) {
    && (s.shared.toReader.Some? && s.shared.toReader.value.Closed? ==> s.h.closeSent)
    && (s.h.closeSent && !Ended(s) ==> s.shared.toReader.Some? && s.shared.toReader.value.Closed?)
    && (s.h.closeSent && (Ended(s) || !s.r.ReaderGone?) ==>
          (s.w.WriteChecking? || s.w.WriteParked? ==> s.w.buf == []))
  }

  // The end of the stream is seen only after every byte.
  ghost predicate EndLast(s: State) {
    Ended(s) ==> s.h.read == s.h.written && (s.h.closeSent || s.w.WriterGone?)
  }

  ghost predicate Inv(s: State) {
    Conserved(s) && Awake(s) && Quiet(s) && EndLast(s)
  }

  lemma StepKeepsInv(s: State, a: Action, t: State)
    requires Inv(s) && Allowed(s, a) && Next(s, a) == Some(t)
    ensures Inv(t)
  {
    match a {
      case WriteCheck =>
        var n := Min(MAX_BUFFER_SIZE - |s.shared.buffer|, |s.w.buf|);
        if |s.shared.buffer| < MAX_BUFFER_SIZE {
          assert s.h.read + (s.shared.buffer + s.w.buf[..n]) == s.h.written + s.w.buf[..n];
        }
      case ReadCheck =>
        var n := Min(s.r.len, |s.shared.buffer|);
        assert (s.h.read + s.shared.buffer[..n]) + s.shared.buffer[n..] == s.h.read + s.shared.buffer;
      case _ =>
    }
  }

  lemma {:induction false} RunKeepsInv(actions: seq<Action>, s: State)
    requires Run(actions, s)
    ensures Inv(s)
    decreases |actions|
  {
    if actions != [] {
      var n := |actions| - 1;
      var t :| Run(actions[..n], t) && Allowed(t, actions[n]) && Next(t, actions[n]) == Some(s);
      RunKeepsInv(actions[..n], t);
      StepKeepsInv(t, actions[n], s);
    }
  }

  // ---- Consequences for all interleavings ----

  lemma BytesInOrder(actions: seq<Action>, s: State)
    requires Run(actions, s)
    ensures s.h.read + s.shared.buffer == s.h.written
    ensures |s.shared.buffer| <= MAX_BUFFER_SIZE
    ensures Ended(s) ==> s.h.read == s.h.written
  {
    RunKeepsInv(actions, s);
  }

  // ---- What the reader is told of the end ----

  // The argument of the last call to close.
  ghost function LastAsked(actions: seq<Action>): Option<CloseResult> {
    if actions == [] then None
    else
      var n := |actions| - 1;
      if actions[n].BeginClose? then Some(actions[n].result) else LastAsked(actions[..n])
  }

  // The results sent to a reader that was still there, each the argument of its own call to close.
  ghost function Sent(actions: seq<Action>): seq<Option<CloseResult>> {
    if actions == [] then []
    else
      var n := |actions| - 1;
      Sent(actions[..n])
      + if actions[n] == SendClose && DropReader !in actions[..n] then [LastAsked(actions[..n])] else []
  }

  // The close results among what the reader was told.
  ghost function Results(told: seq<End>): seq<Option<CloseResult>> {
    if told == [] then []
    else
      var n := |told| - 1;
      Results(told[..n]) + match told[n] { case Result(x) => [Some(x)] case NeverClosed => [] }
  }

  ghost function Pending(slot: Option<Notice>): seq<Option<CloseResult>> {
    if slot.Some? && slot.value.Closed? then [Some(slot.value.result)] else []
  }

  lemma ResultsSnoc(told: seq<End>, e: End)
    ensures Results(told + [e]) == Results(told) + match e { case Result(x) => [Some(x)] case NeverClosed => [] }
  {
    assert (told + [e])[..|told|] == told;
  }

  // Close results are neither lost, nor changed, nor reordered.
  ghost predicate ResultsKept(actions: seq<Action>, s: State) {
    && Results(s.h.told) + Pending(s.shared.toReader) == Sent(actions)
    && (s.h.closeSent <==> Sent(actions) != [])
    && (s.w.Closing? ==> LastAsked(actions) == Some(s.w.result))
    && (s.w.WriterGone? <==> DropWriter in actions)
    && (s.r.ReaderGone? <==> DropReader in actions)
    && (NeverClosed in s.h.told ==> s.w.WriterGone?)
    && (s.h.refused > 0 ==> s.r.ReaderGone?)
  }

  lemma TraceSnoc(actions: seq<Action>, a: Action)
    ensures LastAsked(actions + [a]) == if a.BeginClose? then Some(a.result) else LastAsked(actions)
    ensures Sent(actions + [a]) ==
            Sent(actions) + if a == SendClose && DropReader !in actions then [LastAsked(actions)] else []
  {
    assert (actions + [a])[..|actions|] == actions;
  }

  // What a step does to the notices: sends one, tells one, tells that there is none, or nothing.
  lemma StepTells(s: State, a: Action, t: State)
    requires Next(s, a) == Some(t)
    ensures a == SendClose && !s.r.ReaderGone? ==>
      && s.w.Closing? && Pending(s.shared.toReader) == [] && Pending(t.shared.toReader) == [Some(s.w.result)]
      && t.h.closeSent && t.h.told == s.h.told
    ensures a == ReadReceive ==> t.h.closeSent == s.h.closeSent && Pending(t.shared.toReader) == []
    ensures a == ReadReceive && Pending(s.shared.toReader) != [] ==>
      && t.h.told == s.h.told + [Result(s.shared.toReader.value.result)]
    ensures a == ReadReceive && Pending(s.shared.toReader) == [] ==>
      t.h.told == if s.shared.toReader.Some? then s.h.told else s.h.told + [NeverClosed]
    ensures a == ReadReceive && s.shared.toReader.None? ==> s.w.WriterGone?
    ensures a != ReadReceive && !(a == SendClose && !s.r.ReaderGone?) ==>
      && Pending(t.shared.toReader) == Pending(s.shared.toReader)
      && t.h.closeSent == s.h.closeSent && t.h.told == s.h.told
  {
  }

  // Who is there, and who is closing.
  lemma StepRoles(s: State, a: Action, t: State)
    requires Next(s, a) == Some(t)
    ensures t.w.WriterGone? <==> s.w.WriterGone? || a == DropWriter
    ensures t.r.ReaderGone? <==> s.r.ReaderGone? || a == DropReader
    ensures t.w.Closing? ==> (if a.BeginClose? then t.w.result == a.result else t.w == s.w)
    ensures t.h.refused > s.h.refused ==> s.r.ReaderGone?
  {
  }

  lemma StepKeepsResults(actions: seq<Action>, s: State, a: Action, t: State)
    requires ResultsKept(actions, s) && Next(s, a) == Some(t)
    ensures ResultsKept(actions + [a], t)
  {
    hide Sent, LastAsked, Results, Pending, Next;
    TraceSnoc(actions, a);
    StepTells(s, a, t);
    StepRoles(s, a, t);
    if t.h.told != s.h.told {
      ResultsSnoc(s.h.told, t.h.told[|s.h.told|]);
      PendingResult(s.shared.toReader);
    }
  }

  lemma PendingResult(slot: Option<Notice>)
    ensures slot.Some? && slot.value.Closed? ==> Pending(slot) == [Some(slot.value.result)]
    ensures Pending(slot) != [] <==> slot.Some? && slot.value.Closed?
  {
  }

  lemma NothingSent()
    ensures ResultsKept([], Init)
  {
  }

  lemma {:induction false} RunKeepsResults(actions: seq<Action>, s: State)
    requires Run(actions, s)
    ensures ResultsKept(actions, s)
    decreases |actions|
  {
    hide ResultsKept, Next, Allowed;
    if actions == [] {
      NothingSent();
    } else {
      var n := |actions| - 1;
      var t :| Run(actions[..n], t) && Allowed(t, actions[n]) && Next(t, actions[n]) == Some(s);
      RunKeepsResults(actions[..n], t);
      StepKeepsResults(actions[..n], t, actions[n], s);
      assert actions[..n] + [actions[n]] == actions;
    }
  }

  // In every run the reader has been told, in order, the arguments of the calls to close whose notice
  // was sent, but for one that may still be in the channel; a write is refused only without a reader.
  lemma ResultsInOrder(actions: seq<Action>, s: State)
    requires Run(actions, s)
    ensures Results(s.h.told) + Pending(s.shared.toReader) == Sent(actions)
    ensures NeverClosed in s.h.told ==> DropWriter in actions
    ensures s.h.refused > 0 ==> DropReader in actions
  {
    RunKeepsResults(actions, s);
  }

  // The next thing a waiting reader is told: the first result it has not been told, and "never closed"
  // exactly when there is none, no data either, and the writer is gone. Nothing else tells it anything.
  lemma ToldExactly(actions: seq<Action>, s: State, a: Action, t: State)
    requires Run(actions, s) && Next(s, a) == Some(t)
    ensures var k := |Results(s.h.told)|;
            && (a == ReadReceive && k < |Sent(actions)| ==>
                  Sent(actions)[k].Some? && t.h.told == s.h.told + [Result(Sent(actions)[k].value)])
            && (t.h.told == s.h.told + [NeverClosed] <==>
                  && a == ReadReceive && k == |Sent(actions)|
                  && s.shared.toReader.None? && DropWriter in actions)
            && (t.h.told != s.h.told ==> a == ReadReceive && s.r.ReadParked? && t.r.ReaderIdle?)
  {
    RunKeepsResults(actions, s);
    StepTells(s, a, t);
    if t.h.told != s.h.told {
      StepTellsIdle(s, a, t);
    }
    PendingResult(s.shared.toReader);
    hide Sent, Results, Next, Pending, Run;
    var k := |Results(s.h.told)|;
    assert k < |Sent(actions)| ==> Sent(actions)[k] == Pending(s.shared.toReader)[0];
    if t.h.told == s.h.told + [NeverClosed] {
      assert |t.h.told| == |s.h.told| + 1 && t.h.told[|s.h.told|] == NeverClosed;
    }
  }

  lemma StepTellsIdle(s: State, a: Action, t: State)
    requires Next(s, a) == Some(t) && t.h.told != s.h.told
    ensures a == ReadReceive && s.r.ReadParked? && t.r.ReaderIdle?
  {
  }

  // A parked write fails exactly when the reader was dropped and no wake-up is left, and adds no byte.
  lemma RefusedExactly(actions: seq<Action>, s: State, a: Action, t: State)
    requires Run(actions, s) && Next(s, a) == Some(t)
    ensures t.h.refused > s.h.refused <==> a == WriteReceive && !s.shared.toWriter && DropReader in actions
    ensures t.h.refused > s.h.refused ==> t.w.WriterIdle? && t.h.written == s.h.written
  {
    RunKeepsResults(actions, s);
    hide Run, ResultsKept;
  }

  // Waiting with an empty channel, while the other side is still there.
  ghost predicate ReaderStuck(s: State) {
    s.r.ReadParked? && s.shared.toReader.None? && !s.w.WriterGone?
  }

  ghost predicate WriterStuck(s: State) {
    s.w.WriteParked? && !s.shared.toWriter && !s.r.ReaderGone?
  }

  lemma NeverBothStuck(actions: seq<Action>, s: State)
    requires Run(actions, s)
    ensures ReaderStuck(s) ==> s.shared.buffer == []
    ensures WriterStuck(s) ==> |s.shared.buffer| == MAX_BUFFER_SIZE
    ensures !(ReaderStuck(s) && WriterStuck(s))
  {
    RunKeepsInv(actions, s);
  }

  // Steps inside calls that have begun.
  predicate Internal(a: Action) {
    a.WriteCheck? || a.WriteReceive? || a.SendClose? || a.ReadCheck? || a.ReadReceive?
  }

  ghost predicate WriterCalls(s: State) {
    s.w.WriteChecking? || s.w.WriteParked? || s.w.Closing?
  }

  ghost predicate ReaderCalls(s: State) {
    s.r.ReadChecking? || s.r.ReadParked?
  }

  // While both sides are inside a call, some step can be taken.
  lemma NoDeadlock(actions: seq<Action>, s: State) returns (a: Action)
    requires Run(actions, s) && WriterCalls(s) && ReaderCalls(s)
    ensures Internal(a) && Next(s, a).Some?
  {
    RunKeepsInv(actions, s);
    if s.w.WriteChecking? {
      a := WriteCheck;
    } else if s.r.ReadChecking? {
      a := ReadCheck;
    } else if s.shared.toReader.Some? {
      a := ReadReceive;
    } else if s.w.Closing? {
      a := SendClose;
    } else {
      a := WriteReceive;
    }
  }

  // How many internal steps can pass before one of the calls returns.
  ghost function Patience(s: State): nat {
    (if s.shared.toReader.Some? then 2 else 0) + (if s.shared.toWriter then 2 else 0)
    + (if s.w.WriteChecking? then 1 else 0) + (if s.r.ReadChecking? then 1 else 0)
  }

  // A run of internal steps in which no call returns.
  ghost predicate Fruitless(s: State, actions: seq<Action>)
    decreases |actions|
  {
    actions == [] ||
    var t := Next(s, actions[0]);
    && Internal(actions[0]) && t.Some?
    && (WriterCalls(t.value) <==> WriterCalls(s)) && (ReaderCalls(t.value) <==> ReaderCalls(s))
    && Fruitless(t.value, actions[1..])
  }

  // No livelock: a call returns after at most six internal steps of any schedule.
  lemma {:induction false} CallsReturn(s: State, actions: seq<Action>)
    requires Fruitless(s, actions)
    ensures |actions| <= Patience(s) <= 6
    decreases |actions|
  {
    if actions != [] {
      CallsReturn(Next(s, actions[0]).value, actions[1..]);
    }
  }

  // ---- Exactly when the order is safe ----

  // What the reader is promised.
  ghost predicate InOrder(s: State) {
    s.h.read + s.shared.buffer == s.h.written && (Ended(s) ==> s.h.read == s.h.written)
  }

  // Allowed steps that lead from one state to another.
  ghost predicate Follows(s: State, actions: seq<Action>, t: State)
    decreases |actions|
  {
    if actions == [] then s == t
    else Allowed(s, actions[0]) && Next(s, actions[0]).Some? && Follows(Next(s, actions[0]).value, actions[1..], t)
  }

  lemma {:induction false} FollowsKeepsInv(s: State, actions: seq<Action>, t: State)
    requires Inv(s) && Follows(s, actions, t)
    ensures Inv(t)
    decreases |actions|
  {
    if actions != [] {
      StepKeepsInv(s, actions[0], Next(s, actions[0]).value);
      FollowsKeepsInv(Next(s, actions[0]).value, actions[1..], t);
    }
  }

  lemma FollowsStep(s: State, a: Action, u: State, more: seq<Action>, t: State)
    requires Allowed(s, a) && Next(s, a) == Some(u) && Follows(u, more, t)
    ensures Follows(s, [a] + more, t)
  {
    assert ([a] + more)[1..] == more;
  }

  // Bytes that reach a waiting reader together with a close notice are lost to it.
  lemma LostToParked(s: State) returns (more: seq<Action>, t: State)
    requires s.w.WriteChecking? && s.w.buf != [] && s.r.ReadParked? && s.shared.buffer == [] && s.h.read == s.h.written
    requires s.shared.toReader.Some? && s.shared.toReader.value.Closed?
    ensures Follows(s, more, t) && !InOrder(t)
  {
    hide InOrder;
    var u := Next(s, WriteCheck).value;
    t := Next(u, ReadReceive).value;
    assert |t.h.written| > |t.h.read| && Ended(t);
    BrokenOrder(t);
    FollowsStep(u, ReadReceive, t, [], t);
    more := [WriteCheck] + ([ReadReceive] + []);
    FollowsStep(s, WriteCheck, u, [ReadReceive] + [], t);
  }

  lemma BrokenOrder(s: State)
    requires Ended(s) && |s.h.read| != |s.h.written|
    ensures !InOrder(s)
  {
  }

  // A reader that is still there can be made to wait: it gives up its call, takes what is buffered
  // and reads again.
  lemma LostToAny(s: State) returns (more: seq<Action>, t: State)
    requires s.w.WriteChecking? && s.w.buf != [] && !s.r.ReaderGone? && Conserved(s)
    requires s.shared.toReader.Some? && s.shared.toReader.value.Closed?
    ensures Follows(s, more, t) && !InOrder(t)
  {
    var idle := Next(s, AbandonReader).value;
    var asking := Next(idle, BeginRead(MAX_BUFFER_SIZE)).value;
    var checked := Next(asking, ReadCheck).value;
    var rest;
    if s.shared.buffer == [] {
      rest, t := LostToParked(checked);
    } else {
      var n := Min(MAX_BUFFER_SIZE, |s.shared.buffer|);
      assert checked.shared.buffer == [] && checked.h.read == s.h.read + s.shared.buffer;
      var again := Next(checked, BeginRead(MAX_BUFFER_SIZE)).value;
      var parked := Next(again, ReadCheck).value;
      rest, t := LostToParked(parked);
      FollowsStep(again, ReadCheck, parked, rest, t);
      FollowsStep(checked, BeginRead(MAX_BUFFER_SIZE), again, [ReadCheck] + rest, t);
      rest := [BeginRead(MAX_BUFFER_SIZE)] + ([ReadCheck] + rest);
    }
    FollowsStep(asking, ReadCheck, checked, rest, t);
    FollowsStep(idle, BeginRead(MAX_BUFFER_SIZE), asking, [ReadCheck] + rest, t);
    more := [AbandonReader] + ([BeginRead(MAX_BUFFER_SIZE)] + ([ReadCheck] + rest));
    FollowsStep(s, AbandonReader, idle, [BeginRead(MAX_BUFFER_SIZE)] + ([ReadCheck] + rest), t);
  }

  // A write that is not allowed breaks the order in some continuation of allowed steps.
  lemma BadWriteBreaksOrder(actions: seq<Action>, s: State, a: Action, u: State) returns (more: seq<Action>, t: State)
    requires Run(actions, s) && !Allowed(s, a) && Next(s, a) == Some(u)
    ensures Follows(u, more, t) && !InOrder(t)
  {
    RunKeepsInv(actions, s);
    if Ended(s) {
      assert s.shared.buffer == [];
      t := Next(u, WriteCheck).value;
      assert |t.h.written| > |t.h.read| && Ended(t);
      BrokenOrder(t);
      more := [WriteCheck] + [];
      FollowsStep(u, WriteCheck, t, [], t);
    } else {
      more, t := LostToAny(u);
    }
  }

  // No continuation of allowed steps can break the order.
  ghost predicate SafeFrom(s: State) {
    forall more, t :: Follows(s, more, t) ==> InOrder(t)
  }

  // In every state of every run, a step is allowed if and only if it leaves the order safe.
  lemma OrderSafeExactly(actions: seq<Action>, s: State, a: Action, u: State)
    requires Run(actions, s) && Next(s, a) == Some(u)
    ensures Allowed(s, a) <==> SafeFrom(u)
  {
    hide Follows, Run, Next, Allowed, Inv, InOrder;
    RunKeepsInv(actions, s);
    if Allowed(s, a) {
      StepKeepsInv(s, a, u);
      forall more, t | Follows(u, more, t)
        ensures InOrder(t)
      {
        FollowsKeepsInv(u, more, t);
        InvIsInOrder(t);
      }
    } else {
      var more, t := BadWriteBreaksOrder(actions, s, a, u);
      assert Follows(u, more, t) && !InOrder(t);
    }
  }

  lemma InvIsInOrder(s: State)
    requires Inv(s)
    ensures InOrder(s)
  {
  }

  // A close that is given up before its notice is placed does not forbid writing.
  lemma AbandonedCloseIsHarmless()
    ensures exists s1, s2 ::
      && Next(Init, BeginClose(Success)) == Some(s1) && Next(s1, AbandonWriter) == Some(s2)
      && Allowed(s2, BeginWrite([7])) && Next(s2, BeginWrite([7])).Some?
  {
    var s1 := Next(Init, BeginClose(Success)).value;
    var s2 := Next(s1, AbandonWriter).value;
  }

  // The shortest such run: here the reader is told that the stream has
  // ended while a byte is still in the buffer.
  lemma WriteAfterCloseLosesOrder()
    ensures exists s1, s2, s3, s4, s5, s6, s7 ::
      && Next(Init, BeginRead(1)) == Some(s1) && Next(s1, ReadCheck) == Some(s2)
      && Next(s2, BeginClose(Success)) == Some(s3) && Next(s3, SendClose) == Some(s4)
      && Next(s4, BeginWrite([7])) == Some(s5) && Next(s5, WriteCheck) == Some(s6)
      && Next(s6, ReadReceive) == Some(s7) && Ended(s7) && s7.h.read != s7.h.written
  {
    var s1 := Next(Init, BeginRead(1)).value;
    var s2 := Next(s1, ReadCheck).value;
    var s3 := Next(s2, BeginClose(Success)).value;
    var s4 := Next(s3, SendClose).value;
    var s5 := Next(s4, BeginWrite([7])).value;
    var s6 := Next(s5, WriteCheck).value;
    var s7 := Next(s6, ReadReceive).value;
  }

  // ---- The source's blocks, as they change the shared state in place ----

  class PipeBuffer {
    var buffer: seq<Byte>
    var toReader: Option<Notice>
    var toWriter: bool

    function View(): Shared
      reads this
    {
      Shared(buffer, toReader, toWriter)
    }

    constructor ()
      ensures View() == Init.shared
    {
      buffer, toReader, toWriter := [], None, false;
    }

    method WriteLocked(buf: seq<Byte>) returns (r: Option<nat>)
      modifies this
      ensures (View(), r) == WriteBlock(old(View()), buf)
    {
      if |buffer| < MAX_BUFFER_SIZE {
        var n := Min(MAX_BUFFER_SIZE - |buffer|, |buf|);
        buffer := buffer + buf[..n];
        if toReader.None? {
          toReader := Some(NewData);
        }
        return Some(n);
      }
      r := None;
    }

    // Moves the bytes after the first n to the front, one by one.
    method ReadLocked(len: nat) returns (r: Option<seq<Byte>>)
      modifies this
      ensures (View(), r) == ReadBlock(old(View()), len)
    {
      if buffer != [] {
        ghost var before := buffer;
        var n := Min(len, |buffer|);
        r := Some(buffer[..n]);
        var newLen := |buffer| - n;
        for i := 0 to newLen
          invariant |buffer| == |before|
          invariant forall k :: 0 <= k < i ==> buffer[k] == before[k + n]
          invariant forall k :: i <= k < |buffer| ==> buffer[k] == before[k]
          invariant toReader == old(toReader) && toWriter == old(toWriter)
        {
          buffer := buffer[i := buffer[i + n]];
        }
        assert buffer[..newLen] == before[n..];
        buffer := buffer[..newLen];
        toWriter := true;
        return;
      }
      r := None;
    }
  }
}
