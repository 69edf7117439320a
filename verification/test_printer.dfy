/** Output capture for test runs, as a sequential state machine. Until a run
    starts every caller writes to the process's standard output. Once it
    starts, the thread that started it keeps doing so and every other thread
    writes to a buffer of its own, created empty the first time the thread
    asks for a stream and never replaced afterwards. Thread identities are an
    abstract type `T`; locking is left out, each call is one atomic step. */
module TestPrinter {
  import opened Results

  /** Where a caller's output goes: standard output, or the buffer kept for
      thread `owner`. */
  datatype Stream<T> = Console | Buffer(owner: T)

  /** `started` is the run flag, `mainThread` the thread recorded by the
      start of the run (none before it), `streams` the buffer of every
      thread that has asked for a stream while capturing. */
  datatype Printer<T> = Printer(started: bool, mainThread: Option<T>, streams: map<T, string>)

  function Initial<T>(): (p: Printer<T>)
    ensures !p.started && p.streams == map[]
  {
    Printer(false, None, map[])
  }

  /** Output of `caller` is redirected: a run has started and `caller` is
      not the thread that started it. */
  predicate Captures<T(==)>(p: Printer<T>, caller: T)
  {
    p.started && p.mainThread != Some(caller)
  }

  /** `getStreamForThread`: the buffer of `id`, or nothing (`nullptr`)
      when `id` has none. */
  function StreamForThread<T>(p: Printer<T>, id: T): (r: Option<Stream<T>>)
    ensures r.Some? <==> id in p.streams
    ensures r.Some? ==> r.value == Buffer(id)
  {
    if id in p.streams then Some(Buffer(id)) else None
  }

  /** `getStream` called by thread `caller`: the new state and the stream. */
  function GetStream<T>(p: Printer<T>, caller: T): (r: (Printer<T>, Stream<T>))
    ensures !Captures(p, caller) ==> r == (p, Console)
    ensures Captures(p, caller) ==> r.1 == Buffer(caller)
    ensures Captures(p, caller) && caller in p.streams ==> r.0 == p
    ensures Captures(p, caller) && caller !in p.streams ==>
      r.0 == p.(streams := p.streams[caller := ""])
  {
    if Captures(p, caller) then
      match StreamForThread(p, caller)
      case Some(s) => (p, s)
      case None => (p.(streams := p.streams[caller := ""]), Buffer(caller))
    else (p, Console)
  }

  /** `startTests(id)`: the run flag is raised and `id` recorded as the
      thread whose output is not captured. */
  function StartTests<T>(p: Printer<T>, id: T): (r: Printer<T>)
    ensures r.started && r.mainThread == Some(id) && r.streams == p.streams
    ensures !Captures(r, id)
  {
    p.(started := true, mainThread := Some(id))
  }

  /** `caller` writes `text` to the stream it is given; the result is the
      new state and what reaches standard output. */
  function Write<T>(p: Printer<T>, caller: T, text: string): (r: (Printer<T>, string))
    ensures !Captures(p, caller) ==> r == (p, text)
    ensures Captures(p, caller) ==> r.1 == "" && Buffered(r.0, caller) == Buffered(p, caller) + text
  {
    var (q, s) := GetStream(p, caller);
    match s
    case Console => (q, text)
    case Buffer(owner) => (q.(streams := q.streams[owner := q.streams[owner] + text]), "")
  }

  /** What thread `t` has written into its buffer so far. */
  function Buffered<T>(p: Printer<T>, t: T): string
  {
    if t in p.streams then p.streams[t] else ""
  }

  /** Before a run starts, nothing is captured and nothing changes. */
  lemma NothingCapturedBeforeStart<T>(p: Printer<T>, caller: T, text: string)
    requires !p.started
    ensures GetStream(p, caller) == (p, Console)
    ensures Write(p, caller, text) == (p, text)
  {
  }

  /** The thread that started the run keeps writing to standard output. */
  lemma MainThreadNotCaptured<T>(p: Printer<T>, main: T, text: string)
    ensures GetStream(StartTests(p, main), main) == (StartTests(p, main), Console)
    ensures Write(StartTests(p, main), main, text) == (StartTests(p, main), text)
  {
  }

  /** Asking twice gives the same buffer, and the second request changes
      nothing: an existing buffer is never replaced or emptied. */
  lemma GetStreamStable<T>(p: Printer<T>, caller: T)
    ensures var (q, s) := GetStream(p, caller);
      GetStream(q, caller) == (q, s)
    ensures forall t :: t in p.streams ==>
      (t in GetStream(p, caller).0.streams && GetStream(p, caller).0.streams[t] == p.streams[t])
  {
  }

  /** A captured write appends to the writer's buffer only. */
  lemma WriteIsolated<T>(p: Printer<T>, caller: T, text: string)
    requires Captures(p, caller)
    ensures var q := Write(p, caller, text).0;
      Buffered(q, caller) == Buffered(p, caller) + text &&
      q.streams.Keys == p.streams.Keys + {caller} &&
      forall t :: t in p.streams && t != caller ==> q.streams[t] == p.streams[t]
    ensures Write(p, caller, text).1 == ""
  {
  }

  /** One call by some thread. */
  datatype Call<T> = Start(id: T) | Get(caller: T) | Put(caller: T, text: string)

  function Apply<T>(p: Printer<T>, c: Call<T>): Printer<T>
  {
    match c
    case Start(id) => StartTests(p, id)
    case Get(caller) => GetStream(p, caller).0
    case Put(caller, text) => Write(p, caller, text).0
  }

  /** The state after the calls, in order. */
  function Run<T>(p: Printer<T>, calls: seq<Call<T>>): Printer<T>
    decreases |calls|
  {
    if |calls| == 0 then p else Run(Apply(p, calls[0]), calls[1..])
  }

  /** No call lowers the run flag, removes a buffer or takes text out of one. */
  lemma {:induction false} RunMonotone<T>(p: Printer<T>, calls: seq<Call<T>>)
    ensures p.started ==> Run(p, calls).started
    ensures forall t :: t in p.streams ==>
      t in Run(p, calls).streams && p.streams[t] <= Run(p, calls).streams[t]
    decreases |calls|
  {
    if |calls| > 0 {
      var q := Apply(p, calls[0]);
      RunMonotone(q, calls[1..]);
      forall t | t in p.streams
        ensures t in q.streams && p.streams[t] <= q.streams[t]
      {
        if calls[0].Put? && calls[0].caller == t && Captures(p, t) {
          assert q.streams[t] == p.streams[t] + calls[0].text;
        }
      }
    }
  }

  /** Everything thread `t` writes, in order. */
  function WrittenBy<T(==)>(calls: seq<Call<T>>, t: T): string
    decreases |calls|
  {
    if |calls| == 0 then ""
    else (if calls[0].Put? && calls[0].caller == t then calls[0].text else "") + WrittenBy(calls[1..], t)
  }

  /** Output isolation: during a run, the buffer of a thread other than the
      main one grows by exactly what that thread writes, whatever the other
      threads do in between. */
  lemma {:induction false} BufferHoldsOwnWrites<T>(p: Printer<T>, calls: seq<Call<T>>, t: T)
    requires Captures(p, t)
    requires forall k :: 0 <= k < |calls| ==> !calls[k].Start?
    ensures Buffered(Run(p, calls), t) == Buffered(p, t) + WrittenBy(calls, t)
    decreases |calls|
  {
    if |calls| > 0 {
      var q := Apply(p, calls[0]);
      assert Captures(q, t);
      assert Buffered(q, t) == Buffered(p, t) + (if calls[0].Put? && calls[0].caller == t then calls[0].text else "");
      BufferHoldsOwnWrites(q, calls[1..], t);
    }
  }
}
