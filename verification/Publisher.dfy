/**
 The backup-event publisher: the Confluent wire frame, and lazy schema registration under a mutex by any number of
 detached publishing goroutines.
 */
module Publisher {
  import opened Sequences
  import opened Wrappers

  type Byte = b: int | 0 <= b < 256
  type Int32 = i: int | -0x8000_0000 <= i < 0x8000_0000

  // ---------- The wire frame ----------

  const MAGIC: Byte := 0
  const FIRST_MESSAGE: Byte := 0

  /** Go's uint32(x) of a signed 32-bit value. */
  function Unsigned(x: Int32): nat { if x >= 0 then x else x + 0x1_0000_0000 }

  function BigEndian(n: nat): (r: seq<Byte>)
    requires n < 0x1_0000_0000
  {
    [n / 0x100 / 0x100 / 0x100, n / 0x100 / 0x100 % 0x100, n / 0x100 % 0x100, n % 0x100]
  }

  function FromBigEndian(a: int, b: int, c: int, d: int): int {
    ((a * 0x100 + b) * 0x100 + c) * 0x100 + d
  }

  function Frame(id: Int32, payload: seq<Byte>): seq<Byte> {
    [MAGIC] + BigEndian(Unsigned(id)) + [FIRST_MESSAGE] + payload
  }

  /** What a consumer makes of a frame. */
  function Decode(f: seq<Byte>): Option<(Int32, seq<Byte>)> {
    if |f| < 6 || f[0] != MAGIC || f[5] != FIRST_MESSAGE then None
    else
      var n := FromBigEndian(f[1], f[2], f[3], f[4]);
      Some((if n < 0x8000_0000 then n else n - 0x1_0000_0000, f[6..]))
  }

  /** encode, as it appends to its buffer. */
  method Encode(schemaId: Int32, payload: seq<Byte>) returns (out: seq<Byte>)
    ensures out == Frame(schemaId, payload)
  {
    out := [];
    out := out + [MAGIC];
    var id := BigEndian(Unsigned(schemaId));
    out := out + id;
    out := out + [FIRST_MESSAGE];
    out := out + payload;
  }

  /** Every frame decodes to the id and payload it was made of. */
  lemma FrameRoundTrip(id: Int32, payload: seq<Byte>)
    ensures Decode(Frame(id, payload)) == Some((id, payload))
  {
    var f, n := Frame(id, payload), Unsigned(id);
    assert f[1..5] == BigEndian(n);
    assert f[1] == f[1..5][0] && f[2] == f[1..5][1] && f[3] == f[1..5][2] && f[4] == f[1..5][3];
    assert f[6..] == payload;
  }

  /** And every frame a consumer accepts is the frame of what it decoded. */
  lemma DecodeRoundTrip(f: seq<Byte>)
    requires Decode(f).Some?
    ensures Frame(Decode(f).value.0, Decode(f).value.1) == f
  {
    var (id, payload) := Decode(f).value;
    var n := FromBigEndian(f[1], f[2], f[3], f[4]);
    assert Unsigned(id) == n;
    BigEndianIs(f[1], f[2], f[3], f[4]);
    assert f == [f[0]] + [f[1], f[2], f[3], f[4]] + [f[5]] + f[6..];
  }

  lemma BigEndianIs(a: Byte, b: Byte, c: Byte, d: Byte)
    ensures 0 <= FromBigEndian(a, b, c, d) < 0x1_0000_0000
    ensures BigEndian(FromBigEndian(a, b, c, d)) == [a, b, c, d]
  {
    var n := FromBigEndian(a, b, c, d);
    assert n / 0x100 == (a * 0x100 + b) * 0x100 + c;
    assert n / 0x100 / 0x100 == a * 0x100 + b;
  }

  /** The layout, in numbers: a zero, the id modulo 2^32 with its highest byte first, a zero, then the payload. */
  lemma FrameLayout(id: Int32, payload: seq<Byte>)
    ensures var f := Frame(id, payload);
            && |f| == 6 + |payload| && f[0] == 0 && f[5] == 0 && f[6..] == payload
            && f[1] as int * 16777216 + f[2] as int * 65536 + f[3] as int * 256 + f[4] as int == id as int % 4294967296
  {
    var f, n := Frame(id, payload), Unsigned(id);
    assert f[1..5] == BigEndian(n);
    assert f[1] == f[1..5][0] && f[2] == f[1..5][1] && f[3] == f[1..5][2] && f[4] == f[1..5][3];
    assert f[6..] == payload;
  }

  lemma FramesAreInjective(id: Int32, payload: seq<Byte>, id': Int32, payload': seq<Byte>)
    requires Frame(id, payload) == Frame(id', payload')
    ensures id == id' && payload == payload'
  {
    FrameRoundTrip(id, payload);
    FrameRoundTrip(id', payload');
  }

  // ---------- Concurrent publishing ----------

  /** A publishing goroutine between two shared accesses. */
  datatype PC =
    | Called                     // about to lock
    | Locked                     // holds the mutex, about to read the flag
    | Registering                // holds the mutex, the registry request is in flight
    | Cached                     // id and flag are written, about to unlock
    | Refused                    // the registry failed, about to unlock with the error
    | Encoding                   // unlocked, about to read the schema id
    | Produced(frame: seq<Byte>) // the frame handed to the producer
    | Errored                    // returned an error

  datatype World = World(
    lock: Option<nat>, registered: bool, schemaId: Int32, successes: nat,
    payloads: seq<seq<Byte>>, pcs: seq<PC>)

  /**
   A goroutine's step; `answer` is the registry's reply where one is awaited, `marshals` whether the payload marshals.
   */
  datatype Move = Move(i: nat, answer: Option<Int32>, marshals: bool)

  predicate WellFormed(w: World) { |w.pcs| == |w.payloads| }

  predicate Enabled(w: World, m: Move) {
    && m.i < |w.pcs|
    && (match w.pcs[m.i]
        case Called => w.lock.None?
        case Produced(_) => false
        case Errored => false
        case _ => true)
  }

  function Next(w: World, m: Move): (w': World)
    requires WellFormed(w) && Enabled(w, m)
    ensures WellFormed(w') && w'.payloads == w.payloads
  {
    var i := m.i;
    match w.pcs[i]
    case Called => w.(lock := Some(i), pcs := w.pcs[i := Locked])
    case Locked =>
      if w.registered then w.(lock := None, pcs := w.pcs[i := Encoding])
      else w.(pcs := w.pcs[i := Registering])
    case Registering =>
      (match m.answer
       case None => w.(pcs := w.pcs[i := Refused])
       case Some(id) => w.(schemaId := id, registered := true, successes := w.successes + 1, pcs := w.pcs[i := Cached]))
    case Cached => w.(lock := None, pcs := w.pcs[i := Encoding])
    case Refused => w.(lock := None, pcs := w.pcs[i := Errored])
    case Encoding =>
      if m.marshals then w.(pcs := w.pcs[i := Produced(Frame(w.schemaId, w.payloads[i]))])
      else w.(pcs := w.pcs[i := Errored])
    case _ => w
  }

  predicate InLock(pc: PC) { pc.Locked? || pc.Registering? || pc.Cached? || pc.Refused? }

  ghost predicate Inv(w: World) {
    && WellFormed(w)
    && w.successes == (if w.registered then 1 else 0)
    && (forall i :: 0 <= i < |w.pcs| ==> (InLock(w.pcs[i]) <==> w.lock == Some(i)))
    && (w.lock.Some? ==> w.lock.value < |w.pcs|)
    && (forall i :: 0 <= i < |w.pcs| && (w.pcs[i].Registering? || w.pcs[i].Refused?) ==> !w.registered)
    && (forall i :: 0 <= i < |w.pcs| && (w.pcs[i].Cached? || w.pcs[i].Encoding? || w.pcs[i].Produced?) ==> w.registered)
    && (forall i :: 0 <= i < |w.pcs| && w.pcs[i].Produced? ==> w.pcs[i].frame == Frame(w.schemaId, w.payloads[i]))
  }

  function Start(payloads: seq<seq<Byte>>): World {
    World(None, false, 0, 0, payloads, seq(|payloads|, _ => Called))
  }

  ghost predicate IsRun(w: World, moves: seq<Move>, w': World)
    requires WellFormed(w)
    decreases |moves|
  {
    if moves == [] then w' == w
    else Enabled(w, moves[0]) && IsRun(Next(w, moves[0]), moves[1..], w')
  }

  lemma StepKeepsInv(w: World, m: Move)
    requires Inv(w) && Enabled(w, m)
    ensures Inv(Next(w, m))
    ensures w.registered ==> Next(w, m).registered && Next(w, m).schemaId == w.schemaId
  {
  }

  /** Over any run the flag never falls and the id is never rewritten once set. */
  lemma {:induction false} RunKeepsInv(w: World, moves: seq<Move>, w': World)
    requires Inv(w) && IsRun(w, moves, w')
    ensures Inv(w') && w'.payloads == w.payloads
    ensures w.registered ==> w'.registered && w'.schemaId == w.schemaId
    decreases |moves|
  {
    if moves != [] {
      StepKeepsInv(w, moves[0]);
      RunKeepsInv(Next(w, moves[0]), moves[1..], w');
    }
  }

  /**
   Over every interleaving of first publishes and every pattern of registry failures: at most one registration succeeds,
   and every frame produced decodes to that one id and its own payload.
   */
  lemma RegistersAtMostOnce(payloads: seq<seq<Byte>>, moves: seq<Move>, w: World)
    requires IsRun(Start(payloads), moves, w)
    ensures w.successes <= 1 && (w.registered <==> w.successes == 1)
    ensures |w.pcs| == |payloads| && forall i :: 0 <= i < |payloads| && w.pcs[i].Produced? ==>
              Decode(w.pcs[i].frame) == Some((w.schemaId, payloads[i]))
  {
    RunKeepsInv(Start(payloads), moves, w);
    forall i | 0 <= i < |payloads| && w.pcs[i].Produced?
      ensures Decode(w.pcs[i].frame) == Some((w.schemaId, payloads[i]))
    {
      FrameRoundTrip(w.schemaId, payloads[i]);
    }
  }

  /** Two frames produced at different moments of a run carry the same id. */
  lemma FramesAgree(w: World, moves: seq<Move>, w': World, i: nat, j: nat)
    requires Inv(w) && IsRun(w, moves, w') && i < |w.pcs| && j < |w'.pcs|
    requires w.pcs[i].Produced? && w'.pcs[j].Produced?
    ensures Decode(w.pcs[i].frame).Some? && Decode(w'.pcs[j].frame).Some?
    ensures Decode(w.pcs[i].frame).value.0 == Decode(w'.pcs[j].frame).value.0
  {
    RunKeepsInv(w, moves, w');
    FrameRoundTrip(w.schemaId, w.payloads[i]);
    FrameRoundTrip(w'.schemaId, w'.payloads[j]);
  }

  /** A failed registration leaves the flag clear, releases the mutex, and the next caller registers afresh. */
  lemma FailureCanBeRetried(w: World, i: nat, j: nat, id: Int32) returns (w': World)
    requires Inv(w) && i < |w.pcs| && j < |w.pcs| && i != j
    requires w.pcs[i] == Registering && w.pcs[j] == Called
    ensures IsRun(w, [Move(i, None, true), Move(i, None, true), Move(j, None, true), Move(j, None, true),
                      Move(j, Some(id), true), Move(j, None, true)], w')
    ensures |w'.pcs| == |w.pcs| && w'.registered && w'.schemaId == id && w'.pcs[i] == Errored && w'.pcs[j] == Encoding
  {
    var fail, go, ok := Move(i, None, true), Move(j, None, true), Move(j, Some(id), true);
    var w1 := Next(w, fail);
    var w2 := Next(w1, fail);
    var w3 := Next(w2, go);
    var w4 := Next(w3, go);
    var w5 := Next(w4, ok);
    w' := Next(w5, go);
    assert IsRun(w', [], w');
    OneMore(w5, go, [], w');
    OneMore(w4, ok, [go], w');
    OneMore(w3, go, [ok, go], w');
    OneMore(w2, go, [go, ok, go], w');
    OneMore(w1, fail, [go, go, ok, go], w');
    OneMore(w, fail, [fail, go, go, ok, go], w');
  }

  /** The steps a call still has to take at most. */
  function Remaining(pc: PC): nat {
    match pc
    case Called => 5
    case Locked => 4
    case Registering => 3
    case Cached => 2
    case Refused => 1
    case Encoding => 1
    case _ => 0
  }

  function Work(pcs: seq<PC>): nat { Total(Remaining, pcs) }

  /** Every move does some of the remaining work, whatever the registry answers, so every run ends. */
  lemma {:induction false} RunsEnd(w: World, moves: seq<Move>, w': World)
    requires WellFormed(w) && IsRun(w, moves, w')
    ensures |moves| + Work(w'.pcs) <= Work(w.pcs)
    decreases |moves|
  {
    if moves != [] {
      TotalUpdate(Remaining, w.pcs, moves[0].i, Next(w, moves[0]).pcs[moves[0].i]);
      RunsEnd(Next(w, moves[0]), moves[1..], w');
    }
  }

  /** From here on the registry answers and payloads marshal. */
  predicate Healthy(moves: seq<Move>) {
    forall k :: 0 <= k < |moves| ==> moves[k].answer.Some? && moves[k].marshals
  }

  lemma {:induction false} HealthyRunsDoNotFail(w: World, moves: seq<Move>, w': World, i: nat)
    requires WellFormed(w) && IsRun(w, moves, w') && Healthy(moves) && i < |w.pcs|
    requires !w.pcs[i].Refused? && !w.pcs[i].Errored?
    ensures |w'.pcs| == |w.pcs| && !w'.pcs[i].Refused? && !w'.pcs[i].Errored?
    decreases |moves|
  {
    if moves != [] {
      assert forall k :: 0 <= k < |moves[1..]| ==> moves[1..][k] == moves[k + 1];
      HealthyRunsDoNotFail(Next(w, moves[0]), moves[1..], w', i);
    }
  }

  /**
   Self-healing: whatever failed before, once the registry answers, every run comes to an end, and by then each call
   that had not failed is published, in every interleaving, under the one registered id.
   */
  lemma RecoveryPublishes(w: World, moves: seq<Move>, w': World, i: nat)
    requires Inv(w) && IsRun(w, moves, w') && Healthy(moves) && forall m :: !Enabled(w', m)
    requires i < |w.pcs| && !w.pcs[i].Refused? && !w.pcs[i].Errored?
    ensures |moves| <= Work(w.pcs)
    ensures w'.registered && i < |w'.pcs| && w'.pcs[i].Produced?
    ensures Decode(w'.pcs[i].frame) == Some((w'.schemaId, w.payloads[i]))
  {
    RunsEnd(w, moves, w');
    RunKeepsInv(w, moves, w');
    HealthyRunsDoNotFail(w, moves, w', i);
    if !w'.pcs[i].Produced? {
      NeverStuck(w', i);
    }
    FrameRoundTrip(w'.schemaId, w'.payloads[i]);
  }

  /** A call whose payload does not marshal publishes nothing, in any interleaving. */
  lemma {:induction false} UnmarshalledIsNotPublished(w: World, moves: seq<Move>, w': World, i: nat)
    requires WellFormed(w) && IsRun(w, moves, w') && i < |w.pcs| && !w.pcs[i].Produced?
    requires forall k :: 0 <= k < |moves| && moves[k].i == i ==> !moves[k].marshals
    ensures |w'.pcs| == |w.pcs| && !w'.pcs[i].Produced?
    decreases |moves|
  {
    if moves != [] {
      assert forall k :: 0 <= k < |moves[1..]| ==> moves[1..][k] == moves[k + 1];
      UnmarshalledIsNotPublished(Next(w, moves[0]), moves[1..], w', i);
    }
  }

  /** From the daemon's start a run of n publishes takes at most 5n steps, failures included. */
  lemma EveryRunEnds(payloads: seq<seq<Byte>>, moves: seq<Move>, w: World)
    requires IsRun(Start(payloads), moves, w)
    ensures |moves| <= 5 * |payloads|
  {
    RunsEnd(Start(payloads), moves, w);
    TotalOfSame(Remaining, Start(payloads).pcs, 5);
  }

  lemma OneMore(w: World, m: Move, ms: seq<Move>, w': World)
    requires WellFormed(w) && Enabled(w, m) && IsRun(Next(w, m), ms, w')
    ensures IsRun(w, [m] + ms, w')
  {
    assert ([m] + ms)[1..] == ms;
  }

  /** Until every call has returned, some goroutine can move. */
  lemma NeverStuck(w: World, i: nat)
    requires Inv(w) && i < |w.pcs| && !w.pcs[i].Produced? && !w.pcs[i].Errored?
    ensures exists m :: Enabled(w, m)
  {
    if w.lock.Some? {
      assert Enabled(w, Move(w.lock.value, None, true));
    } else {
      assert Enabled(w, Move(i, None, true));
    }
  }
}
