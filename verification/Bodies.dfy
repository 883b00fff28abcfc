/**
  Request and response bodies as state machines: the size limit on an incoming request body over
  any sequence of polls, and the bytes a response body still owes.
 */
module Bodies {
  type Byte = b: int | 0 <= b < 256
  type Bytes = seq<Byte>

  datatype Frame = Data(bytes: Bytes) | Trailers

  datatype Poll = Pending | End | Failed | Ready(frame: Frame)

  /** The data bytes a sequence of polls delivered. */
  function Delivered(polls: seq<Poll>): Bytes {
    if polls == [] then []
    else (if polls[0].Ready? && polls[0].frame.Data? then polls[0].frame.bytes else []) + Delivered(polls[1..])
  }

  // ---------------------------------------------------------------- the limited request body

  /** The range of `usize`, in which the counter wraps. */
  const USIZE := 0x1_0000_0000_0000_0000

  function Counted(seen: nat, frame: Frame): nat {
    match frame
    case Data(bytes) => (seen + |bytes|) % USIZE
    case Trailers => seen
  }

  /** `LimitedIncoming::poll_frame`, given what the inner body answered: the new count and the answer. */
  function LimitedPoll(seen: nat, max: nat, inner: Poll): (nat, Poll) {
    match inner
    case Ready(frame) =>
      var count := Counted(seen, frame);
      (count, if frame.Data? && count > max then Failed else inner)
    case _ => (seen, inner)
  }

  /** The answers over a whole sequence of polls, errors included. */
  function LimitedRun(seen: nat, max: nat, inner: seq<Poll>): seq<Poll>
    decreases |inner|
  {
    if inner == [] then []
    else
      var (count, answer) := LimitedPoll(seen, max, inner[0]);
      [answer] + LimitedRun(count, max, inner[1..])
  }

  /** An inner body, by the answers it will give. */
  class Incoming {
    var script: seq<Poll>

    constructor (script: seq<Poll>)
      ensures this.script == script
    {
      this.script := script;
    }

    method PollFrame() returns (p: Poll)
      modifies this
      ensures if old(script) == [] then p == End && script == [] else p == old(script)[0] && script == old(script)[1..]
    {
      if script == [] {
        return End;
      }
      p := script[0];
      script := script[1..];
    }
  }

  class LimitedIncoming {
    const inner: Incoming
    var seen: nat
    const max: nat

    constructor (inner: Incoming, max: nat)
      ensures this.inner == inner && seen == 0 && this.max == max
    {
      this.inner, seen, this.max := inner, 0, max;
    }

    method PollFrame() returns (p: Poll)
      modifies this, inner
      ensures (seen, p) == LimitedPoll(old(seen), max, if old(inner.script) == [] then End else old(inner.script)[0])
      ensures inner.script == if old(inner.script) == [] then [] else old(inner.script)[1..]
    {
      p := inner.PollFrame();
      if p.Ready? && p.frame.Data? {
        seen := (seen + |p.frame.bytes|) % USIZE;
        if seen > max {
          p := Failed;
        }
      }
    }

    /** Polling until the inner body's script is used up gives the run. */
    method PollAll() returns (answers: seq<Poll>)
      modifies this, inner
      ensures answers == LimitedRun(old(seen), max, old(inner.script)) && inner.script == []
    {
      answers := [];
      ghost var all := inner.script;
      while inner.script != []
        invariant answers + LimitedRun(seen, max, inner.script) == LimitedRun(old(seen), max, all)
        decreases |inner.script|
      {
        ghost var left := inner.script;
        ghost var count := seen;
        var p := PollFrame();
        assert LimitedRun(count, max, left) == [p] + LimitedRun(seen, max, inner.script);
        answers := answers + [p];
      }
    }
  }

  function DataOf(p: Poll): Bytes {
    if p.Ready? && p.frame.Data? then p.frame.bytes else []
  }

  lemma CountMoves(seen: nat, max: nat, p: Poll)
    requires seen + |DataOf(p)| < USIZE
    ensures var (count, answer) := LimitedPoll(seen, max, p);
      && count == seen + |DataOf(p)|
      && DataOf(answer) == if DataOf(p) != [] && count > max then [] else DataOf(p)
  {
  }

  lemma NothingDelivered()
    ensures Delivered([]) == []
  {
  }

  lemma DeliveredCons(polls: seq<Poll>)
    requires polls != []
    ensures Delivered(polls) == DataOf(polls[0]) + Delivered(polls[1..])
  {
  }

  /** Never more than the limit is delivered, not even after an error; and never anything out of order. */
  lemma {:induction false} LimitHolds(seen: nat, max: nat, inner: seq<Poll>)
    requires seen + |Delivered(inner)| < USIZE
    ensures Delivered(LimitedRun(seen, max, inner)) <= Delivered(inner)
    ensures |Delivered(LimitedRun(seen, max, inner))| <= if seen <= max then max - seen else 0
    decreases |inner|
  {
    hide LimitedPoll, DataOf, Delivered;
    if inner != [] {
      DeliveredCons(inner);
      var (count, answer) := LimitedPoll(seen, max, inner[0]);
      var run := LimitedRun(seen, max, inner);
      CountMoves(seen, max, inner[0]);
      LimitHolds(count, max, inner[1..]);
      assert run[1..] == LimitedRun(count, max, inner[1..]);
      DeliveredCons(run);
    }
    NothingDelivered();
  }

  /** The limit holds for every inner body of up to `total` bytes. */
  ghost predicate LimitKept(max: nat, total: nat) {
    forall inner | |Delivered(inner)| <= total :: |Delivered(LimitedRun(0, max, inner))| <= max
  }

  /** `n` polls that deliver a byte each. */
  function Drip(n: nat): seq<Poll> {
    if n == 0 then [] else [Ready(Data([0]))] + Drip(n - 1)
  }

  lemma {:induction false} DripDelivers(n: nat)
    ensures |Delivered(Drip(n))| == n
    decreases n
  {
    if n > 0 {
      DripDelivers(n - 1);
      assert Drip(n)[1..] == Drip(n - 1);
    }
  }

  /** The byte that brings the counter back to zero is delivered after all the limit allowed. */
  lemma {:induction false} DripOverflows(seen: nat, max: nat, n: nat)
    requires n > 0 && seen + n == USIZE && max < USIZE
    ensures |Delivered(LimitedRun(seen, max, Drip(n)))| == (if seen <= max then max - seen else 0) + 1
    decreases n
  {
    hide Delivered, Drip;
    DripUnfolds(n);
    var run := LimitedRun(seen, max, Drip(n));
    var (count, answer) := LimitedPoll(seen, max, Ready(Data([0])));
    assert run == [answer] + LimitedRun(count, max, Drip(n - 1));
    assert run[1..] == LimitedRun(count, max, Drip(n - 1));
    DeliveredCons(run);
    if n > 1 {
      DripOverflows(seen + 1, max, n - 1);
    } else {
      DripEnds();
      NothingDelivered();
    }
  }

  lemma DripUnfolds(n: nat)
    requires n > 0
    ensures Drip(n) != [] && Drip(n)[0] == Ready(Data([0])) && Drip(n)[1..] == Drip(n - 1)
  {
  }

  lemma DripEnds()
    ensures Drip(0) == []
  {
  }

  /** The limit can be relied on exactly for bodies whose length the counter can hold. */
  lemma LimitHoldsIff(max: nat, total: nat)
    requires max < USIZE
    ensures LimitKept(max, total) <==> total < USIZE
  {
    hide Delivered, LimitedRun, Drip;
    if total < USIZE {
      forall inner | |Delivered(inner)| <= total ensures |Delivered(LimitedRun(0, max, inner))| <= max {
        LimitHolds(0, max, inner);
      }
    } else {
      DripDelivers(USIZE);
      DripOverflows(0, max, USIZE);
    }
  }

  /** The count after a sequence of polls. */
  function CountAfter(seen: nat, inner: seq<Poll>): nat {
    (seen + |Delivered(inner)|) % USIZE
  }

  lemma CountAfterCons(seen: nat, max: nat, inner: seq<Poll>, k: nat)
    requires 0 < k <= |inner| && seen < USIZE
    ensures CountAfter(seen, inner[..k]) == CountAfter(LimitedPoll(seen, max, inner[0]).0, inner[1..][..k - 1])
  {
    hide Delivered;
    assert inner[..k][1..] == inner[1..][..k - 1];
    DeliveredCons(inner[..k]);
  }

  /** The limit is invisible exactly when the count never goes above it. */
  lemma {:induction false} LimitIsIdentityIff(seen: nat, max: nat, inner: seq<Poll>)
    requires seen <= max < USIZE
    ensures LimitedRun(seen, max, inner) == inner <==>
      forall k | 0 <= k <= |inner| :: CountAfter(seen, inner[..k]) <= max
    decreases |inner|
  {
    hide CountAfter, Delivered;
    NoneCounted(seen);
    assert inner[..0] == [];
    if inner != [] {
      var (count, answer) := LimitedPoll(seen, max, inner[0]);
      var run := LimitedRun(seen, max, inner);
      assert run[1..] == LimitedRun(count, max, inner[1..]);
      assert inner == [inner[0]] + inner[1..];
      forall k | 0 < k <= |inner| ensures CountAfter(seen, inner[..k]) == CountAfter(count, inner[1..][..k - 1]) {
        CountAfterCons(seen, max, inner, k);
      }
      if count <= max {
        LimitIsIdentityIff(count, max, inner[1..]);
        ShiftedBound(seen, count, max, inner);
      } else {
        assert run[0] != inner[0];
        NoneCounted(count);
        assert inner[1..][..0] == [];
      }
    }
  }

  /**
    Every answer of the limited body: an error where the count, as it wraps, goes above the limit at a
    data frame, and otherwise what the inner body answered.
   */
  lemma {:induction false} LimitedAnswers(seen: nat, max: nat, inner: seq<Poll>, k: nat)
    requires seen < USIZE && k < |inner|
    ensures |LimitedRun(seen, max, inner)| == |inner|
    ensures LimitedRun(seen, max, inner)[k] ==
      if inner[k].Ready? && inner[k].frame.Data? && CountAfter(seen, inner[..k + 1]) > max then Failed else inner[k]
    decreases k
  {
    hide CountAfter, Delivered;
    var (count, answer) := LimitedPoll(seen, max, inner[0]);
    CountAfterCons(seen, max, inner, k + 1);
    RunLength(count, max, inner[1..]);
    if k > 0 {
      LimitedAnswers(count, max, inner[1..], k - 1);
    } else {
      assert inner[1..][..0] == [];
      NoneCounted(count);
    }
  }

  lemma {:induction false} RunLength(seen: nat, max: nat, inner: seq<Poll>)
    ensures |LimitedRun(seen, max, inner)| == |inner|
    decreases |inner|
  {
    if inner != [] {
      RunLength(LimitedPoll(seen, max, inner[0]).0, max, inner[1..]);
    }
  }

  /** A body whose length the counter can hold, and that does not fail by itself, fails exactly when it is too long. */
  lemma TooLongIsReported(max: nat, inner: seq<Poll>)
    requires max < USIZE && |Delivered(inner)| < USIZE && Failed !in inner
    ensures Failed in LimitedRun(0, max, inner) <==> |Delivered(inner)| > max
  {
    hide LimitedRun, Delivered, CountAfter;
    var run := LimitedRun(0, max, inner);
    RunLength(0, max, inner);
    LimitInvisibleIfFits(max, inner);
    if |Delivered(inner)| > max {
      var k := 0;
      while k < |inner| && run[k] == inner[k]
        invariant k <= |inner| && forall j | 0 <= j < k :: run[j] == inner[j]
      {
        k := k + 1;
      }
      assert k == |inner| ==> run == inner;
      LimitedAnswers(0, max, inner, k);
      assert run[k] == Failed;
    }
  }

  lemma NoneCounted(seen: nat)
    requires seen < USIZE
    ensures CountAfter(seen, []) == seen
  {
  }

  lemma ShiftedBound(seen: nat, count: nat, max: nat, inner: seq<Poll>)
    requires inner != [] && CountAfter(seen, inner[..0]) <= max
    requires forall k | 0 < k <= |inner| :: CountAfter(seen, inner[..k]) == CountAfter(count, inner[1..][..k - 1])
    ensures (forall k | 0 <= k <= |inner| :: CountAfter(seen, inner[..k]) <= max) <==>
      forall k | 0 <= k <= |inner[1..]| :: CountAfter(count, inner[1..][..k]) <= max
  {
    hide CountAfter;
    forall k | 0 <= k <= |inner[1..]| ensures CountAfter(count, inner[1..][..k]) == CountAfter(seen, inner[..k + 1]) {
    }
  }

  /** For a body whose length the counter can hold: exactly when everything fits. */
  lemma LimitInvisibleIfFits(max: nat, inner: seq<Poll>)
    requires max < USIZE && |Delivered(inner)| < USIZE
    ensures LimitedRun(0, max, inner) == inner <==> |Delivered(inner)| <= max
  {
    hide Delivered, LimitedRun;
    LimitIsIdentityIff(0, max, inner);
    forall k | 0 <= k <= |inner| ensures |Delivered(inner[..k])| <= |Delivered(inner)| {
      DeliveredSplits(inner, k);
    }
    assert inner[..|inner|] == inner;
    if |Delivered(inner)| > max {
      assert CountAfter(0, inner[..|inner|]) > max;
    }
  }

  lemma {:induction false} DeliveredSplits(polls: seq<Poll>, k: nat)
    requires k <= |polls|
    ensures Delivered(polls) == Delivered(polls[..k]) + Delivered(polls[k..])
    decreases k
  {
    hide Delivered, DataOf;
    NothingDelivered();
    if k == 0 {
      assert polls[..0] == [] && polls[0..] == polls;
    } else {
      DeliveredSplits(polls[1..], k - 1);
      DeliveredCons(polls);
      DeliveredCons(polls[..k]);
      assert polls[..k][1..] == polls[1..][..k - 1] && polls[1..][k - 1..] == polls[k..];
    }
  }

  // ---------------------------------------------------------------- the plain request body

  datatype ReqBody = Empty | Once(bytes: Bytes)

  function ReqPoll(b: ReqBody): (ReqBody, Poll) {
    match b
    case Empty => (Empty, End)
    case Once(bytes) => (Empty, Ready(Data(bytes)))
  }

  predicate ReqIsEndStream(b: ReqBody) {
    b.Empty? || b.bytes == []
  }

  function ReqSizeHint(b: ReqBody): nat {
    match b
    case Empty => 0
    case Once(bytes) => |bytes|
  }

  /** The bytes still to come. */
  function ReqRemaining(b: ReqBody): Bytes {
    match b
    case Empty => []
    case Once(bytes) => bytes
  }

  /** The body after `n` polls, and what they answered. */
  function ReqRun(b: ReqBody, n: nat): (ReqBody, seq<Poll>)
    decreases n
  {
    if n == 0 then (b, [])
    else
      var (next, p) := ReqPoll(b);
      var (last, rest) := ReqRun(next, n - 1);
      (last, [p] + rest)
  }

  /**
    Over any number of polls: what was delivered followed by what remains is the original body, and the
    hint is its length.
   */
  lemma {:induction false} ReqBytesAreConserved(b: ReqBody, n: nat)
    ensures var (last, polls) := ReqRun(b, n);
      && Delivered(polls) + ReqRemaining(last) == ReqRemaining(b)
      && |Delivered(polls)| + ReqSizeHint(last) == ReqSizeHint(b)
      && (n > 0 ==> Delivered(polls) == ReqRemaining(b))
    decreases n
  {
    if n > 0 {
      var (next, p) := ReqPoll(b);
      var (last, rest) := ReqRun(next, n - 1);
      ReqBytesAreConserved(next, n - 1);
      assert ([p] + rest)[1..] == rest;
    }
  }

  function Ends(n: nat): seq<Poll> {
    if n == 0 then [] else [End] + Ends(n - 1)
  }

  /** All later polls answer End exactly for `Empty`; so an empty `Once` alone reports its end too early. */
  lemma {:induction false} ReqEndStreamIff(b: ReqBody, n: nat)
    requires n > 0
    ensures ReqRun(b, n).1 == Ends(n) <==> b.Empty?
    ensures (ReqIsEndStream(b) ==> ReqRun(b, n).1 == Ends(n)) <==> (b.Once? ==> b.bytes != [])
    decreases n
  {
    var (next, p) := ReqPoll(b);
    assert ReqRun(b, n).1[0] == p && Ends(n)[0] == End;
    if b.Empty? && n > 1 {
      ReqEndStreamIff(next, n - 1);
    }
  }

  // ---------------------------------------------------------------- the response body

  datatype ResBody = NoBody | OnceBody(bytes: Bytes) | Chunks(chunks: seq<Bytes>)

  function Joined(chunks: seq<Bytes>): Bytes {
    if chunks == [] then [] else chunks[0] + Joined(chunks[1..])
  }

  /** The bytes still to come. */
  function Remaining(b: ResBody): Bytes {
    match b
    case NoBody => []
    case OnceBody(bytes) => bytes
    case Chunks(chunks) => Joined(chunks)
  }

  /** The range of `u64`, in which size hints are summed up. */
  const U64 := 0x1_0000_0000_0000_0000

  function SumLengths(chunks: seq<Bytes>): nat {
    if chunks == [] then 0 else (|chunks[0]| + SumLengths(chunks[1..])) % U64
  }

  function SizeHint(b: ResBody): nat {
    match b
    case NoBody => 0
    case OnceBody(bytes) => |bytes| % U64
    case Chunks(chunks) => SumLengths(chunks)
  }

  predicate IsEndStream(b: ResBody) {
    match b
    case NoBody => true
    case OnceBody(bytes) => bytes == []
    case Chunks(chunks) => chunks == []
  }

  function ResPoll(b: ResBody): (ResBody, Poll) {
    match b
    case NoBody => (b, End)
    case OnceBody(bytes) => if bytes == [] then (b, End) else (OnceBody([]), Ready(Data(bytes)))
    case Chunks(chunks) => if chunks == [] then (b, End) else (Chunks(chunks[1..]), Ready(Data(chunks[0])))
  }

  class ResponseBody {
    var body: ResBody

    constructor (body: ResBody)
      ensures this.body == body
    {
      this.body := body;
    }

    method PollFrame() returns (p: Poll)
      modifies this
      ensures (body, p) == ResPoll(old(body))
    {
      match body
      case NoBody => p := End;
      case OnceBody(bytes) =>
        if bytes == [] {
          p := End;
        } else {
          body := OnceBody([]);
          p := Ready(Data(bytes));
        }
      case Chunks(chunks) =>
        if chunks == [] {
          p := End;
        } else {
          p := Ready(Data(chunks[0]));
          body := Chunks(chunks[1..]);
        }
    }
  }

  /** The body after `n` polls, and what they answered. */
  function ResRun(b: ResBody, n: nat): (ResBody, seq<Poll>)
    decreases n
  {
    if n == 0 then (b, [])
    else
      var (next, p) := ResPoll(b);
      var (last, rest) := ResRun(next, n - 1);
      (last, [p] + rest)
  }

  lemma {:induction false} HintIsRemaining(b: ResBody)
    ensures SizeHint(b) == |Remaining(b)| % U64
  {
    if b.Chunks? {
      SumIsJoined(b.chunks);
    }
  }

  lemma {:induction false} SumIsJoined(chunks: seq<Bytes>)
    ensures SumLengths(chunks) == |Joined(chunks)| % U64
    decreases |chunks|
  {
    if chunks != [] {
      SumIsJoined(chunks[1..]);
    }
  }

  /** Over any number of polls: what was delivered followed by what remains is the original body. */
  lemma {:induction false} BytesAreConserved(b: ResBody, n: nat)
    ensures var (last, polls) := ResRun(b, n);
      && Delivered(polls) + Remaining(last) == Remaining(b)
      && SizeHint(last) == |Remaining(last)| % U64
    decreases n
  {
    hide ResPoll, Remaining, SizeHint, Delivered, DataOf;
    HintIsRemaining(ResRun(b, n).0);
    NothingDelivered();
    if n > 0 {
      var (next, p) := ResPoll(b);
      var (last, rest) := ResRun(next, n - 1);
      BytesAreConserved(next, n - 1);
      DeliveredCons([p] + rest);
      assert ([p] + rest)[1..] == rest;
      PollMoves(b);
      assert (DataOf(p) + Delivered(rest)) + Remaining(last) == DataOf(p) + (Delivered(rest) + Remaining(last));
    }
  }

  ghost predicate HintConserved(b: ResBody) {
    forall n: nat :: |Delivered(ResRun(b, n).1)| + SizeHint(ResRun(b, n).0) == SizeHint(b)
  }

  /**
    The delivered length and the size hint always add up to the first hint, exactly for a body whose length
    fits a `u64`.
   */
  lemma HintConservedIff(b: ResBody)
    ensures HintConserved(b) <==> |Remaining(b)| < U64
  {
    hide ResRun, Remaining, SizeHint, Delivered;
    HintIsRemaining(b);
    forall n: nat ensures |Delivered(ResRun(b, n).1)| + |Remaining(ResRun(b, n).0)| == |Remaining(b)|
      ensures SizeHint(ResRun(b, n).0) == |Remaining(ResRun(b, n).0)| % U64
    {
      BytesAreConserved(b, n);
    }
    var n := Drains(b);
    assert HintConserved(b) ==> |Delivered(ResRun(b, n).1)| + SizeHint(ResRun(b, n).0) == SizeHint(b);
  }

  /** Enough polls deliver everything. */
  lemma {:induction false} Drains(b: ResBody) returns (n: nat)
    ensures Remaining(ResRun(b, n).0) == []
    decreases if b.Chunks? then |b.chunks| else 0
  {
    n := if b.OnceBody? && b.bytes != [] then 1 else 0;
    if b.Chunks? && b.chunks != [] {
      var rest := Drains(Chunks(b.chunks[1..]));
      n := rest + 1;
    }
  }

  lemma PollMoves(b: ResBody)
    ensures Remaining(b) == DataOf(ResPoll(b).1) + Remaining(ResPoll(b).0)
  {
  }

  /** Chunks are delivered one by one, as they are, in order; then the body has ended. */
  lemma {:induction false} ChunksInOrder(chunks: seq<Bytes>, n: nat, k: nat)
    requires k < n
    ensures var polls := ResRun(Chunks(chunks), n).1;
      k < |polls| && polls[k] == if k < |chunks| then Ready(Data(chunks[k])) else End
    decreases k
  {
    var (next, p) := ResPoll(Chunks(chunks));
    if k > 0 {
      ChunksInOrder(next.chunks, n - 1, k - 1);
    }
  }

  /** A plain body is one frame, unless it is empty. */
  lemma OnceInOneFrame(bytes: Bytes, n: nat, k: nat)
    requires k < n
    ensures var polls := ResRun(OnceBody(bytes), n).1;
      k < |polls| && polls[k] == if k == 0 && bytes != [] then Ready(Data(bytes)) else End
  {
    var (next, p) := ResPoll(OnceBody(bytes));
    if k > 0 {
      EndStreamIff(next, n - 1);
      EndsAt(n - 1, k - 1);
    }
  }

  lemma {:induction false} EndsAt(n: nat, k: nat)
    requires k < n
    ensures k < |Ends(n)| && Ends(n)[k] == End
    decreases k
  {
    if k > 0 {
      EndsAt(n - 1, k - 1);
    }
  }

  /** A response body has ended exactly when all later polls answer End; it then owes nothing. */
  lemma {:induction false} EndStreamIff(b: ResBody, n: nat)
    requires n > 0
    ensures IsEndStream(b) <==> ResRun(b, n).1 == Ends(n)
    ensures IsEndStream(b) ==> ResRun(b, n).0 == b && Remaining(b) == []
    decreases n
  {
    var (next, p) := ResPoll(b);
    assert ResRun(b, n).1[0] == p && Ends(n)[0] == End;
    if n > 1 {
      EndStreamIff(next, n - 1);
    }
  }
}
