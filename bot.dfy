/**
 * The request and burst logic of `AsyncSugangBot` in bot.py.
 *
 * The HTTP session is not modelled: the network is an oracle `respond`
 * that gives, for a course and an attempt id, the reply that attempt gets
 * (a status and a body, a body that could not be read, or an exception).
 * The target instant is taken as an already parsed timestamp, the NTP
 * replies and the local clock are parameters, and every sleep is returned
 * as its duration instead of being performed.
 */
module Bot {
  import opened Wrappers
  import opened NtpUtils

  // ---------------------------------------------------------------------
  // Request headers (get_headers)
  // ---------------------------------------------------------------------

  const UserAgentKey: string := "User-Agent"
  const RefererKey: string := "Referer"
  const AcceptKey: string := "Accept"
  const RequestedWithKey: string := "X-Requested-With"

  const Referer: string := "https://sugang.korea.ac.kr/"
  const Accept: string := "application/json, text/javascript, */*; q=0.01"
  const RequestedWith: string := "XMLHttpRequest"

  /** The headers of one request; `userAgent` is the randomly drawn browser string. */
  function Headers(userAgent: string): (h: map<string, string>)
    ensures h.Keys == {UserAgentKey, RefererKey, AcceptKey, RequestedWithKey}
    ensures h[UserAgentKey] == userAgent
    ensures h[RefererKey] == Referer && h[AcceptKey] == Accept && h[RequestedWithKey] == RequestedWith
  {
    map[UserAgentKey := userAgent, RefererKey := Referer, AcceptKey := Accept,
        RequestedWithKey := RequestedWith]
  }

  /** Two calls produce the same header set except, possibly, the user agent. */
  lemma HeadersDifferOnlyInUserAgent(ua1: string, ua2: string)
    ensures Headers(ua1).Keys == Headers(ua2).Keys
    ensures forall k | k in Headers(ua1) && k != UserAgentKey :: Headers(ua1)[k] == Headers(ua2)[k]
    ensures Headers(ua1) == Headers(ua2) <==> ua1 == ua2
  {
    if Headers(ua1) == Headers(ua2) {
      assert Headers(ua1)[UserAgentKey] == Headers(ua2)[UserAgentKey];
    }
  }

  // ---------------------------------------------------------------------
  // Classifying one attempt (register_course)
  // ---------------------------------------------------------------------

  /** A course to register for; the request carries only its code. */
  datatype Course = Course(code: string)

  /** The body of a response, or the failure to read it. */
  datatype Body = Text(text: string) | Unreadable

  /** What one POST produces: a response, or an exception raised by the request. */
  datatype Reply = Response(status: int, body: Body) | RequestFailed(message: string)

  /** The branch register_course takes, one per log line it writes. */
  datatype Outcome = Success | Overload | Failed | RequestError

  /** The text substituted for a body that cannot be read. */
  const NoContent: string := "No Content"

  /** The marker a successful response body contains, in lower case. */
  const SuccessMarker: string := "success"

  const OkStatus: int := 200
  const OverloadStatus: int := 503

  /** Lower-case folding of one character (ASCII letters; others unchanged). */
  function LowerChar(c: char): char {
    if 'A' <= c <= 'Z' then (c as int + ('a' as int - 'A' as int)) as char else c
  }

  /** ASCII lower-casing, standing in for Python's `str.lower()`, character by character. */
  function Lower(s: string): string {
    seq(|s|, i requires 0 <= i < |s| => LowerChar(s[i]))
  }

  /** `needle` occurs in `hay` starting at position `i`. */
  predicate OccursAt(hay: string, needle: string, i: nat) {
    i + |needle| <= |hay| && hay[i..i + |needle|] == needle
  }

  /** Python's `needle in hay` for strings. */
  predicate Contains(hay: string, needle: string) {
    exists i: nat | i <= |hay| :: OccursAt(hay, needle, i)
  }

  /** The text register_course inspects: the body, or "No Content" when it could not be read. */
  function BodyText(b: Body): string {
    match b
    case Text(t) => t
    case Unreadable => NoContent
  }

  /**
   * The branch taken for a reply: success needs status 200 and the marker
   * in the lower-cased text; 503 is overload; an exception is a request
   * error; everything else is a plain failure.
   */
  function Classify(r: Reply): (o: Outcome)
    ensures o == RequestError <==> r.RequestFailed?
    ensures o == Success <==> r.Response? && r.status == OkStatus && Contains(Lower(BodyText(r.body)), SuccessMarker)
    ensures o == Overload <==> r.Response? && r.status == OverloadStatus
  {
    match r
    case RequestFailed(_) => RequestError
    case Response(status, body) =>
      if status == OkStatus && Contains(Lower(BodyText(body)), SuccessMarker) then Success
      else if status == OverloadStatus then Overload
      else Failed
  }

  /** The value register_course returns for a reply; it never raises for a failed request. */
  function RegisterCourse(r: Reply): (ok: bool)
    ensures ok <==> Classify(r) == Success
    ensures ok ==> r.Response? && r.status == OkStatus
  {
    Classify(r) == Success
  }

  lemma {:induction false} LowerIsIdempotent(s: string)
    ensures Lower(Lower(s)) == Lower(s)
  {
    forall i | 0 <= i < |s|
      ensures Lower(Lower(s))[i] == Lower(s)[i]
    {
      assert Lower(s)[i] == LowerChar(s[i]);
    }
  }

  lemma {:induction false} LowerOfSlice(s: string, i: nat, j: nat)
    requires i <= j <= |s|
    ensures Lower(s)[i..j] == Lower(s[i..j])
  {
    forall k | 0 <= k < j - i
      ensures Lower(s)[i..j][k] == Lower(s[i..j])[k]
    {
      assert Lower(s)[i..j][k] == Lower(s)[i + k] == LowerChar(s[i + k]);
    }
  }

  /** A text without the letter 's' cannot hold the marker. */
  lemma {:induction false} NoMarkerWithoutS(hay: string)
    requires forall k | 0 <= k < |hay| :: hay[k] != 's'
    ensures !Contains(hay, SuccessMarker)
  {
    forall i: nat | i <= |hay|
      ensures !OccursAt(hay, SuccessMarker, i)
    {
      if i + |SuccessMarker| <= |hay| {
        assert hay[i..i + |SuccessMarker|][0] == hay[i];
      }
    }
  }

  /** An unreadable body never counts as a success, whatever the status. */
  lemma UnreadableBodyNeverRegisters(status: int)
    ensures !RegisterCourse(Response(status, Unreadable))
    ensures Classify(Response(status, Unreadable)) == (if status == OverloadStatus then Overload else Failed)
  {
    var lowered := Lower(NoContent);
    assert lowered == "no content";
    NoMarkerWithoutS(lowered);
  }

  /** Matching is case-insensitive: lower-casing the body changes nothing. */
  lemma CaseOfBodyIsIrrelevant(status: int, text: string)
    ensures Classify(Response(status, Text(text))) == Classify(Response(status, Text(Lower(text))))
  {
    LowerIsIdempotent(text);
  }

  /** A 200 response whose body holds "success" in any letter case registers. */
  lemma {:induction false} SuccessAnywhereInBodyRegisters(text: string, i: nat)
    requires i + |SuccessMarker| <= |text|
    requires Lower(text[i..i + |SuccessMarker|]) == SuccessMarker
    ensures RegisterCourse(Response(OkStatus, Text(text)))
  {
    LowerOfSlice(text, i, i + |SuccessMarker|);
    assert OccursAt(Lower(text), SuccessMarker, i);
  }

  /** Overload and exceptions are failures: only the success branch returns true. */
  lemma FailuresNeverRegister(r: Reply)
    requires r.RequestFailed? || (r.Response? && r.status != OkStatus)
    ensures !RegisterCourse(r)
  {
  }

  // ---------------------------------------------------------------------
  // Arming (burst_attack, before the loop)
  // ---------------------------------------------------------------------

  /** The instant firing starts: `burstStartMs` milliseconds before the target. */
  function StartInstant(targetTs: real, burstStartMs: real): (start: real)
    ensures (targetTs - start) * 1000.0 == burstStartMs
    ensures start <= targetTs <==> burstStartMs >= 0.0
  {
    targetTs - burstStartMs / 1000.0
  }

  /**
   * The wait before firing, read off the corrected clock `now`: exactly the
   * time left until the start instant when positive, no sleep otherwise.
   */
  lemma ArmingWait(targetTs: real, burstStartMs: real, now: real)
    ensures SleepFor(StartInstant(targetTs, burstStartMs), now).Some?
        <==> now + burstStartMs / 1000.0 < targetTs
    ensures SleepFor(StartInstant(targetTs, burstStartMs), now).Some? ==>
        SleepFor(StartInstant(targetTs, burstStartMs), now).value == targetTs - burstStartMs / 1000.0 - now
  {
  }

  // ---------------------------------------------------------------------
  // The batch loop (burst_attack, the `while True` loop)
  // ---------------------------------------------------------------------

  /** One dispatched call of register_course. */
  datatype Attempt = Attempt(course: Course, id: nat)

  type Batch = seq<Attempt>

  /** The replies of a batch, in dispatch order (what asyncio.gather returns). */
  function Gather(batch: Batch, respond: (Course, nat) -> Reply): seq<bool> {
    seq(|batch|, t requires 0 <= t < |batch| => RegisterCourse(respond(batch[t].course, batch[t].id)))
  }

  /** Some attempt of the batch registered the course (`any(results)`). */
  predicate Succeeds(batch: Batch, respond: (Course, nat) -> Reply) {
    true in Gather(batch, respond)
  }

  /**
   * k groups of n, added up one group at a time: the ids that the first k
   * batches of n attempts use, or the batches that k passes over n courses
   * dispatch.  TimesIsProduct equates it with k * n; keeping it recursive
   * keeps the loop's arithmetic linear for the solver.
   */
  function Times(k: nat, n: nat): nat
  {
    if k == 0 then 0 else Times(k - 1, n) + n
  }

  /** The batch for `course` whose `size` ids follow `lastId`. */
  function BatchFor(course: Course, lastId: nat, size: nat): (b: Batch)
  {
    seq(size, t requires 0 <= t < size => Attempt(course, lastId + t + 1))
  }

  /**
   * The k-th batch dispatched overall (counting from 0): `size` attempts
   * for the course at position k mod n of the target list, with the ids
   * that follow the k * size ids already used.
   */
  function NthBatch(courses: seq<Course>, size: nat, k: nat): Batch
    requires |courses| > 0
  {
    BatchFor(courses[k % |courses|], Times(k, size), size)
  }

  /**
   * What one run of the loop, cut off after `passes` passes, dispatches:
   * the batches in order, up to and including the first one that
   * succeeds; whether it stopped on a success; and the pauses it slept
   * between passes, one per pass completed before the successful batch.
   * With no target courses no batch is ever dispatched and every pass
   * only pauses.
   */
  ghost predicate IsBurst(courses: seq<Course>, size: nat, respond: (Course, nat) -> Reply,
                          passes: nat, retryDelay: real,
                          batches: seq<Batch>, succeeded: bool, pauses: seq<real>)
  {
    (forall p | 0 <= p < |pauses| :: pauses[p] == retryDelay) &&
    if |courses| == 0 then
      batches == [] && !succeeded && |pauses| == passes
    else
      |batches| <= Times(passes, |courses|) &&
      (forall k | 0 <= k < |batches| :: batches[k] == NthBatch(courses, size, k)) &&
      (forall k | 0 <= k < |batches| - 1 :: !Succeeds(batches[k], respond)) &&
      (succeeded <==> |batches| > 0 && Succeeds(batches[|batches| - 1], respond)) &&
      (!succeeded ==> |batches| == Times(passes, |courses|) && |pauses| == passes) &&
      (succeeded ==> Times(|pauses|, |courses|) < |batches| <= Times(|pauses| + 1, |courses|))
  }

  lemma MultipleAtLeast(d: int, n: int)
    requires n > 0 && d >= 1
    ensures d * n >= n
  {
    assert d * n == (d - 1) * n + n;
  }

  /**
   * Euclidean division is unique: position j of pass p is batch p * n + j,
   * and that batch index gives back p and j.
   */
  lemma DivModUnique(x: int, n: int, q: int, r: int)
    requires n > 0 && 0 <= r < n && x == q * n + r
    ensures x / n == q && x % n == r
  {
    var q', r' := x / n, x % n;
    assert (q' - q) * n == r - r';
    if q' > q {
      MultipleAtLeast(q' - q, n);
    } else if q' < q {
      MultipleAtLeast(q - q', n);
    }
  }

  lemma {:induction false} TimesIsProduct(k: nat, n: nat)
    ensures Times(k, n) == k * n
  {
    if k > 0 {
      TimesIsProduct(k - 1, n);
      assert k * n == (k - 1) * n + n;
    }
  }

  lemma {:induction false} TimesMonotone(a: nat, b: nat, n: nat)
    requires a <= b
    ensures Times(a, n) <= Times(b, n)
  {
    if a < b {
      TimesMonotone(a, b - 1, n);
    }
  }

  /** A batch index lies in exactly one pass. */
  lemma SamePass(a: nat, b: nat, n: nat, m: nat)
    requires Times(a, n) < m <= Times(a + 1, n)
    requires Times(b, n) < m <= Times(b + 1, n)
    ensures a == b
  {
    if a < b {
      TimesMonotone(a + 1, b, n);
    } else if b < a {
      TimesMonotone(b + 1, a, n);
    }
  }

  /** Position j of pass p is batch Times(p, n) + j, whose course index is j. */
  lemma PassPosition(p: nat, n: nat, j: nat)
    requires j < n
    ensures (Times(p, n) + j) % n == j
  {
    TimesIsProduct(p, n);
    DivModUnique(Times(p, n) + j, n, p, j);
  }

  /** The loop's state when a batch of pass |pauses|, position j, succeeds is a finished burst. */
  lemma StopOnSuccess(courses: seq<Course>, size: nat, respond: (Course, nat) -> Reply,
                      passes: nat, retryDelay: real, batches: seq<Batch>, pauses: seq<real>, j: nat)
    requires j < |courses| && |pauses| < passes
    requires |batches| == Times(|pauses|, |courses|) + j + 1
    requires forall p | 0 <= p < |pauses| :: pauses[p] == retryDelay
    requires forall k | 0 <= k < |batches| :: batches[k] == NthBatch(courses, size, k)
    requires forall k | 0 <= k < |batches| - 1 :: !Succeeds(batches[k], respond)
    requires Succeeds(batches[|batches| - 1], respond)
    ensures IsBurst(courses, size, respond, passes, retryDelay, batches, true, pauses)
  {
    TimesMonotone(|pauses| + 1, passes, |courses|);
  }

  /**
   * Builds the batch for one course: `size` attempts whose ids continue
   * from `lastId`, one increment of the counter per attempt.
   */
  method MakeBatch(course: Course, size: nat, lastId: nat) returns (batch: Batch, nextId: nat)
    ensures nextId == lastId + size
    ensures batch == BatchFor(course, lastId, size)
  {
    batch, nextId := [], lastId;
    for t := 0 to size
      invariant nextId == lastId + t
      invariant batch == seq(t, i requires 0 <= i < t => Attempt(course, lastId + i + 1))
    {
      nextId := nextId + 1;
      batch := batch + [Attempt(course, nextId)];
    }
  }

  /**
   * Runs the loop for at most `passes` passes over the target courses.
   * Each course gets one batch of `size` attempts with fresh consecutive
   * ids; the loop returns after the first batch with a registered attempt
   * and otherwise pauses `retryDelay` after every pass.
   */
  method Fire(courses: seq<Course>, size: nat, respond: (Course, nat) -> Reply,
              passes: nat, retryDelay: real)
    returns (batches: seq<Batch>, succeeded: bool, pauses: seq<real>)
    ensures IsBurst(courses, size, respond, passes, retryDelay, batches, succeeded, pauses)
  {
    batches, succeeded, pauses := [], false, [];
    var taskId: nat := 0;
    var pass: nat := 0;
    while pass < passes
      invariant pass <= passes
      invariant |pauses| == pass
      invariant forall p | 0 <= p < |pauses| :: pauses[p] == retryDelay
      invariant |batches| == Times(pass, |courses|)
      invariant taskId == Times(|batches|, size)
      invariant |courses| > 0 ==> forall k | 0 <= k < |batches| :: batches[k] == NthBatch(courses, size, k)
      invariant |courses| > 0 ==> forall k | 0 <= k < |batches| :: !Succeeds(batches[k], respond)
    {
      for j := 0 to |courses|
        invariant |batches| == Times(pass, |courses|) + j
        invariant taskId == Times(|batches|, size)
        invariant |courses| > 0 ==> forall k | 0 <= k < |batches| :: batches[k] == NthBatch(courses, size, k)
        invariant |courses| > 0 ==> forall k | 0 <= k < |batches| :: !Succeeds(batches[k], respond)
      {
        var batch;
        batch, taskId := MakeBatch(courses[j], size, taskId);
        PassPosition(pass, |courses|, j);
        assert batch == NthBatch(courses, size, |batches|);
        assert taskId == Times(|batches| + 1, size);
        var results := Gather(batch, respond);
        batches := batches + [batch];
        if true in results {
          succeeded := true;
          StopOnSuccess(courses, size, respond, passes, retryDelay, batches, pauses, j);
          return;
        }
      }
      assert |batches| == Times(pass + 1, |courses|);
      pauses := pauses + [retryDelay];
      pass := pass + 1;
    }
    TimesIsProduct(passes, |courses|);
  }

  // ---------------------------------------------------------------------
  // What a burst guarantees
  // ---------------------------------------------------------------------

  /** The attempt ids of the batches, in dispatch order. */
  function Ids(batches: seq<Batch>): seq<nat>
  {
    if batches == [] then []
    else Ids(batches[..|batches| - 1]) + seq(|batches[|batches| - 1]|, t requires 0 <= t < |batches[|batches| - 1]| => batches[|batches| - 1][t].id)
  }

  /** The numbers 1 to n, in order. */
  function OneTo(n: nat): seq<nat>
  {
    seq(n, i requires 0 <= i < n => i + 1)
  }

  lemma {:induction false} IdsOfDispatched(courses: seq<Course>, size: nat, batches: seq<Batch>)
    requires |courses| > 0
    requires forall k | 0 <= k < |batches| :: batches[k] == NthBatch(courses, size, k)
    ensures Ids(batches) == OneTo(Times(|batches|, size))
  {
    if batches != [] {
      var k := |batches| - 1;
      IdsOfDispatched(courses, size, batches[..k]);
      var last := seq(|batches[k]|, t requires 0 <= t < |batches[k]| => batches[k][t].id);
      assert last == seq(size, t requires 0 <= t < size => Times(k, size) + t + 1);
      assert OneTo(Times(k, size)) + last == OneTo(Times(k + 1, size));
    }
  }

  /**
   * Attempt ids start at 1 and go up by one from attempt to attempt,
   * across batches, courses and passes.
   */
  lemma IdsAreConsecutive(courses: seq<Course>, size: nat, respond: (Course, nat) -> Reply,
                          passes: nat, retryDelay: real,
                          batches: seq<Batch>, succeeded: bool, pauses: seq<real>)
    requires IsBurst(courses, size, respond, passes, retryDelay, batches, succeeded, pauses)
    ensures Ids(batches) == OneTo(|batches| * size)
  {
    if |courses| > 0 {
      IdsOfDispatched(courses, size, batches);
      TimesIsProduct(|batches|, size);
    }
  }

  /**
   * Within pass p, the batch at position j of the target list holds exactly
   * `size` attempts, all for course j.
   */
  lemma BatchOfPass(courses: seq<Course>, size: nat, respond: (Course, nat) -> Reply,
                    passes: nat, retryDelay: real,
                    batches: seq<Batch>, succeeded: bool, pauses: seq<real>, p: nat, j: nat)
    requires IsBurst(courses, size, respond, passes, retryDelay, batches, succeeded, pauses)
    requires j < |courses| && p * |courses| + j < |batches|
    ensures |batches[p * |courses| + j]| == size
    ensures forall a | a in batches[p * |courses| + j] :: a.course == courses[j]
  {
    DivModUnique(p * |courses| + j, |courses|, p, j);
  }

  /**
   * The loop stops at the first successful batch: if the batch with index
   * k would succeed and lies within the passes allowed, the run succeeds
   * and dispatches no batch after it.
   */
  lemma StopsAtFirstSuccess(courses: seq<Course>, size: nat, respond: (Course, nat) -> Reply,
                            passes: nat, retryDelay: real,
                            batches: seq<Batch>, succeeded: bool, pauses: seq<real>, k: nat)
    requires IsBurst(courses, size, respond, passes, retryDelay, batches, succeeded, pauses)
    requires |courses| > 0 && k < passes * |courses|
    requires Succeeds(NthBatch(courses, size, k), respond)
    ensures succeeded && |batches| <= k + 1
  {
    TimesIsProduct(passes, |courses|);
  }

  /** Batches that fail never stop the loop: without a success every pass runs. */
  lemma NoSuccessRunsEveryPass(courses: seq<Course>, size: nat, respond: (Course, nat) -> Reply,
                               passes: nat, retryDelay: real,
                               batches: seq<Batch>, succeeded: bool, pauses: seq<real>)
    requires IsBurst(courses, size, respond, passes, retryDelay, batches, succeeded, pauses)
    requires |courses| > 0
    requires forall k | 0 <= k < passes * |courses| :: !Succeeds(NthBatch(courses, size, k), respond)
    ensures !succeeded && |batches| == passes * |courses| && |pauses| == passes
  {
    TimesIsProduct(passes, |courses|);
  }

  /** The description is complete: a burst is determined by its inputs. */
  lemma BurstIsDeterministic(courses: seq<Course>, size: nat, respond: (Course, nat) -> Reply,
                             passes: nat, retryDelay: real,
                             batches1: seq<Batch>, succeeded1: bool, pauses1: seq<real>,
                             batches2: seq<Batch>, succeeded2: bool, pauses2: seq<real>)
    requires IsBurst(courses, size, respond, passes, retryDelay, batches1, succeeded1, pauses1)
    requires IsBurst(courses, size, respond, passes, retryDelay, batches2, succeeded2, pauses2)
    ensures batches1 == batches2 && succeeded1 == succeeded2 && pauses1 == pauses2
  {
    if |courses| > 0 {
      assert |batches1| == |batches2|;
      if succeeded1 {
        SamePass(|pauses1|, |pauses2|, |courses|, |batches1|);
      }
    }
  }

  /** A server that only ever answers 503 keeps the bot firing for every pass. */
  lemma OverloadNeverStops(courses: seq<Course>, size: nat, respond: (Course, nat) -> Reply,
                           passes: nat, retryDelay: real,
                           batches: seq<Batch>, succeeded: bool, pauses: seq<real>)
    requires IsBurst(courses, size, respond, passes, retryDelay, batches, succeeded, pauses)
    requires forall c, id :: respond(c, id).Response? && respond(c, id).status == OverloadStatus
    ensures !succeeded && |batches| == passes * |courses| && |pauses| == passes
  {
    if |courses| > 0 {
      forall k | 0 <= k < passes * |courses|
        ensures !Succeeds(NthBatch(courses, size, k), respond)
      {
        var results := Gather(NthBatch(courses, size, k), respond);
        forall t | 0 <= t < |results| ensures !results[t] {
          FailuresNeverRegister(respond(NthBatch(courses, size, k)[t].course, NthBatch(courses, size, k)[t].id));
        }
      }
      NoSuccessRunsEveryPass(courses, size, respond, passes, retryDelay, batches, succeeded, pauses);
    }
  }

  /** A success among the very first attempts ends the run after one batch. */
  lemma FirstBatchSuccessStopsAtOnce(courses: seq<Course>, size: nat, respond: (Course, nat) -> Reply,
                                     passes: nat, retryDelay: real,
                                     batches: seq<Batch>, succeeded: bool, pauses: seq<real>, t: nat)
    requires IsBurst(courses, size, respond, passes, retryDelay, batches, succeeded, pauses)
    requires |courses| > 0 && passes > 0 && t < size
    requires RegisterCourse(respond(courses[0], t + 1))
    ensures succeeded && |batches| == 1 && pauses == []
  {
    var first := NthBatch(courses, size, 0);
    assert first[t] == Attempt(courses[0], t + 1);
    assert Gather(first, respond)[t];
    StopsAtFirstSuccess(courses, size, respond, passes, retryDelay, batches, succeeded, pauses, 0);
  }

  // ---------------------------------------------------------------------
  // The bot object (AsyncSugangBot)
  // ---------------------------------------------------------------------

  /**
   * The settings burst_attack reads; `None` is a key missing from the
   * configuration.  The target time is given already converted to a
   * timestamp, and `None` also stands for an empty string.
   */
  datatype Config = Config(
    targetCourses: seq<Course>,
    targetTime: Option<real>,
    burstStartMs: Option<real>,
    maxTasks: Option<int>,
    retryDelayBase: Option<real>)

  const DefaultBurstStartMs: real := 0.0
  const DefaultMaxTasks: int := 5
  const DefaultRetryDelay: real := 0.1

  /** Attempts per batch: `range(max_tasks)`, which is empty for a negative count. */
  function BatchSize(config: Config): nat {
    var n := config.maxTasks.GetOr(DefaultMaxTasks);
    if n < 0 then 0 else n
  }

  /** The HTTP session: never created, open, or closed. */
  datatype Session = NoSession | Open | Closed

  class AsyncSugangBot {
    const config: Config
    const ntp: TimeSynchronizer
    var session: Session

    constructor (config: Config)
      ensures this.config == config && session == NoSession
      ensures fresh(ntp) && ntp.Valid()
      ensures ntp.server == DefaultServer && !ntp.synced && ntp.offset == 0.0 && ntp.replies == []
    {
      this.config := config;
      ntp := new TimeSynchronizer();
      session := NoSession;
    }

    /** Opens a new session (the pre-warm request's outcome is ignored). */
    method InitSession()
      modifies this
      ensures session == Open
    {
      session := Open;
    }

    /** Closes the session if one was ever created. */
    method Close()
      modifies this
      ensures session == if old(session) == NoSession then NoSession else Closed
    {
      if session != NoSession {
        session := Closed;
      }
    }

    /**
     * One run of burst_attack, cut off after `passes` passes of its
     * `while True` loop.  It opens a session, synchronises the clock once
     * with `syncReply`, and, when a target time is set, reads the corrected
     * clock (which asks the server again, with `clockReply`, only if the
     * first request failed) and waits until `burst_start_ms` before the
     * target.  Then it fires.  The session is still open when it returns:
     * the loop is left only by returning, so the final close is never
     * reached.
     */
    method BurstAttack(syncReply: Option<real>, clockReply: Option<real>, localNow: real,
                       respond: (Course, nat) -> Reply, passes: nat)
      returns (wait: Option<real>, batches: seq<Batch>, succeeded: bool, pauses: seq<real>)
      modifies this, ntp
      ensures session == Open
      ensures ntp.Valid()
      ensures ntp.synced <==> syncReply.Some? || (config.targetTime.Some? && clockReply.Some?)
      ensures ntp.replies == old(ntp.replies) + [syncReply] +
        (if config.targetTime.Some? && syncReply.None? then [clockReply] else [])
      ensures ntp.offset ==
        if syncReply.Some? then syncReply.value
        else if config.targetTime.Some? then clockReply.GetOr(0.0)
        else 0.0
      ensures wait ==
        if config.targetTime.None? then None
        else SleepFor(StartInstant(config.targetTime.value, config.burstStartMs.GetOr(DefaultBurstStartMs)),
                      localNow + ntp.offset)
      ensures IsBurst(config.targetCourses, BatchSize(config), respond, passes,
                      config.retryDelayBase.GetOr(DefaultRetryDelay), batches, succeeded, pauses)
    {
      InitSession();
      ntp.Sync(syncReply);
      wait := None;
      if config.targetTime.Some? {
        var startTs := StartInstant(config.targetTime.value, config.burstStartMs.GetOr(DefaultBurstStartMs));
        var now := ntp.GetTime(clockReply, localNow);
        wait := SleepFor(startTs, now);
      }
      batches, succeeded, pauses := Fire(config.targetCourses, BatchSize(config), respond, passes,
                                         config.retryDelayBase.GetOr(DefaultRetryDelay));
    }
  }
}
