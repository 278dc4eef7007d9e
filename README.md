# Burst registration bot: clock offset and firing loop

A Dafny model of the timing and firing core of a course-registration bot
for sugang.korea.ac.kr. Two pieces are modelled:

- `TimeSynchronizer` (ntp_utils.py) keeps the offset between the local
  clock and an NTP server, with a `synced` flag. `NtpUtils.TimeSynchronizer`
  is a class with those fields. Its methods overwrite them the way the
  Python methods do. A ghost log `replies` records every NTP request made,
  so the contracts can say when a request happens and how many.
  The object invariant `Valid()` says that an unsynchronised clock has
  offset zero. Every method re-establishes it.
- `AsyncSugangBot` (bot.py) has four modelled parts:
  - the fixed request headers (`Bot.Headers`);
  - the classification of one registration reply (`Bot.Classify`,
    `Bot.RegisterCourse`);
  - the arming arithmetic (`Bot.StartInstant`, with `NtpUtils.SleepFor`);
  - the firing loop (`Bot.Fire`). It makes passes over the target
    courses, gives each course one batch of `max_tasks` attempts with
    consecutive ids, and returns after the first batch where any attempt
    succeeds.

  `Bot.IsBurst` describes a run in closed form: batch k is for course
  k mod n, and its ids follow the k × size ids already used. The lemmas
  about `IsBurst` state the promised properties. `Bot.Fire` is proved to
  produce exactly such a run. `Bot.AsyncSugangBot.BurstAttack` puts the
  pieces together in the order `burst_attack` runs them.

How inputs from the outside are modelled:

- The network is an oracle `respond: (Course, nat) -> Reply`. It gives the
  reply that the attempt with a given id gets for a given course.
- An NTP reply is an `Option<real>`: `None` stands for a request that raised.
- The local clock is a `real` parameter holding seconds.
- A sleep is returned as the duration it would last. `None` means no sleep
  call.

The outer `while True` loop of `burst_attack` may never end. The model runs
it for at most `passes` passes. A run that stops without success has only
used up its passes.

Apart from an exception, `burst_attack` leaves its loop only through the
`return` after a successful batch (bot.py:228-230). So the
`await self.close()` at bot.py:235 can never run, and the session stays open.
`Bot.AsyncSugangBot.BurstAttack` states this: the session is `Open` when
it returns.

The model follows what the code does, which is narrower than a general burst scheduler:

- A success stops the whole run. No single course is removed from the list.
- The retry pause comes after each full pass over the courses, not after
  each batch.
- Outcomes have four branches: success, 503 overload, other failure and
  request exception. There is no "rejected" or "unknown" outcome.
- The session is never released.

## Model

| member | source | states |
|---|---|---|
| `NtpUtils.TimeSynchronizer.constructor` | ntp_utils.py:6-9 | a new synchroniser uses server "pool.ntp.org" unless given another, has offset 0, is not synced, has made no request, and satisfies the invariant |
| `NtpUtils.TimeSynchronizer.Sync` | ntp_utils.py:11-22 | makes exactly one request; a reply sets the offset to the reply's offset and synced to true; a failed request resets to offset 0, not synced; the invariant holds afterwards from any state |
| `NtpUtils.TimeSynchronizer.GetTime` | ntp_utils.py:24-28 | from any state, returns local time plus the offset in force afterwards and leaves the invariant holding; when already synced nothing changes and no request is made; when not synced exactly one request is made first, whatever its outcome |
| `NtpUtils.TimeSynchronizer.SleepUntil` | ntp_utils.py:30-35 | sleeps exactly target minus the corrected time when that is positive and not at all otherwise, with the same state effects as GetTime |
| `NtpUtils.SleepFor` | ntp_utils.py:32-35 | there is a sleep exactly when the target is later than now, and a sleep always lasts a positive time that ends exactly at the target |
| `NtpUtils.UnreachableServerFallsBackToLocalClock` | ntp_utils.py:19-28 | a fresh synchroniser whose request fails reads the local clock unchanged |
| `NtpUtils.SyncedClockKeepsItsOffset` | ntp_utils.py:15-28 | after one successful request every later reading is shifted by that same offset and ignores later replies, so corrected readings are ordered like local ones |
| `Bot.Headers` | bot.py:119-127 | the header map has exactly the keys User-Agent, Referer, Accept and X-Requested-With; the user agent is the given string and the other three have fixed values |
| `Bot.HeadersDifferOnlyInUserAgent` | bot.py:119-127 | two calls give the same keys and agree on every header but User-Agent; they are equal exactly when the user agents are |
| `Bot.Classify` | bot.py:164-184 | an exception is a request error; success exactly when status is 200 and the lower-cased text contains "success"; overload exactly when status is 503; everything else is a plain failure |
| `Bot.RegisterCourse` | bot.py:172-184 | returns true exactly in the success branch, and only for a status-200 response |
| `Bot.UnreadableBodyNeverRegisters` | bot.py:164-168 | with an unreadable body the text becomes "No Content", which is never a success: 503 is overload, any other status a failure |
| `Bot.CaseOfBodyIsIrrelevant` | bot.py:172 | lower-casing the body first does not change the outcome |
| `Bot.SuccessAnywhereInBodyRegisters` | bot.py:172-174 | a 200 response whose body holds "success" in any letter case, at any position, registers |
| `Bot.FailuresNeverRegister` | bot.py:175-184 | a request exception or any status other than 200, 503 included, returns false |
| `Bot.StartInstant` | bot.py:197-198 | the start instant lies exactly burst_start_ms milliseconds before the target, and it is not after the target exactly when burst_start_ms is not negative |
| `Bot.ArmingWait` | bot.py:198-205 | the bot sleeps exactly when the corrected now plus the lead is before the target, and then for start instant minus now |
| `Bot.MakeBatch` | bot.py:220-223 | a batch holds `size` attempts for one course, with ids lastId+1 to lastId+size, and the counter ends at lastId+size |
| `Bot.Fire` | bot.py:209-233 | the batches dispatched, the success flag and the pauses form a burst as IsBurst describes it |
| `Bot.IdsAreConsecutive` | bot.py:210-222 | in any burst the attempt ids, read in dispatch order, are exactly 1, 2, …, batches × size |
| `Bot.BatchOfPass` | bot.py:215-223 | in pass p, the batch at position j holds exactly max_tasks attempts, all for course j of the target list |
| `Bot.StopsAtFirstSuccess` | bot.py:226-230 | if the batch with index k would succeed within the allowed passes, the run succeeds and dispatches no batch after it |
| `Bot.NoSuccessRunsEveryPass` | bot.py:214-233 | if no batch would succeed, the run never stops early: it makes every pass, dispatches passes × n batches and pauses after each pass |
| `Bot.BurstIsDeterministic` | bot.py:209-233 | two runs that satisfy the burst description for the same inputs are identical |
| `Bot.OverloadNeverStops` | bot.py:175-180 | if every reply is a 503, the run never succeeds and runs every pass |
| `Bot.FirstBatchSuccessStopsAtOnce` | bot.py:220-230 | if one of the first max_tasks attempts registers, the run stops after one batch and never pauses |
| `Bot.AsyncSugangBot.constructor` | bot.py:88-98 | a new bot keeps its configuration, has no session yet and owns a fresh, unsynchronised synchroniser for the default server |
| `Bot.AsyncSugangBot.InitSession` | bot.py:100-113 | afterwards a session is open, whatever the pre-warm request did |
| `Bot.AsyncSugangBot.Close` | bot.py:115-117 | closes the session if one was ever created |
| `Bot.AsyncSugangBot.BurstAttack` | bot.py:186-235 | one sync request, plus one more only when a target time is set and the first failed; the clock ends synced exactly when one of those requests got a reply; the wait follows the arming rule on the resulting corrected clock (none without a target time); firing follows IsBurst with max_tasks defaulting to 5 (a negative value gives empty batches) and a retry delay defaulting to 0.1; the session is still open on return |

## Left out

- Selenium login (`SugangBot`, bot.py:19-84): browser automation, the manual CAPTCHA wait and cookie capture.
- The aiohttp session, connection pooling, the pre-warm GET and the POST itself (bot.py:100-117, 140-159). The network is the oracle `respond`. The request URL and the `course_code` payload are not modelled.
- The concurrency of `asyncio.gather` (bot.py:226). A batch is a sequence of independent results, in dispatch order.
- Randomness: the user agent drawn from `fake_useragent` is a parameter of `Bot.Headers`, and the `random.uniform` jitter sleep (bot.py:151-156) is left out. In the model neither affects which attempts are made or what they return; in the source a badly configured jitter can raise (see below).
- Latency measurement and every log line (bot.py:149, 160, 170-183 log calls; logger_config.py).
- The NTP protocol and `ntplib` (ntp_utils.py:13-15). A request is reduced to an optional offset.
- Parsing `target_time` with `time.strptime`/`time.mktime` in the local time zone (bot.py:196). The target is given as a timestamp.
- Floating-point rounding. Times are exact `real` seconds.
- main.py: loading the configuration file and exiting the process. It also imports `KupidBot`, which bot.py does not define, so main.py is not part of this model.
- Configuration errors inside `register_course`, which the model rules out by construction. A course without a `course_code` key raises `KeyError` at bot.py:143, before the `try` at bot.py:158. A truthy `jitter_min` with no `jitter_max` raises `KeyError`, and non-numeric jitter bounds raise `TypeError` (bot.py:152-156). `asyncio.gather` (bot.py:226) re-raises either one, so `burst_attack` aborts mid-burst with the session still open. In the model every `Course` carries a code and there is no jitter.
- A missing `target_courses` key, which raises `KeyError` in the source (bot.py:215). The model's configuration always holds a list.
- Bot.Fire: a fuel bound of `passes` cuts off the source's unbounded `while True` loop. A run cut off without success says nothing about later passes.
- Bot.AsyncSugangBot.BurstAttack: the same `passes` bound. Time does not pass during the modelled sleeps, so the arming wait is computed from one local clock reading.
- Bot.Classify: `str.lower()` is modelled as ASCII case folding. This matters only for the letters of "success". The only characters whose Python lower-case form contains s, u, c or e are the ASCII capitals S, U, C and E, so the outcome is the same. That fact comes from Unicode's case tables and is not proved here.
