/** The measurement protocol: trigger (`cHS300x::startMeasurement`), one raw
    result fetch (`cHS300x::getMeasurementResultsRaw`), and the full
    trigger, sleep and poll cycle (`cHS300x::getTemperatureHumidityRaw`).
    The bus and the millisecond clock are replaced by a `Script`. */
module Measurement {
  import opened HS300xTypes
  import opened Response
  import opened Bus

  /** `startMeasurement`: address the device with an empty transaction. A
      nonzero end-of-transmission status means nothing was triggered and
      yields 0; otherwise the conversion delay the caller has to sleep. */
  function StartMeasurement(d: Driver, endStatus: byte): (msDelay: u32)
    ensures msDelay == 0 || msDelay == d.measurementDelayMs
    ensures endStatus != 0 ==> msDelay == 0
    ensures d.measurementDelayMs != 0 ==> (msDelay == 0 <==> endStatus != 0)
  {
    if endStatus != 0 then 0 else d.measurementDelayMs
  }

  /** The verdict of `getMeasurementResultsRaw` and its two by-reference
      outputs after the call. */
  datatype RawResult = RawResult(ok: bool, tfrac: u16, rhfrac: u16)

  /** The transport never offers more bytes than a measurement read asks for. */
  predicate ReplyFits(d: Driver, reply: BusReply) {
    d.address >= 0 ==> |reply.bytes| <= ResponseLength
  }

  /** The replies `getMeasurementResultsRaw` accepts: the address is
      configured, all four bytes arrived and the status field is `00`. */
  predicate Accepts(d: Driver, reply: BusReply) {
    && d.address >= 0
    && |reply.bytes| == ResponseLength
    && Status(reply.bytes[0]) == 0
  }

  /** `getMeasurementResultsRaw`: one 4-byte read, validated and unpacked.
      `tfrac` and `rhfrac` are the outputs' values before the call; on a
      failed read or a bad status they are left as they were. The local
      buffer's initial content is never observed and is modelled as zeros. */
  function GetMeasurementResultsRaw(d: Driver, reply: BusReply, tfrac: u16, rhfrac: u16): (r: RawResult)
    requires ReplyFits(d, reply)
    ensures r.ok <==> Accepts(d, reply)
    ensures r.ok ==> DecodeResponse(reply.bytes) == Some(RawReading(r.tfrac, r.rhfrac))
    ensures !r.ok ==> r.tfrac == tfrac && r.rhfrac == rhfrac
  {
    var rd := ReadResponse(Some([0, 0, 0, 0]), ResponseLength, d.address, reply);
    if !rd.ok then
      RawResult(false, tfrac, rhfrac)
    else
      match DecodeResponse(rd.buf.value)
      case None => RawResult(false, tfrac, rhfrac)
      case Some(x) => RawResult(true, x.tfrac, x.rhfrac)
  }

  /** What the environment does during one `getTemperatureHumidityRaw` call:
      the end-of-transmission status of the trigger, the transport's answer
      to each poll in order, and the successive `millis()` readings, the
      first being the start of polling and reading `k` the one taken after
      poll `k` fails. */
  datatype Script = Script(endStatus: byte, replies: seq<BusReply>, clock: seq<u32>)

  /** `millis() - tStart` in 32-bit unsigned arithmetic, for reading `k`. */
  function Elapsed(s: Script, k: nat): (e: u32)
    requires k < |s.clock|
    ensures s.clock[0] <= s.clock[k] ==> e == s.clock[k] - s.clock[0]
    ensures s.clock[k] < s.clock[0] ==> e == s.clock[k] - s.clock[0] + U32Limit
  {
    (s.clock[k] - s.clock[0]) % U32Limit
  }

  /** The poll loop's exit test on the clock: not `elapsed < timeout`. */
  predicate Expired(d: Driver, s: Script, k: nat)
    requires k < |s.clock|
  {
    Elapsed(s, k) >= d.timeoutMs
  }

  /** A script long enough to decide the call: the last clock reading is
      past the deadline (the real clock is assumed to move on), there is a
      reply for every poll that can happen before it, and no reply is longer
      than the 4-byte buffer. */
  predicate WellFormedScript(d: Driver, s: Script) {
    && |s.clock| >= 2
    && |s.replies| >= |s.clock| - 1
    && (forall j :: 0 <= j < |s.replies| ==> ReplyFits(d, s.replies[j]))
    && Expired(d, s, |s.clock| - 1)
  }

  /** The observable result of one measurement cycle: the verdict, the two
      outputs, the sleep that was issued (if any) and how many polls ran. */
  datatype Outcome = Outcome(ok: bool, tfrac: u16, rhfrac: u16, delayed: Option<u32>, attempts: nat)

  /** Polls `0 .. n-2` were all rejected. */
  predicate RejectedBefore(d: Driver, s: Script, n: nat)
    requires n <= |s.replies| + 1
  {
    forall j :: 0 <= j < n - 1 ==> !Accepts(d, s.replies[j])
  }

  /** Clock readings `1 .. n-1`, each taken after a failed poll, were all
      inside the budget. */
  predicate InBudgetBefore(d: Driver, s: Script, n: nat)
    requires n <= |s.clock|
  {
    forall k :: 0 < k < n ==> !Expired(d, s, k)
  }

  /** The outcome of `n` polls: success exactly when poll `n-1` was
      accepted, with its decoded fractions; failure only once the clock
      reading after it is past the deadline. */
  predicate PollEnded(d: Driver, s: Script, n: nat, ok: bool, tfrac: u16, rhfrac: u16)
    requires WellFormedScript(d, s) && 1 <= n < |s.clock|
  {
    && (ok <==> Accepts(d, s.replies[n - 1]))
    && (ok ==> DecodeResponse(s.replies[n - 1].bytes) == Some(RawReading(tfrac, rhfrac)))
    && (!ok ==> Expired(d, s, n))
  }

  /** The protocol's meaning, stated per poll rather than as a loop:
      - a failed trigger fails at once, with no sleep and no poll;
      - otherwise the driver sleeps for the conversion delay and polls at
        least once; every poll but the last was rejected and was followed by
        a clock reading inside the budget;
      - the call succeeds exactly when the last poll was accepted, and then
        returns that reply's decoded fractions;
      - a failure comes with an expired clock reading and zeroed outputs. */
  predicate Measured(d: Driver, s: Script, o: Outcome)
    requires WellFormedScript(d, s)
  {
    var msDelay := StartMeasurement(d, s.endStatus);
    if msDelay == 0 then
      o == Outcome(false, 0, 0, None, 0)
    else
      && o.delayed == Some(msDelay)
      && 1 <= o.attempts < |s.clock|
      && RejectedBefore(d, s, o.attempts)
      && InBudgetBefore(d, s, o.attempts)
      && PollEnded(d, s, o.attempts, o.ok, o.tfrac, o.rhfrac)
      && (!o.ok ==> o.tfrac == 0 && o.rhfrac == 0)
  }

  /** The `do ... while` poll loop of `getTemperatureHumidityRaw`, entered
      with the outputs' current values: poll, and after a failed poll read
      the clock and go on while `millis() - tStart < timeout`. */
  method Poll(d: Driver, s: Script, tfrac0: u16, rhfrac0: u16)
      returns (ok: bool, tfrac: u16, rhfrac: u16, attempts: nat)
    requires WellFormedScript(d, s)
    ensures 1 <= attempts < |s.clock|
    ensures RejectedBefore(d, s, attempts) && InBudgetBefore(d, s, attempts)
    ensures PollEnded(d, s, attempts, ok, tfrac, rhfrac)
  {
    var m := GetMeasurementResultsRaw(d, s.replies[0], tfrac0, rhfrac0);
    ok, tfrac, rhfrac := m.ok, m.tfrac, m.rhfrac;
    attempts := 1;
    while !ok && Elapsed(s, attempts) < d.timeoutMs
      invariant 1 <= attempts < |s.clock|
      invariant RejectedBefore(d, s, attempts) && InBudgetBefore(d, s, attempts)
      invariant ok <==> Accepts(d, s.replies[attempts - 1])
      invariant ok ==> DecodeResponse(s.replies[attempts - 1].bytes) == Some(RawReading(tfrac, rhfrac))
      decreases |s.clock| - attempts
    {
      assert RejectedBefore(d, s, attempts + 1) && InBudgetBefore(d, s, attempts + 1);
      m := GetMeasurementResultsRaw(d, s.replies[attempts], tfrac, rhfrac);
      ok, tfrac, rhfrac := m.ok, m.tfrac, m.rhfrac;
      attempts := attempts + 1;
    }
  }

  /** `getTemperatureHumidityRaw`: trigger, sleep once, then poll with no
      pause until a reply is accepted or the budget is spent; on failure
      both outputs are forced to zero. `tfrac0` and `rhfrac0` are the
      outputs' values on entry. */
  method GetTemperatureHumidityRaw(d: Driver, s: Script, tfrac0: u16, rhfrac0: u16) returns (o: Outcome)
    requires WellFormedScript(d, s)
    ensures Measured(d, s, o)
  {
    var tfrac, rhfrac := tfrac0, rhfrac0;
    var delayed: Option<u32> := None;
    var attempts: nat := 0;
    var fResult := true;
    var msDelay := StartMeasurement(d, s.endStatus);
    if msDelay == 0 {
      fResult := false;
    }
    if fResult {
      delayed := Some(msDelay);
      fResult, tfrac, rhfrac, attempts := Poll(d, s, tfrac, rhfrac);
    }
    if !fResult {
      tfrac, rhfrac := 0, 0;
    }
    o := Outcome(fResult, tfrac, rhfrac, delayed, attempts);
  }

  /** The description `Measured` gives is complete: it fixes the outcome. */
  lemma MeasuredDeterministic(d: Driver, s: Script, o1: Outcome, o2: Outcome)
    requires WellFormedScript(d, s)
    requires Measured(d, s, o1) && Measured(d, s, o2)
    ensures o1 == o2
  {
  }

  /** When no reply in the script is acceptable (the device is absent, keeps
      reporting stale data, or short-reads), the call times out with zeroed
      outputs after polling up to a clock reading past the deadline. */
  lemma NoAcceptableReplyTimesOut(d: Driver, s: Script, o: Outcome)
    requires WellFormedScript(d, s)
    requires Measured(d, s, o)
    requires forall j :: 0 <= j < |s.replies| ==> !Accepts(d, s.replies[j])
    ensures !o.ok && o.tfrac == 0 && o.rhfrac == 0
    ensures o.attempts > 0 ==> Expired(d, s, o.attempts)
  {
  }

  /** Polling never outlives the first clock reading past the deadline. */
  lemma PollsStopAtDeadline(d: Driver, s: Script, o: Outcome, k: nat)
    requires WellFormedScript(d, s)
    requires Measured(d, s, o)
    requires 0 < k < |s.clock| && Expired(d, s, k)
    ensures o.attempts <= k
  {
  }

  /** An acceptable first reply ends the cycle after one poll with its
      decoded values, whatever the clock does. */
  lemma FirstReplyAccepted(d: Driver, s: Script, o: Outcome)
    requires WellFormedScript(d, s)
    requires Measured(d, s, o)
    requires s.endStatus == 0 && d.measurementDelayMs != 0
    requires Accepts(d, s.replies[0])
    ensures o.ok && o.attempts == 1
    ensures DecodeResponse(s.replies[0].bytes) == Some(RawReading(o.tfrac, o.rhfrac))
  {
  }

  /** A successful cycle returns fractions with their two low bits clear. */
  lemma SuccessIsWellFormed(d: Driver, s: Script, o: Outcome)
    requires WellFormedScript(d, s)
    requires Measured(d, s, o) && o.ok
    ensures o.tfrac % 4 == 0 && o.rhfrac % 4 == 0
  {
  }

  /** A cycle whose polling straddles the 32-bit rollover of `millis()`:
      with a 100 ms budget and a device that keeps reporting stale data,
      the readings 48 and 96 ms after the start keep polling although the
      clock has wrapped, and the reading 112 ms after the start ends the
      cycle after three polls. */
  lemma WrapAroundExample(o: Outcome)
    requires
      var stale := BusReply(4, [0x40, 0, 0, 0]);
      Measured(Driver(0x44, 40, 100),
               Script(0, [stale, stale, stale], [0xFFFF_FFC0, 0xFFFF_FFF0, 0x20, 0x30]), o)
    ensures o == Outcome(false, 0, 0, Some(40), 3)
  {
  }
}
