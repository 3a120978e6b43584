/** The radio driver's acknowledged sending: packet identity, retries and the reply that
    comes back with an acknowledgement, over a channel that may lose any frame. */
module Esb {
  import opened Text

  const MAX_PAYLOAD_LEN := 32
  const DMA_HEADER := 2
  const DMA_BUF_LEN := 34
  const PIDS := 4
  const MAX_GAP := 1500

  type Byte = x: nat | x < 256
  type Bytes = seq<Byte>

  /** What the receive window of one attempt brings: nothing, a frame with a wrong checksum,
      or an acknowledgement; the latter two leave their bytes in the buffer. */
  datatype Answer = Silence | Garbled(buffer: Bytes) | Ack(buffer: Bytes)

  /** One attempt on the air. */
  datatype Trial = Trial(heard: bool, answer: Answer)

  /** A receiver acknowledges only what it has heard. */
  predicate TrialOk(t: Trial) {
    (t.answer.Ack? ==> t.heard) && (!t.answer.Silence? ==> |t.answer.buffer| == DMA_BUF_LEN)
  }

  predicate TrialsOk(trials: seq<Trial>) { forall i :: 0 <= i < |trials| ==> TrialOk(trials[i]) }

  /** Attempts beyond those given are lost. */
  function TrialAt(trials: seq<Trial>, i: nat): Trial {
    if i < |trials| then trials[i] else Trial(false, Silence)
  }

  /** How many attempts are made, starting with number i, and whether the last is answered. */
  function Tries(trials: seq<Trial>, i: nat, limit: nat): (r: (nat, bool))
    requires i <= limit
    ensures i <= r.0 <= limit && (i < limit ==> i < r.0)
    ensures r.1 ==> i < r.0 && TrialAt(trials, r.0 - 1).answer.Ack?
    decreases limit - i
  {
    if i == limit then (i, false)
    else if TrialAt(trials, i).answer.Ack? then (i + 1, true)
    else Tries(trials, i + 1, limit)
  }

  function Min(a: nat, b: nat): nat { if a <= b then a else b }

  function Gap(delay: Byte): nat { Min(delay * 250, MAX_GAP) }

  /** The bytes on air: length, packet identity with the request for an acknowledgement, payload. */
  function Frame(pid: nat, payload: Bytes): (f: Bytes)
    requires pid < PIDS
    ensures 2 <= |f| <= DMA_BUF_LEN
  {
    var n := Min(|payload|, MAX_PAYLOAD_LEN);
    [n, 2 * pid + 1] + payload[..n]
  }

  /** The length of the reply in an acknowledgement; none if the length byte is out of range. */
  function ReplyLength(buffer: Bytes): (n: nat)
    requires |buffer| == DMA_BUF_LEN
    ensures n <= MAX_PAYLOAD_LEN
  {
    if buffer[0] <= MAX_PAYLOAD_LEN then buffer[0] else 0
  }

  function Total(gap: nat, n: nat): nat { gap * n }

  /** One frame on the air: which call sent it, and whether the receiver heard it. */
  datatype Aired = Aired(call: nat, frame: Bytes, heard: bool)

  function AirOf(call: nat, frame: Bytes, trials: seq<Trial>, n: nat): (r: seq<Aired>)
    ensures |r| == n
  {
    if n == 0 then [] else AirOf(call, frame, trials, n - 1) + [Aired(call, frame, TrialAt(trials, n - 1).heard)]
  }

  // ---- The driver ----

  class EsbRadio {
    const txBuf: array<Byte>
    const rxBuf: array<Byte>
    var pid: nat
    var retransmitCount: Byte
    var retransmitDelay: Byte
    var rxLen: nat
    /** History: frames sent, calls made, and microseconds asked to wait. */
    var air: seq<Aired>
    var calls: nat
    var waited: nat
    ghost var made: seq<Call>

    ghost predicate Valid()
      reads this
    {
      && txBuf.Length == rxBuf.Length == DMA_BUF_LEN && txBuf != rxBuf
      && pid < PIDS && rxLen <= MAX_PAYLOAD_LEN
    }

    constructor ()
      ensures Valid() && fresh(txBuf) && fresh(rxBuf)
      ensures pid == 0 && rxLen == 0 && retransmitCount == 15 && retransmitDelay == 15
      ensures air == [] && calls == 0 && waited == 0 && made == [] && Faithful()
    {
      txBuf := new Byte[DMA_BUF_LEN](_ => 0);
      rxBuf := new Byte[DMA_BUF_LEN](_ => 0);
      pid, rxLen, retransmitCount, retransmitDelay := 0, 0, 15, 15;
      air, calls, waited := [], 0, 0;
      made := [];
    }

    method Capture(buffer: Bytes)
      requires Valid() && |buffer| == DMA_BUF_LEN
      modifies rxBuf
      ensures rxBuf[..] == buffer
    {
      forall i | 0 <= i < DMA_BUF_LEN { rxBuf[i] := buffer[i]; }
    }

    /** One attempt: send what is in txBuf, then listen. */
    method TxOnce(trial: Trial) returns (ok: bool)
      requires Valid() && TrialOk(trial) && txBuf[0] <= MAX_PAYLOAD_LEN && calls > 0
      modifies this`rxLen, this`air, rxBuf
      ensures Valid() && ok == trial.answer.Ack?
      ensures air == old(air) + [Aired(calls - 1, txBuf[..DMA_HEADER + txBuf[0]], trial.heard)]
      ensures ok ==> rxBuf[..] == trial.answer.buffer && rxLen == ReplyLength(trial.answer.buffer)
      ensures !ok && old(rxLen) == 0 ==> rxLen == 0
    {
      ghost var frame := txBuf[..DMA_HEADER + txBuf[0]];
      air := air + [Aired(calls - 1, txBuf[..DMA_HEADER + txBuf[0]], trial.heard)];
      if trial.answer.Silence? { return false; }
      Capture(trial.answer.buffer);
      assert txBuf[..DMA_HEADER + txBuf[0]] == frame;
      if trial.answer.Garbled? {
        rxLen := 0;
        return false;
      }
      var len := rxBuf[0];
      rxLen := if 0 < len <= MAX_PAYLOAD_LEN then len else 0;
      ok := true;
    }

    /** Up to now the air has carried what the calls made so far amount to. */
    ghost predicate Faithful()
      reads this
    {
      calls == |made| && pid == |made| % PIDS && air == AirAfter(0, made)
    }

    method SetRetries(delay: Byte, count: Byte)
      modifies this`retransmitDelay, this`retransmitCount
      ensures retransmitDelay == delay && retransmitCount == count
      ensures Valid() == old(Valid()) && Faithful() == old(Faithful())
    {
      retransmitDelay := delay;
      retransmitCount := count;
    }

    method TransmitPayload(payload: Bytes, trials: seq<Trial>) returns (ok: bool)
      requires Valid() && Faithful() && TrialsOk(trials)
      modifies this, txBuf, rxBuf
      ensures Valid() && Faithful() && made == old(made) + [Call(payload, trials, retransmitCount)]
      ensures retransmitCount == old(retransmitCount) && retransmitDelay == old(retransmitDelay)
      ensures ok == Acked(made[|old(made)|])
      ensures waited - old(waited) <= retransmitCount * MAX_GAP
      ensures waited == old(waited)
        + (if retransmitDelay <= 6 then 250 * retransmitDelay else 1500) * (|air| - |old(air)| - 1)
      ensures |air| - |old(air)| <= retransmitCount + 1
      ensures ok ==> air != [] && rxBuf[..] == TrialAt(trials, |air| - |old(air)| - 1).answer.buffer
                     && rxLen == ReplyLength(rxBuf[..])
      ensures !ok ==> rxLen == 0
    {
      hide Tries, AirOf, Frame, Gap, Total, AirAfter;
      ok := SendPacket(payload, trials);
      made := made + [Call(payload, trials, retransmitCount)];
      AirGrows(old(made), Call(payload, trials, retransmitCount));
      CallIsBounded(trials, retransmitCount, retransmitDelay);
      GapExactly(retransmitDelay);
      TotalIs(Gap(retransmitDelay), |air| - |old(air)| - 1);
    }

    /** A new packet: the next identity, sent until it is acknowledged or the retries are used up. */
    method SendPacket(payload: Bytes, trials: seq<Trial>) returns (ok: bool)
      requires Valid() && TrialsOk(trials)
      modifies this`pid, this`calls, this`rxLen, this`air, this`waited, txBuf, rxBuf
      ensures Valid() && pid == (old(pid) + 1) % PIDS && calls == old(calls) + 1
      ensures retransmitCount == old(retransmitCount) && retransmitDelay == old(retransmitDelay)
      ensures var (n, acked) := Tries(trials, 0, retransmitCount + 1);
        && ok == acked
        && air == old(air) + AirOf(old(calls), Frame(pid, payload), trials, n)
        && waited == old(waited) + Total(Gap(retransmitDelay), n - 1)
        && (ok ==> rxBuf[..] == TrialAt(trials, n - 1).answer.buffer
                   && rxLen == ReplyLength(TrialAt(trials, n - 1).answer.buffer))
      ensures !ok ==> rxLen == 0
    {
      hide Tries, AirOf, Frame, Gap, Total;
      var len := Min(|payload|, MAX_PAYLOAD_LEN);
      pid := (pid + 1) % PIDS;
      calls := calls + 1;
      Load(payload, len);
      rxLen := 0;
      var attempts := retransmitCount + 1;
      ghost var call, frame := calls - 1, Frame(pid, payload);
      var attempt := 0;
      NothingAired(air, call, frame, trials);
      OneGap(Gap(retransmitDelay), 0);
      while attempt < attempts
        invariant Valid() && attempt <= attempts && rxLen == 0
        invariant pid == (old(pid) + 1) % PIDS && calls == old(calls) + 1
        invariant retransmitCount == old(retransmitCount) && retransmitDelay == old(retransmitDelay)
        invariant txBuf[0] == len && txBuf[..DMA_HEADER + len] == frame
        invariant air == old(air) + AirOf(call, frame, trials, attempt)
        invariant Tries(trials, 0, attempts) == Tries(trials, attempt, attempts)
        invariant waited == old(waited) + Total(Gap(retransmitDelay), if attempt < attempts then attempt else attempt - 1)
      {
        AirAssoc(old(air), call, frame, trials, attempt);
        TriesUnfold(trials, attempt, attempts);
        var acked := TxOnce(TrialAt(trials, attempt));
        if acked { return true; }
        if attempt + 1 < attempts {
          Pause();
          OneGap(Gap(retransmitDelay), attempt);
        }
        attempt := attempt + 1;
      }
      TriesUnfold(trials, attempt, attempts);
      ok := false;
    }

    /** The gap before the next attempt. */
    method Pause()
      modifies this`waited
      ensures waited == old(waited) + Gap(retransmitDelay)
    {
      waited := waited + Min(retransmitDelay * 250, MAX_GAP);
    }

    method Load(payload: Bytes, len: nat)
      requires Valid() && len == Min(|payload|, MAX_PAYLOAD_LEN)
      modifies txBuf
      ensures txBuf[0] == len && txBuf[..DMA_HEADER + len] == Frame(pid, payload)
    {
      txBuf[0] := len;
      txBuf[1] := 2 * pid + 1;
      forall i | 0 <= i < len { txBuf[DMA_HEADER + i] := payload[i]; }
    }

    /** Hands the pending reply out once. */
    method ReceivePayload(room: nat) returns (payload: Bytes)
      requires Valid()
      modifies this`rxLen
      ensures Valid() && rxLen == 0
      ensures payload == rxBuf[DMA_HEADER..DMA_HEADER + Min(old(rxLen), room)]
    {
      var len := Min(rxLen, room);
      payload := rxBuf[DMA_HEADER..DMA_HEADER + len];
      rxLen := 0;
    }
  }

  lemma AirAssoc(before: seq<Aired>, call: nat, frame: Bytes, trials: seq<Trial>, n: nat)
    ensures before + AirOf(call, frame, trials, n + 1)
         == (before + AirOf(call, frame, trials, n)) + [Aired(call, frame, TrialAt(trials, n).heard)]
  {}

  lemma TriesUnfold(trials: seq<Trial>, i: nat, limit: nat)
    requires i <= limit
    ensures Tries(trials, i, limit) == if i == limit then (i, false)
            else if TrialAt(trials, i).answer.Ack? then (i + 1, true) else Tries(trials, i + 1, limit)
  {}

  lemma NothingAired(before: seq<Aired>, call: nat, frame: Bytes, trials: seq<Trial>)
    ensures before + AirOf(call, frame, trials, 0) == before
  {}

  lemma TotalIs(gap: nat, n: nat)
    ensures Total(gap, n) == gap * n
  {}

  lemma OneGap(gap: nat, n: nat)
    ensures Total(gap, n) + gap == Total(gap, n + 1) && Total(gap, 0) == 0
  {}

  /** A call makes at most count + 1 attempts and asks for at most count * 1500 microseconds. */
  lemma CallIsBounded(trials: seq<Trial>, count: Byte, delay: Byte)
    ensures var n := Tries(trials, 0, count + 1).0;
      1 <= n <= count + 1 && Total(Gap(delay), n - 1) <= count * MAX_GAP
  {
    var n := Tries(trials, 0, count + 1).0;
    Product(Gap(delay), MAX_GAP, n - 1, count);
  }

  lemma Product(a: nat, b: nat, x: nat, y: nat)
    requires a <= b && x <= y
    ensures a * x <= y * b
  {
    assert a * x <= b * x;
    assert b * x <= b * y;
  }

  /** How often a call is sent and what it reports: up to and including the first acknowledged
      attempt, or as often as allowed. */
  lemma TriesExactly(trials: seq<Trial>, limit: nat)
    ensures var (n, acked) := Tries(trials, 0, limit);
      && (acked <==> exists i :: 0 <= i < limit && TrialAt(trials, i).answer.Ack?)
      && (acked ==> 0 < n <= limit && TrialAt(trials, n - 1).answer.Ack?
                    && forall i :: 0 <= i < n - 1 ==> !TrialAt(trials, i).answer.Ack?)
      && (!acked ==> n == limit)
  {
    TriesFrom(trials, 0, limit);
  }

  lemma {:induction false} TriesFrom(trials: seq<Trial>, i: nat, limit: nat)
    requires i <= limit
    ensures var (n, acked) := Tries(trials, i, limit);
      && (acked <==> exists j :: i <= j < limit && TrialAt(trials, j).answer.Ack?)
      && (acked ==> forall j :: i <= j < n - 1 ==> !TrialAt(trials, j).answer.Ack?)
      && (!acked ==> n == limit)
    decreases limit - i
  {
    if i < limit {
      if TrialAt(trials, i).answer.Ack? {} else { TriesFrom(trials, i + 1, limit); }
    }
  }

  /** The retry delay counts in steps of 250 microseconds and stops growing at 1500. */
  lemma GapExactly(delay: Byte)
    ensures Gap(delay) == if delay <= 6 then 250 * delay else 1500
  {}

  // ---- The receiver ----

  /** A receiver drops a frame whose identity and checksum are those of the last one it
      accepted (section 7.3.3.2 of the nRF24L01+ Product Specification). */
  datatype Prx = Prx(last: Option<(nat, nat)>, delivered: seq<nat>, payloads: seq<Bytes>)

  const SILENT := Prx(None, [], [])

  /** What a receiver makes of a frame: as many bytes behind the header as the first one says. */
  function Unpack(frame: Bytes): Bytes
    requires |frame| >= 2
  {
    if DMA_HEADER + frame[0] <= |frame| then frame[DMA_HEADER..DMA_HEADER + frame[0]] else []
  }

  function Key(check: Bytes -> nat, frame: Bytes): (nat, nat)
    requires |frame| >= 2
  {
    (frame[1], check(frame))
  }

  function Hear(check: Bytes -> nat, p: Prx, call: nat, frame: Bytes): Prx
    requires |frame| >= 2
  {
    if p.last == Some(Key(check, frame)) then p
    else Prx(Some(Key(check, frame)), p.delivered + [call], p.payloads + [Unpack(frame)])
  }

  function Listen(check: Bytes -> nat, p: Prx, air: seq<Aired>): Prx
    requires forall i :: 0 <= i < |air| ==> |air[i].frame| >= 2
    decreases |air|
  {
    if air == [] then p else
      var n := |air| - 1;
      var q := Listen(check, p, air[..n]);
      if air[n].heard then Hear(check, q, air[n].call, air[n].frame) else q
  }

  predicate HeardWithin(trials: seq<Trial>, n: nat) { exists i :: 0 <= i < n && TrialAt(trials, i).heard }

  lemma {:induction false} ListenConcat(check: Bytes -> nat, p: Prx, a: seq<Aired>, b: seq<Aired>)
    requires forall i :: 0 <= i < |a| ==> |a[i].frame| >= 2
    requires forall i :: 0 <= i < |b| ==> |b[i].frame| >= 2
    ensures Listen(check, p, a + b) == Listen(check, Listen(check, p, a), b)
    decreases |b|
  {
    if b == [] {
      assert a + b == a;
    } else {
      var n := |b| - 1;
      assert (a + b)[..|a| + n] == a + b[..n];
      ListenConcat(check, p, a, b[..n]);
    }
  }

  lemma AirFrames(call: nat, frame: Bytes, trials: seq<Trial>, n: nat)
    requires |frame| >= 2
    ensures forall i :: 0 <= i < n ==> |AirOf(call, frame, trials, n)[i].frame| >= 2
  {}

  /** However many attempts of one call are heard, the receiver takes them as one. */
  lemma {:induction false} CallHeardOnce(check: Bytes -> nat, p: Prx, call: nat, frame: Bytes, trials: seq<Trial>, n: nat)
    requires |frame| >= 2
    requires forall i :: 0 <= i < n ==> |AirOf(call, frame, trials, n)[i].frame| >= 2
    ensures Listen(check, p, AirOf(call, frame, trials, n))
         == if HeardWithin(trials, n) then Hear(check, p, call, frame) else p
    decreases n
  {
    hide TrialAt, Key, HeardWithin;
    NoneWithin(trials);
    if n > 0 {
      WithinSnoc(trials, n - 1);
      var air := AirOf(call, frame, trials, n);
      assert air[..n - 1] == AirOf(call, frame, trials, n - 1);
      AirFrames(call, frame, trials, n - 1);
      CallHeardOnce(check, p, call, frame, trials, n - 1);
    }
  }

  lemma NoneWithin(trials: seq<Trial>)
    ensures !HeardWithin(trials, 0)
  {}

  lemma WithinSnoc(trials: seq<Trial>, n: nat)
    ensures HeardWithin(trials, n + 1) <==> HeardWithin(trials, n) || TrialAt(trials, n).heard
  {
    hide TrialAt;
    if HeardWithin(trials, n) { assert HeardWithin(trials, n + 1); }
  }

  // ---- Many calls ----

  datatype Call = Call(payload: Bytes, trials: seq<Trial>, count: Byte)

  function Attempts(c: Call): nat { Tries(c.trials, 0, c.count + 1).0 }

  predicate Acked(c: Call) { Tries(c.trials, 0, c.count + 1).1 }

  predicate IsHeard(c: Call) { HeardWithin(c.trials, Attempts(c)) }

  /** The identity of call k when the driver started from first. */
  function PidOf(first: nat, k: nat): (pid: nat)
    ensures pid < PIDS
  {
    (first + k + 1) % PIDS
  }

  function FrameOf(first: nat, k: nat, c: Call): Bytes { Frame(PidOf(first, k), c.payload) }

  /** The air after all calls, as the driver leaves it. */
  function AirAfter(first: nat, calls: seq<Call>): (air: seq<Aired>)
    ensures forall i :: 0 <= i < |air| ==> |air[i].frame| >= 2
    decreases |calls|
  {
    if calls == [] then [] else
      var n := |calls| - 1;
      AirFrames(n, FrameOf(first, n, calls[n]), calls[n].trials, Attempts(calls[n]));
      AirAfter(first, calls[..n]) + AirOf(n, FrameOf(first, n, calls[n]), calls[n].trials, Attempts(calls[n]))
  }

  lemma AirGrows(calls: seq<Call>, c: Call)
    ensures AirAfter(0, calls + [c])
         == AirAfter(0, calls) + AirOf(|calls|, Frame((|calls| + 1) % PIDS, c.payload), c.trials, Attempts(c))
  {
    assert (calls + [c])[..|calls|] == calls;
  }

  function Received(check: Bytes -> nat, first: nat, calls: seq<Call>): Prx {
    Listen(check, SILENT, AirAfter(first, calls))
  }

  lemma OneMoreCall(check: Bytes -> nat, first: nat, calls: seq<Call>)
    requires calls != []
    ensures var n := |calls| - 1; var q := Received(check, first, calls[..n]);
      Received(check, first, calls)
        == if IsHeard(calls[n]) then Hear(check, q, n, FrameOf(first, n, calls[n])) else q
  {
    hide Frame, Tries, HeardWithin, AirOf, Hear;
    var n := |calls| - 1;
    var frame := FrameOf(first, n, calls[n]);
    AirFrames(n, frame, calls[n].trials, Attempts(calls[n]));
    var more := AirOf(n, frame, calls[n].trials, Attempts(calls[n]));
    ListenConcat(check, SILENT, AirAfter(first, calls[..n]), more);
    CallHeardOnce(check, Received(check, first, calls[..n]), n, frame, calls[n].trials, Attempts(calls[n]));
  }

  /** The last call of which anything was heard. */
  function LastHeard(calls: seq<Call>): (k: Option<nat>)
    ensures k.Some? ==> k.value < |calls| && IsHeard(calls[k.value])
    decreases |calls|
  {
    if calls == [] then None else
      var n := |calls| - 1;
      if IsHeard(calls[n]) then Some(n) else LastHeard(calls[..n])
  }

  /** The receiver's last key is that of the last call heard, delivered or not. */
  lemma {:induction false} LastKey(check: Bytes -> nat, first: nat, calls: seq<Call>)
    ensures Received(check, first, calls).last
         == match LastHeard(calls) case None => None
            case Some(j) => Some(Key(check, FrameOf(first, j, calls[j])))
    ensures forall i :: 0 <= i < |Received(check, first, calls).delivered| ==>
      Received(check, first, calls).delivered[i] < |calls|
    decreases |calls|
  {
    hide Frame, IsHeard, AirAfter, Listen, Key;
    if calls == [] {
      NothingReceived(check, first);
    } else {
      LastKey(check, first, calls[..|calls| - 1]);
      OneMoreCall(check, first, calls);
    }
  }

  lemma NothingReceived(check: Bytes -> nat, first: nat)
    ensures Received(check, first, []) == SILENT
  {}

  /** No call is delivered twice, and calls are delivered in the order they were made. */
  lemma {:induction false} DeliveredInOrder(check: Bytes -> nat, first: nat, calls: seq<Call>)
    ensures var got := Received(check, first, calls).delivered;
      forall i, j :: 0 <= i < j < |got| ==> got[i] < got[j]
    decreases |calls|
  {
    hide Frame, IsHeard, AirAfter, Listen, Key;
    if calls == [] {
      NothingReceived(check, first);
    } else {
      var n := |calls| - 1;
      DeliveredInOrder(check, first, calls[..n]);
      LastKey(check, first, calls[..n]);
      OneMoreCall(check, first, calls);
    }
  }

  lemma SamePid(first: nat, j: nat, k: nat)
    requires j < k
    ensures PidOf(first, j) == PidOf(first, k) <==> (k - j) % PIDS == 0
  {}

  /** Two calls look alike to the receiver exactly when they are a multiple of four apart and
      their frames have the same checksum. */
  lemma SameKey(check: Bytes -> nat, first: nat, j: nat, c: Call, k: nat, d: Call)
    requires j < k
    ensures Key(check, FrameOf(first, j, c)) == Key(check, FrameOf(first, k, d)) <==>
      (k - j) % PIDS == 0 && check(FrameOf(first, j, c)) == check(FrameOf(first, k, d))
  {
    SamePid(first, j, k);
  }

  /** A call is taken for a repetition of the last one heard. */
  predicate Mistaken(check: Bytes -> nat, first: nat, calls: seq<Call>, k: nat)
    requires k < |calls|
  {
    match LastHeard(calls[..k])
    case None => false
    case Some(j) => (k - j) % PIDS == 0 && check(FrameOf(first, j, calls[j])) == check(FrameOf(first, k, calls[k]))
  }

  /** Exactly which calls are delivered: those heard and not mistaken for a repetition. */
  lemma {:induction false} DeliveredExactly(check: Bytes -> nat, first: nat, calls: seq<Call>, k: nat)
    requires k < |calls|
    ensures k in Received(check, first, calls).delivered <==>
      IsHeard(calls[k]) && !Mistaken(check, first, calls, k)
    decreases |calls|
  {
    hide FrameOf, IsHeard, AirAfter, Listen, Key, Received;
    var n := |calls| - 1;
    var init := calls[..n];
    OneMoreCall(check, first, calls);
    LastKey(check, first, init);
    if k < n {
      DeliveredExactly(check, first, init, k);
      assert init[..k] == calls[..k];
    } else {
      assert n !in Received(check, first, init).delivered;
      if LastHeard(init).Some? {
        var j := LastHeard(init).value;
        SameKey(check, first, j, calls[j], n, calls[n]);
      }
    }
  }

  /** An acknowledged call was heard. */
  lemma AckedIsHeard(c: Call)
    requires TrialsOk(c.trials) && Acked(c)
    ensures IsHeard(c)
  {
    var n := Attempts(c);
    assert TrialAt(c.trials, n - 1).heard;
  }

  /** A call reported as acknowledged is delivered, and only once, when at most two calls in
      a row just before it went unheard; with three the identities have come round. */
  lemma AckedIsDelivered(check: Bytes -> nat, first: nat, calls: seq<Call>, k: nat)
    requires k < |calls| && TrialsOk(calls[k].trials) && Acked(calls[k])
    requires LastHeard(calls[..k]).Some? ==> k - LastHeard(calls[..k]).value <= 3
    ensures var got := Received(check, first, calls).delivered;
      && k in got
      && (forall i, j :: 0 <= i < |got| && 0 <= j < |got| && got[i] == got[j] == k ==> i == j)
  {
    hide FrameOf, IsHeard, Received;
    AckedIsHeard(calls[k]);
    DeliveredExactly(check, first, calls, k);
    DeliveredInOrder(check, first, calls);
  }

  /** Acknowledged yet lost: exactly after three, seven, ... unheard calls and the same checksum. */
  lemma AckedButLost(check: Bytes -> nat, first: nat, calls: seq<Call>, k: nat)
    requires k < |calls| && TrialsOk(calls[k].trials) && Acked(calls[k])
    ensures k !in Received(check, first, calls).delivered <==> Mistaken(check, first, calls, k)
  {
    hide FrameOf, IsHeard, Received, Mistaken;
    AckedIsHeard(calls[k]);
    DeliveredExactly(check, first, calls, k);
  }

  // ---- What arrives ----

  /** A payload as far as a frame can hold it. */
  function Carried(payload: Bytes): Bytes { payload[..Min(|payload|, MAX_PAYLOAD_LEN)] }

  /** A frame holds the length first, then identity and the request for an acknowledgement, then
      the payload itself, and a receiver takes just that payload from it. */
  lemma FrameCarries(pid: nat, payload: Bytes)
    requires pid < PIDS
    ensures var f, n := Frame(pid, payload), if |payload| <= 32 then |payload| else 32;
      && |f| == 2 + n && f[0] == n
      && f[1] % 2 == 1 && f[1] / 2 == pid
      && f[2..] == payload[..n] && Unpack(f) == payload[..n] && Carried(payload) == payload[..n]
    ensures |payload| <= 32 ==> Carried(payload) == payload
  {}

  /** A device answers in the same format: the payload of its frame is the reply handed out. */
  lemma ReplyArrives(pid: nat, reply: Bytes, buffer: Bytes)
    requires pid < PIDS && |reply| <= MAX_PAYLOAD_LEN && |buffer| == DMA_BUF_LEN
    requires Frame(pid, reply) <= buffer
    ensures ReplyLength(buffer) == |reply|
    ensures buffer[DMA_HEADER..DMA_HEADER + Min(ReplyLength(buffer), MAX_PAYLOAD_LEN)] == reply
  {
    hide Frame;
    FrameCarries(pid, reply);
    assert buffer[..2 + |reply|] == Frame(pid, reply);
    assert buffer[0] == Frame(pid, reply)[0];
    assert buffer[2..2 + |reply|] == buffer[..2 + |reply|][2..];
  }

  /** A length byte no frame can have counts as no reply. */
  lemma OverlongReplyIsNone(buffer: Bytes)
    requires |buffer| == DMA_BUF_LEN && buffer[0] > 32
    ensures ReplyLength(buffer) == 0
  {}

  lemma {:induction false} AiredBy(call: nat, frame: Bytes, trials: seq<Trial>, n: nat)
    ensures forall i :: 0 <= i < n ==>
      AirOf(call, frame, trials, n)[i].call == call && AirOf(call, frame, trials, n)[i].frame == frame
    decreases n
  {
    if n > 0 { AiredBy(call, frame, trials, n - 1); }
  }

  /** An entry of the air is the frame of one of the calls. */
  predicate OfCall(first: nat, calls: seq<Call>, a: Aired) {
    a.call < |calls| && a.frame == FrameOf(first, a.call, calls[a.call])
  }

  lemma {:induction false} AirIsOfCalls(first: nat, calls: seq<Call>)
    ensures forall a :: a in AirAfter(first, calls) ==> OfCall(first, calls, a)
    decreases |calls|
  {
    hide FrameOf, Attempts, AirOf;
    if calls != [] {
      var n := |calls| - 1;
      AirIsOfCalls(first, calls[..n]);
      var more := AirOf(n, FrameOf(first, n, calls[n]), calls[n].trials, Attempts(calls[n]));
      AiredBy(n, FrameOf(first, n, calls[n]), calls[n].trials, Attempts(calls[n]));
      forall a | a in AirAfter(first, calls) ensures OfCall(first, calls, a) {
        if a in AirAfter(first, calls[..n]) {
          assert OfCall(first, calls[..n], a);
        } else {
          assert a in more;
        }
      }
    }
  }

  /** Every frame on the air has the length of its call's payload in front, asks for an
      acknowledgement under the call's identity, and goes on with that payload itself. */
  lemma AirCarries(first: nat, calls: seq<Call>, i: nat)
    requires i < |AirAfter(first, calls)|
    ensures var a := AirAfter(first, calls)[i];
      && a.call < |calls|
      && var sent := calls[a.call].payload; var n := if |sent| <= 32 then |sent| else 32;
         && a.frame[0] == n && |a.frame| == 2 + n && a.frame[2..] == sent[..n]
         && a.frame[1] == 2 * ((first + a.call + 1) % 4) + 1
  {
    hide Frame, AirAfter;
    var a := AirAfter(first, calls)[i];
    AirIsOfCalls(first, calls);
    assert OfCall(first, calls, a);
    FrameCarries(PidOf(first, a.call), calls[a.call].payload);
  }

  /** What is delivered for a call is that call's payload. */
  lemma {:induction false} DeliveredIsSent(check: Bytes -> nat, first: nat, calls: seq<Call>)
    ensures var r := Received(check, first, calls);
      && |r.payloads| == |r.delivered|
      && forall i :: 0 <= i < |r.delivered| ==>
           r.delivered[i] < |calls| && r.payloads[i] == Carried(calls[r.delivered[i]].payload)
    decreases |calls|
  {
    hide Frame, IsHeard, AirAfter, Listen, Key, Unpack, Carried, Received;
    if calls == [] {
      NothingReceived(check, first);
    } else {
      var n := |calls| - 1;
      DeliveredIsSent(check, first, calls[..n]);
      OneMoreCall(check, first, calls);
      FrameCarries(PidOf(first, n), calls[n].payload);
    }
  }

  /** One such loss: five calls with the same payload, the first acknowledged, the next three
      unheard, the fifth acknowledged again. */
  function FiveCalls(payload: Bytes, buffer: Bytes): seq<Call> {
    var heard, lost := Call(payload, [Trial(true, Ack(buffer))], 0), Call(payload, [], 0);
    [heard, lost, lost, lost, heard]
  }

  lemma FifthIsLost(check: Bytes -> nat, first: nat, payload: Bytes, buffer: Bytes)
    requires |buffer| == DMA_BUF_LEN
    ensures var calls := FiveCalls(payload, buffer);
      && TrialsOk(calls[4].trials) && Acked(calls[4])
      && 4 !in Received(check, first, calls).delivered
  {
    hide Received, FrameOf;
    var calls := FiveCalls(payload, buffer);
    FirstIsLastHeard(calls[..4], payload, buffer);
    SameFrames(first, calls[0], calls[4]);
    AckedButLost(check, first, calls, 4);
  }

  lemma FirstIsLastHeard(four: seq<Call>, payload: Bytes, buffer: Bytes)
    requires |buffer| == DMA_BUF_LEN && four == FiveCalls(payload, buffer)[..4]
    ensures LastHeard(four) == Some(0)
  {
    var heard, lost := four[0], four[3];
    assert Tries(heard.trials, 0, 1) == (1, true) && TrialAt(heard.trials, 0).heard;
    assert IsHeard(heard);
    assert !IsHeard(lost);
    assert four[..3][..2] == four[..2] && four[..2][..1] == four[..1] && four[..1][..0] == [];
    assert LastHeard(four) == LastHeard(four[..3]);
    assert LastHeard(four[..3]) == LastHeard(four[..2]);
    assert LastHeard(four[..2]) == LastHeard(four[..1]);
  }

  lemma SameFrames(first: nat, c: Call, d: Call)
    requires c.payload == d.payload
    ensures FrameOf(first, 0, c) == FrameOf(first, 4, d)
  {
    assert PidOf(first, 0) == PidOf(first, 4);
  }

  // ---- Orders to the driver ----

  /** The retry settings, then a payload to send and what the air does with it. */
  datatype Order = Order(delay: Byte, count: Byte, payload: Bytes, trials: seq<Trial>)

  function CallsOf(orders: seq<Order>): (r: seq<Call>)
    ensures |r| == |orders|
  {
    seq(|orders|, i requires 0 <= i < |orders| =>
      Call(orders[i].payload, orders[i].trials, orders[i].count))
  }

  /** A driver that carries out any orders: it reports exactly the acknowledged calls, and what
      a receiver makes of its air is what it makes of the calls. */
  method SendAll(orders: seq<Order>, ghost check: Bytes -> nat) returns (radio: EsbRadio, reports: seq<bool>)
    requires forall i :: 0 <= i < |orders| ==> TrialsOk(orders[i].trials)
    ensures radio.Valid() && radio.Faithful() && radio.made == CallsOf(orders)
    ensures |reports| == |orders| && forall i :: 0 <= i < |orders| ==> reports[i] == Acked(CallsOf(orders)[i])
    ensures var r := Listen(check, SILENT, radio.air);
      && r == Received(check, 0, CallsOf(orders)) && |r.payloads| == |r.delivered|
      && forall i :: 0 <= i < |r.delivered| ==>
           r.delivered[i] < |orders| && r.payloads[i] == Carried(orders[r.delivered[i]].payload)
  {
    hide Acked, AirAfter, Listen, Carried;
    DeliveredIsSent(check, 0, CallsOf(orders));
    radio := new EsbRadio();
    reports := [];
    assert CallsOf(orders[..0]) == [];
    for i := 0 to |orders|
      invariant radio.Valid() && radio.Faithful() && fresh(radio) && fresh(radio.txBuf) && fresh(radio.rxBuf)
      invariant radio.made == CallsOf(orders[..i]) && |reports| == i
      invariant forall j :: 0 <= j < i ==> reports[j] == Acked(CallsOf(orders)[j])
    {
      CallsSnoc(orders, i);
      radio.SetRetries(orders[i].delay, orders[i].count);
      var ok := radio.TransmitPayload(orders[i].payload, orders[i].trials);
      reports := reports + [ok];
    }
    assert orders[..|orders|] == orders;
  }

  lemma CallsSnoc(orders: seq<Order>, i: nat)
    requires i < |orders|
    ensures CallsOf(orders[..i + 1]) == CallsOf(orders[..i]) + [CallsOf(orders)[i]]
    ensures CallsOf(orders)[i] == Call(orders[i].payload, orders[i].trials, orders[i].count)
  {}
}
