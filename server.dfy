/** The time authority: its clock anchored to reference (NTP) servers, the periodic resync
    decision, and the request loop of one client connection. Clock readings and what the
    reference servers and the connection deliver are parameters. */
module Server {
  import opened Wrappers
  import opened Numbers
  import opened Protocol

  /** The reference servers, tried in this order. */
  const NtpServers: seq<string> := ["pool.ntp.org", "0.pool.ntp.org", "1.pool.ntp.org", "2.pool.ntp.org"]

  /** Seconds between two reference syncs. */
  const ResyncPeriod: real := 60.0

  /** Index of the first reference server that answered, if any did. */
  function FirstSuccess(responses: seq<Option<Decimal>>): (r: Option<nat>)
    ensures r.Some? ==> r.value < |responses| && responses[r.value].Some?
    ensures r.Some? ==> forall j :: 0 <= j < r.value ==> responses[j].None?
    ensures r.None? ==> forall j :: 0 <= j < |responses| ==> responses[j].None?
  {
    if responses == [] then None
    else if responses[0].Some? then Some(0)
    else match FirstSuccess(responses[1..])
      case None => None
      case Some(k) => Some(k + 1)
  }

  /** Answers from servers after the first one that answered play no part. */
  lemma FirstSuccessIgnoresLater(responses: seq<Option<Decimal>>, later: seq<Option<Decimal>>)
    requires FirstSuccess(responses).Some?
    ensures FirstSuccess(responses + later) == FirstSuccess(responses)
  {
    var k := FirstSuccess(responses).value;
    var r := FirstSuccess(responses + later);
    assert (responses + later)[k] == responses[k];
  }

  /** The authority's reference-sync state: the offset added to its raw clock, and the raw
      time of the last successful reference sync. */
  datatype NtpState = NtpState(offset: Decimal, lastSync: Decimal)

  /** The state after one reference sync at raw time `now`: the offset is replaced by the
      first answer and the sync is stamped; when no server answers nothing changes. */
  function AfterNtpSync(s: NtpState, responses: seq<Option<Decimal>>, now: Decimal): NtpState {
    match FirstSuccess(responses)
    case Some(k) => NtpState(responses[k].value, now)
    case None => s
  }

  /** A successful sync replaces the offset, whatever it was before, with the first answer. */
  lemma SyncReplacesOffset(s: NtpState, responses: seq<Option<Decimal>>, now: Decimal, k: nat)
    requires k < |responses| && responses[k].Some?
    requires forall j :: 0 <= j < k ==> responses[j].None?
    ensures AfterNtpSync(s, responses, now) == NtpState(responses[k].value, now)
  {
  }

  /** The driver's test: a resync is due once a full period has passed since the last one. */
  predicate ResyncDue(now: Decimal, lastSync: Decimal) {
    now.Value() - lastSync.Value() >= ResyncPeriod
  }

  /** A failed sync leaves the state alone, so a resync that was due stays due at every later
      tick: the driver retries on its next poll. */
  lemma FailedSyncRetries(s: NtpState, responses: seq<Option<Decimal>>, now: Decimal, later: Decimal)
    requires FirstSuccess(responses).None?
    requires ResyncDue(now, s.lastSync) && later.Value() >= now.Value()
    ensures AfterNtpSync(s, responses, now) == s
    ensures ResyncDue(later, AfterNtpSync(s, responses, now).lastSync)
  {
  }

  /** After a successful sync at `now`, the next one is due exactly one period later. */
  lemma SuccessfulSyncDefers(s: NtpState, responses: seq<Option<Decimal>>, now: Decimal, later: Decimal)
    requires FirstSuccess(responses).Some?
    ensures ResyncDue(later, AfterNtpSync(s, responses, now).lastSync) <==> later.Value() >= now.Value() + ResyncPeriod
  {
  }

  /** One poll of the sync driver: the raw time `now` the resync test reads, the reference
      servers' answers, and the raw time `stampedAt` a successful sync records. */
  datatype NtpTick = NtpTick(now: Decimal, responses: seq<Option<Decimal>>, stampedAt: Decimal)

  function AfterTick(s: NtpState, t: NtpTick): NtpState {
    if ResyncDue(t.now, s.lastSync) then AfterNtpSync(s, t.responses, t.stampedAt) else s
  }

  function AfterTicks(s: NtpState, ticks: seq<NtpTick>): NtpState
    decreases |ticks|
  {
    if ticks == [] then s else AfterTick(AfterTicks(s, ticks[..|ticks| - 1]), ticks[|ticks| - 1])
  }

  /** While every reference server keeps failing, the state stays exactly as it was: the stale
      offset persists until a sync succeeds. */
  lemma {:induction false} StaleWhileFailing(s: NtpState, ticks: seq<NtpTick>)
    requires forall i :: 0 <= i < |ticks| ==> FirstSuccess(ticks[i].responses).None?
    ensures AfterTicks(s, ticks) == s
    decreases |ticks|
  {
    if ticks != [] {
      StaleWhileFailing(s, ticks[..|ticks| - 1]);
      assert FirstSuccess(ticks[|ticks| - 1].responses).None?;
    }
  }

  /** The offset the authority ends with is its starting one or some server's answer. */
  lemma {:induction false} OffsetComesFromAnswers(s: NtpState, ticks: seq<NtpTick>)
    ensures var o := AfterTicks(s, ticks).offset;
            o == s.offset || exists i, j :: 0 <= i < |ticks| && 0 <= j < |ticks[i].responses| && ticks[i].responses[j] == Some(o)
    decreases |ticks|
  {
    if ticks != [] {
      var init, t := ticks[..|ticks| - 1], ticks[|ticks| - 1];
      OffsetComesFromAnswers(s, init);
      var before := AfterTicks(s, init);
      var o := AfterTicks(s, ticks).offset;
      if o != before.offset {
        var k := FirstSuccess(t.responses).value;
        assert t.responses[k] == Some(o);
        assert ticks[|ticks| - 1] == t;
      } else if o != s.offset {
        var i, j :| 0 <= i < |init| && 0 <= j < |init[i].responses| && init[i].responses[j] == Some(o);
        assert ticks[i] == init[i];
      }
    }
  }

  /** One `recv` on a client connection, with the raw clock reading taken when it is answered. */
  datatype Received = Received(data: string, clock: Decimal)

  /** Why a connection's loop ended: the peer closed it (an empty read), a request was not a
      number, or the reads given to the model ran out with the connection still open. */
  datatype ConnectionEnd = PeerClosed | MalformedRequest | InputExhausted

  /** The authority's reply to one read when its offset is `offset`, or `None` when the read
      is empty or not a number. */
  function Answer(r: Received, offset: Decimal): Option<string> {
    if r.data == [] then None
    else match ParseRequest(r.data)
      case None => None
      case Some(requestTime) => Some(FormatReply(requestTime, Add(r.clock, offset)))
  }

  /** A read is answered only when it is non-empty and a number, and the client reads from
      the answer that number and the raw clock reading plus the offset, exactly. */
  lemma AnswerCarriesCorrectedTime(r: Received, offset: Decimal, reply: string)
    requires Answer(r, offset) == Some(reply)
    ensures r.data != [] && ParseRequest(r.data).Some?
    ensures ParseReply(reply).Some?
    ensures ParseReply(reply).value.0 == ParseRequest(r.data).value.Value()
    ensures ParseReply(reply).value.1 == r.clock.Value() + offset.Value()
  {
    ReplyRoundTrip(ParseRequest(r.data).value, Add(r.clock, offset));
    AddValue(r.clock, offset);
  }

  /** One connection as the authority sees it: its replies in order, and why it ended.
      Reads are answered in turn until one gets no answer or the input runs out. */
  function Conversation(received: seq<Received>, offset: Decimal): (seq<string>, ConnectionEnd) {
    if received == [] then ([], InputExhausted)
    else match Answer(received[0], offset)
      case None => ([], if received[0].data == [] then PeerClosed else MalformedRequest)
      case Some(reply) =>
        var rest := Conversation(received[1..], offset);
        ([reply] + rest.0, rest.1)
  }

  /** Every reply of a connection answers the read at the same position, and the
      connection ends exactly as the first unanswered read or the end of input says. */
  lemma {:induction false} ConversationFaithful(received: seq<Received>, offset: Decimal)
    ensures |Conversation(received, offset).0| <= |received|
    ensures forall i :: 0 <= i < |Conversation(received, offset).0| ==>
      Answer(received[i], offset) == Some(Conversation(received, offset).0[i])
    ensures Conversation(received, offset).1 == InputExhausted <==>
      |Conversation(received, offset).0| == |received|
    ensures Conversation(received, offset).1 != InputExhausted ==>
      Answer(received[|Conversation(received, offset).0|], offset).None?
    ensures Conversation(received, offset).1 == PeerClosed ==>
      received[|Conversation(received, offset).0|].data == []
    ensures Conversation(received, offset).1 == MalformedRequest ==>
      received[|Conversation(received, offset).0|].data != [] &&
      ParseRequest(received[|Conversation(received, offset).0|].data).None?
  {
    if received != [] && Answer(received[0], offset).Some? {
      ConversationFaithful(received[1..], offset);
    }
  }

  /** The authority's clock: its raw clock plus an offset obtained from the reference servers. */
  class ServerClock {
    var ntpTimeOffset: Decimal
    var lastNtpSync: Decimal

    constructor ()
      ensures ntpTimeOffset == Zero && lastNtpSync == Zero
    {
      ntpTimeOffset := Zero;
      lastNtpSync := Zero;
    }

    function State(): NtpState
      reads this
    {
      NtpState(ntpTimeOffset, lastNtpSync)
    }

    /** The authority's corrected time at raw clock reading `raw`. */
    function GetCurrentTime(raw: Decimal): Decimal
      reads this
    {
      Add(raw, ntpTimeOffset)
    }

    /** The corrected time is the raw clock reading plus the reference offset, exactly. */
    lemma CurrentTimeValue(raw: Decimal)
      ensures GetCurrentTime(raw).Value() == raw.Value() + ntpTimeOffset.Value()
    {
      AddValue(raw, ntpTimeOffset);
    }

    /** One reference sync: the servers are queried in list order and the first answer
        replaces the offset and stamps the sync time; later servers are not queried. When
        every server fails the sync reports failure and changes nothing. */
    method SyncWithNtp(responses: seq<Option<Decimal>>, now: Decimal) returns (ok: bool, queried: nat)
      requires |responses| == |NtpServers|
      modifies this
      ensures State() == AfterNtpSync(old(State()), responses, now)
      ensures ok == FirstSuccess(responses).Some?
      ensures queried == if ok then FirstSuccess(responses).value + 1 else |NtpServers|
    {
      for i := 0 to |NtpServers|
        invariant forall j :: 0 <= j < i ==> responses[j].None?
        invariant State() == old(State())
      {
        match responses[i]
        case Some(offset) =>
          SyncReplacesOffset(State(), responses, now, i);
          ntpTimeOffset := offset;
          lastNtpSync := now;
          return true, i + 1;
        case None =>
      }
      return false, |NtpServers|;
    }

    /** One poll of the sync driver: sync when a resync is due at the tick's `now`. */
    method Tick(t: NtpTick) returns (attempted: bool, ok: bool)
      requires |t.responses| == |NtpServers|
      modifies this
      ensures attempted == ResyncDue(t.now, old(lastNtpSync))
      ensures ok == (attempted && FirstSuccess(t.responses).Some?)
      ensures State() == AfterTick(old(State()), t)
    {
      var timeSinceLastSync := t.now.Value() - lastNtpSync.Value();
      attempted := timeSinceLastSync >= ResyncPeriod;
      ok := false;
      if attempted {
        var queried;
        ok, queried := SyncWithNtp(t.responses, t.stampedAt);
      }
    }

    /** The sync driver: an initial sync that answers `initialResponses` and would stamp
        `initialStamp`, then one poll per tick. */
    method RunNtpSyncThread(initialResponses: seq<Option<Decimal>>, initialStamp: Decimal, ticks: seq<NtpTick>)
      requires |initialResponses| == |NtpServers|
      requires forall i :: 0 <= i < |ticks| ==> |ticks[i].responses| == |NtpServers|
      modifies this
      ensures State() == AfterTicks(AfterNtpSync(old(State()), initialResponses, initialStamp), ticks)
    {
      var ok, queried := SyncWithNtp(initialResponses, initialStamp);
      ghost var start := State();
      for i := 0 to |ticks|
        invariant State() == AfterTicks(start, ticks[..i])
      {
        var attempted, synced := Tick(ticks[i]);
        assert ticks[..i + 1][..i] == ticks[..i];
      }
      assert ticks[..|ticks|] == ticks;
    }

    /** One client connection: each non-empty read that is a number is answered with that
        number and the corrected time; an empty read or a request that is not a number ends
        the connection without a reply. */
    method HandleClient(received: seq<Received>) returns (replies: seq<string>, closedBy: ConnectionEnd)
      ensures (replies, closedBy) == Conversation(received, ntpTimeOffset)
    {
      replies := [];
      var i := 0;
      assert received[i..] == received;
      assert replies + Conversation(received, ntpTimeOffset).0 == Conversation(received, ntpTimeOffset).0;
      while i < |received|
        invariant 0 <= i <= |received|
        invariant Conversation(received, ntpTimeOffset) ==
          (replies + Conversation(received[i..], ntpTimeOffset).0, Conversation(received[i..], ntpTimeOffset).1)
      {
        assert received[i..][0] == received[i] && received[i..][1..] == received[i + 1..];
        var data := received[i].data;
        if data == [] {
          assert replies + [] == replies;
          return replies, PeerClosed;
        }
        var requestTime := ParseRequest(data);
        if requestTime.None? {
          assert replies + [] == replies;
          return replies, MalformedRequest;
        }
        var currentTime := GetCurrentTime(received[i].clock);
        var response := FormatReply(requestTime.value, currentTime);
        assert (replies + [response]) + Conversation(received[i + 1..], ntpTimeOffset).0
          == replies + ([response] + Conversation(received[i + 1..], ntpTimeOffset).0);
        replies := replies + [response];
        i := i + 1;
      }
      assert received[i..] == [];
      assert replies + [] == replies;
      closedBy := InputExhausted;
    }
  }
}
