/** One reconciliation cycle of the updater (the body of the `while True`
    loop in `main`): obtain the public IP once, then for every configured
    record read its stored content and, only when it differs from the
    public IP, overwrite it. The outcomes of the three network calls are
    inputs; the result is the ordered trace of what the cycle does. */
module Reconcile {
  import opened Configuration

  const RECORD_TYPE := "A"
  const RECORD_TTL := 120

  /** What a network call gave: a value, or an exception with its text. */
  datatype Outcome<T> = Done(value: T) | Failed(reason: string)

  /** The outcomes the provider gives for one record in one cycle: the read
      (the stored content), and the write, used only if one is issued. */
  datatype Responses = Responses(read: Outcome<string>, write: Outcome<()>)

  /** The read of one record (`get_dns_ip`), bearer-authenticated. */
  datatype ReadRequest = ReadRequest(token: string, zoneId: string, recordId: string)

  /** The overwrite of one record (`update_dns`) and its JSON body. */
  datatype WriteRequest = WriteRequest(
    token: string, zoneId: string, recordId: string,
    recordType: string, name: string, content: string, ttl: int, proxied: bool)

  /** The log lines, without their wording and timestamps. */
  datatype Event =
    | IpUnavailable(reason: string)
    | ReadFailed(name: string, reason: string)
    | Unchanged(name: string, ip: string)
    | Updating(name: string, oldIp: string, newIp: string)
    | WriteFailed(name: string, reason: string)

  datatype Action = Read(read: ReadRequest) | Write(write: WriteRequest) | Log(event: Event)

  function ReadOf(token: string, rec: RecordTarget): ReadRequest
  {
    ReadRequest(token, rec.zoneId, rec.recordId)
  }

  /** The request `update_dns` sends to point `rec` at `ip`. */
  function UpdatePayload(token: string, rec: RecordTarget, ip: string): (w: WriteRequest)
    ensures var r := ReadOf(token, rec); w.token == r.token && w.zoneId == r.zoneId && w.recordId == r.recordId
    ensures w.content == ip && w.name == rec.name
  {
    WriteRequest(token, rec.zoneId, rec.recordId, RECORD_TYPE, rec.name, ip, RECORD_TTL, true)
  }

  /** Whether the cycle overwrites a record whose read gave `read`. */
  predicate NeedsUpdate(ip: string, read: Outcome<string>)
    ensures NeedsUpdate(ip, read) ==> read.Done? && read != Done(ip)
  {
    read.Done? && read.value != ip
  }

  /** What the cycle does for one record, given the public IP. */
  function RecordTrace(token: string, rec: RecordTarget, ip: string, resp: Responses): (t: seq<Action>)
    ensures 2 <= |t| <= 4
    ensures t[0] == Read(ReadOf(token, rec)) && t[1].Log?
  {
    [Read(ReadOf(token, rec))] +
    match resp.read
    case Failed(e) => [Log(ReadFailed(rec.name, e))]
    case Done(dnsIp) =>
      if ip == dnsIp then [Log(Unchanged(rec.name, ip))]
      else
        [Log(Updating(rec.name, dnsIp, ip)), Write(UpdatePayload(token, rec, ip))] +
        match resp.write
        case Failed(e) => [Log(WriteFailed(rec.name, e))]
        case Done(_) => []
  }

  /** The records processed one after another, in configuration order. */
  function RecordsTrace(token: string, recs: seq<RecordTarget>, ip: string, resps: seq<Responses>): (t: seq<Action>)
    requires |resps| == |recs|
    ensures 2 * |recs| <= |t| <= 4 * |recs|
    decreases |recs|
  {
    if recs == [] then []
    else
      RecordsTrace(token, recs[..|recs| - 1], ip, resps[..|resps| - 1])
      + RecordTrace(token, recs[|recs| - 1], ip, resps[|resps| - 1])
  }

  /** The whole cycle: nothing but the failure when the public IP cannot be
      obtained, otherwise every record in turn. */
  function CycleTrace(cfg: Config, ip: Outcome<string>, resps: seq<Responses>): (t: seq<Action>)
    requires |resps| == |cfg.records|
    ensures ip.Failed? ==> |t| == 1 && t[0].Log?
    ensures ip.Done? ==> 2 * |cfg.records| <= |t| <= 4 * |cfg.records|
  {
    match ip
    case Failed(e) => [Log(IpUnavailable(e))]
    case Done(current) => RecordsTrace(cfg.token, cfg.records, current, resps)
  }

  /** One pass of `main`'s loop, up to the sleep. `resps[i]` holds the
      provider's answers for `cfg.records[i]`. */
  method RunCycle(cfg: Config, ip: Outcome<string>, resps: seq<Responses>) returns (trace: seq<Action>)
    requires |resps| == |cfg.records|
    ensures trace == CycleTrace(cfg, ip, resps)
  {
    if ip.Failed? {
      trace := [Log(IpUnavailable(ip.reason))];
      return;
    }
    var currentIp := ip.value;
    trace := [];
    for i := 0 to |cfg.records|
      invariant trace == RecordsTrace(cfg.token, cfg.records[..i], currentIp, resps[..i])
    {
      var record := cfg.records[i];
      assert cfg.records[..i + 1][..i] == cfg.records[..i] && resps[..i + 1][..i] == resps[..i];
      ghost var before := trace;
      trace := trace + [Read(ReadOf(cfg.token, record))];
      var read := resps[i].read;
      if read.Failed? {
        trace := trace + [Log(ReadFailed(record.name, read.reason))];
        assert trace == before + RecordTrace(cfg.token, record, currentIp, resps[i]);
        continue;
      }
      var dnsIp := read.value;
      if currentIp == dnsIp {
        trace := trace + [Log(Unchanged(record.name, currentIp))];
      } else {
        trace := trace + [Log(Updating(record.name, dnsIp, currentIp))];
        trace := trace + [Write(UpdatePayload(cfg.token, record, currentIp))];
        var write := resps[i].write;
        if write.Failed? {
          trace := trace + [Log(WriteFailed(record.name, write.reason))];
        }
      }
      assert trace == before + RecordTrace(cfg.token, record, currentIp, resps[i]);
    }
    assert cfg.records[..|cfg.records|] == cfg.records && resps[..|resps|] == resps;
  }

  // ---------------------------------------------------------------------
  // Views of a trace

  function ReadIn(x: Action): seq<ReadRequest>
  {
    if x.Read? then [x.read] else []
  }

  function WriteIn(x: Action): seq<WriteRequest>
  {
    if x.Write? then [x.write] else []
  }

  function EventIn(x: Action): seq<Event>
  {
    if x.Log? then [x.event] else []
  }

  /** The reads of a trace, in order. */
  function Reads(trace: seq<Action>): seq<ReadRequest>
  {
    if trace == [] then [] else ReadIn(trace[0]) + Reads(trace[1..])
  }

  /** The writes of a trace, in order. */
  function Writes(trace: seq<Action>): seq<WriteRequest>
  {
    if trace == [] then [] else WriteIn(trace[0]) + Writes(trace[1..])
  }

  /** The log events of a trace, in order. */
  function Events(trace: seq<Action>): seq<Event>
  {
    if trace == [] then [] else EventIn(trace[0]) + Events(trace[1..])
  }

  lemma {:induction false} ReadsDistribute(a: seq<Action>, b: seq<Action>)
    ensures Reads(a + b) == Reads(a) + Reads(b)
  {
    if a == [] {
      assert a + b == b;
    } else {
      calc {
        Reads(a + b);
        ReadIn((a + b)[0]) + Reads((a + b)[1..]);
        { assert (a + b)[0] == a[0] && (a + b)[1..] == a[1..] + b; }
        ReadIn(a[0]) + Reads(a[1..] + b);
        { ReadsDistribute(a[1..], b); }
        ReadIn(a[0]) + (Reads(a[1..]) + Reads(b));
        (ReadIn(a[0]) + Reads(a[1..])) + Reads(b);
      }
    }
  }

  lemma {:induction false} WritesDistribute(a: seq<Action>, b: seq<Action>)
    ensures Writes(a + b) == Writes(a) + Writes(b)
  {
    if a == [] {
      assert a + b == b;
    } else {
      calc {
        Writes(a + b);
        WriteIn((a + b)[0]) + Writes((a + b)[1..]);
        { assert (a + b)[0] == a[0] && (a + b)[1..] == a[1..] + b; }
        WriteIn(a[0]) + Writes(a[1..] + b);
        { WritesDistribute(a[1..], b); }
        WriteIn(a[0]) + (Writes(a[1..]) + Writes(b));
        (WriteIn(a[0]) + Writes(a[1..])) + Writes(b);
      }
    }
  }

  lemma {:induction false} EventsDistribute(a: seq<Action>, b: seq<Action>)
    ensures Events(a + b) == Events(a) + Events(b)
  {
    if a == [] {
      assert a + b == b;
    } else {
      calc {
        Events(a + b);
        EventIn((a + b)[0]) + Events((a + b)[1..]);
        { assert (a + b)[0] == a[0] && (a + b)[1..] == a[1..] + b; }
        EventIn(a[0]) + Events(a[1..] + b);
        { EventsDistribute(a[1..], b); }
        EventIn(a[0]) + (Events(a[1..]) + Events(b));
        (EventIn(a[0]) + Events(a[1..])) + Events(b);
      }
    }
  }

  lemma ViewsDistribute(a: seq<Action>, b: seq<Action>)
    ensures Reads(a + b) == Reads(a) + Reads(b)
    ensures Writes(a + b) == Writes(a) + Writes(b)
    ensures Events(a + b) == Events(a) + Events(b)
  {
    ReadsDistribute(a, b);
    WritesDistribute(a, b);
    EventsDistribute(a, b);
  }

  // ---------------------------------------------------------------------
  // One record

  /** Every record is read once; it is written once exactly when its read
      succeeded with content other than the public IP, and then with the
      full update payload; otherwise nothing is written. */
  lemma RecordActions(token: string, rec: RecordTarget, ip: string, resp: Responses)
    ensures Reads(RecordTrace(token, rec, ip, resp)) == [ReadOf(token, rec)]
    ensures Writes(RecordTrace(token, rec, ip, resp))
            == if NeedsUpdate(ip, resp.read) then [UpdatePayload(token, rec, ip)] else []
  {
    var t := RecordTrace(token, rec, ip, resp);
    ViewsDistribute([Read(ReadOf(token, rec))], t[1..]);
    assert t == [Read(ReadOf(token, rec))] + t[1..];
    if NeedsUpdate(ip, resp.read) {
      var tail := t[3..];
      assert t[1..] == [t[1]] + ([t[2]] + tail);
      ViewsDistribute([t[1]], [t[2]] + tail);
      ViewsDistribute([t[2]], tail);
    }
  }

  /** The log of one record: a read failure, or the comparison's verdict
      followed, for a failed overwrite, by the write failure. */
  lemma RecordEvents(token: string, rec: RecordTarget, ip: string, resp: Responses)
    ensures resp.read.Failed? ==>
              Events(RecordTrace(token, rec, ip, resp)) == [ReadFailed(rec.name, resp.read.reason)]
    ensures resp.read == Done(ip) ==>
              Events(RecordTrace(token, rec, ip, resp)) == [Unchanged(rec.name, ip)]
    ensures NeedsUpdate(ip, resp.read) ==>
              Events(RecordTrace(token, rec, ip, resp))
              == [Updating(rec.name, resp.read.value, ip)]
                 + (if resp.write.Failed? then [WriteFailed(rec.name, resp.write.reason)] else [])
  {
    var t := RecordTrace(token, rec, ip, resp);
    ViewsDistribute([Read(ReadOf(token, rec))], t[1..]);
    assert t == [Read(ReadOf(token, rec))] + t[1..];
    if NeedsUpdate(ip, resp.read) {
      var tail := t[3..];
      assert t[1..] == [t[1]] + ([t[2]] + tail);
      ViewsDistribute([t[1]], [t[2]] + tail);
      ViewsDistribute([t[2]], tail);
    }
  }

  // ---------------------------------------------------------------------
  // The whole cycle

  lemma {:induction false} RecordsTraceAppend(
    token: string, a: seq<RecordTarget>, b: seq<RecordTarget>, ip: string,
    ra: seq<Responses>, rb: seq<Responses>)
    requires |ra| == |a| && |rb| == |b|
    ensures RecordsTrace(token, a + b, ip, ra + rb)
            == RecordsTrace(token, a, ip, ra) + RecordsTrace(token, b, ip, rb)
    decreases |b|
  {
    if b == [] {
      assert a + b == a && ra + rb == ra;
    } else {
      var n := |b| - 1;
      var c, rc := a + b, ra + rb;
      var last := RecordTrace(token, b[n], ip, rb[n]);
      assert c[..|c| - 1] == a + b[..n] && rc[..|rc| - 1] == ra + rb[..n];
      assert c[|c| - 1] == b[n] && rc[|rc| - 1] == rb[n];
      calc {
        RecordsTrace(token, c, ip, rc);
        RecordsTrace(token, a + b[..n], ip, ra + rb[..n]) + last;
        { RecordsTraceAppend(token, a, b[..n], ip, ra, rb[..n]); }
        (RecordsTrace(token, a, ip, ra) + RecordsTrace(token, b[..n], ip, rb[..n])) + last;
        RecordsTrace(token, a, ip, ra) + (RecordsTrace(token, b[..n], ip, rb[..n]) + last);
        RecordsTrace(token, a, ip, ra) + RecordsTrace(token, b, ip, rb);
      }
    }
  }

  /** The trace is the trace of the records before `i`, then record `i`'s
      own, then the trace of the records after it: what happens to record
      `i` depends only on its own responses. */
  lemma DecomposeAt(token: string, recs: seq<RecordTarget>, ip: string, resps: seq<Responses>, i: nat)
    requires |resps| == |recs| && i < |recs|
    ensures RecordsTrace(token, recs, ip, resps)
            == RecordsTrace(token, recs[..i], ip, resps[..i])
               + RecordTrace(token, recs[i], ip, resps[i])
               + RecordsTrace(token, recs[i + 1..], ip, resps[i + 1..])
  {
    assert recs == recs[..i] + [recs[i]] + recs[i + 1..];
    assert resps == resps[..i] + [resps[i]] + resps[i + 1..];
    RecordsTraceAppend(token, recs[..i] + [recs[i]], recs[i + 1..], ip, resps[..i] + [resps[i]], resps[i + 1..]);
    RecordsTraceAppend(token, recs[..i], [recs[i]], ip, resps[..i], [resps[i]]);
    assert RecordsTrace(token, [recs[i]], ip, [resps[i]]) == RecordTrace(token, recs[i], ip, resps[i]);
  }

  /** Fault isolation: changing what the provider answers for record `i`
      (a failed read or write, say) changes only record `i`'s part of the
      trace; every other record is processed exactly as before. */
  lemma FaultIsolation(
    token: string, recs: seq<RecordTarget>, ip: string,
    resps: seq<Responses>, others: seq<Responses>, i: nat)
    requires |resps| == |recs| && |others| == |recs| && i < |recs|
    requires forall j :: 0 <= j < |recs| && j != i ==> others[j] == resps[j]
    ensures RecordsTrace(token, recs, ip, others)
            == RecordsTrace(token, recs[..i], ip, resps[..i])
               + RecordTrace(token, recs[i], ip, others[i])
               + RecordsTrace(token, recs[i + 1..], ip, resps[i + 1..])
  {
  }

  /** Every record is read, once each and in configuration order, whatever
      happens to the reads and writes of the others. */
  lemma {:induction false} EveryRecordRead(token: string, recs: seq<RecordTarget>, ip: string, resps: seq<Responses>)
    requires |resps| == |recs|
    ensures |Reads(RecordsTrace(token, recs, ip, resps))| == |recs|
    ensures forall i :: 0 <= i < |recs| ==>
              Reads(RecordsTrace(token, recs, ip, resps))[i] == ReadOf(token, recs[i])
    decreases |recs|
  {
    if recs != [] {
      var n := |recs| - 1;
      var front := RecordsTrace(token, recs[..n], ip, resps[..n]);
      var last := RecordTrace(token, recs[n], ip, resps[n]);
      EveryRecordRead(token, recs[..n], ip, resps[..n]);
      ReadsDistribute(front, last);
      RecordActions(token, recs[n], ip, resps[n]);
      var rs := Reads(RecordsTrace(token, recs, ip, resps));
      assert rs == Reads(front) + [ReadOf(token, recs[n])];
      forall i | 0 <= i < |recs| ensures rs[i] == ReadOf(token, recs[i]) {
        if i < n {
          assert rs[i] == Reads(front)[i] && recs[..n][i] == recs[i];
        }
      }
    }
  }

  /** The overwrites the cycle must issue: one per record that needs
      updating, in configuration order. */
  function ExpectedWrites(token: string, recs: seq<RecordTarget>, ip: string, resps: seq<Responses>): seq<WriteRequest>
    requires |resps| == |recs|
    decreases |recs|
  {
    if recs == [] then []
    else
      (if NeedsUpdate(ip, resps[0].read) then [UpdatePayload(token, recs[0], ip)] else [])
      + ExpectedWrites(token, recs[1..], ip, resps[1..])
  }

  lemma {:induction false} ExpectedWritesAppend(
    token: string, a: seq<RecordTarget>, b: seq<RecordTarget>, ip: string,
    ra: seq<Responses>, rb: seq<Responses>)
    requires |ra| == |a| && |rb| == |b|
    ensures ExpectedWrites(token, a + b, ip, ra + rb)
            == ExpectedWrites(token, a, ip, ra) + ExpectedWrites(token, b, ip, rb)
    decreases |a|
  {
    if a == [] {
      assert a + b == b && ra + rb == rb;
    } else {
      ExpectedWritesAppend(token, a[1..], b, ip, ra[1..], rb);
      assert (a + b)[1..] == a[1..] + b;
      assert (ra + rb)[1..] == ra[1..] + rb;
    }
  }

  /** The cycle writes exactly the expected overwrites: a record whose
      stored content equals the public IP, or whose read failed, is never
      written; the others are written once each; and write failures stop
      nothing. */
  lemma {:induction false} WritesAreExpected(token: string, recs: seq<RecordTarget>, ip: string, resps: seq<Responses>)
    requires |resps| == |recs|
    ensures Writes(RecordsTrace(token, recs, ip, resps)) == ExpectedWrites(token, recs, ip, resps)
    decreases |recs|
  {
    if recs != [] {
      var n := |recs| - 1;
      WritesAreExpected(token, recs[..n], ip, resps[..n]);
      var front := RecordsTrace(token, recs[..n], ip, resps[..n]);
      var last := RecordTrace(token, recs[n], ip, resps[n]);
      WritesDistribute(front, last);
      RecordActions(token, recs[n], ip, resps[n]);
      assert Writes(last) == ExpectedWrites(token, [recs[n]], ip, [resps[n]]);
      ExpectedWritesAppend(token, recs[..n], [recs[n]], ip, resps[..n], [resps[n]]);
      assert recs[..n] + [recs[n]] == recs && resps[..n] + [resps[n]] == resps;
    }
  }

  /** Every expected overwrite is the full update payload of a record that
      needs updating, and every such record has its payload among them. */
  lemma {:induction false} ExpectedWritesMembers(token: string, recs: seq<RecordTarget>, ip: string, resps: seq<Responses>)
    requires |resps| == |recs|
    ensures forall w :: w in ExpectedWrites(token, recs, ip, resps) ==>
              && w.token == token && w.recordType == "A" && w.content == ip
              && w.ttl == 120 && w.proxied
              && exists i :: 0 <= i < |recs| && NeedsUpdate(ip, resps[i].read)
                             && w.zoneId == recs[i].zoneId && w.recordId == recs[i].recordId
                             && w.name == recs[i].name
    ensures forall i :: 0 <= i < |recs| && NeedsUpdate(ip, resps[i].read) ==>
              UpdatePayload(token, recs[i], ip) in ExpectedWrites(token, recs, ip, resps)
    decreases |recs|
  {
    if recs != [] {
      ExpectedWritesMembers(token, recs[1..], ip, resps[1..]);
      var ws := ExpectedWrites(token, recs, ip, resps);
      var rest := ExpectedWrites(token, recs[1..], ip, resps[1..]);
      forall w | w in ws
        ensures exists i :: 0 <= i < |recs| && NeedsUpdate(ip, resps[i].read)
                            && w.zoneId == recs[i].zoneId && w.recordId == recs[i].recordId
                            && w.name == recs[i].name
      {
        if w !in rest {
          assert NeedsUpdate(ip, resps[0].read) && w == UpdatePayload(token, recs[0], ip);
        } else {
          var i :| 0 <= i < |recs[1..]| && NeedsUpdate(ip, resps[1..][i].read)
                   && w.zoneId == recs[1..][i].zoneId && w.recordId == recs[1..][i].recordId
                   && w.name == recs[1..][i].name;
          assert recs[1..][i] == recs[i + 1] && resps[1..][i] == resps[i + 1];
        }
      }
      forall i | 0 <= i < |recs| && NeedsUpdate(ip, resps[i].read)
        ensures UpdatePayload(token, recs[i], ip) in ws
      {
        if i > 0 {
          assert recs[1..][i - 1] == recs[i] && resps[1..][i - 1] == resps[i];
        }
      }
    }
  }

  /** When the public IP cannot be obtained the cycle reads nothing, writes
      nothing and logs only that failure. */
  lemma IpFailureSkipsRecords(cfg: Config, reason: string, resps: seq<Responses>)
    requires |resps| == |cfg.records|
    ensures Reads(CycleTrace(cfg, Failed(reason), resps)) == []
    ensures Writes(CycleTrace(cfg, Failed(reason), resps)) == []
    ensures Events(CycleTrace(cfg, Failed(reason), resps)) == [IpUnavailable(reason)]
  {
  }

  /** With the public IP in hand, the cycle reads every configured record in
      order and writes exactly the expected overwrites. */
  lemma CycleActions(cfg: Config, ip: string, resps: seq<Responses>)
    requires |resps| == |cfg.records|
    ensures |Reads(CycleTrace(cfg, Done(ip), resps))| == |cfg.records|
    ensures forall i :: 0 <= i < |cfg.records| ==>
              Reads(CycleTrace(cfg, Done(ip), resps))[i] == ReadOf(cfg.token, cfg.records[i])
    ensures Writes(CycleTrace(cfg, Done(ip), resps)) == ExpectedWrites(cfg.token, cfg.records, ip, resps)
  {
    EveryRecordRead(cfg.token, cfg.records, ip, resps);
    WritesAreExpected(cfg.token, cfg.records, ip, resps);
  }

  // ---------------------------------------------------------------------
  // End-to-end scenarios

  lemma SingleRecordTrace(token: string, rec: RecordTarget, ip: string, resps: seq<Responses>)
    requires |resps| == 1
    ensures RecordsTrace(token, [rec], ip, resps) == RecordTrace(token, rec, ip, resps[0])
  {
  }

  /** The provider already holds the public IP: the log says so and no
      write is issued. */
  lemma ScenarioUnchanged(token: string, rec: RecordTarget, write: Outcome<()>)
    ensures CycleTrace(Config(token, [rec], "300"), Done("1.2.3.4"), [Responses(Done("1.2.3.4"), write)])
            == [Read(ReadOf(token, rec)), Log(Unchanged(rec.name, "1.2.3.4"))]
  {
    var resps := [Responses(Done("1.2.3.4"), write)];
    SingleRecordTrace(token, rec, "1.2.3.4", resps);
  }

  /** The provider holds an old address: one write with the new one. */
  lemma ScenarioUpdated(token: string, rec: RecordTarget)
    ensures CycleTrace(Config(token, [rec], "300"), Done("5.6.7.8"), [Responses(Done("1.2.3.4"), Done(()))])
            == [Read(ReadOf(token, rec)), Log(Updating(rec.name, "1.2.3.4", "5.6.7.8")),
                Write(UpdatePayload(token, rec, "5.6.7.8"))]
  {
    var resps := [Responses(Done("1.2.3.4"), Done(()))];
    SingleRecordTrace(token, rec, "5.6.7.8", resps);
    assert "1.2.3.4" != "5.6.7.8";
  }

  /** The first record's read fails, the second is stale: the failure is
      logged and the second record is still updated, with one write. */
  lemma ScenarioReadFailureIsolated(token: string, first: RecordTarget, second: RecordTarget, write: Outcome<()>)
    ensures CycleTrace(Config(token, [first, second], "300"), Done("5.6.7.8"),
                       [Responses(Failed("timeout"), write), Responses(Done("1.2.3.4"), Done(()))])
            == [Read(ReadOf(token, first)), Log(ReadFailed(first.name, "timeout")),
                Read(ReadOf(token, second)), Log(Updating(second.name, "1.2.3.4", "5.6.7.8")),
                Write(UpdatePayload(token, second, "5.6.7.8"))]
  {
    var recs := [first, second];
    var resps := [Responses(Failed("timeout"), write), Responses(Done("1.2.3.4"), Done(()))];
    assert recs[..1] == [first] && resps[..1] == [resps[0]];
    SingleRecordTrace(token, first, "5.6.7.8", resps[..1]);
    assert "1.2.3.4" != "5.6.7.8";
    var t1 := RecordTrace(token, first, "5.6.7.8", resps[0]);
    var t2 := RecordTrace(token, second, "5.6.7.8", resps[1]);
    assert t1 == [Read(ReadOf(token, first)), Log(ReadFailed(first.name, "timeout"))];
    assert t2 == [Read(ReadOf(token, second)), Log(Updating(second.name, "1.2.3.4", "5.6.7.8")),
                  Write(UpdatePayload(token, second, "5.6.7.8"))];
    assert RecordsTrace(token, recs, "5.6.7.8", resps) == t1 + t2;
  }
}
