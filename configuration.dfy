/** Startup configuration of the updater (`get_env`): the bearer token, the
    indexed record descriptors `DNS_RECORD_0`, `DNS_RECORD_1`, ... and the
    polling interval, read from the process environment, which is modelled
    as a finite map from variable name to value. Where the program prints a
    diagnostic and exits with status 1, the model returns a ConfigError. */
module Configuration {
  import opened Text

  const TOKEN_VAR := "CF_API_TOKEN"
  const INTERVAL_VAR := "INTERVAL"
  const DEFAULT_INTERVAL := "300"
  const RECORD_PREFIX := "DNS_RECORD_"

  datatype Option<T> = None | Some(value: T)

  /** One DNS record to keep in sync. */
  datatype RecordTarget = RecordTarget(zoneId: string, recordId: string, name: string)

  /** The loaded configuration. `interval` is the text that the program
      hands to `int(...)`. */
  datatype Config = Config(token: string, records: seq<RecordTarget>, interval: string)

  /** The three fatal startup errors, in the order they are checked. */
  datatype ConfigError = MissingToken | InvalidRecord(index: nat) | NoRecords

  datatype Result<T, E> = Ok(value: T) | Err(error: E)

  function Lookup(env: map<string, string>, key: string): Option<string>
  {
    if key in env then Some(env[key]) else None
  }

  /** Python's truthiness test on `os.environ.get("CF_API_TOKEN")`. */
  predicate HasToken(env: map<string, string>)
    ensures HasToken(env) <==> Lookup(env, TOKEN_VAR).Some? && Lookup(env, TOKEN_VAR).value != ""
  {
    TOKEN_VAR in env && env[TOKEN_VAR] != ""
  }

  /** The environment variable holding the `i`-th record descriptor. */
  function RecordKey(i: nat): (k: string)
    ensures |k| > |RECORD_PREFIX| && k[..|RECORD_PREFIX|] == RECORD_PREFIX
  {
    RECORD_PREFIX + NatToString(i)
  }

  // ---------------------------------------------------------------------
  // Record descriptors

  /** A descriptor `zone_id:record_id:name` is split on every ':' and is
      accepted when it has exactly three parts, none of them empty. */
  function ParseDescriptor(val: string): (r: Option<RecordTarget>)
    ensures r.Some? ==> WellFormed(r.value)
  {
    var parts := Split(val, ':');
    JoinSplit(val, ':');
    if |parts| != 3 || parts[0] == "" || parts[1] == "" || parts[2] == "" then None
    else
      assert ':' !in parts[0] && ':' !in parts[1] && ':' !in parts[2];
      Some(RecordTarget(parts[0], parts[1], parts[2]))
  }

  /** The fields of a record a descriptor can describe: non-empty and free
      of the separator. */
  predicate WellFormed(r: RecordTarget)
  {
    && r.zoneId != "" && ':' !in r.zoneId
    && r.recordId != "" && ':' !in r.recordId
    && r.name != "" && ':' !in r.name
  }

  /** The descriptor text of a record. */
  function Format(r: RecordTarget): string
  {
    r.zoneId + ":" + r.recordId + ":" + r.name
  }

  lemma FormatIsJoin(r: RecordTarget)
    ensures Format(r) == Join([r.zoneId, r.recordId, r.name], ':')
  {
    var parts := [r.zoneId, r.recordId, r.name];
    assert parts[1..][1..] == [r.name];
    assert Join(parts[1..], ':') == r.recordId + [':'] + r.name;
  }

  /** A descriptor is accepted exactly when it is the text of a well-formed
      record, and then it yields that record. */
  lemma {:induction false} DescriptorRoundTrip(val: string, r: RecordTarget)
    ensures ParseDescriptor(val) == Some(r) <==> WellFormed(r) && Format(r) == val
  {
    FormatIsJoin(r);
    if WellFormed(r) && Format(r) == val {
      SplitJoin([r.zoneId, r.recordId, r.name], ':');
    }
    if ParseDescriptor(val) == Some(r) {
      JoinSplit(val, ':');
      assert Split(val, ':') == [r.zoneId, r.recordId, r.name];
    }
  }

  /** The malformed descriptors the format rules out: empty, too few
      parts, an empty part, too many parts. */
  lemma MalformedDescriptors()
    ensures ParseDescriptor("") == None
    ensures ParseDescriptor("a:b") == None
    ensures ParseDescriptor("a::c") == None
    ensures ParseDescriptor("a:b:c:d") == None
  {
  }

  // ---------------------------------------------------------------------
  // Enumeration of DNS_RECORD_<i>

  lemma RecordKeyInjective(i: nat, j: nat)
    requires RecordKey(i) == RecordKey(j)
    ensures i == j
  {
    assert RecordKey(i)[|RECORD_PREFIX|..] == NatToString(i);
    assert RecordKey(j)[|RECORD_PREFIX|..] == NatToString(j);
    NatToStringInjective(i, j);
  }

  lemma {:induction false} RecordKeySetSize(n: nat)
    ensures |set j | 0 <= j < n :: RecordKey(j)| == n
  {
    if n > 0 {
      RecordKeySetSize(n - 1);
      var before := set j | 0 <= j < n - 1 :: RecordKey(j);
      var all := set j | 0 <= j < n :: RecordKey(j);
      forall j | 0 <= j < n - 1 ensures RecordKey(j) != RecordKey(n - 1) {
        if RecordKey(j) == RecordKey(n - 1) { RecordKeyInjective(j, n - 1); }
      }
      assert all == before + {RecordKey(n - 1)};
    }
  }

  lemma {:induction false} SubsetSize<T>(a: set<T>, b: set<T>)
    requires a <= b
    ensures |a| <= |b|
  {
    if a != {} {
      var x :| x in a;
      SubsetSize(a - {x}, b - {x});
    }
  }

  /** An environment holding `DNS_RECORD_0` .. `DNS_RECORD_<n-1>` has at
      least `n` variables, so the enumeration stops. */
  lemma KeysBound(env: map<string, string>, n: nat)
    requires forall j :: 0 <= j < n ==> RecordKey(j) in env
    ensures n <= |env|
  {
    var keys := set j | 0 <= j < n :: RecordKey(j);
    RecordKeySetSize(n);
    SubsetSize(keys, env.Keys);
  }

  /** `k` is the first index whose descriptor variable is absent. */
  predicate IsFirstGap(env: map<string, string>, k: nat)
  {
    RecordKey(k) !in env && forall j :: 0 <= j < k ==> RecordKey(j) in env
  }

  function GapFrom(env: map<string, string>, i: nat): (k: nat)
    requires forall j :: 0 <= j < i ==> RecordKey(j) in env
    ensures i <= k && IsFirstGap(env, k)
    decreases |env| - i
  {
    if RecordKey(i) !in env then i
    else
      KeysBound(env, i + 1);
      GapFrom(env, i + 1)
  }

  /** The first absent index: the number of descriptors enumerated. */
  function FirstGap(env: map<string, string>): (k: nat)
    ensures IsFirstGap(env, k)
  {
    GapFrom(env, 0)
  }

  /** Indices whose variables are all present lie before the first gap. */
  lemma PresentBeforeGap(env: map<string, string>, n: nat)
    requires forall j :: 0 <= j < n ==> RecordKey(j) in env
    ensures n <= FirstGap(env)
  {
  }

  /** An absent index bounds the first gap. */
  lemma AbsentBoundsGap(env: map<string, string>, n: nat)
    requires RecordKey(n) !in env
    ensures FirstGap(env) <= n
  {
  }

  lemma RecordKeysDistinct(i: nat, j: nat)
    requires i != j
    ensures RecordKey(i) != RecordKey(j)
  {
    if RecordKey(i) == RecordKey(j) {
      RecordKeyInjective(i, j);
    }
  }

  /** Index `j` holds a descriptor that parses. */
  predicate Accepted(env: map<string, string>, j: nat)
  {
    RecordKey(j) in env && ParseDescriptor(env[RecordKey(j)]).Some?
  }

  /** The records of indices `i` and up to the first gap, or the error for
      the first malformed one. */
  function CollectRecords(env: map<string, string>, i: nat): (r: Result<seq<RecordTarget>, ConfigError>)
    requires forall j :: 0 <= j < i ==> RecordKey(j) in env
    ensures r.Ok? ==> forall k :: 0 <= k < |r.value| ==> WellFormed(r.value[k])
    ensures r.Ok? ==> (r.value != [] <==> RecordKey(i) in env)
    ensures r.Err? ==> r.error.InvalidRecord? && r.error.index >= i && RecordKey(r.error.index) in env
    decreases |env| - i
  {
    if RecordKey(i) !in env then Ok([])
    else
      match ParseDescriptor(env[RecordKey(i)])
      case None => Err(InvalidRecord(i))
      case Some(rec) =>
        KeysBound(env, i + 1);
        Prepend([rec], CollectRecords(env, i + 1))
  }

  function Prepend(front: seq<RecordTarget>, r: Result<seq<RecordTarget>, ConfigError>): Result<seq<RecordTarget>, ConfigError>
  {
    match r
    case Ok(rest) => Ok(front + rest)
    case Err(e) => Err(e)
  }

  lemma PrependLaws(a: seq<RecordTarget>, b: seq<RecordTarget>, r: Result<seq<RecordTarget>, ConfigError>)
    ensures Prepend([], r) == r
    ensures Prepend(a, Prepend(b, r)) == Prepend(a + b, r)
  {
    if r.Ok? {
      assert [] + r.value == r.value;
      assert a + (b + r.value) == (a + b) + r.value;
    }
  }

  /** What `get_env` returns, or the fatal error it exits with. */
  function LoadConfig(env: map<string, string>): (r: Result<Config, ConfigError>)
    ensures r.Ok? ==> TOKEN_VAR in env && r.value.token == env[TOKEN_VAR] && r.value.token != ""
    ensures r.Ok? ==> r.value.records != [] && forall k :: 0 <= k < |r.value.records| ==> WellFormed(r.value.records[k])
    ensures r.Ok? ==> RecordKey(0) in env
  {
    if !HasToken(env) then Err(MissingToken)
    else
      match CollectRecords(env, 0)
      case Err(e) => Err(e)
      case Ok(records) =>
        if records == [] then Err(NoRecords)
        else Ok(Config(env[TOKEN_VAR], records,
                       if INTERVAL_VAR in env then env[INTERVAL_VAR] else DEFAULT_INTERVAL))
  }

  /** `get_env`: check the token, enumerate the descriptors until the first
      absent index, reject an empty list, read the interval. */
  method GetEnv(env: map<string, string>) returns (r: Result<Config, ConfigError>)
    ensures r == LoadConfig(env)
  {
    if TOKEN_VAR !in env || env[TOKEN_VAR] == "" {
      return Err(MissingToken);
    }
    var token := env[TOKEN_VAR];
    var records: seq<RecordTarget> := [];
    var i: nat := 0;
    PrependLaws([], [], CollectRecords(env, 0));
    while true
      invariant forall j :: 0 <= j < i ==> RecordKey(j) in env
      invariant i <= |env|
      invariant CollectRecords(env, 0) == Prepend(records, CollectRecords(env, i))
      decreases |env| - i
    {
      var key := RecordKey(i);
      if key !in env {
        break;
      }
      var parsed := ParseDescriptor(env[key]);
      if parsed.None? {
        return Err(InvalidRecord(i));
      }
      KeysBound(env, i + 1);
      PrependLaws(records, [parsed.value], CollectRecords(env, i + 1));
      records := records + [parsed.value];
      i := i + 1;
    }
    assert records + [] == records;
    if records == [] {
      return Err(NoRecords);
    }
    var interval := if INTERVAL_VAR in env then env[INTERVAL_VAR] else DEFAULT_INTERVAL;
    return Ok(Config(token, records, interval));
  }

  // ---------------------------------------------------------------------
  // What loading guarantees

  /** From index `i` on, collection succeeds exactly when every index up to
      the first gap is accepted. */
  lemma {:induction false} CollectSucceedsIff(env: map<string, string>, i: nat)
    requires forall j :: 0 <= j < i ==> RecordKey(j) in env
    ensures i <= FirstGap(env)
    ensures CollectRecords(env, i).Ok?
            <==> forall j :: i <= j < FirstGap(env) ==> Accepted(env, j)
    decreases |env| - i
  {
    PresentBeforeGap(env, i);
    if RecordKey(i) in env {
      KeysBound(env, i + 1);
      CollectSucceedsIff(env, i + 1);
      if ParseDescriptor(env[RecordKey(i)]).Some? {
        assert Accepted(env, i);
      } else {
        assert !Accepted(env, i);
      }
    } else {
      AbsentBoundsGap(env, i);
    }
  }

  /** A successful collection from index `i` holds the records of indices
      `i` .. FirstGap - 1, in index order. */
  lemma {:induction false} CollectedRecords(env: map<string, string>, i: nat)
    requires forall j :: 0 <= j < i ==> RecordKey(j) in env
    requires CollectRecords(env, i).Ok?
    ensures i <= FirstGap(env)
    ensures var recs := CollectRecords(env, i).value;
            && |recs| == FirstGap(env) - i
            && forall m :: 0 <= m < |recs| ==>
                 ParseDescriptor(env[RecordKey(i + m)]) == Some(recs[m])
    decreases |env| - i
  {
    PresentBeforeGap(env, i);
    if RecordKey(i) in env {
      KeysBound(env, i + 1);
      var rec := ParseDescriptor(env[RecordKey(i)]).value;
      var rest := CollectRecords(env, i + 1);
      assert CollectRecords(env, i) == Prepend([rec], rest);
      CollectedRecords(env, i + 1);
      var recs := CollectRecords(env, i).value;
      assert recs == [rec] + rest.value;
      forall m | 0 <= m < |recs|
        ensures ParseDescriptor(env[RecordKey(i + m)]) == Some(recs[m])
      {
        if m > 0 {
          assert recs[m] == rest.value[m - 1];
          assert i + m == (i + 1) + (m - 1);
        }
      }
    } else {
      AbsentBoundsGap(env, i);
    }
  }

  /** A failed collection from index `i` names the first index from `i` on
      whose descriptor is not accepted, and that index precedes the gap. */
  lemma {:induction false} CollectFailure(env: map<string, string>, i: nat)
    requires forall j :: 0 <= j < i ==> RecordKey(j) in env
    requires CollectRecords(env, i).Err?
    ensures var e := CollectRecords(env, i).error;
            && e.InvalidRecord?
            && i <= e.index < FirstGap(env)
            && !Accepted(env, e.index)
            && forall j :: i <= j < e.index ==> Accepted(env, j)
    decreases |env| - i
  {
    PresentBeforeGap(env, i);
    KeysBound(env, i + 1);
    match ParseDescriptor(env[RecordKey(i)])
    case None =>
      PresentBeforeGap(env, i + 1);
      assert !Accepted(env, i);
    case Some(rec) =>
      var rest := CollectRecords(env, i + 1);
      assert CollectRecords(env, i) == Prepend([rec], rest);
      CollectFailure(env, i + 1);
      assert Accepted(env, i);
  }

  /** From index `i` on, collection succeeds exactly when every index up to
      the first gap is accepted, and then yields those records in index
      order; otherwise it fails at the first index that is not accepted. */
  lemma CollectRecordsSpec(env: map<string, string>, i: nat)
    requires forall j :: 0 <= j < i ==> RecordKey(j) in env
    ensures i <= FirstGap(env)
    ensures CollectRecords(env, i).Ok?
            <==> forall j :: i <= j < FirstGap(env) ==> Accepted(env, j)
    ensures CollectRecords(env, i).Ok? ==>
              var recs := CollectRecords(env, i).value;
              && |recs| == FirstGap(env) - i
              && forall m :: 0 <= m < |recs| ==>
                   ParseDescriptor(env[RecordKey(i + m)]) == Some(recs[m])
    ensures CollectRecords(env, i).Err? ==>
              var e := CollectRecords(env, i).error;
              && e.InvalidRecord?
              && i <= e.index < FirstGap(env)
              && !Accepted(env, e.index)
              && forall j :: i <= j < e.index ==> Accepted(env, j)
  {
    CollectSucceedsIff(env, i);
    if CollectRecords(env, i).Ok? {
      CollectedRecords(env, i);
    } else {
      CollectFailure(env, i);
    }
  }

  /** The declarative contract of loading: the token is checked first,
      then every descriptor before the first absent index must be
      accepted, then at least one must exist; a successful load holds the
      token, the records of indices 0 .. FirstGap - 1 in index order, and
      the interval text (300 by default). */
  lemma LoadConfigSpec(env: map<string, string>)
    ensures !HasToken(env) <==> LoadConfig(env) == Err(MissingToken)
    ensures LoadConfig(env) == Err(NoRecords) <==> HasToken(env) && FirstGap(env) == 0
    ensures LoadConfig(env).Ok?
            <==> HasToken(env) && FirstGap(env) > 0
                 && forall j :: 0 <= j < FirstGap(env) ==> Accepted(env, j)
    ensures LoadConfig(env).Err? && LoadConfig(env).error.InvalidRecord? ==>
              var bad := LoadConfig(env).error.index;
              && HasToken(env)
              && bad < FirstGap(env)
              && !Accepted(env, bad)
              && forall j :: 0 <= j < bad ==> Accepted(env, j)
    ensures LoadConfig(env).Ok? ==>
              var cfg := LoadConfig(env).value;
              && cfg.token == env[TOKEN_VAR]
              && |cfg.records| == FirstGap(env) >= 1
              && (forall j :: 0 <= j < |cfg.records| ==>
                    ParseDescriptor(env[RecordKey(j)]) == Some(cfg.records[j]))
              && cfg.interval == (if INTERVAL_VAR in env then env[INTERVAL_VAR] else DEFAULT_INTERVAL)
  {
    CollectRecordsSpec(env, 0);
    if HasToken(env) && CollectRecords(env, 0).Ok? {
      var recs := CollectRecords(env, 0).value;
      forall j | 0 <= j < |recs|
        ensures ParseDescriptor(env[RecordKey(j)]) == Some(recs[j])
      {
        assert 0 + j == j;
      }
    }
  }

  /** A present but empty descriptor is not a gap: it is a format error. */
  lemma EmptyDescriptorIsError(env: map<string, string>, i: nat)
    requires HasToken(env)
    requires forall j :: 0 <= j < i ==> Accepted(env, j)
    requires RecordKey(i) in env && env[RecordKey(i)] == ""
    ensures LoadConfig(env) == Err(InvalidRecord(i))
  {
    assert Split("", ':') == [""];
    LoadConfigSpec(env);
    forall j | 0 <= j < i + 1 ensures RecordKey(j) in env {
      if j < i { assert Accepted(env, j); }
    }
    PresentBeforeGap(env, i + 1);
    assert !Accepted(env, i);
    var e := LoadConfig(env).error;
    assert e.InvalidRecord?;
    assert Accepted(env, e.index) || e.index >= i;
  }

  /** Variables beyond the first gap are never looked at: two environments
      that agree on the token, the interval and the descriptor variables up
      to and including the first gap load to the same result. */
  lemma LaterIndicesIgnored(env: map<string, string>, other: map<string, string>)
    requires Lookup(env, TOKEN_VAR) == Lookup(other, TOKEN_VAR)
    requires Lookup(env, INTERVAL_VAR) == Lookup(other, INTERVAL_VAR)
    requires forall j :: 0 <= j <= FirstGap(env) ==> Lookup(env, RecordKey(j)) == Lookup(other, RecordKey(j))
    ensures LoadConfig(env) == LoadConfig(other)
  {
    CollectAgrees(env, other, 0);
  }

  lemma {:induction false} CollectAgrees(env: map<string, string>, other: map<string, string>, i: nat)
    requires forall j :: 0 <= j < i ==> RecordKey(j) in env
    requires forall j :: 0 <= j <= FirstGap(env) ==> Lookup(env, RecordKey(j)) == Lookup(other, RecordKey(j))
    ensures forall j :: 0 <= j < i ==> RecordKey(j) in other
    ensures CollectRecords(env, i) == CollectRecords(other, i)
    decreases |env| - i
  {
    PresentBeforeGap(env, i);
    forall j | 0 <= j < i ensures RecordKey(j) in other {
      assert Lookup(env, RecordKey(j)) == Lookup(other, RecordKey(j));
    }
    if RecordKey(i) in env {
      assert Lookup(env, RecordKey(i)) == Lookup(other, RecordKey(i));
      KeysBound(env, i + 1);
      CollectAgrees(env, other, i + 1);
    } else {
      assert Lookup(env, RecordKey(i)) == Lookup(other, RecordKey(i));
    }
  }

  /** Index 0 valid, index 1 absent, index 2 anything (malformed, say):
      loading succeeds with the one record, because index 2 is never
      examined. */
  lemma GapStopsEnumeration(token: string, first: string, third: string)
    requires token != "" && ParseDescriptor(first).Some?
    ensures LoadConfig(map[TOKEN_VAR := token, RecordKey(0) := first, RecordKey(2) := third])
            == Ok(Config(token, [ParseDescriptor(first).value], DEFAULT_INTERVAL))
  {
    var env := map[TOKEN_VAR := token, RecordKey(0) := first, RecordKey(2) := third];
    RecordKeysDistinct(1, 0);
    RecordKeysDistinct(1, 2);
    assert RecordKey(1)[0] == 'D';
    assert RecordKey(1) !in env;
    assert |RecordKey(0)| > |INTERVAL_VAR| && |RecordKey(2)| > |INTERVAL_VAR|;
    assert INTERVAL_VAR !in env;
    PresentBeforeGap(env, 1);
    AbsentBoundsGap(env, 1);
    LoadConfigSpec(env);
    var recs := LoadConfig(env).value.records;
    assert ParseDescriptor(env[RecordKey(0)]) == Some(recs[0]);
    assert recs == [recs[0]];
  }

  /** Without `DNS_RECORD_0` there are no records, which is fatal. */
  lemma MissingFirstRecord(env: map<string, string>)
    requires HasToken(env) && RecordKey(0) !in env
    ensures LoadConfig(env) == Err(NoRecords)
  {
  }
}
