/**
 * The metrics controller: the beacon endpoint (`Post`, GET /metrics/post)
 * and the crash-trace endpoint (`PostException`, POST /metrics/post-exception).
 *
 * The time-series store and the relational store are recorded as the
 * sequences of writes and rows they receive. The clock is passed in.
 */
module Metrics {
  import opened Wrappers
  import opened Http
  import opened StatPoints
  import opened ValidationCache

  /** Every write goes here in the Development environment. */
  const DevelopmentBucket: string := "test-bucket"
  /** A channel name, lower-cased, must start with this. */
  const ChannelSentinel: char := 'z'
  /** One day, in seconds: how long a channel-existence answer is kept. */
  const ExistenceTtl: nat := 86400
  /** Thirty minutes, in seconds: how long a channel-visibility answer is kept. */
  const VisibilityTtl: nat := 1800
  /** 1024 * 50 UTF-16 code units: a trace this long or longer is refused. */
  const MaxTraceLength: nat := 51200

  function ValidKey(channel: string): string { "channel-" + channel + "-valid" }

  function PublicKey(channel: string): string { "channel-" + channel + "-public" }

  /** The client-settings service both outbound checks go to. */
  const ClientSettings: string := "https://clientsettings.roblox.com"

  /** The bootstrapper's settings for a channel: a success status means the channel exists. */
  function ValidUrl(channel: string): string {
    ClientSettings + "/v2/settings/application/" + "PCClientBootstrapper/bucket/" + channel
  }

  /** The player's version on a channel: a success status means the channel is public. */
  function PublicUrl(channel: string): string {
    ClientSettings + "/v2/client-version/" + "WindowsPlayer/channel/" + channel
  }

  /** `string.IsNullOrEmpty`. */
  predicate IsNullOrEmpty(s: Option<string>) {
    s.None? || s.value == ""
  }

  function LowerChar(c: char): char {
    if 'A' <= c <= 'Z' then (c as int + 32) as char else c
  }

  /** `ToLowerInvariant`, on the ASCII letters. */
  function ToLowerInvariant(s: string): (r: string)
    ensures |r| == |s|
    ensures forall n :: 0 <= n < |s| ==> r[n] == LowerChar(s[n])
  {
    if s == [] then [] else [LowerChar(s[0])] + ToLowerInvariant(s[1..])
  }

  /** The sentinel test is case-insensitive on the original value: "Zbeta" passes as well as "zbeta". */
  lemma SentinelIgnoresCase(value: string)
    requires value != ""
    ensures ToLowerInvariant(value)[0] == ChannelSentinel <==> value[0] == 'z' || value[0] == 'Z'
  {
  }

  // ---------------------------------------------------------------------
  // The beacon path
  // ---------------------------------------------------------------------

  /** A beacon that passed the checks that need no outbound call: its definition and the field to write. */
  datatype Screened = Screened(statPoint: StatPoint, field: string)

  /**
   * The checks before any outbound call, in the order the controller makes
   * them: null or empty key or value, unknown key, a value outside a closed
   * list, and for the channel metric the lower-cased value's first character.
   */
  function Screen(key: Option<string>, value: Option<string>): (r: Option<Screened>)
    ensures r.Some? ==> key.Some? && value.Some? && r.value.statPoint.name == key.value
  {
    if IsNullOrEmpty(key) || IsNullOrEmpty(value) then None
    else
      match Find(Registry, key.value)
      case None => None
      case Some(sp) =>
        if !Admits(sp, value.value) then None
        else if sp.name != RobloxChannel then Some(Screened(sp, value.value))
        else
          var v := ToLowerInvariant(value.value);
          if v[0] != ChannelSentinel then None else Some(Screened(sp, v))
  }

  /** What Screen admits, metric by metric. */
  lemma ScreenByKey(key: Option<string>, value: Option<string>)
    ensures Screen(key, value) ==
      if IsNullOrEmpty(key) || IsNullOrEmpty(value) then None
      else if key.value == InstallAction then
        if value.value in ["install", "upgrade", "uninstall"] then Some(Screened(Registry[0], value.value)) else None
      else if key.value == RobloxChannel then
        if ToLowerInvariant(value.value)[0] == ChannelSentinel
        then Some(Screened(Registry[1], ToLowerInvariant(value.value))) else None
      else None
  {
    if !IsNullOrEmpty(key) && !IsNullOrEmpty(value) {
      FindInRegistry(key.value);
    }
  }

  /** The buckets written to: the primary one, the public one for a public channel, or only the test bucket in Development. */
  function Destinations(sp: StatPoint, publicChannel: bool, isDevelopment: bool): (d: seq<string>)
    ensures 1 <= |d| <= 2 && (|d| == 2 <==> !isDevelopment && publicChannel)
    ensures isDevelopment ==> d == [DevelopmentBucket]
    ensures !isDevelopment ==> d[0] == sp.bucket && (publicChannel ==> d[1] == sp.bucketPublic)
  {
    if isDevelopment then [DevelopmentBucket]
    else [sp.bucket] + if publicChannel then [sp.bucketPublic] else []
  }

  /** A time-series point: measurement = metric name, one field with value 1, the `version` tag, a timestamp. */
  datatype Point = Point(measurement: string, field: string, fieldValue: int, version: string, timestamp: nat)

  datatype Write = Write(bucket: string, point: Point)

  /** The same point written to each bucket in turn. */
  function WritesOf(buckets: seq<string>, point: Point): (w: seq<Write>)
    ensures |w| == |buckets|
    ensures forall n :: 0 <= n < |buckets| ==> w[n] == Write(buckets[n], point)
  {
    if buckets == [] then []
    else WritesOf(buckets[..|buckets| - 1], point) + [Write(buckets[|buckets| - 1], point)]
  }

  /** The field a beacon writes: the value, lower-cased for the channel metric. */
  function FieldFor(key: string, value: string): (f: string)
    ensures |f| == |value|
    ensures key != RobloxChannel ==> f == value
    ensures key == RobloxChannel ==> forall n :: 0 <= n < |f| ==> f[n] == LowerChar(value[n])
    ensures key == RobloxChannel ==> forall n :: 0 <= n < |f| ==> !('A' <= f[n] <= 'Z')
  {
    if key == RobloxChannel then ToLowerInvariant(value) else value
  }

  /** The two outbound checks on a channel: whether it exists, and whether it is public. */
  datatype ChannelStatus = ChannelStatus(present: bool, isPublic: bool, entries: map<string, Entry>, fetched: seq<string>)

  /**
   * The existence check and, only for a channel that exists, the visibility
   * check, each through the cache. A channel is public only if it exists,
   * and a nonexistent one costs at most the one existence GET.
   */
  function CheckChannel(channel: string, entries: map<string, Entry>, now: nat, get: string -> bool): (r: ChannelStatus)
    ensures r.isPublic ==> r.present
    ensures |r.fetched| <= if r.present then 2 else 1
    ensures forall u :: u in r.fetched ==> u == ValidUrl(channel) || u == PublicUrl(channel)
  {
    var valid := Consult(entries, ValidKey(channel), ValidUrl(channel), ExistenceTtl, now, get);
    if !valid.result then ChannelStatus(false, false, valid.entries, valid.fetched)
    else
      var visible := Consult(valid.entries, PublicKey(channel), PublicUrl(channel), VisibilityTtl, now, get);
      ChannelStatus(true, visible.result, visible.entries, valid.fetched + visible.fetched)
  }

  /** With both answers cached and live, the checks repeat them and call nothing. */
  lemma CachedChannelMakesNoCall(channel: string, entries: map<string, Entry>, now: nat, get: string -> bool)
    requires IsLive(entries, ValidKey(channel), now)
    requires entries[ValidKey(channel)].ok ==> IsLive(entries, PublicKey(channel), now)
    ensures var r := CheckChannel(channel, entries, now, get);
      && r.fetched == [] && r.entries == entries
      && r.present == entries[ValidKey(channel)].ok
      && r.isPublic == (r.present && entries[PublicKey(channel)].ok)
  {
  }

  /** With nothing cached, the checks ask the remote, once each, and remember both answers. */
  lemma ColdChannelAsksRemote(channel: string, now: nat, get: string -> bool)
    ensures var r := CheckChannel(channel, map[], now, get);
      && r.present == get(ValidUrl(channel))
      && r.isPublic == (r.present && get(PublicUrl(channel)))
      && r.fetched == (if r.present then [ValidUrl(channel), PublicUrl(channel)] else [ValidUrl(channel)])
      && ValidKey(channel) in r.entries && r.entries[ValidKey(channel)] == Entry(r.present, now + ExistenceTtl)
      && (r.present ==> PublicKey(channel) in r.entries && r.entries[PublicKey(channel)] == Entry(r.isPublic, now + VisibilityTtl))
      && (!r.present ==> PublicKey(channel) !in r.entries)
  {
  }

  /** Everything one beacon request does: its status, the writes, the cache afterwards, the GETs issued. */
  datatype Outcome = Outcome(status: Status, writes: seq<Write>, entries: map<string, Entry>, fetched: seq<string>)

  /** The outcome of `Post` against a cache holding entries, at time now, with the remote answering get. */
  function PostOutcome(key: Option<string>, value: Option<string>, clientVersion: string, isDevelopment: bool,
                       entries: map<string, Entry>, now: nat, get: string -> bool): (o: Outcome)
    ensures o.status == Ok || o.status == BadRequest
    ensures o.status == BadRequest ==> o.writes == []
    ensures Screen(key, value).None? ==> o == Outcome(BadRequest, [], entries, [])
  {
    match Screen(key, value)
    case None => Outcome(BadRequest, [], entries, [])
    case Some(sc) =>
      var point := Point(key.value, sc.field, 1, clientVersion, now);
      if sc.statPoint.name != RobloxChannel then
        Outcome(Ok, WritesOf(Destinations(sc.statPoint, false, isDevelopment), point), entries, [])
      else
        var c := CheckChannel(sc.field, entries, now, get);
        if !c.present then Outcome(BadRequest, [], c.entries, c.fetched)
        else Outcome(Ok, WritesOf(Destinations(sc.statPoint, c.isPublic, isDevelopment), point), c.entries, c.fetched)
  }

  /** A null or empty key or value is refused before the cache or the stores are touched. */
  lemma EmptyInputRejected(key: Option<string>, value: Option<string>, clientVersion: string, isDevelopment: bool,
                           entries: map<string, Entry>, now: nat, get: string -> bool)
    requires IsNullOrEmpty(key) || IsNullOrEmpty(value)
    ensures PostOutcome(key, value, clientVersion, isDevelopment, entries, now, get) == Outcome(BadRequest, [], entries, [])
  {
  }

  /** A key the registry does not know is refused, whatever the value, before any outbound call. */
  lemma UnknownKeyRejected(key: string, value: Option<string>, clientVersion: string, isDevelopment: bool,
                           entries: map<string, Entry>, now: nat, get: string -> bool)
    requires key != InstallAction && key != RobloxChannel
    ensures PostOutcome(Some(key), value, clientVersion, isDevelopment, entries, now, get) == Outcome(BadRequest, [], entries, [])
  {
    UnknownKeys(key);
  }

  /**
   * installAction is accepted exactly for install, upgrade and uninstall
   * (case-sensitive), never calls out, and writes the value once, to
   * bloxstrap-90d (test-bucket in Development).
   */
  lemma InstallActionOutcome(value: string, clientVersion: string, isDevelopment: bool,
                             entries: map<string, Entry>, now: nat, get: string -> bool)
    ensures var o := PostOutcome(Some(InstallAction), Some(value), clientVersion, isDevelopment, entries, now, get);
      && (o.status == Ok <==> value == "install" || value == "upgrade" || value == "uninstall")
      && o.status in {Ok, BadRequest}
      && o.fetched == [] && o.entries == entries
      && (o.status == Ok ==>
            o.writes == [Write(if isDevelopment then DevelopmentBucket else "bloxstrap-90d",
                               Point(InstallAction, value, 1, clientVersion, now))])
      && (o.status != Ok ==> o.writes == [])
  {
    InstallActionSchema(value);
  }

  /** A channel whose first character is neither 'z' nor 'Z' is refused with no outbound call. */
  lemma ChannelWithoutSentinelRejected(value: string, clientVersion: string, isDevelopment: bool,
                                       entries: map<string, Entry>, now: nat, get: string -> bool)
    requires value != "" && value[0] != 'z' && value[0] != 'Z'
    ensures PostOutcome(Some(RobloxChannel), Some(value), clientVersion, isDevelopment, entries, now, get)
      == Outcome(BadRequest, [], entries, [])
  {
    RobloxChannelSchema(value);
    SentinelIgnoresCase(value);
  }

  /** A channel value that passes the sentinel test is screened in, lower-cased, under the channel metric. */
  lemma ChannelScreened(value: string)
    requires value != "" && (value[0] == 'z' || value[0] == 'Z')
    ensures Screen(Some(RobloxChannel), Some(value)) == Some(Screened(Registry[1], ToLowerInvariant(value)))
  {
    ScreenByKey(Some(RobloxChannel), Some(value));
    SentinelIgnoresCase(value);
  }

  /**
   * A channel that passes the sentinel test goes through the two outbound
   * checks; it is refused if it does not exist and otherwise written to the
   * channel metric's destinations, the public bucket included when it is public.
   */
  lemma ChannelOutcome(value: string, clientVersion: string, isDevelopment: bool,
                       entries: map<string, Entry>, now: nat, get: string -> bool)
    requires value != "" && (value[0] == 'z' || value[0] == 'Z')
    ensures var v := ToLowerInvariant(value);
      var c := CheckChannel(v, entries, now, get);
      var o := PostOutcome(Some(RobloxChannel), Some(value), clientVersion, isDevelopment, entries, now, get);
      && o.entries == c.entries && o.fetched == c.fetched
      && (o.status == Ok <==> c.present)
      && o.status in {Ok, BadRequest}
      && o.writes == if c.present
                     then WritesOf(Destinations(Registry[1], c.isPublic, isDevelopment), Point(RobloxChannel, v, 1, clientVersion, now))
                     else []
  {
    var v := ToLowerInvariant(value);
    var c := CheckChannel(v, entries, now, get);
    var point := Point(RobloxChannel, v, 1, clientVersion, now);
    ChannelScreened(value);
    assert Registry[1].name == RobloxChannel;
    assert PostOutcome(Some(RobloxChannel), Some(value), clientVersion, isDevelopment, entries, now, get)
      == if c.present then Outcome(Ok, WritesOf(Destinations(Registry[1], c.isPublic, isDevelopment), point), c.entries, c.fetched)
         else Outcome(BadRequest, [], c.entries, c.fetched);
  }

  /**
   * A channel the existence check calls nonexistent is refused, nothing is
   * written, and the visibility check is never consulted: at most the one
   * existence GET is made.
   */
  lemma NonexistentChannelRejected(value: string, clientVersion: string, isDevelopment: bool,
                                   entries: map<string, Entry>, now: nat, get: string -> bool)
    requires value != "" && (value[0] == 'z' || value[0] == 'Z')
    requires !CheckChannel(ToLowerInvariant(value), entries, now, get).present
    ensures var v := ToLowerInvariant(value);
      var o := PostOutcome(Some(RobloxChannel), Some(value), clientVersion, isDevelopment, entries, now, get);
      && o.status == BadRequest && o.writes == []
      && o.fetched in {[], [ValidUrl(v)]}
      && forall k :: k != ValidKey(v) ==> (k in o.entries <==> k in entries) && (k in entries ==> o.entries[k] == entries[k])
  {
    ChannelOutcome(value, clientVersion, isDevelopment, entries, now, get);
  }

  /**
   * A channel cached as nonexistent and asked for again within the day is
   * refused with zero outbound calls, even if it has since come to exist.
   */
  lemma CachedNegativeChannelMakesNoCall(value: string, clientVersion: string, isDevelopment: bool,
                                         entries: map<string, Entry>, now: nat, get: string -> bool)
    requires value != "" && (value[0] == 'z' || value[0] == 'Z')
    requires var v := ToLowerInvariant(value);
      IsLive(entries, ValidKey(v), now) && !entries[ValidKey(v)].ok
    ensures PostOutcome(Some(RobloxChannel), Some(value), clientVersion, isDevelopment, entries, now, get)
      == Outcome(BadRequest, [], entries, [])
  {
    ChannelOutcome(value, clientVersion, isDevelopment, entries, now, get);
  }

  /**
   * In Production an accepted channel is written, lower-cased, to
   * bloxstrap-14d, and also to bloxstrap-14d-public exactly when the
   * visibility check passed.
   */
  lemma ChannelRouting(value: string, clientVersion: string, entries: map<string, Entry>, now: nat,
                       get: string -> bool)
    requires value != "" && (value[0] == 'z' || value[0] == 'Z')
    requires CheckChannel(ToLowerInvariant(value), entries, now, get).present
    ensures var v := ToLowerInvariant(value);
      var c := CheckChannel(v, entries, now, get);
      var point := Point(RobloxChannel, v, 1, clientVersion, now);
      var o := PostOutcome(Some(RobloxChannel), Some(value), clientVersion, false, entries, now, get);
      && o.status == Ok
      && o.writes == [Write("bloxstrap-14d", point)] + (if c.isPublic then [Write("bloxstrap-14d-public", point)] else [])
  {
    var v := ToLowerInvariant(value);
    var c := CheckChannel(v, entries, now, get);
    var point := Point(RobloxChannel, v, 1, clientVersion, now);
    ChannelOutcome(value, clientVersion, false, entries, now, get);
    ChannelWrites(c.isPublic, point);
  }

  /** Outside Development a channel beacon goes to the primary bucket, then to the public one when visible. */
  lemma ChannelWrites(isPublic: bool, point: Point)
    ensures WritesOf(Destinations(Registry[1], isPublic, false), point)
      == [Write("bloxstrap-14d", point)] + (if isPublic then [Write("bloxstrap-14d-public", point)] else [])
  {
    var buckets := Destinations(Registry[1], isPublic, false);
    assert buckets == ["bloxstrap-14d"] + if isPublic then ["bloxstrap-14d-public"] else [];
  }

  /**
   * Every accepted beacon writes the same point once per destination bucket:
   * measurement = key, the field, field value 1, the version tag, the
   * request's time. In Development the only destination is test-bucket. A
   * refused beacon writes nothing.
   */
  lemma PostWritesOnePointPerBucket(key: Option<string>, value: Option<string>, clientVersion: string,
                                    isDevelopment: bool, entries: map<string, Entry>, now: nat, get: string -> bool)
    ensures var o := PostOutcome(key, value, clientVersion, isDevelopment, entries, now, get);
      && o.status in {Ok, BadRequest}
      && (o.status != Ok ==> o.writes == [])
      && (o.status == Ok ==>
            && key.Some? && value.Some?
            && 1 <= |o.writes| <= 2
            && (isDevelopment ==> |o.writes| == 1 && o.writes[0].bucket == DevelopmentBucket)
            && forall n :: 0 <= n < |o.writes| ==>
                 o.writes[n].point == Point(key.value, FieldFor(key.value, value.value), 1, clientVersion, now))
  {
    match Screen(key, value)
    case None =>
    case Some(sc) =>
      assert sc.field == FieldFor(key.value, value.value) by {
        ScreenByKey(key, value);
      }
      var o := PostOutcome(key, value, clientVersion, isDevelopment, entries, now, get);
      var point := Point(key.value, sc.field, 1, clientVersion, now);
      if sc.statPoint.name != RobloxChannel {
        assert o == Outcome(Ok, WritesOf(Destinations(sc.statPoint, false, isDevelopment), point), entries, []);
        AcceptedWrites(sc.statPoint, false, isDevelopment, point);
      } else {
        var c := CheckChannel(sc.field, entries, now, get);
        assert o.status == (if c.present then Ok else BadRequest);
        assert o.writes == if c.present then WritesOf(Destinations(sc.statPoint, c.isPublic, isDevelopment), point) else [];
        AcceptedWrites(sc.statPoint, c.isPublic, isDevelopment, point);
      }
  }

  /** The writes of an accepted beacon: one or two copies of its point, only to test-bucket in Development. */
  lemma AcceptedWrites(sp: StatPoint, publicChannel: bool, isDevelopment: bool, point: Point)
    ensures var w := WritesOf(Destinations(sp, publicChannel, isDevelopment), point);
      && 1 <= |w| <= 2
      && (isDevelopment ==> |w| == 1 && w[0].bucket == DevelopmentBucket)
      && forall n :: 0 <= n < |w| ==> w[n].point == point
  {
  }

  /** At most two outbound GETs per beacon, and none for a metric other than the channel. */
  lemma PostOutboundCalls(key: Option<string>, value: Option<string>, clientVersion: string,
                          isDevelopment: bool, entries: map<string, Entry>, now: nat, get: string -> bool)
    ensures var o := PostOutcome(key, value, clientVersion, isDevelopment, entries, now, get);
      |o.fetched| <= 2 && (o.fetched != [] ==> key == Some(RobloxChannel))
  {
  }

  /** End to end: installAction=install in Production gives 200 and exactly one write, to bloxstrap-90d. */
  lemma InstallBeacon(clientVersion: string, entries: map<string, Entry>, now: nat, get: string -> bool)
    ensures PostOutcome(Some(InstallAction), Some("install"), clientVersion, false, entries, now, get)
      == Outcome(Ok, [Write("bloxstrap-90d", Point(InstallAction, "install", 1, clientVersion, now))], entries, [])
  {
    InstallActionOutcome("install", clientVersion, false, entries, now, get);
  }

  /**
   * End to end: robloxChannel=Zbeta1, for a channel that exists but is not
   * public and with nothing cached, gives 200 and exactly one write, of
   * field "zbeta1" to bloxstrap-14d, after one GET per check.
   */
  lemma PrivateChannelBeacon(clientVersion: string, now: nat, get: string -> bool)
    requires get(ValidUrl("zbeta1")) && !get(PublicUrl("zbeta1"))
    ensures var o := PostOutcome(Some(RobloxChannel), Some("Zbeta1"), clientVersion, false, map[], now, get);
      && o.status == Ok
      && o.writes == [Write("bloxstrap-14d", Point(RobloxChannel, "zbeta1", 1, clientVersion, now))]
      && o.fetched == [ValidUrl("zbeta1"), PublicUrl("zbeta1")]
  {
    assert ToLowerInvariant("Zbeta1") == "zbeta1";
    ColdChannelAsksRemote("zbeta1", now, get);
    ChannelOutcome("Zbeta1", clientVersion, false, map[], now, get);
    ChannelRouting("Zbeta1", clientVersion, map[], now, get);
  }

  // ---------------------------------------------------------------------
  // The crash-trace path
  // ---------------------------------------------------------------------

  /** One row of the exception_reports table (the database assigns the id). */
  datatype ExceptionReport = ExceptionReport(timestamp: nat, trace: string)

  /** `string.Length`: the number of UTF-16 code units; a character above U+FFFF takes two. */
  function Utf16Length(s: string): (n: nat)
    ensures n == 0 <==> s == []
  {
    if s == [] then 0 else (if s[0] as int > 0xFFFF then 2 else 1) + Utf16Length(s[1..])
  }

  lemma {:induction false} Utf16LengthBounds(s: string)
    ensures |s| <= Utf16Length(s) <= 2 * |s|
    ensures Utf16Length(s) == |s| <==> forall n :: 0 <= n < |s| ==> s[n] as int <= 0xFFFF
  {
    if s != [] {
      Utf16LengthBounds(s[1..]);
      assert forall n :: 1 <= n < |s| ==> s[n] == s[1..][n - 1];
    }
  }

  /** 400 for an empty trace, 413 for one of 51200 UTF-16 code units or more, otherwise 200. */
  function TraceVerdict(trace: string): (v: Status)
    ensures v == Ok <==> trace != "" && Utf16Length(trace) < MaxTraceLength
    ensures v != Ok ==> v == (if trace == "" then BadRequest else PayloadTooLarge)
  {
    if trace == "" then BadRequest
    else if Utf16Length(trace) >= MaxTraceLength then PayloadTooLarge
    else Ok
  }

  /**
   * The size bound: 51200 characters or more are always refused; for text
   * without characters above U+FFFF, 51199 are accepted and exactly 51200 are
   * refused; anything non-empty under 25600 characters is accepted.
   */
  lemma TraceSizeBoundary(trace: string)
    ensures |trace| >= MaxTraceLength ==> TraceVerdict(trace) == PayloadTooLarge
    ensures 0 < |trace| < MaxTraceLength / 2 ==> TraceVerdict(trace) == Ok
    ensures (forall n :: 0 <= n < |trace| ==> trace[n] as int <= 0xFFFF) ==>
      (TraceVerdict(trace) == Ok <==> 0 < |trace| < MaxTraceLength)
  {
    Utf16LengthBounds(trace);
  }

  // ---------------------------------------------------------------------
  // The stores and the controller
  // ---------------------------------------------------------------------

  /** The time-series store, as the writes it has received. */
  class PointSink {
    var written: seq<Write>

    constructor ()
      ensures written == []
    {
      written := [];
    }

    method WritePoint(point: Point, bucket: string)
      modifies this
      ensures written == old(written) + [Write(bucket, point)]
    {
      written := written + [Write(bucket, point)];
    }

    /** The controller's write loop: the point, once to each bucket, in order. */
    method WriteEach(point: Point, buckets: seq<string>)
      modifies this
      ensures written == old(written) + WritesOf(buckets, point)
    {
      var n := 0;
      while n < |buckets|
        invariant 0 <= n <= |buckets|
        invariant written == old(written) + WritesOf(buckets[..n], point)
      {
        WritePoint(point, buckets[n]);
        assert buckets[..n + 1][..n] == buckets[..n];
        n := n + 1;
      }
      assert buckets[..n] == buckets;
    }
  }

  /** The exception_reports table, as the rows inserted so far. */
  class ReportTable {
    var rows: seq<ExceptionReport>

    constructor ()
      ensures rows == []
    {
      rows := [];
    }

    method Insert(report: ExceptionReport)
      modifies this
      ensures rows == old(rows) + [report]
    {
      rows := rows + [report];
    }
  }

  class MetricsController {
    const cache: MemoryCache
    const sink: PointSink
    const table: ReportTable
    const isDevelopment: bool

    constructor (cache: MemoryCache, sink: PointSink, table: ReportTable, isDevelopment: bool)
      ensures this.cache == cache && this.sink == sink && this.table == table
      ensures this.isDevelopment == isDevelopment
    {
      this.cache := cache;
      this.sink := sink;
      this.table := table;
      this.isDevelopment := isDevelopment;
    }

    /**
     * The existence check and, for an existing channel, the visibility
     * check, through the shared cache.
     */
    method CheckChannelCached(channel: string, now: nat, get: string -> bool) returns (present: bool, isPublic: bool)
      modifies cache
      ensures var c := CheckChannel(channel, old(cache.entries), now, get);
        && present == c.present && isPublic == c.isPublic
        && cache.entries == c.entries && cache.fetched == old(cache.fetched) + c.fetched
    {
      present := cache.IsHttpRequestSuccessCached(ExistenceTtl, ValidKey(channel), ValidUrl(channel), now, get);
      if !present {
        return present, false;
      }
      isPublic := cache.IsHttpRequestSuccessCached(VisibilityTtl, PublicKey(channel), PublicUrl(channel), now, get);
    }

    /** GET /metrics/post?key=..&value=..; clientVersion is the tag the identity filter recorded. */
    method Post(key: Option<string>, value: Option<string>, clientVersion: string, now: nat, get: string -> bool)
      returns (status: Status)
      modifies cache, sink
      ensures var o := PostOutcome(key, value, clientVersion, isDevelopment, old(cache.entries), now, get);
        && status == o.status
        && sink.written == old(sink.written) + o.writes
        && cache.entries == o.entries
        && cache.fetched == old(cache.fetched) + o.fetched
    {
      ghost var o := PostOutcome(key, value, clientVersion, isDevelopment, cache.entries, now, get);
      var screened := Screen(key, value);
      if screened.None? {
        return BadRequest;
      }
      var statPoint := screened.value.statPoint;
      var field := screened.value.field;
      var buckets := [statPoint.bucket];
      ghost var visible := false;
      if statPoint.name == RobloxChannel {
        var present, publicChannel := CheckChannelCached(field, now, get);
        if !present {
          return BadRequest;
        }
        if publicChannel {
          buckets := buckets + [statPoint.bucketPublic];
        }
        visible := publicChannel;
      }
      var point := Point(key.value, field, 1, clientVersion, now);
      if isDevelopment {
        buckets := [DevelopmentBucket];
      }
      assert buckets == Destinations(statPoint, visible, isDevelopment);
      assert o.writes == WritesOf(buckets, point);
      sink.WriteEach(point, buckets);
      return Ok;
    }

    /** POST /metrics/post-exception with the trace as the request body. */
    method PostException(body: string, now: nat) returns (status: Status)
      modifies table
      ensures status == TraceVerdict(body)
      ensures table.rows == if status == Ok then old(table.rows) + [ExceptionReport(now, body)] else old(table.rows)
    {
      if body == "" {
        return BadRequest;
      }
      if Utf16Length(body) >= MaxTraceLength {
        return PayloadTooLarge;
      }
      table.Insert(ExceptionReport(now, body));
      return Ok;
    }
  }
}
