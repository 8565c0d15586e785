/**
 * The dashboard's polling and reconciliation engine (static/app.js): the
 * table rows keyed by container name, the per-name CPU/RAM averages and
 * network samples, the running network peak, the set of rows in view, the
 * re-entrancy flag of `render` and the cached last good snapshot.
 *
 * The engine's state is described twice: as the value `Engine`, on which
 * every step is a pure function with its properties proved as lemmas, and as
 * the class `DashboardState`, whose methods change their fields the way the
 * script does (loops over rows, deletes from maps, the `i += 6` loop) and are
 * proved to produce exactly the state the pure step describes.
 */
module Dashboard {
  import opened Wrappers
  import opened Text
  import opened Smoothing
  import opened Batching
  import opened ImageLinks

  // ---------------------------------------------------------------------
  // What the server sends
  // ---------------------------------------------------------------------

  /** The per-container `meta` record; absent fields are `None`. Numbers are finite (they come from JSON). */
  datatype Meta = Meta(
    image: Option<string>,
    state: Option<string>,
    cpu: Option<real>,
    memUsage: Option<real>,
    memLimit: Option<real>,
    netRx: Option<real>,
    netTx: Option<real>)

  const EmptyMeta: Meta := Meta(None, None, None, None, None, None, None)

  /** A `/status` reply: its `status` field, the status of every container, and their meta records. */
  datatype Snapshot = Snapshot(status: string, updates: map<string, string>, meta: map<string, Meta>)

  /** `(data.meta && data.meta[name]) || {}` */
  function MetaOf(data: Snapshot, name: string): Meta {
    if name in data.meta then data.meta[name] else EmptyMeta
  }

  /** A `/metrics/<name>` request: failed (network error, HTTP error, bad JSON), or a reply with an optional meta. */
  datatype MetricsReply = NoReply | Reply(meta: Option<Meta>)

  /** A `/status` request made by `render`: it threw, or it returned a snapshot. */
  datatype StatusFetch = FetchFailed | Fetched(data: Snapshot)

  function Get<K, V>(m: map<K, V>, k: K): (r: Option<V>)
    ensures r.Some? <==> k in m
    ensures r.Some? ==> r.value == m[k]
  {
    if k in m then Some(m[k]) else None
  }

  // ---------------------------------------------------------------------
  // One table row
  // ---------------------------------------------------------------------

  /** The status cell: the "pending" marker, or the status tag with its tone. */
  datatype StatusCell = PendingTag | StatusTag(status: string, tone: Tone)

  /** The network bar: its fill and the two rates it is labelled with. */
  datatype NetBar = NetBar(pct: real, rxps: real, txps: real)

  /**
   * The resources cell: the loading skeleton (`data-has-metrics='0'`), or the
   * metrics (`data-has-metrics='1'`): lifecycle state and its tone, and the
   * CPU, RAM and network bars that were drawn.
   */
  datatype ResCell =
    | Skeleton
    | Metrics(state: Option<string>, tone: Tone, cpuPct: Option<real>, ramPct: Option<real>, net: Option<NetBar>)

  datatype Row = Row(status: StatusCell, res: ResCell, link: Option<string>, linkText: Option<string>, updateDisabled: bool)

  /** The update button is disabled for a shown status of `not_found` or `error…`. */
  predicate DisablesUpdate(st: string, pending: bool) {
    !pending && (st == "not_found" || StartsWith(st, "error"))
  }

  /** What `applyData` makes of one row: `prior` is the existing row, `None` for a row it creates. */
  function ReconcileRow(prior: Option<Row>, st: string, m: Meta, pending: bool): Row {
    var status := if pending then PendingTag else StatusTag(st, TagTone(st));
    var res := if !pending && prior.Some? && prior.value.res.Metrics? then prior.value.res else Skeleton;
    Row(status, res, RepoLink(m.image), RepoLabel(m.image), DisablesUpdate(st, pending))
  }

  /** A pending row shows the marker and the skeleton and can be updated. */
  lemma PendingRowIsSkeleton(prior: Option<Row>, st: string, m: Meta)
    ensures var r := ReconcileRow(prior, st, m, true);
            r.status == PendingTag && r.res == Skeleton && !r.updateDisabled
  {
  }

  /** Without pending, drawn metrics are kept and anything else becomes the skeleton; the tag shows the status. */
  lemma SettledRowKeepsMetrics(prior: Option<Row>, st: string, m: Meta)
    ensures var r := ReconcileRow(prior, st, m, false);
            r.status == StatusTag(st, TagTone(st))
            && (prior.Some? && prior.value.res.Metrics? ==> r.res == prior.value.res)
            && (prior.None? || prior.value.res == Skeleton ==> r.res == Skeleton)
  {
  }

  /** The button is disabled exactly for a settled `not_found` or `error…` status; such statuses never have the `ok` tone. */
  lemma UpdateDisabledExactly(prior: Option<Row>, st: string, m: Meta, pending: bool)
    ensures ReconcileRow(prior, st, m, pending).updateDisabled
            <==> !pending && (st == "not_found" || (|st| >= 5 && st[..5] == "error"))
    ensures ReconcileRow(prior, st, m, pending).updateDisabled ==> TagTone(st) in {ToneMuted, ToneErr}
  {
    if StartsWith(st, "error") {
      assert st[0] == 'e';
    }
  }

  /**
   * The link cell is redrawn from the snapshot's image reference on every
   * pass, whatever the prior row showed: a link and its label exactly when
   * the reference is present.
   */
  lemma LinkAndLabelTogether(prior: Option<Row>, st: string, m: Meta, pending: bool)
    ensures var r := ReconcileRow(prior, st, m, pending);
            && r.link == RepoLink(m.image) && r.linkText == RepoLabel(m.image)
            && (r.link.Some? <==> Present(m.image)) && (r.link.Some? <==> r.linkText.Some?)
            && (prior.Some? ==> r.link == ReconcileRow(None, st, m, pending).link)
  {
  }

  // ---------------------------------------------------------------------
  // The engine as a value
  // ---------------------------------------------------------------------

  datatype Engine = Engine(
    rows: map<string, Row>,
    cpuEma: map<string, real>,
    ramEma: map<string, real>,
    netPrev: map<string, NetSample>,
    peak: real,
    visible: seq<string>,
    rendering: bool,
    cache: Option<Snapshot>)

  predicate NoDuplicates(s: seq<string>) {
    forall i, j :: 0 <= i < j < |s| ==> s[i] != s[j]
  }

  /**
   * What the engine keeps true: per-name state exists only for names with a
   * row, the averages are percentages, the visible names are distinct rows,
   * and the peak is at least 1 MiB/s.
   */
  predicate Valid(e: Engine) {
    && e.cpuEma.Keys <= e.rows.Keys
    && e.ramEma.Keys <= e.rows.Keys
    && e.netPrev.Keys <= e.rows.Keys
    && Percentages(e.cpuEma)
    && Percentages(e.ramEma)
    && (forall i :: 0 <= i < |e.visible| ==> e.visible[i] in e.rows)
    && NoDuplicates(e.visible)
    && e.peak >= PeakFloor
  }

  /** The engine when the page loads, before the cached snapshot is shown. */
  function Initial(stored: Option<Snapshot>): (e: Engine)
    ensures Valid(e)
  {
    Engine(map[], map[], map[], map[], InitialPeak, [], false, stored)
  }

  // ---------------------------------------------------------------------
  // applyData
  // ---------------------------------------------------------------------

  /** `s` without the elements of `d`, order kept. */
  function Without(s: seq<string>, d: set<string>): (r: seq<string>)
    ensures forall i :: 0 <= i < |r| ==> r[i] in s && r[i] !in d
    ensures forall x :: x in s && x !in d ==> x in r
    ensures |r| <= |s|
  {
    if s == [] then []
    else (if s[0] in d then [] else [s[0]]) + Without(s[1..], d)
  }

  lemma {:induction false} WithoutStep(s: seq<string>, d: set<string>, x: string)
    ensures Without(Without(s, d), {x}) == Without(s, d + {x})
  {
    if s != [] {
      WithoutStep(s[1..], d, x);
      var head := if s[0] in d then [] else [s[0]];
      WithoutAppend(head, Without(s[1..], d), {x});
    }
  }

  lemma {:induction false} WithoutAppend(a: seq<string>, b: seq<string>, d: set<string>)
    ensures Without(a + b, d) == Without(a, d) + Without(b, d)
  {
    if a == [] {
      assert a + b == b;
    } else {
      assert (a + b)[1..] == a[1..] + b;
      WithoutAppend(a[1..], b, d);
    }
  }

  lemma {:induction false} WithoutKeepsDistinct(s: seq<string>, d: set<string>)
    requires NoDuplicates(s)
    ensures NoDuplicates(Without(s, d))
  {
    if s != [] {
      WithoutKeepsDistinct(s[1..], d);
      var rest := Without(s[1..], d);
      assert s[0] !in s[1..];
      assert s[0] !in rest;
    }
  }

  /** Names with a row that the snapshot no longer lists. */
  function Gone(e: Engine, data: Snapshot): set<string> {
    e.rows.Keys - data.updates.Keys
  }

  /** The rows `applyData` leaves: one per name of the snapshot, each reconciled with its prior row. */
  function ApplyRows(rows: map<string, Row>, data: Snapshot, pending: bool): (r: map<string, Row>)
    ensures r.Keys == data.updates.Keys
  {
    map n | n in data.updates :: ReconcileRow(Get(rows, n), data.updates[n], MetaOf(data, n), pending)
  }

  /** `applyData(data, {pending})`. */
  function AfterApply(e: Engine, data: Snapshot, pending: bool): Engine {
    if data.status != "ok" then e
    else
      var gone := Gone(e, data);
      e.(rows := ApplyRows(e.rows, data, pending),
         cpuEma := e.cpuEma - gone,
         ramEma := e.ramEma - gone,
         netPrev := e.netPrev - gone,
         visible := Without(e.visible, gone))
  }

  /** A snapshot whose status is not "ok" changes nothing. */
  lemma ApplyIgnoresFailedSnapshot(e: Engine, data: Snapshot, pending: bool)
    requires data.status != "ok"
    ensures AfterApply(e, data, pending) == e
  {
  }

  /** Afterwards there is exactly one row per listed name, and nothing else but per-name state changed. */
  lemma ApplyMatchesSnapshot(e: Engine, data: Snapshot, pending: bool)
    requires data.status == "ok"
    ensures var e' := AfterApply(e, data, pending);
            e'.rows.Keys == data.updates.Keys
            && e'.peak == e.peak && e'.rendering == e.rendering && e'.cache == e.cache
  {
  }

  /** A name that disappears loses its row, its averages, its network sample and its visibility together. */
  lemma ApplyPurgesRemoved(e: Engine, data: Snapshot, pending: bool, name: string)
    requires data.status == "ok" && name in e.rows && name !in data.updates
    ensures var e' := AfterApply(e, data, pending);
            name !in e'.rows && name !in e'.cpuEma && name !in e'.ramEma
            && name !in e'.netPrev && name !in e'.visible
  {
  }

  /** A name that stays keeps its averages and network sample. */
  lemma ApplyKeepsSurvivors(e: Engine, data: Snapshot, pending: bool, name: string)
    requires data.status == "ok" && name in data.updates
    ensures var e' := AfterApply(e, data, pending);
            Get(e'.cpuEma, name) == Get(e.cpuEma, name)
            && Get(e'.ramEma, name) == Get(e.ramEma, name)
            && Get(e'.netPrev, name) == Get(e.netPrev, name)
  {
  }

  /** Showing the same snapshot twice is showing it once. */
  lemma ApplyIdempotent(e: Engine, data: Snapshot, pending: bool)
    ensures AfterApply(AfterApply(e, data, pending), data, pending) == AfterApply(e, data, pending)
  {
    if data.status == "ok" {
      var e1 := AfterApply(e, data, pending);
      var e2 := AfterApply(e1, data, pending);
      assert Gone(e1, data) == {};
      assert e1.cpuEma - {} == e1.cpuEma;
      assert e1.ramEma - {} == e1.ramEma;
      assert e1.netPrev - {} == e1.netPrev;
      WithoutNothing(e1.visible);
      ApplyRowsTwice(e.rows, data, pending);
    }
  }

  lemma ApplyRowsTwice(rows: map<string, Row>, data: Snapshot, pending: bool)
    ensures ApplyRows(ApplyRows(rows, data, pending), data, pending) == ApplyRows(rows, data, pending)
  {
    var r1 := ApplyRows(rows, data, pending);
    var r2 := ApplyRows(r1, data, pending);
    forall n | n in data.updates
      ensures r2[n] == r1[n]
    {
      assert Get(r1, n) == Some(r1[n]);
    }
  }

  lemma {:induction false} WithoutNothing(s: seq<string>)
    ensures Without(s, {}) == s
  {
    if s != [] {
      WithoutNothing(s[1..]);
    }
  }

  lemma ApplyPreservesValid(e: Engine, data: Snapshot, pending: bool)
    requires Valid(e)
    ensures Valid(AfterApply(e, data, pending))
  {
    if data.status == "ok" {
      WithoutKeepsDistinct(e.visible, Gone(e, data));
    }
  }

  // ---------------------------------------------------------------------
  // emaUpdate, computeNetRate, renderResourcesCell
  // ---------------------------------------------------------------------

  /** `emaUpdate(map, name, value)`: the new map and the returned value. */
  function EmaStore(table: map<string, real>, name: string, value: Num): (r: (map<string, real>, real))
    ensures !value.Finite? ==> r == (table, 0.0)
    ensures value.Finite? && name !in table ==> r == (table[name := value.x], value.x)
    ensures value.Finite? && name in table ==>
              r.1 == Alpha * value.x + (1.0 - Alpha) * table[name] && r.0 == table[name := r.1]
  {
    if !value.Finite? then (table, 0.0)
    else
      var next := EmaNext(Get(table, name), value.x);
      (table[name := next], next)
  }

  /** The sample `computeNetRate` stores: the time and the counters, missing or zero counters read as 0. */
  function SampleOf(m: Meta, now: int): NetSample {
    NetSample(now, m.netRx.GetOr(0.0), m.netTx.GetOr(0.0))
  }

  /** The CPU bar: the clamped raw value, smoothed, clamped again. */
  function CpuRaw(m: Meta): Option<real> {
    if m.cpu.Some? then Some(ClampPct(Finite(m.cpu.value))) else None
  }

  /** The RAM bar is drawn only when usage and a positive limit are known. */
  function RamRaw(m: Meta): Option<real> {
    if m.memUsage.Some? && m.memLimit.Some? && m.memLimit.value > 0.0 then
      Some(ClampPct(Finite(m.memUsage.value / m.memLimit.value * 100.0)))
    else None
  }

  /** The CPU average after the cell is drawn, and the CPU bar. */
  function CpuPart(table: map<string, real>, name: string, m: Meta): (map<string, real>, Option<real>) {
    if CpuRaw(m).None? then (table, None)
    else
      var (t, out) := EmaStore(table, name, Finite(CpuRaw(m).value));
      (t, Some(ClampPct(Finite(out))))
  }

  /** The RAM average after the cell is drawn, and the RAM bar. */
  function RamPart(table: map<string, real>, name: string, m: Meta): (map<string, real>, Option<real>) {
    if RamRaw(m).None? then (table, None)
    else
      var (t, out) := EmaStore(table, name, Finite(RamRaw(m).value));
      (t, Some(ClampPct(Finite(out))))
  }

  /** The samples, the peak and the network bar after the cell is drawn; an empty name is not measured. */
  function NetPart(netPrev: map<string, NetSample>, peak: real, name: string, m: Meta, now: int)
    : (map<string, NetSample>, real, Option<NetBar>)
  {
    if name == "" then (netPrev, peak, None)
    else
      var sample := SampleOf(m, now);
      var prev := Get(netPrev, name);
      var rate := NetRateOf(prev, sample);
      var p := PeakAfter(prev, sample, peak);
      (netPrev[name := sample], p, Some(NetBar(NetPct(rate, p), rate.rxps, rate.txps)))
  }

  /** `renderResourcesCell(td, m, name)` for the row of `name`. */
  function MetricsCell(e: Engine, name: string, m: Meta, now: int): Engine
    requires name in e.rows
  {
    var (cpuTable, cpuBar) := CpuPart(e.cpuEma, name, m);
    var (ramTable, ramBar) := RamPart(e.ramEma, name, m);
    var (samples, peak, netBar) := NetPart(e.netPrev, e.peak, name, m, now);
    var res := Metrics(m.state, StateClass(m.state), cpuBar, ramBar, netBar);
    e.(rows := e.rows[name := e.rows[name].(res := res)],
       cpuEma := cpuTable,
       ramEma := ramTable,
       netPrev := samples,
       peak := peak)
  }

  /** The first observation of a name is drawn unsmoothed. */
  lemma FirstObservationIsRaw(e: Engine, name: string, m: Meta, now: int)
    requires name in e.rows && name !in e.cpuEma && m.cpu.Some?
    ensures MetricsCell(e, name, m, now).cpuEma[name] == ClampPct(Finite(m.cpu.value))
    ensures MetricsCell(e, name, m, now).rows[name].res.cpuPct == Some(ClampPct(Finite(m.cpu.value)))
  {
  }

  /** The network bar never shows more than 100/1.2 percent after a measurement. */
  lemma NetBarBelowFull(e: Engine, name: string, m: Meta, now: int)
    requires Valid(e) && name in e.rows && name != ""
    requires Measurable(Get(e.netPrev, name), now)
    ensures MetricsCell(e, name, m, now).rows[name].res.net.value.pct * 1.2 <= 100.0
  {
    NetBarHasHeadroom(Get(e.netPrev, name), SampleOf(m, now), e.peak);
  }

  lemma MetricsCellPreservesValid(e: Engine, name: string, m: Meta, now: int)
    requires Valid(e) && name in e.rows
    ensures Valid(MetricsCell(e, name, m, now))
  {
    CpuPartStaysPercent(e.cpuEma, name, m);
    RamPartStaysPercent(e.ramEma, name, m);
    var (samples, peak, _) := NetPart(e.netPrev, e.peak, name, m, now);
    assert samples.Keys <= e.netPrev.Keys + {name};
    assert peak >= PeakFloor by {
      if name != "" {
        PeakStaysAboveFloor(Get(e.netPrev, name), SampleOf(m, now), e.peak);
      }
    }
  }

  /** Every value of a table of averages is a percentage. */
  predicate Percentages(table: map<string, real>) {
    forall n :: n in table ==> 0.0 <= table[n] <= 100.0
  }

  lemma CpuPartStaysPercent(table: map<string, real>, name: string, m: Meta)
    requires Percentages(table)
    ensures Percentages(CpuPart(table, name, m).0) && CpuPart(table, name, m).0.Keys <= table.Keys + {name}
  {
    if CpuRaw(m).Some? {
      EmaStaysPercent(Get(table, name), Finite(CpuRaw(m).value));
    }
  }

  lemma RamPartStaysPercent(table: map<string, real>, name: string, m: Meta)
    requires Percentages(table)
    ensures Percentages(RamPart(table, name, m).0) && RamPart(table, name, m).0.Keys <= table.Keys + {name}
  {
    if RamRaw(m).Some? {
      EmaStaysPercent(Get(table, name), Finite(RamRaw(m).value));
    }
  }

  // ---------------------------------------------------------------------
  // fetchMetricsOne and fillVisibleMetricsLazily
  // ---------------------------------------------------------------------

  /** `fetchMetricsOne(name)`: a failed request or a reply for a name without a row changes nothing. */
  function MetricsOne(e: Engine, name: string, reply: MetricsReply, now: int): Engine {
    if reply.NoReply? || name !in e.rows then e
    else MetricsCell(e, name, reply.meta.GetOr(EmptyMeta), now)
  }

  /** The replies for `names`, applied in order. */
  function MetricsAll(e: Engine, names: seq<string>, replies: string -> MetricsReply, now: int): Engine
    decreases |names|
  {
    if names == [] then e
    else
      var last := names[|names| - 1];
      MetricsOne(MetricsAll(e, names[..|names| - 1], replies, now), last, replies(last), now)
  }

  lemma {:induction false} MetricsAllAppend(e: Engine, a: seq<string>, b: seq<string>, replies: string -> MetricsReply, now: int)
    ensures MetricsAll(e, a + b, replies, now) == MetricsAll(MetricsAll(e, a, replies, now), b, replies, now)
    decreases |b|
  {
    if b == [] {
      assert a + b == a;
    } else {
      var b' := b[..|b| - 1];
      assert (a + b)[..|a + b| - 1] == a + b';
      MetricsAllAppend(e, a, b', replies, now);
    }
  }

  lemma MetricsAllAdvance(e: Engine, s: seq<string>, i: nat, j: nat, replies: string -> MetricsReply, now: int)
    requires i <= j <= |s|
    ensures MetricsAll(MetricsAll(e, s[..i], replies, now), s[i..j], replies, now) == MetricsAll(e, s[..j], replies, now)
  {
    MetricsAllAppend(e, s[..i], s[i..j], replies, now);
    assert s[..i] + s[i..j] == s[..j];
  }

  /** A metrics reply for a name that has no row is dropped. */
  lemma ReplyForUnknownNameDropped(e: Engine, name: string, reply: MetricsReply, now: int)
    requires name !in e.rows
    ensures MetricsOne(e, name, reply, now) == e
  {
  }

  /** Metrics never add or remove rows, and only ever add state for names with rows. */
  lemma {:induction false} MetricsAllPreservesValid(e: Engine, names: seq<string>, replies: string -> MetricsReply, now: int)
    requires Valid(e)
    ensures Valid(MetricsAll(e, names, replies, now))
    ensures MetricsAll(e, names, replies, now).rows.Keys == e.rows.Keys
    ensures MetricsAll(e, names, replies, now).visible == e.visible
    decreases |names|
  {
    if names != [] {
      var mid := MetricsAll(e, names[..|names| - 1], replies, now);
      MetricsAllPreservesValid(e, names[..|names| - 1], replies, now);
      var last := names[|names| - 1];
      if replies(last).Reply? && last in mid.rows {
        MetricsCellPreservesValid(mid, last, replies(last).meta.GetOr(EmptyMeta), now);
      }
    }
  }

  // ---------------------------------------------------------------------
  // The refresh button of a row
  // ---------------------------------------------------------------------

  /** What the row's refresh request (`fetchStatusOne(name, true)`) gave: it threw, or a status and a meta record. */
  datatype RowRefresh = RefreshFailed | RefreshReply(status: Option<string>, meta: Option<Meta>)

  /**
   * The refresh button's handler: the resources cell shows the skeleton
   * while the request runs; a reply redraws the status tag, the resources
   * (through the same smoothing and rate steps as the lazy fill) and the
   * link, and a failure leaves the skeleton. A missing status is drawn as the
   * empty text with the `err` tone.
   */
  function AfterRefresh(e: Engine, name: string, r: RowRefresh, now: int): Engine
    requires name in e.rows
  {
    var loading := e.(rows := e.rows[name := e.rows[name].(res := Skeleton)]);
    match r
    case RefreshFailed => loading
    case RefreshReply(st, meta) =>
      var m := meta.GetOr(EmptyMeta);
      var s := st.GetOr("");
      var drawn := MetricsCell(loading, name, m, now);
      drawn.(rows := drawn.rows[name := drawn.rows[name].(status := StatusTag(s, TagTone(s)), link := RepoLink(m.image), linkText := RepoLabel(m.image))])
  }

  /**
   * A refresh touches only its own row: the other rows, the visible names,
   * the render flag and the cache are unchanged, the update button is left as
   * it was, and a failure shows the skeleton and changes nothing else.
   */
  lemma RefreshTouchesOwnRow(e: Engine, name: string, r: RowRefresh, now: int)
    requires name in e.rows
    ensures var e2 := AfterRefresh(e, name, r, now);
            && e2.rows.Keys == e.rows.Keys
            && (forall n :: n in e.rows && n != name ==> e2.rows[n] == e.rows[n])
            && e2.rows[name].updateDisabled == e.rows[name].updateDisabled
            && e2.visible == e.visible && e2.rendering == e.rendering && e2.cache == e.cache
    ensures r.RefreshFailed? ==>
              AfterRefresh(e, name, r, now) == e.(rows := e.rows[name := e.rows[name].(res := Skeleton)])
  {
    if r.RefreshReply? {
      var loading := e.(rows := e.rows[name := e.rows[name].(res := Skeleton)]);
      var drawn := MetricsCell(loading, name, r.meta.GetOr(EmptyMeta), now);
      assert drawn.rows.Keys == e.rows.Keys;
    }
  }

  /**
   * A reply to a refresh shows the new status, the new link and freshly drawn
   * metrics, and advances the averages, samples and peak exactly as a lazily
   * fetched reply would advance them.
   */
  lemma RefreshReplyDraws(e: Engine, name: string, st: Option<string>, meta: Option<Meta>, now: int)
    requires name in e.rows
    ensures var m := meta.GetOr(EmptyMeta);
            var s := st.GetOr("");
            var e2 := AfterRefresh(e, name, RefreshReply(st, meta), now);
            var fetched := MetricsOne(e, name, Reply(meta), now);
            && e2.rows[name] == Row(StatusTag(s, TagTone(s)), fetched.rows[name].res, RepoLink(m.image), RepoLabel(m.image), e.rows[name].updateDisabled)
            && e2.rows[name].res.Metrics?
            && e2.cpuEma == fetched.cpuEma && e2.ramEma == fetched.ramEma
            && e2.netPrev == fetched.netPrev && e2.peak == fetched.peak
  {
  }

  /** A refresh keeps the engine's invariant. */
  lemma RefreshPreservesValid(e: Engine, name: string, r: RowRefresh, now: int)
    requires Valid(e) && name in e.rows
    ensures Valid(AfterRefresh(e, name, r, now))
  {
    var loading := e.(rows := e.rows[name := e.rows[name].(res := Skeleton)]);
    assert Valid(loading);
    if r.RefreshReply? {
      MetricsCellPreservesValid(loading, name, r.meta.GetOr(EmptyMeta), now);
    }
  }

  // ---------------------------------------------------------------------
  // The viewport
  // ---------------------------------------------------------------------

  /**
   * An IntersectionObserver entry for the row of `name`: skipped when the
   * name is empty, else add it on entering (if new), delete it on leaving.
   */
  function Intersect(e: Engine, name: string, entering: bool): Engine {
    if name == "" then e
    else if entering then
      (if name in e.visible then e else e.(visible := e.visible + [name]))
    else e.(visible := Without(e.visible, {name}))
  }

  lemma IntersectPreservesValid(e: Engine, name: string, entering: bool)
    requires Valid(e) && (entering ==> name in e.rows)
    ensures Valid(Intersect(e, name, entering))
    ensures name != "" ==> (name in Intersect(e, name, entering).visible <==> entering)
    ensures name == "" ==> Intersect(e, name, entering) == e
  {
    if name != "" && !entering {
      WithoutKeepsDistinct(e.visible, {name});
    }
  }

  // ---------------------------------------------------------------------
  // render
  // ---------------------------------------------------------------------

  /** Every row showing the pending marker and the skeleton. */
  function AllPending(rows: map<string, Row>): (r: map<string, Row>)
    ensures r.Keys == rows.Keys
    ensures forall n :: n in r ==> r[n].status == PendingTag && r[n].res == Skeleton
    ensures forall n :: n in r ==>
              r[n].link == rows[n].link && r[n].linkText == rows[n].linkText && r[n].updateDisabled == rows[n].updateDisabled
  {
    map n | n in rows :: rows[n].(status := PendingTag, res := Skeleton)
  }

  /** Entering `render(force, showLoading)`: nothing while a render is running, else raise the flag. */
  function AfterBegin(e: Engine, showLoading: bool): Engine {
    if e.rendering then e
    else e.(rendering := true, rows := if showLoading then AllPending(e.rows) else e.rows)
  }

  /** Leaving `render` with the outcome of its `/status` request; the flag is lowered on every path. */
  function AfterFinish(e: Engine, outcome: StatusFetch): Engine {
    var e' := match outcome
      case Fetched(data) =>
        if data.status == "ok" then AfterApply(e.(cache := Some(data)), data, false) else e
      case FetchFailed =>
        if e.cache.Some? && e.cache.value.status == "ok" then AfterApply(e, e.cache.value, true) else e;
    e'.(rendering := false)
  }

  /** A whole `render` call that is not interleaved with another one. */
  function AfterRender(e: Engine, showLoading: bool, outcome: StatusFetch): Engine {
    if e.rendering then e else AfterFinish(AfterBegin(e, showLoading), outcome)
  }

  /** While a render is running, another call changes nothing. */
  lemma RenderIsGuarded(e: Engine, showLoading: bool, outcome: StatusFetch)
    requires e.rendering
    ensures AfterRender(e, showLoading, outcome) == e
    ensures AfterBegin(e, showLoading) == e
  {
  }

  /** Every render that starts ends with the flag lowered. */
  lemma RenderLowersFlag(e: Engine, showLoading: bool, outcome: StatusFetch)
    requires !e.rendering
    ensures !AfterRender(e, showLoading, outcome).rendering
  {
  }

  /** A good snapshot is cached and shown settled. */
  lemma RenderSuccess(e: Engine, showLoading: bool, data: Snapshot)
    requires !e.rendering && data.status == "ok"
    ensures var e' := AfterRender(e, showLoading, Fetched(data));
            e'.cache == Some(data) && e'.rows.Keys == data.updates.Keys
            && forall n :: n in e'.rows ==> e'.rows[n].status == StatusTag(data.updates[n], TagTone(data.updates[n]))
  {
  }

  /** On failure the cached good snapshot is shown, every row pending; without one the table is left as it was. */
  lemma RenderFailureFallsBack(e: Engine, showLoading: bool)
    requires !e.rendering
    ensures var e' := AfterRender(e, showLoading, FetchFailed);
            if e.cache.Some? && e.cache.value.status == "ok" then
              e'.rows.Keys == e.cache.value.updates.Keys
              && forall n :: n in e'.rows ==> e'.rows[n].status == PendingTag && e'.rows[n].res == Skeleton
            else
              e'.rows == AfterBegin(e, showLoading).rows && e'.cache == e.cache
  {
  }

  lemma RenderPreservesValid(e: Engine, showLoading: bool, outcome: StatusFetch)
    requires Valid(e)
    ensures Valid(AfterBegin(e, showLoading))
    ensures Valid(AfterFinish(e, outcome))
  {
    BeginPreservesValid(e, showLoading);
    FinishPreservesValid(e, outcome);
  }

  lemma BeginPreservesValid(e: Engine, showLoading: bool)
    requires Valid(e)
    ensures Valid(AfterBegin(e, showLoading))
  {
    assert AfterBegin(e, showLoading).rows.Keys == e.rows.Keys;
  }

  lemma FinishPreservesValid(e: Engine, outcome: StatusFetch)
    requires Valid(e)
    ensures Valid(AfterFinish(e, outcome))
  {
    var e' := match outcome
      case Fetched(data) =>
        if data.status == "ok" then AfterApply(e.(cache := Some(data)), data, false) else e
      case FetchFailed =>
        if e.cache.Some? && e.cache.value.status == "ok" then AfterApply(e, e.cache.value, true) else e;
    assert Valid(e') by {
      match outcome
      case Fetched(data) => ApplyPreservesValid(e.(cache := Some(data)), data, false);
      case FetchFailed =>
        if e.cache.Some? {
          ApplyPreservesValid(e, e.cache.value, true);
        }
    }
    assert AfterFinish(e, outcome) == e'.(rendering := false);
  }

  /**
   * A container that disappears and comes back starts a fresh baseline: its
   * first CPU sample after the return is drawn unsmoothed.
   */
  lemma ReappearingNameStartsFresh(e: Engine, gone: Snapshot, back: Snapshot, name: string, m: Meta, now: int)
    requires Valid(e) && name in e.rows
    requires gone.status == "ok" && name !in gone.updates
    requires back.status == "ok" && name in back.updates
    requires m.cpu.Some?
    ensures var e2 := AfterApply(AfterApply(e, gone, false), back, false);
            name in e2.rows && MetricsCell(e2, name, m, now).cpuEma[name] == ClampPct(Finite(m.cpu.value))
  {
    var e1 := AfterApply(e, gone, false);
    ApplyPurgesRemoved(e, gone, false, name);
    var e2 := AfterApply(e1, back, false);
    assert name !in e1.rows;
    assert name !in e2.cpuEma;
    FirstObservationIsRaw(e2, name, m, now);
  }

  // ---------------------------------------------------------------------
  // The engine as an object
  // ---------------------------------------------------------------------

  datatype Series = Cpu | Ram

  class DashboardState {
    var rows: map<string, Row>
    var cpuEma: map<string, real>
    var ramEma: map<string, real>
    var netPrev: map<string, NetSample>
    var netPeakBps: real
    var visibleNames: seq<string>
    var isRendering: bool
    /** The `dm_cache` entry of localStorage, already parsed. */
    var cache: Option<Snapshot>

    function View(): Engine
      reads this
    {
      Engine(rows, cpuEma, ramEma, netPrev, netPeakBps, visibleNames, isRendering, cache)
    }

    function Table(s: Series): map<string, real>
      reads this
    {
      if s == Cpu then cpuEma else ramEma
    }

    /** Page load: a cached good snapshot is shown pending before the first poll. */
    constructor (stored: Option<Snapshot>)
      ensures View() == if stored.Some? && stored.value.status == "ok"
                        then AfterApply(Initial(stored), stored.value, true) else Initial(stored)
      ensures Valid(View())
    {
      rows, cpuEma, ramEma, netPrev := map[], map[], map[], map[];
      netPeakBps := InitialPeak;
      visibleNames := [];
      isRendering := false;
      cache := stored;
      new;
      if stored.Some? && stored.value.status == "ok" {
        ApplyData(stored.value, true);
        ApplyPreservesValid(Initial(stored), stored.value, true);
      }
    }

    /** `emaUpdate(cpuEma or ramEma, name, value)`. */
    method EmaUpdate(s: Series, name: string, value: Num) returns (next: real)
      modifies this
      ensures (Table(s), next) == EmaStore(old(Table(s)), name, value)
      ensures s == Cpu ==> ramEma == old(ramEma)
      ensures s == Ram ==> cpuEma == old(cpuEma)
      ensures rows == old(rows) && netPrev == old(netPrev) && netPeakBps == old(netPeakBps)
      ensures visibleNames == old(visibleNames) && isRendering == old(isRendering) && cache == old(cache)
    {
      if !value.Finite? {
        return 0.0;
      }
      var table := if s == Cpu then cpuEma else ramEma;
      var prev := if name in table then Some(table[name]) else None;
      next := if prev.None? then value.x else Alpha * value.x + (1.0 - Alpha) * prev.value;
      if s == Cpu {
        cpuEma := cpuEma[name := next];
      } else {
        ramEma := ramEma[name := next];
      }
    }

    /** `computeNetRate(name, m)` at time `now`: the sample is always overwritten. */
    method ComputeNetRate(name: string, m: Meta, now: int) returns (rate: NetRate)
      modifies this
      ensures netPrev == old(netPrev)[name := SampleOf(m, now)]
      ensures rate == NetRateOf(Get(old(netPrev), name), SampleOf(m, now))
      ensures netPeakBps == PeakAfter(Get(old(netPrev), name), SampleOf(m, now), old(netPeakBps))
      ensures rows == old(rows) && cpuEma == old(cpuEma) && ramEma == old(ramEma)
      ensures visibleNames == old(visibleNames) && isRendering == old(isRendering) && cache == old(cache)
    {
      var rx := m.netRx.GetOr(0.0);
      var tx := m.netTx.GetOr(0.0);
      var prev := Get(netPrev, name);
      netPrev := netPrev[name := NetSample(now, rx, tx)];
      if prev.None? || prev.value.t == 0 {
        return ZeroRate;
      }
      var dt := (now - prev.value.t) as real / 1000.0;
      if dt <= 0.0 {
        return ZeroRate;
      }
      var rxps := Max(0.0, (rx - prev.value.rx) / dt);
      var txps := Max(0.0, (tx - prev.value.tx) / dt);
      var sum := rxps + txps;
      netPeakBps := Max(Max(netPeakBps, sum * 1.2), PeakFloor);
      rate := NetRate(rxps, txps, dt);
    }

    /** `renderResourcesCell` on the row of `name`. */
    method RenderResourcesCell(name: string, m: Meta, now: int)
      requires name in rows
      modifies this
      ensures View() == MetricsCell(old(View()), name, m, now)
    {
      var cpuBar: Option<real> := None;
      if m.cpu.Some? {
        var raw := ClampPct(Finite(m.cpu.value));
        var smoothed := EmaUpdate(Cpu, name, Finite(raw));
        cpuBar := Some(ClampPct(Finite(smoothed)));
      }
      assert (cpuEma, cpuBar) == CpuPart(old(cpuEma), name, m);
      var ramBar: Option<real> := None;
      if m.memUsage.Some? && m.memLimit.Some? && m.memLimit.value > 0.0 {
        var raw := ClampPct(Finite(m.memUsage.value / m.memLimit.value * 100.0));
        var smoothed := EmaUpdate(Ram, name, Finite(raw));
        ramBar := Some(ClampPct(Finite(smoothed)));
      }
      assert (ramEma, ramBar) == RamPart(old(ramEma), name, m);
      var netBar: Option<NetBar> := None;
      if name != "" {
        var rate := ComputeNetRate(name, m, now);
        var scale := Max(netPeakBps, 1.0);
        var pct := ClampPct(Finite((rate.rxps + rate.txps) / scale * 100.0));
        netBar := Some(NetBar(pct, rate.rxps, rate.txps));
      }
      assert (netPrev, netPeakBps, netBar) == NetPart(old(netPrev), old(netPeakBps), name, m, now);
      rows := rows[name := rows[name].(res := Metrics(m.state, StateClass(m.state), cpuBar, ramBar, netBar))];
    }

    /** `fetchMetricsOne(name)` with the outcome of its request. */
    method FetchMetricsOne(name: string, reply: MetricsReply, now: int)
      modifies this
      ensures View() == MetricsOne(old(View()), name, reply, now)
    {
      if reply.NoReply? {
        return;
      }
      if name !in rows {
        return;
      }
      var m := reply.meta.GetOr(EmptyMeta);
      RenderResourcesCell(name, m, now);
    }

    /** The refresh button's handler of row `name`, with the outcome of its request. */
    method RefreshRow(name: string, r: RowRefresh, now: int)
      requires name in rows
      modifies this
      ensures View() == AfterRefresh(old(View()), name, r, now)
    {
      rows := rows[name := rows[name].(res := Skeleton)];
      match r {
        case RefreshFailed =>
        case RefreshReply(st, meta) =>
          var m := meta.GetOr(EmptyMeta);
          var s := st.GetOr("");
          RenderResourcesCell(name, m, now);
          rows := rows[name := rows[name].(status := StatusTag(s, TagTone(s)), link := RepoLink(m.image), linkText := RepoLabel(m.image))];
      }
    }

    /**
     * `fillVisibleMetricsLazily()`: the visible names in rounds of six, each
     * name's reply taken from `replies`; returns the rounds it made.
     */
    method FillVisibleMetricsLazily(replies: string -> MetricsReply, now: int) returns (rounds: seq<seq<string>>)
      modifies this
      ensures rounds == Chunks(old(visibleNames), ChunkSize)
      ensures View() == MetricsAll(old(View()), old(visibleNames), replies, now)
    {
      var batch := visibleNames;
      ghost var start := View();
      rounds := [];
      var i := 0;
      while i < |batch|
        invariant i <= |batch| + ChunkSize
        invariant i >= |batch| ==> i - ChunkSize < |batch| || batch == []
        invariant rounds + Chunks(batch[Lesser(i, |batch|)..], ChunkSize) == Chunks(batch, ChunkSize)
        invariant View() == MetricsAll(start, batch[..Lesser(i, |batch|)], replies, now)
        decreases |batch| - i
      {
        var end := Lesser(i + ChunkSize, |batch|);
        var chunk := batch[i..end];
        FetchRound(chunk, replies, now);
        MetricsAllAdvance(start, batch, i, end, replies, now);
        ChunksAdvance(batch, rounds, i);
        rounds := rounds + [chunk];
        i := i + ChunkSize;
      }
      assert batch[..|batch|] == batch;
    }

    /** One round of `fillVisibleMetricsLazily`: `fetchMetricsOne` for each name of `chunk`, in order. */
    method FetchRound(chunk: seq<string>, replies: string -> MetricsReply, now: int)
      modifies this
      ensures View() == MetricsAll(old(View()), chunk, replies, now)
    {
      ghost var before := View();
      var k := 0;
      while k < |chunk|
        invariant 0 <= k <= |chunk|
        invariant View() == MetricsAll(before, chunk[..k], replies, now)
      {
        FetchMetricsOne(chunk[k], replies(chunk[k]), now);
        assert chunk[..k + 1][..k] == chunk[..k];
        k := k + 1;
      }
      assert chunk[..k] == chunk;
    }

    /** An IntersectionObserver entry for the row of `name`. */
    method OnIntersection(name: string, entering: bool)
      modifies this
      ensures View() == Intersect(old(View()), name, entering)
    {
      if name == "" {
        return;
      }
      if entering {
        if name !in visibleNames {
          visibleNames := visibleNames + [name];
        }
      } else {
        visibleNames := Without(visibleNames, {name});
      }
    }

    /** `applyData(data, {pending})`: delete the rows of vanished names with their state, then reconcile every listed name. */
    method ApplyData(data: Snapshot, pending: bool)
      modifies this
      ensures View() == AfterApply(old(View()), data, pending)
    {
      if data.status != "ok" {
        return;
      }
      ghost var start := View();
      var gone := rows.Keys - data.updates.Keys;
      Purge(gone);
      Reconcile(data, pending);
      forall n | n in data.updates
        ensures Get(start.rows - gone, n) == Get(start.rows, n)
      {
      }
      assert ApplyRows(start.rows - gone, data, pending) == ApplyRows(start.rows, data, pending);
    }

    /** The first loop of `applyData`: each vanished row is removed with its averages, sample and visibility. */
    method Purge(gone: set<string>)
      modifies this
      ensures rows == old(rows) - gone
      ensures cpuEma == old(cpuEma) - gone && ramEma == old(ramEma) - gone
      ensures netPrev == old(netPrev) - gone
      ensures visibleNames == Without(old(visibleNames), gone)
      ensures netPeakBps == old(netPeakBps) && isRendering == old(isRendering) && cache == old(cache)
    {
      ghost var start := View();
      var todo := gone;
      ghost var done: set<string> := {};
      WithoutNothing(visibleNames);
      while todo != {}
        invariant todo <= gone && done == gone - todo
        invariant rows == start.rows - done
        invariant cpuEma == start.cpuEma - done && ramEma == start.ramEma - done
        invariant netPrev == start.netPrev - done
        invariant visibleNames == Without(start.visible, done)
        invariant netPeakBps == start.peak && isRendering == start.rendering && cache == start.cache
        decreases todo
      {
        var name :| name in todo;
        Forget(name);
        WithoutStep(start.visible, done, name);
        todo := todo - {name};
        done := done + {name};
      }
      assert done == gone;
    }

    /** Removing one row: `tbody.removeChild(row)` and the four deletes that follow it. */
    method Forget(name: string)
      modifies this
      ensures rows == old(rows) - {name}
      ensures cpuEma == old(cpuEma) - {name} && ramEma == old(ramEma) - {name}
      ensures netPrev == old(netPrev) - {name}
      ensures visibleNames == Without(old(visibleNames), {name})
      ensures netPeakBps == old(netPeakBps) && isRendering == old(isRendering) && cache == old(cache)
    {
      rows := rows - {name};
      netPrev := netPrev - {name};
      cpuEma := cpuEma - {name};
      ramEma := ramEma - {name};
      visibleNames := Without(visibleNames, {name});
    }

    /** The second loop of `applyData`: every listed name gets its row, created if missing, then updated. */
    method Reconcile(data: Snapshot, pending: bool)
      requires rows.Keys <= data.updates.Keys
      modifies this
      ensures rows == ApplyRows(old(rows), data, pending)
      ensures cpuEma == old(cpuEma) && ramEma == old(ramEma) && netPrev == old(netPrev)
      ensures visibleNames == old(visibleNames)
      ensures netPeakBps == old(netPeakBps) && isRendering == old(isRendering) && cache == old(cache)
    {
      var kept := rows;
      var r := rows;
      var names := data.updates.Keys;
      ghost var seen: set<string> := {};
      while names != {}
        invariant names !! seen && names + seen == data.updates.Keys
        invariant r.Keys == kept.Keys + seen
        invariant forall n :: n in seen ==>
                    r[n] == ReconcileRow(Get(kept, n), data.updates[n], MetaOf(data, n), pending)
        invariant forall n :: n in kept && n !in seen ==> r[n] == kept[n]
        decreases names
      {
        var name :| name in names;
        var prior := if name in r then Some(r[name]) else None;
        assert prior == Get(kept, name);
        r := r[name := ReconcileRow(prior, data.updates[name], MetaOf(data, name), pending)];
        names := names - {name};
        seen := seen + {name};
      }
      assert seen == data.updates.Keys;
      forall n | n in r
        ensures r[n] == ApplyRows(kept, data, pending)[n]
      {
      }
      rows := r;
    }

    /** Entering `render(force, showLoading)`; `started` is false when a render is already running. */
    method BeginRender(showLoading: bool) returns (started: bool)
      modifies this
      ensures started == !old(isRendering)
      ensures View() == AfterBegin(old(View()), showLoading)
    {
      if isRendering {
        return false;
      }
      isRendering := true;
      started := true;
      if showLoading {
        var todo := rows.Keys;
        ghost var start := rows;
        while todo != {}
          invariant todo <= start.Keys && rows.Keys == start.Keys
          invariant forall n :: n in start && n !in todo ==> rows[n] == start[n].(status := PendingTag, res := Skeleton)
          invariant forall n :: n in todo ==> rows[n] == start[n]
          invariant View() == old(View()).(rendering := true, rows := rows)
          decreases todo
        {
          var name :| name in todo;
          rows := rows[name := rows[name].(status := PendingTag, res := Skeleton)];
          todo := todo - {name};
        }
        assert rows == AllPending(start);
      }
    }

    /** Leaving `render` with the outcome of its `/status` request. */
    method FinishRender(outcome: StatusFetch)
      modifies this
      ensures View() == AfterFinish(old(View()), outcome)
    {
      match outcome {
        case Fetched(data) =>
          if data.status == "ok" {
            cache := Some(data);
            ApplyData(data, false);
          }
        case FetchFailed =>
          if cache.Some? && cache.value.status == "ok" {
            ApplyData(cache.value, true);
          }
      }
      isRendering := false;
    }

    /** `render(force, showLoading)`, not interleaved with another call. */
    method Render(showLoading: bool, outcome: StatusFetch)
      modifies this
      ensures View() == AfterRender(old(View()), showLoading, outcome)
    {
      var started := BeginRender(showLoading);
      if started {
        FinishRender(outcome);
      }
    }
  }

  function Lesser(a: int, b: int): int {
    if a <= b then a else b
  }
}
