/**
 * The single forward pass of `main` in src/main.rs: every parsed line updates
 * the observed span, then lines outside the optional trailing window, lines
 * without the `mining` tag and lines without a `submitted by ` marker are
 * dropped, and the rest count one share for the worker named after the last
 * marker.  After the pass comes the "not enough data" check and the
 * averaging span.
 *
 * The reference functions (Entries, Times, Keys, FirstSeen, LastSeen, Tally,
 * Summarize) state what the pass computes; the Aggregator class is the pass
 * itself, proved against them.
 */
module ShareStats {

  import opened Wrappers
  import opened Text
  import opened LogTimestamp

  /** The tag that marks the mining subsystem's messages. */
  const SUBSYSTEM_TAG := "mining"

  /** The marker in front of the worker's name in a share report. */
  const MARKER := "submitted by "

  function Min(a: int, b: int): int {
    if a <= b then a else b
  }

  // ----- the window -----

  /** `ts_now - Duration::minutes(m)`, when a window of `m` minutes is asked for. */
  function Cutoff(now: Instant, window: Option<int>): (r: Option<Instant>)
    ensures r.Some? <==> window.Some?
    ensures r.Some? ==> now - r.value == window.value * NANOS_PER_MINUTE
  {
    match window
    case None => None
    case Some(m) => Some(now - m * NANOS_PER_MINUTE)
  }

  /** The window filter: there is no cutoff, or the entry is not older than it. */
  predicate InWindow(cutoff: Option<Instant>, t: Instant): (b: bool)
    ensures cutoff.None? ==> b
    ensures cutoff.Some? ==> (b <==> cutoff.value <= t)
  {
    cutoff.None? || t >= cutoff.value
  }

  /** An entry is in the window exactly when it is at most the window's length older than `now`. */
  lemma WindowAge(now: Instant, window: Option<int>, t: Instant)
    ensures InWindow(Cutoff(now, window), t) <==> window.None? || now - t <= window.value * NANOS_PER_MINUTE
  {
  }

  // ----- the event filter -----

  /**
   * The worker a message reports a share for: the message must contain the
   * tag and the marker, and the worker is the text after the LAST marker,
   * trimmed.
   */
  function WorkerKey(message: string): (r: Option<string>)
    ensures r.Some? <==> Contains(message, SUBSYSTEM_TAG) && Contains(message, MARKER)
  {
    if !Contains(message, SUBSYSTEM_TAG) then None
    else
      match LastIndexOf(message, MARKER)
      case None => None
      case Some(p) => Some(Trim(message[p + |MARKER|..]))
  }

  /** The worker an entry counts a share for, if it passes the window, tag and marker filters. */
  function Contribution(e: Entry, cutoff: Option<Instant>): (r: Option<string>)
    ensures r.Some? <==>
      InWindow(cutoff, e.at) && Contains(e.message, SUBSYSTEM_TAG) && Contains(e.message, MARKER)
    ensures r.Some? ==> r == WorkerKey(e.message)
  {
    if InWindow(cutoff, e.at) then WorkerKey(e.message) else None
  }

  // ----- what the pass computes -----

  /** The entry of one line, if it parses. */
  function Parsed(line: string): seq<Entry> {
    match ParseLogTimestamp(line)
    case None => []
    case Some(e) => [e]
  }

  /** `filter_map(parse_log_timestamp)`: the entries of the lines that parse, in order. */
  function Entries(lines: seq<string>): seq<Entry> {
    if lines == [] then [] else Entries(lines[..|lines| - 1]) + Parsed(lines[|lines| - 1])
  }

  /** The timestamps of the entries, in stream order. */
  function Times(es: seq<Entry>): seq<Instant> {
    if es == [] then [] else Times(es[..|es| - 1]) + [es[|es| - 1].at]
  }

  /** The workers that the contributing entries name, in stream order. */
  function Keys(es: seq<Entry>, cutoff: Option<Instant>): seq<string> {
    if es == [] then []
    else
      var rest := Keys(es[..|es| - 1], cutoff);
      match Contribution(es[|es| - 1], cutoff)
      case None => rest
      case Some(k) => rest + [k]
  }

  /** `ts_first_log` after observing `ts`: each observation takes the minimum. */
  function FirstSeen(init: Instant, ts: seq<Instant>): Instant {
    if ts == [] then init else Min(FirstSeen(init, ts[..|ts| - 1]), ts[|ts| - 1])
  }

  /** `ts_last_log` after observing `ts`: each observation overwrites it. */
  function LastSeen(init: Instant, ts: seq<Instant>): Instant {
    if ts == [] then init else ts[|ts| - 1]
  }

  /** The count of a worker, zero when it has none (`or_insert(0)`). */
  function Get(m: map<string, nat>, k: string): nat {
    if k in m then m[k] else 0
  }

  /** `*worker_stats.entry(k).or_insert(0) += 1`. */
  function Increment(m: map<string, nat>, k: string): (r: map<string, nat>)
    ensures r.Keys == m.Keys + {k}
    ensures Get(r, k) == Get(m, k) + 1
    ensures forall j :: j != k ==> Get(r, j) == Get(m, j)
  {
    m[k := Get(m, k) + 1]
  }

  /** The counts after recording `keys` one after the other. */
  function Tally(m: map<string, nat>, keys: seq<string>): map<string, nat> {
    if keys == [] then m else Increment(Tally(m, keys[..|keys| - 1]), keys[|keys| - 1])
  }

  /** How often `k` occurs in `keys`. */
  function Occurrences(keys: seq<string>, k: string): nat {
    if keys == [] then 0
    else Occurrences(keys[..|keys| - 1], k) + (if keys[|keys| - 1] == k then 1 else 0)
  }

  /** The sum of all counts. */
  ghost function Total(m: map<string, nat>): nat
    decreases |m|
  {
    if m == map[] then 0
    else
      var k :| k in m;
      m[k] + Total(m - {k})
  }

  // ----- the outcome -----

  /** How a run ends: the insufficient-data message, or one report line per worker. */
  datatype Outcome =
    | NotEnoughData(haveMinutes: int, needMinutes: int)
    | Report(spanNanos: int, shares: map<string, nat>)

  /** Integer division truncating toward zero, as Rust's `/` on `i64`. */
  function TruncDiv(a: int, b: nat): int
    requires b > 0
  {
    if a >= 0 then a / b else -((-a) / b)
  }

  /** `Duration::num_minutes`: whole seconds, then whole minutes, each truncated toward zero. */
  function WholeMinutes(nanos: int): (m: int)
    ensures nanos >= 0 ==> 0 <= m && m * NANOS_PER_MINUTE <= nanos < (m + 1) * NANOS_PER_MINUTE
    ensures nanos < 0 ==> m <= 0 && (m - 1) * NANOS_PER_MINUTE < nanos <= m * NANOS_PER_MINUTE
  {
    SecondsThenMinutes(if nanos >= 0 then nanos else -nanos);
    TruncDiv(TruncDiv(nanos, NANOS_PER_SECOND), 60)
  }

  /** Whole seconds, then whole minutes, are whole minutes. */
  lemma SecondsThenMinutes(n: nat)
    ensures n / NANOS_PER_SECOND / 60 == n / NANOS_PER_MINUTE
  {
    var q, r := n / NANOS_PER_SECOND, n % NANOS_PER_SECOND;
    var q2, r2 := q / 60, q % 60;
    assert n == q2 * NANOS_PER_MINUTE + (r2 * NANOS_PER_SECOND + r);
    assert 0 <= r2 * NANOS_PER_SECOND + r < NANOS_PER_MINUTE;
  }

  /**
   * The post-pass checks as src/main.rs writes them: with a window `d` of `m`
   * minutes and a span of at most `d`, the message prints `d.num_minutes()`
   * in both of its slots; otherwise the report averages over the span from
   * the cutoff (or the first observation) to the last observation.
   */
  function ConcludeAsWritten(window: Option<int>, cutoff: Option<Instant>, first: Instant, last: Instant,
                             counts: map<string, nat>): (o: Outcome)
    ensures o.NotEnoughData? <==> window.Some? && last - first <= window.value * NANOS_PER_MINUTE
    ensures o.NotEnoughData? ==> o.haveMinutes == window.value && o.needMinutes == window.value
    ensures o.Report? ==> o.shares == counts && o.spanNanos == last - (if cutoff.Some? then cutoff.value else first)
  {
    if window.Some? && last - first <= window.value * NANOS_PER_MINUTE then
      var d := window.value * NANOS_PER_MINUTE;
      WholeMinutesExact(window.value);
      NotEnoughData(WholeMinutes(d), WholeMinutes(d))
    else
      Report(last - (if cutoff.Some? then cutoff.value else first), counts)
  }

  /**
   * The post-pass checks with the message reporting the minutes of data
   * actually available, `log_duration.num_minutes()`, which never exceed the
   * minutes needed.
   */
  function Conclude(window: Option<int>, cutoff: Option<Instant>, first: Instant, last: Instant,
                    counts: map<string, nat>): (o: Outcome)
    ensures o.NotEnoughData? <==> window.Some? && last - first <= window.value * NANOS_PER_MINUTE
    ensures o.NotEnoughData? ==>
      o.haveMinutes == WholeMinutes(last - first) && o.needMinutes == window.value && o.haveMinutes <= o.needMinutes
  {
    if window.Some? && last - first <= window.value * NANOS_PER_MINUTE then
      WholeMinutesBound(last - first, window.value);
      NotEnoughData(WholeMinutes(last - first), WholeMinutes(window.value * NANOS_PER_MINUTE))
    else
      Report(last - (if cutoff.Some? then cutoff.value else first), counts)
  }

  /**
   * The whole run over `lines`: `now` is the clock reading the cutoff is
   * computed from, `clockFirst` and `clockLast` those that initialise the span.
   * It ends with not enough data exactly when a window of `m` minutes was
   * asked for and the observed span is at most `m` minutes, and the message
   * then prints `m` twice.
   */
  function Summarize(now: Instant, window: Option<int>, clockFirst: Instant, clockLast: Instant,
                     lines: seq<string>): (o: Outcome)
    ensures var ts := Times(Entries(lines));
      o.NotEnoughData? <==>
        window.Some? && LastSeen(clockLast, ts) - FirstSeen(clockFirst, ts) <= window.value * NANOS_PER_MINUTE
    ensures o.NotEnoughData? ==> o.haveMinutes == window.value && o.needMinutes == window.value
  {
    var es := Entries(lines);
    var cutoff := Cutoff(now, window);
    ConcludeAsWritten(window, cutoff, FirstSeen(clockFirst, Times(es)), LastSeen(clockLast, Times(es)),
                      Tally(map[], Keys(es, cutoff)))
  }

  // ----- the pass itself -----

  /**
   * What feeding one line does to the state (`first`, `last`, `counts`): a line
   * that does not parse changes nothing; a parsed one always updates the
   * span, and counts a share only when it passes the window, tag and marker
   * filters.
   */
  predicate Fed(line: string, cutoff: Option<Instant>,
                first0: Instant, last0: Instant, counts0: map<string, nat>,
                first1: Instant, last1: Instant, counts1: map<string, nat>)
  {
    match ParseLogTimestamp(line)
    case None => first1 == first0 && last1 == last0 && counts1 == counts0
    case Some(e) =>
      first1 == Min(first0, e.at) && last1 == e.at
      && counts1 == match Contribution(e, cutoff)
                    case None => counts0
                    case Some(k) => Increment(counts0, k)
  }

  /** The state of the pass: the span seen so far and the per-worker share counts. */
  class Aggregator {
    const window: Option<int>
    const cutoff: Option<Instant>
    var first: Instant
    var last: Instant
    var counts: map<string, nat>

    constructor (now: Instant, window: Option<int>, clockFirst: Instant, clockLast: Instant)
      ensures this.window == window && cutoff == Cutoff(now, window)
      ensures first == clockFirst && last == clockLast && counts == map[]
    {
      this.window := window;
      cutoff := Cutoff(now, window);
      first, last, counts := clockFirst, clockLast, map[];
    }

    /** The `inspect` step, run for every parsed entry before any filter. */
    method Observe(t: Instant)
      modifies this
      ensures first == Min(old(first), t) && last == t && counts == old(counts)
    {
      first := Min(first, t);
      last := t;
    }

    /** Counts one share for `worker`. */
    method Record(worker: string)
      modifies this
      ensures counts == Increment(old(counts), worker)
      ensures first == old(first) && last == old(last)
    {
      var shares := if worker in counts then counts[worker] else 0;
      counts := counts[worker := shares + 1];
    }

    /**
     * One line through the pipeline: a line that does not parse changes
     * nothing; a parsed one always updates the span, and counts a share only
     * when it passes the window, tag and marker filters.
     */
    method Feed(line: string)
      modifies this
      ensures Fed(line, cutoff, old(first), old(last), old(counts), first, last, counts)
    {
      var parsed := ParseLogTimestamp(line);
      match parsed
      case None => {}
      case Some(e) =>
        Observe(e.at);
        if InWindow(cutoff, e.at) && Contains(e.message, SUBSYSTEM_TAG) {
          var found := LastIndexOf(e.message, MARKER);
          WorkerKeyFound(e.message);
          match found
          case None => {}
          case Some(pos) =>
            Record(Trim(e.message[pos + |MARKER|..]));
        }
    }

    /** The whole forward pass over `lines`. */
    method Consume(lines: seq<string>)
      modifies this
      ensures first == FirstSeen(old(first), Times(Entries(lines)))
      ensures last == LastSeen(old(last), Times(Entries(lines)))
      ensures counts == Tally(old(counts), Keys(Entries(lines), cutoff))
    {
      var i := 0;
      while i < |lines|
        invariant 0 <= i <= |lines|
        invariant first == FirstSeen(old(first), Times(Entries(lines[..i])))
        invariant last == LastSeen(old(last), Times(Entries(lines[..i])))
        invariant counts == Tally(old(counts), Keys(Entries(lines[..i]), cutoff))
      {
        ghost var first0, last0, counts0 := first, last, counts;
        Feed(lines[i]);
        FedStep(lines, i, cutoff, old(first), old(last), old(counts), first0, last0, counts0, first, last, counts);
        i := i + 1;
      }
      assert lines[..|lines|] == lines;
    }

    /** The checks after the pass, with the message as src/main.rs prints it. */
    method Finish() returns (o: Outcome)
      ensures o == ConcludeAsWritten(window, cutoff, first, last, counts)
    {
      var logDuration := last - first;
      if window.Some? && logDuration <= window.value * NANOS_PER_MINUTE {
        var minutes := WholeMinutes(window.value * NANOS_PER_MINUTE);
        o := NotEnoughData(minutes, minutes);
      } else {
        var start := if cutoff.Some? then cutoff.value else first;
        o := Report(last - start, counts);
      }
    }
  }

  /** A run: set up the state, make the pass, conclude. */
  method Run(now: Instant, window: Option<int>, clockFirst: Instant, clockLast: Instant, lines: seq<string>)
    returns (o: Outcome)
    ensures o == Summarize(now, window, clockFirst, clockLast, lines)
  {
    var aggregator := new Aggregator(now, window, clockFirst, clockLast);
    aggregator.Consume(lines);
    o := aggregator.Finish();
  }

  // ----- lemmas about the pass -----

  /** `WorkerKey` in the terms `Feed` computes it in: `find`, then `rfind`, then `trim`. */
  lemma WorkerKeyFound(message: string)
    requires Contains(message, SUBSYSTEM_TAG)
    ensures WorkerKey(message) ==
      match LastIndexOf(message, MARKER)
      case None => None
      case Some(p) => Some(Trim(message[p + |MARKER|..]))
  {
  }

  /** The worker is the trimmed text after the marker occurrence that no other follows. */
  lemma WorkerAfterLastMarker(message: string, p: nat)
    requires Contains(message, SUBSYSTEM_TAG)
    requires OccursAt(message, MARKER, p)
    requires forall q: nat :: OccursAt(message, MARKER, q) ==> q <= p
    ensures WorkerKey(message) == Some(Trim(message[p + |MARKER|..]))
  {
    assert Contains(message, MARKER);
    var last := LastIndexOf(message, MARKER);
    assert last == Some(p);
  }

  lemma EntriesStep(lines: seq<string>, i: nat)
    requires i < |lines|
    ensures Entries(lines[..i + 1]) == Entries(lines[..i]) + Parsed(lines[i])
  {
    assert lines[..i + 1][..i] == lines[..i];
  }

  /** Appending one entry: one more observation, and at most one more key. */
  lemma SnocStep(es: seq<Entry>, e: Entry, cutoff: Option<Instant>)
    ensures Times(es + [e]) == Times(es) + [e.at]
    ensures Keys(es + [e], cutoff) ==
      match Contribution(e, cutoff)
      case None => Keys(es, cutoff)
      case Some(k) => Keys(es, cutoff) + [k]
  {
    assert (es + [e])[..|es|] == es;
  }

  /** A line that does not parse leaves every reference function as it was. */
  lemma SkipStep(lines: seq<string>, i: nat)
    requires i < |lines| && ParseLogTimestamp(lines[i]).None?
    ensures Entries(lines[..i + 1]) == Entries(lines[..i])
  {
    EntriesStep(lines, i);
  }

  /** A parsed line is one more observation, and at most one more key. */
  lemma ParsedStep(before: seq<Entry>, e: Entry, first0: Instant, last0: Instant,
                   counts0: map<string, nat>, cutoff: Option<Instant>)
    ensures var after := before + [e];
      FirstSeen(first0, Times(after)) == Min(FirstSeen(first0, Times(before)), e.at)
      && LastSeen(last0, Times(after)) == e.at
      && Tally(counts0, Keys(after, cutoff)) ==
           match Contribution(e, cutoff)
           case None => Tally(counts0, Keys(before, cutoff))
           case Some(k) => Increment(Tally(counts0, Keys(before, cutoff)), k)
  {
    SnocStep(before, e, cutoff);
    var ts := Times(before) + [e.at];
    assert ts[..|ts| - 1] == Times(before);
    match Contribution(e, cutoff)
    case None =>
    case Some(k) =>
      var ks := Keys(before, cutoff) + [k];
      assert ks[..|ks| - 1] == Keys(before, cutoff);
  }

  /** Feeding line `i` carries the reference functions from `lines[..i]` to `lines[..i + 1]`. */
  lemma FedStep(lines: seq<string>, i: nat, cutoff: Option<Instant>,
                first0: Instant, last0: Instant, counts0: map<string, nat>,
                firstB: Instant, lastB: Instant, countsB: map<string, nat>,
                firstA: Instant, lastA: Instant, countsA: map<string, nat>)
    requires i < |lines|
    requires firstB == FirstSeen(first0, Times(Entries(lines[..i])))
    requires lastB == LastSeen(last0, Times(Entries(lines[..i])))
    requires countsB == Tally(counts0, Keys(Entries(lines[..i]), cutoff))
    requires Fed(lines[i], cutoff, firstB, lastB, countsB, firstA, lastA, countsA)
    ensures firstA == FirstSeen(first0, Times(Entries(lines[..i + 1])))
    ensures lastA == LastSeen(last0, Times(Entries(lines[..i + 1])))
    ensures countsA == Tally(counts0, Keys(Entries(lines[..i + 1]), cutoff))
  {
    match ParseLogTimestamp(lines[i])
    case None => SkipStep(lines, i);
    case Some(e) =>
      EntriesStep(lines, i);
      ParsedStep(Entries(lines[..i]), e, first0, last0, counts0, cutoff);
  }

  // ----- the span -----

  /**
   * `ts_first_log` ends at the minimum of its initial value and every
   * observed timestamp, and is one of them.
   */
  lemma {:induction false} FirstSeenIsMinimum(init: Instant, ts: seq<Instant>)
    ensures FirstSeen(init, ts) <= init
    ensures forall i :: 0 <= i < |ts| ==> FirstSeen(init, ts) <= ts[i]
    ensures FirstSeen(init, ts) == init || exists i :: 0 <= i < |ts| && FirstSeen(init, ts) == ts[i]
  {
    if ts != [] {
      var prefix := ts[..|ts| - 1];
      FirstSeenIsMinimum(init, prefix);
      assert forall i :: 0 <= i < |prefix| ==> prefix[i] == ts[i];
    }
  }

  /** Once something has been observed, the span is ordered: `first <= last`. */
  lemma SpanOrdered(clockFirst: Instant, clockLast: Instant, ts: seq<Instant>)
    requires ts != []
    ensures FirstSeen(clockFirst, ts) <= LastSeen(clockLast, ts)
  {
    FirstSeenIsMinimum(clockFirst, ts);
  }

  /** `last` is the latest observation, not the greatest: 10:00, 09:00, 09:30 give 09:00 and 09:30. */
  lemma OutOfOrderSpan(clock: Instant)
    requires clock >= 36_000 * NANOS_PER_SECOND
    ensures var ts := [36_000 * NANOS_PER_SECOND, 32_400 * NANOS_PER_SECOND, 34_200 * NANOS_PER_SECOND];
      FirstSeen(clock, ts) == 32_400 * NANOS_PER_SECOND && LastSeen(clock, ts) == 34_200 * NANOS_PER_SECOND
  {
    var ts := [36_000 * NANOS_PER_SECOND, 32_400 * NANOS_PER_SECOND, 34_200 * NANOS_PER_SECOND];
    assert ts[..2] == [36_000 * NANOS_PER_SECOND, 32_400 * NANOS_PER_SECOND];
    assert ts[..2][..1] == [36_000 * NANOS_PER_SECOND];
    assert ts[..2][..1][..0] == [];
    assert FirstSeen(clock, ts[..2][..1]) == 36_000 * NANOS_PER_SECOND;
    assert FirstSeen(clock, ts[..2]) == 32_400 * NANOS_PER_SECOND;
  }

  lemma {:induction false} TimesAt(es: seq<Entry>)
    ensures |Times(es)| == |es|
    ensures forall i :: 0 <= i < |es| ==> Times(es)[i] == es[i].at
  {
    if es != [] {
      TimesAt(es[..|es| - 1]);
    }
  }

  /**
   * The span covers every parsed entry, whether or not it later passed the
   * window, tag and marker filters.
   */
  lemma SpanSeesAllParsed(lines: seq<string>, clockFirst: Instant, clockLast: Instant)
    ensures var es := Entries(lines);
      forall i :: 0 <= i < |es| ==> FirstSeen(clockFirst, Times(es)) <= es[i].at
    ensures var es := Entries(lines);
      es != [] ==> LastSeen(clockLast, Times(es)) == es[|es| - 1].at
  {
    var es := Entries(lines);
    TimesAt(es);
    FirstSeenIsMinimum(clockFirst, Times(es));
  }

  /**
   * A line that parses but is filtered out still extends the span, and leaves
   * the keys as they were; a line that does not parse adds no entry at all.
   */
  lemma FilteredLineOnlySpans(lines: seq<string>, line: string, cutoff: Option<Instant>)
    ensures ParseLogTimestamp(line).None? ==> Entries(lines + [line]) == Entries(lines)
    ensures ParseLogTimestamp(line).Some? ==>
      var e := ParseLogTimestamp(line).value;
      Times(Entries(lines + [line])) == Times(Entries(lines)) + [e.at]
      && (Contribution(e, cutoff).None? ==> Keys(Entries(lines + [line]), cutoff) == Keys(Entries(lines), cutoff))
  {
    var all := lines + [line];
    assert all[..|all| - 1] == lines;
    if ParseLogTimestamp(line).Some? {
      SnocStep(Entries(lines), ParseLogTimestamp(line).value, cutoff);
    }
  }

  // ----- the counts -----

  /** Each count is the number of times its worker was recorded, on top of the initial count. */
  lemma {:induction false} TallyCounts(m: map<string, nat>, keys: seq<string>)
    ensures forall k :: Get(Tally(m, keys), k) == Get(m, k) + Occurrences(keys, k)
    ensures Tally(m, keys).Keys == m.Keys + (set i | 0 <= i < |keys| :: keys[i])
  {
    if keys != [] {
      var prefix := keys[..|keys| - 1];
      TallyCounts(m, prefix);
      var all := set i | 0 <= i < |keys| :: keys[i];
      var before := set i | 0 <= i < |prefix| :: prefix[i];
      assert all == before + {keys[|keys| - 1]} by {
        forall x | x in all ensures x in before + {keys[|keys| - 1]} {
          var i :| 0 <= i < |keys| && keys[i] == x;
          if i < |prefix| { assert prefix[i] == x; }
        }
        forall x | x in before ensures x in all {
          var i :| 0 <= i < |prefix| && prefix[i] == x;
          assert keys[i] == x;
        }
      }
    }
  }

  lemma {:induction false} TotalRemove(m: map<string, nat>, k: string)
    requires k in m
    ensures Total(m) == m[k] + Total(m - {k})
    decreases |m|
  {
    var j :| j in m && Total(m) == m[j] + Total(m - {j});
    if j != k {
      assert (m - {j}).Keys == m.Keys - {j} && (m - {k}).Keys == m.Keys - {k};
      TotalRemove(m - {j}, k);
      TotalRemove(m - {k}, j);
      assert m - {j} - {k} == m - {k} - {j};
    }
  }

  /** Counting one share raises the total by exactly one. */
  lemma TotalIncrement(m: map<string, nat>, k: string)
    ensures Total(Increment(m, k)) == Total(m) + 1
  {
    var r := Increment(m, k);
    TotalRemove(r, k);
    if k in m {
      TotalRemove(m, k);
      assert r - {k} == m - {k};
    } else {
      assert r - {k} == m;
    }
  }

  /** The counts grow by exactly the number of recorded shares. */
  lemma {:induction false} TallyTotal(m: map<string, nat>, keys: seq<string>)
    ensures Total(Tally(m, keys)) == Total(m) + |keys|
  {
    if keys != [] {
      TallyTotal(m, keys[..|keys| - 1]);
      TotalIncrement(Tally(m, keys[..|keys| - 1]), keys[|keys| - 1]);
    }
  }

  /** Recording alice three times and bob once gives {alice: 3, bob: 1}. */
  lemma TallyExample()
    ensures Tally(map[], ["alice", "alice", "bob", "alice"]) == map["alice" := 3, "bob" := 1]
  {
    var keys := ["alice", "alice", "bob", "alice"];
    assert keys[..3] == ["alice", "alice", "bob"];
    assert keys[..3][..2] == ["alice", "alice"];
    assert keys[..3][..2][..1] == ["alice"];
    assert keys[..3][..2][..1][..0] == [];
    assert Tally(map[], keys[..3][..2][..1]) == map["alice" := 1];
    assert Tally(map[], keys[..3][..2]) == map["alice" := 2];
    assert Tally(map[], keys[..3]) == map["alice" := 2, "bob" := 1];
  }

  /** Of two markers, the last one names the worker. */
  lemma LastMarkerWins()
    ensures WorkerKey(SUBSYSTEM_TAG + " " + MARKER + "a " + MARKER + "b") == Some("b")
  {
    var m := SUBSYSTEM_TAG + " " + MARKER + "a " + MARKER + "b";
    assert m[0..6] == SUBSYSTEM_TAG;
    assert m[22..35] == MARKER;
    assert OccursAt(m, SUBSYSTEM_TAG, 0);
    assert OccursAt(m, MARKER, 22);
    assert forall q: nat :: OccursAt(m, MARKER, q) ==> q <= 22 by {
      forall q: nat | 22 < q ensures !OccursAt(m, MARKER, q) {
        if q + |MARKER| <= |m| {
          assert q == 23;
          assert m[q..q + |MARKER|][0] == m[23] == 'u';
        }
      }
    }
    assert m[22 + |MARKER|..] == "b";
    WorkerAfterLastMarker(m, 22);
    TrimUntouched("b");
  }

  lemma {:induction false} KeysWithoutTag(es: seq<Entry>, cutoff: Option<Instant>)
    requires forall i :: 0 <= i < |es| ==> !Contains(es[i].message, SUBSYSTEM_TAG)
    ensures Keys(es, cutoff) == []
  {
    if es != [] {
      KeysWithoutTag(es[..|es| - 1], cutoff);
    }
  }

  // ----- the outcome -----

  /** A whole number of minutes is reported as itself (`Duration::minutes(m).num_minutes() == m`). */
  lemma WholeMinutesExact(m: int)
    ensures WholeMinutes(m * NANOS_PER_MINUTE) == m
  {
  }

  /** A span of at most `m` minutes is reported as at most `m` whole minutes. */
  lemma WholeMinutesBound(nanos: int, m: int)
    requires nanos <= m * NANOS_PER_MINUTE
    ensures WholeMinutes(nanos) <= m
  {
    var seconds := TruncDiv(nanos, NANOS_PER_SECOND);
    if nanos >= 0 {
      assert seconds <= m * 60;
    } else if m < 0 {
      assert -nanos >= -m * NANOS_PER_MINUTE;
      assert (-nanos) / NANOS_PER_SECOND >= -m * 60;
      assert (-seconds) / 60 >= -m;
    }
  }

  /**
   * A 60-minute window over a log that spans 10 minutes: as written the
   * message claims 60 minutes of data; corrected it says 10.
   */
  lemma ConcludeMisreportsAvailable(counts: map<string, nat>)
    ensures ConcludeAsWritten(Some(60), Some(0), 0, 10 * NANOS_PER_MINUTE, counts) == NotEnoughData(60, 60)
    ensures Conclude(Some(60), Some(0), 0, 10 * NANOS_PER_MINUTE, counts) == NotEnoughData(10, 60)
  {
    WholeMinutesExact(10);
  }

  /**
   * The corrected message differs from the one as written only in the minutes
   * it says are available: same branch, same minutes needed, same report.
   */
  lemma ConcludeReportsAvailable(window: Option<int>, cutoff: Option<Instant>, first: Instant,
                                 last: Instant, counts: map<string, nat>)
    ensures var o, w := Conclude(window, cutoff, first, last, counts), ConcludeAsWritten(window, cutoff, first, last, counts);
      o.NotEnoughData? == w.NotEnoughData? && (o.Report? ==> o == w)
      && (o.NotEnoughData? ==> o.needMinutes == w.needMinutes && o.haveMinutes == WholeMinutes(last - first))
  {
  }

  /**
   * Otherwise every worker with a contributing entry is reported with the
   * number of its contributing entries, the counts add up to the number of
   * contributing entries, and the averaging span runs from the cutoff (or,
   * without a window, from the first observation) to the last observation.
   */
  lemma SummaryReport(now: Instant, window: Option<int>, clockFirst: Instant, clockLast: Instant,
                      lines: seq<string>)
    ensures var es := Entries(lines);
      var keys := Keys(es, Cutoff(now, window));
      var first, last := FirstSeen(clockFirst, Times(es)), LastSeen(clockLast, Times(es));
      var o := Summarize(now, window, clockFirst, clockLast, lines);
      o.Report? ==>
        (forall k :: Get(o.shares, k) == Occurrences(keys, k))
        && o.shares.Keys == (set i | 0 <= i < |keys| :: keys[i])
        && Total(o.shares) == |keys|
        && o.spanNanos == last - (if window.Some? then now - window.value * NANOS_PER_MINUTE else first)
  {
    var es := Entries(lines);
    var cutoff := Cutoff(now, window);
    var keys := Keys(es, cutoff);
    var first, last := FirstSeen(clockFirst, Times(es)), LastSeen(clockLast, Times(es));
    assert Summarize(now, window, clockFirst, clockLast, lines)
      == ConcludeAsWritten(window, cutoff, first, last, Tally(map[], keys));
    TallyCounts(map[], keys);
    TallyTotal(map[], keys);
  }

  /** Without a window and without tagged lines, the report is empty. */
  lemma NoTaggedLines(now: Instant, clockFirst: Instant, clockLast: Instant, lines: seq<string>)
    requires forall i :: 0 <= i < |Entries(lines)| ==> !Contains(Entries(lines)[i].message, SUBSYSTEM_TAG)
    ensures var ts := Times(Entries(lines));
      Summarize(now, None, clockFirst, clockLast, lines)
        == Report(LastSeen(clockLast, ts) - FirstSeen(clockFirst, ts), map[])
  {
    var es := Entries(lines);
    var ts := Times(es);
    KeysWithoutTag(es, None);
    assert Summarize(now, None, clockFirst, clockLast, lines)
      == ConcludeAsWritten(None, None, FirstSeen(clockFirst, ts), LastSeen(clockLast, ts), Tally(map[], Keys(es, None)));
  }

  /**
   * With no parsed line the span is that of the two clock readings, so a
   * window of `m` minutes reports not enough data when those readings
   * are at most `m` minutes apart.
   */
  lemma EmptyLogSpan(now: Instant, m: int, clockFirst: Instant, clockLast: Instant, lines: seq<string>)
    requires Entries(lines) == []
    requires clockLast - clockFirst <= m * NANOS_PER_MINUTE
    ensures Summarize(now, Some(m), clockFirst, clockLast, lines).NotEnoughData?
  {
  }
}
