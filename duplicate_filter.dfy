/** The logging filter that lets each of a few frequent warnings through a
    limited number of times, announces once that it is suppressing it, and
    drops it after that. */
module WarningFilter {
  import opened Wrappers

  /** How many matching warnings are counted before suppression starts. */
  const FilterWarningsLimit: nat := 30

  /** The message prefixes whose warnings are rate-limited, in order. */
  const FilterWarnings: seq<string> :=
    ["Skipped atom during water optimization", "The best donorH was not picked"]

  /** The level name of a warning record. */
  const Warning: string := "WARNING"

  /** A log record: its level name and its formatted message. */
  datatype LogRecord = LogRecord(levelname: string, message: string)

  predicate StartsWith(s: string, prefix: string)
  {
    |prefix| <= |s| && s[..|prefix|] == prefix
  }

  /** The index of the first prefix in `prefixes` that `msg` starts with. */
  function FirstPrefix(msg: string, prefixes: seq<string>): (r: Option<nat>)
    ensures r.None? ==> forall i :: 0 <= i < |prefixes| ==> !StartsWith(msg, prefixes[i])
    ensures r.Some? ==> r.value < |prefixes| && StartsWith(msg, prefixes[r.value])
    ensures r.Some? ==> forall i :: 0 <= i < r.value ==> !StartsWith(msg, prefixes[i])
    decreases |prefixes|
  {
    if prefixes == [] then None
    else if StartsWith(msg, prefixes[0]) then Some(0)
    else match FirstPrefix(msg, prefixes[1..])
      case None => None
      case Some(i) => Some(i + 1)
  }

  /** The rate-limited prefix a record counts against, if any: only warnings
      count, and only against the first listed prefix their message starts with. */
  function Hit(record: LogRecord): (p: Option<string>)
    ensures p.Some? ==> record.levelname == Warning && p.value in FilterWarnings
                        && StartsWith(record.message, p.value)
    ensures p.None? ==> record.levelname != Warning
                        || forall w :: w in FilterWarnings ==> !StartsWith(record.message, w)
  {
    if record.levelname != Warning then None
    else match FirstPrefix(record.message, FilterWarnings)
      case None => None
      case Some(i) => Some(FilterWarnings[i])
  }

  /** A `Counter` lookup: a prefix never counted reads as zero. */
  function Count(counts: map<string, nat>, p: string): (n: nat)
  {
    if p in counts then counts[p] else 0
  }

  /** The warning logged when a prefix reaches the limit. */
  function SuppressNotice(p: string): (notice: string)
  {
    "Suppressing further '" + p + "' messages"
  }

  /** What one call of the filter does: the new counts, whether the record
      passes, and the notice it logs, if any. */
  datatype Verdict = Verdict(counts: map<string, nat>, pass: bool, notice: Option<string>)

  function Decide(counts: map<string, nat>, record: LogRecord): (v: Verdict)
    ensures Hit(record).None? ==> v == Verdict(counts, true, None)
    ensures forall p :: Hit(record).None? || p != Hit(record).value ==> Count(v.counts, p) == Count(counts, p)
    ensures Hit(record).Some? ==> Count(v.counts, Hit(record).value) == Count(counts, Hit(record).value) + 1
    ensures v.pass <==> Hit(record).None? || Count(v.counts, Hit(record).value) < FilterWarningsLimit
    ensures v.notice.Some? <==> Hit(record).Some? && Count(v.counts, Hit(record).value) == FilterWarningsLimit
    ensures v.notice.Some? ==> v.notice.value == SuppressNotice(Hit(record).value) && !v.pass
  {
    match Hit(record)
    case None => Verdict(counts, true, None)
    case Some(p) =>
      var n := Count(counts, p) + 1;
      Verdict(counts[p := n], n < FilterWarningsLimit,
              if n == FilterWarningsLimit then Some(SuppressNotice(p)) else None)
  }

  /** A message starts with at most one of the rate-limited prefixes, so which
      of them is tried first does not matter. */
  lemma PrefixesExclusive(msg: string)
    ensures !(StartsWith(msg, FilterWarnings[0]) && StartsWith(msg, FilterWarnings[1]))
  {
    assert FilterWarnings[0][0] == 'S' && FilterWarnings[1][0] == 'T';
    if StartsWith(msg, FilterWarnings[0]) {
      assert msg[0] == msg[..|FilterWarnings[0]|][0] == 'S';
    }
  }

  /** The notice is itself a warning passed through the same filter; it
      matches no prefix, so it passes and leaves the counts alone. */
  lemma NoticePasses(counts: map<string, nat>, p: string)
    requires p in FilterWarnings
    ensures Decide(counts, LogRecord(Warning, SuppressNotice(p))) == Verdict(counts, true, None)
  {
    var m := SuppressNotice(p);
    assert m[0] == 'S' && m[1] == 'u';
    assert FilterWarnings[0][1] == 'k' && FilterWarnings[1][0] == 'T';
    assert |m| >= 2 && |FilterWarnings[0]| >= 2 && |FilterWarnings[1]| >= 1;
  }

  class DuplicateFilter {
    /** How many times each rate-limited prefix has been seen. */
    var warnCount: map<string, nat>

    constructor()
      ensures warnCount == map[]
    {
      warnCount := map[];
    }

    /** Decides whether `record` is logged, returning the suppression notice
        logged on the way, if any. */
    method Filter(record: LogRecord) returns (pass: bool, notice: Option<string>)
      modifies this
      ensures Verdict(warnCount, pass, notice) == Decide(old(warnCount), record)
    {
      if record.levelname == Warning {
        var i := 0;
        while i < |FilterWarnings|
          invariant 0 <= i <= |FilterWarnings|
          invariant warnCount == old(warnCount)
          invariant forall j :: 0 <= j < i ==> !StartsWith(record.message, FilterWarnings[j])
        {
          var fwarn := FilterWarnings[i];
          if StartsWith(record.message, fwarn) {
            assert FirstPrefix(record.message, FilterWarnings) == Some(i);
            warnCount := warnCount[fwarn := Count(warnCount, fwarn) + 1];
            if warnCount[fwarn] > FilterWarningsLimit {
              return false, None;
            } else if warnCount[fwarn] == FilterWarningsLimit {
              return false, Some(SuppressNotice(fwarn));
            } else {
              return true, None;
            }
          }
          i := i + 1;
        }
      }
      return true, None;
    }
  }

  /** The effect of filtering a sequence of records, one verdict per record. */
  datatype Outcome = Outcome(counts: map<string, nat>, pass: seq<bool>, notices: seq<Option<string>>)

  function Replay(counts: map<string, nat>, records: seq<LogRecord>): (o: Outcome)
    ensures |o.pass| == |records| && |o.notices| == |records|
    decreases |records|
  {
    if records == [] then Outcome(counts, [], [])
    else
      var prev := Replay(counts, records[..|records| - 1]);
      var v := Decide(prev.counts, records[|records| - 1]);
      Outcome(v.counts, prev.pass + [v.pass], prev.notices + [v.notice])
  }

  /** How many of `records` count against prefix `p`. */
  function Hits(records: seq<LogRecord>, p: string): (n: nat)
    decreases |records|
  {
    if records == [] then 0
    else Hits(records[..|records| - 1], p) + (if Hit(records[|records| - 1]) == Some(p) then 1 else 0)
  }

  /** How many of the records counting against `p` were let through. */
  function PassedHits(records: seq<LogRecord>, pass: seq<bool>, p: string): (n: nat)
    requires |pass| == |records|
    decreases |records|
  {
    if records == [] then 0
    else
      var n := |records| - 1;
      PassedHits(records[..n], pass[..n], p) + (if Hit(records[n]) == Some(p) && pass[n] then 1 else 0)
  }

  /** How many notices for `p` were logged. */
  function Notices(notices: seq<Option<string>>, p: string): (n: nat)
    decreases |notices|
  {
    if notices == [] then 0
    else Notices(notices[..|notices| - 1], p) + (if notices[|notices| - 1] == Some(SuppressNotice(p)) then 1 else 0)
  }

  function Min(a: int, b: int): (m: int)
  {
    if a <= b then a else b
  }

  /** Filtering a longer log does not change the verdicts on its first records. */
  lemma {:induction false} ReplayPrefix(counts: map<string, nat>, records: seq<LogRecord>, k: nat)
    requires k <= |records|
    ensures Replay(counts, records).pass[..k] == Replay(counts, records[..k]).pass
    ensures Replay(counts, records).notices[..k] == Replay(counts, records[..k]).notices
    decreases |records|
  {
    if k < |records| {
      var n := |records| - 1;
      ReplayPrefix(counts, records[..n], k);
      assert records[..n][..k] == records[..k];
      var o, prev := Replay(counts, records), Replay(counts, records[..n]);
      assert o.pass[..k] == prev.pass[..k];
      assert o.notices[..k] == prev.notices[..k];
    } else {
      assert records[..k] == records;
    }
  }

  /** After a log, each prefix's counter has grown by the number of records
      that count against it. */
  lemma {:induction false} ReplayCounts(counts: map<string, nat>, records: seq<LogRecord>, p: string)
    ensures Count(Replay(counts, records).counts, p) == Count(counts, p) + Hits(records, p)
    decreases |records|
  {
    if records != [] {
      ReplayCounts(counts, records[..|records| - 1], p);
    }
  }

  /** The count of prefix `p` once the filter has seen `records[..i + 1]`. */
  function RunningCount(counts: map<string, nat>, records: seq<LogRecord>, i: nat, p: string): (n: nat)
    requires i < |records|
  {
    Count(counts, p) + Hits(records[..i + 1], p)
  }

  /** The verdict on each record: it passes unless it counts against a prefix
      whose counter has reached the limit with it, and the notice is logged
      exactly by the record that brings the counter to the limit. */
  lemma ReplayVerdict(counts: map<string, nat>, records: seq<LogRecord>, i: nat)
    requires i < |records|
    ensures Replay(counts, records).pass[i] <==>
              Hit(records[i]).None? || RunningCount(counts, records, i, Hit(records[i]).value) < FilterWarningsLimit
    ensures Replay(counts, records).notices[i] ==
              if Hit(records[i]).Some? && RunningCount(counts, records, i, Hit(records[i]).value) == FilterWarningsLimit
              then Some(SuppressNotice(Hit(records[i]).value))
              else None
  {
    ReplayPrefix(counts, records, i + 1);
    var pre := records[..i + 1];
    assert pre[..i] == records[..i];
    assert pre[i] == records[i];
    if Hit(records[i]).Some? {
      ReplayCounts(counts, records[..i], Hit(records[i]).value);
    }
    assert Replay(counts, records).pass[i] == Replay(counts, records).pass[..i + 1][i];
    assert Replay(counts, records).notices[i] == Replay(counts, records).notices[..i + 1][i];
  }

  /** Of the records that count against `p`, as many pass as fit below the
      limit: from a fresh filter, `Min(hits, limit - 1)` of them. */
  lemma {:induction false} ReplayPassCount(counts: map<string, nat>, records: seq<LogRecord>, p: string)
    ensures PassedHits(records, Replay(counts, records).pass, p)
            == Min(Count(counts, p) + Hits(records, p), FilterWarningsLimit - 1)
               - Min(Count(counts, p), FilterWarningsLimit - 1)
    decreases |records|
  {
    if records != [] {
      var n := |records| - 1;
      var o := Replay(counts, records);
      ReplayPassCount(counts, records[..n], p);
      ReplayCounts(counts, records[..n], p);
      assert o.pass[..n] == Replay(counts, records[..n]).pass;
    }
  }

  /** The notice for `p` is logged once if the counter crosses the limit
      during the log, and never otherwise. */
  lemma {:induction false} ReplayNoticeCount(counts: map<string, nat>, records: seq<LogRecord>, p: string)
    ensures Notices(Replay(counts, records).notices, p)
            == if Count(counts, p) < FilterWarningsLimit <= Count(counts, p) + Hits(records, p) then 1 else 0
    decreases |records|
  {
    if records != [] {
      var n := |records| - 1;
      var o := Replay(counts, records);
      ReplayNoticeCount(counts, records[..n], p);
      ReplayCounts(counts, records[..n], p);
      assert o.notices[..n] == Replay(counts, records[..n]).notices;
      var last := records[n];
      if o.notices[n] == Some(SuppressNotice(p)) {
        SuppressNoticeInjective(p, Hit(last).value);
      }
    }
  }

  lemma SuppressNoticeInjective(p: string, q: string)
    requires SuppressNotice(p) == SuppressNotice(q)
    ensures p == q
  {
    var a, b := SuppressNotice(p), SuppressNotice(q);
    var pre := "Suppressing further '";
    assert p == a[|pre|..|a| - 10];
    assert q == b[|pre|..|b| - 10];
  }

  /** A fresh filter over any log: each rate-limited warning is let through at
      most `limit - 1` times and its notice is logged at most once. */
  lemma FreshFilterBounds(records: seq<LogRecord>, p: string)
    ensures PassedHits(records, Replay(map[], records).pass, p) == Min(Hits(records, p), FilterWarningsLimit - 1)
    ensures Notices(Replay(map[], records).notices, p) == if Hits(records, p) >= FilterWarningsLimit then 1 else 0
  {
    ReplayPassCount(map[], records, p);
    ReplayNoticeCount(map[], records, p);
  }
}
