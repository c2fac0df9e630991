/**
 * The process-wide conversion progress map `conversion_progress`, its two
 * writers (the converter's progress callback and the convert handler's
 * initial write) and its one reader (the progress handler).
 */
module Progress {
  import opened Wrappers
  import opened Paths
  import opened Tiles

  datatype Status = Starting | Converting | Complete | Idle

  /** One `{progress, status}` record. */
  datatype Entry = Entry(progress: real, status: Status)

  /** The reply of the convert handler when it succeeds. */
  datatype ConvertReply = ConvertReply(message: string, dziUrl: string, status: Status)

  /** `(current / total) * 100`, in exact arithmetic. */
  function Percentage(current: int, total: int): (p: real)
    requires total != 0
    ensures p * total as real == current as real * 100.0
  {
    QuotientTimes(current, total);
    (current as real / total as real) * 100.0
  }

  /** The record the progress callback stores for `current` out of `total`. */
  function ReportedEntry(current: int, total: int): (e: Entry)
    requires total != 0
    ensures e.progress == Percentage(current, total)
    ensures e.status == Complete || e.status == Converting
  {
    var p := Percentage(current, total);
    Entry(p, if p < 100.0 then Converting else Complete)
  }

  /**
   * What every stored record satisfies: it is complete exactly when its
   * progress has reached 100, a fresh start has progress 0, and "idle" is
   * never stored.
   */
  predicate WellFormed(e: Entry)
  {
    && (e.status == Complete <==> e.progress >= 100.0)
    && (e.status == Starting ==> e.progress == 0.0)
    && e.status != Idle
  }

  /** Multiplying by a positive factor keeps the order of reals. */
  lemma MulMonotone(a: real, b: real, t: real)
    requires t > 0.0
    ensures a <= b <==> a * t <= b * t
  {
    assert (b - a) * t == b * t - a * t;
    if a <= b {
      assert (b - a) * t >= 0.0;
    } else {
      assert (a - b) * t > 0.0;
    }
  }

  /** The quotient times the divisor gives back the dividend. */
  lemma QuotientTimes(current: int, total: int)
    requires total != 0
    ensures (current as real / total as real) * total as real == current as real
  {
  }

  /** The percentage reaches 100 exactly when `current` reaches a positive `total`. */
  lemma PercentageReachesHundred(current: int, total: int)
    requires total > 0
    ensures Percentage(current, total) >= 100.0 <==> current >= total
  {
    var c, t := current as real, total as real;
    var q := c / t;
    QuotientTimes(current, total);
    MulMonotone(1.0, q, t);
    assert 1.0 * t == t;
  }

  /** With `total > 0` the callback reports "complete" exactly once `current` reaches `total`. */
  lemma CompleteIffReachedTotal(current: int, total: int)
    requires total > 0
    ensures ReportedEntry(current, total).status == Complete <==> current >= total
    ensures ReportedEntry(current, total).status == Converting <==> current < total
  {
    PercentageReachesHundred(current, total);
  }

  /** With a negative `total` the comparison is reversed. */
  lemma NegativeTotalReversed(current: int, total: int)
    requires total < 0
    ensures ReportedEntry(current, total).status == Complete <==> current <= total
  {
    PercentageReachesHundred(-current, -total);
    assert Percentage(current, total) == Percentage(-current, -total);
  }

  /** A count within `0..total` gives a percentage within `0..100`. */
  lemma PercentageBounds(current: int, total: int)
    requires 0 <= current <= total && total > 0
    ensures 0.0 <= Percentage(current, total) <= 100.0
  {
    var c, t := current as real, total as real;
    var q := c / t;
    QuotientTimes(current, total);
    MulMonotone(q, 1.0, t);
    MulMonotone(0.0, q, t);
    assert 1.0 * t == t && 0.0 * t == 0.0;
  }

  /** Every record the callback stores is well formed. */
  lemma ReportedEntryWellFormed(current: int, total: int)
    requires total != 0
    ensures WellFormed(ReportedEntry(current, total))
  {
  }

  /** The progress handler's fallbacks when nothing is stored for a slide. */
  function Fallback(converted: bool, viewable: bool): (e: Entry)
    ensures converted ==> e == Entry(100.0, Complete)
    ensures !converted && viewable ==> e == Entry(50.0, Converting)
    ensures !converted && !viewable ==> e == Entry(0.0, Idle)
    ensures e.status == Idle <==> !converted && !viewable
  {
    if converted then Entry(100.0, Complete)
    else if viewable then Entry(50.0, Converting)
    else Entry(0.0, Idle)
  }

  class ProgressStore {
    var entries: map<string, Entry>

    predicate Valid()
      reads this
    {
      forall s :: s in entries ==> WellFormed(entries[s])
    }

    constructor()
      ensures entries == map[] && Valid()
    {
      entries := map[];
    }

    /**
     * `update_progress`: stores the reported record for `slide` and nothing
     * else; a zero `total` raises a division error before anything is stored.
     */
    method UpdateProgress(slide: string, current: int, total: int) returns (r: Result<Entry, string>)
      requires Valid()
      modifies this
      ensures Valid()
      ensures total == 0 ==> r == Err("division by zero") && entries == old(entries)
      ensures total != 0 ==> r == Ok(ReportedEntry(current, total))
      ensures total != 0 ==> entries == old(entries)[slide := ReportedEntry(current, total)]
      ensures total != 0 ==> forall c, v :: GetProgress(slide, c, v) == ReportedEntry(current, total)
    {
      if total == 0 {
        return Err("division by zero");
      }
      var e := ReportedEntry(current, total);
      ReportedEntryWellFormed(current, total);
      entries := entries[slide := e];
      r := Ok(e);
    }

    /**
     * `convert_slide`: 404 when no upload matches `{slide}.*`; a converted
     * slide is reported complete with the store untouched; otherwise the
     * record is reset to `(0, starting)`, whatever it was, and the matching
     * upload is handed to the converter (`job`).
     */
    method ConvertSlide(slide: string, uploads: set<string>, isConverted: bool)
      returns (r: Result<ConvertReply, HttpError>, job: Option<string>)
      requires Valid()
      modifies this
      ensures Valid()
      ensures r.Err? <==> forall f :: f in uploads ==> !GlobMatch(slide, f)
      ensures r.Err? ==> r.error == HttpError(404, "Slide not found") && entries == old(entries) && job == None
      ensures r.Ok? && isConverted ==>
        r.value == ConvertReply("Slide already converted", DziUrl(slide), Complete) && entries == old(entries) && job == None
      ensures r.Ok? && !isConverted ==>
        && r.value == ConvertReply("Conversion started", DziUrl(slide), Converting)
        && entries == old(entries)[slide := Entry(0.0, Starting)]
        && job.Some? && job.value in uploads && GlobMatch(slide, job.value)
        && forall c, v :: GetProgress(slide, c, v) == Entry(0.0, Starting)
    {
      if forall f :: f in uploads ==> !GlobMatch(slide, f) {
        return Err(HttpError(404, "Slide not found")), None;
      }
      var slidePath :| slidePath in uploads && GlobMatch(slide, slidePath);
      if isConverted {
        return Ok(ConvertReply("Slide already converted", DziUrl(slide), Complete)), None;
      }
      entries := entries[slide := Entry(0.0, Starting)];
      r, job := Ok(ConvertReply("Conversion started", DziUrl(slide), Converting)), Some(slidePath);
    }

    /**
     * `get_progress`: the stored record verbatim, else complete when the
     * slide is converted on disk, else half-way when it is viewable, else idle.
     */
    function GetProgress(slide: string, converted: bool, viewable: bool): (e: Entry)
      reads this
      ensures slide in entries ==> e == entries[slide]
      ensures slide !in entries && converted ==> e == Entry(100.0, Complete)
      ensures slide !in entries && !converted && viewable ==> e == Entry(50.0, Converting)
      ensures slide !in entries && !converted && !viewable ==> e == Entry(0.0, Idle)
      ensures Valid() ==> (e.status == Complete <==> e.progress >= 100.0)
      ensures Valid() ==> (e.status == Starting || e.status == Idle ==> e.progress == 0.0)
      ensures Valid() ==> (e.status == Idle <==> slide !in entries && !converted && !viewable)
    {
      if slide in entries then entries[slide] else Fallback(converted, viewable)
    }

    /** The on-disk flags are only consulted when nothing is stored. */
    lemma FlagsIgnoredWhenStored(slide: string, c1: bool, v1: bool, c2: bool, v2: bool)
      requires slide in entries
      ensures GetProgress(slide, c1, v1) == GetProgress(slide, c2, v2)
    {
    }

    /** Without a stored record, "converted" wins over "viewable". */
    lemma ConvertedBeatsViewable(slide: string, viewable: bool)
      requires slide !in entries
      ensures GetProgress(slide, true, viewable) == Entry(100.0, Complete)
    {
    }
  }
}
