/**
 * The emission dashboard's state: a window of at most `WindowLimit` readings
 * in chronological order, the latest CO2 figure and a loading flag. The
 * window is filled once from a newest-first history query and then grows by
 * one reading per live insert event, evicting from the front.
 */
module Dashboard {
  import opened Wrappers
  import opened Emission

  /** The history query's row limit and the live window's capacity. */
  const WindowLimit: nat := 50

  function Min(a: int, b: int): int {
    if a <= b then a else b
  }

  predicate IsSuffix(s: seq<Reading>, t: seq<Reading>) {
    |s| <= |t| && s == t[|t| - |s|..]
  }

  /** The last `n` elements of `s`, or all of `s` when it is shorter. */
  function LastN(s: seq<Reading>, n: nat): (r: seq<Reading>)
    ensures |r| == Min(|s|, n)
    ensures IsSuffix(r, s)
  {
    if |s| <= n then s else s[|s| - n..]
  }

  /** How many readings in `s` carry the id `id`. */
  function CountId(s: seq<Reading>, id: string): nat {
    if s == [] then 0
    else CountId(s[..|s| - 1], id) + (if s[|s| - 1].id == id then 1 else 0)
  }

  // ---------------------------------------------------------------------------
  // The live insert updater

  /**
   * The `setData` updater of the insert callback: append the new record and,
   * when the array has grown past the limit, keep only its last
   * `WindowLimit` elements.
   */
  function AppendTrim(current: seq<Reading>, newRecord: Reading): (next: seq<Reading>)
    ensures |next| == Min(|current| + 1, WindowLimit)
    ensures IsSuffix(next, current + [newRecord])
    ensures next[|next| - 1] == newRecord
    ensures |current| < WindowLimit ==> next == current + [newRecord]
  {
    var newData := current + [newRecord];
    if |newData| > WindowLimit then newData[|newData| - WindowLimit..] else newData
  }

  /** A full window loses exactly its oldest reading and gains the new one. */
  lemma AppendTrimEvictsOldest(current: seq<Reading>, newRecord: Reading)
    requires |current| == WindowLimit
    ensures AppendTrim(current, newRecord) == current[1..] + [newRecord]
  {
  }

  lemma SuffixKeepsOrder(s: seq<Reading>, t: seq<Reading>)
    requires IsSuffix(s, t) && NonDecreasing(t)
    ensures NonDecreasing(s)
  {
  }

  /**
   * When records arrive no older than the newest one held, the window stays
   * in chronological order: eviction only drops readings from the front.
   */
  lemma AppendTrimKeepsOrder(current: seq<Reading>, newRecord: Reading)
    requires NonDecreasing(current)
    requires current == [] || current[|current| - 1].createdAt <= newRecord.createdAt
    ensures NonDecreasing(AppendTrim(current, newRecord))
  {
  }

  /**
   * There is no de-duplication by id: while the window has room, a record
   * whose id is already present is appended once more.
   */
  lemma DuplicateIdAppended(current: seq<Reading>, newRecord: Reading)
    requires |current| < WindowLimit
    ensures CountId(AppendTrim(current, newRecord), newRecord.id) == CountId(current, newRecord.id) + 1
  {
  }

  /** The window after the insert events `events`, applied oldest first. */
  function ApplyInserts(window: seq<Reading>, events: seq<Reading>): seq<Reading> {
    if events == [] then window
    else AppendTrim(ApplyInserts(window, events[..|events| - 1]), events[|events| - 1])
  }

  lemma LastNAppend(s: seq<Reading>, x: Reading)
    ensures AppendTrim(LastN(s, WindowLimit), x) == LastN(s + [x], WindowLimit)
  {
  }

  /**
   * Any run of live inserts leaves exactly the last `WindowLimit` readings of
   * the old window followed by the events, in arrival order.
   */
  lemma {:induction false} ApplyInsertsKeepsLast(window: seq<Reading>, events: seq<Reading>)
    requires events != []
    ensures ApplyInserts(window, events) == LastN(window + events, WindowLimit)
  {
    var init := events[..|events| - 1];
    var last := events[|events| - 1];
    assert window + events == (window + init) + [last];
    if init == [] {
      assert window + events == window + [last];
      assert AppendTrim(window, last) == LastN(window + [last], WindowLimit);
    } else {
      ApplyInsertsKeepsLast(window, init);
      LastNAppend(window + init, last);
    }
  }

  /** However many readings arrive, the window never holds more than the limit. */
  lemma ApplyInsertsBounded(window: seq<Reading>, events: seq<Reading>)
    requires |window| <= WindowLimit
    ensures |ApplyInserts(window, events)| <= WindowLimit
  {
  }

  /** A window that is in order, fed events in order, stays in order. */
  lemma ApplyInsertsKeepsOrder(window: seq<Reading>, events: seq<Reading>)
    requires NonDecreasing(window + events)
    ensures NonDecreasing(ApplyInserts(window, events))
  {
    if events == [] {
      assert window + events == window;
    } else {
      ApplyInsertsKeepsLast(window, events);
      SuffixKeepsOrder(ApplyInserts(window, events), window + events);
    }
  }

  /**
   * Eviction correctness: starting from an empty window, any number of
   * inserts leaves exactly the most recent `WindowLimit` of them.
   */
  lemma FromEmptyKeepsMostRecent(events: seq<Reading>)
    ensures ApplyInserts([], events) == LastN(events, WindowLimit)
  {
    if events != [] {
      ApplyInsertsKeepsLast([], events);
      assert [] + events == events;
    }
  }

  // ---------------------------------------------------------------------------
  // The history load

  /** A newest-first history put into chronological order. */
  function Chronological(newestFirst: seq<Reading>): (r: seq<Reading>)
    ensures |r| == |newestFirst|
    ensures multiset(r) == multiset(newestFirst)
  {
    if newestFirst == [] then []
    else
      var n := |newestFirst|;
      assert newestFirst == newestFirst[..n - 1] + [newestFirst[n - 1]];
      [newestFirst[n - 1]] + Chronological(newestFirst[..n - 1])
  }

  lemma {:induction false} ChronologicalAt(newestFirst: seq<Reading>, k: int)
    requires 0 <= k < |newestFirst|
    ensures Chronological(newestFirst)[k] == newestFirst[|newestFirst| - 1 - k]
  {
    if k > 0 {
      ChronologicalAt(newestFirst[..|newestFirst| - 1], k - 1);
    }
  }

  /** The newest reading of the chronological window is the first row returned. */
  lemma {:induction false} ChronologicalLast(newestFirst: seq<Reading>)
    requires newestFirst != []
    ensures Chronological(newestFirst)[|newestFirst| - 1] == newestFirst[0]
  {
    ChronologicalAt(newestFirst, |newestFirst| - 1);
  }

  /** Reversing twice gives the history back. */
  lemma {:induction false} ChronologicalInvolution(newestFirst: seq<Reading>)
    ensures Chronological(Chronological(newestFirst)) == newestFirst
  {
    var n := |newestFirst|;
    var r := Chronological(newestFirst);
    var back := Chronological(r);
    forall k | 0 <= k < n ensures back[k] == newestFirst[k] {
      ChronologicalAt(r, k);
      ChronologicalAt(newestFirst, n - 1 - k);
    }
    assert back == newestFirst;
  }

  /** A history in newest-first order becomes a window in oldest-first order. */
  lemma {:induction false} ChronologicalOrders(newestFirst: seq<Reading>)
    requires NonIncreasing(newestFirst)
    ensures NonDecreasing(Chronological(newestFirst))
  {
    var r := Chronological(newestFirst);
    var n := |newestFirst|;
    forall i, j | 0 <= i < j < n ensures r[i].createdAt <= r[j].createdAt {
      ChronologicalAt(newestFirst, i);
      ChronologicalAt(newestFirst, j);
    }
  }

  /** `history.reverse()`: reverses the fetched rows in place. */
  method ReverseHistory(history: array<Reading>)
    modifies history
    ensures history[..] == Chronological(old(history[..]))
  {
    ghost var fetched := history[..];
    var n := history.Length;
    var lo, hi := 0, n - 1;
    while lo < hi
      invariant 0 <= lo <= n && hi == n - 1 - lo
      invariant forall k :: 0 <= k < lo || hi < k < n ==> history[k] == fetched[n - 1 - k]
      invariant forall k :: lo <= k <= hi ==> history[k] == fetched[k]
    {
      history[lo], history[hi] := history[hi], history[lo];
      lo, hi := lo + 1, hi - 1;
    }
    forall k | 0 <= k < n ensures history[k] == Chronological(fetched)[k] {
      ChronologicalAt(fetched, k);
    }
  }

  // ---------------------------------------------------------------------------
  // The "Current CO2" panel

  datatype AirQuality = Excellent | Moderate | Poor

  /** The big figure of the panel: the reading, or "--" before there is one. */
  datatype Figure = Dashes | Ppm(level: real)

  /** The panel's figure and air-quality badge for a `latestCo2` value. */
  datatype Panel = Panel(figure: Figure, band: Option<AirQuality>)

  /** The badge: below 1000 ppm, below 2000 ppm, or otherwise. */
  function Band(latestCo2: Option<real>): (b: Option<AirQuality>)
    ensures b == None <==> latestCo2 == None
    ensures b == Some(Excellent) <==> latestCo2.Some? && latestCo2.value < 1000.0
    ensures b == Some(Moderate) <==> latestCo2.Some? && 1000.0 <= latestCo2.value < 2000.0
    ensures b == Some(Poor) <==> latestCo2.Some? && 2000.0 <= latestCo2.value
  {
    match latestCo2
    case None => None
    case Some(level) =>
      if level < 1000.0 then Some(Excellent)
      else if level < 2000.0 then Some(Moderate)
      else Some(Poor)
  }

  function Severity(q: AirQuality): nat {
    match q
    case Excellent => 0
    case Moderate => 1
    case Poor => 2
  }

  /** A higher reading never earns a better badge. */
  lemma BandMonotone(a: real, b: real)
    requires a <= b
    ensures Severity(Band(Some(a)).value) <= Severity(Band(Some(b)).value)
  {
  }

  function CurrentCo2Panel(latestCo2: Option<real>): (p: Panel)
    ensures p.figure == Dashes <==> latestCo2 == None
    ensures latestCo2.Some? ==> p.figure == Ppm(latestCo2.value)
    ensures p.band.None? <==> p.figure == Dashes
    ensures p.band == Band(latestCo2)
  {
    match latestCo2
    case None => Panel(Dashes, None)
    case Some(level) => Panel(Ppm(level), Band(latestCo2))
  }

  // ---------------------------------------------------------------------------
  // The component state

  class DashboardState {
    var data: seq<Reading>
    var latestCo2: Option<real>
    var isLoading: bool

    ghost predicate Bounded()
      reads this
    {
      |data| <= WindowLimit
    }

    ghost predicate Ordered()
      reads this
    {
      NonDecreasing(data)
    }

    /** The figure shown is that of the newest reading in the window. */
    ghost predicate LatestIsNewest()
      reads this
    {
      data != [] ==> latestCo2 == Some(data[|data| - 1].co2Level)
    }

    /** The initial `useState` values. */
    constructor ()
      ensures data == [] && latestCo2 == None && isLoading
      ensures Bounded() && Ordered() && LatestIsNewest()
    {
      data := [];
      latestCo2 := None;
      isLoading := true;
    }

    /** `fetchHistory` up to its `await`: the spinner goes on. */
    method StartFetch()
      modifies this
      ensures isLoading
      ensures data == old(data) && latestCo2 == old(latestCo2)
    {
      isLoading := true;
    }

    /**
     * `fetchHistory` after its `await`. `failed` is the query's error;
     * `history` is its rows, newest first, or null. The rows are reversed in
     * place and become the window, untrimmed; the latest figure comes from
     * the newest row. An error or a null result changes nothing but the flag.
     */
    method FinishFetch(failed: bool, history: array?<Reading>)
      modifies this, history
      ensures !isLoading
      ensures failed || history == null ==> data == old(data) && latestCo2 == old(latestCo2)
      ensures failed && history != null ==> history[..] == old(history[..])
      ensures !failed && history != null ==>
        && data == Chronological(old(history[..]))
        && history[..] == data
        && (history.Length == 0 ==> latestCo2 == old(latestCo2))
        && (history.Length > 0 ==> latestCo2 == Some(old(history[0]).co2Level))
        && LatestIsNewest()
        && (history.Length <= WindowLimit ==> Bounded())
        && (old(NonIncreasing(history[..])) ==> Ordered())
      ensures old(LatestIsNewest()) ==> LatestIsNewest()
    {
      if failed {
        // The error is only logged.
      } else if history != null {
        ghost var fetched := history[..];
        ReverseHistory(history);
        data := history[..];
        if history.Length > 0 {
          latestCo2 := Some(history[history.Length - 1].co2Level);
          ChronologicalLast(fetched);
        }
        if NonIncreasing(fetched) {
          ChronologicalOrders(fetched);
        }
      }
      isLoading := false;
    }

    /**
     * The realtime INSERT callback: the updater appends and trims, and the
     * latest figure becomes the new record's, whatever its id.
     */
    method OnInsert(newRecord: Reading)
      modifies this
      ensures data == AppendTrim(old(data), newRecord)
      ensures latestCo2 == Some(newRecord.co2Level)
      ensures isLoading == old(isLoading)
      ensures Bounded() && LatestIsNewest()
      ensures old(Ordered()) && (old(data) == [] || old(data[|data| - 1]).createdAt <= newRecord.createdAt)
              ==> Ordered()
    {
      if Ordered() && (data == [] || data[|data| - 1].createdAt <= newRecord.createdAt) {
        AppendTrimKeepsOrder(data, newRecord);
      }
      data := AppendTrim(data, newRecord);
      latestCo2 := Some(newRecord.co2Level);
    }
  }
}
