/** The address book as a table whose columns `get_geoID` fills in place
    (data/contact.py, lines 146-303). */
module Table {
  import opened Wrappers
  import opened QueryKey
  import opened Hint
  import opened Fallback
  import opened Resolve

  /** One message on the progress signal: current step, low and high ends
      of the bar, the text shown and the stage. */
  datatype Progress = Progress(current: int, low: int, high: int, text: string, stage: string)

  const Stage := "Fetch geolocation data"
  const Downloading := "Downloading GPS coordinates from nominatim.org\U{2026}"
  const Cancel := "cancel"

  /** The index of the first row at which the killswitch is found set, or
      the number of rows when it never is. */
  function FirstKilled(killed: seq<bool>): (k: nat)
    ensures k <= |killed|
    ensures forall i :: 0 <= i < k ==> !killed[i]
    ensures k < |killed| ==> killed[k]
  {
    if killed == [] then 0
    else if killed[0] then 0
    else 1 + FirstKilled(killed[1..])
  }

  /** The row at which the loop stops is the first killed one. */
  lemma {:induction false} FirstKilledAt(killed: seq<bool>, k: nat)
    requires k <= |killed|
    requires forall j :: 0 <= j < k ==> !killed[j]
    requires k < |killed| ==> killed[k]
    ensures FirstKilled(killed) == k
    decreases k
  {
    if k > 0 {
      FirstKilledAt(killed[1..], k - 1);
    }
  }

  /** The per-row progress messages for rows `0 .. m - 1` of `n`. */
  function Announce(n: nat, m: nat): seq<Progress> {
    seq(m, i requires 0 <= i < m => Progress(i, 0, n, Downloading, Stage))
  }

  /** The messages of a run over `n` rows that stops at row `k`: the
      opening one (line 155), one per row reached, including the row at
      which the killswitch is found set (line 202), the cancel message of
      that row (line 207) and the closing one (line 301), which names the
      last row reached. */
  function Events(n: nat, k: nat): seq<Progress>
    requires k <= n
  {
    [Progress(0, 0, n, Downloading, Stage)]
    + Announce(n, if k < n then k + 1 else n)
    + (if k < n then [Progress(k, 0, k, Cancel, Stage)] else [])
    + (if n > 0 then [Progress(if k < n then k else n - 1, n, n, Cancel, Stage)] else [])
  }

  /** What lines 294-297 write for a row whose location hint is `hint`. */
  function RowGeo(cache: Cache, detect: Detector, hint: string): GeoId {
    GeoIdOf(Places(Outcomes(cache, CacheKey, detect, Segments(hint))))
  }

  /** What line 298 writes for a row whose location hint is `hint`. */
  predicate RowFlag(cache: Cache, detect: Detector, hint: string) {
    Flag(Outcomes(cache, CacheKey, detect, Segments(hint)))
  }

  lemma EventsStopped(n: nat, k: nat)
    requires k < n
    ensures Events(n, k) == [Progress(0, 0, n, Downloading, Stage)] + Announce(n, k + 1)
      + [Progress(k, 0, k, Cancel, Stage)] + [Progress(k, n, n, Cancel, Stage)]
  {
  }

  lemma EventsCompleted(n: nat)
    ensures Events(n, n) == [Progress(0, 0, n, Downloading, Stage)] + Announce(n, n)
      + (if n > 0 then [Progress(n - 1, n, n, Cancel, Stage)] else [])
  {
  }

  lemma AnnounceNext(n: nat, m: nat)
    ensures Announce(n, m + 1) == Announce(n, m) + [Progress(m, 0, n, Downloading, Stage)]
  {
  }

  /** A stopped run ends with the cancel message of the row at which it
      stopped followed by the closing message naming that same row; a run
      that completes ends with one closing message naming the last row, and
      no message ever has a bar wider than the table. */
  lemma EventsShape(n: nat, k: nat)
    requires k <= n
    ensures var e := Events(n, k);
      && |e| == (if k < n then k + 4 else if n > 0 then n + 2 else 1)
      && e[0] == Progress(0, 0, n, Downloading, Stage)
      && (k < n ==> e[k + 1] == Progress(k, 0, n, Downloading, Stage)
                    && e[k + 2] == Progress(k, 0, k, Cancel, Stage)
                    && e[k + 3] == Progress(k, n, n, Cancel, Stage))
      && (k == n > 0 ==> e[n + 1] == Progress(n - 1, n, n, Cancel, Stage))
      && (forall i :: 0 <= i < |e| ==> e[i].high <= n && e[i].stage == Stage)
  {
  }

  /** The contact table: the `adr` column and the three columns
      `get_geoID` writes. `None` is a cell not written yet. */
  class ContactTable {
    var adr: seq<string>
    var geohint: seq<string>
    var geoID: seq<Option<GeoId>>
    var exactLocation: seq<Option<bool>>

    ghost predicate Valid()
      reads this
    {
      |geohint| == |adr| && |geoID| == |adr| && |exactLocation| == |adr|
    }

    /** A table of the given addresses whose computed columns are empty. */
    constructor (rows: seq<string>)
      ensures Valid() && adr == rows && geohint == rows
      ensures forall i :: 0 <= i < |rows| ==> geoID[i] == None && exactLocation[i] == None
    {
      adr := rows;
      geohint := rows;
      geoID := seq(|rows|, i => None);
      exactLocation := seq(|rows|, i => None);
    }

    /** Lines 178-191: the `geohint` column is a copy of `adr` rewritten
        cell by cell, one column-wide replacement after the other; no other
        column changes. */
    method PrepareHints()
      requires Valid()
      modifies this
      ensures Valid()
      ensures adr == old(adr) && geoID == old(geoID) && exactLocation == old(exactLocation)
      ensures forall i :: 0 <= i < |adr| ==> geohint[i] == CleanHint(adr[i])
    {
      var h := adr;
      h := seq(|h|, i requires 0 <= i < |h| => RemoveParenthetical(h[i]));
      h := seq(|h|, i requires 0 <= i < |h| => SeparatorsToSpace(h[i]));
      h := seq(|h|, i requires 0 <= i < |h| => BreaksToComma(h[i]));
      h := seq(|h|, i requires 0 <= i < |h| => DropLeadingComma(h[i]));
      geohint := h;
    }

    /** Rows `0 .. i - 1` hold their answers and their flags. */
    ghost predicate Done(cache: Cache, detect: Detector, i: nat)
      reads this
      requires Valid() && i <= |adr|
    {
      forall j :: 0 <= j < i ==>
        && geoID[j] == Some(RowGeo(cache, detect, geohint[j]))
        && exactLocation[j] == Some(RowFlag(cache, detect, geohint[j]))
    }

    /** Rows from `i` on hold what `geo0` and `exact0` hold. */
    ghost predicate Kept(geo0: seq<Option<GeoId>>, exact0: seq<Option<bool>>, i: nat)
      reads this
      requires Valid()
    {
      && |geo0| == |adr| && |exact0| == |adr|
      && forall j :: i <= j < |adr| ==> geoID[j] == geo0[j] && exactLocation[j] == exact0[j]
    }

    /** Lines 209-298 for row `i`: its answers and its flag are written
        after those of the rows before it, the rows after it are kept. */
    method WriteRow(cache: Cache, detect: Detector, i: nat, ghost geo0: seq<Option<GeoId>>, ghost exact0: seq<Option<bool>>)
      requires Valid() && i < |adr|
      requires Done(cache, detect, i) && Kept(geo0, exact0, i)
      modifies this
      ensures Valid() && adr == old(adr) && geohint == old(geohint)
      ensures Done(cache, detect, i + 1) && Kept(geo0, exact0, i + 1)
    {
      var geo, exact, _ := ResolveRow(cache, CacheKey, detect, geohint[i]);
      geoID := geoID[i := Some(geo)];
      exactLocation := exactLocation[i := Some(exact)];
    }

    /** Lines 200-298: the row loop, from the first row up to the first
        one found killed. Returns the number of rows done, the loop's
        `index` once it has one, and the messages the loop sends. */
    method RunRows(cache: Cache, detect: Detector, killed: seq<bool>)
      returns (done: nat, index: nat, sent: seq<Progress>)
      requires Valid() && |killed| == |adr|
      modifies this
      ensures Valid() && adr == old(adr) && geohint == old(geohint)
      ensures done == FirstKilled(killed)
      ensures Done(cache, detect, done) && Kept(old(geoID), old(exactLocation), done)
      ensures 0 < |adr| ==> index == (if done < |adr| then done else |adr| - 1)
      ensures sent == Announce(|adr|, if done < |adr| then done + 1 else done)
        + (if done < |adr| then [Progress(done, 0, done, Cancel, Stage)] else [])
    {
      var n := |adr|;
      index := 0;
      done := 0;
      sent := [];
      while done < n
        invariant done <= n
        invariant forall j :: 0 <= j < done ==> !killed[j]
        invariant Valid() && adr == old(adr) && geohint == old(geohint)
        invariant Done(cache, detect, done)
        invariant Kept(old(geoID), old(exactLocation), done)
        invariant sent == Announce(n, done)
        invariant 0 < done ==> index == done - 1
      {
        index := done;
        AnnounceNext(n, done);
        sent := sent + [Progress(done, 0, n, Downloading, Stage)];
        if killed[done] {
          sent := sent + [Progress(done, 0, done, Cancel, Stage)];
          FirstKilledAt(killed, done);
          return;
        }
        WriteRow(cache, detect, done, old(geoID), old(exactLocation));
        done := done + 1;
      }
      FirstKilledAt(killed, done);
    }

    /** Lines 146-303. `killed[i]` is the state of the killswitch when row
        `i` is reached. Rows before the first one found killed get their
        `geoID` and `exactlocation` cells; that row and every later one are
        left as they were. `failed` is the `NameError` the closing message
        raises on an empty table, whose loop never binds `index`. */
    method GetGeoID(cache: Cache, detect: Detector, killed: seq<bool>)
      returns (events: seq<Progress>, failed: bool)
      requires Valid() && |killed| == |adr|
      modifies this
      ensures Valid() && adr == old(adr)
      ensures forall i :: 0 <= i < |adr| ==> geohint[i] == CleanHint(adr[i])
      ensures var k := FirstKilled(killed);
        && (forall i :: 0 <= i < k ==>
              && geoID[i] == Some(RowGeo(cache, detect, CleanHint(adr[i])))
              && exactLocation[i] == Some(RowFlag(cache, detect, CleanHint(adr[i]))))
        && (forall i :: k <= i < |adr| ==> geoID[i] == old(geoID[i]) && exactLocation[i] == old(exactLocation[i]))
      ensures failed <==> |adr| == 0
      ensures events == Events(|adr|, FirstKilled(killed))
    {
      var n := |adr|;
      events := [Progress(0, 0, n, Downloading, Stage)];
      PrepareHints();
      var done, index, sent := RunRows(cache, detect, killed);
      events := events + sent;
      if done < n {
        EventsStopped(n, done);
      } else {
        EventsCompleted(n);
      }
      if n == 0 {
        failed := true;
      } else {
        failed := false;
        events := events + [Progress(index, n, n, Cancel, Stage)];
      }
    }
  }
}
