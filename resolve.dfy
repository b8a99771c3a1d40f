/** One row of the address book: its hint split into addresses, each
    address resolved, the answers gathered (data/contact.py, lines 209-298). */
module Resolve {
  import opened Wrappers
  import opened TextOps
  import opened QueryKey
  import opened Segment
  import opened Fallback

  /** Lines 213-221: the hint of a row cut into one piece per address. */
  function Segments(hint: string): seq<string> {
    SplitTags(RemoveMarks(Decode(hint)))
  }

  /** What one piece of a hint comes to: skipped when empty after
      cleaning (line 231), otherwise the answer of its first answered
      candidate, whether that was the unrestricted query, and the keys it
      looked up. */
  datatype PieceOutcome = Skipped | Looked(place: Option<Place>, exact: bool, tried: seq<string>)

  function PieceOutcomeOf(cache: Cache, keyOf: KeyOf, detect: Detector, piece: string): PieceOutcome {
    var elem := CleanSegment(piece);
    if elem == [] then Skipped
    else
      var keys := SegmentKeys(keyOf, detect, elem);
      Looked(HitPlace(cache, keys), Fetch(cache, keys[0]).Some?, keys[..TriedCount(cache, keys)])
  }

  function Outcomes(cache: Cache, keyOf: KeyOf, detect: Detector, pieces: seq<string>): seq<PieceOutcome> {
    seq(|pieces|, i requires 0 <= i < |pieces| => PieceOutcomeOf(cache, keyOf, detect, pieces[i]))
  }

  /** The row's `result` list: the answers of the pieces, in piece order. */
  function Places(outs: seq<PieceOutcome>): seq<Place>
    decreases |outs|
  {
    if outs == [] then []
    else
      var last := outs[|outs| - 1];
      Places(outs[..|outs| - 1])
      + (if last.Looked? && last.place.Some? then [last.place.value] else [])
  }

  /** All the keys the row looks up, in order. */
  function Lookups(outs: seq<PieceOutcome>): seq<string>
    decreases |outs|
  {
    if outs == [] then []
    else
      var last := outs[|outs| - 1];
      Lookups(outs[..|outs| - 1]) + (if last.Looked? then last.tried else [])
  }

  /** Lines 223, 240 and 298: the flag, false at the start of the row and
      set by every piece whose unrestricted query was answered. */
  predicate Flag(outs: seq<PieceOutcome>)
    decreases |outs|
  {
    if outs == [] then false
    else Flag(outs[..|outs| - 1]) || (outs[|outs| - 1].Looked? && outs[|outs| - 1].exact)
  }

  /** The flag of a row means that some piece was answered exactly: any
      piece, not every piece. */
  lemma {:induction false} FlagIff(outs: seq<PieceOutcome>)
    ensures Flag(outs) <==> exists i :: 0 <= i < |outs| && outs[i].Looked? && outs[i].exact
    decreases |outs|
  {
    if outs != [] {
      var n := |outs|;
      var init := outs[..n - 1];
      FlagIff(init);
      if Flag(init) {
        var i :| 0 <= i < |init| && init[i].Looked? && init[i].exact;
        assert init[i] == outs[i];
      }
      if exists i :: 0 <= i < n && outs[i].Looked? && outs[i].exact {
        var i :| 0 <= i < n && outs[i].Looked? && outs[i].exact;
        if i < n - 1 {
          assert init[i] == outs[i];
        }
      }
    }
  }

  /** A piece contributes one answer at most, so a row has no more answers
      than pieces; an exact piece always contributes one. */
  lemma {:induction false} PlacesBound(outs: seq<PieceOutcome>)
    requires forall i :: 0 <= i < |outs| && outs[i].Looked? && outs[i].exact ==> outs[i].place.Some?
    ensures |Places(outs)| <= |outs|
    ensures Flag(outs) ==> |Places(outs)| > 0
    decreases |outs|
  {
    if outs != [] {
      var init := outs[..|outs| - 1];
      assert forall i :: 0 <= i < |init| ==> init[i] == outs[i];
      PlacesBound(init);
    }
  }

  /** A piece is looked up exactly when it is not empty after cleaning; its
      flag is its unrestricted query being answered; its answer is the one
      of the first answered candidate, and it is present whenever the flag
      is set. */
  lemma PieceOutcomeSpec(cache: Cache, keyOf: KeyOf, detect: Detector, piece: string)
    ensures var o := PieceOutcomeOf(cache, keyOf, detect, piece);
      && (o.Looked? <==> CleanSegment(piece) != [])
      && (o.Looked? ==> (o.exact <==> Fetch(cache, keyOf(Query(CleanSegment(piece), None))).Some?))
      && (o.Looked? && o.exact ==> o.place == Fetch(cache, keyOf(Query(CleanSegment(piece), None))))
  {
    var elem := CleanSegment(piece);
    if elem != [] {
      var keys := SegmentKeys(keyOf, detect, elem);
      if Fetch(cache, keys[0]).Some? {
        assert FirstHit(cache, keys) == Some(0);
      }
    }
  }

  /** What lines 294-297 write in the `geoID` column. */
  datatype GeoId = NotFound | Found(places: seq<Place>)

  function GeoIdOf(places: seq<Place>): GeoId {
    if places == [] then NotFound else Found(places)
  }

  /** A row has at most one answer per piece, and a row whose flag is set
      always has one: `exactlocation` true never goes with `"not found"`. */
  lemma ExactImpliesFound(cache: Cache, keyOf: KeyOf, detect: Detector, pieces: seq<string>)
    ensures var outs := Outcomes(cache, keyOf, detect, pieces);
      && |Places(outs)| <= |pieces|
      && (Flag(outs) ==> GeoIdOf(Places(outs)).Found?)
  {
    var outs := Outcomes(cache, keyOf, detect, pieces);
    forall i | 0 <= i < |outs| && outs[i].Looked? && outs[i].exact
      ensures outs[i].place.Some?
    {
      PieceOutcomeSpec(cache, keyOf, detect, pieces[i]);
    }
    PlacesBound(outs);
  }

  /** Lines 225-293 for one piece: cleaned, skipped when empty, otherwise
      resolved. */
  method ResolvePiece(cache: Cache, keyOf: KeyOf, detect: Detector, piece: string)
    returns (o: PieceOutcome)
    ensures o == PieceOutcomeOf(cache, keyOf, detect, piece)
  {
    var elem := CleanSegment(piece);
    if |elem| == 0 {
      return Skipped;
    }
    var out, ex, tried := ResolveSegment(cache, keyOf, detect, elem);
    o := Looked(out, ex, tried);
  }

  /** One more piece adds its answer, its keys and its flag. */
  lemma RowStep(outs: seq<PieceOutcome>, k: nat)
    requires k < |outs|
    ensures var o := outs[k];
      && Places(outs[..k + 1]) == Places(outs[..k]) + (if o.Looked? && o.place.Some? then [o.place.value] else [])
      && Lookups(outs[..k + 1]) == Lookups(outs[..k]) + (if o.Looked? then o.tried else [])
      && Flag(outs[..k + 1]) == (Flag(outs[..k]) || (o.Looked? && o.exact))
  {
    assert outs[..k + 1][..k] == outs[..k];
  }

  /** Lines 209-298 for one row, as the source runs them: the pieces in
      order, each cleaned and, when not empty, resolved; `lookups` lists the
      keys looked up. */
  method ResolveRow(cache: Cache, keyOf: KeyOf, detect: Detector, hint: string)
    returns (geo: GeoId, exact: bool, lookups: seq<string>)
    ensures var outs := Outcomes(cache, keyOf, detect, Segments(hint));
      && geo == GeoIdOf(Places(outs))
      && exact == Flag(outs)
      && lookups == Lookups(outs)
  {
    var result: seq<Place> := [];
    lookups := [];
    var decoded := Decode(hint);
    decoded := RemoveAll(decoded, "\"");
    decoded := RemoveAll(decoded, "(c)");
    decoded := RemoveAll(decoded, "@");
    var split := SplitTags(decoded);
    ghost var outs := Outcomes(cache, keyOf, detect, split);
    var flagAccurate := false;
    for k := 0 to |split|
      invariant result == Places(outs[..k])
      invariant lookups == Lookups(outs[..k])
      invariant flagAccurate == Flag(outs[..k])
    {
      var o := ResolvePiece(cache, keyOf, detect, split[k]);
      RowStep(outs, k);
      if o.Looked? {
        if o.place.Some? {
          result := result + [o.place.value];
        }
        lookups := lookups + o.tried;
        if o.exact {
          flagAccurate := true;
        }
      }
    }
    assert outs[..|split|] == outs;
    geo := if result != [] then Found(result) else NotFound;
    exact := flagAccurate;
  }
}
