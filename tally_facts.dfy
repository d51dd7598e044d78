/**
 * What the two tallies count. Occurrences are counted by pattern (a
 * phoneme, optionally a position tag and optionally a status); the lemmas
 * show that every cell and every counter of a tally is such a count over
 * the occurrences of the results object, and when a tally fails.
 */
module TallyFacts {
  import opened Phonemes
  import opened Results
  import opened Positions

  /** A phoneme, optionally restricted to one position tag and one status. */
  datatype Pattern = Pattern(phoneme: Phoneme, position: Option<Position>, status: Option<Status>)

  predicate Matches(o: Occurrence, pat: Pattern)
  {
    o.phoneme == pat.phoneme &&
    (pat.position.None? || o.position == pat.position.value) &&
    (pat.status.None? || o.status == pat.status.value)
  }

  /** The number of occurrences matching a pattern. */
  ghost function Count(os: seq<Occurrence>, pat: Pattern): nat
    decreases |os|
  {
    if os == [] then 0
    else Count(os[..|os| - 1], pat) + (if Matches(os[|os| - 1], pat) then 1 else 0)
  }

  ghost function Of(p: Phoneme): Pattern { Pattern(p, None, None) }
  ghost function At(p: Phoneme, pos: Position): Pattern { Pattern(p, Some(pos), None) }
  ghost function With(p: Phoneme, s: Status): Pattern { Pattern(p, None, Some(s)) }
  ghost function CorrectAt(p: Phoneme, pos: Position): Pattern { Pattern(p, Some(pos), Some(OK)) }

  lemma CountLast(os: seq<Occurrence>, o: Occurrence, pat: Pattern)
    ensures Count(os + [o], pat) == Count(os, pat) + (if Matches(o, pat) then 1 else 0)
  {
    assert (os + [o])[..|os|] == os;
  }

  lemma {:induction false} CountAppend(a: seq<Occurrence>, b: seq<Occurrence>, pat: Pattern)
    ensures Count(a + b, pat) == Count(a, pat) + Count(b, pat)
    decreases |b|
  {
    if b == [] {
      assert a + b == a;
    } else {
      var b' := b[..|b| - 1];
      assert a + b == (a + b') + [b[|b| - 1]];
      assert b == b' + [b[|b| - 1]];
      CountAppend(a, b', pat);
      CountLast(a + b', b[|b| - 1], pat);
      CountLast(b', b[|b| - 1], pat);
    }
  }

  /** A count is positive exactly when some occurrence matches. */
  lemma {:induction false} CountPositive(os: seq<Occurrence>, pat: Pattern)
    ensures Count(os, pat) > 0 <==> exists i :: 0 <= i < |os| && Matches(os[i], pat)
    decreases |os|
  {
    if os != [] {
      var os' := os[..|os| - 1];
      CountPositive(os', pat);
      if Count(os', pat) > 0 {
        var i :| 0 <= i < |os'| && Matches(os'[i], pat);
        assert os[i] == os'[i];
      }
      if exists i :: 0 <= i < |os| && Matches(os[i], pat) {
        var i :| 0 <= i < |os| && Matches(os[i], pat);
        if i < |os'| {
          assert os'[i] == os[i];
        }
      }
    }
  }

  /**
   * The occurrences of a phoneme split by position tag, and a status
   * restriction never counts more.
   */
  lemma {:induction false} CountSplit(os: seq<Occurrence>, p: Phoneme, pos: Position, s: Status)
    ensures Count(os, Of(p)) == Count(os, At(p, I)) + Count(os, At(p, M)) + Count(os, At(p, F))
    ensures Count(os, Pattern(p, Some(pos), Some(s))) <= Count(os, At(p, pos))
    ensures Count(os, With(p, s)) <= Count(os, Of(p))
    decreases |os|
  {
    if os != [] {
      CountSplit(os[..|os| - 1], p, pos, s);
    }
  }

  /**
   * Fewer occurrences with status s than occurrences at all exactly when
   * some occurrence of the phoneme has another status.
   */
  lemma {:induction false} CountOthers(os: seq<Occurrence>, p: Phoneme, s: Status)
    ensures Count(os, With(p, s)) < Count(os, Of(p)) <==>
            exists i :: 0 <= i < |os| && os[i].phoneme == p && os[i].status != s
    decreases |os|
  {
    if os != [] {
      var os' := os[..|os| - 1];
      CountOthers(os', p, s);
      CountSplit(os', p, I, s);
      if exists i :: 0 <= i < |os'| && os'[i].phoneme == p && os'[i].status != s {
        var i :| 0 <= i < |os'| && os'[i].phoneme == p && os'[i].status != s;
        assert os[i] == os'[i];
      }
      if exists i :: 0 <= i < |os| && os[i].phoneme == p && os[i].status != s {
        var i :| 0 <= i < |os| && os[i].phoneme == p && os[i].status != s;
        if i < |os'| {
          assert os'[i] == os[i];
        }
      }
    }
  }

  // ---------------------------------------------------------------------
  // Occurrences of a results object
  // ---------------------------------------------------------------------

  /** No occurrence of a results object is tagged F. */
  lemma {:induction false} NoFinalOccurrence(results: Results, transcribe: string -> Word)
    requires AllSameLength(results, transcribe)
    ensures forall i :: 0 <= i < |Occurrences(results, transcribe)| ==> Occurrences(results, transcribe)[i].position != F
    decreases |results|
  {
    if results != [] {
      OccurrencesSplit(results, transcribe);
      NoFinalOccurrence(results[..|results| - 1], transcribe);
    }
  }

  /** The occurrences of a results object end with those of its last entry. */
  lemma OccurrencesSplit(results: Results, transcribe: string -> Word)
    requires AllSameLength(results, transcribe) && results != []
    ensures AllSameLength(results[..|results| - 1], transcribe)
    ensures SameLength(results[|results| - 1].1, transcribe(results[|results| - 1].0))
    ensures Occurrences(results, transcribe) ==
      Occurrences(results[..|results| - 1], transcribe) +
      Zip(transcribe(results[|results| - 1].0).phonemes, results[|results| - 1].1)
  {
    PrefixSameLength(results, transcribe, |results| - 1);
  }

  lemma PrefixSameLength(results: Results, transcribe: string -> Word, n: nat)
    requires AllSameLength(results, transcribe) && n <= |results|
    ensures AllSameLength(results[..n], transcribe)
  {
    var prefix := results[..n];
    assert forall i :: 0 <= i < |prefix| ==> prefix[i] == results[i];
  }

  /** Every status of every entry is the status of some occurrence. */
  lemma {:induction false} OccurrencesCover(results: Results, transcribe: string -> Word, k: nat, j: nat)
    requires AllSameLength(results, transcribe)
    requires k < |results| && j < |results[k].1|
    ensures exists i :: 0 <= i < |Occurrences(results, transcribe)| && Occurrences(results, transcribe)[i].status == results[k].1[j]
    decreases |results|
  {
    var prefix := results[..|results| - 1];
    OccurrencesSplit(results, transcribe);
    var before := Occurrences(prefix, transcribe);
    var zipped := Zip(transcribe(results[|results| - 1].0).phonemes, results[|results| - 1].1);
    var all := Occurrences(results, transcribe);
    assert all == before + zipped;
    if k < |prefix| {
      assert prefix[k] == results[k];
      OccurrencesCover(prefix, transcribe, k, j);
      var i :| 0 <= i < |before| && before[i].status == results[k].1[j];
      assert all[i] == before[i];
    } else {
      assert all[|before| + j] == zipped[j];
    }
  }

  /** Every occurrence carries a status of some entry. */
  lemma {:induction false} OccurrencesFrom(results: Results, transcribe: string -> Word, i: nat)
    requires AllSameLength(results, transcribe)
    requires i < |Occurrences(results, transcribe)|
    ensures exists k, j :: 0 <= k < |results| && 0 <= j < |results[k].1| && results[k].1[j] == Occurrences(results, transcribe)[i].status
    decreases |results|
  {
    var prefix := results[..|results| - 1];
    OccurrencesSplit(results, transcribe);
    var before := Occurrences(prefix, transcribe);
    var zipped := Zip(transcribe(results[|results| - 1].0).phonemes, results[|results| - 1].1);
    var all := Occurrences(results, transcribe);
    assert all == before + zipped;
    if i < |before| {
      assert all[i] == before[i];
      OccurrencesFrom(prefix, transcribe, i);
      var k, j :| 0 <= k < |prefix| && 0 <= j < |prefix[k].1| && prefix[k].1[j] == before[i].status;
      assert results[k] == prefix[k];
    } else {
      var j := i - |before|;
      assert all[i] == zipped[j];
      assert results[|results| - 1].1[j] == zipped[j].status;
    }
  }

  // ---------------------------------------------------------------------
  // The tally by position
  // ---------------------------------------------------------------------

  /**
   * A per-position tally describes a list of occurrences: its phonemes are
   * those that occur, each listed once; a phoneme has a cell for exactly
   * the tags it occurs at; and a cell holds the number of occurrences at
   * that tag (tested) and of those with status OK (correct).
   */
  ghost predicate DescribesPositions(t: PositionTally, os: seq<Occurrence>)
  {
    KeysOccur(t.order, t.cells.Keys, os) && CellsCount(t.cells, os)
  }

  /** The listed phonemes are those that occur, each listed once. */
  ghost predicate KeysOccur(order: seq<Phoneme>, keys: set<Phoneme>, os: seq<Occurrence>)
  {
    Distinct(order) &&
    (forall p :: p in order <==> p in keys) &&
    (forall p :: p in keys <==> Count(os, Of(p)) > 0)
  }

  /** Cells exist for the tags that occur and count tested and correct. */
  ghost predicate CellsCount(cells: map<Phoneme, PositionCells>, os: seq<Occurrence>)
  {
    (forall p, pos :: p in cells ==> (pos in cells[p] <==> Count(os, At(p, pos)) > 0)) &&
    (forall p, pos :: p in cells && pos in cells[p] ==>
       cells[p][pos] == Cell(Count(os, CorrectAt(p, pos)), Count(os, At(p, pos))))
  }

  lemma KeysOccurStep(order: seq<Phoneme>, keys: set<Phoneme>, os: seq<Occurrence>, o: Occurrence)
    requires KeysOccur(order, keys, os)
    ensures o.phoneme in keys ==> KeysOccur(order, keys + {o.phoneme}, os + [o])
    ensures o.phoneme !in keys ==> KeysOccur(order + [o.phoneme], keys + {o.phoneme}, os + [o])
  {
    forall p {
      CountLast(os, o, Of(p));
    }
    if o.phoneme !in keys {
      var order' := order + [o.phoneme];
      forall i, j | 0 <= i < j < |order'| ensures order'[i] != order'[j] {
        if j == |order| {
          assert order'[i] == order[i];
        }
      }
    }
  }

  lemma CellsCountStep(t: PositionTally, os: seq<Occurrence>, o: Occurrence)
    requires KeysOccur(t.order, t.cells.Keys, os) && CellsCount(t.cells, os)
    ensures CellsCount(AddToPositions(t, o).cells, os + [o])
  {
    var cells := AddToPositions(t, o).cells;
    forall p, pos | p in cells
      ensures pos in cells[p] <==> Count(os + [o], At(p, pos)) > 0
      ensures pos in cells[p] ==>
        cells[p][pos] == Cell(Count(os + [o], CorrectAt(p, pos)), Count(os + [o], At(p, pos)))
    {
      CellStep(t, os, o, p, pos);
    }
  }

  /** One cell after recording one more occurrence. */
  lemma CellStep(t: PositionTally, os: seq<Occurrence>, o: Occurrence, p: Phoneme, pos: Position)
    requires KeysOccur(t.order, t.cells.Keys, os) && CellsCount(t.cells, os)
    requires p in AddToPositions(t, o).cells
    ensures var cells := AddToPositions(t, o).cells;
      (pos in cells[p] <==> Count(os + [o], At(p, pos)) > 0) &&
      (pos in cells[p] ==>
        cells[p][pos] == Cell(Count(os + [o], CorrectAt(p, pos)), Count(os + [o], At(p, pos))))
  {
    CountLast(os, o, At(p, pos));
    CountLast(os, o, CorrectAt(p, pos));
    CountSplit(os, p, pos, OK);
  }

  lemma AddToPositionsDescribes(t: PositionTally, os: seq<Occurrence>, o: Occurrence)
    requires DescribesPositions(t, os)
    ensures DescribesPositions(AddToPositions(t, o), os + [o])
  {
    KeysOccurStep(t.order, t.cells.Keys, os, o);
    CellsCountStep(t, os, o);
    assert AddToPositions(t, o).cells.Keys == t.cells.Keys + {o.phoneme};
  }

  lemma {:induction false} PositionTallyDescribes(os: seq<Occurrence>)
    ensures DescribesPositions(AddAllToPositions(NoPositions, os), os)
    decreases |os|
  {
    if os != [] {
      var os' := os[..|os| - 1];
      PositionTallyDescribes(os');
      AddToPositionsDescribes(AddAllToPositions(NoPositions, os'), os', os[|os| - 1]);
      assert os' + [os[|os| - 1]] == os;
    }
  }

  /** The tested counts of one phoneme's cells, added up. */
  function RowTested(row: PositionCells): nat
  {
    (if I in row then row[I].tested else 0) +
    (if M in row then row[M].tested else 0) +
    (if F in row then row[F].tested else 0)
  }

  /** The tested counts of all cells of a tally, added up. */
  function TotalTested(order: seq<Phoneme>, cells: map<Phoneme, PositionCells>): nat
  {
    if order == [] then 0
    else (if order[0] in cells then RowTested(cells[order[0]]) else 0) + TotalTested(order[1..], cells)
  }

  /** The occurrences of each phoneme of a list, added up. */
  ghost function CountAll(order: seq<Phoneme>, os: seq<Occurrence>): nat
  {
    if order == [] then 0 else Count(os, Of(order[0])) + CountAll(order[1..], os)
  }

  lemma {:induction false} CountAllLast(order: seq<Phoneme>, os: seq<Occurrence>, o: Occurrence)
    requires Distinct(order)
    ensures CountAll(order, os + [o]) == CountAll(order, os) + (if o.phoneme in order then 1 else 0)
    decreases |order|
  {
    if order != [] {
      CountLast(os, o, Of(order[0]));
      assert Distinct(order[1..]);
      CountAllLast(order[1..], os, o);
      assert o.phoneme in order <==> o.phoneme == order[0] || o.phoneme in order[1..];
      if o.phoneme == order[0] {
        assert o.phoneme !in order[1..];
      }
    }
  }

  lemma {:induction false} CountAllOccurrences(order: seq<Phoneme>, os: seq<Occurrence>)
    requires Distinct(order)
    requires forall i :: 0 <= i < |os| ==> os[i].phoneme in order
    ensures CountAll(order, os) == |os|
    decreases |os|
  {
    if os == [] {
      CountAllNone(order);
    } else {
      var os' := os[..|os| - 1];
      CountAllOccurrences(order, os');
      CountAllLast(order, os', os[|os| - 1]);
      assert os' + [os[|os| - 1]] == os;
    }
  }

  lemma {:induction false} CountAllNone(order: seq<Phoneme>)
    ensures CountAll(order, []) == 0
    decreases |order|
  {
    if order != [] {
      CountAllNone(order[1..]);
    }
  }

  lemma {:induction false} TotalTestedIsCountAll(t: PositionTally, os: seq<Occurrence>, order: seq<Phoneme>)
    requires DescribesPositions(t, os)
    requires forall p :: p in order ==> p in t.order
    ensures TotalTested(order, t.cells) == CountAll(order, os)
    decreases |order|
  {
    if order != [] {
      var p := order[0];
      CountSplit(os, p, I, OK);
      TotalTestedIsCountAll(t, os, order[1..]);
    }
  }

  /**
   * The tested counts of all cells add up to the number of occurrences.
   */
  lemma TotalTestedIsLength(os: seq<Occurrence>)
    ensures var t := AddAllToPositions(NoPositions, os);
            TotalTested(t.order, t.cells) == |os|
  {
    var t := AddAllToPositions(NoPositions, os);
    PositionTallyDescribes(os);
    TotalTestedIsCountAll(t, os, t.order);
    forall i | 0 <= i < |os| ensures os[i].phoneme in t.order {
      CountPositive(os, Of(os[i].phoneme));
    }
    CountAllOccurrences(t.order, os);
  }

  lemma {:induction false} AddAllToPositionsAppend(t: PositionTally, a: seq<Occurrence>, b: seq<Occurrence>)
    ensures AddAllToPositions(t, a + b) == AddAllToPositions(AddAllToPositions(t, a), b)
    decreases |b|
  {
    if b == [] {
      assert a + b == a;
    } else {
      var b' := b[..|b| - 1];
      assert (a + b)[..|a + b| - 1] == a + b';
      assert (a + b)[|a + b| - 1] == b[|b| - 1];
      AddAllToPositionsAppend(t, a, b');
    }
  }

  /** The tally of a results object extended by one entry. */
  lemma PositionTallyOfLast(results: Results, transcribe: string -> Word)
    requires results != []
    ensures var n := |results| - 1;
      PositionTallyOf(results, transcribe) ==
        if PositionTallyOf(results[..n], transcribe).Err? then PositionTallyOf(results[..n], transcribe)
        else if !SameLength(results[n].1, transcribe(results[n].0)) then Err(LengthMismatch(transcribe(results[n].0).raw))
        else Ok(AddAllToPositions(PositionTallyOf(results[..n], transcribe).value,
                                  Zip(transcribe(results[n].0).phonemes, results[n].1)))
  {
  }

  /**
   * The per-position tally of a results object succeeds exactly when every
   * entry's statuses line up with its expected phonemes, and is then the
   * tally of all its occurrences; otherwise it reports the first entry
   * that does not line up.
   */
  lemma PositionTallyOfOk(results: Results, transcribe: string -> Word)
    ensures PositionTallyOf(results, transcribe).Ok? <==> AllSameLength(results, transcribe)
    ensures PositionTallyOf(results, transcribe).Ok? ==>
      PositionTallyOf(results, transcribe).value == AddAllToPositions(NoPositions, Occurrences(results, transcribe))
    ensures PositionTallyOf(results, transcribe).Err? ==>
      exists i: nat :: FirstMismatch(results, transcribe, i) && PositionTallyOf(results, transcribe).error == LengthMismatch(transcribe(results[i].0).raw)
  {
    PositionTallyError(results, transcribe);
    if PositionTallyOf(results, transcribe).Ok? {
      PositionTallyOkPrefix(results, transcribe);
    }
    if AllSameLength(results, transcribe) {
      PositionTallyValue(results, transcribe);
    }
  }

  lemma {:induction false} PositionTallyValue(results: Results, transcribe: string -> Word)
    requires AllSameLength(results, transcribe)
    ensures PositionTallyOf(results, transcribe) == Ok(AddAllToPositions(NoPositions, Occurrences(results, transcribe)))
    decreases |results|
  {
    if results != [] {
      var n := |results| - 1;
      var prefix := results[..n];
      OccurrencesSplit(results, transcribe);
      PositionTallyValue(prefix, transcribe);
      PositionTallyOfLast(results, transcribe);
      AddAllToPositionsAppend(NoPositions, Occurrences(prefix, transcribe), Zip(transcribe(results[n].0).phonemes, results[n].1));
    }
  }

  lemma {:induction false} PositionTallyError(results: Results, transcribe: string -> Word)
    ensures PositionTallyOf(results, transcribe).Err? ==>
      exists i: nat :: FirstMismatch(results, transcribe, i) && PositionTallyOf(results, transcribe).error == LengthMismatch(transcribe(results[i].0).raw)
    decreases |results|
  {
    if results != [] && PositionTallyOf(results, transcribe).Err? {
      var n := |results| - 1;
      var prefix := results[..n];
      assert forall i :: 0 <= i < n ==> prefix[i] == results[i];
      PositionTallyError(prefix, transcribe);
      PositionTallyOfLast(results, transcribe);
      if PositionTallyOf(prefix, transcribe).Err? {
        var i: nat :| FirstMismatch(prefix, transcribe, i) && PositionTallyOf(prefix, transcribe).error == LengthMismatch(transcribe(prefix[i].0).raw);
        assert FirstMismatch(results, transcribe, i);
      } else {
        PositionTallyOkPrefix(prefix, transcribe);
        assert FirstMismatch(results, transcribe, n);
      }
    }
  }

  lemma PositionTallyOkLast(results: Results, transcribe: string -> Word)
    requires results != [] && PositionTallyOf(results, transcribe).Ok?
    ensures PositionTallyOf(results[..|results| - 1], transcribe).Ok?
    ensures SameLength(results[|results| - 1].1, transcribe(results[|results| - 1].0))
  {
  }

  /** A successful tally means every entry lines up. */
  lemma {:induction false} PositionTallyOkPrefix(results: Results, transcribe: string -> Word)
    requires PositionTallyOf(results, transcribe).Ok?
    ensures AllSameLength(results, transcribe)
    decreases |results|
  {
    if results != [] {
      var n := |results| - 1;
      var prefix := results[..n];
      PositionTallyOkLast(results, transcribe);
      PositionTallyOkPrefix(prefix, transcribe);
      SameLengthExtend(results, transcribe);
    }
  }

  lemma SameLengthExtend(results: Results, transcribe: string -> Word)
    requires results != [] && AllSameLength(results[..|results| - 1], transcribe)
    requires SameLength(results[|results| - 1].1, transcribe(results[|results| - 1].0))
    ensures AllSameLength(results, transcribe)
  {
    var prefix := results[..|results| - 1];
    forall i | 0 <= i < |results| ensures SameLength(results[i].1, transcribe(results[i].0)) {
      if i < |prefix| {
        assert prefix[i] == results[i];
      }
    }
  }

  /**
   * What a successful per-position tally holds: it describes the
   * occurrences, no cell counts more correct than tested pairs, no phoneme
   * has a cell for F, and the tested counts add up to the number of pairs.
   */
  lemma PositionTallyCounts(results: Results, transcribe: string -> Word)
    requires PositionTallyOf(results, transcribe).Ok?
    ensures AllSameLength(results, transcribe)
    ensures DescribesPositions(PositionTallyOf(results, transcribe).value, Occurrences(results, transcribe))
    ensures var cells := PositionTallyOf(results, transcribe).value.cells;
      forall p, pos :: p in cells && pos in cells[p] ==> cells[p][pos].correct <= cells[p][pos].tested
    ensures var cells := PositionTallyOf(results, transcribe).value.cells;
      forall p :: p in cells ==> F !in cells[p]
    ensures var t := PositionTallyOf(results, transcribe).value;
      TotalTested(t.order, t.cells) == |Occurrences(results, transcribe)|
  {
    PositionTallyOfOk(results, transcribe);
    var os := Occurrences(results, transcribe);
    var t := PositionTallyOf(results, transcribe).value;
    PositionTallyDescribes(os);
    TotalTestedIsLength(os);
    forall p, pos | p in t.cells && pos in t.cells[p]
      ensures t.cells[p][pos].correct <= t.cells[p][pos].tested
    {
      CountSplit(os, p, pos, OK);
    }
    forall p | p in t.cells
      ensures F !in t.cells[p]
    {
      NoFinalOccurrence(results, transcribe);
      CountPositive(os, At(p, F));
    }
  }

  // ---------------------------------------------------------------------
  // The tally by status
  // ---------------------------------------------------------------------

  /** Every occurrence has a status that names a counter. */
  ghost predicate AllBuckets(os: seq<Occurrence>)
  {
    forall i :: 0 <= i < |os| ==> IsBucket(os[i].status)
  }

  /**
   * The counters a phoneme should have after a list of occurrences: one
   * per status bucket, and `all` counting every occurrence once plus once
   * more for each occurrence whose status is `all` itself.
   */
  ghost function Counted(os: seq<Occurrence>, p: Phoneme): StatusCounts
  {
    StatusCounts(Count(os, With(p, "OK")), Count(os, With(p, "NZ")), Count(os, With(p, "D")),
                 Count(os, With(p, "A")), Count(os, Of(p)) + Count(os, With(p, "all")))
  }

  /** A per-status tally describes a list of occurrences. */
  ghost predicate DescribesStatuses(t: StatusTally, os: seq<Occurrence>)
  {
    KeysOccur(t.order, t.counts.Keys, os) &&
    forall p :: p in t.counts ==> t.counts[p] == Counted(os, p)
  }

  lemma {:induction false} AddAllToStatusesAppend(t: StatusTally, a: seq<Occurrence>, b: seq<Occurrence>)
    ensures AddAllToStatuses(t, a + b) ==
      if AddAllToStatuses(t, a).Err? then AddAllToStatuses(t, a)
      else AddAllToStatuses(AddAllToStatuses(t, a).value, b)
    decreases |b|
  {
    if b == [] {
      assert a + b == a;
    } else {
      var b' := b[..|b| - 1];
      assert (a + b)[..|a + b| - 1] == a + b';
      assert (a + b)[|a + b| - 1] == b[|b| - 1];
      AddAllToStatusesAppend(t, a, b');
    }
  }

  /**
   * Recording occurrences fails exactly when one has a status naming no
   * counter, and the error names such a status.
   */
  lemma {:induction false} AddAllToStatusesFails(t: StatusTally, os: seq<Occurrence>)
    ensures AddAllToStatuses(t, os).Ok? <==> AllBuckets(os)
    ensures AddAllToStatuses(t, os).Err? ==>
      exists i :: 0 <= i < |os| && !IsBucket(os[i].status) &&
                  AddAllToStatuses(t, os).error == InvalidStatus(os[i].status)
    decreases |os|
  {
    if os != [] {
      var os' := os[..|os| - 1];
      AddAllToStatusesFails(t, os');
      assert forall i :: 0 <= i < |os'| ==> os'[i] == os[i];
      if AddAllToStatuses(t, os').Err? {
        var i :| 0 <= i < |os'| && !IsBucket(os'[i].status) &&
                 AddAllToStatuses(t, os').error == InvalidStatus(os'[i].status);
        assert !IsBucket(os[i].status);
      }
    }
  }

  /** One more occurrence bumps its phoneme's status counter and `all`. */
  lemma CountedLast(os: seq<Occurrence>, o: Occurrence, p: Phoneme)
    requires IsBucket(o.status)
    ensures Counted(os + [o], p) ==
      if p == o.phoneme then Bump(Bump(Counted(os, p), o.status), "all") else Counted(os, p)
  {
    CountLast(os, o, Of(p));
    CountLast(os, o, With(p, "OK"));
    CountLast(os, o, With(p, "NZ"));
    CountLast(os, o, With(p, "D"));
    CountLast(os, o, With(p, "A"));
    CountLast(os, o, With(p, "all"));
  }

  /** A phoneme that never occurs has all counters at zero. */
  lemma CountedNone(os: seq<Occurrence>, p: Phoneme)
    requires Count(os, Of(p)) == 0
    ensures Counted(os, p) == NoCounts
  {
    CountSplit(os, p, I, "OK");
    CountSplit(os, p, I, "NZ");
    CountSplit(os, p, I, "D");
    CountSplit(os, p, I, "A");
    CountSplit(os, p, I, "all");
  }

  lemma AddToStatusesDescribes(t: StatusTally, os: seq<Occurrence>, o: Occurrence)
    requires DescribesStatuses(t, os) && IsBucket(o.status)
    ensures AddToStatuses(t, o).Ok?
    ensures DescribesStatuses(AddToStatuses(t, o).value, os + [o])
  {
    var t' := AddToStatuses(t, o).value;
    KeysOccurStep(t.order, t.counts.Keys, os, o);
    forall p | p in t'.counts ensures t'.counts[p] == Counted(os + [o], p) {
      CountedLast(os, o, p);
      if p !in t.counts {
        CountedNone(os, p);
      }
    }
  }

  lemma {:induction false} StatusTallyDescribes(os: seq<Occurrence>)
    requires AllBuckets(os)
    ensures AddAllToStatuses(NoStatuses, os).Ok?
    ensures DescribesStatuses(AddAllToStatuses(NoStatuses, os).value, os)
    decreases |os|
  {
    if os != [] {
      var os' := os[..|os| - 1];
      assert AllBuckets(os') by {
        assert forall i :: 0 <= i < |os'| ==> os'[i] == os[i];
      }
      StatusTallyDescribes(os');
      var o := os[|os| - 1];
      assert IsBucket(o.status);
      var t := AddAllToStatuses(NoStatuses, os').value;
      AddToStatusesDescribes(t, os', o);
      assert os' + [o] == os;
      assert AddAllToStatuses(NoStatuses, os) == AddToStatuses(t, o);
    }
  }

  /** A successful per-status tally means every entry lines up. */
  lemma {:induction false} StatusTallyOkPrefix(results: Results, transcribe: string -> Word)
    requires StatusTallyOf(results, transcribe).Ok?
    ensures AllSameLength(results, transcribe)
    decreases |results|
  {
    if results != [] {
      var n := |results| - 1;
      StatusTallyOkLast(results, transcribe);
      StatusTallyOkPrefix(results[..n], transcribe);
      SameLengthExtend(results, transcribe);
    }
  }

  lemma StatusTallyOkLast(results: Results, transcribe: string -> Word)
    requires results != [] && StatusTallyOf(results, transcribe).Ok?
    ensures StatusTallyOf(results[..|results| - 1], transcribe).Ok?
    ensures SameLength(results[|results| - 1].1, transcribe(results[|results| - 1].0))
  {
  }

  lemma {:induction false} StatusTallyValue(results: Results, transcribe: string -> Word)
    requires AllSameLength(results, transcribe)
    ensures StatusTallyOf(results, transcribe) == AddAllToStatuses(NoStatuses, Occurrences(results, transcribe))
    decreases |results|
  {
    if results != [] {
      var n := |results| - 1;
      var prefix := results[..n];
      OccurrencesSplit(results, transcribe);
      StatusTallyValue(prefix, transcribe);
      AddAllToStatusesAppend(NoStatuses, Occurrences(prefix, transcribe), Zip(transcribe(results[n].0).phonemes, results[n].1));
    }
  }

  /**
   * The per-status tally of a results object succeeds exactly when every
   * entry lines up and every status names a counter; it then describes
   * all occurrences of the results object.
   */
  lemma StatusTallyOfOk(results: Results, transcribe: string -> Word)
    ensures StatusTallyOf(results, transcribe).Ok? <==>
      AllSameLength(results, transcribe) && AllBuckets(Occurrences(results, transcribe))
    ensures StatusTallyOf(results, transcribe).Ok? ==>
      DescribesStatuses(StatusTallyOf(results, transcribe).value, Occurrences(results, transcribe))
  {
    if StatusTallyOf(results, transcribe).Ok? {
      StatusTallyOkPrefix(results, transcribe);
    }
    if AllSameLength(results, transcribe) {
      var os := Occurrences(results, transcribe);
      StatusTallyValue(results, transcribe);
      AddAllToStatusesFails(NoStatuses, os);
      if AllBuckets(os) {
        StatusTallyDescribes(os);
      }
    }
  }

  /**
   * A failed per-status tally names either an entry whose statuses do not
   * line up or a status, found in the results, that names no counter.
   */
  lemma {:induction false} StatusTallyError(results: Results, transcribe: string -> Word)
    requires StatusTallyOf(results, transcribe).Err?
    ensures var e := StatusTallyOf(results, transcribe).error;
      (e.LengthMismatch? &&
         exists i :: 0 <= i < |results| && !SameLength(results[i].1, transcribe(results[i].0)) &&
                     e.word == transcribe(results[i].0).raw) ||
      (e.InvalidStatus? && !IsBucket(e.status) &&
         exists k, j :: 0 <= k < |results| && 0 <= j < |results[k].1| && results[k].1[j] == e.status)
    decreases |results|
  {
    var n := |results| - 1;
    var prefix := results[..n];
    assert forall i :: 0 <= i < n ==> prefix[i] == results[i];
    if StatusTallyOf(prefix, transcribe).Err? {
      StatusTallyError(prefix, transcribe);
    } else if !SameLength(results[n].1, transcribe(results[n].0)) {
    } else {
      var zipped := Zip(transcribe(results[n].0).phonemes, results[n].1);
      AddAllToStatusesFails(StatusTallyOf(prefix, transcribe).value, zipped);
    }
  }

  /**
   * A freshly seeded results object cannot be tallied by status once it
   * holds a non-empty word: either a word does not line up or the empty
   * status it was seeded with is rejected.
   */
  lemma SeedIsRejected(words: seq<string>, transcribe: string -> Word, w: string)
    requires w in words && w != ""
    ensures StatusTallyOf(InitialResults(words), transcribe).Err?
    ensures var e := StatusTallyOf(InitialResults(words), transcribe).error;
      e.LengthMismatch? || e == InvalidStatus("")
  {
    var r := InitialResults(words);
    SeedStatusesEmpty(words);
    var k := SeedEntry(words, w);
    assert |r[k].1| == |w| > 0;
    StatusTallyOfOk(r, transcribe);
    if AllSameLength(r, transcribe) {
      OccurrencesCover(r, transcribe, k, 0);
    }
    StatusTallyError(r, transcribe);
  }

  /** Every status of a seeded results object is the empty string. */
  lemma SeedStatusesEmpty(words: seq<string>)
    ensures var r := InitialResults(words);
      forall k, j :: 0 <= k < |r| && 0 <= j < |r[k].1| ==> r[k].1[j] == ""
  {
    var r := InitialResults(words);
    forall k, j | 0 <= k < |r| && 0 <= j < |r[k].1| ensures r[k].1[j] == "" {
      assert r[k] in r;
    }
  }

  /** Where a word of the list sits in its seed. */
  lemma SeedEntry(words: seq<string>, w: string) returns (k: nat)
    requires w in words
    ensures k < |InitialResults(words)| && InitialResults(words)[k] == (w, InitialResult(w))
  {
    InitialResultsLookup(words, w);
    var r := InitialResults(words);
    assert (w, InitialResult(w)) in r;
    k :| 0 <= k < |r| && r[k] == (w, InitialResult(w));
  }

  // ---------------------------------------------------------------------
  // The positions at which a phoneme is expected
  // ---------------------------------------------------------------------

  /** A word's tags for p are the tags of its zipped occurrences of p. */
  lemma ZipPositions(phonemes: seq<Phoneme>, statuses: seq<Status>, p: Phoneme, pos: Position)
    requires |phonemes| == |statuses|
    ensures pos in WordPositions(phonemes, p) <==> Count(Zip(phonemes, statuses), At(p, pos)) > 0
  {
    var z := Zip(phonemes, statuses);
    CountPositive(z, At(p, pos));
    if pos in WordPositions(phonemes, p) {
      var i :| 0 <= i < |phonemes| && phonemes[i] == p && PositionOf(i, |phonemes|) == pos;
      assert Matches(z[i], At(p, pos));
    }
    if Count(z, At(p, pos)) > 0 {
      var i :| 0 <= i < |z| && Matches(z[i], At(p, pos));
      assert PositionOf(i, |phonemes|) in WordPositions(phonemes, p);
    }
  }

  /**
   * When every entry lines up, p is expected at a tag exactly when some
   * zipped occurrence holds p at that tag.
   */
  lemma {:induction false} AllPositionsOccur(results: Results, p: Phoneme, transcribe: string -> Word)
    requires AllSameLength(results, transcribe)
    ensures forall pos :: pos in AllPositions(results, p, transcribe) <==> Count(Occurrences(results, transcribe), At(p, pos)) > 0
    decreases |results|
  {
    if results != [] {
      var n := |results| - 1;
      OccurrencesSplit(results, transcribe);
      AllPositionsOccur(results[..n], p, transcribe);
      var zipped := Zip(transcribe(results[n].0).phonemes, results[n].1);
      forall pos ensures pos in AllPositions(results, p, transcribe) <==> Count(Occurrences(results, transcribe), At(p, pos)) > 0 {
        CountAppend(Occurrences(results[..n], transcribe), zipped, At(p, pos));
        ZipPositions(transcribe(results[n].0).phonemes, results[n].1, p, pos);
      }
    }
  }

  /**
   * The final tag is never among the collected positions, and the initial
   * one is exactly when some word's expected phonemes start with p.
   */
  lemma {:induction false} AllPositionsTags(results: Results, p: Phoneme, transcribe: string -> Word)
    ensures F !in AllPositions(results, p, transcribe)
    ensures I in AllPositions(results, p, transcribe) <==>
      exists k :: 0 <= k < |results| && transcribe(results[k].0).phonemes != [] && transcribe(results[k].0).phonemes[0] == p
    decreases |results|
  {
    if results != [] {
      var n := |results| - 1;
      var prefix := results[..n];
      AllPositionsTags(prefix, p, transcribe);
      assert forall k :: 0 <= k < n ==> prefix[k] == results[k];
      var phonemes := transcribe(results[n].0).phonemes;
      assert F !in WordPositions(phonemes, p);
      if I in WordPositions(phonemes, p) {
        var i :| 0 <= i < |phonemes| && phonemes[i] == p && PositionOf(i, |phonemes|) == I;
      }
      if phonemes != [] && phonemes[0] == p {
        assert PositionOf(0, |phonemes|) in WordPositions(phonemes, p);
      }
    }
  }

  /**
   * After a successful per-position tally, the positions collected for a
   * tallied phoneme are exactly the tags of its cells.
   */
  lemma AllPositionsAreCells(results: Results, p: Phoneme, transcribe: string -> Word)
    requires PositionTallyOf(results, transcribe).Ok?
    requires p in PositionTallyOf(results, transcribe).value.cells
    ensures AllPositions(results, p, transcribe) == PositionTallyOf(results, transcribe).value.cells[p].Keys
  {
    PositionTallyCounts(results, transcribe);
    AllPositionsOccur(results, p, transcribe);
  }

  // ---------------------------------------------------------------------
  // The order in which the tallies list their phonemes
  // ---------------------------------------------------------------------

  /** The phonemes of the occurrences, one per occurrence, in order. */
  ghost function PhonemesOf(os: seq<Occurrence>): seq<Phoneme>
  {
    seq(|os|, i requires 0 <= i < |os| => os[i].phoneme)
  }

  /** Each listed phoneme is first met in ps before the ones listed after it. */
  ghost predicate ListedByFirstMet(order: seq<Phoneme>, ps: seq<Phoneme>)
  {
    forall i, j :: 0 <= i < j < |order| ==> IndexOf(ps, order[i]) < IndexOf(ps, order[j])
  }

  /**
   * The order of a tally: the phonemes of ps, each once, sorted by where
   * each is first met. Only one list has this property.
   */
  ghost predicate FirstMetOrder(order: seq<Phoneme>, ps: seq<Phoneme>)
  {
    (forall p :: p in order <==> p in ps) && ListedByFirstMet(order, ps)
  }

  /** Meeting one more phoneme leaves where the phonemes already met were first met. */
  lemma IndexOfAppendAll(ps: seq<Phoneme>, x: Phoneme)
    ensures forall p :: p in ps ==> IndexOf(ps + [x], p) == IndexOf(ps, p)
    ensures x !in ps ==> IndexOf(ps + [x], x) == |ps|
  {
    forall p | p in ps
      ensures IndexOf(ps + [x], p) == IndexOf(ps, p)
    {
      IndexOfAppend(ps, x, p);
    }
    IndexOfAppend(ps, x, x);
  }

  /** Meeting one more phoneme keeps the order, appending it if it is new. */
  lemma FirstMetStep(order: seq<Phoneme>, ps: seq<Phoneme>, x: Phoneme)
    requires FirstMetOrder(order, ps)
    ensures x in order ==> FirstMetOrder(order, ps + [x])
    ensures x !in order ==> FirstMetOrder(order + [x], ps + [x])
  {
    IndexOfAppendAll(ps, x);
    if x !in order {
      FirstMetAppend(order, ps, x);
    }
  }

  /** A phoneme met for the first time goes to the end of the order. */
  lemma FirstMetAppend(order: seq<Phoneme>, ps: seq<Phoneme>, x: Phoneme)
    requires FirstMetOrder(order, ps) && x !in ps
    requires forall p :: p in ps ==> IndexOf(ps + [x], p) == IndexOf(ps, p)
    requires IndexOf(ps + [x], x) == |ps|
    ensures ListedByFirstMet(order + [x], ps + [x])
  {
    var order' := order + [x];
    forall i, j | 0 <= i < j < |order'|
      ensures IndexOf(ps + [x], order'[i]) < IndexOf(ps + [x], order'[j])
    {
      assert order'[i] == order[i] && order[i] in ps;
      if j < |order| {
        assert order'[j] == order[j] && order[j] in ps;
      }
    }
  }

  /** The per-position tally lists the phonemes in the order they are first met. */
  lemma {:induction false} PositionTallyOrder(os: seq<Occurrence>)
    ensures FirstMetOrder(AddAllToPositions(NoPositions, os).order, PhonemesOf(os))
    ensures forall p :: p in AddAllToPositions(NoPositions, os).order <==> p in AddAllToPositions(NoPositions, os).cells
    decreases |os|
  {
    if os != [] {
      var os' := os[..|os| - 1];
      var o := os[|os| - 1];
      PositionTallyOrder(os');
      assert PhonemesOf(os) == PhonemesOf(os') + [o.phoneme];
      FirstMetStep(AddAllToPositions(NoPositions, os').order, PhonemesOf(os'), o.phoneme);
    }
  }

  /** A successful per-status tally lists the phonemes in the order they are first met. */
  lemma {:induction false} StatusTallyOrder(os: seq<Occurrence>)
    requires AddAllToStatuses(NoStatuses, os).Ok?
    ensures FirstMetOrder(AddAllToStatuses(NoStatuses, os).value.order, PhonemesOf(os))
    ensures forall p :: p in AddAllToStatuses(NoStatuses, os).value.order <==>
      p in AddAllToStatuses(NoStatuses, os).value.counts
    decreases |os|
  {
    if os != [] {
      var os' := os[..|os| - 1];
      var o := os[|os| - 1];
      assert AddAllToStatuses(NoStatuses, os').Ok?;
      StatusTallyOrder(os');
      assert PhonemesOf(os) == PhonemesOf(os') + [o.phoneme];
      FirstMetStep(AddAllToStatuses(NoStatuses, os').value.order, PhonemesOf(os'), o.phoneme);
    }
  }

  /**
   * The phonemes of a successful per-position tally of a results object are
   * listed in the order they are first met, word after word.
   */
  lemma PositionTallyOfOrder(results: Results, transcribe: string -> Word)
    requires PositionTallyOf(results, transcribe).Ok?
    ensures AllSameLength(results, transcribe)
    ensures FirstMetOrder(PositionTallyOf(results, transcribe).value.order,
                          PhonemesOf(Occurrences(results, transcribe)))
  {
    PositionTallyOfOk(results, transcribe);
    PositionTallyOrder(Occurrences(results, transcribe));
  }

  /** The same for the per-status tally. */
  lemma StatusTallyOfOrder(results: Results, transcribe: string -> Word)
    requires StatusTallyOf(results, transcribe).Ok?
    ensures AllSameLength(results, transcribe)
    ensures FirstMetOrder(StatusTallyOf(results, transcribe).value.order,
                          PhonemesOf(Occurrences(results, transcribe)))
  {
    StatusTallyOkPrefix(results, transcribe);
    StatusTallyValue(results, transcribe);
    StatusTallyOrder(Occurrences(results, transcribe));
  }
}
