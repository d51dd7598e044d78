/**
 * Per-phoneme tallies over a results object. Every word's statuses are
 * zipped with the word's expected phonemes; each zipped pair is an
 * occurrence of a phoneme, with a status and a position tag. Two tallies
 * are built from the occurrences: one by position (correct and tested
 * counts) and one by status (a counter per status bucket plus `all`).
 */
module Positions {
  import opened Phonemes
  import opened Results

  /** Initial, medial and final. */
  datatype Position = I | M | F

  const OK: Status := "OK"

  /**
   * The tag of the phoneme at index in a word with length statuses. The
   * final tag is given when the index equals the length, which no index
   * inside the word does: inside a word the tag is never F.
   */
  function PositionOf(index: nat, length: nat): (pos: Position)
    ensures index < length ==> pos != F
  {
    if index == 0 then I else if index == length then F else M
  }

  /** One zipped pair: an expected phoneme, its status and its position tag. */
  datatype Occurrence = Occurrence(phoneme: Phoneme, status: Status, position: Position)

  /**
   * The expected phonemes of a word zipped with its statuses: the i-th
   * phoneme with the i-th status, the first pair tagged I and every other
   * pair M, never F.
   */
  function Zip(phonemes: seq<Phoneme>, statuses: seq<Status>): (os: seq<Occurrence>)
    requires |phonemes| == |statuses|
    ensures |os| == |phonemes|
    ensures forall i :: 0 <= i < |os| ==> os[i].phoneme == phonemes[i] && os[i].status == statuses[i]
    ensures forall i :: 0 <= i < |os| ==> os[i].position == (if i == 0 then I else M)
  {
    seq(|phonemes|, i requires 0 <= i < |phonemes| =>
      Occurrence(phonemes[i], statuses[i], PositionOf(i, |statuses|)))
  }

  /**
   * Every word's statuses line up with its expected phonemes. The tallies
   * are stated for any transcription of spellings; the app's is ToWord.
   */
  ghost predicate AllSameLength(results: Results, transcribe: string -> Word)
  {
    forall i :: 0 <= i < |results| ==> SameLength(results[i].1, transcribe(results[i].0))
  }

  /** All occurrences of a results object, word after word. */
  function Occurrences(results: Results, transcribe: string -> Word): (os: seq<Occurrence>)
    requires AllSameLength(results, transcribe)
    decreases |results|
  {
    if results == [] then []
    else
      var e := results[|results| - 1];
      Occurrences(results[..|results| - 1], transcribe) + Zip(transcribe(e.0).phonemes, e.1)
  }

  /** The index of the first entry whose statuses do not line up, if any. */
  ghost predicate FirstMismatch(results: Results, transcribe: string -> Word, i: nat)
  {
    i < |results| && !SameLength(results[i].1, transcribe(results[i].0)) &&
    forall j :: 0 <= j < i ==> SameLength(results[j].1, transcribe(results[j].0))
  }

  // ---------------------------------------------------------------------
  // Tally by position
  // ---------------------------------------------------------------------

  datatype Cell = Cell(correct: nat, tested: nat)

  type PositionCells = map<Position, Cell>

  /**
   * The per-position tally: phonemes in the order they were first met, and
   * for each a cell per position tag met.
   */
  datatype PositionTally = PositionTally(order: seq<Phoneme>, cells: map<Phoneme, PositionCells>)

  const NoPositions := PositionTally([], map[])

  /** Recording one occurrence: its cell is created if needed and counted. */
  function AddToPositions(t: PositionTally, o: Occurrence): PositionTally
  {
    var known := o.phoneme in t.cells;
    var row := if known then t.cells[o.phoneme] else map[];
    var cell := if o.position in row then row[o.position] else Cell(0, 0);
    var cell' := Cell(cell.correct + (if o.status == OK then 1 else 0), cell.tested + 1);
    PositionTally(if known then t.order else t.order + [o.phoneme],
                  t.cells[o.phoneme := row[o.position := cell']])
  }

  function AddAllToPositions(t: PositionTally, os: seq<Occurrence>): PositionTally
    decreases |os|
  {
    if os == [] then t
    else AddToPositions(AddAllToPositions(t, os[..|os| - 1]), os[|os| - 1])
  }

  /**
   * The per-position tally of a results object, or the length mismatch of
   * the first entry whose statuses do not line up.
   */
  function PositionTallyOf(results: Results, transcribe: string -> Word): (r: Result<PositionTally>)
    ensures r.Err? ==> r.error.LengthMismatch?
    decreases |results|
  {
    if results == [] then Ok(NoPositions)
    else
      var t :- PositionTallyOf(results[..|results| - 1], transcribe);
      var e := results[|results| - 1];
      var word :- AssertSameLength(e.1, transcribe(e.0));
      Ok(AddAllToPositions(t, Zip(word.phonemes, e.1)))
  }

  /** Builds the per-position tally, entry by entry and pair by pair. */
  method CalculateResultsPerPhonemePosition(results: Results) returns (r: Result<PositionTally>)
    ensures r == PositionTallyOf(results, ToWord)
  {
    var order: seq<Phoneme> := [];
    var cells: map<Phoneme, PositionCells> := map[];
    var i := 0;
    while i < |results|
      invariant 0 <= i <= |results|
      invariant PositionTallyOf(results[..i], ToWord) == Ok(PositionTally(order, cells))
    {
      var (raw, statuses) := results[i];
      assert results[..i + 1][..i] == results[..i];
      var word := ToWord(raw);
      if |statuses| != |word.phonemes| {
        PositionTallyStopsAt(results, ToWord, i + 1);
        return Err(LengthMismatch(raw));
      }
      var zipped := Zip(word.phonemes, statuses);
      PositionTallyStep(results, ToWord, i, PositionTally(order, cells));
      order, cells := RecordPositions(order, cells, zipped, |statuses|);
      i := i + 1;
    }
    assert results[..i] == results;
    return Ok(PositionTally(order, cells));
  }

  /** Records the zipped pairs of one word into the per-position tally. */
  method RecordPositions(order: seq<Phoneme>, cells: map<Phoneme, PositionCells>,
                         zipped: seq<Occurrence>, length: nat)
    returns (order': seq<Phoneme>, cells': map<Phoneme, PositionCells>)
    requires |zipped| == length
    requires forall j :: 0 <= j < |zipped| ==> zipped[j].position == PositionOf(j, length)
    ensures PositionTally(order', cells') == AddAllToPositions(PositionTally(order, cells), zipped)
  {
    order', cells' := order, cells;
    var j := 0;
    while j < |zipped|
      invariant 0 <= j <= |zipped|
      invariant PositionTally(order', cells') == AddAllToPositions(PositionTally(order, cells), zipped[..j])
    {
      var position := if j == 0 then I else if j == length then F else M;
      assert position == zipped[j].position;
      order', cells' := RecordPosition(order', cells', zipped[j].phoneme, zipped[j].status, position);
      assert zipped[..j + 1] == zipped[..j] + [zipped[j]];
      j := j + 1;
    }
    assert zipped[..j] == zipped;
  }

  /**
   * Records one phoneme at one tag: creates its row and cell when missing,
   * then counts the cell as tested and, for an OK status, as correct.
   */
  method RecordPosition(order: seq<Phoneme>, cells: map<Phoneme, PositionCells>,
                        phoneme: Phoneme, status: Status, position: Position)
    returns (order': seq<Phoneme>, cells': map<Phoneme, PositionCells>)
    ensures PositionTally(order', cells') ==
      AddToPositions(PositionTally(order, cells), Occurrence(phoneme, status, position))
  {
    order', cells' := order, cells;
    ghost var row := if phoneme in cells then cells[phoneme] else map[];
    if phoneme !in cells' {
      cells' := cells'[phoneme := map[]];
      order' := order' + [phoneme];
    }
    if position !in cells'[phoneme] {
      cells' := cells'[phoneme := cells'[phoneme][position := Cell(0, 0)]];
    }
    var cell := cells'[phoneme][position];
    cell := cell.(correct := cell.correct + if status == OK then 1 else 0);
    cell := cell.(tested := cell.tested + 1);
    cells' := cells'[phoneme := cells'[phoneme][position := cell]];
    assert cells'[phoneme] == row[position := cell];
  }

  /** Extending the results by one entry whose statuses line up. */
  lemma PositionTallyStep(results: Results, transcribe: string -> Word, i: nat, t: PositionTally)
    requires i < |results| && PositionTallyOf(results[..i], transcribe) == Ok(t)
    requires SameLength(results[i].1, transcribe(results[i].0))
    ensures PositionTallyOf(results[..i + 1], transcribe) ==
      Ok(AddAllToPositions(t, Zip(transcribe(results[i].0).phonemes, results[i].1)))
  {
    assert results[..i + 1][..i] == results[..i];
  }

  /** Once an entry fails the length check, the whole tally fails with it. */
  lemma {:induction false} PositionTallyStopsAt(results: Results, transcribe: string -> Word, n: nat)
    requires 0 < n <= |results|
    requires PositionTallyOf(results[..n - 1], transcribe).Ok?
    requires !SameLength(results[n - 1].1, transcribe(results[n - 1].0))
    ensures PositionTallyOf(results, transcribe) == Err(LengthMismatch(transcribe(results[n - 1].0).raw))
    decreases |results|
  {
    assert results[..n][..n - 1] == results[..n - 1];
    if n < |results| {
      var shorter := results[..|results| - 1];
      assert shorter[..n - 1] == results[..n - 1] && shorter[n - 1] == results[n - 1];
      PositionTallyStopsAt(shorter, transcribe, n);
    } else {
      assert results[..n] == results;
    }
  }

  // ---------------------------------------------------------------------
  // Tally by status
  // ---------------------------------------------------------------------

  /** The counters kept per phoneme: one per status bucket, and `all`. */
  datatype StatusCounts = StatusCounts(ok: nat, nz: nat, d: nat, a: nat, all: nat)

  const NoCounts := StatusCounts(0, 0, 0, 0, 0)

  /** The statuses that name a counter: OK, NZ, D, A and also `all`. */
  predicate IsBucket(key: string)
  {
    key == "OK" || key == "NZ" || key == "D" || key == "A" || key == "all"
  }

  /**
   * Reading a counter by key: the number kept under a bucket key, and
   * nothing (no number) under any other key.
   */
  function CountOf(c: StatusCounts, key: string): (n: Option<nat>)
    ensures n.Some? <==> IsBucket(key)
  {
    if key == "OK" then Some(c.ok)
    else if key == "NZ" then Some(c.nz)
    else if key == "D" then Some(c.d)
    else if key == "A" then Some(c.a)
    else if key == "all" then Some(c.all)
    else None
  }

  /** Adding one to the counter under a bucket key. */
  function Bump(c: StatusCounts, key: string): (c': StatusCounts)
    requires IsBucket(key)
    ensures CountOf(c', key) == Some(CountOf(c, key).value + 1)
    ensures forall k :: k != key ==> CountOf(c', k) == CountOf(c, k)
  {
    if key == "OK" then c.(ok := c.ok + 1)
    else if key == "NZ" then c.(nz := c.nz + 1)
    else if key == "D" then c.(d := c.d + 1)
    else if key == "A" then c.(a := c.a + 1)
    else c.(all := c.all + 1)
  }

  /** The per-status tally: phonemes in first-met order and their counters. */
  datatype StatusTally = StatusTally(order: seq<Phoneme>, counts: map<Phoneme, StatusCounts>)

  const NoStatuses := StatusTally([], map[])

  /**
   * Recording one occurrence: its phoneme's counters are created if
   * needed, a status that names no counter is an error, and otherwise the
   * status counter and then `all` go up by one.
   */
  function AddToStatuses(t: StatusTally, o: Occurrence): Result<StatusTally>
  {
    var known := o.phoneme in t.counts;
    var c := if known then t.counts[o.phoneme] else NoCounts;
    if !IsBucket(o.status) then Err(InvalidStatus(o.status))
    else
      Ok(StatusTally(if known then t.order else t.order + [o.phoneme],
                     t.counts[o.phoneme := Bump(Bump(c, o.status), "all")]))
  }

  function AddAllToStatuses(t: StatusTally, os: seq<Occurrence>): (r: Result<StatusTally>)
    ensures r.Err? ==> r.error.InvalidStatus? && !IsBucket(r.error.status)
    decreases |os|
  {
    if os == [] then Ok(t)
    else
      var t' :- AddAllToStatuses(t, os[..|os| - 1]);
      AddToStatuses(t', os[|os| - 1])
  }

  /**
   * The per-status tally of a results object, or the first error met:
   * a length mismatch or an invalid status.
   */
  function StatusTallyOf(results: Results, transcribe: string -> Word): (r: Result<StatusTally>)
    ensures r.Err? && r.error.InvalidStatus? ==> !IsBucket(r.error.status)
    decreases |results|
  {
    if results == [] then Ok(NoStatuses)
    else
      var t :- StatusTallyOf(results[..|results| - 1], transcribe);
      var e := results[|results| - 1];
      var word :- AssertSameLength(e.1, transcribe(e.0));
      AddAllToStatuses(t, Zip(word.phonemes, e.1))
  }

  /** Builds the per-status tally, entry by entry and pair by pair. */
  method CalculateStatusResultsPerPhoneme(results: Results) returns (r: Result<StatusTally>)
    ensures r == StatusTallyOf(results, ToWord)
  {
    var order: seq<Phoneme> := [];
    var counts: map<Phoneme, StatusCounts> := map[];
    var i := 0;
    while i < |results|
      invariant 0 <= i <= |results|
      invariant StatusTallyOf(results[..i], ToWord) == Ok(StatusTally(order, counts))
    {
      var (raw, statuses) := results[i];
      assert results[..i + 1][..i] == results[..i];
      var word := ToWord(raw);
      if |statuses| != |word.phonemes| {
        StatusTallyStopsAt(results, ToWord, i + 1, LengthMismatch(raw));
        return Err(LengthMismatch(raw));
      }
      var zipped := Zip(word.phonemes, statuses);
      var recorded := RecordStatuses(order, counts, zipped);
      if recorded.Err? {
        StatusTallyStopsAt(results, ToWord, i + 1, recorded.error);
        return Err(recorded.error);
      }
      StatusTallyStep(results, ToWord, i, StatusTally(order, counts));
      order, counts := recorded.value.order, recorded.value.counts;
      i := i + 1;
    }
    assert results[..i] == results;
    return Ok(StatusTally(order, counts));
  }

  /** Records the zipped pairs of one word into the per-status tally. */
  method RecordStatuses(order: seq<Phoneme>, counts: map<Phoneme, StatusCounts>, zipped: seq<Occurrence>)
    returns (r: Result<StatusTally>)
    ensures r == AddAllToStatuses(StatusTally(order, counts), zipped)
  {
    var order', counts' := order, counts;
    var j := 0;
    while j < |zipped|
      invariant 0 <= j <= |zipped|
      invariant AddAllToStatuses(StatusTally(order, counts), zipped[..j]) == Ok(StatusTally(order', counts'))
    {
      var phoneme := zipped[j].phoneme;
      var status := zipped[j].status;
      assert zipped[..j + 1] == zipped[..j] + [zipped[j]];
      ghost var before := StatusTally(order', counts');
      if phoneme !in counts' {
        counts' := counts'[phoneme := NoCounts];
        order' := order' + [phoneme];
      }
      if CountOf(counts'[phoneme], status).None? {
        StatusesStopAt(StatusTally(order, counts), zipped, j + 1);
        return Err(InvalidStatus(status));
      }
      counts' := counts'[phoneme := Bump(counts'[phoneme], status)];
      counts' := counts'[phoneme := Bump(counts'[phoneme], "all")];
      assert StatusTally(order', counts') == AddToStatuses(before, zipped[j]).value;
      j := j + 1;
    }
    assert zipped[..j] == zipped;
    return Ok(StatusTally(order', counts'));
  }

  /** Extending the results by one entry whose statuses line up. */
  lemma StatusTallyStep(results: Results, transcribe: string -> Word, i: nat, t: StatusTally)
    requires i < |results| && StatusTallyOf(results[..i], transcribe) == Ok(t)
    requires SameLength(results[i].1, transcribe(results[i].0))
    ensures StatusTallyOf(results[..i + 1], transcribe) ==
      AddAllToStatuses(t, Zip(transcribe(results[i].0).phonemes, results[i].1))
  {
    assert results[..i + 1][..i] == results[..i];
  }

  /** Once one pair fails, recording the whole word fails with it. */
  lemma {:induction false} StatusesStopAt(t: StatusTally, os: seq<Occurrence>, n: nat)
    requires 0 < n <= |os|
    requires AddAllToStatuses(t, os[..n - 1]).Ok?
    requires !IsBucket(os[n - 1].status)
    ensures AddAllToStatuses(t, os) == Err(InvalidStatus(os[n - 1].status))
    decreases |os|
  {
    assert os[..n][..n - 1] == os[..n - 1];
    if n < |os| {
      var shorter := os[..|os| - 1];
      assert shorter[..n - 1] == os[..n - 1] && shorter[n - 1] == os[n - 1];
      StatusesStopAt(t, shorter, n);
    } else {
      assert os[..n] == os;
    }
  }

  /** Once an entry fails, the whole tally fails with the same error. */
  lemma {:induction false} StatusTallyStopsAt(results: Results, transcribe: string -> Word, n: nat, e: Error)
    requires 0 < n <= |results|
    requires StatusTallyOf(results[..n], transcribe) == Err(e)
    ensures StatusTallyOf(results, transcribe) == Err(e)
    decreases |results|
  {
    if n < |results| {
      var shorter := results[..|results| - 1];
      assert shorter[..n] == results[..n];
      StatusTallyStopsAt(shorter, transcribe, n, e);
    } else {
      assert results[..n] == results;
    }
  }

  // ---------------------------------------------------------------------
  // Positions at which a phoneme is expected
  // ---------------------------------------------------------------------

  /** The tags of the indices at which phoneme p stands in one word. */
  function WordPositions(phonemes: seq<Phoneme>, p: Phoneme): set<Position>
  {
    set i | 0 <= i < |phonemes| && phonemes[i] == p :: PositionOf(i, |phonemes|)
  }

  /** The tags at which phoneme p is expected anywhere in the results. */
  function AllPositions(results: Results, p: Phoneme, transcribe: string -> Word): (r: set<Position>)
    ensures F !in r
    decreases |results|
  {
    if results == [] then {}
    else AllPositions(results[..|results| - 1], p, transcribe) + WordPositions(transcribe(results[|results| - 1].0).phonemes, p)
  }

  /** Collects the tags at which phoneme p is expected, word by word. */
  method AllPhonemePositions(results: Results, p: Phoneme) returns (positions: set<Position>)
    ensures positions == AllPositions(results, p, ToWord)
  {
    positions := {};
    var i := 0;
    while i < |results|
      invariant 0 <= i <= |results|
      invariant positions == AllPositions(results[..i], p, ToWord)
    {
      var word := ToWord(results[i].0);
      positions := AddWordPositions(positions, word.phonemes, p);
      assert results[..i + 1][..i] == results[..i];
      i := i + 1;
    }
    assert results[..i] == results;
  }

  /** Adds the tags at which phoneme p stands in one word. */
  method AddWordPositions(positions: set<Position>, phonemes: seq<Phoneme>, p: Phoneme)
    returns (positions': set<Position>)
    ensures positions' == positions + WordPositions(phonemes, p)
  {
    positions' := positions;
    var j := 0;
    while j < |phonemes|
      invariant 0 <= j <= |phonemes|
      invariant positions' == positions +
        set k | 0 <= k < j && phonemes[k] == p :: PositionOf(k, |phonemes|)
    {
      if phonemes[j] == p {
        var position := if j == 0 then I else if j == |phonemes| then F else M;
        positions' := positions' + {position};
      }
      j := j + 1;
    }
  }
}
