/**
 * The repertoire figures shown for a child: how many consonants are
 * inconsistent, correct in every position where they are expected, or
 * marked with a given status, and the vowel and diphthong counterparts.
 * Each figure filters one of the two tallies; a tally that fails makes
 * the figure fail with the same error.
 *
 * Which phonemes are consonants, vowels or diphthongs is decided by
 * classifiers that are not part of this model; they are parameters here.
 */
module Repertoire {
  import opened Phonemes
  import opened Results
  import opened Positions
  import opened TallyFacts

  /** The three phoneme classes the figures filter by. */
  datatype Classifier = Classifier(
    isConsonant: Phoneme -> bool,
    isVocal: Phoneme -> bool,
    isDiphthong: Phoneme -> bool)

  // ---------------------------------------------------------------------
  // Filtering the entries of a tally
  // ---------------------------------------------------------------------

  /** The phonemes of a tally's order that pass sel, in that order. */
  function Select(order: seq<Phoneme>, sel: Phoneme -> bool): (r: seq<Phoneme>)
    ensures forall p :: p in r <==> p in order && sel(p)
    ensures Distinct(order) ==> Distinct(r)
    ensures |r| <= |order|
    decreases |order|
  {
    if order == [] then []
    else
      var prefix := order[..|order| - 1];
      var p := order[|order| - 1];
      assert forall q :: q in order <==> q in prefix || q == p;
      assert Distinct(order) ==> Distinct(prefix) && p !in prefix;
      Select(prefix, sel) + (if sel(p) then [p] else [])
  }

  /**
   * Filtering keeps the relative order: when the list is sorted by where
   * each phoneme is first met in ps, so is what the filter keeps.
   */
  lemma {:induction false} SelectOrder(order: seq<Phoneme>, sel: Phoneme -> bool, ps: seq<Phoneme>)
    requires ListedByFirstMet(order, ps)
    ensures ListedByFirstMet(Select(order, sel), ps)
    decreases |order|
  {
    if order != [] {
      var prefix := order[..|order| - 1];
      var p := order[|order| - 1];
      assert ListedByFirstMet(prefix, ps) by {
        forall i, j | 0 <= i < j < |prefix|
          ensures IndexOf(ps, prefix[i]) < IndexOf(ps, prefix[j])
        {
          assert prefix[i] == order[i] && prefix[j] == order[j];
        }
      }
      SelectOrder(prefix, sel, ps);
      var head := Select(prefix, sel);
      forall q | q in head ensures IndexOf(ps, q) < IndexOf(ps, p) {
        var k :| 0 <= k < |prefix| && prefix[k] == q;
        assert order[k] == q;
      }
      var r := head + (if sel(p) then [p] else []);
      forall i, j | 0 <= i < j < |r| ensures IndexOf(ps, r[i]) < IndexOf(ps, r[j]) {
        assert r[i] == head[i] && r[i] in head;
        if j < |head| {
          assert r[j] == head[j];
        }
      }
    }
  }

  /** A list without repeats has as many elements as its set of elements. */
  lemma {:induction false} DistinctCard(s: seq<Phoneme>)
    requires Distinct(s)
    ensures |set x | x in s| == |s|
    decreases |s|
  {
    if s != [] {
      var prefix := s[..|s| - 1];
      var x := s[|s| - 1];
      assert Distinct(prefix);
      DistinctCard(prefix);
      assert (set y | y in s) == (set y | y in prefix) + {x};
      assert x !in (set y | y in prefix);
    }
  }

  /** The distinct phonemes among occurrences whose phoneme passes sel. */
  ghost function PhonemesWhere(os: seq<Occurrence>, sel: Phoneme -> bool): set<Phoneme>
  {
    set i | 0 <= i < |os| && sel(os[i].phoneme) :: os[i].phoneme
  }

  /**
   * Filtering a tally's order, when that order lists each phoneme of the
   * occurrences once, keeps the occurring phonemes that satisfy meant (a
   * condition agreeing with the filter on them), and so counts the
   * distinct such phonemes.
   */
  lemma SelectCount(order: seq<Phoneme>, os: seq<Occurrence>, sel: Phoneme -> bool, meant: Phoneme -> bool)
    requires Distinct(order)
    requires forall p :: p in order <==> Count(os, Of(p)) > 0
    requires forall p :: Count(os, Of(p)) > 0 ==> (sel(p) <==> meant(p))
    ensures forall p :: p in Select(order, sel) <==> Count(os, Of(p)) > 0 && meant(p)
    ensures |Select(order, sel)| == |PhonemesWhere(os, meant)|
  {
    var r := Select(order, sel);
    DistinctCard(r);
    forall p ensures p in r <==> p in PhonemesWhere(os, meant) {
      CountPositive(os, Of(p));
      if p in PhonemesWhere(os, meant) {
        var i :| 0 <= i < |os| && meant(os[i].phoneme) && os[i].phoneme == p;
        assert Matches(os[i], Of(p));
      }
      if p in r {
        var i :| 0 <= i < |os| && Matches(os[i], Of(p));
        assert os[i].phoneme == p;
      }
    }
    assert (set x | x in r) == PhonemesWhere(os, meant);
  }

  /** A phoneme's counter under a key; a key that names no counter reads as 0. */
  function StatusCount(c: StatusCounts, key: string): (n: nat)
    ensures IsBucket(key) ==> n == CountOf(c, key).value
    ensures !IsBucket(key) ==> n == 0
  {
    match CountOf(c, key)
    case Some(n) => n
    case None => 0
  }

  // ---------------------------------------------------------------------
  // Figures from the per-status tally
  // ---------------------------------------------------------------------

  /**
   * The phonemes passing keep that were marked with a status at least
   * once, in the order the tally met them.
   */
  function PhonemesWithStatus(results: Results, status: string, keep: Phoneme -> bool, transcribe: string -> Word)
    : (r: Result<seq<Phoneme>>)
    ensures r.Ok? <==> StatusTallyOf(results, transcribe).Ok?
    ensures r.Err? ==> r.error == StatusTallyOf(results, transcribe).error
    ensures r.Ok? ==> forall p :: p in r.value ==> keep(p) && p in StatusTallyOf(results, transcribe).value.order
    ensures r.Ok? ==> |r.value| <= |StatusTallyOf(results, transcribe).value.order|
  {
    var t :- StatusTallyOf(results, transcribe);
    Ok(Select(t.order, p => keep(p) && p in t.counts && StatusCount(t.counts[p], status) > 0))
  }

  /** The consonants marked with a status at least once, in the order the tally met them. */
  function ConsonantsWithStatus(results: Results, status: string, cls: Classifier, transcribe: string -> Word)
    : (r: Result<seq<Phoneme>>)
    ensures r.Ok? <==> StatusTallyOf(results, transcribe).Ok?
    ensures r.Ok? ==> forall p :: p in r.value ==> cls.isConsonant(p)
  {
    PhonemesWithStatus(results, status, cls.isConsonant, transcribe)
  }

  function ConsonantsWithStatusCount(results: Results, status: string, cls: Classifier, transcribe: string -> Word)
    : (r: Result<nat>)
    ensures r.Ok? <==> StatusTallyOf(results, transcribe).Ok?
  {
    var l :- ConsonantsWithStatus(results, status, cls, transcribe);
    Ok(|l|)
  }

  /** The number of vowels marked with a status at least once. */
  function VocalsWithStatusCount(results: Results, status: string, cls: Classifier, transcribe: string -> Word)
    : (r: Result<nat>)
    ensures r.Ok? <==> StatusTallyOf(results, transcribe).Ok?
    ensures r.Ok? ==> r.value <= |StatusTallyOf(results, transcribe).value.order|
  {
    var l :- PhonemesWithStatus(results, status, cls.isVocal, transcribe);
    Ok(|l|)
  }

  /** The number of diphthongs marked with a status at least once. */
  function DiphthongsWithStatusCount(results: Results, status: string, cls: Classifier, transcribe: string -> Word)
    : (r: Result<nat>)
    ensures r.Ok? <==> StatusTallyOf(results, transcribe).Ok?
    ensures r.Ok? ==> r.value <= |StatusTallyOf(results, transcribe).value.order|
  {
    var l :- PhonemesWithStatus(results, status, cls.isDiphthong, transcribe);
    Ok(|l|)
  }

  /**
   * A phoneme is marked with a status when some occurrence of it carries
   * that status; the key `all` marks every occurring phoneme, and a key
   * that names no counter marks none.
   */
  ghost predicate MarkedWith(os: seq<Occurrence>, p: Phoneme, status: string)
  {
    IsBucket(status) &&
    exists i :: 0 <= i < |os| && os[i].phoneme == p && (status == "all" || os[i].status == status)
  }

  lemma MarkedCount(os: seq<Occurrence>, p: Phoneme, status: string)
    ensures StatusCount(Counted(os, p), status) > 0 <==> MarkedWith(os, p, status)
  {
    CountSplit(os, p, I, "all");
    CountPositive(os, Of(p));
    CountPositive(os, With(p, status));
    if MarkedWith(os, p, status) {
      var i :| 0 <= i < |os| && os[i].phoneme == p && (status == "all" || os[i].status == status);
      assert Matches(os[i], Of(p));
      assert status != "all" ==> Matches(os[i], With(p, status));
    }
  }

  /** On a tally describing the occurrences, the status filter means MarkedWith. */
  lemma StatusSelection(t: StatusTally, os: seq<Occurrence>, status: string, keep: Phoneme -> bool)
    requires DescribesStatuses(t, os)
    ensures forall p :: Count(os, Of(p)) > 0 ==>
      ((keep(p) && p in t.counts && StatusCount(t.counts[p], status) > 0) <==> keep(p) && MarkedWith(os, p, status))
  {
    forall p | Count(os, Of(p)) > 0
      ensures (keep(p) && p in t.counts && StatusCount(t.counts[p], status) > 0) <==> keep(p) && MarkedWith(os, p, status)
    {
      MarkedCount(os, p, status);
    }
  }

  /** A marked phoneme occurs. */
  lemma MarkedOccurs(os: seq<Occurrence>, p: Phoneme, status: string)
    requires MarkedWith(os, p, status)
    ensures Count(os, Of(p)) > 0
  {
    var i :| 0 <= i < |os| && os[i].phoneme == p && (status == "all" || os[i].status == status);
    CountPositive(os, Of(p));
    assert Matches(os[i], Of(p));
  }

  /**
   * The phonemes listed for a status are listed once each, and are exactly
   * the phonemes passing keep that some occurrence marks with that
   * status; the count is the number of such distinct phonemes.
   */
  lemma PhonemesWithStatusMeaning(results: Results, status: string, keep: Phoneme -> bool, transcribe: string -> Word)
    requires StatusTallyOf(results, transcribe).Ok?
    ensures AllSameLength(results, transcribe)
    ensures var l := PhonemesWithStatus(results, status, keep, transcribe).value;
      var os := Occurrences(results, transcribe);
      Distinct(l) &&
      (forall p :: p in l <==> keep(p) && MarkedWith(os, p, status)) &&
      |l| == |PhonemesWhere(os, p => keep(p) && MarkedWith(os, p, status))|
  {
    StatusTallyOfOk(results, transcribe);
    var t := StatusTallyOf(results, transcribe).value;
    var os := Occurrences(results, transcribe);
    StatusSelection(t, os, status, keep);
    SelectCount(t.order, os, p => keep(p) && p in t.counts && StatusCount(t.counts[p], status) > 0,
                p => keep(p) && MarkedWith(os, p, status));
    forall p | MarkedWith(os, p, status) ensures Count(os, Of(p)) > 0 {
      MarkedOccurs(os, p, status);
    }
  }

  /**
   * The phonemes listed for a status come in the order in which they are
   * first met, walking the results entry by entry and each word left to
   * right.
   */
  lemma PhonemesWithStatusOrder(results: Results, status: string, keep: Phoneme -> bool, transcribe: string -> Word)
    requires StatusTallyOf(results, transcribe).Ok?
    ensures AllSameLength(results, transcribe)
    ensures ListedByFirstMet(PhonemesWithStatus(results, status, keep, transcribe).value,
                             PhonemesOf(Occurrences(results, transcribe)))
  {
    StatusTallyOfOrder(results, transcribe);
    var t := StatusTallyOf(results, transcribe).value;
    SelectOrder(t.order, p => keep(p) && p in t.counts && StatusCount(t.counts[p], status) > 0,
                PhonemesOf(Occurrences(results, transcribe)));
  }

  /**
   * The consonant, vowel and diphthong figures for a status count the
   * distinct phonemes of their class that some occurrence marks with
   * that status.
   */
  lemma WithStatusCounts(results: Results, status: string, cls: Classifier, transcribe: string -> Word)
    requires StatusTallyOf(results, transcribe).Ok?
    ensures AllSameLength(results, transcribe)
    ensures var os := Occurrences(results, transcribe);
      ConsonantsWithStatusCount(results, status, cls, transcribe).value ==
        |PhonemesWhere(os, p => cls.isConsonant(p) && MarkedWith(os, p, status))|
    ensures var os := Occurrences(results, transcribe);
      VocalsWithStatusCount(results, status, cls, transcribe).value ==
        |PhonemesWhere(os, p => cls.isVocal(p) && MarkedWith(os, p, status))|
    ensures var os := Occurrences(results, transcribe);
      DiphthongsWithStatusCount(results, status, cls, transcribe).value ==
        |PhonemesWhere(os, p => cls.isDiphthong(p) && MarkedWith(os, p, status))|
  {
    PhonemesWithStatusMeaning(results, status, cls.isConsonant, transcribe);
    PhonemesWithStatusMeaning(results, status, cls.isVocal, transcribe);
    PhonemesWithStatusMeaning(results, status, cls.isDiphthong, transcribe);
  }

  /**
   * A consonant is inconsistent when it was marked correct at least once
   * and something other than correct at least once.
   */
  ghost predicate Inconsistent(os: seq<Occurrence>, p: Phoneme)
  {
    (exists i :: 0 <= i < |os| && os[i].phoneme == p && os[i].status == OK) &&
    (exists j :: 0 <= j < |os| && os[j].phoneme == p && os[j].status != OK)
  }

  /** The number of consonants with 0 < OK < all in the per-status tally. */
  function NonConstantConsonantsCount(results: Results, cls: Classifier, transcribe: string -> Word): (r: Result<nat>)
    ensures r.Ok? <==> StatusTallyOf(results, transcribe).Ok?
    ensures r.Err? ==> r.error == StatusTallyOf(results, transcribe).error
  {
    var t :- StatusTallyOf(results, transcribe);
    Ok(|Select(t.order, p => cls.isConsonant(p) && p in t.counts && 0 < t.counts[p].ok < t.counts[p].all)|)
  }

  /**
   * 0 < OK < all holds exactly for an inconsistent phoneme: `all` exceeds
   * OK when some occurrence is not OK, including one whose status is
   * `all` itself.
   */
  lemma InconsistentCount(os: seq<Occurrence>, p: Phoneme)
    ensures 0 < Counted(os, p).ok < Counted(os, p).all <==> Inconsistent(os, p)
  {
    CountSplit(os, p, I, "all");
    CountSplit(os, p, I, OK);
    CountPositive(os, With(p, OK));
    CountPositive(os, With(p, "all"));
    CountOthers(os, p, OK);
    if 0 < Counted(os, p).ok {
      var i :| 0 <= i < |os| && Matches(os[i], With(p, OK));
    }
    if Count(os, With(p, "all")) > 0 {
      var i :| 0 <= i < |os| && Matches(os[i], With(p, "all"));
      assert os[i].status != OK;
    }
    if Inconsistent(os, p) {
      var i :| 0 <= i < |os| && os[i].phoneme == p && os[i].status == OK;
      assert Matches(os[i], With(p, OK));
    }
  }

  lemma InconsistentSelection(t: StatusTally, os: seq<Occurrence>, cls: Classifier)
    requires DescribesStatuses(t, os)
    ensures forall p :: Count(os, Of(p)) > 0 ==>
      ((cls.isConsonant(p) && p in t.counts && 0 < t.counts[p].ok < t.counts[p].all) <==>
       cls.isConsonant(p) && Inconsistent(os, p))
  {
    forall p | Count(os, Of(p)) > 0
      ensures (cls.isConsonant(p) && p in t.counts && 0 < t.counts[p].ok < t.counts[p].all) <==>
              cls.isConsonant(p) && Inconsistent(os, p)
    {
      InconsistentCount(os, p);
    }
  }

  /**
   * The inconsistent-consonant figure counts exactly the distinct
   * consonants marked correct somewhere and something else elsewhere: a
   * consonant never marked correct, or only ever marked correct, is not
   * counted.
   */
  lemma NonConstantConsonantsMeaning(results: Results, cls: Classifier, transcribe: string -> Word)
    requires StatusTallyOf(results, transcribe).Ok?
    ensures AllSameLength(results, transcribe)
    ensures var os := Occurrences(results, transcribe);
      NonConstantConsonantsCount(results, cls, transcribe).value ==
        |PhonemesWhere(os, p => cls.isConsonant(p) && Inconsistent(os, p))|
  {
    StatusTallyOfOk(results, transcribe);
    var t := StatusTallyOf(results, transcribe).value;
    var os := Occurrences(results, transcribe);
    InconsistentSelection(t, os, cls);
    SelectCount(t.order, os, p => cls.isConsonant(p) && p in t.counts && 0 < t.counts[p].ok < t.counts[p].all,
                p => cls.isConsonant(p) && Inconsistent(os, p));
  }

  // ---------------------------------------------------------------------
  // Figures from the per-position tally
  // ---------------------------------------------------------------------

  /** A phoneme is correct on the given tags when each has a cell with a correct answer. */
  predicate IsCorrectOnPositions(row: PositionCells, positions: set<Position>)
    ensures IsCorrectOnPositions(row, positions) ==> positions <= row.Keys
    ensures positions == {} ==> IsCorrectOnPositions(row, positions)
  {
    forall pos :: pos in positions ==> pos in row && row[pos].correct > 0
  }

  /**
   * The number of consonants of the per-position tally that are correct
   * on every tag at which they are expected anywhere in the results.
   */
  function ConsonantsCorrectInAllPositionsCount(results: Results, cls: Classifier, transcribe: string -> Word)
    : (r: Result<nat>)
    ensures r.Ok? <==> PositionTallyOf(results, transcribe).Ok?
    ensures r.Err? ==> r.error == PositionTallyOf(results, transcribe).error
    ensures r.Ok? ==> r.value <= |PositionTallyOf(results, transcribe).value.order|
  {
    var t :- PositionTallyOf(results, transcribe);
    Ok(|Select(t.order, p => cls.isConsonant(p) && p in t.cells &&
                             IsCorrectOnPositions(t.cells[p], AllPositions(results, p, transcribe)))|)
  }

  /** Wherever p is expected, some occurrence of p there was marked correct. */
  ghost predicate CorrectWherever(os: seq<Occurrence>, p: Phoneme)
  {
    forall pos :: Count(os, At(p, pos)) > 0 ==> Count(os, CorrectAt(p, pos)) > 0
  }

  lemma CorrectSelection(results: Results, cls: Classifier, transcribe: string -> Word)
    requires PositionTallyOf(results, transcribe).Ok?
    ensures AllSameLength(results, transcribe)
    ensures var t := PositionTallyOf(results, transcribe).value;
      var os := Occurrences(results, transcribe);
      Distinct(t.order) &&
      (forall p :: p in t.order <==> Count(os, Of(p)) > 0) &&
      forall p :: Count(os, Of(p)) > 0 ==>
        ((cls.isConsonant(p) && p in t.cells && IsCorrectOnPositions(t.cells[p], AllPositions(results, p, transcribe))) <==>
         cls.isConsonant(p) && CorrectWherever(os, p))
  {
    PositionTallyCounts(results, transcribe);
    var t := PositionTallyOf(results, transcribe).value;
    var os := Occurrences(results, transcribe);
    forall p | Count(os, Of(p)) > 0
      ensures (cls.isConsonant(p) && p in t.cells && IsCorrectOnPositions(t.cells[p], AllPositions(results, p, transcribe))) <==>
              cls.isConsonant(p) && CorrectWherever(os, p)
    {
      AllPositionsAreCells(results, p, transcribe);
    }
  }

  lemma PhonemesWhereMono(os: seq<Occurrence>, a: Phoneme -> bool, b: Phoneme -> bool)
    requires forall p :: a(p) ==> b(p)
    ensures |PhonemesWhere(os, a)| <= |PhonemesWhere(os, b)|
  {
    assert PhonemesWhere(os, a) <= PhonemesWhere(os, b);
    Cardinality(PhonemesWhere(os, a), PhonemesWhere(os, b));
  }

  lemma Cardinality(a: set<Phoneme>, b: set<Phoneme>)
    requires a <= b
    ensures |a| <= |b|
  {
    assert b == a + (b - a);
  }

  /**
   * The all-positions figure counts exactly the distinct consonants that
   * were marked correct at least once at every tag where they occur, and
   * so no more than the distinct consonants that occur at all.
   */
  lemma CorrectInAllPositionsMeaning(results: Results, cls: Classifier, transcribe: string -> Word)
    requires PositionTallyOf(results, transcribe).Ok?
    ensures AllSameLength(results, transcribe)
    ensures var os := Occurrences(results, transcribe);
      ConsonantsCorrectInAllPositionsCount(results, cls, transcribe).value ==
        |PhonemesWhere(os, p => cls.isConsonant(p) && CorrectWherever(os, p))|
    ensures var os := Occurrences(results, transcribe);
      ConsonantsCorrectInAllPositionsCount(results, cls, transcribe).value <= |PhonemesWhere(os, cls.isConsonant)|
  {
    CorrectSelection(results, cls, transcribe);
    var t := PositionTallyOf(results, transcribe).value;
    var os := Occurrences(results, transcribe);
    var meant := p => cls.isConsonant(p) && CorrectWherever(os, p);
    SelectCount(t.order, os,
                p => cls.isConsonant(p) && p in t.cells && IsCorrectOnPositions(t.cells[p], AllPositions(results, p, transcribe)),
                meant);
    PhonemesWhereMono(os, meant, cls.isConsonant);
  }
}
