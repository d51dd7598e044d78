/**
 * The results object: for every drilled word, its spelling and one status
 * string per expected phoneme. An object's own entries are listed in
 * insertion order, so a results object is modelled as that list of entries,
 * with no spelling listed twice.
 */
module Results {
  import opened Phonemes

  type Status = string

  /** One entry of a results object: a spelling and its statuses. */
  type Entry = (string, seq<Status>)

  type Results = seq<Entry>

  /** The failures the scoring code raises. */
  datatype Error =
    | LengthMismatch(word: string)   // statuses and expected phonemes differ in number
    | InvalidStatus(status: Status)  // a status that is not a tally bucket

  datatype Result<T> = Ok(value: T) | Err(error: Error)
  {
    predicate IsFailure() { Err? }

    function PropagateFailure<U>(): Result<U>
      requires Err?
    {
      Err(error)
    }

    function Extract(): T
      requires Ok?
    {
      value
    }
  }

  /** No spelling is listed twice, as for the keys of an object. */
  ghost predicate DistinctKeys(r: Results)
  {
    forall i, j :: 0 <= i < j < |r| ==> r[i].0 != r[j].0
  }

  function Keys(r: Results): set<string>
  {
    set e | e in r :: e.0
  }

  /**
   * The statuses stored under key k, if any (reading a property).
   */
  function Get(r: Results, k: string): (v: Option<seq<Status>>)
    ensures v.Some? <==> k in Keys(r)
    ensures v.Some? ==> (k, v.value) in r
  {
    if r == [] then None
    else if r[0].0 == k then Some(r[0].1)
    else Get(r[1..], k)
  }

  datatype Option<T> = None | Some(value: T)

  /** Where key k is listed, or -1 when it is not. */
  function IndexOfKey(r: Results, k: string): (i: int)
    ensures -1 <= i < |r|
    ensures i == -1 <==> k !in Keys(r)
    ensures 0 <= i ==> r[i].0 == k
  {
    if r == [] then -1
    else if r[0].0 == k then 0
    else
      var i := IndexOfKey(r[1..], k);
      assert Keys(r) == {r[0].0} + Keys(r[1..]);
      if i == -1 then -1 else i + 1
  }

  /**
   * Assigning a property: an existing key keeps its place and gets the new
   * value, a new key is appended.
   */
  function Put(r: Results, k: string, v: seq<Status>): (r': Results)
    requires DistinctKeys(r)
    ensures k in Keys(r) ==> |r'| == |r|
    ensures k !in Keys(r) ==> r' == r + [(k, v)]
    ensures Keys(r') == Keys(r) + {k}
    ensures forall i :: 0 <= i < |r'| && r'[i].0 != k ==> i < |r| && r'[i] == r[i]
    ensures forall e :: e in r' && e.0 == k ==> e.1 == v
    ensures DistinctKeys(r')
  {
    var i := IndexOfKey(r, k);
    if i == -1 then
      r + [(k, v)]
    else
      var r' := r[i := (k, v)];
      assert forall j :: 0 <= j < |r| && j != i ==> r'[j] == r[j] && r[j].0 != k;
      assert Keys(r') == Keys(r) by {
        forall e | e in r ensures e.0 in Keys(r') {
          var j :| 0 <= j < |r| && r[j] == e;
          assert r'[j].0 == e.0;
        }
        forall e | e in r' ensures e.0 in Keys(r) {
          var j :| 0 <= j < |r'| && r'[j] == e;
          assert r[j].0 == e.0;
        }
      }
      r'
  }

  /** The seed for one word: one empty status per character of the spelling. */
  function InitialResult(word: string): (r: seq<Status>)
    ensures |r| == |word|
    ensures forall i :: 0 <= i < |r| ==> r[i] == ""
  {
    seq(|word|, _ => "")
  }

  /**
   * The seed for a word list: each word mapped to its initial result, built
   * entry by entry as Object.fromEntries does.
   */
  function InitialResults(words: seq<string>): (r: Results)
    ensures DistinctKeys(r)
    ensures Keys(r) == set w | w in words
    ensures forall e :: e in r ==> e.1 == InitialResult(e.0)
    ensures |r| <= |words|
    decreases |words|
  {
    if words == [] then []
    else
      var w := words[|words| - 1];
      var prev := InitialResults(words[..|words| - 1]);
      assert words == words[..|words| - 1] + [w];
      Put(prev, w, InitialResult(w))
  }

  /** Seeding an empty list gives an empty object, and a single word one entry. */
  lemma InitialResultsSmall(w: string)
    ensures InitialResults([]) == []
    ensures InitialResults([w]) == [(w, InitialResult(w))]
  {
    assert [w][..0] == [];
  }

  /**
   * Every word of the list can be looked up in the seed and finds its
   * initial result there.
   */
  lemma {:induction false} InitialResultsLookup(words: seq<string>, w: string)
    requires w in words
    ensures Get(InitialResults(words), w) == Some(InitialResult(w))
  {
    var r := InitialResults(words);
    assert w in Keys(r);
    var v := Get(r, w);
    assert (w, v.value) in r;
  }

  /**
   * Whether a word's statuses line up with its expected phonemes (the check
   * made before statuses are zipped with phonemes).
   */
  predicate SameLength(statuses: seq<Status>, word: Word)
  {
    |statuses| == |word.phonemes|
  }

  /**
   * The length check made before zipping: a word whose statuses do not
   * line up with its expected phonemes is an error naming its spelling.
   */
  function AssertSameLength(statuses: seq<Status>, word: Word): (r: Result<Word>)
    ensures r.Ok? <==> |statuses| == |word.phonemes|
    ensures r.Ok? ==> r.value == word
    ensures r.Err? ==> r.error == LengthMismatch(word.raw)
  {
    if SameLength(statuses, word) then Ok(word) else Err(LengthMismatch(word.raw))
  }

  /**
   * initialResult counts characters, not phonemes: for a spelling with a
   * digraph the seeded statuses do not line up with the expected phonemes.
   */
  lemma InitialResultMismatch(raw: string)
    requires raw == "chata"
    ensures !SameLength(InitialResult(raw), ToWord(raw))
  {
    ChataPhonemes(raw);
  }

  lemma ChataPhonemes(raw: string)
    requires raw == "chata"
    ensures |ToWord(raw).phonemes| == 4
  {
    var s := StripWhitespace(raw);
    StripWhitespaceIdentity(raw);
    ChataSegments(s);
    ToWordShape(raw);
  }

  lemma ChataSegments(s: string)
    requires s == "chata"
    ensures |ToPhonemes(s)| == 4
  {
    assert Take(s, 2) == "ch" && "ch" in Diphthongs;
    assert s[2..] == "ata" && Take("ata", 2) == "at" && "at" !in Diphthongs;
    assert "ata"[1..] == "ta" && Take("ta", 2) == "ta" && "ta" !in Diphthongs;
    assert "ta"[1..] == "a" && Take("a", 2) == "a" && "a" !in Diphthongs;
    assert "a"[1..] == "";
  }
}
