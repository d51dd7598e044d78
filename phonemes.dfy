/**
 * Phonological transcription of a Slovak spelling into the phoneme sequence
 * a child is expected to pronounce: whitespace stripping, greedy digraph
 * segmentation, the recursive assimilation cascade and the final y/ý
 * normalisation.
 */
module Phonemes {

  type Phoneme = string

  /** A target word: its spelling as given and its expected phonemes. */
  datatype Word = Word(raw: string, phonemes: seq<Phoneme>)

  // ---------------------------------------------------------------------
  // Tables
  // ---------------------------------------------------------------------

  /** Two-character tokens that the segmenter keeps together. */
  const Diphthongs: seq<Phoneme> := ["ch", "dz", "dž", "ia", "ie", "iu"]

  /** Voiced consonants, index-aligned with their unvoiced counterparts. */
  const Voiced: seq<Phoneme> := ["b", "d", "ď", "dz", "dž", "z", "ž", "g", "h", "v"]
  const Unvoiced: seq<Phoneme> := ["p", "t", "ť", "c", "č", "s", "š", "k", "ch", "f"]

  /** Consonants that soften, index-aligned with their softened forms. */
  const ConsonantsToSoften: seq<Phoneme> := ["d", "t", "n"]
  const SoftenedConsonants: seq<Phoneme> := ["ď", "ť", "ň"]

  /** Vowels that soften a preceding d, t or n. */
  const SofteningTriggers: seq<Phoneme> := ["e", "é", "i", "í"]

  /** Joined phoneme sequences on which softening is suppressed. */
  const SoftenExceptions: seq<string> := ["deka"]

  /** True when no element occurs twice. */
  ghost predicate Distinct<T>(s: seq<T>)
  {
    forall i, j :: 0 <= i < j < |s| ==> s[i] != s[j]
  }

  /** The tables' shapes: aligned pairs have equal length, no duplicates. */
  lemma TablesWellFormed()
    ensures |Voiced| == |Unvoiced| && |ConsonantsToSoften| == |SoftenedConsonants|
    ensures Distinct(Voiced) && Distinct(Unvoiced)
    ensures Distinct(ConsonantsToSoften) && Distinct(SoftenedConsonants)
    ensures forall p :: p in Voiced ==> p !in Unvoiced
  {
  }

  /** Every digraph of the segmentation table is two characters long. */
  lemma DigraphsHaveTwo()
    ensures forall d :: d in Diphthongs ==> |d| == 2
  {
  }

  /**
   * Position of the first occurrence of p in table, or -1 when p is absent
   * (the semantics of Array.prototype.indexOf).
   */
  function IndexOf(table: seq<Phoneme>, p: Phoneme): (r: int)
    ensures -1 <= r < |table|
    ensures r == -1 <==> p !in table
    ensures 0 <= r ==> table[r] == p && p !in table[..r]
  {
    if |table| == 0 then -1
    else if table[0] == p then 0
    else
      var k := IndexOf(table[1..], p);
      if k == -1 then -1 else k + 1
  }

  /** In a table without duplicates, IndexOf finds each entry at its own index. */
  lemma IndexOfDistinct(table: seq<Phoneme>, i: nat)
    requires Distinct(table) && i < |table|
    ensures IndexOf(table, table[i]) == i
  {
  }

  /**
   * Appending to a sequence leaves the first index of what it already held
   * unchanged, and a newcomer is found at the end.
   */
  lemma {:induction false} IndexOfAppend(s: seq<Phoneme>, x: Phoneme, p: Phoneme)
    ensures p in s ==> IndexOf(s + [x], p) == IndexOf(s, p)
    ensures p !in s && p == x ==> IndexOf(s + [x], p) == |s|
    decreases |s|
  {
    if s != [] {
      assert (s + [x])[0] == s[0] && (s + [x])[1..] == s[1..] + [x];
      IndexOfAppend(s[1..], x, p);
    }
  }

  /** Membership in the voiced table, tested through IndexOf. */
  predicate IsVoiced(p: Phoneme)
    ensures IsVoiced(p) <==> p in Voiced
  {
    IndexOf(Voiced, p) != -1
  }

  /** Membership in the unvoiced table, tested through IndexOf. */
  predicate IsUnvoiced(p: Phoneme)
    ensures IsUnvoiced(p) <==> p in Unvoiced
  {
    IndexOf(Unvoiced, p) != -1
  }

  /** The unvoiced counterpart of a voiced consonant; any other phoneme is kept. */
  function VoicedToUnvoiced(p: Phoneme): (r: Phoneme)
    ensures p !in Voiced ==> r == p
    ensures p in Voiced ==> r in Unvoiced
  {
    var i := IndexOf(Voiced, p);
    if i == -1 then p else Unvoiced[i]
  }

  /** The voiced counterpart of an unvoiced consonant; any other phoneme is kept. */
  function UnvoicedToVoiced(p: Phoneme): (r: Phoneme)
    ensures p !in Unvoiced ==> r == p
    ensures p in Unvoiced ==> r in Voiced
  {
    var i := IndexOf(Unvoiced, p);
    if i == -1 then p else Voiced[i]
  }

  /** The softened counterpart of d, t or n; any other phoneme is kept. */
  function Soften(p: Phoneme): Phoneme
  {
    var i := IndexOf(ConsonantsToSoften, p);
    if i == -1 then p else SoftenedConsonants[i]
  }

  /**
   * Devoicing and voicing are the identity off their tables, map each table
   * into the other, and undo each other.
   */
  lemma VoicingInverse(p: Phoneme)
    ensures p !in Voiced ==> VoicedToUnvoiced(p) == p
    ensures p !in Unvoiced ==> UnvoicedToVoiced(p) == p
    ensures p in Voiced ==>
      VoicedToUnvoiced(p) in Unvoiced && UnvoicedToVoiced(VoicedToUnvoiced(p)) == p
    ensures p in Unvoiced ==>
      UnvoicedToVoiced(p) in Voiced && VoicedToUnvoiced(UnvoicedToVoiced(p)) == p
  {
    TablesWellFormed();
    if p in Voiced {
      var i := IndexOf(Voiced, p);
      IndexOfDistinct(Unvoiced, i);
    }
    if p in Unvoiced {
      var i := IndexOf(Unvoiced, p);
      IndexOfDistinct(Voiced, i);
    }
  }

  /** The aligned entries of the voicing tables map onto each other. */
  lemma VoicingPair(i: nat)
    requires i < |Voiced|
    ensures i < |Unvoiced|
    ensures VoicedToUnvoiced(Voiced[i]) == Unvoiced[i]
    ensures UnvoicedToVoiced(Unvoiced[i]) == Voiced[i]
  {
    TablesWellFormed();
    IndexOfDistinct(Voiced, i);
    IndexOfDistinct(Unvoiced, i);
  }

  /** Softening changes exactly d, t and n, and never yields one of them. */
  lemma SoftenChanges(p: Phoneme)
    ensures Soften(p) != p <==> p in ConsonantsToSoften
    ensures p in ConsonantsToSoften ==> Soften(p) in SoftenedConsonants
    ensures Soften(p) !in ConsonantsToSoften
  {
    if p in ConsonantsToSoften {
      var i := IndexOf(ConsonantsToSoften, p);
      assert ConsonantsToSoften[i] != SoftenedConsonants[i];
    }
  }

  /** Vowel normalisation: y to i and ý to í, everything else unchanged. */
  function YToI(p: Phoneme): (r: Phoneme)
    ensures r != "y" && r != "ý"
    ensures p == "y" ==> r == "i"
    ensures p == "ý" ==> r == "í"
    ensures p != "y" && p != "ý" ==> r == p
  {
    if p == "y" then "i"
    else if p == "ý" then "í"
    else p
  }

  // ---------------------------------------------------------------------
  // Whitespace and segmentation
  // ---------------------------------------------------------------------

  /** The characters matched by \s in an ECMAScript regular expression. */
  predicate IsWhitespace(c: char)
  {
    || c == ' ' || c == '\t' || c == '\n' || c == '\r'
    || c == '\U{000B}' || c == '\U{000C}' || c == '\U{00A0}' || c == '\U{1680}'
    || ('\U{2000}' <= c <= '\U{200A}')
    || c == '\U{2028}' || c == '\U{2029}' || c == '\U{202F}' || c == '\U{205F}'
    || c == '\U{3000}' || c == '\U{FEFF}'
  }

  /** The spelling with every whitespace character removed. */
  function StripWhitespace(s: string): (r: string)
    ensures |r| <= |s|
    ensures forall i :: 0 <= i < |r| ==> !IsWhitespace(r[i])
    ensures forall c :: c in r <==> c in s && !IsWhitespace(c)
  {
    if s == [] then []
    else if IsWhitespace(s[0]) then StripWhitespace(s[1..])
    else [s[0]] + StripWhitespace(s[1..])
  }

  /** A spelling without whitespace is left as it is, so stripping is idempotent. */
  lemma {:induction false} StripWhitespaceIdentity(s: string)
    requires forall i :: 0 <= i < |s| ==> !IsWhitespace(s[i])
    ensures StripWhitespace(s) == s
  {
    if s != [] {
      StripWhitespaceIdentity(s[1..]);
    }
  }

  /**
   * Stripping works character by character: a concatenation strips to the
   * concatenation of its stripped parts, and a single character is dropped
   * exactly when it is whitespace. Together these fix the order and the
   * multiplicity of the characters kept.
   */
  lemma {:induction false} StripWhitespaceAppend(a: string, b: string)
    ensures StripWhitespace(a + b) == StripWhitespace(a) + StripWhitespace(b)
    ensures |a| == 1 ==> StripWhitespace(a) == if IsWhitespace(a[0]) then "" else a
    decreases |a|
  {
    if a == [] {
      assert a + b == b;
    } else {
      assert (a + b)[0] == a[0] && (a + b)[1..] == a[1..] + b;
      StripWhitespaceAppend(a[1..], b);
      if |a| == 1 {
        assert a[1..] == [];
      }
    }
  }

  /** The first n characters, clamped like String.prototype.slice(0, n). */
  function Take(s: string, n: nat): (r: string)
    ensures |r| == if n < |s| then n else |s|
    ensures r == s[..|r|]
  {
    if n < |s| then s[..n] else s
  }

  /** Joining phonemes end to end, like Array.prototype.join(''). */
  function Concat(ts: seq<Phoneme>): string
  {
    if ts == [] then "" else ts[0] + Concat(ts[1..])
  }

  /**
   * Greedy segmentation: when the next two characters form a table entry
   * they are one token, otherwise the next character is.
   */
  function ToPhonemes(raw: string): (r: seq<Phoneme>)
    ensures |r| <= |raw|
    ensures r == [] <==> raw == []
    decreases |raw|
  {
    if |raw| == 0 then []
    else if Take(raw, 2) in Diphthongs then
      [Take(raw, 2)] + ToPhonemes(raw[|Take(raw, 2)|..])
    else
      [raw[..1]] + ToPhonemes(raw[1..])
  }

  /** A token is one character or a table digraph. */
  predicate IsToken(t: Phoneme)
  {
    |t| == 1 || t in Diphthongs
  }

  /**
   * A segmentation of raw that is greedy: its tokens join back to raw, each
   * is one character or a digraph, and no one-character token starts a
   * digraph together with the next character.
   */
  ghost predicate GreedySegmentation(raw: string, ts: seq<Phoneme>)
  {
    && Concat(ts) == raw
    && (forall i :: 0 <= i < |ts| ==> IsToken(ts[i]))
    && NoDigraphSplit(ts)
  }

  /** No one-character token starts a digraph together with the next token. */
  ghost predicate NoDigraphSplit(ts: seq<Phoneme>)
  {
    forall i :: 0 <= i < |ts| - 1 && |ts[i]| == 1 ==> ts[i] + Take(ts[i + 1], 1) !in Diphthongs
  }

  /** Segmentation gives raw back when its tokens are joined. */
  lemma {:induction false} ToPhonemesRoundTrip(raw: string)
    ensures Concat(ToPhonemes(raw)) == raw
    ensures ToPhonemes(raw) == [] <==> raw == ""
    decreases |raw|
  {
    if |raw| > 0 {
      var h := ToPhonemesCons(raw);
      ToPhonemesRoundTrip(raw[|h|..]);
      ConcatCons(h, ToPhonemes(raw[|h|..]));
    }
  }

  /** The first token of a non-empty spelling and the segmentation of the rest. */
  lemma ToPhonemesCons(raw: string) returns (h: Phoneme)
    requires |raw| > 0
    ensures 1 <= |h| <= |raw| && h == raw[..|h|] && IsToken(h)
    ensures |h| == 2 <==> Take(raw, 2) in Diphthongs
    ensures ToPhonemes(raw) == [h] + ToPhonemes(raw[|h|..])
  {
    DigraphsHaveTwo();
    h := if Take(raw, 2) in Diphthongs then Take(raw, 2) else raw[..1];
  }

  lemma ConcatCons(h: Phoneme, ts: seq<Phoneme>)
    ensures Concat([h] + ts) == h + Concat(ts)
  {
    assert ([h] + ts)[1..] == ts;
  }

  /** Every token of the segmentation is one character or a digraph. */
  lemma {:induction false} ToPhonemesTokens(raw: string)
    ensures forall i :: 0 <= i < |ToPhonemes(raw)| ==> IsToken(ToPhonemes(raw)[i])
    ensures |ToPhonemes(raw)| <= |raw|
    ensures |ToPhonemes(raw)| == |raw| <==>
      forall i :: 0 <= i < |ToPhonemes(raw)| ==> |ToPhonemes(raw)[i]| == 1
    decreases |raw|
  {
    if |raw| > 0 {
      DigraphsHaveTwo();
      var h := if Take(raw, 2) in Diphthongs then Take(raw, 2) else raw[..1];
      ToPhonemesTokens(raw[|h|..]);
      TokensCons(h, ToPhonemes(raw[|h|..]));
      assert ToPhonemes(raw) == [h] + ToPhonemes(raw[|h|..]);
    }
  }

  /** Tokens and their lengths after one more leading token. */
  lemma TokensCons(h: Phoneme, rest: seq<Phoneme>)
    requires IsToken(h) && 1 <= |h| <= 2
    ensures (forall i :: 0 <= i < |[h] + rest| ==> IsToken(([h] + rest)[i])) <==>
      forall j :: 0 <= j < |rest| ==> IsToken(rest[j])
    ensures (forall i :: 0 <= i < |[h] + rest| ==> |([h] + rest)[i]| == 1) <==>
      |h| == 1 && forall j :: 0 <= j < |rest| ==> |rest[j]| == 1
  {
    var ts := [h] + rest;
    assert ts[0] == h;
    assert forall j :: 0 <= j < |rest| ==> rest[j] == ts[j + 1];
    assert forall i :: 0 < i < |ts| ==> ts[i] == rest[i - 1];
  }

  /** The segmentation is greedy. */
  lemma {:induction false} ToPhonemesGreedy(raw: string)
    ensures GreedySegmentation(raw, ToPhonemes(raw))
    decreases |raw|
  {
    ToPhonemesRoundTrip(raw);
    ToPhonemesTokens(raw);
    if |raw| > 0 {
      var h := ToPhonemesCons(raw);
      ToPhonemesGreedy(raw[|h|..]);
      GreedyHead(raw, h);
      NoDigraphSplitCons(h, ToPhonemes(raw[|h|..]));
    }
  }

  /** A one-character first token does not start a digraph with the next token. */
  lemma GreedyHead(raw: string, h: Phoneme)
    requires |raw| > 0 && 1 <= |h| <= |raw| && h == raw[..|h|]
    requires |h| == 2 <==> Take(raw, 2) in Diphthongs
    ensures |h| == 1 && |raw| > 1 ==> h + Take(ToPhonemes(raw[1..])[0], 1) !in Diphthongs
  {
    if |h| == 1 && |raw| > 1 {
      var h2 := ToPhonemesCons(raw[1..]);
      assert Take(h2, 1) == raw[1..2];
      assert h + Take(h2, 1) == Take(raw, 2);
    }
  }

  lemma NoDigraphSplitCons(h: Phoneme, rest: seq<Phoneme>)
    requires NoDigraphSplit(rest)
    requires |h| == 1 && |rest| > 0 ==> h + Take(rest[0], 1) !in Diphthongs
    ensures NoDigraphSplit([h] + rest)
  {
    var ts := [h] + rest;
    forall i | 0 <= i < |ts| - 1 && |ts[i]| == 1
      ensures ts[i] + Take(ts[i + 1], 1) !in Diphthongs
    {
      if i > 0 {
        assert ts[i] == rest[i - 1] && ts[i + 1] == rest[i];
      }
    }
  }

  /**
   * A greedy segmentation is unique: any sequence of tokens with the three
   * properties above is the one ToPhonemes computes.
   */
  lemma {:induction false} GreedySegmentationUnique(raw: string, ts: seq<Phoneme>)
    requires GreedySegmentation(raw, ts)
    ensures ts == ToPhonemes(raw)
    decreases |raw|
  {
    DigraphsHaveTwo();
    if ts == [] {
      assert raw == "";
    } else {
      var t := ts[0];
      assert IsToken(t);
      assert Concat(ts) == t + Concat(ts[1..]);
      assert |t| >= 1;
      var tail := Concat(ts[1..]);
      assert raw == t + tail;
      assert raw[..|t|] == t && raw[|t|..] == tail;
      // the first token is the one ToPhonemes chooses
      if |t| == 2 {
        assert Take(raw, 2) == t;
      } else if |raw| >= 2 {
        assert |ts| > 1;
        var u := ts[1];
        assert IsToken(u) && |u| >= 1;
        assert Concat(ts[1..]) == u + Concat(ts[2..]);
        assert tail[0] == u[0];
        assert t + Take(u, 1) !in Diphthongs;
        assert Take(raw, 2) == t + Take(u, 1);
      } else {
        assert Take(raw, 2) == raw;
        assert |raw| == 1;
      }
      assert GreedySegmentation(tail, ts[1..]) by {
        forall i | 0 <= i < |ts[1..]| ensures IsToken(ts[1..][i]) {
          assert ts[1..][i] == ts[i + 1];
        }
        forall i | 0 <= i < |ts[1..]| - 1 && |ts[1..][i]| == 1
          ensures ts[1..][i] + Take(ts[1..][i + 1], 1) !in Diphthongs
        {
          assert ts[1..][i] == ts[i + 1] && ts[1..][i + 1] == ts[i + 2];
        }
      }
      GreedySegmentationUnique(tail, ts[1..]);
      assert ts == [t] + ts[1..];
    }
  }

  // ---------------------------------------------------------------------
  // Assimilation
  // ---------------------------------------------------------------------

  /**
   * The rule cascade, tried in this order on the remaining phonemes
   * [p0, p1, ...]: a lone phoneme is devoiced; d, t, n soften before e, é,
   * i, í unless the joined remainder is an exception; a voiced consonant
   * devoices before an unvoiced one; an unvoiced consonant voices before a
   * voiced one except on the first call for a word; otherwise p0 is kept.
   * The first three rewrites consume two phonemes.
   */
  function ApplyAssimilations(ps: seq<Phoneme>, isWhole: bool): (r: seq<Phoneme>)
    ensures |r| == |ps|
    decreases |ps|
  {
    if |ps| == 0 then []
    else if |ps| == 1 then [VoicedToUnvoiced(ps[0])]
    else if ps[1] in SofteningTriggers && IndexOf(ConsonantsToSoften, ps[0]) != -1
            && Concat(ps) !in SoftenExceptions then
      [Soften(ps[0]), ps[1]] + ApplyAssimilations(ps[2..], false)
    else if IsVoiced(ps[0]) && IsUnvoiced(ps[1]) then
      [VoicedToUnvoiced(ps[0]), ps[1]] + ApplyAssimilations(ps[2..], false)
    else if IsUnvoiced(ps[0]) && IsVoiced(ps[1]) && !isWhole then
      [UnvoicedToVoiced(ps[0]), ps[1]] + ApplyAssimilations(ps[2..], false)
    else
      [ps[0]] + ApplyAssimilations(ps[1..], false)
  }

  /**
   * Why the phoneme at index i may differ from its input: it is kept, or it
   * is softened before a trigger vowel, or devoiced before an unvoiced
   * consonant or at the end, or voiced before a voiced consonant but never
   * at the very start of a word.
   */
  ghost predicate JustifiedAt(ps: seq<Phoneme>, r: seq<Phoneme>, i: nat, isWhole: bool)
    requires i < |ps| == |r|
  {
    var p := ps[i];
    || r[i] == p
    || (r[i] == Soften(p) && p in ConsonantsToSoften
        && i + 1 < |ps| && ps[i + 1] in SofteningTriggers)
    || (r[i] == VoicedToUnvoiced(p) && p in Voiced
        && (i + 1 == |ps| || ps[i + 1] in Unvoiced))
    || (r[i] == UnvoicedToVoiced(p) && p in Unvoiced
        && i + 1 < |ps| && ps[i + 1] in Voiced && (i > 0 || !isWhole))
  }

  /**
   * Every phoneme of the result is justified by its right neighbour in the
   * input, and the neighbour of a changed phoneme is emitted unchanged.
   */
  lemma {:induction false} AssimilationsJustified(ps: seq<Phoneme>, isWhole: bool)
    ensures forall i :: 0 <= i < |ps| ==>
      JustifiedAt(ps, ApplyAssimilations(ps, isWhole), i, isWhole)
    ensures forall i :: 0 <= i < |ps| - 1 && ApplyAssimilations(ps, isWhole)[i] != ps[i] ==>
      ApplyAssimilations(ps, isWhole)[i + 1] == ps[i + 1]
    decreases |ps|
  {
    if |ps| == 1 {
      JustifiedLast(ps, isWhole);
    } else if |ps| >= 2 {
      var step := AssimilationsStep(ps, isWhole);
      AssimilationsJustified(ps[step..], false);
      JustifiedCombine(ps, ApplyAssimilations(ps, isWhole), step, isWhole);
    }
  }

  /** A lone last phoneme is devoiced, which is justified. */
  lemma JustifiedLast(ps: seq<Phoneme>, isWhole: bool)
    requires |ps| == 1
    ensures JustifiedAt(ps, ApplyAssimilations(ps, isWhole), 0, isWhole)
  {
    VoicingInverse(ps[0]);
  }

  /** The result is justified when its first step is and the rest, processed on its own, is. */
  lemma JustifiedCombine(ps: seq<Phoneme>, r: seq<Phoneme>, step: nat, isWhole: bool)
    requires 1 <= step <= 2 <= |ps| == |r|
    requires JustifiedAt(ps, r, 0, isWhole)
    requires step == 1 ==> r[0] == ps[0]
    requires step == 2 ==> r[1] == ps[1]
    requires forall i :: 0 <= i < |ps[step..]| ==> JustifiedAt(ps[step..], r[step..], i, false)
    requires forall i :: 0 <= i < |ps[step..]| - 1 && r[step..][i] != ps[step..][i] ==>
      r[step..][i + 1] == ps[step..][i + 1]
    ensures forall i :: 0 <= i < |ps| ==> JustifiedAt(ps, r, i, isWhole)
    ensures forall i :: 0 <= i < |ps| - 1 && r[i] != ps[i] ==> r[i + 1] == ps[i + 1]
  {
    forall i | 0 <= i < |ps|
      ensures JustifiedAt(ps, r, i, isWhole)
    {
      if i >= step {
        JustifiedSuffix(ps, r, step, isWhole, i);
      } else if i == 1 {
        JustifiedKept(ps, r, i, isWhole);
      }
    }
    NeighbourCombine(ps, r, step);
  }

  lemma JustifiedKept(ps: seq<Phoneme>, r: seq<Phoneme>, i: nat, isWhole: bool)
    requires i < |ps| == |r| && r[i] == ps[i]
    ensures JustifiedAt(ps, r, i, isWhole)
  {
  }

  lemma NeighbourCombine(ps: seq<Phoneme>, r: seq<Phoneme>, step: nat)
    requires 1 <= step <= 2 <= |ps| == |r|
    requires step == 1 ==> r[0] == ps[0]
    requires step == 2 ==> r[1] == ps[1]
    requires forall i :: 0 <= i < |ps[step..]| - 1 && r[step..][i] != ps[step..][i] ==>
      r[step..][i + 1] == ps[step..][i + 1]
    ensures forall i :: 0 <= i < |ps| - 1 && r[i] != ps[i] ==> r[i + 1] == ps[i + 1]
  {
    forall i | step <= i < |ps| - 1 && r[i] != ps[i]
      ensures r[i + 1] == ps[i + 1]
    {
      assert ps[step..][i - step] == ps[i] && r[step..][i - step] == r[i];
      assert ps[step..][i - step + 1] == ps[i + 1] && r[step..][i - step + 1] == r[i + 1];
    }
  }

  /**
   * One step of the cascade: it emits one or two justified phonemes, the
   * second of which is unchanged, and hands the rest to a non-initial call.
   */
  lemma AssimilationsStep(ps: seq<Phoneme>, isWhole: bool) returns (step: nat)
    requires |ps| >= 2
    ensures 1 <= step <= 2
    ensures var r := ApplyAssimilations(ps, isWhole);
      && r[step..] == ApplyAssimilations(ps[step..], false)
      && JustifiedAt(ps, r, 0, isWhole)
      && (step == 1 ==> r[0] == ps[0])
      && (step == 2 ==> r[1] == ps[1])
  {
    var p := ps[0];
    var first: Phoneme;
    if ps[1] in SofteningTriggers && IndexOf(ConsonantsToSoften, p) != -1
       && Concat(ps) !in SoftenExceptions {
      step, first := 2, Soften(p);
    } else if IsVoiced(p) && IsUnvoiced(ps[1]) {
      step, first := 2, VoicedToUnvoiced(p);
    } else if IsUnvoiced(p) && IsVoiced(ps[1]) && !isWhole {
      step, first := 2, UnvoicedToVoiced(p);
    } else {
      step, first := 1, p;
    }
    var head := if step == 2 then [first, ps[1]] else [first];
    StepSplit(head, ApplyAssimilations(ps[step..], false), ApplyAssimilations(ps, isWhole));
  }

  /** A result made of a head and a tail starts with the head and continues with the tail. */
  lemma StepSplit(head: seq<Phoneme>, tail: seq<Phoneme>, r: seq<Phoneme>)
    requires r == head + tail
    ensures r[|head|..] == tail
    ensures forall i :: 0 <= i < |head| ==> r[i] == head[i]
  {
  }

  /** Justification carries over from a suffix that the cascade processed on its own. */
  lemma JustifiedSuffix(ps: seq<Phoneme>, r: seq<Phoneme>, step: nat, isWhole: bool, i: nat)
    requires 1 <= step <= i < |ps| == |r|
    requires JustifiedAt(ps[step..], r[step..], i - step, false)
    ensures JustifiedAt(ps, r, i, isWhole)
  {
    assert ps[step..][i - step] == ps[i] && r[step..][i - step] == r[i];
    if i + 1 < |ps| { assert ps[step..][i - step + 1] == ps[i + 1]; }
  }

  /** Phonemes outside the voicing and softening tables (vowels among them) pass through. */
  lemma AssimilationsKeepOthers(ps: seq<Phoneme>, isWhole: bool, i: nat)
    requires i < |ps|
    requires ps[i] !in Voiced && ps[i] !in Unvoiced && ps[i] !in ConsonantsToSoften
    ensures ApplyAssimilations(ps, isWhole)[i] == ps[i]
  {
    AssimilationsJustified(ps, isWhole);
    assert JustifiedAt(ps, ApplyAssimilations(ps, isWhole), i, isWhole);
  }

  // ---------------------------------------------------------------------
  // Words
  // ---------------------------------------------------------------------

  /** Applies YToI to every phoneme (the final Array.prototype.map). */
  function MapYToI(ps: seq<Phoneme>): (r: seq<Phoneme>)
    ensures |r| == |ps|
    ensures forall i :: 0 <= i < |r| ==> r[i] == YToI(ps[i])
  {
    seq(|ps|, i requires 0 <= i < |ps| => YToI(ps[i]))
  }

  /** The expected pronunciation of a spelling. */
  function ToWord(raw: string): (w: Word)
    ensures w.raw == raw
    ensures |w.phonemes| <= |raw|
  {
    Word(raw, MapYToI(ApplyAssimilations(ToPhonemes(StripWhitespace(raw)), true)))
  }

  /**
   * The phoneme count is the token count of the stripped spelling, at most
   * its character count; and no y or ý is left.
   */
  lemma ToWordShape(raw: string)
    ensures |ToWord(raw).phonemes| == |ToPhonemes(StripWhitespace(raw))|
    ensures |ToWord(raw).phonemes| <= |StripWhitespace(raw)| <= |raw|
    ensures forall p :: p in ToWord(raw).phonemes ==> p != "y" && p != "ý"
  {
    ToPhonemesTokens(StripWhitespace(raw));
  }

  /** The phonemes depend only on the spelling with its whitespace removed. */
  lemma ToWordIgnoresWhitespace(raw: string)
    ensures ToWord(raw).phonemes == ToWord(StripWhitespace(raw)).phonemes
  {
    StripWhitespaceIdentity(StripWhitespace(raw));
  }

  // ---------------------------------------------------------------------
  // Worked examples
  // ---------------------------------------------------------------------

  /** The phonemes of a spelling whose segmentation and cascade are known. */
  lemma ToWordVia(raw: string, ts: seq<Phoneme>, ps: seq<Phoneme>)
    requires ts == ToPhonemes(StripWhitespace(raw)) && ps == ApplyAssimilations(ts, true)
    requires forall i :: 0 <= i < |ps| ==> ps[i] != "y" && ps[i] != "ý"
    ensures ToWord(raw).phonemes == ps
  {
  }

  /** The digraph "ie" is kept together, "di" is not a digraph. */
  lemma SegmentDie()
    ensures ToPhonemes("die") == ["d", "ie"]
  {
    var raw := "die";
    assert Take(raw, 2) == "di" && "di" !in Diphthongs;
    assert raw[..1] == "d" && raw[1..] == "ie";
    assert Take("ie", 2) == "ie" && "ie"[2..] == "";
    assert ToPhonemes("ie") == ["ie"];
  }

  // One step of the cascade each; the examples below chain them.

  /** Rule 6: the first phoneme is kept and the cascade moves on by one. */
  lemma KeepStep(ps: seq<Phoneme>, isWhole: bool)
    requires |ps| >= 2
    requires !(ps[0] in Voiced && ps[1] in Unvoiced)
    requires !(ps[0] in Unvoiced && ps[1] in Voiced && !isWhole)
    requires !(ps[1] in SofteningTriggers && ps[0] in ConsonantsToSoften
               && Concat(ps) !in SoftenExceptions)
    ensures ApplyAssimilations(ps, isWhole) == [ps[0]] + ApplyAssimilations(ps[1..], false)
  {
  }

  /** Rule 3: the i-th softenable consonant softens before a trigger vowel. */
  lemma SoftenStep(ps: seq<Phoneme>, isWhole: bool, i: nat)
    requires |ps| >= 2 && i < |ConsonantsToSoften|
    requires ps[0] == ConsonantsToSoften[i] && ps[1] in SofteningTriggers
    requires Concat(ps) !in SoftenExceptions
    ensures ApplyAssimilations(ps, isWhole)
         == [SoftenedConsonants[i], ps[1]] + ApplyAssimilations(ps[2..], false)
  {
    TablesWellFormed();
    IndexOfDistinct(ConsonantsToSoften, i);
  }

  /** Rule 4: the i-th voiced consonant devoices before an unvoiced one. */
  lemma DevoiceStep(ps: seq<Phoneme>, isWhole: bool, i: nat)
    requires |ps| >= 2 && i < |Voiced|
    requires ps[0] == Voiced[i] && ps[1] in Unvoiced
    ensures i < |Unvoiced|
    ensures ApplyAssimilations(ps, isWhole)
         == [Unvoiced[i], ps[1]] + ApplyAssimilations(ps[2..], false)
  {
    VoicingPair(i);
    UnvoicedNotTrigger(ps[1]);
  }

  /** No unvoiced consonant triggers softening, so rule 3 never preempts rule 4. */
  lemma UnvoicedNotTrigger(q: Phoneme)
    requires q in Unvoiced
    ensures q !in SofteningTriggers
  {
  }

  /** Rule 2: a lone phoneme that is not voiced stays as it is. */
  lemma LastStep(ps: seq<Phoneme>, isWhole: bool)
    requires |ps| == 1 && ps[0] !in Voiced
    ensures ApplyAssimilations(ps, isWhole) == ps
  {
    VoicingInverse(ps[0]);
  }

  /** Rule 5: the i-th unvoiced consonant voices before a voiced one, except on the first call. */
  lemma VoiceStep(ps: seq<Phoneme>, i: nat)
    requires |ps| >= 2 && i < |Unvoiced|
    requires ps[0] == Unvoiced[i] && ps[1] in Voiced
    ensures i < |Voiced|
    ensures ApplyAssimilations(ps, false)
         == [Voiced[i], ps[1]] + ApplyAssimilations(ps[2..], false)
  {
    VoicingPair(i);
    UnvoicedPair(ps[0], ps[1]);
    ApplyVoice(ps, Voiced[i]);
  }

  /** An unvoiced-then-voiced pair meets none of rules 3 and 4. */
  lemma UnvoicedPair(p: Phoneme, q: Phoneme)
    requires p in Unvoiced && q in Voiced
    ensures !IsVoiced(p) && IsUnvoiced(p) && IsVoiced(q) && q !in SofteningTriggers
  {
    UnvoicedNotVoiced(p);
    VoicedNotTrigger(q);
  }

  lemma UnvoicedNotVoiced(p: Phoneme)
    requires p in Unvoiced
    ensures p !in Voiced
  {
    TablesWellFormed();
  }

  lemma VoicedNotTrigger(q: Phoneme)
    requires q in Voiced
    ensures q !in SofteningTriggers
  {
  }

  lemma ApplyVoice(ps: seq<Phoneme>, v: Phoneme)
    requires |ps| >= 2 && !IsVoiced(ps[0]) && IsUnvoiced(ps[0]) && IsVoiced(ps[1])
    requires ps[1] !in SofteningTriggers && UnvoicedToVoiced(ps[0]) == v
    ensures ApplyAssimilations(ps, false) == [v, ps[1]] + ApplyAssimilations(ps[2..], false)
  {
  }

  /** At the start of a word rule 5 is off: the unvoiced consonant is kept. */
  lemma VoiceAtStart(ps: seq<Phoneme>)
    requires |ps| >= 2 && ps[0] in Unvoiced && ps[1] in Voiced
    ensures ApplyAssimilations(ps, true) == [ps[0]] + ApplyAssimilations(ps[1..], false)
  {
    UnvoicedPair(ps[0], ps[1]);
    KeepStep(ps, true);
  }

  /** Rule 2: a lone i-th voiced consonant is devoiced. */
  lemma LastVoicedStep(ps: seq<Phoneme>, isWhole: bool, i: nat)
    requires |ps| == 1 && i < |Voiced| && ps[0] == Voiced[i]
    ensures i < |Unvoiced|
    ensures ApplyAssimilations(ps, isWhole) == [Unvoiced[i]]
  {
    VoicingPair(i);
  }

  /** The worked examples' phonemes hold no y or ý. */
  lemma NoYIn(ps: seq<Phoneme>)
    requires ps == ["s"] || ps == ["f", "t", "á", "k"] || ps == ["d", "e", "k", "a"] ||
             ps == ["o", "d", "e", "k", "a"] || ps == ["ď", "e", "ť", "i"] ||
             ps == ["k", "r", "e", "z", "b", "a"] || ps == ["s", "b", "o", "r"]
    ensures forall i :: 0 <= i < |ps| ==> ps[i] != "y" && ps[i] != "ý"
  {
  }

  lemma SegmentZ()
    ensures ToPhonemes("z") == ["z"]
  {
    assert Take("z", 2) == "z" && "z" !in Diphthongs;
    assert "z"[..1] == "z" && "z"[1..] == "";
  }

  /** A lone voiced consonant is devoiced. */
  lemma AssimilateZ(ps: seq<Phoneme>)
    requires ps == ["z"]
    ensures ApplyAssimilations(ps, true) == ["s"]
  {
    LastVoicedStep(ps, true, 5);
  }

  lemma TranscribeZ(raw: string)
    requires StripWhitespace(raw) == "z"
    ensures ToWord(raw).phonemes == ["s"]
  {
    var ts := ToPhonemes(StripWhitespace(raw));
    SegmentZ();
    AssimilateZ(ts);
    var ps := ApplyAssimilations(ts, true);
    NoYIn(ps);
    ToWordVia(raw, ts, ps);
  }

  lemma SegmentVtak()
    ensures ToPhonemes("vták") == ["v", "t", "á", "k"]
  {
    var raw := "vták";
    var s1, s2, s3 := raw[1..], raw[2..], raw[3..];
    assert s1 == "ták" && s2 == "ák" && s3 == "k" && s3[1..] == "";
    assert s1 == raw[1..] && s2 == s1[1..] && s3 == s2[1..];
    assert Take(raw, 2) == "vt" && Take(s1, 2) == "tá" && Take(s2, 2) == "ák" && Take(s3, 2) == "k";
    assert raw[..1] == "v" && s1[..1] == "t" && s2[..1] == "á" && s3[..1] == "k";
    assert ToPhonemes(s3[1..]) == [];
  }

  lemma VtakStep1(ps: seq<Phoneme>)
    requires ps == ["v", "t", "á", "k"]
    ensures ApplyAssimilations(ps, true) == ["f", "t"] + ApplyAssimilations(ps[2..], false)
  {
    DevoiceStep(ps, true, 9);
  }

  lemma VtakStep2(ps: seq<Phoneme>)
    requires ps == ["á", "k"]
    ensures ApplyAssimilations(ps, false) == ["á"] + ApplyAssimilations(ps[1..], false)
  {
    KeepStep(ps, false);
  }

  lemma VtakStep3(ps: seq<Phoneme>)
    requires ps == ["k"]
    ensures ApplyAssimilations(ps, false) == ["k"]
  {
    LastStep(ps, false);
  }

  lemma AssimilateVtak(ps: seq<Phoneme>)
    requires ps == ["v", "t", "á", "k"]
    ensures ApplyAssimilations(ps, true) == ["f", "t", "á", "k"]
  {
    VtakStep1(ps);
    VtakStep2(ps[2..]);
    VtakStep3(ps[3..]);
  }

  /** v devoices before the unvoiced t; the rest passes through. */
  lemma TranscribeVtak(raw: string)
    requires StripWhitespace(raw) == "vták"
    ensures ToWord(raw).phonemes == ["f", "t", "á", "k"]
  {
    var ts := ToPhonemes(StripWhitespace(raw));
    SegmentVtak();
    AssimilateVtak(ts);
    var ps := ApplyAssimilations(ts, true);
    NoYIn(ps);
    ToWordVia(raw, ts, ps);
  }

  /** The segmentation of "deka". */
  lemma SegmentDeka()
    ensures ToPhonemes("deka") == ["d", "e", "k", "a"]
  {
    assert Take("deka", 2) == "de" && "de" !in Diphthongs;
    assert "deka"[..1] == "d" && "deka"[1..] == "eka";
    assert Take("eka", 2) == "ek" && "ek" !in Diphthongs;
    assert "eka"[..1] == "e" && "eka"[1..] == "ka";
    assert Take("ka", 2) == "ka" && "ka" !in Diphthongs;
    assert "ka"[..1] == "k" && "ka"[1..] == "a";
    assert Take("a", 2) == "a" && "a" !in Diphthongs;
    assert "a"[..1] == "a" && "a"[1..] == "";
  }

  /** The segmentation of the longer "odeka". */
  lemma SegmentOdeka()
    ensures ToPhonemes("odeka") == ["o", "d", "e", "k", "a"]
  {
    assert Take("odeka", 2) == "od" && "od" !in Diphthongs;
    assert "odeka"[..1] == "o" && "odeka"[1..] == "deka";
    SegmentDeka();
  }

  lemma JoinDeka(ps: seq<Phoneme>)
    requires ps == ["d", "e", "k", "a"]
    ensures Concat(ps) == "deka"
  {
    assert ps[1..] == ["e", "k", "a"] && ps[1..][1..] == ["k", "a"] && ps[1..][1..][1..] == ["a"];
    assert Concat(["a"]) == "a";
    assert Concat(["k", "a"]) == "ka";
    assert Concat(["e", "k", "a"]) == "eka";
  }

  lemma DekaStep1(ps: seq<Phoneme>, isWhole: bool)
    requires ps == ["d", "e", "k", "a"]
    ensures ApplyAssimilations(ps, isWhole) == ["d"] + ApplyAssimilations(ps[1..], false)
  {
    JoinDeka(ps);
    KeepStep(ps, isWhole);
  }

  lemma DekaStep2(ps: seq<Phoneme>)
    requires ps == ["e", "k", "a"]
    ensures ApplyAssimilations(ps, false) == ps
  {
    KeepStep(ps, false);
    DekaStep3(ps[1..]);
  }

  lemma DekaStep3(ps: seq<Phoneme>)
    requires ps == ["k", "a"]
    ensures ApplyAssimilations(ps, false) == ps
  {
    KeepStep(ps, false);
    DekaStep4(ps[1..]);
  }

  lemma DekaStep4(ps: seq<Phoneme>)
    requires ps == ["a"]
    ensures ApplyAssimilations(ps, false) == ["a"]
  {
    LastStep(ps, false);
  }

  /** The cascade leaves d, e, k, a unchanged because their join is the exception. */
  lemma AssimilateDeka(ps: seq<Phoneme>, isWhole: bool)
    requires ps == ["d", "e", "k", "a"]
    ensures ApplyAssimilations(ps, isWhole) == ps
  {
    DekaStep1(ps, isWhole);
    DekaStep2(ps[1..]);
  }

  /** "deka" is an exception: its d is not softened. */
  lemma TranscribeDeka(raw: string)
    requires StripWhitespace(raw) == "deka"
    ensures ToWord(raw).phonemes == ["d", "e", "k", "a"]
  {
    var ts := ToPhonemes(StripWhitespace(raw));
    SegmentDeka();
    AssimilateDeka(ts, true);
    var ps := ApplyAssimilations(ts, true);
    NoYIn(ps);
    ToWordVia(raw, ts, ps);
  }

  lemma OdekaStep1(ps: seq<Phoneme>)
    requires ps == ["o", "d", "e", "k", "a"]
    ensures ApplyAssimilations(ps, true) == ["o"] + ApplyAssimilations(ps[1..], false)
  {
    KeepStep(ps, true);
  }

  lemma AssimilateOdeka(ps: seq<Phoneme>)
    requires ps == ["o", "d", "e", "k", "a"]
    ensures ApplyAssimilations(ps, true) == ps
  {
    OdekaStep1(ps);
    AssimilateDeka(ps[1..], false);
  }

  /**
   * The exception is tested against the remaining phonemes, not against the
   * whole word: in "odeka" the d is reached with "deka" left, and is kept.
   */
  lemma TranscribeOdeka(raw: string)
    requires StripWhitespace(raw) == "odeka"
    ensures ToWord(raw).phonemes == ["o", "d", "e", "k", "a"]
  {
    var ts := ToPhonemes(StripWhitespace(raw));
    SegmentOdeka();
    AssimilateOdeka(ts);
    var ps := ApplyAssimilations(ts, true);
    NoYIn(ps);
    ToWordVia(raw, ts, ps);
  }

  lemma SegmentDeti()
    ensures ToPhonemes("deti") == ["d", "e", "t", "i"]
  {
    assert Take("deti", 2) == "de" && "de" !in Diphthongs;
    assert "deti"[..1] == "d" && "deti"[1..] == "eti";
    assert Take("eti", 2) == "et" && "et" !in Diphthongs;
    assert "eti"[..1] == "e" && "eti"[1..] == "ti";
    assert Take("ti", 2) == "ti" && "ti" !in Diphthongs;
    assert "ti"[..1] == "t" && "ti"[1..] == "i";
    assert Take("i", 2) == "i" && "i" !in Diphthongs;
    assert "i"[..1] == "i" && "i"[1..] == "";
  }

  lemma DetiStep1(ps: seq<Phoneme>)
    requires ps == ["d", "e", "t", "i"]
    ensures ApplyAssimilations(ps, true) == ["ď", "e"] + ApplyAssimilations(ps[2..], false)
  {
    assert Concat(ps) == "d" + Concat(ps[1..]);
    assert Concat(ps) != "deka" by {
      assert Concat(ps[1..]) == "e" + Concat(ps[2..]);
      assert Concat(ps[2..]) == "t" + Concat(ps[3..]);
      assert Concat(ps)[2] == 't';
    }
    SoftenStep(ps, true, 0);
  }

  lemma DetiStep2(ps: seq<Phoneme>)
    requires ps == ["t", "i"]
    ensures ApplyAssimilations(ps, false) == ["ť", "i"]
  {
    assert Concat(ps) == "t" + Concat(ps[1..]);
    SoftenStep(ps, false, 1);
  }

  lemma AssimilateDeti(ps: seq<Phoneme>)
    requires ps == ["d", "e", "t", "i"]
    ensures ApplyAssimilations(ps, true) == ["ď", "e", "ť", "i"]
  {
    DetiStep1(ps);
    DetiStep2(ps[2..]);
  }

  /** Outside the exception, d and t soften before e and i. */
  lemma TranscribeDeti(raw: string)
    requires StripWhitespace(raw) == "deti"
    ensures ToWord(raw).phonemes == ["ď", "e", "ť", "i"]
  {
    var ts := ToPhonemes(StripWhitespace(raw));
    SegmentDeti();
    AssimilateDeti(ts);
    var ps := ApplyAssimilations(ts, true);
    NoYIn(ps);
    ToWordVia(raw, ts, ps);
  }

  lemma SegmentKresba()
    ensures ToPhonemes("kresba") == ["k", "r", "e", "s", "b", "a"]
  {
    assert Take("kresba", 2) == "kr" && "kr" !in Diphthongs;
    assert "kresba"[..1] == "k" && "kresba"[1..] == "resba";
    SegmentResba();
  }

  lemma SegmentResba()
    ensures ToPhonemes("resba") == ["r", "e", "s", "b", "a"]
  {
    assert Take("resba", 2) == "re" && "re" !in Diphthongs;
    assert "resba"[..1] == "r" && "resba"[1..] == "esba";
    SegmentEsba();
  }

  lemma SegmentEsba()
    ensures ToPhonemes("esba") == ["e", "s", "b", "a"]
  {
    assert Take("esba", 2) == "es" && "es" !in Diphthongs;
    assert "esba"[..1] == "e" && "esba"[1..] == "sba";
    assert Take("sba", 2) == "sb" && "sb" !in Diphthongs;
    assert "sba"[..1] == "s" && "sba"[1..] == "ba";
    assert Take("ba", 2) == "ba" && "ba" !in Diphthongs;
    assert "ba"[..1] == "b" && "ba"[1..] == "a";
    assert Take("a", 2) == "a" && "a" !in Diphthongs;
    assert "a"[..1] == "a" && "a"[1..] == "";
  }

  // The steps on "kresba" each take the whole word and speak about one suffix.

  lemma KresbaStep1(ps: seq<Phoneme>)
    requires ps == ["k", "r", "e", "s", "b", "a"]
    ensures ApplyAssimilations(ps, true) == ["k"] + ApplyAssimilations(ps[1..], false)
  {
    KeepStep(ps, true);
  }

  lemma KresbaStep2(ps: seq<Phoneme>)
    requires ps == ["k", "r", "e", "s", "b", "a"]
    ensures ApplyAssimilations(ps[1..], false) == ["r"] + ApplyAssimilations(ps[2..], false)
  {
    var q := ps[1..];
    assert q == ["r", "e", "s", "b", "a"];
    KeepStep(q, false);
    assert q[1..] == ps[2..];
  }

  lemma KresbaStep3(ps: seq<Phoneme>)
    requires ps == ["k", "r", "e", "s", "b", "a"]
    ensures ApplyAssimilations(ps[2..], false) == ["e"] + ApplyAssimilations(ps[3..], false)
  {
    var q := ps[2..];
    assert q == ["e", "s", "b", "a"];
    KeepStep(q, false);
    assert q[1..] == ps[3..];
  }

  lemma KresbaStep4(ps: seq<Phoneme>)
    requires ps == ["k", "r", "e", "s", "b", "a"]
    ensures ApplyAssimilations(ps[3..], false) == ["z", "b"] + ApplyAssimilations(ps[5..], false)
  {
    var q := ps[3..];
    assert q == ["s", "b", "a"];
    VoiceStep(q, 5);
    assert q[2..] == ps[5..];
  }

  lemma KresbaStep5(ps: seq<Phoneme>)
    requires ps == ["k", "r", "e", "s", "b", "a"]
    ensures ApplyAssimilations(ps[5..], false) == ["a"]
  {
    var q := ps[5..];
    assert q == ["a"];
    LastStep(q, false);
  }

  /** The five steps on "kresba" put together, with each suffix's result named. */
  lemma KresbaJoin(r0: seq<Phoneme>, r1: seq<Phoneme>, r2: seq<Phoneme>, r3: seq<Phoneme>, r5: seq<Phoneme>)
    requires r0 == ["k"] + r1 && r1 == ["r"] + r2 && r2 == ["e"] + r3
    requires r3 == ["z", "b"] + r5 && r5 == ["a"]
    ensures r0 == ["k", "r", "e", "z", "b", "a"]
  {
  }

  /** Inside a word the s before b is voiced. */
  lemma AssimilateKresba(ps: seq<Phoneme>)
    requires ps == ["k", "r", "e", "s", "b", "a"]
    ensures ApplyAssimilations(ps, true) == ["k", "r", "e", "z", "b", "a"]
  {
    KresbaStep1(ps);
    KresbaStep2(ps);
    KresbaStep3(ps);
    KresbaStep4(ps);
    KresbaStep5(ps);
    KresbaJoin(ApplyAssimilations(ps, true), ApplyAssimilations(ps[1..], false),
               ApplyAssimilations(ps[2..], false), ApplyAssimilations(ps[3..], false),
               ApplyAssimilations(ps[5..], false));
  }

  /** Rule 5 fires inside a word: the s of "kresba" voices to z before b. */
  lemma TranscribeKresba(raw: string)
    requires StripWhitespace(raw) == "kresba"
    ensures ToWord(raw).phonemes == ["k", "r", "e", "z", "b", "a"]
  {
    var ts := ToPhonemes(StripWhitespace(raw));
    SegmentKresba();
    AssimilateKresba(ts);
    var ps := ApplyAssimilations(ts, true);
    NoYIn(ps);
    ToWordVia(raw, ts, ps);
  }

  lemma SegmentSbor()
    ensures ToPhonemes("sbor") == ["s", "b", "o", "r"]
  {
    assert Take("sbor", 2) == "sb" && "sb" !in Diphthongs;
    assert "sbor"[..1] == "s" && "sbor"[1..] == "bor";
    assert Take("bor", 2) == "bo" && "bo" !in Diphthongs;
    assert "bor"[..1] == "b" && "bor"[1..] == "or";
    assert Take("or", 2) == "or" && "or" !in Diphthongs;
    assert "or"[..1] == "o" && "or"[1..] == "r";
    assert Take("r", 2) == "r" && "r" !in Diphthongs;
    assert "r"[..1] == "r" && "r"[1..] == "";
  }

  // The steps on "sbor", like those on "kresba", each take the whole word.

  lemma SborStep1(ps: seq<Phoneme>)
    requires ps == ["s", "b", "o", "r"]
    ensures ApplyAssimilations(ps, true) == ["s"] + ApplyAssimilations(ps[1..], false)
  {
    VoiceAtStart(ps);
  }

  lemma SborStep2(ps: seq<Phoneme>)
    requires ps == ["s", "b", "o", "r"]
    ensures ApplyAssimilations(ps[1..], false) == ["b"] + ApplyAssimilations(ps[2..], false)
  {
    var q := ps[1..];
    assert q == ["b", "o", "r"];
    KeepStep(q, false);
    assert q[1..] == ps[2..];
  }

  lemma SborStep3(ps: seq<Phoneme>)
    requires ps == ["s", "b", "o", "r"]
    ensures ApplyAssimilations(ps[2..], false) == ["o"] + ApplyAssimilations(ps[3..], false)
  {
    var q := ps[2..];
    assert q == ["o", "r"];
    KeepStep(q, false);
    assert q[1..] == ps[3..];
  }

  lemma SborStep4(ps: seq<Phoneme>)
    requires ps == ["s", "b", "o", "r"]
    ensures ApplyAssimilations(ps[3..], false) == ["r"]
  {
    var q := ps[3..];
    assert q == ["r"];
    LastStep(q, false);
  }

  /** The four steps on "sbor" put together. */
  lemma SborJoin(r0: seq<Phoneme>, r1: seq<Phoneme>, r2: seq<Phoneme>, r3: seq<Phoneme>)
    requires r0 == ["s"] + r1 && r1 == ["b"] + r2 && r2 == ["o"] + r3 && r3 == ["r"]
    ensures r0 == ["s", "b", "o", "r"]
  {
  }

  /** At the start of a word the s before b is kept. */
  lemma AssimilateSbor(ps: seq<Phoneme>)
    requires ps == ["s", "b", "o", "r"]
    ensures ApplyAssimilations(ps, true) == ["s", "b", "o", "r"]
  {
    SborStep1(ps);
    SborStep2(ps);
    SborStep3(ps);
    SborStep4(ps);
    SborJoin(ApplyAssimilations(ps, true), ApplyAssimilations(ps[1..], false),
             ApplyAssimilations(ps[2..], false), ApplyAssimilations(ps[3..], false));
  }

  /** Rule 5 is off on the first call: the s of "sbor" stays unvoiced. */
  lemma TranscribeSbor(raw: string)
    requires StripWhitespace(raw) == "sbor"
    ensures ToWord(raw).phonemes == ["s", "b", "o", "r"]
  {
    var ts := ToPhonemes(StripWhitespace(raw));
    SegmentSbor();
    AssimilateSbor(ts);
    var ps := ApplyAssimilations(ts, true);
    NoYIn(ps);
    ToWordVia(raw, ts, ps);
  }

  // "my": the y is kept by the cascade and normalised to i afterwards.

  lemma SegmentMy()
    ensures ToPhonemes("my") == ["m", "y"]
  {
    assert Take("my", 2) == "my" && "my" !in Diphthongs;
    assert "my"[..1] == "m" && "my"[1..] == "y";
    assert Take("y", 2) == "y" && "y" !in Diphthongs;
    assert "y"[..1] == "y" && "y"[1..] == "";
  }

  lemma MyStep1(ps: seq<Phoneme>)
    requires ps == ["m", "y"]
    ensures ApplyAssimilations(ps, true) == ["m"] + ApplyAssimilations(ps[1..], false)
  {
    KeepStep(ps, true);
  }

  lemma MyStep2(ps: seq<Phoneme>)
    requires ps == ["m", "y"]
    ensures ApplyAssimilations(ps[1..], false) == ["y"]
  {
    var q := ps[1..];
    assert q == ["y"];
    LastStep(q, false);
  }

  /** The two steps on "my" put together. */
  lemma MyJoin(r0: seq<Phoneme>, r1: seq<Phoneme>)
    requires r0 == ["m"] + r1 && r1 == ["y"]
    ensures r0 == ["m", "y"]
  {
  }

  /** Neither m nor y is touched by any assimilation rule. */
  lemma AssimilateMy(ps: seq<Phoneme>)
    requires ps == ["m", "y"]
    ensures ApplyAssimilations(ps, true) == ["m", "y"]
  {
    MyStep1(ps);
    MyStep2(ps);
    MyJoin(ApplyAssimilations(ps, true), ApplyAssimilations(ps[1..], false));
  }

  /** The final normalisation turns the y of "my" into i. */
  lemma TranscribeMy(raw: string)
    requires StripWhitespace(raw) == "my"
    ensures ToWord(raw).phonemes == ["m", "i"]
  {
    var ts := ToPhonemes(StripWhitespace(raw));
    SegmentMy();
    AssimilateMy(ts);
    var ps := ApplyAssimilations(ts, true);
    var r := MapYToI(ps);
    assert r[0] == YToI("m") == "m";
    assert r[1] == YToI("y") == "i";
    assert r == ["m", "i"];
  }
}
