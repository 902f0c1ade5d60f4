/**
 * The read simulator (`simulate_reads` in simulate.py) with its random
 * draws passed in. For every read the caller supplies the start position
 * `randint(0, g - 1)` returned and, for every base, whether
 * `random() > error_rate` kept it or which element of the replacement list
 * `choice` picked. Python's KeyError (a mutated base that is not one of the
 * four nucleotides) and ZeroDivisionError (a zero read length) are results.
 */
module Simulate {
  import opened Wrappers
  import opened Python

  /** `NUCLEOTIDES`. */
  const Nucleotides: seq<char> := ['A', 'T', 'G', 'C']

  /** The elements of s other than x, in order. */
  function Without(s: seq<char>, x: char): seq<char>
  {
    if s == [] then [] else (if s[0] == x then [] else [s[0]]) + Without(s[1..], x)
  }

  /** `replacement = {x: [y for y in NUCLEOTIDES if y != x] for x in NUCLEOTIDES}`. */
  const Replacement: map<char, seq<char>> := map x | x in Nucleotides :: Without(Nucleotides, x)

  /** One draw per base: kept, or replaced by element `choice` of the replacement list. */
  datatype BaseDraw = Keep | Substitute(choice: nat)

  /** The draws for one read: the start position and one draw per base. */
  datatype ReadDraw = ReadDraw(start: int, bases: seq<BaseDraw>)

  datatype SimError = ZeroDivisionError | KeyError(base: char)

  /** `sequence[start:start+read_length]`. */
  function Clean(sequence: string, start: int, readLength: int): (r: string)
    ensures 0 <= start < |sequence| && readLength >= 1 ==>
      && 1 <= |r| <= readLength
      && r == sequence[start..if start + readLength <= |sequence| then start + readLength else |sequence|]
    ensures IsInfix(r, sequence)
  {
    Slice(sequence, start, start + readLength)
  }

  /** `coverage * g // read_length` reads are drawn (none when it is negative). */
  function ReadCount(g: nat, coverage: int, readLength: int): nat
    requires readLength != 0
  {
    RangeLength(FloorDiv(coverage * g, readLength))
  }

  /** `choice` returns one of the three elements of a replacement list. */
  predicate ChoicesValid(bases: seq<BaseDraw>)
  {
    forall j :: 0 <= j < |bases| && bases[j].Substitute? ==> bases[j].choice < 3
  }

  /** What `randint`, `random` and `choice` can return for one read. */
  predicate DrawFits(sequence: string, readLength: int, d: ReadDraw)
  {
    && 0 <= d.start <= |sequence| - 1
    && |d.bases| >= |Clean(sequence, d.start, readLength)|
    && ChoicesValid(d.bases)
  }

  predicate AllFit(sequence: string, readLength: int, draws: seq<ReadDraw>)
  {
    forall i :: 0 <= i < |draws| ==> DrawFits(sequence, readLength, draws[i])
  }

  /** Filtering each nucleotide out of `NUCLEOTIDES` leaves the other three in order. */
  lemma {:induction false} WithoutEach()
    ensures Without(Nucleotides, 'A') == ['T', 'G', 'C']
    ensures Without(Nucleotides, 'T') == ['A', 'G', 'C']
    ensures Without(Nucleotides, 'G') == ['A', 'T', 'C']
    ensures Without(Nucleotides, 'C') == ['A', 'T', 'G']
  {
    var n := Nucleotides;
    assert n[1..][1..][1..][1..] == [];
  }

  /** The replacement table maps each nucleotide to the other three, in `NUCLEOTIDES` order. */
  lemma {:induction false} ReplacementTable()
    ensures Replacement.Keys == {'A', 'T', 'G', 'C'}
    ensures Replacement['A'] == ['T', 'G', 'C'] && Replacement['T'] == ['A', 'G', 'C']
    ensures Replacement['G'] == ['A', 'T', 'C'] && Replacement['C'] == ['A', 'T', 'G']
  {
    WithoutEach();
  }

  /** Replacing a nucleotide offers exactly the three others, never the base itself. */
  lemma {:induction false} ReplacementOthers(x: char)
    ensures x in Replacement <==> x in Nucleotides
    ensures x in Replacement ==>
      && |Replacement[x]| == 3
      && x !in Replacement[x]
      && forall y :: y in Replacement[x] <==> y in Nucleotides && y != x
  {
    if x in Nucleotides {
      WithoutMembers(Nucleotides, x);
      ReplacementSize(x);
    }
  }

  lemma {:induction false} ReplacementSize(x: char)
    requires x in Nucleotides
    ensures |Replacement[x]| == 3
  {
    WithoutEach();
  }

  /** Filtering x out keeps exactly the other elements. */
  lemma {:induction false} WithoutMembers(s: seq<char>, x: char)
    ensures forall y :: y in Without(s, x) <==> y in s && y != x
  {
    if s != [] {
      WithoutMembers(s[1..], x);
      assert s == [s[0]] + s[1..];
    }
  }

  /** `read[j] if random() > error_rate else choice(replacement[read[j]])`. */
  function NoisyBase(b: char, d: BaseDraw): Result<char, SimError>
    requires d.Substitute? ==> d.choice < 3
  {
    match d
    case Keep => Ok(b)
    case Substitute(c) =>
      if b in Replacement then
        ReplacementOthers(b);
        Ok(Replacement[b][c])
      else
        Err(KeyError(b))
  }

  /** The inner loop after j bases: the noisy prefix, or the first KeyError. */
  function MutatePrefix(read: string, bases: seq<BaseDraw>, j: nat): Result<string, SimError>
    requires j <= |read| <= |bases| && ChoicesValid(bases)
  {
    if j == 0 then Ok([])
    else
      match MutatePrefix(read, bases, j - 1)
      case Err(e) => Err(e)
      case Ok(p) =>
        match NoisyBase(read[j - 1], bases[j - 1])
        case Err(e) => Err(e)
        case Ok(c) => Ok(p + [c])
  }

  function Mutate(read: string, bases: seq<BaseDraw>): Result<string, SimError>
    requires |read| <= |bases| && ChoicesValid(bases)
  {
    MutatePrefix(read, bases, |read|)
  }

  /** The outer loop over the draws: the reads, or the first KeyError. */
  function Simulated(sequence: string, readLength: int, draws: seq<ReadDraw>): Result<seq<string>, SimError>
    requires AllFit(sequence, readLength, draws)
  {
    if draws == [] then Ok([])
    else
      var d := draws[|draws| - 1];
      assert DrawFits(sequence, readLength, d);
      match Simulated(sequence, readLength, draws[..|draws| - 1])
      case Err(e) => Err(e)
      case Ok(prev) =>
        match Mutate(Clean(sequence, d.start, readLength), d.bases)
        case Err(e) => Err(e)
        case Ok(noisy) => Ok(prev + [noisy])
  }

  /** `simulate_reads(sequence, coverage, read_length, error_rate)` with the draws as input. */
  method SimulateReads(sequence: string, coverage: int, readLength: int, draws: seq<ReadDraw>)
    returns (result: Result<seq<string>, SimError>)
    requires readLength != 0 ==>
      |draws| == ReadCount(|sequence|, coverage, readLength) && AllFit(sequence, readLength, draws)
    ensures readLength == 0 ==> result == Err(ZeroDivisionError)
    ensures readLength != 0 ==> result == Simulated(sequence, readLength, draws)
    ensures readLength != 0 && result.Ok? ==> |result.value| == ReadCount(|sequence|, coverage, readLength)
    ensures readLength != 0 && |sequence| == 0 ==> result == Ok([])
  {
    if readLength == 0 {
      return Err(ZeroDivisionError);
    }
    var readsSoFar: seq<string> := [];
    var g := |sequence|;
    var n := ReadCount(g, coverage, readLength);
    for i := 0 to n
      invariant Simulated(sequence, readLength, draws[..i]) == Ok(readsSoFar)
    {
      assert DrawFits(sequence, readLength, draws[i]);
      var start := draws[i].start;
      var read := Clean(sequence, start, readLength);
      var noisy := NoisyRead(read, draws[i].bases);
      SimulatedStep(sequence, readLength, draws, i);
      if noisy.Err? {
        SimErrorPersists(sequence, readLength, draws, i + 1, noisy.error);
        return Err(noisy.error);
      }
      readsSoFar := readsSoFar + [noisy.value];
    }
    assert draws[..|draws|] == draws;
    result := Ok(readsSoFar);
    SimulatedShape(sequence, readLength, draws);
    if g == 0 {
      NoReadsFromEmpty(coverage, readLength);
    }
  }

  /** The inner loop of `simulate_reads`: mutate one clean read base by base. */
  method NoisyRead(read: string, bases: seq<BaseDraw>) returns (result: Result<string, SimError>)
    requires |read| <= |bases| && ChoicesValid(bases)
    ensures result == Mutate(read, bases)
  {
    var noisyRead: string := [];
    for j := 0 to |read|
      invariant MutatePrefix(read, bases, j) == Ok(noisyRead)
    {
      match bases[j]
      case Keep =>
        noisyRead := noisyRead + [read[j]];
      case Substitute(c) =>
        if read[j] !in Replacement {
          assert MutatePrefix(read, bases, j + 1) == Err(KeyError(read[j]));
          ErrorPersists(read, bases, j + 1, KeyError(read[j]));
          return Err(KeyError(read[j]));
        }
        ReplacementOthers(read[j]);
        noisyRead := noisyRead + [Replacement[read[j]][c]];
    }
    return Ok(noisyRead);
  }

  // ---------------------------------------------------------------------
  // Lemmas
  // ---------------------------------------------------------------------

  /** Once a base raised KeyError, the whole read does. */
  lemma {:induction false} ErrorPersists(read: string, bases: seq<BaseDraw>, j: nat, e: SimError)
    requires j <= |read| <= |bases| && ChoicesValid(bases)
    requires MutatePrefix(read, bases, j) == Err(e)
    ensures Mutate(read, bases) == Err(e)
    decreases |read| - j
  {
    if j < |read| {
      ErrorPersists(read, bases, j + 1, e);
    }
  }

  /** One more draw extends the reads by its noisy read, or fails with its KeyError. */
  lemma {:induction false} SimulatedStep(sequence: string, readLength: int, draws: seq<ReadDraw>, i: nat)
    requires AllFit(sequence, readLength, draws) && i < |draws|
    ensures DrawFits(sequence, readLength, draws[i])
    ensures var d := draws[i];
      var m := Mutate(Clean(sequence, d.start, readLength), d.bases);
      Simulated(sequence, readLength, draws[..i + 1]) ==
        match Simulated(sequence, readLength, draws[..i])
        case Err(e) => Err(e)
        case Ok(prev) => if m.Err? then Err(m.error) else Ok(prev + [m.value])
  {
    assert DrawFits(sequence, readLength, draws[i]);
    assert draws[..i + 1][..i] == draws[..i];
    assert draws[..i + 1][i] == draws[i];
  }

  /** Once a read raised KeyError, so does the whole simulation. */
  lemma {:induction false} SimErrorPersists(sequence: string, readLength: int, draws: seq<ReadDraw>, i: nat, e: SimError)
    requires AllFit(sequence, readLength, draws) && i <= |draws|
    requires Simulated(sequence, readLength, draws[..i]) == Err(e)
    ensures Simulated(sequence, readLength, draws) == Err(e)
    decreases |draws| - i
  {
    if i == |draws| {
      assert draws[..i] == draws;
    } else {
      assert draws[..i + 1][..i] == draws[..i];
      SimErrorPersists(sequence, readLength, draws, i + 1, e);
    }
  }

  /** An empty reference sequence gives no reads, whatever the coverage and read length. */
  lemma {:induction false} NoReadsFromEmpty(coverage: int, readLength: int)
    requires readLength != 0
    ensures ReadCount(0, coverage, readLength) == 0
  {
    assert coverage * 0 == 0;
    if readLength > 0 {
      assert 0 / readLength == 0;
    } else {
      assert 0 / -readLength == 0;
    }
  }

  /** A successful simulation yields one read per draw, each the mutation of its clean read. */
  lemma {:induction false} SimulatedShape(sequence: string, readLength: int, draws: seq<ReadDraw>)
    requires AllFit(sequence, readLength, draws)
    ensures var r := Simulated(sequence, readLength, draws);
      r.Ok? ==>
        && |r.value| == |draws|
        && forall i :: 0 <= i < |draws| ==>
             Mutate(Clean(sequence, draws[i].start, readLength), draws[i].bases) == Ok(r.value[i])
  {
    if draws != [] {
      var init := draws[..|draws| - 1];
      assert AllFit(sequence, readLength, init);
      SimulatedShape(sequence, readLength, init);
    }
  }

  /** A kept base is unchanged; a substituted one becomes a different nucleotide; only a
    * substituted base outside A, T, G, C raises KeyError. */
  lemma {:induction false} NoisyBaseMeaning(b: char, d: BaseDraw)
    requires d.Substitute? ==> d.choice < 3
    ensures NoisyBase(b, d).Err? <==> d.Substitute? && b !in Nucleotides
    ensures NoisyBase(b, d).Err? ==> NoisyBase(b, d).error == KeyError(b)
    ensures NoisyBase(b, d).Ok? && d.Keep? ==> NoisyBase(b, d).value == b
    ensures NoisyBase(b, d).Ok? && d.Substitute? ==>
      var c := NoisyBase(b, d).value; c in Nucleotides && b in Nucleotides && c != b
  {
    ReplacementOthers(b);
    if d.Substitute? && b in Replacement {
      assert Replacement[b][d.choice] in Replacement[b];
    }
  }

  /** A noisy read has its clean read's length, and each base is the noisy version of
    * the clean base at the same position. */
  lemma {:induction false} MutatePrefixOk(read: string, bases: seq<BaseDraw>, j: nat)
    requires j <= |read| <= |bases| && ChoicesValid(bases)
    ensures var r := MutatePrefix(read, bases, j);
      r.Ok? ==>
        && |r.value| == j
        && forall k :: 0 <= k < j ==> NoisyBase(read[k], bases[k]) == Ok(r.value[k])
  {
    if j > 0 {
      MutatePrefixOk(read, bases, j - 1);
    }
  }

  /** The inner loop fails exactly when some base fails, and then with the first failure. */
  lemma {:induction false} MutatePrefixErr(read: string, bases: seq<BaseDraw>, j: nat)
    requires j <= |read| <= |bases| && ChoicesValid(bases)
    ensures MutatePrefix(read, bases, j).Err? <==>
      exists k :: 0 <= k < j && NoisyBase(read[k], bases[k]).Err?
    ensures MutatePrefix(read, bases, j).Err? ==>
      exists k :: 0 <= k < j && NoisyBase(read[k], bases[k]) == Err(MutatePrefix(read, bases, j).error) &&
        forall k' :: 0 <= k' < k ==> NoisyBase(read[k'], bases[k']).Ok?
  {
    if j > 0 {
      MutatePrefixErr(read, bases, j - 1);
      var r := MutatePrefix(read, bases, j - 1);
      if r.Ok? {
        MutatePrefixOk(read, bases, j - 1);
        assert forall k :: 0 <= k < j - 1 ==> NoisyBase(read[k], bases[k]).Ok?;
      }
    }
  }

  /** Mutating a read succeeds exactly when every substituted base is a nucleotide; a
    * success keeps the length and changes exactly the substituted bases, each into another
    * nucleotide; a failure is the KeyError of the first substituted base that is not one. */
  lemma {:induction false} MutateMeaning(read: string, bases: seq<BaseDraw>)
    requires |read| <= |bases| && ChoicesValid(bases)
    ensures Mutate(read, bases).Err? <==>
      exists j :: 0 <= j < |read| && bases[j].Substitute? && read[j] !in Nucleotides
    ensures Mutate(read, bases).Err? ==>
      exists j :: 0 <= j < |read| && bases[j].Substitute? && read[j] !in Nucleotides &&
        Mutate(read, bases) == Err(KeyError(read[j]))
    ensures var r := Mutate(read, bases);
      r.Ok? ==>
        && |r.value| == |read|
        && forall j :: 0 <= j < |read| ==>
             (r.value[j] == read[j] <==> bases[j].Keep?) &&
             (bases[j].Substitute? ==> r.value[j] in Nucleotides && read[j] in Nucleotides)
  {
    MutatePrefixOk(read, bases, |read|);
    MutatePrefixErr(read, bases, |read|);
    forall j | 0 <= j < |read|
      ensures NoisyBase(read[j], bases[j]).Err? <==> bases[j].Substitute? && read[j] !in Nucleotides
      ensures NoisyBase(read[j], bases[j]).Err? ==> NoisyBase(read[j], bases[j]).error == KeyError(read[j])
      ensures NoisyBase(read[j], bases[j]).Ok? ==>
        (NoisyBase(read[j], bases[j]).value == read[j] <==> bases[j].Keep?) &&
        (bases[j].Substitute? ==> NoisyBase(read[j], bases[j]).value in Nucleotides && read[j] in Nucleotides)
    {
      assert bases[j].Substitute? ==> bases[j].choice < 3;
      NoisyBaseMeaning(read[j], bases[j]);
    }
  }

  /** The simulation fails exactly when some read has a substituted base that is not a
    * nucleotide. */
  lemma {:induction false} SimulationFails(sequence: string, readLength: int, draws: seq<ReadDraw>)
    requires AllFit(sequence, readLength, draws)
    ensures Simulated(sequence, readLength, draws).Err? <==>
      exists i :: 0 <= i < |draws| && Mutate(Clean(sequence, draws[i].start, readLength), draws[i].bases).Err?
  {
    if draws != [] {
      var init := draws[..|draws| - 1];
      assert AllFit(sequence, readLength, init);
      SimulationFails(sequence, readLength, init);
      var d := draws[|draws| - 1];
      assert DrawFits(sequence, readLength, d);
      if Simulated(sequence, readLength, init).Ok? {
        SimulatedShape(sequence, readLength, init);
      }
    }
  }

  /** A noisy read drawn at `start` is a non-empty stretch of at most `read_length` bases
    * of the sequence from there, in which exactly the substituted bases differ, each
    * replaced by another nucleotide. */
  predicate FollowsSequence(sequence: string, readLength: int, d: ReadDraw, noisy: string)
  {
    && 1 <= |noisy| <= readLength
    && 0 <= d.start && d.start + |noisy| <= |sequence| && |noisy| <= |d.bases|
    && forall j :: 0 <= j < |noisy| ==>
         (noisy[j] == sequence[d.start + j] <==> d.bases[j].Keep?) &&
         (d.bases[j].Substitute? ==> noisy[j] in Nucleotides)
  }

  /** Each noisy read of a start inside the sequence and a positive read length follows the
    * sequence. */
  lemma {:induction false} ReadFollowsSequence(sequence: string, readLength: int, d: ReadDraw, noisy: string)
    requires DrawFits(sequence, readLength, d) && readLength >= 1
    requires Mutate(Clean(sequence, d.start, readLength), d.bases) == Ok(noisy)
    ensures FollowsSequence(sequence, readLength, d, noisy)
  {
    var clean := Clean(sequence, d.start, readLength);
    MutateMeaning(clean, d.bases);
    assert forall j :: 0 <= j < |clean| ==> clean[j] == sequence[d.start + j];
  }

  /** With a positive read length every simulated read follows the sequence. */
  lemma {:induction false} ReadsFollowSequence(sequence: string, readLength: int, draws: seq<ReadDraw>)
    requires AllFit(sequence, readLength, draws) && readLength >= 1
    ensures var r := Simulated(sequence, readLength, draws);
      r.Ok? ==>
        && |r.value| == |draws|
        && forall i :: 0 <= i < |draws| ==> FollowsSequence(sequence, readLength, draws[i], r.value[i])
  {
    SimulatedShape(sequence, readLength, draws);
    var r := Simulated(sequence, readLength, draws);
    if r.Ok? {
      forall i | 0 <= i < |draws|
        ensures FollowsSequence(sequence, readLength, draws[i], r.value[i])
      {
        assert DrawFits(sequence, readLength, draws[i]);
        ReadFollowsSequence(sequence, readLength, draws[i], r.value[i]);
      }
    }
  }
}
