/** The twelve chromatic pitch classes of music_notes_lib (src/lib.rs):
    the `Note` enum, its parser `from_str` and its successor `half_step_up`,
    with the two methods whose bodies the source leaves empty
    (`n_half_steps_up`, `half_step_down`) given the meaning their names
    announce. */
module MusicNotes {

  /** The pitch classes, in the order the enum declares them. */
  datatype Note = A | As | B | C | Cs | D | Ds | E | F | Fs | G | Gs

  /** The single way `from_str` can fail; the message text carries no behaviour. */
  datatype ParseError = UnparsableName

  datatype Result<T> = Ok(value: T) | Err(error: ParseError)

  /** The source's `u32`, the type of the count given to `n_half_steps_up`. */
  newtype U32 = x: int | 0 <= x < 0x1_0000_0000

  /** The notes in declaration order. */
  const AllNotes: seq<Note> := [A, As, B, C, Cs, D, Ds, E, F, Fs, G, Gs]

  /** Position of a note in declaration order. */
  function Index(n: Note): (i: nat)
    ensures i < |AllNotes| && AllNotes[i] == n
  {
    match n
    case A => 0
    case As => 1
    case B => 2
    case C => 3
    case Cs => 4
    case D => 5
    case Ds => 6
    case E => 7
    case F => 8
    case Fs => 9
    case G => 10
    case Gs => 11
  }

  /** Distinct notes sit at distinct positions. */
  lemma IndexInjective(m: Note, n: Note)
    ensures Index(m) == Index(n) <==> m == n
  {
  }

  /** The note at a position in declaration order. */
  function FromIndex(i: nat): (n: Note)
    requires i < 12
    ensures Index(n) == i
  {
    AllNotes[i]
  }

  /** The name each note is accepted under by `FromStr`: the parser's
      table read from right to left. It is a specification device, not a
      rendering operation of the library. */
  function Spelling(n: Note): string
  {
    match n
    case A => "A"
    case As => "A#"
    case B => "B"
    case C => "C"
    case Cs => "C#"
    case D => "D"
    case Ds => "D#"
    case E => "E"
    case F => "F"
    case Fs => "F#"
    case G => "G"
    case Gs => "G#"
  }

  /** `Note::from_str`: exact, case-sensitive, sharp-only names. A name is
      accepted exactly when it is the spelling of some note, and then it
      yields that note; every other string is an error. */
  function FromStr(name: string): (r: Result<Note>)
    ensures r.Ok? ==> Spelling(r.value) == name
    ensures r.Err? <==> forall n: Note :: Spelling(n) != name
  {
    match name
    case "A" => Ok(A)
    case "A#" => Ok(As)
    case "B" => Ok(B)
    case "C" => Ok(C)
    case "C#" => Ok(Cs)
    case "D" => Ok(D)
    case "D#" => Ok(Ds)
    case "E" => Ok(E)
    case "F" => Ok(F)
    case "F#" => Ok(Fs)
    case "G" => Ok(G)
    case "G#" => Ok(Gs)
    case _ => Err(UnparsableName)
  }

  /** Every note is produced by parsing its spelling. */
  lemma FromStrSpelling(n: Note)
    ensures FromStr(Spelling(n)) == Ok(n)
  {
  }

  /** Parsing is one-to-one: two accepted names that yield the same note are
      the same name. */
  lemma FromStrOneToOne(s: string, t: string)
    requires FromStr(s).Ok? && FromStr(t).Ok?
    ensures FromStr(s) == FromStr(t) <==> s == t
  {
  }

  /** The spelling table has no aliasing: distinct notes have distinct names. */
  lemma SpellingInjective(m: Note, n: Note)
    ensures Spelling(m) == Spelling(n) <==> m == n
  {
    if Spelling(m) == Spelling(n) {
      FromStrSpelling(m);
      FromStrSpelling(n);
    }
  }

  /** Lower case, flat spellings, padding and the empty string are refused. */
  lemma FromStrRejects()
    ensures FromStr("").Err?
    ensures FromStr("a").Err? && FromStr("c#").Err?
    ensures FromStr("Db").Err? && FromStr("Bb").Err?
    ensures FromStr("H").Err? && FromStr(" A").Err? && FromStr("A ").Err?
    ensures FromStr("A##").Err?
  {
  }

  /** The unit test `test_from_str`. */
  lemma TestFromStr()
    ensures FromStr("A") == Ok(A) && FromStr("A#") == Ok(As)
    ensures FromStr("B") == Ok(B) && FromStr("C") == Ok(C)
    ensures FromStr("C#") == Ok(Cs) && FromStr("D") == Ok(D)
    ensures FromStr("D#") == Ok(Ds) && FromStr("E") == Ok(E)
    ensures FromStr("F") == Ok(F) && FromStr("F#") == Ok(Fs)
    ensures FromStr("G") == Ok(G) && FromStr("G#") == Ok(Gs)
  {
  }

  /** `Note::half_step_up`: the next note in declaration order, G# wrapping
      round to A. */
  function HalfStepUp(n: Note): (r: Note)
    ensures Index(r) == (Index(n) + 1) % 12
  {
    match n
    case A => As
    case As => B
    case B => C
    case C => Cs
    case Cs => D
    case D => Ds
    case Ds => E
    case E => F
    case F => Fs
    case Fs => G
    case G => Gs
    case Gs => A
  }

  /** The unit test `test_half_step_up`. */
  lemma TestHalfStepUp()
    ensures HalfStepUp(A) == As && HalfStepUp(As) == B && HalfStepUp(B) == C
    ensures HalfStepUp(C) == Cs && HalfStepUp(Cs) == D && HalfStepUp(D) == Ds
    ensures HalfStepUp(Ds) == E && HalfStepUp(E) == F && HalfStepUp(F) == Fs
    ensures HalfStepUp(Fs) == G && HalfStepUp(G) == Gs && HalfStepUp(Gs) == A
  {
  }

  /** No note is its own successor. */
  lemma HalfStepUpNoFixedPoint(n: Note)
    ensures HalfStepUp(n) != n
  {
  }

  /** No two notes step up to the same note. */
  lemma HalfStepUpInjective(m: Note, n: Note)
    ensures HalfStepUp(m) == HalfStepUp(n) <==> m == n
  {
    if HalfStepUp(m) == HalfStepUp(n) {
      IndexInjective(m, n);
    }
  }

  /** Every note is the successor of some note. */
  lemma HalfStepUpSurjective(m: Note)
    ensures exists n: Note :: HalfStepUp(n) == m
  {
    var n := FromIndex((Index(m) + 11) % 12);
    IndexInjective(HalfStepUp(n), m);
  }

  /** Reducing a summand modulo twelve leaves the sum's remainder alone. */
  lemma AddMod(i: nat, k: nat)
    ensures (i + k) % 12 == (i + k % 12) % 12
  {
    var q := k / 12;
    assert k == 12 * q + k % 12;
  }

  /** `half_step_up` applied `k` times. */
  function StepsUp(n: Note, k: nat): (r: Note)
    ensures Index(r) == (Index(n) + k) % 12
  {
    if k == 0 then n else HalfStepUp(StepsUp(n, k - 1))
  }

  /** Only the remainder of the count modulo twelve matters. */
  lemma StepsUpModular(n: Note, k: nat)
    ensures StepsUp(n, k + 12) == StepsUp(n, k)
    ensures StepsUp(n, k) == StepsUp(n, k % 12)
  {
    AddMod(Index(n), k);
    AddMod(Index(n), k + 12);
    IndexInjective(StepsUp(n, k + 12), StepsUp(n, k));
    IndexInjective(StepsUp(n, k), StepsUp(n, k % 12));
  }

  /** Twelve steps return to the starting note, and one to eleven steps never do. */
  lemma SingleCycleOfTwelve(n: Note, k: nat)
    ensures StepsUp(n, 12) == n
    ensures 1 <= k < 12 ==> StepsUp(n, k) != n
  {
    var i := Index(n);
    assert (i + 12) % 12 == i;
    IndexInjective(StepsUp(n, 12), n);
    if 1 <= k < 12 {
      assert (i + k) % 12 != i by {
        if i + k >= 12 {
          assert (i + k) % 12 == i + k - 12;
        }
      }
      IndexInjective(StepsUp(n, k), n);
    }
  }

  /** A single cycle: from any note, every note is reached in fewer than
      twelve steps. */
  lemma StepsUpReachesAll(n: Note, m: Note)
    ensures exists k: nat :: k < 12 && StepsUp(n, k) == m
  {
    var k: nat := if Index(n) <= Index(m) then Index(m) - Index(n) else Index(m) + 12 - Index(n);
    assert (Index(n) + k) % 12 == Index(m);
    IndexInjective(StepsUp(n, k), m);
  }

  /** Steps compose by adding their counts. */
  lemma {:induction false} StepsUpAdd(n: Note, j: nat, k: nat)
    ensures StepsUp(StepsUp(n, j), k) == StepsUp(n, j + k)
  {
    if k > 0 {
      StepsUpAdd(n, j, k - 1);
    }
  }

  /** `n_half_steps_up`: the source declares it with an empty body. By its
      name it applies `half_step_up` n times; this definition reduces the
      count modulo twelve and agrees with repeated stepping. */
  function NHalfStepsUp(n: Note, k: U32): (r: Note)
    ensures r == StepsUp(n, k as nat)
  {
    StepsUpModular(n, k as nat);
    FromIndex((Index(n) + (k as nat) % 12) % 12)
  }

  /** Zero steps is the identity and twelve more steps change nothing. */
  lemma NHalfStepsUpProperties(n: Note, k: U32)
    ensures NHalfStepsUp(n, 0) == n
    ensures k < 0xFFFF_FFF4 ==> NHalfStepsUp(n, k + 12) == NHalfStepsUp(n, k)
  {
    StepsUpModular(n, k as nat);
  }

  /** `half_step_down`: the source declares it with an empty body. By its
      name it is the inverse of `half_step_up`; this definition takes eleven
      steps up, one step down modulo twelve. */
  function HalfStepDown(n: Note): (r: Note)
    ensures HalfStepUp(r) == n
    ensures Index(r) == (Index(n) + 11) % 12
  {
    var r := StepsUp(n, 11);
    IndexInjective(HalfStepUp(r), n);
    r
  }

  /** Down undoes up and up undoes down. */
  lemma HalfStepDownInverse(n: Note)
    ensures HalfStepDown(HalfStepUp(n)) == n
    ensures HalfStepUp(HalfStepDown(n)) == n
  {
    HalfStepUpInjective(HalfStepDown(HalfStepUp(n)), n);
  }

  /** Worked transpositions. */
  lemma Scenarios()
    ensures FromStr("A").Ok? && HalfStepUp(FromStr("A").value) == As
    ensures NHalfStepsUp(C, 5) == F
    ensures NHalfStepsUp(C, 12) == C
    ensures HalfStepDown(A) == Gs
    ensures HalfStepUp(Gs) == A
  {
  }
}
