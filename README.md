# music_notes_lib in Dafny

A model of `music_notes_lib`, a Rust library whose only type is `Note`, the
twelve chromatic pitch classes A, A#, B, C, C#, D, D#, E, F, F#, G, G#
(variants `A`, `As`, …, `Gs`). It has two working operations:

- `Note::from_str` parses one of twelve exact, case-sensitive, sharp-only
  names and fails on every other string.
- `Note::half_step_up` is the cyclic successor in declaration order. It wraps
  from G# to A.

Everything lives in `notes.dfy`, module `MusicNotes`. `Note` is a datatype,
and the operations are functions with lemmas. `Index` gives each note its
position 0..11 in declaration order. `Spelling` is the parser's table read
backwards: each note's accepted name. It is a specification aid, not a
rendering operation, since the library has none.

The source declares `n_half_steps_up(&self, n: u32)` and `half_step_down(&self)`
with empty bodies. As written they do not compile. The model gives them the
meaning their names announce, and this is intent, not source behaviour:
- `NHalfStepsUp` is `half_step_up` applied n times. The count has the source's
  `u32` range, `U32`.
- `HalfStepDown` is the inverse of `half_step_up`.

## Model

| member | source | states |
|---|---|---|
| `MusicNotes.Index` | src/lib.rs:2-15 | each note's position is below 12 and is where the note stands in the declaration order A … G# |
| `MusicNotes.IndexInjective` | src/lib.rs:2-15 | two notes have the same position exactly when they are the same note |
| `MusicNotes.FromIndex` | src/lib.rs:2-15 | every position 0..11 holds a note of that position |
| `MusicNotes.FromStr` | src/lib.rs:17-33 | a name is accepted iff it is the spelling of some note, and then the parsed note has that name as its spelling; every other string is an error |
| `MusicNotes.FromStrSpelling` | src/lib.rs:18-30 | parsing a note's own name gives back that note, for all twelve notes |
| `MusicNotes.FromStrOneToOne` | src/lib.rs:18-30 | two accepted names give the same note iff they are the same name |
| `MusicNotes.SpellingInjective` | src/lib.rs:18-30 | different notes are accepted under different names (no aliasing) |
| `MusicNotes.FromStrRejects` | src/lib.rs:31 | the empty string, lower case, flat spellings, "H", padded names and "A##" are errors |
| `MusicNotes.TestFromStr` | src/lib.rs:60-73 | the twelve cases of the unit test `test_from_str` |
| `MusicNotes.HalfStepUp` | src/lib.rs:34-49 | the successor's position is the note's position plus one, modulo 12, so G# wraps to A |
| `MusicNotes.TestHalfStepUp` | src/lib.rs:75-88 | the twelve cases of the unit test `test_half_step_up` |
| `MusicNotes.HalfStepUpNoFixedPoint` | src/lib.rs:35-48 | no note is its own successor |
| `MusicNotes.HalfStepUpInjective` | src/lib.rs:35-48 | two notes have the same successor iff they are the same note |
| `MusicNotes.HalfStepUpSurjective` | src/lib.rs:35-48 | every note is the successor of some note, so the successor is a bijection |
| `MusicNotes.StepsUp` | src/lib.rs:35-48 | k applications of the successor move the position by k, modulo 12 |
| `MusicNotes.StepsUpModular` | src/lib.rs:35-48 | twelve extra steps change nothing, and only the count modulo 12 matters |
| `MusicNotes.SingleCycleOfTwelve` | src/lib.rs:35-48 | twelve steps return to the start, and 1 to 11 steps never do |
| `MusicNotes.StepsUpReachesAll` | src/lib.rs:35-48 | from any note, every note is reached in fewer than twelve steps, so the successor forms one 12-cycle |
| `MusicNotes.StepsUpAdd` | src/lib.rs:35-48 | j steps followed by k steps are j + k steps |
| `MusicNotes.NHalfStepsUp` | src/lib.rs:51 | by its name only: a note moved up n half steps, computed modulo 12, equals n repeated successor steps |
| `MusicNotes.NHalfStepsUpProperties` | src/lib.rs:51 | by its name only: zero steps is the identity, and adding 12 to the count changes nothing while it stays in u32 |
| `MusicNotes.HalfStepDown` | src/lib.rs:53 | by its name only: the successor of the result is the input, and the result's position is one less, modulo 12 |
| `MusicNotes.HalfStepDownInverse` | src/lib.rs:53 | by its name only: down undoes up and up undoes down |
| `MusicNotes.Scenarios` | src/lib.rs:17-53 | worked examples: A up is A#, C up 5 is F, C up 12 is C, A down is G#, G# up is A |

## Left out

- The error message "String couldn't be parsed" (src/lib.rs:31) is one error value, `UnparsableName`. Its text has no effect on behaviour.
- `#[derive(PartialEq, Debug)]` (src/lib.rs:1): Dafny's datatype equality takes the place of `PartialEq`. `Debug` printing is not modelled.
- The test module (src/lib.rs:56-89) becomes the lemmas `TestFromStr` and `TestHalfStepUp`. The `assert_eq!`/`unwrap` plumbing is not modelled.
- `NHalfStepsUp` and `HalfStepDown` do not model source behaviour: the source bodies are empty and do not compile. What they state comes from their names.
- A string renderer (`to_string`) and `n_half_steps_down` are not in this revision of the source, so they are not modelled. `Spelling` is only a specification aid.
