# Skill-gap report of the talent recommendations module

This project models `get_skill_gap`, the routine of the recommendations module
that lists the skills an employee still has to develop for a future role. It
takes the employee's skills (skill id → level), the role's required skill ids
in order, and a lookup from skill id to display name. It walks the required
ids in order. A skill the employee lacks counts as level 0. A skill without a
display name is shown by its id. Every skill below level 7 gives one line
`<name> (Nivel actual: <level>/10)`. When no line was produced, the report is
the single sentence `Ninguna brecha de habilidad significativa identificada`.

Layout:

- `options.dfy`: module `Options`, the optional-value wrapper used by the parsers.
- `decimal.dfy`: module `Decimal`, Python's `str()` of an int (`IntToDecimal`) and
  its exact inverse `ParseDecimal`, with round trips in both directions.
- `recommendations.dfy`: module `Recommendations`. The pure specification is
  `Gaps` (the gaps as name/level pairs, in role order) and `SkillGap` (the report
  text). `GetSkillGap` is the source's loop, which appends to a local list; its
  postcondition ties its result to `SkillGap`. The lemmas state what the report
  promises. `ParseEntry` reads a gap line back into its name and level; it is the
  inverse of the line format `Render`.

The parsers (`ParseEntry`, `NumeralStart` and `IsNumeral` in `Recommendations`;
`ParseDecimal` and `DecimalValue` in `Decimal`) have no counterpart in the
Python module, which only formats. They are there so that the line format
and the int text can be proved injective: each is proved to be the exact
inverse of its formatter.

The three inputs are Dafny values (`map`, `seq`), so the model cannot modify
them. This matches the source, which reads its arguments and only appends to
its local list.

## Model

| member | source | states |
|---|---|---|
| Recommendations.GetSkillGap | Q3-0013_ElsDulis/modules/recommendations.py:12-25 | The loop over the required skills, appending one line per skill below 7 and returning the sentinel sentence when nothing was appended, produces exactly the report `SkillGap` |
| Recommendations.LevelOf | Q3-0013_ElsDulis/modules/recommendations.py:18 | The employee's level, 0 for a missing skill; what is proved about it is in `EntryAt` (the line shows the stored level, or 0) and `MissingSkillReported` |
| Recommendations.DisplayName | Q3-0013_ElsDulis/modules/recommendations.py:19 | The lookup's name, falling back to the id; what is proved about it is in `EntryAt` (the line shows the lookup name, or the id) |
| Recommendations.Render | Q3-0013_ElsDulis/modules/recommendations.py:23 | The text of one gap line; `EntryAt` states its exact text, `EntryRoundTrip` and `EntryRoundTripBack` prove it injective with `ParseEntry` as inverse, and `RenderIsNotNoGapMessage` separates it from the sentinel |
| Recommendations.SkillGap | Q3-0013_ElsDulis/modules/recommendations.py:16-25 | The report as a pure function; `NoGapMessageIff` proves it is never empty, is the sentinel exactly when no required skill is below 7, and is bounded by the requirement count, and `GetSkillGap` is proved equal to it |
| Recommendations.Gaps | Q3-0013_ElsDulis/modules/recommendations.py:16-23 | There are never more gaps than required skills, and every gap reports a level below the threshold 7 |
| Recommendations.NoGapMessageIff | Q3-0013_ElsDulis/modules/recommendations.py:16-25 | The report is never empty; it is exactly the one-element sentinel list if and only if every required skill is at level 7 or above; an empty requirement list always gives the sentinel, and a non-empty one gives at most as many lines as required skills |
| Recommendations.GapsEmptyIff | Q3-0013_ElsDulis/modules/recommendations.py:17-25 | No gap is collected if and only if every required skill's level (0 when missing) is at least 7 |
| Recommendations.GapsAppend | Q3-0013_ElsDulis/modules/recommendations.py:16-23 | The gaps of two requirement lists in sequence are the gaps of the first followed by those of the second: order is kept and repeated ids repeat their lines |
| Recommendations.GapsAt | Q3-0013_ElsDulis/modules/recommendations.py:17-23 | The required skill at any position contributes exactly one gap, in its place, when its level is below 7, and none when it is 7 or above |
| Recommendations.GapsMembership | Q3-0013_ElsDulis/modules/recommendations.py:17-23 | A gap is collected if and only if some required skill is below 7 and the gap is that skill's display name and level |
| Recommendations.EntryAt | Q3-0013_ElsDulis/modules/recommendations.py:18-23 | The line of a required skill below 7 follows the lines of the skills before it and reads `<lookup name, or the id> (Nivel actual: <stored level, or 0>/10)` |
| Recommendations.MissingSkillReported | Q3-0013_ElsDulis/modules/recommendations.py:18-23 | A required skill the employee lacks always appears in the report with `(Nivel actual: 0/10)` |
| Recommendations.RenderIsNotNoGapMessage | Q3-0013_ElsDulis/modules/recommendations.py:23-25 | No gap line equals the sentinel sentence, so a one-line report is unambiguous |
| Recommendations.EntryRoundTrip | Q3-0013_ElsDulis/modules/recommendations.py:23 | Parsing a gap line gives back the display name and level it was formatted from |
| Recommendations.EntryRoundTripBack | Q3-0013_ElsDulis/modules/recommendations.py:23 | Every string the line parser accepts is exactly the formatted line of the name and level it returns |
| Decimal.NatToDecimal | Q3-0013_ElsDulis/modules/recommendations.py:23 | The decimal text of a natural number is a non-empty digit string without leading zeros, and is "0" exactly for 0 |
| Decimal.IntToDecimal | Q3-0013_ElsDulis/modules/recommendations.py:23 | An int's text starts with '-' exactly when it is negative, followed by canonical digits |
| Decimal.DecimalRoundTrip | Q3-0013_ElsDulis/modules/recommendations.py:23 | The level text in a gap line reads back as the level |
| Decimal.DecimalRoundTripBack | Q3-0013_ElsDulis/modules/recommendations.py:23 | Every text the decimal parser accepts is the rendering of the int it returns |

## Left out

- `generar_plan_desarrollo` and `generar_resumen_ejecutivo` (recommendations.py:27-137): they build prompts for a remote language model and return its text. These are network calls with nondeterministic output.
- `load_dotenv()` and the API-key handling (recommendations.py:1-10): process environment I/O.
- `modules/data_loader.py`: file reading and parsing through library calls (JSON, CSV, literal evaluation). This is I/O plumbing with only defaulting and validation logic: an empty table when the talent file is missing (data_loader.py:23-30), a `ValueError` when a column is missing (:40-41), and `'{}'` in place of missing cells (:44).
- The weighted compatibility score (skills, responsibilities, ambition, dedication) and its ranking labels: `modules/compatibility.py` is not part of this model. Its text similarity is also floating-point numerics.
- Skill levels are modelled as Python ints. A fractional level below 7, such as 6.5, would give the line `... (Nivel actual: 6.5/10)`; that float formatting is not modelled. A non-numeric level makes the comparison at line 22 raise `TypeError`; that error path is not modelled either.
