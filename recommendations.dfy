/**
 * The skill-gap report of the recommendations module: for each skill a future
 * role requires, in the role's order, an employee whose level is below the
 * threshold gets one line "<name> (Nivel actual: <level>/10)"; a report with no
 * such line is replaced by a single fixed sentence.
 *
 * Skill levels are Python ints; a skill the employee lacks counts as level 0,
 * and a skill id without a display name is shown by its id.
 */
module Recommendations {
  import opened Options
  import opened Decimal

  /** Levels strictly below this need a development plan. */
  const Threshold: int := 7

  /** The one-line report returned when no required skill is below the threshold. */
  const NoGapMessage: string := "Ninguna brecha de habilidad significativa identificada"

  /** The fixed text around the level in a gap line. */
  const LevelOpen: string := " (Nivel actual: "
  const LevelClose: string := "/10)"

  /** One skill gap: the display name of the skill and the employee's level in it. */
  datatype Gap = Gap(name: string, level: int)

  /** The employee's level in a skill, 0 when the skill is missing. */
  function LevelOf(skills: map<string, int>, id: string): int {
    if id in skills then skills[id] else 0
  }

  /** The skill's display name, or the id itself when the lookup has none. */
  function DisplayName(lookup: map<string, string>, id: string): string {
    if id in lookup then lookup[id] else id
  }

  function GapOf(skills: map<string, int>, lookup: map<string, string>, id: string): Gap {
    Gap(DisplayName(lookup, id), LevelOf(skills, id))
  }

  /** The text of one gap line. */
  function Render(g: Gap): string {
    g.name + LevelOpen + IntToDecimal(g.level) + LevelClose
  }

  /** The gaps of the required skills, in the order the role lists them, duplicates kept. */
  function Gaps(skills: map<string, int>, required: seq<string>, lookup: map<string, string>): (r: seq<Gap>)
    ensures |r| <= |required|
    ensures forall j :: 0 <= j < |r| ==> r[j].level < Threshold
  {
    if required == [] then []
    else
      var init := Gaps(skills, required[..|required| - 1], lookup);
      var id := required[|required| - 1];
      if LevelOf(skills, id) < Threshold then init + [GapOf(skills, lookup, id)] else init
  }

  function Entries(gaps: seq<Gap>): (r: seq<string>)
    ensures |r| == |gaps|
  {
    seq(|gaps|, j requires 0 <= j < |gaps| => Render(gaps[j]))
  }

  /** The report: the gap lines, or the single sentence when there are none. */
  function SkillGap(skills: map<string, int>, required: seq<string>, lookup: map<string, string>): seq<string> {
    var gaps := Gaps(skills, required, lookup);
    if gaps == [] then [NoGapMessage] else Entries(gaps)
  }

  /** The report as the source builds it: a scan of the required skills that appends to a local list. */
  method GetSkillGap(skills: map<string, int>, required: seq<string>, lookup: map<string, string>)
    returns (result: seq<string>)
    ensures result == SkillGap(skills, required, lookup)
  {
    var gap: seq<string> := [];
    for i := 0 to |required|
      invariant gap == Entries(Gaps(skills, required[..i], lookup))
    {
      var id := required[i];
      var level := if id in skills then skills[id] else 0;
      var name := if id in lookup then lookup[id] else id;
      assert required[..i + 1][..i] == required[..i];
      if level < Threshold {
        gap := gap + [name + LevelOpen + IntToDecimal(level) + LevelClose];
      }
    }
    assert required[..|required|] == required;
    result := if gap != [] then gap else [NoGapMessage];
  }

  // ----- Properties of the report -----

  /** Gaps distributes over concatenation: order is kept and nothing is deduplicated. */
  lemma {:induction false} GapsAppend(skills: map<string, int>, a: seq<string>, b: seq<string>, lookup: map<string, string>)
    ensures Gaps(skills, a + b, lookup) == Gaps(skills, a, lookup) + Gaps(skills, b, lookup)
    decreases |b|
  {
    if b == [] {
      assert a + b == a;
    } else {
      var b' := b[..|b| - 1];
      assert (a + b)[..|a + b| - 1] == a + b';
      assert (a + b)[|a + b| - 1] == b[|b| - 1];
      GapsAppend(skills, a, b', lookup);
    }
  }

  /**
   * The required skill at position k contributes exactly one gap, in place,
   * when its level is below the threshold, and nothing otherwise.
   */
  lemma GapsAt(skills: map<string, int>, required: seq<string>, lookup: map<string, string>, k: nat)
    requires k < |required|
    ensures Gaps(skills, required, lookup) ==
      Gaps(skills, required[..k], lookup)
      + (if LevelOf(skills, required[k]) < Threshold then [GapOf(skills, lookup, required[k])] else [])
      + Gaps(skills, required[k + 1..], lookup)
  {
    assert required == required[..k] + [required[k]] + required[k + 1..];
    GapsAppend(skills, required[..k], [required[k]], lookup);
    GapsAppend(skills, required[..k] + [required[k]], required[k + 1..], lookup);
    assert [required[k]][..0] == [];
  }

  /** There is no gap exactly when every required skill is at or above the threshold. */
  lemma {:induction false} GapsEmptyIff(skills: map<string, int>, required: seq<string>, lookup: map<string, string>)
    ensures Gaps(skills, required, lookup) == [] <==>
      forall k :: 0 <= k < |required| ==> LevelOf(skills, required[k]) >= Threshold
  {
    if required != [] {
      var init := required[..|required| - 1];
      GapsEmptyIff(skills, init, lookup);
      if Gaps(skills, required, lookup) == [] {
        forall k | 0 <= k < |required| ensures LevelOf(skills, required[k]) >= Threshold {
          if k < |init| {
            assert required[k] == init[k];
          }
        }
      }
    }
  }

  /** Every gap comes from a required skill below the threshold, and every such skill gives one. */
  lemma {:induction false} GapsMembership(skills: map<string, int>, required: seq<string>, lookup: map<string, string>, g: Gap)
    ensures g in Gaps(skills, required, lookup) <==>
      exists k :: 0 <= k < |required| && LevelOf(skills, required[k]) < Threshold && g == GapOf(skills, lookup, required[k])
  {
    if required != [] {
      var init := required[..|required| - 1];
      GapsMembership(skills, init, lookup, g);
      if g in Gaps(skills, init, lookup) {
        var k :| 0 <= k < |init| && LevelOf(skills, init[k]) < Threshold && g == GapOf(skills, lookup, init[k]);
        assert required[k] == init[k];
      }
      if exists k :: 0 <= k < |required| && LevelOf(skills, required[k]) < Threshold && g == GapOf(skills, lookup, required[k]) {
        var k :| 0 <= k < |required| && LevelOf(skills, required[k]) < Threshold && g == GapOf(skills, lookup, required[k]);
        if k < |init| {
          assert init[k] == required[k];
        }
      }
    }
  }

  /** A gap line can never be mistaken for the no-gap sentence. */
  lemma RenderIsNotNoGapMessage(g: Gap)
    ensures Render(g) != NoGapMessage
  {
    var s := Render(g);
    assert s[|s| - 1] == ')';
  }

  /**
   * The report is never empty, and it is the single no-gap sentence exactly when
   * every required skill is at or above the threshold; an empty requirement list
   * always gives that sentence, and a non-empty one never gives more lines than
   * it has skills.
   */
  lemma NoGapMessageIff(skills: map<string, int>, required: seq<string>, lookup: map<string, string>)
    ensures |SkillGap(skills, required, lookup)| >= 1
    ensures SkillGap(skills, required, lookup) == [NoGapMessage] <==>
      forall k :: 0 <= k < |required| ==> LevelOf(skills, required[k]) >= Threshold
    ensures required == [] ==> SkillGap(skills, required, lookup) == [NoGapMessage]
    ensures required != [] ==> |SkillGap(skills, required, lookup)| <= |required|
  {
    GapsEmptyIff(skills, required, lookup);
    var gaps := Gaps(skills, required, lookup);
    if gaps != [] {
      RenderIsNotNoGapMessage(gaps[0]);
      assert Entries(gaps)[0] == Render(gaps[0]);
    }
  }

  /**
   * The line of a required skill below the threshold sits right after the lines
   * of the skills before it, and shows the lookup's name (or the id) and the
   * employee's level (or 0).
   */
  lemma EntryAt(skills: map<string, int>, required: seq<string>, lookup: map<string, string>, k: nat)
    requires k < |required|
    requires (if required[k] in skills then skills[required[k]] else 0) < Threshold
    ensures var j := |Gaps(skills, required[..k], lookup)|;
      var id := required[k];
      j < |SkillGap(skills, required, lookup)| &&
      SkillGap(skills, required, lookup)[j] ==
        (if id in lookup then lookup[id] else id)
        + " (Nivel actual: " + IntToDecimal(if id in skills then skills[id] else 0) + "/10)"
  {
    GapsAt(skills, required, lookup, k);
  }

  /** A required skill the employee lacks is always reported, at level 0. */
  lemma MissingSkillReported(skills: map<string, int>, required: seq<string>, lookup: map<string, string>, id: string)
    requires id in required && id !in skills
    ensures DisplayName(lookup, id) + " (Nivel actual: 0/10)" in SkillGap(skills, required, lookup)
  {
    var k :| 0 <= k < |required| && required[k] == id;
    EntryAt(skills, required, lookup, k);
    var r := SkillGap(skills, required, lookup);
    var j := |Gaps(skills, required[..k], lookup)|;
    var zero := IntToDecimal(0);
    assert zero == "0";
    var name := DisplayName(lookup, id);
    assert r[j] == name + " (Nivel actual: " + zero + "/10)";
    assert " (Nivel actual: " + zero + "/10)" == " (Nivel actual: 0/10)";
    assert r[j] == name + " (Nivel actual: 0/10)";
  }

  // ----- Reading a gap line back -----

  predicate IsNumeral(c: char) {
    IsDigit(c) || c == '-'
  }

  /** Where the trailing run of digits and minus signs of s begins. */
  function NumeralStart(s: string): (k: nat)
    ensures k <= |s|
    ensures forall j :: k <= j < |s| ==> IsNumeral(s[j])
    ensures k > 0 ==> !IsNumeral(s[k - 1])
  {
    if s == [] || !IsNumeral(s[|s| - 1]) then |s| else NumeralStart(s[..|s| - 1])
  }

  /** Splits a gap line into its name and level: the inverse of Render. */
  function ParseEntry(s: string): Option<Gap> {
    if |s| < |LevelClose| || s[|s| - |LevelClose|..] != LevelClose then None
    else
      var body := s[..|s| - |LevelClose|];
      var k := NumeralStart(body);
      var head := body[..k];
      if |head| < |LevelOpen| || head[|head| - |LevelOpen|..] != LevelOpen then None
      else
        match ParseDecimal(body[k..])
        case None => None
        case Some(level) => Some(Gap(head[..|head| - |LevelOpen|], level))
  }

  /** Each gap line reads back as the name and level it was made from. */
  lemma EntryRoundTrip(g: Gap)
    ensures ParseEntry(Render(g)) == Some(g)
  {
    var num := IntToDecimal(g.level);
    var head := g.name + LevelOpen;
    var body := head + num;
    assert Render(g) == body + LevelClose;
    assert Render(g)[..|Render(g)| - |LevelClose|] == body;
    forall j | 0 <= j < |num| ensures IsNumeral(num[j]) {
      if j > 0 {
        assert num[j] == num[1..][j - 1];
      }
    }
    assert !IsNumeral(body[|head| - 1]);
    forall j | |head| <= j < |body| ensures IsNumeral(body[j]) {
      assert body[j] == num[j - |head|];
    }
    var k := NumeralStart(body);
    assert body[..k] == head && body[k..] == num;
    DecimalRoundTrip(g.level);
  }

  /** Whatever ParseEntry accepts is exactly the line Render makes of its result. */
  lemma EntryRoundTripBack(s: string)
    requires ParseEntry(s).Some?
    ensures Render(ParseEntry(s).value) == s
  {
    var body := s[..|s| - |LevelClose|];
    var k := NumeralStart(body);
    var head := body[..k];
    DecimalRoundTripBack(body[k..]);
    assert head == head[..|head| - |LevelOpen|] + LevelOpen;
    assert body == head + body[k..];
    assert s == body + LevelClose;
  }
}
