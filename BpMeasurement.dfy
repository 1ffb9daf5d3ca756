/**
 The blood-pressure measurement entity and its threshold classifier.
 Dates and timestamps are modelled as integers (ticks); only their order matters.
 */
module Models {
  import opened Wrappers

  const Crisis: string := "Hypertensive Crisis"
  const Stage2: string := "Stage 2"
  const Stage1: string := "Stage 1"
  const Elevated: string := "Elevated"
  const Normal: string := "Normal"

  /** The five category labels, in increasing order of severity. */
  const LabelList: seq<string> := [Normal, Elevated, Stage1, Stage2, Crisis]
  const Labels: set<string> := {Normal, Elevated, Stage1, Stage2, Crisis}

  /**
   Classifies a (systolic, diastolic) pair by ordered threshold tests, the first
   test that succeeds deciding. Total: every integer pair gets one of the five labels.
   */
  function Categorize(sys: int, dia: int): (category: string)
    ensures category in Labels
  {
    if sys >= 180 || dia >= 120 then Crisis
    else if sys >= 140 || dia >= 90 then Stage2
    else if sys >= 130 || dia >= 80 then Stage1
    else if sys >= 120 && dia < 80 then Elevated
    else Normal
  }

  /** The position of a label in LabelList: Normal 0 < Elevated 1 < Stage 1 2 < Stage 2 3 < Crisis 4. */
  function Severity(name: string): (rank: nat)
    requires name in Labels
    ensures rank < |LabelList| && LabelList[rank] == name
  {
    if name == Normal then 0
    else if name == Elevated then 1
    else if name == Stage1 then 2
    else if name == Stage2 then 3
    else 4
  }

  /** The five labels are pairwise distinct, so "exactly one" category is meant literally. */
  lemma LabelsDistinct()
    ensures |Labels| == |LabelList| == 5
    ensures forall i, j :: 0 <= i < j < |LabelList| ==> LabelList[i] != LabelList[j]
  {
    assert Normal[0] != Elevated[0] && Normal[0] != Stage1[0] && Normal[0] != Crisis[0];
    assert Elevated[0] != Stage1[0] && Elevated[0] != Crisis[0] && Stage1[0] != Crisis[0];
    assert Stage1[6] != Stage2[6];
    assert |{Normal, Elevated, Stage1, Stage2}| == 4;
  }

  lemma CrisisRegion(sys: int, dia: int)
    ensures Categorize(sys, dia) == Crisis <==> sys >= 180 || dia >= 120
  {
    LabelsDistinct();
  }

  lemma Stage2Region(sys: int, dia: int)
    ensures Categorize(sys, dia) == Stage2 <==> sys < 180 && dia < 120 && (sys >= 140 || dia >= 90)
  {
    LabelsDistinct();
  }

  lemma Stage1Region(sys: int, dia: int)
    ensures Categorize(sys, dia) == Stage1 <==> sys < 140 && dia < 90 && (sys >= 130 || dia >= 80)
  {
    LabelsDistinct();
  }

  lemma ElevatedRegion(sys: int, dia: int)
    ensures Categorize(sys, dia) == Elevated <==> 120 <= sys < 130 && dia < 80
  {
    LabelsDistinct();
  }

  lemma NormalRegion(sys: int, dia: int)
    ensures Categorize(sys, dia) == Normal <==> sys < 120 && dia < 80
  {
    LabelsDistinct();
  }

  /** Raising either reading never lowers the category. */
  lemma CategorizeMonotone(sys: int, dia: int, sys': int, dia': int)
    requires sys <= sys' && dia <= dia'
    ensures Severity(Categorize(sys, dia)) <= Severity(Categorize(sys', dia'))
  {
    LabelsDistinct();
  }

  /** The vectors of the classifier's unit test, and two boundary vectors. */
  lemma CategorizeVectors()
    ensures Categorize(110, 70) == "Normal"
    ensures Categorize(125, 75) == "Elevated"
    ensures Categorize(132, 79) == "Stage 1"
    ensures Categorize(141, 90) == "Stage 2"
    ensures Categorize(181, 110) == "Hypertensive Crisis"
    ensures Categorize(179, 119) == "Stage 2"
    ensures Categorize(120, 79) == "Elevated"
  {
  }

  /** One stored blood-pressure reading; `userId` is the owning tenant. */
  datatype BpMeasurement = BpMeasurement(
    id: int,
    systolic: int,
    diastolic: int,
    dateOfMeasurement: int,
    pulse: Option<int>,
    notes: Option<string>,
    positionId: Option<int>,
    userId: string,
    createdAt: int,
    updatedAt: Option<int>,
    isDeleted: bool)
  {
    /** The derived category: computed from the two readings on every access, never stored. */
    function Category(): string
    {
      Categorize(systolic, diastolic)
    }
  }

  /** The category depends on the two readings alone: records that agree on them agree on it. */
  lemma CategoryIsDerived(m: BpMeasurement, m': BpMeasurement)
    requires m.systolic == m'.systolic && m.diastolic == m'.diastolic
    ensures m.Category() == m'.Category()
    ensures m.Category() in Labels
  {
  }

  /**
   A record as the object initializer builds it: the given fields, `Id` still the
   default 0 (the database assigns it), `CreatedAt` the current time, `UpdatedAt`
   unset and `IsDeleted` false.
   */
  function NewMeasurement(userId: string, sys: int, dia: int, date: int, pulse: Option<int>,
                          notes: Option<string>, positionId: Option<int>, now: int): (m: BpMeasurement)
    ensures !m.isDeleted && m.updatedAt.None? && m.createdAt == now && m.id == 0
    ensures m.userId == userId && m.systolic == sys && m.diastolic == dia && m.dateOfMeasurement == date
    ensures m.pulse == pulse && m.notes == notes && m.positionId == positionId
  {
    BpMeasurement(0, sys, dia, date, pulse, notes, positionId, userId, now, None, false)
  }

  /** The entity's declared ranges: Systolic 20..400, Diastolic 10..300, Notes at most 512 characters. */
  predicate InDeclaredRanges(m: BpMeasurement)
  {
    && 20 <= m.systolic <= 400
    && 10 <= m.diastolic <= 300
    && (m.notes.Some? ==> |m.notes.value| <= 512)
  }
}
