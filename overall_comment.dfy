/** The overall comment of a report card (comments.py, lines 90-237): a
    narrative chosen by the student's total, naming the student, the total,
    and the best and weakest subjects of a stable ranking by mark. */
module OverallComment {
  import opened PyText
  import opened Cells
  import opened Ranking

  /** The fourteen narratives and the data-integrity message. */
  datatype Narrative =
    | Outstanding | Exceptional | Fabulous | GreatEffort | GoodJob | StayDetermined
    | ContinuePushing | EveryStep | StayEngaged | KeepMomentum | Journey | EveryEffort
    | Beginnings | NewStart | CheckMarks

  /** A piece of an f-string template: literal text or one of the interpolated fields. */
  datatype Piece =
    | Lit(text: string)
    | StudentName | TotalMarks | FirstHighest | SecondHighest | FirstLowest | SecondLowest

  /** The values the templates interpolate. */
  datatype Fields = Fields(
    name: string, total: string,
    firstHighest: string, secondHighest: string,
    firstLowest: string, secondLowest: string)

  function PieceText(p: Piece, f: Fields): string {
    match p
    case Lit(text) => text
    case StudentName => f.name
    case TotalMarks => f.total
    case FirstHighest => f.firstHighest
    case SecondHighest => f.secondHighest
    case FirstLowest => f.firstLowest
    case SecondLowest => f.secondLowest
  }

  /** The f-string: its pieces, filled in and joined. */
  function Render(t: seq<Piece>, f: Fields): string {
    if t == [] then [] else PieceText(t[0], f) + Render(t[1..], f)
  }

  /** Each piece's text appears in the rendered string. */
  lemma {:induction false} RenderContains(t: seq<Piece>, f: Fields, k: nat)
    requires k < |t|
    ensures Contains(Render(t, f), PieceText(t[k], f))
  {
    if k == 0 {
      ContainsPrefix(PieceText(t[0], f), Render(t[1..], f));
    } else {
      RenderContains(t[1..], f, k - 1);
      ContainsExtend(PieceText(t[0], f), Render(t[1..], f), [], PieceText(t[k], f));
      assert PieceText(t[0], f) + Render(t[1..], f) + [] == Render(t, f);
    }
  }

  /** The f-string templates of comments.py, lines 118-228, one per narrative. */
  function Template(n: Narrative): seq<Piece> {
    match n
    case CheckMarks => CheckMarksTemplate
    case Outstanding => OutstandingTemplate
    case Exceptional => ExceptionalTemplate
    case Fabulous => FabulousTemplate
    case GreatEffort => GreatEffortTemplate
    case GoodJob => GoodJobTemplate
    case StayDetermined => StayDeterminedTemplate
    case ContinuePushing => ContinuePushingTemplate
    case EveryStep => EveryStepTemplate
    case StayEngaged => StayEngagedTemplate
    case KeepMomentum => KeepMomentumTemplate
    case Journey => JourneyTemplate
    case EveryEffort => EveryEffortTemplate
    case Beginnings => BeginningsTemplate
    case NewStart => NewStartTemplate
  }

  const CheckMarksTemplate: seq<Piece> := [
    Lit("Total marks for "), StudentName, Lit(" is "), TotalMarks,
    Lit(". Please check the marks entered.")]

  const OutstandingTemplate: seq<Piece> := [
    Lit("Outstanding job, "), StudentName, Lit("! Your stellar score of "), TotalMarks,
    Lit(" out of 1100 is truly remarkable. You particularly excelled in "), FirstHighest,
    Lit(". Keep polishing areas like "), FirstLowest, Lit(" and "), SecondLowest,
    Lit(". to rise to the top. You're soaring higher than an eagle!")]

  const ExceptionalTemplate: seq<Piece> := [
    Lit("Exceptional performance, "), StudentName, Lit("! Your score of "), TotalMarks,
    Lit(" showcases your dedication. Your prowess in "), FirstHighest,
    Lit(" is commendable, but don't forget to hone areas like "), FirstLowest,
    Lit(". You're as determined as a cheetah on the hunt!")]

  const FabulousTemplate: seq<Piece> := [
    Lit("Fabulous work, "), StudentName, Lit("! With a score of "), TotalMarks,
    Lit(", you're making waves. You've done notably well in "), FirstHighest,
    Lit(". Continue to refine skills in areas like "), FirstLowest, Lit(" and "), SecondLowest,
    Lit(". You're as dedicated as a beaver building a dam!")]

  const GreatEffortTemplate: seq<Piece> := [
    Lit("Great effort, "), StudentName, Lit("! Your score of "), TotalMarks,
    Lit(" is commendable. While you shined in "), FirstHighest, Lit(" and "), SecondHighest,
    Lit(", there's more room for improvement in "), FirstLowest, Lit(" and "), SecondLowest,
    Lit(". You're as agile as a monkey swinging through trees!")]

  const GoodJobTemplate: seq<Piece> := [
    Lit("Good job, "), StudentName, Lit(". A total score of "), TotalMarks,
    Lit(" showcases your potential. Your skills in areas like "), FirstHighest, Lit(" and "), SecondHighest,
    Lit(" are evident. Yet, focus on "), FirstLowest, Lit(" and "), SecondLowest,
    Lit(" for holistic growth. You're as brave as a lion facing a storm!")]

  const StayDeterminedTemplate: seq<Piece> := [
    Lit("Stay determined, "), StudentName, Lit(". Your score of "), TotalMarks,
    Lit(" is a testament to your hard work. "), FirstHighest, Lit(" and "), SecondHighest,
    Lit(" was a highlight, but don't neglect areas like "), FirstLowest, Lit(" and "), SecondLowest,
    Lit(". You're as persistent as a tortoise on a mission!")]

  const ContinuePushingTemplate: seq<Piece> := [
    Lit("Continue pushing, "), StudentName, Lit(". Your score of "), TotalMarks,
    Lit(" shows promise to your performance. While "), FirstHighest, Lit(" and "), SecondHighest,
    Lit(" was your strength, put some elbow grease into "), FirstLowest, Lit(" and "), SecondLowest,
    Lit(". You're as tenacious as a kangaroo in the outback!")]

  const EveryStepTemplate: seq<Piece> := [
    Lit("Every step is progress, "), StudentName, Lit(". With "), TotalMarks,
    Lit(", you have shown that you have potential. Your efforts in "), FirstHighest,
    Lit(" are noteworthy. But, there's room for growth in "), FirstLowest, Lit(" and "), SecondLowest,
    Lit(". You're as adaptable as an octopus exploring the ocean floor!")]

  const StayEngagedTemplate: seq<Piece> := [
    Lit("Stay engaged, "), StudentName, Lit(". With a score of "), TotalMarks,
    Lit(", you can go extra mile and achieve more. Your strengths lie in "), FirstHighest,
    Lit(", but areas like "), FirstLowest, Lit(" and "), SecondLowest,
    Lit(" need your attention. You're as determined as a hummingbird searching for nectar!")]

  const KeepMomentumTemplate: seq<Piece> := [
    Lit("Keep the momentum, "), StudentName, Lit(". A score of "), TotalMarks,
    Lit(" hints at your capabilities. You did well in "), FirstHighest, Lit(" and "), SecondHighest,
    Lit(", but it's essential to strengthen your skills in "), FirstLowest, Lit(" and "), SecondLowest,
    Lit(" to rise. You're as spirited as a hawk soaring the skies!")]

  const JourneyTemplate: seq<Piece> := [
    Lit("Your journey is important, "), StudentName, Lit(". With a score of "), TotalMarks,
    Lit(", the sky's the limit. While "), FirstHighest,
    Lit(" showed some bright moments, more effort in "), FirstLowest,
    Lit(" will help you rise to your potential. You're as curious as a cat exploring its surroundings!")]

  const EveryEffortTemplate: seq<Piece> := [
    Lit("Every effort counts, "), StudentName, Lit(". Your score of "), TotalMarks,
    Lit(" is a stepping stone. Your potential in "), FirstHighest,
    Lit(" is clear. However, work on areas like "), FirstLowest,
    Lit(" to enhance your prowess. You're as resilient as a cactus in the desert!")]

  const BeginningsTemplate: seq<Piece> := [
    Lit("Beginnings are full of lessons, "), StudentName, Lit(". A score of "), TotalMarks,
    Lit(" means there's much to learn. You have some skills in "), FirstHighest,
    Lit(", but look into nurturing "), FirstLowest, Lit(" and "), SecondLowest,
    Lit(". You're as lively as a fish in the water!")]

  const NewStartTemplate: seq<Piece> := [
    Lit("Every new start is an opportunity, "), StudentName, Lit(". With a score of "), TotalMarks,
    Lit(", growth awaits. Your interest in "), FirstHighest,
    Lit(" is evident. Yet, delve deeper into "), FirstLowest, Lit(" and "), SecondLowest,
    Lit(" to make strides. You're as sturdy as an oak tree in its prime!")]

  /** Every template opens with text and names the student and the total. */
  lemma TemplateOpening(n: Narrative)
    ensures |Template(n)| >= 4 && Template(n)[0].Lit? && Template(n)[0].text != []
    ensures Template(n)[1] == StudentName && Template(n)[3] == TotalMarks
  {
    match n
    case CheckMarks =>
    case Outstanding =>
    case Exceptional =>
    case Fabulous =>
    case GreatEffort =>
    case GoodJob =>
    case StayDetermined =>
    case ContinuePushing =>
    case EveryStep =>
    case StayEngaged =>
    case KeepMomentum =>
    case Journey =>
    case EveryEffort =>
    case Beginnings =>
    case NewStart =>
  }

  /** Every narrative names the best-ranked subject (always the sixth piece)
      and the worst-ranked one (at index lowest). */
  lemma NarrativeSubjects(n: Narrative) returns (lowest: nat)
    requires n != CheckMarks
    ensures 5 < |Template(n)| && Template(n)[5] == FirstHighest
    ensures lowest < |Template(n)| && Template(n)[lowest] == FirstLowest
  {
    match n
    case Outstanding => lowest := 7;
    case Exceptional => lowest := 7;
    case Fabulous => lowest := 7;
    case GreatEffort => lowest := 9;
    case GoodJob => lowest := 9;
    case StayDetermined => lowest := 9;
    case ContinuePushing => lowest := 9;
    case EveryStep => lowest := 7;
    case StayEngaged => lowest := 7;
    case KeepMomentum => lowest := 9;
    case Journey => lowest := 7;
    case EveryEffort => lowest := 7;
    case Beginnings => lowest := 7;
    case NewStart => lowest := 7;
  }

  /** The fields of the templates: the decimal total and the subjects at
      ranks 1, 2, n and n-1 of the stable ranking. */
  function FieldsFor(items: seq<Entry>, total: int, name: string): Fields
    requires |items| >= 2
  {
    var ranked := SortDescending(items);
    Fields(name, IntToString(total),
           ranked[0].subject, ranked[1].subject,
           ranked[|ranked| - 1].subject, ranked[|ranked| - 2].subject)
  }

  /** The nested `generate_overall_comments_less_than_500`. */
  function CommentBelow500(total: int, f: Fields): string {
    if total >= 450 then Render(Template(StayEngaged), f)
    else if total >= 400 then Render(Template(KeepMomentum), f)
    else if total >= 300 then Render(Template(Journey), f)
    else if total >= 200 then Render(Template(EveryEffort), f)
    else if total >= 100 then Render(Template(Beginnings), f)
    else Render(Template(NewStart), f)
  }

  /** `generate_overall_comment(student_subject_marks, student_total_marks, student_name)`
      for an integer total; `IndexError` when there are fewer than two subjects. */
  function GenerateOverallComment(items: seq<Entry>, total: int, name: string): (r: Result<string>)
    ensures r.Failure? <==> |items| < 2
    ensures r.Failure? ==> r.error == IndexError
  {
    if |items| < 2 then Failure(IndexError)
    else
      var f := FieldsFor(items, total, name);
      var flagged := if total > 1100 || total < 0 then Render(Template(CheckMarks), f) else "";
      var comment :=
        if total >= 1000 then Render(Template(Outstanding), f)
        else if total >= 900 then Render(Template(Exceptional), f)
        else if total >= 800 then Render(Template(Fabulous), f)
        else if total >= 700 then Render(Template(GreatEffort), f)
        else if total >= 650 then Render(Template(GoodJob), f)
        else if total >= 600 then Render(Template(StayDetermined), f)
        else if total >= 550 then Render(Template(ContinuePushing), f)
        else if total >= 500 then Render(Template(EveryStep), f)
        else flagged;
      var below500 := CommentBelow500(total, f);
      Success(if comment != "" then comment else below500)
  }

  /** The number of total-score bands that have a threshold. */
  const BandCount: nat := 13

  /** The total-score bands as a table, highest first: the threshold of band k. */
  function Threshold(k: nat): int
    requires k < BandCount
  {
    match k
    case 0 => 1000 case 1 => 900 case 2 => 800 case 3 => 700 case 4 => 650
    case 5 => 600 case 6 => 550 case 7 => 500 case 8 => 450 case 9 => 400
    case 10 => 300 case 11 => 200 case _ => 100
  }

  /** The narrative of band k; below the last threshold comes `NewStart`. */
  function BandNarrative(k: nat): Narrative
    requires k <= BandCount
  {
    match k
    case 0 => Outstanding case 1 => Exceptional case 2 => Fabulous
    case 3 => GreatEffort case 4 => GoodJob case 5 => StayDetermined
    case 6 => ContinuePushing case 7 => EveryStep case 8 => StayEngaged
    case 9 => KeepMomentum case 10 => Journey case 11 => EveryEffort
    case 12 => Beginnings case _ => NewStart
  }

  /** The index of the first band at or after k whose threshold the total
      reaches, or BandCount when there is none. */
  function FirstReached(total: int, k: nat): (j: nat)
    requires k <= BandCount
    ensures k <= j <= BandCount
    ensures forall i :: k <= i < j ==> Threshold(i) > total
    ensures j < BandCount ==> Threshold(j) <= total
    decreases BandCount - k
  {
    if k == BandCount || Threshold(k) <= total then k else FirstReached(total, k + 1)
  }

  /** Reference choice of narrative: a negative total is flagged, otherwise
      the first band in the table whose threshold the total reaches. */
  function TableNarrative(total: int): Narrative {
    if total < 0 then CheckMarks else BandNarrative(FirstReached(total, 0))
  }

  lemma RenderNonEmpty(n: Narrative, f: Fields)
    ensures Render(Template(n), f) != ""
  {
    TemplateOpening(n);
    var t := Template(n);
    assert Render(t, f) == t[0].text + Render(t[1..], f);
  }

  /** The bands of the table from 500 up, one by one. */
  lemma TableFrom500(total: int)
    requires total >= 500
    ensures TableNarrative(total) ==
      if total >= 1000 then Outstanding else if total >= 900 then Exceptional
      else if total >= 800 then Fabulous else if total >= 700 then GreatEffort
      else if total >= 650 then GoodJob else if total >= 600 then StayDetermined
      else if total >= 550 then ContinuePushing else EveryStep
  {
    var j := FirstReached(total, 0);
    if total >= 1000 { assert j == 0; }
    else if total >= 900 { assert j == 1; }
    else if total >= 800 { assert j == 2; }
    else if total >= 700 { assert j == 3; }
    else if total >= 650 { assert j == 4; }
    else if total >= 600 { assert j == 5; }
    else if total >= 550 { assert j == 6; }
    else { assert j == 7; }
  }

  /** The bands of the table below 500, one by one. */
  lemma TableBelow500(total: int)
    requires 0 <= total < 500
    ensures TableNarrative(total) ==
      if total >= 450 then StayEngaged else if total >= 400 then KeepMomentum
      else if total >= 300 then Journey else if total >= 200 then EveryEffort
      else if total >= 100 then Beginnings else NewStart
  {
    SkipBand(total, 0); SkipBand(total, 1); SkipBand(total, 2); SkipBand(total, 3);
    SkipBand(total, 4); SkipBand(total, 5); SkipBand(total, 6); SkipBand(total, 7);
    if total < 450 {
      SkipBand(total, 8);
      if total < 400 {
        SkipBand(total, 9);
        if total < 300 {
          SkipBand(total, 10);
          if total < 200 {
            SkipBand(total, 11);
            if total < 100 {
              SkipBand(total, 12);
            }
          }
        }
      }
    }
  }

  /** The nested helper for totals below 500 follows the table too. */
  lemma CommentBelow500FollowsTable(total: int, f: Fields)
    requires 0 <= total < 500
    ensures CommentBelow500(total, f) == Render(Template(TableNarrative(total)), f)
  {
    TableBelow500(total);
  }

  /** A band whose threshold the total misses is passed over. */
  lemma SkipBand(total: int, k: nat)
    requires k < BandCount && Threshold(k) > total
    ensures FirstReached(total, k) == FirstReached(total, k + 1)
  {
  }

  /** The comment is the template of the first band in the table that the
      total reaches, or the data-integrity message for a negative total. */
  lemma OverallCommentFollowsTable(items: seq<Entry>, total: int, name: string)
    requires |items| >= 2
    ensures GenerateOverallComment(items, total, name)
         == Success(Render(Template(TableNarrative(total)), FieldsFor(items, total, name)))
  {
    if total >= 500 {
      TableFrom500(total);
      RenderNonEmpty(TableNarrative(total), FieldsFor(items, total, name));
    } else if total >= 0 {
      TableBelow500(total);
    } else {
      RenderNonEmpty(CheckMarks, FieldsFor(items, total, name));
    }
  }

  /** The data-integrity message, written out. */
  lemma CheckMarksText(f: Fields)
    ensures Render(Template(CheckMarks), f)
         == "Total marks for " + (f.name + (" is " + (f.total + ". Please check the marks entered.")))
  {
    RenderFive(Lit("Total marks for "), StudentName, Lit(" is "), TotalMarks,
               Lit(". Please check the marks entered."), f);
  }

  /** Rendering a template is rendering its first piece, then the rest. */
  lemma RenderStep(p: Piece, t: seq<Piece>, f: Fields)
    ensures Render([p] + t, f) == PieceText(p, f) + Render(t, f)
  {
    assert ([p] + t)[1..] == t;
  }

  /** A five-piece template renders piece by piece. */
  lemma RenderFive(a: Piece, b: Piece, c: Piece, d: Piece, e: Piece, f: Fields)
    ensures Render([a, b, c, d, e], f)
         == PieceText(a, f) + (PieceText(b, f) + (PieceText(c, f) + (PieceText(d, f) + PieceText(e, f))))
  {
    RenderStep(e, [], f);
    assert [d, e] == [d] + [e];
    RenderStep(d, [e], f);
    assert [c, d, e] == [c] + [d, e];
    RenderStep(c, [d, e], f);
    assert [b, c, d, e] == [b] + [c, d, e];
    RenderStep(b, [c, d, e], f);
    assert [a, b, c, d, e] == [a] + [b, c, d, e];
    RenderStep(a, [b, c, d, e], f);
  }

  /** A negative total yields exactly the data-integrity message. */
  lemma NegativeTotalIsFlagged(items: seq<Entry>, total: int, name: string)
    requires |items| >= 2 && total < 0
    ensures GenerateOverallComment(items, total, name)
         == Success("Total marks for " + (name + (" is " + (IntToString(total) + ". Please check the marks entered."))))
  {
    var f := FieldsFor(items, total, name);
    assert f.name == name && f.total == IntToString(total);
    var flagged := Render(Template(CheckMarks), f);
    RenderNonEmpty(CheckMarks, f);
    assert GenerateOverallComment(items, total, name) == Success(flagged);
    CheckMarksText(f);
  }

  /** A total above the 1100 maximum is not flagged: the top band's text replaces the message. */
  lemma AboveMaximumIsNotFlagged(items: seq<Entry>, total: int, name: string)
    requires |items| >= 2 && total > 1100
    ensures GenerateOverallComment(items, total, name).value[..17] == "Outstanding job, "
  {
    var f := FieldsFor(items, total, name);
    var t := Template(Outstanding);
    assert Render(t, f) == "Outstanding job, " + Render(t[1..], f);
  }

  /** The comment is never empty and always contains the student's name and the total. */
  lemma OverallCommentMentionsStudent(items: seq<Entry>, total: int, name: string)
    requires |items| >= 2
    ensures var r := GenerateOverallComment(items, total, name);
      && r.Success? && r.value != []
      && Contains(r.value, name) && Contains(r.value, IntToString(total))
  {
    var f := FieldsFor(items, total, name);
    var n := TableNarrative(total);
    OverallCommentFollowsTable(items, total, name);
    TemplateOpening(n);
    RenderNonEmpty(n, f);
    RenderContains(Template(n), f, 1);
    RenderContains(Template(n), f, 3);
  }

  /** Every narrative but the data-integrity message names the top-ranked and
      the bottom-ranked subject. */
  lemma NarrativeNamesRanked(n: Narrative, f: Fields)
    requires n != CheckMarks
    ensures Contains(Render(Template(n), f), f.firstHighest)
    ensures Contains(Render(Template(n), f), f.firstLowest)
  {
    var t := Template(n);
    var lowest := NarrativeSubjects(n);
    RenderContains(t, f, 5);
    RenderContains(t, f, lowest);
  }

  /** For a non-negative total the comment names the earliest-inserted subject
      with the highest mark and the latest-inserted subject with the lowest. */
  lemma OverallCommentNamesExtremes(items: seq<Entry>, total: int, name: string) returns (hi: nat, lo: nat)
    requires |items| >= 2 && total >= 0
    ensures hi < |items| && lo < |items|
    ensures forall j :: 0 <= j < |items| ==> items[lo].mark <= items[j].mark <= items[hi].mark
    ensures forall j :: 0 <= j < hi ==> items[j].mark < items[hi].mark
    ensures forall j :: lo < j < |items| ==> items[j].mark > items[lo].mark
    ensures Contains(GenerateOverallComment(items, total, name).value, items[hi].subject)
    ensures Contains(GenerateOverallComment(items, total, name).value, items[lo].subject)
  {
    hi := FirstRankedIsEarliestHighest(items);
    lo := LastRankedIsLatestLowest(items);
    var f := FieldsFor(items, total, name);
    assert f.firstHighest == items[hi].subject && f.firstLowest == items[lo].subject;
    CommentNamesRanked(items, total, name);
  }

  /** For a non-negative total the comment names the first- and last-ranked subjects. */
  lemma CommentNamesRanked(items: seq<Entry>, total: int, name: string)
    requires |items| >= 2 && total >= 0
    ensures Contains(GenerateOverallComment(items, total, name).value, FieldsFor(items, total, name).firstHighest)
    ensures Contains(GenerateOverallComment(items, total, name).value, FieldsFor(items, total, name).firstLowest)
  {
    var f := FieldsFor(items, total, name);
    var n := TableNarrative(total);
    assert n != CheckMarks;
    OverallCommentFollowsTable(items, total, name);
    NarrativeNamesRanked(n, f);
  }

  /** The guard as evidently intended: a total outside 0..1100 is always
      flagged, and any other total gets the narrative of the code as written. */
  function CorrectedOverallComment(items: seq<Entry>, total: int, name: string): (r: Result<string>)
    ensures r.Failure? <==> |items| < 2
  {
    if |items| < 2 then Failure(IndexError)
    else if total > 1100 || total < 0 then Success(Render(Template(CheckMarks), FieldsFor(items, total, name)))
    else GenerateOverallComment(items, total, name)
  }

  /** The corrected guard flags every total outside 0..1100 with exactly the
      data-integrity message, and leaves the narrative of every other total alone. */
  lemma CorrectedOverallCommentFlags(items: seq<Entry>, total: int, name: string)
    requires |items| >= 2
    ensures total > 1100 || total < 0 ==>
      CorrectedOverallComment(items, total, name)
        == Success("Total marks for " + (name + (" is " + (IntToString(total) + ". Please check the marks entered."))))
    ensures 0 <= total <= 1100 ==> CorrectedOverallComment(items, total, name) == GenerateOverallComment(items, total, name)
  {
    var f := FieldsFor(items, total, name);
    assert f.name == name && f.total == IntToString(total);
    CheckMarksText(f);
  }
}
