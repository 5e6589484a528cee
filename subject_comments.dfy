/** Per-subject remarks (comments.py, lines 3-88): coercing a row of mark
    cells, the English band table, the Kiswahili band table for the second
    slot, and the rescale of an over-large last slot. */
module SubjectComments {
  import opened PyText
  import opened Cells

  /** The branches of the remark tables, one per message. */
  datatype Band = Excellent | VeryGood | Good | Average | BelowAverage | Negative | NoMarks

  /** The last slot of a row above 100 is taken to be a total over eleven columns. */
  const LastSlotDivisor: real := 11.0

  /** A Kiswahili mark above 100 is taken to be a total over five papers. */
  const SwahiliDivisor: real := 5.0

  /** `if marks:` and then the thresholds 80, 75, 60, 50 and 0, each closed below. */
  function BandOf(m: real): (b: Band)
    ensures b == NoMarks <==> m == 0.0
    ensures b == Excellent <==> m >= 80.0
    ensures b == VeryGood <==> 75.0 <= m < 80.0
    ensures b == Good <==> 60.0 <= m < 75.0
    ensures b == Average <==> 50.0 <= m < 60.0
    ensures b == BelowAverage <==> 0.0 < m < 50.0
    ensures b == Negative <==> m < 0.0
  {
    if m == 0.0 then NoMarks
    else if m >= 80.0 then Excellent
    else if m >= 75.0 then VeryGood
    else if m >= 60.0 then Good
    else if m >= 50.0 then Average
    else if m >= 0.0 then BelowAverage
    else Negative
  }

  /** The English remark of each band. */
  function EnglishText(b: Band): string {
    match b
    case Excellent => "Excellent, keep it up!"
    case VeryGood => "Very Good, aim higher!"
    case Good => "Good, there's room for improvement."
    case Average => "Average, strive to do better next time."
    case BelowAverage => "Below Average, let's work harder."
    case Negative => "Marks < 0, please double check."
    case NoMarks => "No marks entered, please double check."
  }

  /** The Kiswahili remark of each band. */
  function SwahiliText(b: Band): string {
    match b
    case Excellent => "Bora, endelea na bidii hiyohiyo!"
    case VeryGood => "Vema kabisa, lenga juu zaidi!"
    case Good => "Vizuri, kuna fursa ya kuimarika."
    case Average => "Wastani, jitahidi kufanya vizuri zaidi."
    case BelowAverage => "Chini ya wastani, tufanye kazi kwa bidii."
    case Negative => "Alama zimepungua 0, tafadhali angalia."
    case NoMarks => "Hakuna alama zilizoingizwa, tafadhali angalia."
  }

  /** The general remark of the loop in `generate_subject_comments`. */
  function EnglishComment(m: real): string {
    EnglishText(BandOf(m))
  }

  /** The band `_generate_swahili_comments` picks for a mark: a mark above
      100 is first divided by five. */
  function SwahiliBand(m: real): (b: Band)
    ensures b == NoMarks <==> m == 0.0
    ensures b == Negative <==> m < 0.0
    ensures b == Excellent <==> 80.0 <= m <= 100.0 || m >= 400.0
    ensures b == VeryGood <==> 75.0 <= m < 80.0 || 375.0 <= m < 400.0
    ensures b == Good <==> 60.0 <= m < 75.0 || 300.0 <= m < 375.0
    ensures b == Average <==> 50.0 <= m < 60.0 || 250.0 <= m < 300.0
    ensures b == BelowAverage <==> 0.0 < m < 50.0 || 100.0 < m < 250.0
  {
    BandOf(if m > 100.0 then m / SwahiliDivisor else m)
  }

  /** `_generate_swahili_comments(marks)`. */
  function SwahiliComment(m: real): string {
    SwahiliText(SwahiliBand(m))
  }

  /** `_generate_swahili_comments` gives the Kiswahili remark of band b exactly
      for the marks `SwahiliBand` puts in b. */
  lemma SwahiliCommentOfBand(m: real, b: Band)
    ensures SwahiliComment(m) == SwahiliText(b) <==> SwahiliBand(m) == b
  {
    SwahiliTextInjective(SwahiliBand(m), b);
  }

  /** The general remark of band b is given exactly for the marks `BandOf` puts in b. */
  lemma EnglishCommentOfBand(m: real, b: Band)
    ensures EnglishComment(m) == EnglishText(b) <==> BandOf(m) == b
  {
    EnglishTextInjective(BandOf(m), b);
  }

  /** No two bands share a Kiswahili remark: their lengths and final marks differ. */
  lemma SwahiliTextInjective(a: Band, b: Band)
    ensures SwahiliText(a) == SwahiliText(b) ==> a == b
  {
    SwahiliShape(a);
    SwahiliShape(b);
  }

  /** The length and the final character of each Kiswahili remark. */
  lemma SwahiliShape(b: Band)
    ensures |SwahiliText(b)| == match b
      case Excellent => 32 case VeryGood => 29 case Good => 32 case Average => 39
      case BelowAverage => 41 case Negative => 38 case NoMarks => 46
    ensures SwahiliText(b)[|SwahiliText(b)| - 1] == if b == Excellent || b == VeryGood then '!' else '.'
  {
  }

  /** No two bands share an English remark: their lengths and next-to-last letters differ. */
  lemma EnglishTextInjective(a: Band, b: Band)
    ensures EnglishText(a) == EnglishText(b) ==> a == b
  {
    EnglishShape(a);
    EnglishShape(b);
  }

  /** The length of each English remark, and the next-to-last character of the two of length 22. */
  lemma EnglishShape(b: Band)
    ensures |EnglishText(b)| == match b
      case Excellent => 22 case VeryGood => 22 case Good => 35 case Average => 39
      case BelowAverage => 33 case Negative => 31 case NoMarks => 38
    ensures b == Excellent ==> EnglishText(b)[|EnglishText(b)| - 2] == 'p'
    ensures b == VeryGood ==> EnglishText(b)[|EnglishText(b)| - 2] == 'r'
  {
  }

  /** One step of `format_student_marks`: a blank cell becomes 0, text goes
      through `int()`, and a number is kept as it is. */
  function Coerce(c: Cell): (r: Result<Cell>)
    ensures r.Success? ==> IsNumber(r.value)
    ensures r.Failure? ==> r.error == ValueError
    ensures IsBlank(c) ==> r == Success(Int(0))
    ensures IsNumber(c) ==> r == Success(c)
    ensures c.Text? && !IsBlank(c) ==> (r.Success? <==> ParseInt(c.s).Parsed?)
    ensures c.Text? && !IsBlank(c) && r.Success? ==> r.value == Int(ParseInt(c.s).value)
  {
    if IsBlank(c) then Success(Int(0))
    else if c.Text? then
      match ParseInt(c.s)
      case Parsed(v) => Success(Int(v))
      case NotAnInteger => Failure(ValueError)
    else Success(c)
  }

  /** A text cell whose number sits behind an ASCII separator U+001C..U+001F
      is rejected with `ValueError`, and one padded with the whitespace
      `int()` skips gives its number. */
  lemma CoerceOfPaddedText(pre: string, i: int, post: string, c: char)
    requires forall j :: 0 <= j < |pre| ==> IsIntSpace(pre[j])
    requires forall j :: 0 <= j < |post| ==> IsIntSpace(post[j])
    requires '\U{1C}' <= c <= '\U{1F}'
    ensures Coerce(Text(pre + IntToString(i) + post)) == Success(Int(i))
    ensures Coerce(Text([c] + IntToString(i))) == Failure(ValueError)
  {
    var x := IntToString(i);
    assert x[|x| - 1] != ' ';
    assert (pre + x + post)[|pre|] == x[0];
    ParseIntOfPadded(pre, i, post);
    ParseIntRejectsSeparator(c, x);
  }

  /** `format_student_marks(student_marks)` (comments.py): the coerced row,
      or the `ValueError` of the first cell `int()` rejects. */
  method FormatStudentMarks(cells: seq<Cell>) returns (r: Result<seq<Cell>>)
    ensures r.Failure? <==> exists i :: 0 <= i < |cells| && Coerce(cells[i]).Failure?
    ensures r.Failure? ==> r.error == ValueError
    ensures r.Success? ==> |r.value| == |cells|
    ensures r.Success? ==> forall i :: 0 <= i < |cells| ==> r.value[i] == Coerce(cells[i]).value
  {
    var formatted: seq<Cell> := [];
    for i := 0 to |cells|
      invariant |formatted| == i
      invariant forall j :: 0 <= j < i ==> Coerce(cells[j]).Success? && formatted[j] == Coerce(cells[j]).value
    {
      var c := cells[i];
      var value: Cell;
      if IsBlank(c) {
        value := Int(0);
      } else if c.Text? {
        var parsed := ParseInt(c.s);
        if parsed.NotAnInteger? {
          assert Coerce(cells[i]).Failure?;
          return Failure(ValueError);
        }
        value := Int(parsed.value);
      } else {
        value := c;
      }
      assert Coerce(cells[i]) == Success(value);
      formatted := formatted + [value];
    }
    return Success(formatted);
  }

  /** The numeric marks of a row whose cells all coerce. */
  function Marks(cells: seq<Cell>): (m: seq<real>)
    requires forall i :: 0 <= i < |cells| ==> Coerce(cells[i]).Success?
    ensures |m| == |cells|
  {
    seq(|cells|, i requires 0 <= i < |cells| => NumberValue(Coerce(cells[i]).value))
  }

  /** The mark a slot is judged on: the last slot, when above 100, divided by eleven. */
  function SlotMark(marks: seq<real>, i: nat): real
    requires i < |marks|
  {
    if i == |marks| - 1 && marks[i] > 100.0 then marks[i] / LastSlotDivisor else marks[i]
  }

  /** The remark `generate_subject_comments` gives slot i: the Kiswahili table
      for slot 1, the English table everywhere else. */
  function SubjectRemark(marks: seq<real>, i: nat): string
    requires 2 <= |marks| && i < |marks|
  {
    if i == 1 then SwahiliComment(SlotMark(marks, 1)) else EnglishComment(SlotMark(marks, i))
  }

  /** The loop of `generate_subject_comments` over the coerced row: the
      general remark of each mark, in order. */
  method GeneralComments(marks: seq<Cell>) returns (comments: seq<string>)
    requires forall j :: 0 <= j < |marks| ==> IsNumber(marks[j])
    ensures |comments| == |marks|
    ensures forall j :: 0 <= j < |marks| ==> comments[j] == EnglishComment(NumberValue(marks[j]))
  {
    comments := [];
    for i := 0 to |marks|
      invariant |comments| == i
      invariant forall j :: 0 <= j < i ==> comments[j] == EnglishComment(NumberValue(marks[j]))
    {
      comments := comments + [EnglishComment(NumberValue(marks[i]))];
    }
  }

  /** `generate_subject_comments(marks_list)`: one remark per cell, in order;
      `ValueError` from coercion, `IndexError` for a row of fewer than two cells. */
  method GenerateSubjectComments(cells: seq<Cell>) returns (r: Result<seq<string>>)
    ensures r == Failure(ValueError) <==> exists i :: 0 <= i < |cells| && Coerce(cells[i]).Failure?
    ensures r == Failure(IndexError) <==>
              (forall i :: 0 <= i < |cells| ==> Coerce(cells[i]).Success?) && |cells| < 2
    ensures r.Success? ==> |cells| >= 2 && |r.value| == |cells|
    ensures r.Success? ==> forall i :: 0 <= i < |cells| ==> r.value[i] == SubjectRemark(Marks(cells), i)
  {
    var formatted := FormatStudentMarks(cells);
    if formatted.Failure? {
      return Failure(ValueError);
    }
    var marks := formatted.value;
    ghost var expected := Marks(cells);
    if |marks| == 0 {
      return Failure(IndexError);
    }
    var n := |marks|;
    if NumberValue(marks[n - 1]) > 100.0 {
      marks := marks[n - 1 := Float(NumberValue(marks[n - 1]) / LastSlotDivisor)];
    }
    assert forall j :: 0 <= j < n ==> IsNumber(marks[j]) && NumberValue(marks[j]) == SlotMark(expected, j);

    var comments := GeneralComments(marks);
    assert forall j :: 0 <= j < n ==> comments[j] == EnglishComment(SlotMark(expected, j));

    if n < 2 {
      return Failure(IndexError);
    }
    comments := comments[1 := SwahiliComment(NumberValue(marks[1]))];
    return Success(comments);
  }

  /** No slot is rejected for being out of range: a mark above 100 in a slot
      that is neither the Kiswahili one nor the last is simply "Excellent". */
  lemma OutOfRangeIsExcellent(marks: seq<real>, i: nat)
    requires 2 <= |marks| && i != 1 && i < |marks| - 1 && marks[i] > 100.0
    ensures SubjectRemark(marks, i) == "Excellent, keep it up!"
  {
  }

  /** The English band of a last slot holding the integer m (a row of at
      least three slots): the rescale moves every threshold above 100 by a
      factor of eleven. */
  lemma LastSlotBands(marks: seq<real>, m: int)
    requires 3 <= |marks| && marks[|marks| - 1] == m as real
    ensures var b := BandOf(SlotMark(marks, |marks| - 1));
      && SubjectRemark(marks, |marks| - 1) == EnglishText(b)
      && (b == Excellent <==> 80 <= m <= 100 || m >= 880)
      && (b == VeryGood <==> 75 <= m < 80 || 825 <= m < 880)
      && (b == Good <==> 60 <= m < 75 || 660 <= m < 825)
      && (b == Average <==> 50 <= m < 60 || 550 <= m < 660)
      && (b == BelowAverage <==> 0 < m < 50 || 100 < m < 550)
      && (b == NoMarks <==> m == 0)
      && (b == Negative <==> m < 0)
  {
  }

  /** In a row of exactly two cells slot 1 is also the last slot: it is
      divided by eleven first and, if still above 100, by five as well. */
  lemma TwoCellSwahiliBands(marks: seq<real>, m: int)
    requires |marks| == 2 && marks[1] == m as real
    ensures var b := SwahiliBand(SlotMark(marks, 1));
      && SubjectRemark(marks, 1) == SwahiliText(b)
      && (b == Excellent <==> 80 <= m <= 100 || 880 <= m <= 1100 || m >= 4400)
      && (b == VeryGood <==> 75 <= m < 80 || 825 <= m < 880 || 4125 <= m < 4400)
      && (b == Good <==> 60 <= m < 75 || 660 <= m < 825 || 3300 <= m < 4125)
      && (b == Average <==> 50 <= m < 60 || 550 <= m < 660 || 2750 <= m < 3300)
      && (b == BelowAverage <==> 0 < m < 50 || 100 < m < 550 || 1100 < m < 2750)
      && (b == NoMarks <==> m == 0)
      && (b == Negative <==> m < 0)
  {
  }
}
