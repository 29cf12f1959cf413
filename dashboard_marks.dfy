/** The marks half of the student dashboard script (dashboard.js): the
    statistics under each subject's three IA fields, the range check before
    a mark is posted to update_marks.php, and the debounce that delays the
    post while the student is typing. */
module DashboardMarks {
  import opened Common
  import Marks

  /** The class of the target line. */
  datatype Severity = Info | Success | Warning

  /** The target line's text. */
  datatype Target =
    | EnterMarks                      // "Enter marks to see statistics"
    | AverageAchieved                 // "✓ Average achieved!"
    | AverageNotAchieved(mean: real)  // "Average not achieved (<mean to 2 places>/20)"
    | NotAchievable                   // "Target of 20 avg not achievable"
    | AlreadySafe                     // "✓ Already safe for 20+ average!"
    | MinInBoth(need: real)           // "Min <need to 1 place> in IA-2 & IA-3 for 20 avg"
    | MinInLast(need: real)           // "Min <need to 1 place> in IA-3 for 20 avg"

  /** The card's summary: the average shown (None for "--"), the target
      line and its class. */
  datatype Stats = Stats(average: Option<real>, target: Target, severity: Severity)

  const TargetAverage: real := 20.0
  const TargetTotal: real := 60.0

  /** Number.prototype.toFixed: rounding half away from zero, the sign kept. */
  function Fixed2(x: real): real {
    if x >= 0.0 then Round2(x) else -Round2(-x)
  }

  function Fixed1(x: real): real {
    if x >= 0.0 then Round1(x) else -Round1(-x)
  }

  /** `[ia1, ia2, ia3].filter(m => m !== null)` */
  function Entered(ia1: Option<real>, ia2: Option<real>, ia3: Option<real>): (m: seq<real>)
    ensures |m| <= 3
  {
    (if ia1.Some? then [ia1.value] else [])
    + (if ia2.Some? then [ia2.value] else [])
    + (if ia3.Some? then [ia3.value] else [])
  }

  function Sum(m: seq<real>): real {
    if |m| == 0 then 0.0 else Sum(m[..|m| - 1]) + m[|m| - 1]
  }

  /** calculateMarksStats: nothing entered asks for marks; three marks
      compare their mean with 20; one or two marks compare the score still
      needed in each remaining IA, (60 - sum) / (3 - count), with 50 and 0. */
  function MarksStats(ia1: Option<real>, ia2: Option<real>, ia3: Option<real>): (r: Stats)
    ensures var m := Entered(ia1, ia2, ia3);
            (|m| == 0 <==> r.average.None?)
            && (|m| == 0 ==> r.target == EnterMarks && r.severity == Info)
            && (|m| > 0 ==> r.average == Some(Fixed2(Sum(m) / |m| as real)))
            && (|m| == 3 ==> (r.severity == Success <==> Sum(m) / 3.0 >= TargetAverage))
            && (|m| == 3 ==> r.target == (if Sum(m) / 3.0 >= TargetAverage then AverageAchieved
                                          else AverageNotAchieved(Fixed2(Sum(m) / 3.0))))
            && (0 < |m| < 3 ==>
                  var need := (TargetTotal - Sum(m)) / (3 - |m|) as real;
                  (need > 50.0 ==> r.target == NotAchievable && r.severity == Warning)
                  && (need <= 0.0 ==> r.target == AlreadySafe && r.severity == Success)
                  && (0.0 < need <= 50.0 ==>
                        r.severity == Info
                        && r.target == (if |m| == 1 then MinInBoth(Round1(need)) else MinInLast(Round1(need)))))
  {
    var marks := Entered(ia1, ia2, ia3);
    if |marks| == 0 then Stats(None, EnterMarks, Info)
    else
      var total := Sum(marks);
      var average := total / |marks| as real;
      var remaining := 3 - |marks|;
      var result :=
        if remaining == 0 then
          if average >= TargetAverage then (AverageAchieved, Success)
          else (AverageNotAchieved(Fixed2(average)), Warning)
        else
          var minPerRemaining := (TargetTotal - total) / remaining as real;
          if minPerRemaining > 50.0 then (NotAchievable, Warning)
          else if minPerRemaining <= 0.0 then (AlreadySafe, Success)
          else if remaining == 2 then (MinInBoth(Fixed1(minPerRemaining)), Info)
          else (MinInLast(Fixed1(minPerRemaining)), Info);
      Stats(Some(Fixed2(average)), result.0, result.1)
  }

  /** What the target line promises about the IAs still to come: "already
      safe" means zeros in them keep the average at 20 or more; "not
      achievable" means 50 in each still falls short; the "min" figure
      (before rounding) in each lands the average exactly on 20. With all
      three entered, success means a total of at least 60. */
  lemma TargetMeaning(ia1: Option<real>, ia2: Option<real>, ia3: Option<real>)
    ensures var m := Entered(ia1, ia2, ia3);
            var r := MarksStats(ia1, ia2, ia3);
            var left := (3 - |m|) as real;
            (0 < |m| < 3 && r.target == AlreadySafe ==> Sum(m) / 3.0 >= TargetAverage)
            && (0 < |m| < 3 && r.target == NotAchievable ==> (Sum(m) + 50.0 * left) / 3.0 < TargetAverage)
            && (0 < |m| < 3 && r.severity == Info ==>
                  var need := (TargetTotal - Sum(m)) / left;
                  0.0 < need <= 50.0 && (Sum(m) + need * left) / 3.0 == TargetAverage)
            && (|m| == 3 ==> (r.severity == Success <==> Sum(m) >= TargetTotal))
  {
    var m := Entered(ia1, ia2, ia3);
    if 0 < |m| < 3 {
      NeedMeaning(Sum(m), |m|);
    }
  }

  /** The arithmetic behind TargetMeaning, for a sum over one or two IAs. */
  lemma NeedMeaning(total: real, count: nat)
    requires 0 < count < 3
    ensures var left := (3 - count) as real;
            var need := (TargetTotal - total) / left;
            (need <= 0.0 ==> total / 3.0 >= TargetAverage)
            && (need > 50.0 ==> (total + 50.0 * left) / 3.0 < TargetAverage)
            && (total + need * left) / 3.0 == TargetAverage
  {
    if count == 1 {
      assert (TargetTotal - total) / 2.0 * 2.0 == TargetTotal - total;
    } else {
      assert (TargetTotal - total) / 1.0 == TargetTotal - total;
    }
  }

  /** The message depends only on how many IAs are filled, not which: one
      mark alone always asks for "IA-2 & IA-3", two always for "IA-3". */
  lemma SlotsDoNotMatter(a: real, b: real)
    ensures MarksStats(Some(a), None, None) == MarksStats(None, Some(a), None) == MarksStats(None, None, Some(a))
    ensures MarksStats(Some(a), Some(b), None) == MarksStats(Some(a), None, Some(b)) == MarksStats(None, Some(a), Some(b))
  {
    assert Entered(Some(a), None, None) == Entered(None, Some(a), None) == Entered(None, None, Some(a)) == [a];
    assert Entered(Some(a), Some(b), None) == Entered(Some(a), None, Some(b)) == Entered(None, Some(a), Some(b)) == [a, b];
  }

  // ---------------------------------------------------------------------
  // updateMarks' range check
  // ---------------------------------------------------------------------

  /** The value of an `<input type="number">`: empty, or the number typed. */
  datatype Typed = Empty | Number(v: real)

  const RangeAlert := "Marks should be between 0 and 50"

  /** What update_marks.php receives as marks_obtained for the field's value. */
  function Posted(t: Typed): Marks.MarkArg {
    match t
    case Empty => Marks.Blank
    case Number(v) => Marks.Value(v)
  }

  /** One IA field of a marks card. */
  class MarkField {
    const subjectId: int
    const ia: int
    var value: Typed

    constructor (subjectId: int, ia: int, value: Typed)
      ensures this.subjectId == subjectId && this.ia == ia && this.value == value
    {
      this.subjectId := subjectId;
      this.ia := ia;
      this.value := value;
    }
  }

  /** updateMarks up to the fetch: a number outside 0..50 raises the alert,
      clears the field and posts nothing; anything else, the empty value
      included, is posted as typed. */
  method UpdateMarks(field: MarkField) returns (post: Option<Marks.MarkArg>, alert: Option<string>)
    modifies field
    ensures old(field.value).Number? && (old(field.value).v < 0.0 || old(field.value).v > 50.0) ==>
              post.None? && alert == Some(RangeAlert) && field.value == Empty
    ensures post.Some? <==> !(old(field.value).Number? && (old(field.value).v < 0.0 || old(field.value).v > 50.0))
    ensures post.Some? ==> post.value == Posted(field.value) && alert.None? && field.value == old(field.value)
  {
    var v := field.value;
    if v.Number? && (v.v < 0.0 || v.v > 50.0) {
      field.value := Empty;
      return None, Some(RangeAlert);
    }
    return Some(Posted(v)), None;
  }

  /** The page and update_marks.php agree on the range: the page posts a
      value iff the server's range check lets it through. */
  lemma RangeChecksAgree(t: Typed)
    ensures !(t.Number? && (t.v < 0.0 || t.v > 50.0)) <==>
            (Posted(t).Value? ==> 0.0 <= Posted(t).v <= Marks.MaxMarks)
  {
  }

  // ---------------------------------------------------------------------
  // debounce(updateMarks, 800)
  // ---------------------------------------------------------------------

  /** The closure debounce returns: one timeout slot holding the call that
      will run when the delay passes, and the calls that have run. */
  class Debouncer<T> {
    var pending: Option<T>
    var ran: seq<T>

    constructor ()
      ensures pending.None? && ran == []
    {
      pending := None;
      ran := [];
    }

    /** A call clears the slot's timeout and sets a new one: the previous
        pending call is dropped, whatever it was. */
    method Call(args: T)
      modifies this
      ensures pending == Some(args) && ran == old(ran)
    {
      pending := Some(args);
    }

    /** The delay passes: the pending call runs once and the slot is empty. */
    method Elapse()
      modifies this
      ensures pending.None?
      ensures ran == old(ran) + (if old(pending).Some? then [old(pending).value] else [])
    {
      if pending.Some? {
        ran := ran + [pending.value];
      }
      pending := None;
    }
  }
}
