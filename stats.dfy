/**
 * The numbers behind `course_mark_stats`: `int(...)` on a marks string, the
 * list of a course's non-empty marks as numbers, and the minimum, maximum,
 * total and count over that list.
 */
module MarkStats {
  import opened Outcomes

  predicate IsDigit(ch: char)
  {
    '0' <= ch <= '9'
  }

  predicate AllDigits(s: string)
  {
    forall i :: 0 <= i < |s| ==> IsDigit(s[i])
  }

  /** The value of a run of decimal digits, most significant first. */
  function DigitsValue(s: string): nat
    requires AllDigits(s)
    decreases |s|
  {
    if |s| == 0 then 0 else DigitsValue(s[..|s| - 1]) * 10 + (s[|s| - 1] as int - '0' as int)
  }

  /**
   * `int(s)`: an optional sign followed by at least one decimal digit gives
   * its value; anything else (the empty string included) raises ValueError.
   */
  function ParseInt(s: string): (r: Result<int>)
    ensures r.Err? ==> r.error == ValueError
    ensures r.Ok? <==>
      || (|s| >= 1 && AllDigits(s))
      || (|s| >= 2 && (s[0] == '-' || s[0] == '+') && AllDigits(s[1..]))
    ensures r.Ok? && |s| >= 1 && s[0] == '-' ==> r.value <= 0
    ensures r.Ok? && |s| >= 1 && s[0] != '-' ==> r.value >= 0
  {
    if |s| >= 1 && (s[0] == '-' || s[0] == '+') then
      var ds := s[1..];
      if |ds| >= 1 && AllDigits(ds) then
        var v: int := DigitsValue(ds);
        Ok(if s[0] == '-' then -v else v)
      else
        Err(ValueError)
    else if |s| >= 1 && AllDigits(s) then Ok(DigitsValue(s))
    else Err(ValueError)
  }

  /** The digit character for `0 <= d < 10`. */
  function Digit(d: nat): (ch: char)
    requires d < 10
    ensures IsDigit(ch) && ch as int - '0' as int == d
  {
    ('0' as int + d) as char
  }

  /** `str(n)` for a natural number: its decimal digits, no leading zero. */
  function ShowNat(n: nat): (s: string)
    ensures |s| >= 1 && AllDigits(s)
    decreases n
  {
    if n < 10 then [Digit(n)] else ShowNat(n / 10) + [Digit(n % 10)]
  }

  /** `str(n)`: a minus sign before the digits of a negative number. */
  function Show(n: int): string
  {
    if n < 0 then "-" + ShowNat(-n) else ShowNat(n)
  }

  lemma {:induction false} DigitsValueShowNat(n: nat)
    ensures DigitsValue(ShowNat(n)) == n
    decreases n
  {
    if n >= 10 {
      var s := ShowNat(n);
      assert s[..|s| - 1] == ShowNat(n / 10);
      DigitsValueShowNat(n / 10);
    }
  }

  /** `int(str(n)) == n` for every integer. */
  lemma ParseShow(n: int)
    ensures ParseInt(Show(n)) == Ok(n)
  {
    var s := Show(n);
    if n < 0 {
      var ds := ShowNat(-n);
      assert s == "-" + ds;
      assert s[0] == '-' && s[1..] == ds;
      DigitsValueShowNat(-n);
      assert ParseInt(s) == Ok(n);
    } else {
      assert s == ShowNat(n);
      assert IsDigit(s[0]);
      DigitsValueShowNat(n);
      assert ParseInt(s) == Ok(DigitsValue(s));
    }
  }

  /**
   * `[int(m) for m in ms if m]`: empty marks are skipped, and the first
   * non-empty one that is not a number raises ValueError.
   */
  function ParseMarks(ms: seq<string>): (r: Result<seq<int>>)
    ensures r.Err? <==> exists i :: 0 <= i < |ms| && ms[i] != "" && ParseInt(ms[i]).Err?
    ensures r.Err? ==> r.error == ValueError
    ensures r.Ok? ==> |r.value| <= |ms|
    ensures r.Ok? ==> (r.value == [] <==> forall i :: 0 <= i < |ms| ==> ms[i] == "")
    decreases |ms|
  {
    if |ms| == 0 then Ok([])
    else
      var p, m := ms[..|ms| - 1], ms[|ms| - 1];
      assert forall i :: 0 <= i < |p| ==> p[i] == ms[i];
      match ParseMarks(p)
      case Err(e) => Err(e)
      case Ok(xs) =>
        if m == "" then Ok(xs)
        else
          match ParseInt(m)
          case Err(e) => Err(e)
          case Ok(x) => Ok(xs + [x])
  }

  /** Reading one more mark: an empty one is skipped, a number is appended, anything else fails the whole list. */
  lemma ParseMarksStep(ms: seq<string>, i: nat)
    requires i < |ms| && ParseMarks(ms[..i]).Ok?
    ensures ms[i] == "" ==> ParseMarks(ms[..i + 1]) == ParseMarks(ms[..i])
    ensures ms[i] != "" && ParseInt(ms[i]).Ok? ==>
      ParseMarks(ms[..i + 1]) == Ok(ParseMarks(ms[..i]).value + [ParseInt(ms[i]).value])
    ensures ms[i] != "" && ParseInt(ms[i]).Err? ==> ParseMarks(ms).Err?
  {
    assert ms[..i + 1][..i] == ms[..i];
  }

  /** The marks strings `str(x)` of the numbers `xs`, in order. */
  function ShowAll(xs: seq<int>): (ms: seq<string>)
    ensures |ms| == |xs| && forall i :: 0 <= i < |xs| ==> ms[i] == Show(xs[i])
  {
    seq(|xs|, i requires 0 <= i < |xs| => Show(xs[i]))
  }

  /** Marks written as `str(x)` read back as the same numbers, none skipped. */
  lemma {:induction false} ParseMarksShowAll(xs: seq<int>)
    ensures ParseMarks(ShowAll(xs)) == Ok(xs)
    decreases |xs|
  {
    if |xs| > 0 {
      var ms := ShowAll(xs);
      var p, x := xs[..|xs| - 1], xs[|xs| - 1];
      assert ms[..|ms| - 1] == ShowAll(p);
      assert ParseMarks(ShowAll(p)) == Ok(p) by {
        ParseMarksShowAll(p);
      }
      assert ParseInt(ms[|ms| - 1]) == Ok(x) by {
        ParseShow(x);
      }
      assert ms[|ms| - 1] != "" by {
        if x >= 0 {
          assert |ShowNat(x)| >= 1;
        }
      }
      assert ParseMarks(ms) == Ok(p + [x]);
      assert p + [x] == xs;
    }
  }

  /** `min(xs)`. */
  function Min(xs: seq<int>): (m: int)
    requires |xs| > 0
    ensures m in xs && forall x :: x in xs ==> m <= x
    decreases |xs|
  {
    if |xs| == 1 then xs[0]
    else
      var p := xs[..|xs| - 1];
      assert xs == p + [xs[|xs| - 1]];
      var m := Min(p);
      if xs[|xs| - 1] < m then xs[|xs| - 1] else m
  }

  /** `max(xs)`. */
  function Max(xs: seq<int>): (m: int)
    requires |xs| > 0
    ensures m in xs && forall x :: x in xs ==> x <= m
    decreases |xs|
  {
    if |xs| == 1 then xs[0]
    else
      var p := xs[..|xs| - 1];
      assert xs == p + [xs[|xs| - 1]];
      var m := Max(p);
      if xs[|xs| - 1] > m then xs[|xs| - 1] else m
  }

  /** `sum(xs)`. */
  function Sum(xs: seq<int>): int
    decreases |xs|
  {
    if |xs| == 0 then 0 else Sum(xs[..|xs| - 1]) + xs[|xs| - 1]
  }

  /** Every number lies between the list's minimum and maximum, so the sum does too, `len(xs)` times over. */
  lemma {:induction false} SumBounds(xs: seq<int>, lo: int, hi: int)
    requires forall x :: x in xs ==> lo <= x <= hi
    ensures |xs| * lo <= Sum(xs) <= |xs| * hi
    decreases |xs|
  {
    if |xs| > 0 {
      var p, x := xs[..|xs| - 1], xs[|xs| - 1];
      assert forall y :: y in p ==> y in xs;
      SumBounds(p, lo, hi);
      assert lo <= x <= hi by {
        assert x in xs;
      }
      assert Sum(xs) == Sum(p) + x;
      assert |xs| * lo == |p| * lo + lo && |xs| * hi == |p| * hi + hi by {
        assert |xs| == |p| + 1;
      }
    }
  }

  /**
   * What `course_mark_stats` computes, with the average as `total / count`
   * and the median left out.
   */
  datatype Stats = Stats(min: int, max: int, total: int, count: nat)

  /**
   * The statistics over the marks `ms` of a course's students: all zero when
   * there are no students; otherwise ValueError when a mark is not a number
   * or when no student has marks (`min([])`).
   */
  function CourseStats(ms: seq<string>): (r: Result<Stats>)
    ensures |ms| == 0 ==> r == Ok(Stats(0, 0, 0, 0))
    ensures r.Err? ==> r.error == ValueError
    ensures |ms| > 0 ==> (r.Ok? <==> ParseMarks(ms).Ok? && exists i :: 0 <= i < |ms| && ms[i] != "")
    ensures |ms| > 0 && r.Ok? ==>
      var xs := ParseMarks(ms).value;
      && r.value.count == |xs| > 0
      && r.value.min in xs && r.value.max in xs
      && (forall x :: x in xs ==> r.value.min <= x <= r.value.max)
      && r.value.total == Sum(xs)
      && r.value.count * r.value.min <= r.value.total <= r.value.count * r.value.max
  {
    match ParseMarks(ms)
    case Err(e) => Err(e)
    case Ok(xs) =>
      if |ms| == 0 then Ok(Stats(0, 0, 0, 0))
      else if xs == [] then Err(ValueError)
      else
        SumBounds(xs, Min(xs), Max(xs));
        Ok(Stats(Min(xs), Max(xs), Sum(xs), |xs|))
  }
}
