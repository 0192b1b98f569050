/**
 * The comma-joined string fields of the grade ledger: Python's `str.split(",")`,
 * `",".join(...)`, the "set when empty, else append" update used by
 * `add_course`/`add_grade`/`add_marks`, and `in` as a substring test.
 */
module Text {

  const Comma: char := ','

  /** `s.split(",")`: never empty, `""` gives `[""]`, and no piece holds a comma. */
  function Split(s: string): (r: seq<string>)
    ensures |r| >= 1
    ensures forall i :: 0 <= i < |r| ==> Comma !in r[i]
    decreases |s|
  {
    if |s| == 0 then [""]
    else
      var rest := Split(s[1..]);
      if s[0] == Comma then [""] + rest
      else [[s[0]] + rest[0]] + rest[1..]
  }

  /** Joining the pieces of a split gives the string back. */
  lemma {:induction false} JoinSplit(s: string)
    ensures Join(Split(s)) == s
    decreases |s|
  {
    if |s| > 0 {
      var rest := Split(s[1..]);
      JoinSplit(s[1..]);
      if s[0] == Comma {
        assert ([""] + rest)[1..] == rest;
      } else {
        var r := [[s[0]] + rest[0]] + rest[1..];
        assert |rest| > 1 ==> r[1..] == rest[1..] && Join(rest) == rest[0] + [Comma] + Join(rest[1..]);
      }
    }
  }

  /** `",".join(parts)`. */
  function Join(parts: seq<string>): string
  {
    if |parts| == 0 then ""
    else if |parts| == 1 then parts[0]
    else parts[0] + [Comma] + Join(parts[1..])
  }

  /** `if not field: field = item else: field = field + "," + item` */
  function Appended(field: string, item: string): (r: string)
    ensures Split(r) == if field == "" then Split(item) else Split(field) + Split(item)
  {
    if field == "" then item
    else
      SplitAround(field, item);
      field + [Comma] + item
  }

  /**
   * Appending a comma-free item adds exactly that item at the end of the
   * list, and an empty field becomes the one-item list.
   */
  lemma AppendedLists(field: string, item: string)
    requires Comma !in item
    ensures Split(Appended(field, item)) == (if field == "" then [] else Split(field)) + [item]
  {
    SplitPlain(item);
  }

  /** Splitting at a joining comma splits each side on its own. */
  lemma {:induction false} SplitAround(a: string, b: string)
    ensures Split(a + [Comma] + b) == Split(a) + Split(b)
    decreases |a|
  {
    if |a| == 0 {
      assert a + [Comma] + b == [Comma] + b;
      assert ([Comma] + b)[1..] == b;
    } else {
      var s := a + [Comma] + b;
      assert s[0] == a[0] && s[1..] == a[1..] + [Comma] + b;
      SplitAround(a[1..], b);
    }
  }

  /** Splitting a join of comma-free pieces gives the pieces back. */
  lemma {:induction false} SplitJoin(parts: seq<string>)
    requires |parts| >= 1
    requires forall i :: 0 <= i < |parts| ==> Comma !in parts[i]
    ensures Split(Join(parts)) == parts
    decreases |parts|
  {
    if |parts| == 1 {
      SplitPlain(parts[0]);
    } else {
      SplitJoin(parts[1..]);
      SplitAround(parts[0], Join(parts[1..]));
      SplitPlain(parts[0]);
    }
  }

  /** A comma-free string splits into itself. */
  lemma {:induction false} SplitPlain(s: string)
    requires Comma !in s
    ensures Split(s) == [s]
    decreases |s|
  {
    if |s| > 0 {
      assert Comma !in s[1..] by {
        forall i | 0 <= i < |s[1..]| ensures s[1..][i] != Comma { assert s[1..][i] == s[i + 1]; }
      }
      SplitPlain(s[1..]);
      assert [s[0]] + s[1..] == s;
    }
  }

  /** Joining one more piece onto a non-empty list. */
  lemma {:induction false} JoinSnoc(parts: seq<string>, x: string)
    requires |parts| >= 1
    ensures Join(parts + [x]) == Join(parts) + [Comma] + x
    decreases |parts|
  {
    if |parts| == 1 {
      assert (parts + [x])[1..] == [x];
    } else {
      assert (parts + [x])[1..] == parts[1..] + [x];
      JoinSnoc(parts[1..], x);
    }
  }

  /** The field built by appending `xs` one by one, starting from `""` (a left fold of Appended). */
  function Accumulated(xs: seq<string>): string
    decreases |xs|
  {
    if |xs| == 0 then "" else Appended(Accumulated(xs[..|xs| - 1]), xs[|xs| - 1])
  }

  /** `xs` without its leading run of empty strings. */
  function DropLeadingEmpty(xs: seq<string>): (r: seq<string>)
    ensures r == [] || r[0] != ""
    ensures |r| <= |xs| && r == xs[|xs| - |r|..]
    decreases |xs|
  {
    if |xs| == 0 then []
    else if xs[0] == "" then DropLeadingEmpty(xs[1..])
    else xs
  }

  /**
   * Appending item by item is a join of the items, except that every empty
   * item met while the field is still empty leaves no trace.
   */
  lemma {:induction false} AccumulatedIsJoin(xs: seq<string>)
    ensures Accumulated(xs) == Join(DropLeadingEmpty(xs))
    decreases |xs|
  {
    if |xs| > 0 {
      var p, x := xs[..|xs| - 1], xs[|xs| - 1];
      assert xs == p + [x];
      AccumulatedIsJoin(p);
      DropLeadingEmptySnoc(p, x);
      var q := DropLeadingEmpty(p);
      if q != [] {
        JoinSnoc(q, x);
        assert Join(q) != "" by { JoinHead(q); }
      }
    }
  }

  lemma {:induction false} JoinHead(q: seq<string>)
    requires |q| >= 1 && q[0] != ""
    ensures Join(q) != ""
  {
    if |q| > 1 {
      assert |Join(q)| >= |q[0]|;
    }
  }

  lemma {:induction false} DropLeadingEmptySnoc(p: seq<string>, x: string)
    ensures DropLeadingEmpty(p + [x]) ==
      if DropLeadingEmpty(p) == [] then (if x == "" then [] else [x]) else DropLeadingEmpty(p) + [x]
    decreases |p|
  {
    if |p| > 0 {
      assert (p + [x])[1..] == p[1..] + [x];
      DropLeadingEmptySnoc(p[1..], x);
    } else {
      assert p + [x] == [x];
      assert [x][1..] == [];
    }
  }

  /** When the first item is non-empty, appending item by item is exactly the join. */
  lemma AccumulatedLeadingNonEmpty(xs: seq<string>)
    requires |xs| >= 1 && xs[0] != ""
    ensures Accumulated(xs) == Join(xs)
  {
    AccumulatedIsJoin(xs);
  }

  /** When every item is empty, appending item by item leaves the field empty. */
  lemma {:induction false} AccumulatedAllEmpty(xs: seq<string>)
    requires forall i :: 0 <= i < |xs| ==> xs[i] == ""
    ensures Accumulated(xs) == ""
    decreases |xs|
  {
    if |xs| > 0 {
      AccumulatedAllEmpty(xs[..|xs| - 1]);
    }
  }

  /** `k in s` on strings: `s` starts with `k`. */
  predicate StartsWith(s: string, k: string)
  {
    |k| <= |s| && s[..|k|] == k
  }

  /** `k in s` on strings: `k` occurs in `s` as a contiguous substring. */
  predicate Contains(s: string, k: string)
    decreases |s|
  {
    StartsWith(s, k) || (|s| > 0 && Contains(s[1..], k))
  }

  /** `k` occurs in `s` starting at index `i`. */
  predicate OccursAt(s: string, k: string, i: int)
  {
    0 <= i <= |s| - |k| && s[i..i + |k|] == k
  }

  /** Contains agrees with "`k` occurs at some index of `s`", in both directions. */
  lemma {:induction false} ContainsIffOccurs(s: string, k: string)
    ensures Contains(s, k) <==> exists i :: OccursAt(s, k, i)
    decreases |s|
  {
    if StartsWith(s, k) {
      assert OccursAt(s, k, 0);
    } else if |s| > 0 {
      ContainsIffOccurs(s[1..], k);
      if exists i :: OccursAt(s, k, i) {
        var i :| OccursAt(s, k, i);
        assert i > 0;
        assert s[1..][i - 1..i - 1 + |k|] == s[i..i + |k|];
        assert OccursAt(s[1..], k, i - 1);
      }
      if Contains(s[1..], k) {
        var i :| OccursAt(s[1..], k, i);
        assert s[i + 1..i + 1 + |k|] == s[1..][i..i + |k|];
        assert OccursAt(s, k, i + 1);
      }
    } else {
      assert |k| > 0;
    }
  }
}
