/**
 * Inserting a fixed argument right after every marked position of an
 * argument list: the shape shared by the ipset pass and the first loop of the
 * wssize pass, which both copy their input and append one extra argument
 * after each argument that qualifies. The marks are computed from the whole
 * input first, so the lemmas here are about positions only.
 */
module Insertion {

  /** Number of set marks. */
  function Count(marks: seq<bool>): nat
  {
    if marks == [] then 0 else Count(marks[..|marks| - 1]) + (if marks[|marks| - 1] then 1 else 0)
  }

  /** `xs` with `ins` inserted right after every position whose mark is set. */
  function InsertAfterMarked<T>(xs: seq<T>, marks: seq<bool>, ins: T): (r: seq<T>)
    requires |marks| == |xs|
    ensures |r| == |xs| + Count(marks)
  {
    if xs == [] then []
    else
      InsertAfterMarked(xs[..|xs| - 1], marks[..|xs| - 1], ins) + [xs[|xs| - 1]] +
      (if marks[|xs| - 1] then [ins] else [])
  }

  /** Which positions of InsertAfterMarked's output hold an inserted argument. */
  function InsertedMarks(marks: seq<bool>): (r: seq<bool>)
    ensures |r| == |marks| + Count(marks)
  {
    if marks == [] then []
    else InsertedMarks(marks[..|marks| - 1]) + [false] + (if marks[|marks| - 1] then [true] else [])
  }

  /** Where input position `j` lands in the output. */
  function Pos(marks: seq<bool>, j: nat): nat
    requires j <= |marks|
  {
    j + Count(marks[..j])
  }

  lemma PosStep(marks: seq<bool>, j: nat)
    requires j < |marks|
    ensures Pos(marks, j + 1) == Pos(marks, j) + 1 + (if marks[j] then 1 else 0)
  {
    assert marks[..j + 1][..j] == marks[..j];
  }

  /** Input position `j` lands at Pos(j), not marked as inserted. */
  lemma {:induction false} Lands<T>(xs: seq<T>, marks: seq<bool>, ins: T, j: nat)
    requires |marks| == |xs| && j < |xs|
    ensures Pos(marks, j) < |InsertAfterMarked(xs, marks, ins)|
    ensures InsertAfterMarked(xs, marks, ins)[Pos(marks, j)] == xs[j]
    ensures !InsertedMarks(marks)[Pos(marks, j)]
  {
    var n := |xs| - 1;
    if j < n {
      Lands(xs[..n], marks[..n], ins, j);
      assert marks[..n][..j] == marks[..j];
    } else {
      assert marks[..j] == marks[..n];
    }
  }

  /** When the mark of input position `j` is set, the inserted argument stands right after it. */
  lemma InsertedAfter<T>(xs: seq<T>, marks: seq<bool>, ins: T, j: nat)
    requires |marks| == |xs| && j < |xs| && marks[j]
    ensures Pos(marks, j) + 1 < |InsertAfterMarked(xs, marks, ins)|
    ensures InsertAfterMarked(xs, marks, ins)[Pos(marks, j) + 1] == ins
    ensures InsertedMarks(marks)[Pos(marks, j) + 1]
  {
    InsertionFollows(xs, marks, ins, j);
    InsertedMarkFollows(marks, j);
  }

  lemma {:induction false} InsertionFollows<T>(xs: seq<T>, marks: seq<bool>, ins: T, j: nat)
    requires |marks| == |xs| && j < |xs| && marks[j]
    ensures Pos(marks, j) + 1 < |InsertAfterMarked(xs, marks, ins)|
    ensures InsertAfterMarked(xs, marks, ins)[Pos(marks, j) + 1] == ins
  {
    var n := |xs| - 1;
    if j < n {
      InsertionFollows(xs[..n], marks[..n], ins, j);
      assert marks[..n][..j] == marks[..j];
    } else {
      assert marks[..j] == marks[..n];
    }
  }

  lemma {:induction false} InsertedMarkFollows(marks: seq<bool>, j: nat)
    requires j < |marks| && marks[j]
    ensures Pos(marks, j) + 1 < |InsertedMarks(marks)|
    ensures InsertedMarks(marks)[Pos(marks, j) + 1]
  {
    var n := |marks| - 1;
    if j < n {
      InsertedMarkFollows(marks[..n], j);
      assert marks[..n][..j] == marks[..j];
    } else {
      assert marks[..j] == marks[..n];
    }
  }

  /** Input position `j` lands at Pos(j), followed by the insertion when its mark is set. */
  lemma KeepsAndInserts<T>(xs: seq<T>, marks: seq<bool>, ins: T, j: nat)
    requires |marks| == |xs| && j < |xs|
    ensures Pos(marks, j) < |InsertAfterMarked(xs, marks, ins)|
    ensures InsertAfterMarked(xs, marks, ins)[Pos(marks, j)] == xs[j]
    ensures marks[j] ==>
      Pos(marks, j) + 1 < |InsertAfterMarked(xs, marks, ins)| &&
      InsertAfterMarked(xs, marks, ins)[Pos(marks, j) + 1] == ins
  {
    Lands(xs, marks, ins, j);
    if marks[j] {
      InsertedAfter(xs, marks, ins, j);
    }
  }

  /**
   * What stands at output position `k` and right after it: the insertion
   * after marked input `j`; or input `j` unmarked, followed by input `j + 1`
   * when there is one; or input `j` marked, followed by the insertion.
   */
  lemma Neighbour<T>(xs: seq<T>, marks: seq<bool>, ins: T, k: nat) returns (j: nat)
    requires |marks| == |xs| && k < |InsertAfterMarked(xs, marks, ins)|
    ensures j < |xs|
    ensures var r := InsertAfterMarked(xs, marks, ins);
      (0 < k && r[k] == ins && marks[j] && r[k - 1] == xs[j]) ||
      (r[k] == xs[j] && !marks[j] && (j + 1 < |xs| ==> k + 1 < |r| && r[k + 1] == xs[j + 1])) ||
      (r[k] == xs[j] && marks[j] && k + 1 < |r| && r[k + 1] == ins)
  {
    j := Source(xs, marks, ins, k);
    Lands(xs, marks, ins, j);
    if k == Pos(marks, j) {
      if marks[j] {
        InsertedAfter(xs, marks, ins, j);
      } else if j + 1 < |xs| {
        Lands(xs, marks, ins, j + 1);
        PosStep(marks, j);
      }
    } else {
      InsertedAfter(xs, marks, ins, j);
    }
  }

  /**
   * Every output position is either where an input position landed, or the
   * insertion right after a marked one.
   */
  lemma {:induction false} Source<T>(xs: seq<T>, marks: seq<bool>, ins: T, k: nat) returns (j: nat)
    requires |marks| == |xs| && k < |InsertAfterMarked(xs, marks, ins)|
    ensures j < |xs|
    ensures (k == Pos(marks, j) && !InsertedMarks(marks)[k]) ||
      (marks[j] && k == Pos(marks, j) + 1 && InsertedMarks(marks)[k])
  {
    var n := |xs| - 1;
    var out0 := InsertAfterMarked(xs[..n], marks[..n], ins);
    if k < |out0| {
      j := Source(xs[..n], marks[..n], ins, k);
      assert marks[..n][..j] == marks[..j];
    } else {
      j := n;
      assert marks[..j] == marks[..n];
    }
  }

  /** With no mark set, nothing is inserted. */
  lemma {:induction false} NoneMarked<T>(xs: seq<T>, marks: seq<bool>, ins: T)
    requires |marks| == |xs| && true !in marks
    ensures InsertAfterMarked(xs, marks, ins) == xs
  {
    if xs != [] {
      var n := |xs| - 1;
      assert true !in marks[..n];
      NoneMarked(xs[..n], marks[..n], ins);
      assert xs[..n] + [xs[n]] == xs;
    }
  }

  /** Some mark is set exactly when something is inserted. */
  lemma {:induction false} CountPositive(marks: seq<bool>)
    ensures Count(marks) > 0 <==> true in marks
  {
    if marks != [] {
      var n := |marks| - 1;
      CountPositive(marks[..n]);
      assert marks == marks[..n] + [marks[n]];
    }
  }

  lemma PrefixInsert<T>(xs: seq<T>, marks: seq<bool>, ins: T, i: nat)
    requires |marks| == |xs| && i < |xs|
    ensures InsertAfterMarked(xs[..i + 1], marks[..i + 1], ins) ==
      InsertAfterMarked(xs[..i], marks[..i], ins) + [xs[i]] + (if marks[i] then [ins] else [])
  {
    assert xs[..i + 1][..i] == xs[..i];
    assert marks[..i + 1][..i] == marks[..i];
  }
}
