/** Equally long pieces stored back to back. */
module Chunks {

  function Flat<T>(rows: seq<seq<T>>): seq<T> {
    if rows == [] then [] else Flat(rows[..|rows| - 1]) + rows[|rows| - 1]
  }

  ghost predicate Shaped<T>(rows: seq<seq<T>>, size: nat) {
    forall i | 0 <= i < |rows| :: |rows[i]| == size
  }

  lemma {:induction false} FlatSize<T>(rows: seq<seq<T>>, size: nat)
    requires Shaped(rows, size)
    ensures |Flat(rows)| == |rows| * size
  {
    if rows != [] {
      FlatSize(rows[..|rows| - 1], size);
      assert |rows| * size == (|rows| - 1) * size + size;
    }
  }

  /** Piece i occupies the i-th stretch. */
  lemma {:induction false} FlatAt<T>(rows: seq<seq<T>>, size: nat, i: nat)
    requires Shaped(rows, size) && i < |rows|
    ensures 0 <= i * size <= i * size + size <= |Flat(rows)|
    ensures Flat(rows)[i * size..i * size + size] == rows[i]
  {
    var front := rows[..|rows| - 1];
    FlatSize(front, size);
    if i < |front| {
      FlatAt(front, size, i);
      assert Flat(rows)[i * size..i * size + size] == Flat(front)[i * size..i * size + size];
    }
  }

  /** Cuts s into n pieces. */
  function Split<T>(s: seq<T>, size: nat, n: nat): (rows: seq<seq<T>>)
    requires |s| == n * size
    ensures |rows| == n && Shaped(rows, size)
  {
    if n == 0 then [] else
      assert |s| - size == (n - 1) * size;
      Split(s[..|s| - size], size, n - 1) + [s[|s| - size..]]
  }

  lemma {:induction false} FlatSplit<T>(s: seq<T>, size: nat, n: nat)
    requires |s| == n * size
    ensures Flat(Split(s, size, n)) == s
  {
    if n > 0 {
      assert |s| - size == (n - 1) * size;
      FlatSplit(s[..|s| - size], size, n - 1);
      FlatSnoc(Split(s[..|s| - size], size, n - 1), s[|s| - size..]);
    }
  }

  lemma {:induction false} FlatSnoc<T>(rows: seq<seq<T>>, row: seq<T>)
    ensures Flat(rows + [row]) == Flat(rows) + row
  {
    assert (rows + [row])[..|rows|] == rows;
  }

  lemma {:induction false} SplitAppend<T>(s: seq<T>, piece: seq<T>, n: nat)
    requires |s| == n * |piece|
    ensures |s + piece| == (n + 1) * |piece|
    ensures Split(s + piece, |piece|, n + 1) == Split(s, |piece|, n) + [piece]
  {
    assert (n + 1) * |piece| == n * |piece| + |piece|;
    assert (s + piece)[..|s|] == s;
  }
}
