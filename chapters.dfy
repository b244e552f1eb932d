/**
 * The chapters_completed update of a check-in: every covered chapter not yet
 * in the list is appended, in the order covered, so the list keeps the order
 * of first appearance and never holds a chapter twice.
 */
module Chapters {

  /** No chapter occurs twice. */
  predicate NoDup(s: seq<string>)
  {
    forall i, j :: 0 <= i < j < |s| ==> s[i] != s[j]
  }

  /** One turn of the merge loop: append the chapter unless it is already listed. */
  function AddChapter(completed: seq<string>, chapter: string): seq<string>
  {
    if chapter in completed then completed else completed + [chapter]
  }

  /** The list after the loop has run over all of covered. */
  function Merge(completed: seq<string>, covered: seq<string>): (r: seq<string>)
    ensures completed <= r
    ensures forall x :: x in r <==> x in completed || x in covered
    ensures forall i :: |completed| <= i < |r| ==> r[i] in covered && r[i] !in completed
    ensures NoDup(completed) ==> NoDup(r)
    decreases |covered|
  {
    if covered == [] then completed
    else AddChapter(Merge(completed, covered[..|covered| - 1]), covered[|covered| - 1])
  }

  /** Merging two lists of chapters one after the other is merging their concatenation. */
  lemma {:induction false} MergeConcat(completed: seq<string>, a: seq<string>, b: seq<string>)
    ensures Merge(completed, a + b) == Merge(Merge(completed, a), b)
    decreases |b|
  {
    if b == [] {
      assert a + b == a;
    } else {
      var front := b[..|b| - 1];
      assert (a + b)[..|a + b| - 1] == a + front;
      assert (a + b)[|a + b| - 1] == b[|b| - 1];
      MergeConcat(completed, a, front);
    }
  }

  /** Chapters that are all listed already change nothing. */
  lemma {:induction false} MergeAbsorbs(completed: seq<string>, covered: seq<string>)
    requires forall x :: x in covered ==> x in completed
    ensures Merge(completed, covered) == completed
    decreases |covered|
  {
    if covered != [] {
      var front := covered[..|covered| - 1];
      assert forall x :: x in front ==> x in covered;
      MergeAbsorbs(completed, front);
    }
  }

  /** Submitting the same chapters a second time leaves the list as it is. */
  lemma MergeIdempotent(completed: seq<string>, covered: seq<string>)
    ensures Merge(Merge(completed, covered), covered) == Merge(completed, covered)
  {
    MergeAbsorbs(Merge(completed, covered), covered);
  }
}
