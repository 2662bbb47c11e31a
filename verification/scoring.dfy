/** `evaluate`: the loaded items joined with the prediction map by id, counting the items
    whose predicted letter is their answer. Only the two integer counters are modelled. */
module Scoring {
  import opened Optional
  import opened Loaders

  datatype Metrics = Metrics(correct: nat, total: nat)

  /** An item scores when its id has a prediction equal to its answer; an item without an
      answer never scores. */
  predicate Matches(it: Item, pred: map<string, char>)
    ensures Matches(it, pred) ==> it.id in pred && it.answer.Some?
    ensures it.answer.None? ==> !Matches(it, pred)
  {
    it.id in pred && it.answer == Some(pred[it.id])
  }

  /** The positions of the items that score. */
  function Hits(items: seq<Item>, pred: map<string, char>): set<int> {
    set k | 0 <= k < |items| && Matches(items[k], pred)
  }

  /** Number of scoring items, counted front to back. */
  function CountCorrect(items: seq<Item>, pred: map<string, char>): (n: nat)
    ensures n <= |items|
    ensures (forall k :: 0 <= k < |items| ==> !Matches(items[k], pred)) ==> n == 0
    ensures (forall k :: 0 <= k < |items| ==> Matches(items[k], pred)) ==> n == |items|
  {
    if items == [] then 0
    else
      var init := items[..|items| - 1];
      assert forall k :: 0 <= k < |init| ==> init[k] == items[k];
      CountCorrect(init, pred) + (if Matches(items[|items| - 1], pred) then 1 else 0)
  }

  function Evaluate(items: seq<Item>, pred: map<string, char>): (m: Metrics)
    ensures m.total == |items|
    ensures m.correct <= m.total
    ensures pred == map[] ==> m.correct == 0
  {
    Metrics(CountCorrect(items, pred), |items|)
  }

  /** `correct` is exactly the number of items that score. */
  lemma {:induction false} CorrectCountsHits(items: seq<Item>, pred: map<string, char>)
    ensures Evaluate(items, pred).correct == |Hits(items, pred)|
    decreases |items|
  {
    if items != [] {
      var n := |items| - 1;
      var init := items[..n];
      CorrectCountsHits(init, pred);
      var rest := if Matches(items[n], pred) then {n} else {};
      assert Hits(items, pred) == Hits(init, pred) + rest by {
        forall k | k in Hits(items, pred) ensures k in Hits(init, pred) + rest {
          if k < n { assert init[k] == items[k]; }
        }
        forall k | k in Hits(init, pred) ensures k in Hits(items, pred) {
          assert init[k] == items[k];
        }
      }
      assert n !in Hits(init, pred);
      assert |Hits(init, pred) + rest| == |Hits(init, pred)| + |rest|;
    }
  }

  /** Every item scores exactly when `correct` reaches `total`. */
  lemma {:induction false} AllCorrect(items: seq<Item>, pred: map<string, char>)
    ensures Evaluate(items, pred).correct == |items| <==> forall k :: 0 <= k < |items| ==> Matches(items[k], pred)
    decreases |items|
  {
    if items != [] {
      var n := |items| - 1;
      var init := items[..n];
      AllCorrect(init, pred);
      assert forall k :: 0 <= k < n ==> init[k] == items[k];
    }
  }

  /** `correct` is zero exactly when no item scores. */
  lemma NoneCorrect(items: seq<Item>, pred: map<string, char>)
    ensures Evaluate(items, pred).correct == 0 <==> forall k :: 0 <= k < |items| ==> !Matches(items[k], pred)
  {
    CorrectCountsHits(items, pred);
    if Evaluate(items, pred).correct == 0 {
      assert Hits(items, pred) == {};
      forall k | 0 <= k < |items| ensures !Matches(items[k], pred) {
        assert k !in Hits(items, pred);
      }
    }
  }

  /** The scoring loop: `total` is the number of items, `correct` goes up by one per hit. */
  method EvaluateScan(items: seq<Item>, pred: map<string, char>) returns (m: Metrics)
    ensures m == Evaluate(items, pred)
  {
    m := Metrics(0, |items|);
    var i := 0;
    while i < |items|
      invariant 0 <= i <= |items|
      invariant m == Metrics(CountCorrect(items[..i], pred), |items|)
    {
      assert items[..i + 1][..i] == items[..i];
      var it := items[i];
      if it.id in pred && Some(pred[it.id]) == it.answer {
        m := m.(correct := m.correct + 1);
      }
      i := i + 1;
    }
    assert items[..i] == items;
  }

  /** Three items answered A, B and C against predictions A, X and C score two out of three. */
  lemma ExampleEvaluate()
    ensures var items := [Item("1", "q1", [], Some('A')), Item("2", "q2", [], Some('B')),
                          Item("3", "q3", [], Some('C'))];
            var pred := map["1" := 'A', "2" := 'X', "3" := 'C'];
            Evaluate(items, pred) == Metrics(2, 3)
  {
    var items := [Item("1", "q1", [], Some('A')), Item("2", "q2", [], Some('B')),
                  Item("3", "q3", [], Some('C'))];
    var pred := map["1" := 'A', "2" := 'X', "3" := 'C'];
    assert items[..2][..1] == items[..1] && items[..3] == items && items[..2] == items[..3][..2];
    assert Matches(items[0], pred) && !Matches(items[1], pred) && Matches(items[2], pred);
  }

  /** An item whose answer cell was blank is never counted, whatever the predictions say
      and whatever the other items are, so `correct` stays below `total`. */
  lemma UnansweredNeverScores(items: seq<Item>, pred: map<string, char>, k: int)
    requires 0 <= k < |items| && items[k].answer.None?
    ensures k !in Hits(items, pred)
    ensures Evaluate(items, pred).correct < |items|
  {
    AllCorrect(items, pred);
  }

  /** The comparison as the source writes it. With a blank answer cell the item's `answer`
      field is never assigned, so the comparison reads whatever byte `stale` the field
      happens to hold. */
  predicate MatchesAsWritten(it: Item, pred: map<string, char>, stale: char) {
    it.id in pred && pred[it.id] == (if it.answer.Some? then it.answer.value else stale)
  }

  /** As written, an item with a blank answer cell scores whenever the stale byte happens
      to equal the predicted letter. */
  lemma UnansweredScoresAsWritten()
    ensures var it := Item("1", "q", [], None);
            && MatchesAsWritten(it, map["1" := 'A'], 'A')
            && !Matches(it, map["1" := 'A'])
  {
  }
}
