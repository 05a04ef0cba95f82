/** A JavaScript object of expression scores, as face-api.js returns it for one
    face, and the `Object.keys(...).reduce(...)` argmax that both components use
    to pick the dominant expression. */
module Expressions {

  /** The raw shape of a JavaScript object from labels to scores: the own keys in
      iteration order (`Object.keys`) and the property lookup (`expressions[k]`). */
  datatype RawScores = RawScores(keys: seq<string>, values: map<string, real>)
  {
    /** Own keys are pairwise distinct and are exactly the properties present. */
    predicate Valid()
    {
      && (forall i, j :: 0 <= i < j < |keys| ==> keys[i] != keys[j])
      && (forall k :: k in keys ==> k in values)
      && (forall k :: k in values ==> k in keys)
    }
  }

  /** Every object face-api.js can hand back satisfies `Valid`. */
  type ExpressionMap = s: RawScores | s.Valid() witness RawScores([], map[])

  /** The score of the key at position `k` of the iteration order. */
  function Score(s: ExpressionMap, k: nat): real
    requires k < |s.keys|
  {
    s.values[s.keys[k]]
  }

  /** Index `q` is the LAST position in key order holding a maximal score:
      nothing scores higher, and every later key scores strictly lower. */
  ghost predicate IsLastMax(s: ExpressionMap, q: nat)
  {
    && q < |s.keys|
    && (forall k :: 0 <= k < |s.keys| ==> Score(s, k) <= Score(s, q))
    && (forall k :: q < k < |s.keys| ==> Score(s, k) < Score(s, q))
  }

  /** The same property restricted to the first `n` keys. */
  ghost predicate IsLastMaxOfPrefix(s: ExpressionMap, n: nat, q: nat)
  {
    && q < n <= |s.keys|
    && (forall k :: 0 <= k < n ==> Score(s, k) <= Score(s, q))
    && (forall k :: q < k < n ==> Score(s, k) < Score(s, q))
  }

  /** One step of `reduce((prev, curr) => s[prev] > s[curr] ? prev : curr)`,
      continued from position `i` with accumulator `prev`. `prev` is always a key
      already visited, and the accumulator is the last maximum of that prefix. */
  function ReduceFrom(s: ExpressionMap, prev: string, i: nat, ghost p: nat): (r: string)
    requires 0 < i <= |s.keys|
    requires p < i && s.keys[p] == prev
    requires IsLastMaxOfPrefix(s, i, p)
    ensures exists q: nat :: IsLastMax(s, q) && s.keys[q] == r
    decreases |s.keys| - i
  {
    if i == |s.keys| then prev
    else
      var curr := s.keys[i];
      if s.values[prev] > s.values[curr] then ReduceFrom(s, prev, i + 1, p)
      else ReduceFrom(s, curr, i + 1, i)
  }

  /** The dominant expression: `Object.keys(s).reduce(...)` with no initial value.
      JavaScript throws on an empty key list, hence the precondition. */
  function Dominant(s: ExpressionMap): (r: string)
    requires |s.keys| > 0
    ensures r in s.keys && r in s.values
    ensures forall k :: k in s.values ==> s.values[k] <= s.values[r]
    ensures forall j, k :: 0 <= j < k < |s.keys| && s.keys[j] == r ==> Score(s, k) < s.values[r]
  {
    var r := ReduceFrom(s, s.keys[0], 1, 0);
    assert r in s.keys && forall k :: k in s.values ==> s.values[k] <= s.values[r] by {
      var q: nat :| IsLastMax(s, q) && s.keys[q] == r;
      forall k | k in s.values
        ensures s.values[k] <= s.values[r]
      {
        var i :| 0 <= i < |s.keys| && s.keys[i] == k;
        assert Score(s, i) <= Score(s, q);
      }
    }
    r
  }

  /** The last maximum is unique, so `IsLastMax` is a reference definition of
      the argmax independent of how the reduce walks the keys. */
  lemma LastMaxUnique(s: ExpressionMap, q1: nat, q2: nat)
    requires IsLastMax(s, q1) && IsLastMax(s, q2)
    ensures q1 == q2
  {
    assert Score(s, q1) == Score(s, q2);
  }

  /** `Dominant` agrees with the reference definition: it returns the key at `q`
      exactly when `q` is the last position holding a maximal score. */
  lemma DominantIsLastMax(s: ExpressionMap, q: nat)
    requires q < |s.keys|
    ensures Dominant(s) == s.keys[q] <==> IsLastMax(s, q)
  {
    var r := Dominant(s);
    var q': nat :| IsLastMax(s, q') && s.keys[q'] == r;
    if IsLastMax(s, q) {
      LastMaxUnique(s, q, q');
    }
    assert q < q' ==> s.keys[q] != s.keys[q'];
    assert q' < q ==> s.keys[q'] != s.keys[q];
  }

  /** Adding a key with the same score as the current winner moves the winner to
      the new key: ties go to the LATER key, not the first. */
  lemma TieGoesToLaterKey()
    ensures Dominant(RawScores(["happy", "sad"], map["happy" := 0.5, "sad" := 0.5])) == "sad"
  {
    var s: ExpressionMap := RawScores(["happy", "sad"], map["happy" := 0.5, "sad" := 0.5]);
    assert IsLastMax(s, 1);
    DominantIsLastMax(s, 1);
  }

  /** A clear maximum wins regardless of its position. */
  lemma ClearMaximumWins()
    ensures Dominant(RawScores(["happy", "neutral", "angry"],
                               map["happy" := 0.9, "neutral" := 0.05, "angry" := 0.05])) == "happy"
  {
    var raw := RawScores(["happy", "neutral", "angry"],
                         map["happy" := 0.9, "neutral" := 0.05, "angry" := 0.05]);
    assert raw.keys[0][0] != raw.keys[1][0] && raw.keys[0][0] != raw.keys[2][0] && raw.keys[1][0] != raw.keys[2][0];
    var s: ExpressionMap := raw;
    assert IsLastMax(s, 0);
    DominantIsLastMax(s, 0);
  }
}
