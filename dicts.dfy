/**
 * A Python `dict` built from a sequence of key/value pairs, as `dict(pairs)`
 * and a dict comprehension do: a later pair for the same key overwrites the
 * value of an earlier one.
 */
module Dicts {
  import opened Wrappers

  /**
   * The pairs a dict is built from, one per item and in order, when every
   * item unpacks into a key and a value; otherwise the first item that does
   * not (Python's ValueError).
   */
  function CutAll<T, K, V>(items: seq<T>, cut: T -> Option<(K, V)>): Result<seq<(K, V)>, T>
    decreases |items|
  {
    if |items| == 0 then Ok([])
    else
      match cut(items[0])
      case None => Err(items[0])
      case Some(kv) =>
        match CutAll(items[1..], cut)
        case Err(e) => Err(e)
        case Ok(rest) => Ok([kv] + rest)
  }

  /** CutAll succeeds exactly when every item cuts, keeps one pair per item, and otherwise names the first failing item. */
  lemma {:induction false} CutAllSpec<T, K, V>(items: seq<T>, cut: T -> Option<(K, V)>)
    ensures CutAll(items, cut).Ok? <==> forall k :: 0 <= k < |items| ==> cut(items[k]).Some?
    ensures CutAll(items, cut).Ok? ==>
      && |CutAll(items, cut).value| == |items|
      && forall k :: 0 <= k < |items| ==> CutAll(items, cut).value[k] == cut(items[k]).value
    ensures CutAll(items, cut).Err? ==>
      exists k :: 0 <= k < |items| && CutAll(items, cut).error == items[k]
        && cut(items[k]).None? && forall j :: 0 <= j < k ==> cut(items[j]).Some?
    decreases |items|
  {
    if |items| > 0 {
      CutAllSpec(items[1..], cut);
      if cut(items[0]).Some? {
        match CutAll(items[1..], cut)
        case Err(e) =>
          var k :| 0 <= k < |items[1..]| && e == items[1..][k]
            && cut(items[1..][k]).None?
            && forall j :: 0 <= j < k ==> cut(items[1..][j]).Some?;
          assert items[k + 1] == items[1..][k];
          assert forall j :: 1 <= j < k + 1 ==> items[j] == items[1..][j - 1];
        case Ok(rest) =>
          assert forall k :: 1 <= k < |items| ==> items[k] == items[1..][k - 1];
      }
    }
  }

  function FromPairs<K, V>(pairs: seq<(K, V)>): (m: map<K, V>)
    ensures m.Keys == set k | 0 <= k < |pairs| :: pairs[k].0
    decreases |pairs|
  {
    if |pairs| == 0 then map[]
    else
      var init := pairs[..|pairs| - 1];
      var last := pairs[|pairs| - 1];
      assert forall k :: 0 <= k < |init| ==> init[k] == pairs[k];
      FromPairs(init)[last.0 := last.1]
  }

  /** The value stored for a key is the one of its last pair. */
  lemma {:induction false} FromPairsLastWins<K, V>(pairs: seq<(K, V)>, i: nat)
    requires i < |pairs|
    requires forall j :: i < j < |pairs| ==> pairs[j].0 != pairs[i].0
    ensures pairs[i].0 in FromPairs(pairs) && FromPairs(pairs)[pairs[i].0] == pairs[i].1
    decreases |pairs|
  {
    if i < |pairs| - 1 {
      var init := pairs[..|pairs| - 1];
      assert init[i] == pairs[i];
      FromPairsLastWins(init, i);
    }
  }
}
