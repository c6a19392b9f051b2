/** `KEY_PRIORITY` and `find_merge_keys` (Cleaning.py): the join key is the
    first entry of a fixed priority list whose columns both frames have. */
module Keys {
  import opened Results
  import opened Tables

  /** The candidate join keys, most preferred first. */
  const KeyPriority: seq<seq<string>> := [
    ["plant_id", "date"],
    ["plant_id", "timestamp"],
    ["plant_id"],
    ["plant", "date"],
    ["plant", "timestamp"],
    ["plant"],
    ["species", "date"],
    ["species"],
    ["plant_name", "date"],
    ["plant_name"],
    ["id", "date"],
    ["id"]
  ]

  /** No candidate names a column twice. */
  lemma KeyPriorityDistinct()
    ensures forall i :: 0 <= i < |KeyPriority| ==> Distinct(KeyPriority[i])
  {
  }

  /** `set(combo).issubset(set(cols))`. */
  predicate Within(combo: seq<string>, cols: seq<string>) {
    forall k :: 0 <= k < |combo| ==> combo[k] in cols
  }

  predicate Shared(combo: seq<string>, left: seq<string>, right: seq<string>) {
    Within(combo, left) && Within(combo, right)
  }

  /** Index of the first candidate both column lists contain. */
  function FirstShared(cands: seq<seq<string>>, left: seq<string>, right: seq<string>): (r: Option<nat>)
    ensures r.Some? ==>
      && r.value < |cands| && Shared(cands[r.value], left, right)
      && (forall j :: 0 <= j < r.value ==> !Shared(cands[j], left, right))
    ensures r.None? ==> forall j :: 0 <= j < |cands| ==> !Shared(cands[j], left, right)
  {
    if |cands| == 0 then None
    else if Shared(cands[0], left, right) then Some(0)
    else
      match FirstShared(cands[1..], left, right)
      case None => None
      case Some(i) => Some(i + 1)
  }

  /** `find_merge_keys(left_cols, right_cols)`. */
  function FindMergeKeys(left: seq<string>, right: seq<string>): (r: Option<seq<string>>)
    ensures r.None? <==> forall j :: 0 <= j < |KeyPriority| ==> !Shared(KeyPriority[j], left, right)
    ensures r.Some? ==>
      exists i :: 0 <= i < |KeyPriority| && r.value == KeyPriority[i] && Shared(KeyPriority[i], left, right) &&
        forall j :: 0 <= j < i ==> !Shared(KeyPriority[j], left, right)
  {
    match FirstShared(KeyPriority, left, right)
    case None => None
    case Some(i) => Some(KeyPriority[i])
  }

  /** Every returned key column is a column of both frames, and the key is never empty. */
  lemma KeysInBoth(left: seq<string>, right: seq<string>)
    ensures var r := FindMergeKeys(left, right);
      r.Some? ==> |r.value| > 0 && forall k :: 0 <= k < |r.value| ==> r.value[k] in left && r.value[k] in right
  {
  }

  /** The search does not care which frame is on which side. */
  lemma {:induction false} FirstSharedSymmetric(cands: seq<seq<string>>, left: seq<string>, right: seq<string>)
    ensures FirstShared(cands, left, right) == FirstShared(cands, right, left)
    decreases |cands|
  {
    if |cands| > 0 {
      FirstSharedSymmetric(cands[1..], left, right);
    }
  }

  lemma FindMergeKeysSymmetric(left: seq<string>, right: seq<string>)
    ensures FindMergeKeys(left, right) == FindMergeKeys(right, left)
  {
    FirstSharedSymmetric(KeyPriority, left, right);
  }

  /** Only the sets of column names matter, not their order or repetition. */
  lemma {:induction false} FirstSharedBySets(cands: seq<seq<string>>, l1: seq<string>, r1: seq<string>, l2: seq<string>, r2: seq<string>)
    requires forall x :: x in l1 <==> x in l2
    requires forall x :: x in r1 <==> x in r2
    ensures FirstShared(cands, l1, r1) == FirstShared(cands, l2, r2)
    decreases |cands|
  {
    if |cands| > 0 {
      assert Shared(cands[0], l1, r1) == Shared(cands[0], l2, r2);
      FirstSharedBySets(cands[1..], l1, r1, l2, r2);
    }
  }

  lemma FindMergeKeysBySets(l1: seq<string>, r1: seq<string>, l2: seq<string>, r2: seq<string>)
    requires forall x :: x in l1 <==> x in l2
    requires forall x :: x in r1 <==> x in r2
    ensures FindMergeKeys(l1, r1) == FindMergeKeys(l2, r2)
  {
    FirstSharedBySets(KeyPriority, l1, r1, l2, r2);
  }

  /** The key is the candidate at `i` when it is shared and no earlier one is. */
  lemma FindMergeKeysAt(left: seq<string>, right: seq<string>, i: nat)
    requires i < |KeyPriority| && Shared(KeyPriority[i], left, right)
    requires forall j :: 0 <= j < i ==> !Shared(KeyPriority[j], left, right)
    ensures FindMergeKeys(left, right) == Some(KeyPriority[i])
  {
    var r := FindMergeKeys(left, right);
    var i' :| 0 <= i' < |KeyPriority| && r.value == KeyPriority[i'] && Shared(KeyPriority[i'], left, right) &&
      forall j :: 0 <= j < i' ==> !Shared(KeyPriority[j], left, right);
    assert i' == i;
  }

  /** Worked example: two frames with plant id and date join on both, even
      though they also share the lower-priority `plant_id` alone. */
  lemma KeysExample()
    ensures FindMergeKeys(["plant_id", "date", "height"], ["date", "plant_id", "water"]) == Some(["plant_id", "date"])
  {
    FindMergeKeysAt(["plant_id", "date", "height"], ["date", "plant_id", "water"], 0);
  }

  /** Worked example: frames that share only `species` fall through to it. */
  lemma KeysFallThrough()
    ensures FindMergeKeys(["species", "date"], ["species", "timestamp"]) == Some(["species"])
  {
    var l, r := ["species", "date"], ["species", "timestamp"];
    assert "plant_id" !in l && "plant" !in l && "date" !in r;
    forall j | 0 <= j < 7
      ensures !Shared(KeyPriority[j], l, r)
    {
      if j < 3 {
        assert KeyPriority[j][0] == "plant_id";
      } else if j < 6 {
        assert KeyPriority[j][0] == "plant";
      } else {
        assert KeyPriority[j][1] == "date";
      }
    }
    FindMergeKeysAt(l, r, 7);
  }
}
