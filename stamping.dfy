/**
 * The last step of `fetch_reviews`: every record of the batch is updated in
 * place with the cursor of the following page, the batch size and the app id.
 */
module Stamping {
  import opened Wrappers
  import opened Json

  /** The three fields `fetch_reviews` adds to a record. */
  predicate Derived(key: string) {
    key == "offset" || key == "n_batch" || key == "app_id"
  }

  /** The JSON value stored for a cursor: the digit string, or null for `None`. */
  function OffsetValue(offset: Option<string>): Json {
    match offset
    case None => JNull
    case Some(digits) => JStr(digits)
  }

  /** One record after its three assignments. */
  function Stamp(rec: Record, offset: Option<string>, nBatch: nat, appId: string): Record {
    rec["offset" := OffsetValue(offset)]["n_batch" := JNum(nBatch)]["app_id" := JStr(appId)]
  }

  /** The batch once every record is stamped. */
  function Stamped(batch: seq<Record>, offset: Option<string>, appId: string): (r: seq<Record>)
    ensures |r| == |batch|
    ensures forall i :: 0 <= i < |r| ==> r[i].Keys == batch[i].Keys + {"offset", "n_batch", "app_id"}
    ensures forall i :: 0 <= i < |r| ==>
              r[i]["offset"] == OffsetValue(offset) && r[i]["n_batch"] == JNum(|batch|) && r[i]["app_id"] == JStr(appId)
    ensures forall i, key :: 0 <= i < |r| && key in batch[i] && !Derived(key) ==> r[i][key] == batch[i][key]
  {
    seq(|batch|, i requires 0 <= i < |batch| => Stamp(batch[i], offset, |batch|, appId))
  }

  /** The `for rev in reviews` loop: each record is updated in place, in order. */
  method StampBatch(batch: array<Record>, offset: Option<string>, appId: string)
    modifies batch
    ensures batch[..] == Stamped(old(batch[..]), offset, appId)
  {
    for i := 0 to batch.Length
      invariant forall j :: 0 <= j < i ==> batch[j] == Stamp(old(batch[j]), offset, batch.Length, appId)
      invariant forall j :: i <= j < batch.Length ==> batch[j] == old(batch[j])
    {
      var rev := batch[i];
      rev := rev["offset" := OffsetValue(offset)];
      rev := rev["n_batch" := JNum(batch.Length)];
      rev := rev["app_id" := JStr(appId)];
      batch[i] := rev;
    }
  }
}
