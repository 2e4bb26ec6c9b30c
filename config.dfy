/**
 * Validation of the `id` option of the plugin: a single ID, a list of IDs, or a list of `{id}`
 * records. Every ID is checked in order and the first one that is not valid aborts the install
 * with its error message.
 */
module Config {
  import opened Wrappers
  import opened GtmId
  import opened Suggest
  import opened Message

  /** A container record `{ id: ... }`. */
  datatype IdRecord = IdRecord(id: string)

  /** The shapes the `id` option takes. */
  datatype IdOption =
    | Single(id: string)
    | Strings(ids: seq<string>)
    | Records(records: seq<IdRecord>)

  /** The IDs carried by a list of records, in order. */
  function RecordIds(records: seq<IdRecord>): (ids: seq<string>)
    ensures |ids| == |records|
    ensures forall i :: 0 <= i < |records| ==> ids[i] == records[i].id
  {
    if records == [] then [] else [records[0].id] + RecordIds(records[1..])
  }

  /** Every shape brought to one ordered list of IDs. */
  function Ids(opt: IdOption): (ids: seq<string>)
    ensures opt.Single? ==> ids == [opt.id]
    ensures opt.Strings? ==> ids == opt.ids
    ensures opt.Records? ==> |ids| == |opt.records|
    ensures opt.Records? ==> forall i :: 0 <= i < |ids| ==> ids[i] == opt.records[i].id
  {
    match opt
    case Single(id) => [id]
    case Strings(ids) => ids
    case Records(records) => RecordIds(records)
  }

  /** The index of the first ID that is not valid, if any. */
  function FirstInvalid(ids: seq<string>): (k: Option<nat>)
    ensures k.None? <==> forall i :: 0 <= i < |ids| ==> IsValidId(ids[i])
    ensures k.Some? ==> k.value < |ids| && !IsValidId(ids[k.value])
    ensures k.Some? ==> forall i :: 0 <= i < k.value ==> IsValidId(ids[i])
  {
    if ids == [] then None
    else if !IsValidId(ids[0]) then Some(0)
    else
      match FirstInvalid(ids[1..])
      case None => None
      case Some(k) => Some(k + 1)
  }

  /** Accepts the IDs when all are valid; otherwise fails with the message for the first invalid one. */
  function Validate(opt: IdOption): (r: Result<seq<string>>)
    ensures r.Ok? <==> forall i :: 0 <= i < |Ids(opt)| ==> IsValidId(Ids(opt)[i])
    ensures r.Ok? ==> r.value == Ids(opt)
    ensures r.Err? ==>
      exists k :: (0 <= k < |Ids(opt)| && !IsValidId(Ids(opt)[k])
                   && (forall i :: 0 <= i < k ==> IsValidId(Ids(opt)[i]))
                   && r.message == ErrorMessage(Ids(opt)[k]))
  {
    var ids := Ids(opt);
    match FirstInvalid(ids)
    case None => Ok(ids)
    case Some(k) => Err(ErrorMessage(ids[k]))
  }

  /** A valid ID on its own is accepted unchanged. */
  lemma ValidSingleAccepted(id: string)
    requires IsValidId(id)
    ensures Validate(Single(id)) == Ok([id])
  {
  }

  /** Valid IDs in front of a list neither cause an error nor change the one the rest reports. */
  lemma {:induction false} ValidPrefixDoesNotMask(good: seq<string>, rest: seq<string>)
    requires forall i :: 0 <= i < |good| ==> IsValidId(good[i])
    ensures Validate(Strings(good + rest)).Err? <==> Validate(Strings(rest)).Err?
    ensures Validate(Strings(rest)).Err? ==> Validate(Strings(good + rest)) == Validate(Strings(rest))
  {
    if good != [] {
      assert (good + rest)[0] == good[0];
      assert (good + rest)[1..] == good[1..] + rest;
      ValidPrefixDoesNotMask(good[1..], rest);
    } else {
      assert good + rest == rest;
    }
  }

  lemma {:induction false} RecordIdsAppend(a: seq<IdRecord>, b: seq<IdRecord>)
    ensures RecordIds(a + b) == RecordIds(a) + RecordIds(b)
  {
    if a != [] {
      assert (a + b)[0] == a[0] && (a + b)[1..] == a[1..] + b;
      RecordIdsAppend(a[1..], b);
    } else {
      assert a + b == b;
    }
  }

  /** Valid records in front of a record list neither cause an error nor change the one the rest reports. */
  lemma ValidRecordPrefixDoesNotMask(good: seq<IdRecord>, rest: seq<IdRecord>)
    requires forall i :: 0 <= i < |good| ==> IsValidId(good[i].id)
    ensures Validate(Records(good + rest)).Err? <==> Validate(Records(rest)).Err?
    ensures Validate(Records(rest)).Err? ==> Validate(Records(good + rest)) == Validate(Records(rest))
  {
    RecordIdsAppend(good, rest);
    ValidPrefixDoesNotMask(RecordIds(good), RecordIds(rest));
    assert Ids(Records(good + rest)) == Ids(Strings(RecordIds(good) + RecordIds(rest)));
    assert Ids(Records(rest)) == Ids(Strings(RecordIds(rest)));
  }

  /** The five shapes the tests try give the same error for an invalid ID, behind a valid one or not. */
  lemma ShapesReportSameError(good: string, bad: string)
    requires IsValidId(good) && !IsValidId(bad)
    ensures Validate(Single(bad)) == Err(ErrorMessage(bad))
    ensures Validate(Strings([bad])) == Err(ErrorMessage(bad))
    ensures Validate(Strings([good, bad])) == Err(ErrorMessage(bad))
    ensures Validate(Records([IdRecord(bad)])) == Err(ErrorMessage(bad))
    ensures Validate(Records([IdRecord(good), IdRecord(bad)])) == Err(ErrorMessage(bad))
  {
    assert RecordIds([IdRecord(good), IdRecord(bad)]) == [good, bad];
  }

  /** The loop of the test: each of its invalid IDs, in each shape, behind `GTM-X` or alone. */
  lemma TestInputsRejected(bad: string)
    requires bad in ["GTM-x", "a", "gtm-a", "Error: ", "Error"]
    ensures Validate(Single(bad)) == Err(ErrorMessage(bad))
    ensures Validate(Strings([bad])) == Err(ErrorMessage(bad))
    ensures Validate(Strings(["GTM-X", bad])) == Err(ErrorMessage(bad))
    ensures Validate(Records([IdRecord(bad)])) == Err(ErrorMessage(bad))
    ensures Validate(Records([IdRecord("GTM-X"), IdRecord(bad)])) == Err(ErrorMessage(bad))
  {
    TestIdsClassified();
    ShapesReportSameError("GTM-X", bad);
  }
}
