/** The record/format loop of `harvest_all_metadata`: every record identifier is fetched in every
    metadata format, and the record is counted as fully failed, partially failed or fine. */
module NewHarvester {
  import opened PyStrings

  /** The statistics the loop keeps: the document counter, the ids whose every format failed,
      the ids with some failed formats (mapped to those formats), and the record numbers after
      which the loop paused. */
  datatype Summary = Summary(
    totalDocs: nat,
    failedDocs: set<string>,
    partialFailures: map<string, seq<string>>,
    pausedAfter: seq<nat>)

  /** How a record turned out. */
  datatype Classification = Success | PartialFailure | FullFailure

  /** Every `PauseEvery`-th record is followed by a pause. */
  const PauseEvery: nat := 10

  /** `identifier.split(":")[-1]`: the text after the last `:`. */
  function DocId(identifier: string): (r: string)
    ensures ':' !in r
    ensures |r| <= |identifier| && identifier[|identifier| - |r|..] == r
    ensures ':' !in identifier ==> r == identifier
    ensures ':' in identifier ==> |r| < |identifier| && identifier[|identifier| - |r| - 1] == ':'
  {
    var colon := RFind(identifier, ':');
    assert forall j :: colon < j < |identifier| ==> identifier[j] != ':';
    identifier[colon + 1..]
  }

  /** An identifier of the form `oai:host:id` gives `id` when `id` has no `:`. */
  lemma DocIdOfSuffix(prefix: string, id: string)
    requires ':' !in id
    ensures DocId(prefix + ":" + id) == id
  {
    var identifier := prefix + ":" + id;
    assert identifier[|prefix|] == ':';
    assert forall j :: |prefix| < j < |identifier| ==> identifier[j] == id[j - |prefix| - 1];
    assert RFind(identifier, ':') == |prefix|;
    assert identifier[|prefix| + 1..] == id;
  }

  /** The formats whose `GetRecord` (or the write of its result) raised, in the order tried;
      `outcome(identifier, format)` tells whether that retrieval went through. */
  function FailedFormats(identifier: string, formats: seq<string>,
                         outcome: (string, string) -> bool): seq<string>
  {
    if formats == [] then []
    else
      var earlier := FailedFormats(identifier, formats[..|formats| - 1], outcome);
      var format := formats[|formats| - 1];
      if outcome(identifier, format) then earlier else earlier + [format]
  }

  /** The failed formats are a subsequence of the formats, and a format is among them exactly
      when its retrieval failed. */
  lemma {:induction false} FailedFormatsExact(identifier: string, formats: seq<string>,
                                              outcome: (string, string) -> bool)
    ensures var failed := FailedFormats(identifier, formats, outcome);
      && |failed| <= |formats|
      && (forall f :: f in failed <==> f in formats && !outcome(identifier, f))
  {
    if formats != [] {
      FailedFormatsExact(identifier, formats[..|formats| - 1], outcome);
      assert formats == formats[..|formats| - 1] + [formats[|formats| - 1]];
    }
  }

  /** The failed formats keep the order and the repetitions of the formats list: failed format
      `k` is the format at position `src[k]`, the positions increase, and every position whose
      retrieval failed is one of them. */
  lemma {:induction false} FailedFormatsInOrder(identifier: string, formats: seq<string>,
                                                outcome: (string, string) -> bool)
    returns (src: seq<nat>)
    ensures var failed := FailedFormats(identifier, formats, outcome);
      && |src| == |failed|
      && (forall k :: 0 <= k < |src| ==> src[k] < |formats| && failed[k] == formats[src[k]])
      && (forall k, l :: 0 <= k < l < |src| ==> src[k] < src[l])
      && (forall i :: 0 <= i < |formats| && !outcome(identifier, formats[i]) ==> i in src)
  {
    if formats == [] {
      src := [];
    } else {
      var n := |formats| - 1;
      var init := formats[..n];
      var earlier := FailedFormats(identifier, init, outcome);
      var srcInit := FailedFormatsInOrder(identifier, init, outcome);
      assert forall i :: 0 <= i < n ==> init[i] == formats[i];
      if outcome(identifier, formats[n]) {
        src := srcInit;
      } else {
        src := srcInit + [n];
        assert FailedFormats(identifier, formats, outcome) == earlier + [formats[n]];
      }
    }
  }

  /** As many formats failed as were tried exactly when every one of them failed; so with no
      formats at all, a record counts as fully failed. */
  lemma {:induction false} AllFailedIff(identifier: string, formats: seq<string>,
                                        outcome: (string, string) -> bool)
    ensures |FailedFormats(identifier, formats, outcome)| == |formats|
            <==> forall f :: f in formats ==> !outcome(identifier, f)
  {
    if formats != [] {
      var init := formats[..|formats| - 1];
      var last := formats[|formats| - 1];
      AllFailedIff(identifier, init, outcome);
      FailedFormatsExact(identifier, init, outcome);
      assert formats == init + [last];
      assert forall f :: f in formats <==> f in init || f == last;
    }
  }

  /** No format failed exactly when every format went through. */
  lemma {:induction false} NoneFailedIff(identifier: string, formats: seq<string>,
                                         outcome: (string, string) -> bool)
    ensures FailedFormats(identifier, formats, outcome) == []
            <==> forall f :: f in formats ==> outcome(identifier, f)
  {
    FailedFormatsExact(identifier, formats, outcome);
    if FailedFormats(identifier, formats, outcome) != [] {
      var failed := FailedFormats(identifier, formats, outcome);
      assert failed[0] in failed;
    }
  }

  /** The classification the statistics use: all formats failed, some failed, or none. */
  function Classify(failed: seq<string>, formats: seq<string>): Classification
  {
    if |failed| == |formats| then FullFailure
    else if failed != [] then PartialFailure
    else Success
  }

  /** The classification of one record. */
  function RecordClass(identifier: string, formats: seq<string>,
                       outcome: (string, string) -> bool): Classification
  {
    Classify(FailedFormats(identifier, formats, outcome), formats)
  }

  /** A record is fully failed exactly when every format failed, partially failed exactly when
      some but not all failed, and fine exactly when the format list is non-empty and nothing
      failed. */
  lemma ClassifyRecord(identifier: string, formats: seq<string>, outcome: (string, string) -> bool)
    ensures RecordClass(identifier, formats, outcome) == FullFailure
            <==> forall f :: f in formats ==> !outcome(identifier, f)
    ensures RecordClass(identifier, formats, outcome) == PartialFailure
            <==> (exists f :: f in formats && !outcome(identifier, f))
                 && (exists f :: f in formats && outcome(identifier, f))
    ensures RecordClass(identifier, formats, outcome) == Success
            <==> formats != [] && forall f :: f in formats ==> outcome(identifier, f)
  {
    AllFailedIff(identifier, formats, outcome);
    NoneFailedIff(identifier, formats, outcome);
    FailedFormatsExact(identifier, formats, outcome);
    if formats != [] {
      assert formats[0] in formats;
    }
  }

  /** The statistics after one more record. */
  function Step(s: Summary, identifier: string, formats: seq<string>,
                outcome: (string, string) -> bool): Summary
  {
    var id := DocId(identifier);
    var total := s.totalDocs + 1;
    var failed := FailedFormats(identifier, formats, outcome);
    var paused := if total % PauseEvery == 0 then s.pausedAfter + [total] else s.pausedAfter;
    if |failed| == |formats| then
      Summary(total, s.failedDocs + {id}, s.partialFailures, paused)
    else if failed != [] then
      Summary(total, s.failedDocs, s.partialFailures[id := failed], paused)
    else
      Summary(total, s.failedDocs, s.partialFailures, paused)
  }

  /** The statistics after the given records, starting from nothing. */
  function Run(identifiers: seq<string>, formats: seq<string>,
               outcome: (string, string) -> bool): Summary
  {
    if identifiers == [] then Summary(0, {}, map[], [])
    else
      Step(Run(identifiers[..|identifiers| - 1], formats, outcome),
           identifiers[|identifiers| - 1], formats, outcome)
  }

  /** A record whose formats all went through leaves both failure collections as they were. */
  lemma SuccessChangesNothing(s: Summary, identifier: string, formats: seq<string>,
                              outcome: (string, string) -> bool)
    requires formats != [] && forall f :: f in formats ==> outcome(identifier, f)
    ensures Step(s, identifier, formats, outcome).failedDocs == s.failedDocs
    ensures Step(s, identifier, formats, outcome).partialFailures == s.partialFailures
  {
    NoneFailedIff(identifier, formats, outcome);
  }

  /** The counter is the number of records, and the loop has paused after records 10, 20, ...,
      that is, `total_docs // 10` times. */
  lemma {:induction false} RunCounts(identifiers: seq<string>, formats: seq<string>,
                                     outcome: (string, string) -> bool)
    ensures var s := Run(identifiers, formats, outcome);
      && s.totalDocs == |identifiers|
      && |s.pausedAfter| == |identifiers| / PauseEvery
      && forall j :: 0 <= j < |s.pausedAfter| ==> s.pausedAfter[j] == PauseEvery * (j + 1)
  {
    if identifiers != [] {
      var n := |identifiers| - 1;
      RunCounts(identifiers[..n], formats, outcome);
      RunLast(identifiers, formats, outcome);
      StepCounts(Run(identifiers[..n], formats, outcome), identifiers[n], formats, outcome);
    }
  }

  /** One more record adds one to the counter, and a pause after every tenth. */
  lemma StepCounts(s: Summary, identifier: string, formats: seq<string>,
                   outcome: (string, string) -> bool)
    ensures Step(s, identifier, formats, outcome).totalDocs == s.totalDocs + 1
    ensures Step(s, identifier, formats, outcome).pausedAfter
            == if (s.totalDocs + 1) % PauseEvery == 0 then s.pausedAfter + [s.totalDocs + 1]
               else s.pausedAfter
  {
  }

  /** The report's count of failed documents, `len(failed_docs)`, counts distinct ids, so it
      never exceeds the number of records; neither does the number of partial-failure entries. */
  lemma {:induction false} ReportedCountsBounded(identifiers: seq<string>, formats: seq<string>,
                                                 outcome: (string, string) -> bool)
    ensures |Run(identifiers, formats, outcome).failedDocs| <= |identifiers|
    ensures |Run(identifiers, formats, outcome).partialFailures| <= |identifiers|
  {
    if identifiers != [] {
      ReportedCountsBounded(identifiers[..|identifiers| - 1], formats, outcome);
    }
  }

  /** Record `k` (counted from 0) is classified as `c`. */
  ghost predicate ClassifiedAt(identifiers: seq<string>, formats: seq<string>,
                               outcome: (string, string) -> bool, k: int, c: Classification)
  {
    0 <= k < |identifiers| && RecordClass(identifiers[k], formats, outcome) == c
  }

  /** Record `k` (counted from 0) is fully failed. */
  ghost predicate FullyFailedAt(identifiers: seq<string>, formats: seq<string>,
                                outcome: (string, string) -> bool, k: int)
  {
    ClassifiedAt(identifiers, formats, outcome, k, FullFailure)
  }

  /** Record `k` (counted from 0) is partially failed. */
  ghost predicate PartlyFailedAt(identifiers: seq<string>, formats: seq<string>,
                                 outcome: (string, string) -> bool, k: int)
  {
    ClassifiedAt(identifiers, formats, outcome, k, PartialFailure)
  }

  /** One more record adds its id to the fully failed ones exactly when it fully failed. */
  lemma StepFailedDocs(s: Summary, identifier: string, formats: seq<string>,
                       outcome: (string, string) -> bool)
    ensures Step(s, identifier, formats, outcome).failedDocs
            == if RecordClass(identifier, formats, outcome) == FullFailure
               then s.failedDocs + {DocId(identifier)} else s.failedDocs
  {
  }

  /** The statistics after one more record. */
  lemma RunLast(identifiers: seq<string>, formats: seq<string>, outcome: (string, string) -> bool)
    requires identifiers != []
    ensures Run(identifiers, formats, outcome)
            == Step(Run(identifiers[..|identifiers| - 1], formats, outcome),
                    identifiers[|identifiers| - 1], formats, outcome)
  {
  }

  /** The records classified `c` with id `id` grow by the last record exactly when it is one. */
  lemma ClassifiedGrow(identifiers: seq<string>, init: seq<string>, formats: seq<string>,
                       outcome: (string, string) -> bool, c: Classification, id: string,
                       had: bool, has: bool)
    requires identifiers != [] && init == identifiers[..|identifiers| - 1]
    requires had <==> exists k :: ClassifiedAt(init, formats, outcome, k, c) && DocId(init[k]) == id
    requires has <==> had || (ClassifiedAt(identifiers, formats, outcome, |identifiers| - 1, c)
                               && DocId(identifiers[|identifiers| - 1]) == id)
    ensures has <==> exists k :: ClassifiedAt(identifiers, formats, outcome, k, c)
                                 && DocId(identifiers[k]) == id
  {
    var n := |identifiers| - 1;
    if had {
      var k :| ClassifiedAt(init, formats, outcome, k, c) && DocId(init[k]) == id;
      assert init[k] == identifiers[k];
      assert ClassifiedAt(identifiers, formats, outcome, k, c);
    } else if has {
      assert ClassifiedAt(identifiers, formats, outcome, n, c);
    }
    if !has {
      forall k | 0 <= k < |identifiers| && DocId(identifiers[k]) == id
        ensures !ClassifiedAt(identifiers, formats, outcome, k, c)
      {
        if k < n {
          assert init[k] == identifiers[k];
          assert !ClassifiedAt(init, formats, outcome, k, c);
        }
      }
    }
  }

  /** The statistics after the first `i + 1` records. */
  lemma RunPrefixStep(identifiers: seq<string>, i: nat, formats: seq<string>,
                      outcome: (string, string) -> bool)
    requires i < |identifiers|
    ensures Run(identifiers[..i + 1], formats, outcome)
            == Step(Run(identifiers[..i], formats, outcome), identifiers[i], formats, outcome)
  {
    assert identifiers[..i + 1][..i] == identifiers[..i];
    RunLast(identifiers[..i + 1], formats, outcome);
  }

  /** An id is among the fully failed ones exactly when some record with that id had every
      format fail; a later success does not remove it. */
  lemma {:induction false} FailedDocsExact(identifiers: seq<string>, formats: seq<string>,
                                           outcome: (string, string) -> bool, id: string)
    ensures id in Run(identifiers, formats, outcome).failedDocs
            <==> exists k :: FullyFailedAt(identifiers, formats, outcome, k)
                             && DocId(identifiers[k]) == id
  {
    if identifiers != [] {
      var n := |identifiers| - 1;
      var before := Run(identifiers[..n], formats, outcome);
      FailedDocsExact(identifiers[..n], formats, outcome, id);
      RunLast(identifiers, formats, outcome);
      StepFailedDocs(before, identifiers[n], formats, outcome);
      ClassifiedGrow(identifiers, identifiers[..n], formats, outcome, FullFailure, id,
                     id in before.failedDocs, id in Run(identifiers, formats, outcome).failedDocs);
    }
  }

  /** Record `k` is the last one classified `c` with id `id`. */
  ghost predicate LastClassifiedWith(identifiers: seq<string>, formats: seq<string>,
                                     outcome: (string, string) -> bool, id: string, k: int,
                                     c: Classification)
  {
    && ClassifiedAt(identifiers, formats, outcome, k, c)
    && DocId(identifiers[k]) == id
    && forall l :: k < l < |identifiers| && ClassifiedAt(identifiers, formats, outcome, l, c)
                   ==> DocId(identifiers[l]) != id
  }

  /** Record `k` is the last partially failed record with id `id`. */
  ghost predicate LastPartialWith(identifiers: seq<string>, formats: seq<string>,
                                  outcome: (string, string) -> bool, id: string, k: int)
  {
    LastClassifiedWith(identifiers, formats, outcome, id, k, PartialFailure)
  }

  /** One more record sets the entry of its id exactly when it partially failed. */
  lemma StepPartialFailures(s: Summary, identifier: string, formats: seq<string>,
                            outcome: (string, string) -> bool)
    ensures Step(s, identifier, formats, outcome).partialFailures
            == if RecordClass(identifier, formats, outcome) == PartialFailure
               then s.partialFailures[DocId(identifier) := FailedFormats(identifier, formats, outcome)]
               else s.partialFailures
  {
  }

  /** An id has a partial-failure entry exactly when some record with that id partially
      failed; a later success or full failure does not remove the entry. */
  lemma {:induction false} PartialKeysExact(identifiers: seq<string>, formats: seq<string>,
                                            outcome: (string, string) -> bool, id: string)
    ensures id in Run(identifiers, formats, outcome).partialFailures
            <==> exists k :: PartlyFailedAt(identifiers, formats, outcome, k)
                             && DocId(identifiers[k]) == id
  {
    if identifiers != [] {
      var n := |identifiers| - 1;
      var before := Run(identifiers[..n], formats, outcome);
      PartialKeysExact(identifiers[..n], formats, outcome, id);
      RunLast(identifiers, formats, outcome);
      StepPartialFailures(before, identifiers[n], formats, outcome);
      ClassifiedGrow(identifiers, identifiers[..n], formats, outcome, PartialFailure, id,
                     id in before.partialFailures, id in Run(identifiers, formats, outcome).partialFailures);
    }
  }

  /** The partial-failure entry of an id holds the failed formats of the last record with that
      id that partially failed: a later one overwrites an earlier one. */
  lemma {:induction false} PartialEntryIsLast(identifiers: seq<string>, formats: seq<string>,
                                              outcome: (string, string) -> bool, id: string)
    requires id in Run(identifiers, formats, outcome).partialFailures
    ensures exists k :: LastPartialWith(identifiers, formats, outcome, id, k)
                        && Run(identifiers, formats, outcome).partialFailures[id]
                           == FailedFormats(identifiers[k], formats, outcome)
  {
    var n := |identifiers| - 1;
    var init := identifiers[..n];
    var prev := Run(init, formats, outcome);
    RunLast(identifiers, formats, outcome);
    StepPartialFailures(prev, identifiers[n], formats, outcome);
    if PartlyFailedAt(identifiers, formats, outcome, n) && DocId(identifiers[n]) == id {
      assert LastPartialWith(identifiers, formats, outcome, id, n);
    } else {
      PartialEntryIsLast(init, formats, outcome, id);
      var k :| LastPartialWith(init, formats, outcome, id, k)
               && prev.partialFailures[id] == FailedFormats(init[k], formats, outcome);
      LastClassifiedExtends(identifiers, init, formats, outcome, id, k, PartialFailure);
    }
  }

  /** A last record that is not classified `c` with id `id` keeps the last one that is. */
  lemma LastClassifiedExtends(identifiers: seq<string>, init: seq<string>, formats: seq<string>,
                              outcome: (string, string) -> bool, id: string, k: int,
                              c: Classification)
    requires identifiers != [] && init == identifiers[..|identifiers| - 1]
    requires LastClassifiedWith(init, formats, outcome, id, k, c)
    requires !(ClassifiedAt(identifiers, formats, outcome, |identifiers| - 1, c)
               && DocId(identifiers[|identifiers| - 1]) == id)
    ensures LastClassifiedWith(identifiers, formats, outcome, id, k, c) && identifiers[k] == init[k]
  {
    var n := |identifiers| - 1;
    assert identifiers[k] == init[k];
    assert ClassifiedAt(identifiers, formats, outcome, k, c);
    forall l | k < l < |identifiers| && ClassifiedAt(identifiers, formats, outcome, l, c)
      ensures DocId(identifiers[l]) != id
    {
      if l < n {
        assert init[l] == identifiers[l];
        assert ClassifiedAt(init, formats, outcome, l, c);
        assert DocId(init[l]) != id;
      } else {
        assert l == n;
      }
    }
  }

  /** With an empty format list every record is fully failed, so every id ends up among the
      failed ones and none among the partial ones. */
  lemma NoFormatsAllFailed(identifiers: seq<string>, outcome: (string, string) -> bool, id: string)
    ensures id in Run(identifiers, [], outcome).failedDocs
            <==> exists k :: 0 <= k < |identifiers| && DocId(identifiers[k]) == id
    ensures Run(identifiers, [], outcome).partialFailures == map[]
  {
    FailedDocsExact(identifiers, [], outcome, id);
    assert forall k :: 0 <= k < |identifiers| ==> FullyFailedAt(identifiers, [], outcome, k);
    NoFormatsNoPartial(identifiers, outcome);
  }

  /** With an empty format list no record is partially failed. */
  lemma {:induction false} NoFormatsNoPartial(identifiers: seq<string>,
                                              outcome: (string, string) -> bool)
    ensures Run(identifiers, [], outcome).partialFailures == map[]
  {
    if identifiers != [] {
      NoFormatsNoPartial(identifiers[..|identifiers| - 1], outcome);
    }
  }

  /** The inner loop: try every format for one record and collect those that failed. */
  method RetrieveFormats(identifier: string, formats: seq<string>,
                         outcome: (string, string) -> bool)
    returns (failedFormats: seq<string>)
    ensures failedFormats == FailedFormats(identifier, formats, outcome)
  {
    failedFormats := [];
    for j := 0 to |formats|
      invariant failedFormats == FailedFormats(identifier, formats[..j], outcome)
    {
      assert formats[..j + 1][..j] == formats[..j];
      var format := formats[j];
      if !outcome(identifier, format) {
        failedFormats := failedFormats + [format];
      }
    }
    assert formats[..|formats|] == formats;
  }

  /** `harvest_all_metadata` with the protocol client replaced by `outcome` and the pauses
      recorded instead of slept. */
  method HarvestAllMetadata(formats: seq<string>, identifiers: seq<string>,
                            outcome: (string, string) -> bool)
    returns (summary: Summary)
    ensures summary == Run(identifiers, formats, outcome)
  {
    var totalDocs := 0;
    var failedDocs: set<string> := {};
    var partialFailures: map<string, seq<string>> := map[];
    var pausedAfter: seq<nat> := [];
    for i := 0 to |identifiers|
      invariant Summary(totalDocs, failedDocs, partialFailures, pausedAfter)
                == Run(identifiers[..i], formats, outcome)
    {
      RunPrefixStep(identifiers, i, formats, outcome);
      ghost var before := Summary(totalDocs, failedDocs, partialFailures, pausedAfter);
      var identifier := identifiers[i];
      var docId := DocId(identifier);
      totalDocs := totalDocs + 1;
      var failedFormats := RetrieveFormats(identifier, formats, outcome);
      if totalDocs % PauseEvery == 0 {
        pausedAfter := pausedAfter + [totalDocs];
      }
      if |failedFormats| == |formats| {
        failedDocs := failedDocs + {docId};
      } else if failedFormats != [] {
        partialFailures := partialFailures[docId := failedFormats];
      }
      assert Summary(totalDocs, failedDocs, partialFailures, pausedAfter)
             == Step(before, identifier, formats, outcome);
    }
    assert identifiers[..|identifiers|] == identifiers;
    summary := Summary(totalDocs, failedDocs, partialFailures, pausedAfter);
  }
}
