/**
 * The upload step: fetch the downloads manifest, refuse an empty one,
 * upload the artifact, then upload the manifest with the new entry
 * appended. The first failure ends the run, as the single try/catch of the
 * step does.
 */
module Publish {

  import opened Wrappers
  import opened ObjectStore
  import Downloads

  /** The step's inputs, besides the bucket itself and the artifact's contents. */
  datatype Inputs = Inputs(bucketFile: Key, downloadsYml: Key, releaseType: string)

  /** Why a run failed. */
  datatype RunError =
    | Store(cause: StoreError)          // a get or a put threw
    | UnknownDownloadsFile(key: Key)    // the manifest was fetched but is empty

  datatype Outcome = Succeeded | Failed(error: RunError)

  /** The new manifest text a run writes for manifest content `oldDownloads`. */
  function NewDownloads(inp: Inputs, oldDownloads: string, date: string): string
  {
    Downloads.UpdateDownloadsYml(inp.releaseType, inp.bucketFile, oldDownloads, date)
  }

  /** The requests a complete run makes, in order. */
  function FullSequence(inp: Inputs): seq<Request>
  {
    [Get(inp.downloadsYml), Put(inp.bucketFile), Put(inp.downloadsYml)]
  }

  /**
   * One run against store state `s`: its outcome and the state after it.
   * `artifact` is the contents of the local input file; `date` is the
   * timestamp the entry records.
   */
  function Run(s: State, f: Faults, inp: Inputs, artifact: string, date: string): (r: (Outcome, State))
    ensures |s.log| < |r.1.log| && r.1.log[..|s.log|] == s.log
    ensures r.1.log[|s.log|..] <= FullSequence(inp)
    ensures |r.1.log| == |s.log| + 3 ==> inp.bucketFile !in f.rejected
    ensures r.0.Succeeded? ==> |r.1.log| == |s.log| + 3
  {
    RunLogs(s.log, inp);
    var (got, s1) := GetStep(s, f, inp.downloadsYml);
    if got.Failure? then (Failed(Store(got.error)), s1)
    else if got.value == "" then (Failed(UnknownDownloadsFile(inp.downloadsYml)), s1)
    else
      var newDownloads := NewDownloads(inp, got.value, date);
      var (putArtifact, s2) := PutStep(s1, f, inp.bucketFile, artifact);
      if putArtifact.Failure? then (Failed(Store(putArtifact.error)), s2)
      else
        var (putManifest, s3) := PutStep(s2, f, inp.downloadsYml, newDownloads);
        if putManifest.Failure? then (Failed(Store(putManifest.error)), s3)
        else (Succeeded, s3)
  }

  /** The step itself, against a live bucket. */
  method RunStep(bucket: Bucket, inp: Inputs, artifact: string, date: string) returns (outcome: Outcome)
    modifies bucket
    ensures (outcome, bucket.Snapshot()) == Run(old(bucket.Snapshot()), bucket.faults, inp, artifact, date)
  {
    var got := bucket.GetObject(inp.downloadsYml);
    if got.Failure? {
      return Failed(Store(got.error));
    }
    var oldDownloads := got.value;
    if oldDownloads == "" {
      return Failed(UnknownDownloadsFile(inp.downloadsYml));
    }
    var newDownloads := NewDownloads(inp, oldDownloads, date);
    var put := bucket.PutObject(inp.bucketFile, artifact);
    if put.Failure? {
      return Failed(Store(put.error));
    }
    put := bucket.PutObject(inp.downloadsYml, newDownloads);
    if put.Failure? {
      return Failed(Store(put.error));
    }
    return Succeeded;
  }

  /** The request log after one, two or three steps of a run extends the old log by a prefix of the full sequence. */
  lemma RunLogs(log: seq<Request>, inp: Inputs)
    ensures var l1 := log + [Get(inp.downloadsYml)];
            var l2 := l1 + [Put(inp.bucketFile)];
            var l3 := l2 + [Put(inp.downloadsYml)];
            && l1[..|log|] == log && l1[|log|..] <= FullSequence(inp)
            && l2[..|log|] == log && l2[|log|..] <= FullSequence(inp)
            && l3[..|log|] == log && l3[|log|..] <= FullSequence(inp)
  {
    var l1 := log + [Get(inp.downloadsYml)];
    var l2 := l1 + [Put(inp.bucketFile)];
    var l3 := l2 + [Put(inp.downloadsYml)];
    assert l1[|log|..] == FullSequence(inp)[..1];
    assert l2[|log|..] == FullSequence(inp)[..2];
    assert l3[|log|..] == FullSequence(inp);
  }

  lemma AppendThree<T>(xs: seq<T>, a: T, b: T, c: T)
    ensures xs + [a] + [b] + [c] == xs + [a, b, c]
  {
  }

  /** The manifest can be read and is not empty. */
  predicate ManifestUsable(s: State, f: Faults, key: Key)
  {
    key in s.objects && key !in f.unreadable && s.objects[key] != ""
  }

  /**
   * A missing, unreadable or empty manifest fails the run after the get
   * alone: nothing is written, and the empty case reports the manifest key.
   */
  lemma FailsFastWithoutWrites(s: State, f: Faults, inp: Inputs, artifact: string, date: string)
    requires !ManifestUsable(s, f, inp.downloadsYml)
    ensures var (outcome, s') := Run(s, f, inp, artifact, date);
            && outcome.Failed?
            && s'.objects == s.objects
            && s'.log == s.log + [Get(inp.downloadsYml)]
            && (outcome.error.UnknownDownloadsFile? <==> inp.downloadsYml in s.objects && inp.downloadsYml !in f.unreadable)
            && (inp.downloadsYml !in s.objects ==> outcome.error == Store(NoSuchKey(inp.downloadsYml)))
            && (inp.downloadsYml in f.unreadable ==> outcome.error == Store(
                  if inp.downloadsYml in s.objects then ReadFailed(inp.downloadsYml) else NoSuchKey(inp.downloadsYml)))
  {
  }

  /** A refused artifact upload ends the run before the manifest is put: the bucket is unchanged. */
  lemma ArtifactFailureKeepsManifest(s: State, f: Faults, inp: Inputs, artifact: string, date: string)
    requires ManifestUsable(s, f, inp.downloadsYml)
    requires inp.bucketFile in f.rejected
    ensures var (outcome, s') := Run(s, f, inp, artifact, date);
            && outcome == Failed(Store(PutFailed(inp.bucketFile)))
            && s'.objects == s.objects
            && s'.log == s.log + [Get(inp.downloadsYml), Put(inp.bucketFile)]
  {
  }

  /**
   * A refused manifest upload after a stored artifact leaves the artifact in
   * place and the manifest as it was: the inconsistency is reported, not undone.
   */
  lemma ManifestFailureLeavesArtifact(s: State, f: Faults, inp: Inputs, artifact: string, date: string)
    requires ManifestUsable(s, f, inp.downloadsYml)
    requires inp.bucketFile !in f.rejected && inp.downloadsYml in f.rejected
    ensures var (outcome, s') := Run(s, f, inp, artifact, date);
            && outcome == Failed(Store(PutFailed(inp.downloadsYml)))
            && s'.objects == s.objects[inp.bucketFile := artifact]
            && s'.log == s.log + FullSequence(inp)
  {
    var s1 := GetStep(s, f, inp.downloadsYml).1;
    var s2 := PutStep(s1, f, inp.bucketFile, artifact).1;
    assert s2.objects == s.objects[inp.bucketFile := artifact];
    var s3 := PutStep(s2, f, inp.downloadsYml, NewDownloads(inp, s.objects[inp.downloadsYml], date)).1;
    assert s3.objects == s2.objects;
    AppendThree(s.log, Get(inp.downloadsYml), Put(inp.bucketFile), Put(inp.downloadsYml));
  }

  /**
   * A successful run changes exactly two keys: the artifact key now holds
   * the artifact and the manifest key the old manifest plus the new entry.
   */
  lemma SuccessChangesExactlyTwoKeys(s: State, f: Faults, inp: Inputs, artifact: string, date: string)
    requires Run(s, f, inp, artifact, date).0.Succeeded?
    ensures var s' := Run(s, f, inp, artifact, date).1;
            var dy := inp.downloadsYml;
            && dy in s.objects
            && s'.objects == s.objects[inp.bucketFile := artifact][dy := NewDownloads(inp, s.objects[dy], date)]
            && s'.objects.Keys == s.objects.Keys + {inp.bucketFile}
            && (forall k :: k in s.objects && k != inp.bucketFile && k != dy ==> s'.objects[k] == s.objects[k])
            && s'.objects[dy][..|s.objects[dy]|] == s.objects[dy]
            && (inp.bucketFile != dy ==> s'.objects[inp.bucketFile] == artifact)
            && s'.log == s.log + FullSequence(inp)
  {
  }

  /** A run succeeds exactly when the manifest is usable and both puts are accepted. */
  lemma SucceedsIff(s: State, f: Faults, inp: Inputs, artifact: string, date: string)
    ensures Run(s, f, inp, artifact, date).0.Succeeded?
        <==> ManifestUsable(s, f, inp.downloadsYml)
             && inp.bucketFile !in f.rejected && inp.downloadsYml !in f.rejected
  {
  }

  /**
   * Whatever the outcome, the manifest key ends with its old content or,
   * only once the artifact is stored, with the old content plus the entry.
   * So the manifest never lists an artifact that was not uploaded.
   */
  lemma ManifestListsOnlyUploadedArtifact(s: State, f: Faults, inp: Inputs, artifact: string, date: string)
    requires inp.bucketFile != inp.downloadsYml
    requires inp.downloadsYml in s.objects
    ensures var s' := Run(s, f, inp, artifact, date).1;
            var dy := inp.downloadsYml;
            && dy in s'.objects
            && (s'.objects[dy] == s.objects[dy]
                || (s'.objects[dy] == NewDownloads(inp, s.objects[dy], date)
                    && inp.bucketFile in s'.objects && s'.objects[inp.bucketFile] == artifact))
  {
    if ManifestUsable(s, f, inp.downloadsYml) && inp.bucketFile !in f.rejected {
      var s1 := GetStep(s, f, inp.downloadsYml).1;
      var s2 := PutStep(s1, f, inp.bucketFile, artifact).1;
      assert s2.objects[inp.downloadsYml] == s.objects[inp.downloadsYml];
      assert s2.objects[inp.bucketFile] == artifact;
    }
  }
}
