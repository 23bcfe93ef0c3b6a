/** The pure part of the update run: list, extract names, build records,
    batch. Connecting, listing and submitting are not part of this model; the
    listing result is the input. */
module Pipeline {
  import opened Shapes
  import opened Batching
  import opened ProfileNames
  import opened Records

  /** Records per update call. */
  const BatchSize: nat := 10

  /** The error thrown when the listing is not an array. */
  const ListingFailed: string := "Failed to retrieve profile metadata"

  /** From the listing to the batches handed to the update calls. A listing
      that is not an array aborts the run; otherwise the retained names become
      records, which are cut into batches of ten. */
  function PrepareUpdates<P>(metadata: Input<MetadataDescriptor>, cfg: Config<P>, decode: string -> string)
    : (r: Result<seq<seq<ProfileRecord<P>>>>)
    ensures r.Failure? <==> metadata.NotAnArray?
    ensures r.Failure? ==> r.reason == ListingFailed
    ensures r.Success? ==>
      Flatten(r.value) == BuildRecords(ExtractProfileNames(metadata, cfg.excludedProfiles, decode), cfg)
    ensures r.Success? ==> WellShaped(r.value, BatchSize)
    ensures r.Success? ==>
      |r.value| == CeilDiv(|ExtractProfileNames(metadata, cfg.excludedProfiles, decode)|, BatchSize)
  {
    match metadata
    case NotAnArray => Failure(ListingFailed)
    case JsArray(md) =>
      var names := ExtractProfileNames(metadata, cfg.excludedProfiles, decode);
      ChunksPartition(BuildRecords(names, cfg), BatchSize);
      Success(Chunks(BuildRecords(names, cfg), BatchSize))
  }

  /** Record `j` of batch `k` is the update for retained name `10 * k + j`:
      the batches carry the retained names one-to-one and in order, each with
      the configured class accesses and object permissions. */
  lemma BatchedRecordAt<P>(metadata: Input<MetadataDescriptor>, cfg: Config<P>, decode: string -> string, k: nat, j: nat)
    requires PrepareUpdates(metadata, cfg, decode).Success?
    requires k < |PrepareUpdates(metadata, cfg, decode).value|
    requires j < |PrepareUpdates(metadata, cfg, decode).value[k]|
    ensures var names := ExtractProfileNames(metadata, cfg.excludedProfiles, decode);
      && k * BatchSize + j < |names|
      && PrepareUpdates(metadata, cfg, decode).value[k][j]
         == ProfileRecord(names[k * BatchSize + j], ClassAccesses(cfg.classAccess), ObjectPermissions(cfg))
  {
    var names := ExtractProfileNames(metadata, cfg.excludedProfiles, decode);
    ChunksIndex(BuildRecords(names, cfg), BatchSize, k, j);
  }

  /** A listing of 23 profiles of which 2 are excluded gives 21 records in
      three batches of sizes 10, 10 and 1. */
  lemma TwentyThreeListedTwoExcluded<P>(metadata: Input<MetadataDescriptor>, cfg: Config<P>, decode: string -> string)
    requires metadata.JsArray? && |metadata.elems| == 23
    requires |ExcludedPositions(Decoded(metadata.elems, decode), cfg.excludedProfiles)| == 2
    ensures PrepareUpdates(metadata, cfg, decode).Success?
    ensures var batches := PrepareUpdates(metadata, cfg, decode).value;
      && |batches| == 3
      && |batches[0]| == 10 && |batches[1]| == 10 && |batches[2]| == 1
      && |Flatten(batches)| == 21
  {
    var names := ExtractProfileNames(metadata, cfg.excludedProfiles, decode);
    var records := BuildRecords(names, cfg);
    assert |records| == 21;
    ChunksHead(records, BatchSize);
    ChunksHead(records[10..], BatchSize);
    assert records[10..][10..] == records[20..];
    ChunksHead(records[20..], BatchSize);
  }
}
