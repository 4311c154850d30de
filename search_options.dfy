/**
 * Search options (SearchOptions) and the response and file qualification
 * their documentation defines.
 */
module Search {
  import opened Primitives
  import opened Common
  import opened Responses

  /** A search response with its file list parsed (SearchResponse). */
  datatype SearchResponse = SearchResponse(
    username: seq<byte>,
    token: int32,
    freeUploadSlots: int32,
    uploadSpeed: int32,
    queueLength: int64,
    files: seq<File>)

  /** A callback of the embedding application, kept as an opaque handle; it is never invoked here. */
  datatype Callback = Callback(handle: nat)

  /**
   * The options of a search. Every constructor argument is stored in the field
   * of the same name, nothing changes them afterwards, and each omitted
   * argument takes the documented default; None stands for null.
   */
  datatype SearchOptions = SearchOptions(
    username: Option<seq<byte>> := None,
    searchTimeout: int32 := 15,
    responseLimit: int32 := 100,
    filterResponses: bool := true,
    minimumResponseFileCount: int32 := 1,
    minimumPeerFreeUploadSlots: int32 := 0,
    maximumPeerQueueLength: int32 := 1000000,
    minimumPeerUploadSpeed: int32 := 0,
    responseFilter: Option<SearchResponse -> bool> := None,
    fileLimit: int32 := 10000,
    fileFilter: Option<File -> bool> := None,
    stateChanged: Option<Callback> := None,
    responseReceived: Option<Callback> := None)

  lemma Defaults()
    ensures var o := SearchOptions();
            && o.username.None?
            && o.searchTimeout == 15
            && o.responseLimit == 100
            && o.filterResponses
            && o.minimumResponseFileCount == 1
            && o.minimumPeerFreeUploadSlots == 0
            && o.maximumPeerQueueLength == 1000000
            && o.minimumPeerUploadSpeed == 0
            && o.responseFilter.None?
            && o.fileLimit == 10000
            && o.fileFilter.None?
            && o.stateChanged.None? && o.responseReceived.None?
  {
  }

  /**
   * Whether a response is to be processed: when responses are filtered, it
   * must hold at least the minimum number of files, and its peer must have at
   * least the minimum free slots and upload speed and at most the maximum queue.
   */
  predicate Qualifies(options: SearchOptions, response: SearchResponseSlim) {
    !options.filterResponses ||
    (&& response.fileCount >= options.minimumResponseFileCount
     && response.freeUploadSlots >= options.minimumPeerFreeUploadSlots
     && response.queueLength <= options.maximumPeerQueueLength
     && response.uploadSpeed >= options.minimumPeerUploadSpeed)
  }

  /** Each threshold alone disqualifies a response that misses it; unfiltered searches take every response. */
  lemma QualificationRules(options: SearchOptions, response: SearchResponseSlim)
    ensures !options.filterResponses ==> Qualifies(options, response)
    ensures (options.filterResponses && response.fileCount < options.minimumResponseFileCount)
              ==> !Qualifies(options, response)
    ensures (options.filterResponses && response.freeUploadSlots < options.minimumPeerFreeUploadSlots)
              ==> !Qualifies(options, response)
    ensures (options.filterResponses && response.uploadSpeed < options.minimumPeerUploadSpeed)
              ==> !Qualifies(options, response)
    ensures (options.filterResponses && response.queueLength > options.maximumPeerQueueLength)
              ==> !Qualifies(options, response)
    ensures (&& response.fileCount >= options.minimumResponseFileCount
             && response.freeUploadSlots >= options.minimumPeerFreeUploadSlots
             && response.uploadSpeed >= options.minimumPeerUploadSpeed
             && response.queueLength <= options.maximumPeerQueueLength)
              ==> Qualifies(options, response)
  {
  }

  /** Raising a minimum or lowering the maximum never lets more responses through. */
  lemma StricterOptionsQualifyFewer(loose: SearchOptions, strict: SearchOptions, response: SearchResponseSlim)
    requires strict.filterResponses == loose.filterResponses
    requires strict.minimumResponseFileCount >= loose.minimumResponseFileCount
    requires strict.minimumPeerFreeUploadSlots >= loose.minimumPeerFreeUploadSlots
    requires strict.minimumPeerUploadSpeed >= loose.minimumPeerUploadSpeed
    requires strict.maximumPeerQueueLength <= loose.maximumPeerQueueLength
    ensures Qualifies(strict, response) ==> Qualifies(loose, response)
  {
  }

  /**
   * With the default options a parsed response qualifies exactly when it has a
   * file, a non-negative upload speed and at most a million queued transfers:
   * its free slot count, being a byte, always meets the default minimum.
   */
  lemma DefaultQualification(message: Message, inflate: Inflater)
    requires Decode(message, inflate).Ok?
    ensures var r := Decode(message, inflate).value;
            Qualifies(SearchOptions(), r) <==>
              r.fileCount >= 1 && r.uploadSpeed >= 0 && r.queueLength <= 1000000
  {
    FreeUploadSlotsIsAByte(message, inflate);
  }

  /** A peer without free slots is excluded by a minimum of one when filtering, and included when not. */
  lemma FreeSlotFilterSwitch(options: SearchOptions, response: SearchResponseSlim)
    requires response.freeUploadSlots == 0 && options.minimumPeerFreeUploadSlots == 1
    ensures options.filterResponses ==> !Qualifies(options, response)
    ensures !options.filterResponses ==> Qualifies(options, response)
  {
  }

  /** Whether a file is included in a response; without a file filter every file is. */
  function IncludesFile(options: SearchOptions, file: File): (included: bool)
    ensures options.fileFilter.None? ==> included
    ensures options.fileFilter.Some? ==> included == options.fileFilter.value(file)
  {
    match options.fileFilter
    case None => true
    case Some(accept) => accept(file)
  }

  /** Whether a response is included in the results; without a response filter every response is. */
  function IncludesResponse(options: SearchOptions, response: SearchResponse): (included: bool)
    ensures options.responseFilter.None? ==> included
    ensures options.responseFilter.Some? ==> included == options.responseFilter.value(response)
  {
    match options.responseFilter
    case None => true
    case Some(accept) => accept(response)
  }

  /**
   * The files of a response that the file filter includes. FilterFilesCounts
   * gives their multiplicities and FilterFilesAppend their order.
   */
  function FilterFiles(options: SearchOptions, files: seq<File>): (kept: seq<File>)
    ensures |kept| <= |files|
    ensures forall f :: f in kept <==> f in files && IncludesFile(options, f)
    ensures options.fileFilter.None? ==> kept == files
  {
    if files == [] then []
    else (if IncludesFile(options, files[0]) then [files[0]] else []) + FilterFiles(options, files[1..])
  }

  /** Each included file is kept as often as it occurs, each excluded one never. */
  lemma {:induction false} FilterFilesCounts(options: SearchOptions, files: seq<File>)
    ensures forall f :: multiset(FilterFiles(options, files))[f] ==
                          if IncludesFile(options, f) then multiset(files)[f] else 0
  {
    if files != [] {
      FilterFilesCounts(options, files[1..]);
      assert files == [files[0]] + files[1..];
    }
  }

  /** Filtering keeps the original order: the files kept from a + b are those kept from a, then those kept from b. */
  lemma {:induction false} FilterFilesAppend(options: SearchOptions, a: seq<File>, b: seq<File>)
    ensures FilterFiles(options, a + b) == FilterFiles(options, a) + FilterFiles(options, b)
  {
    if a == [] {
      assert a + b == b;
    } else {
      assert (a + b)[1..] == a[1..] + b;
      FilterFilesAppend(options, a[1..], b);
    }
  }
}
