/** The two index slots of `app/kb.py` (`_default_index` and `_custom_index`)
    and the operations that fill, swap, clear and query them. The default
    knowledge-base file is passed in as its text, or `None` when the file
    does not exist. */
module Lifecycle {
  import opened Text
  import opened Vectors
  import opened KnowledgeIndex
  import opened Ranking

  /** Why a default index could not be had: the `RuntimeError` for a missing
      file, or the `ValueError` of `_build_index`. */
  datatype LoadError = DefaultFileMissing | BuildFailed(cause: BuildError)

  /** What `_ensure_default_loaded` leaves in the default slot and what it
      raises, given the slot before and the file text. */
  function DefaultAfterEnsure(slot: Option<Index>, source: Option<string>): (r: (Option<Index>, Option<LoadError>))
    ensures slot.Some? ==> r == (slot, None)
    ensures r.0.Some? <==> r.1.None?
    ensures slot.None? && source.None? ==> r.1 == Some(DefaultFileMissing)
    ensures slot.None? && source.Some? ==>
      if IndexOf(source.value).Success? then r.0 == Some(IndexOf(source.value).value)
      else r.1 == Some(BuildFailed(NoBlocks))
  {
    if slot.Some? then (slot, None)
    else if source.None? then (None, Some(DefaultFileMissing))
    else match IndexOf(source.value)
      case Success(ix) => (Some(ix), None)
      case Failure(e) => (None, Some(BuildFailed(e)))
  }

  class KnowledgeBase {
    var defaultIndex: Option<Index>
    var customIndex: Option<Index>

    /** Every index a slot holds is one `_build_index` produced. */
    ghost predicate Valid()
      reads this
    {
      && (defaultIndex.Some? ==> WellFormed(defaultIndex.value))
      && (customIndex.Some? ==> WellFormed(customIndex.value))
    }

    /** The index `search_similar` queries: the custom one when asked for and
        present, otherwise the default one. */
    function Chosen(useCustom: bool): (r: Option<Index>)
      reads this
      ensures !useCustom ==> r == defaultIndex
      ensures useCustom && customIndex.Some? ==> r == customIndex
      ensures customIndex.None? ==> r == defaultIndex
      ensures r.None? ==> defaultIndex.None?
    {
      if useCustom && customIndex.Some? then customIndex else defaultIndex
    }

    /** Import of the module: both slots empty, then one attempt at loading
        the default index whose error is swallowed. */
    constructor (source: Option<string>)
      ensures Valid()
      ensures defaultIndex == DefaultAfterEnsure(None, source).0
      ensures customIndex == None
    {
      defaultIndex := None;
      customIndex := None;
      new;
      var _ := EnsureDefaultLoaded(source);
    }

    /** `_ensure_default_loaded`: builds the default index from the file the
        first time; a slot already filled is kept as it is. */
    method EnsureDefaultLoaded(source: Option<string>) returns (err: Option<LoadError>)
      requires Valid()
      modifies this`defaultIndex
      ensures Valid()
      ensures (defaultIndex, err) == DefaultAfterEnsure(old(defaultIndex), source)
    {
      if defaultIndex.Some? {
        return None;
      }
      if source.None? {
        return Some(DefaultFileMissing);
      }
      var built := BuildIndex(source.value);
      if built.Success? {
        defaultIndex := Some(built.value);
        err := None;
      } else {
        err := Some(BuildFailed(built.error));
      }
    }

    /** `load_custom_kb_from_text`: on success the custom slot holds the new
        index and the entry count (at least one) is returned; on failure the
        previous custom slot stays. The default slot is never touched. */
    method LoadCustom(text: string) returns (r: Result<nat, BuildError>)
      requires Valid()
      modifies this`customIndex
      ensures Valid()
      ensures IndexOf(text).Success? ==>
        && customIndex == Some(IndexOf(text).value)
        && r == Success(|IndexOf(text).value.entries|)
        && r.value >= 1
      ensures IndexOf(text).Failure? ==> customIndex == old(customIndex) && r == Failure(NoBlocks)
    {
      var built := BuildIndex(text);
      match built {
        case Success(ix) =>
          customIndex := Some(ix);
          r := Success(|ix.entries|);
        case Failure(e) =>
          r := Failure(e);
      }
    }

    /** `reset_custom_kb`. */
    method ResetCustom()
      requires Valid()
      modifies this`customIndex
      ensures Valid()
      ensures customIndex == None
    {
      customIndex := None;
    }

    /** `search_similar`: makes sure the default index is loaded (even when
        the custom one is asked for), then scores, sorts and cuts the chosen
        index. */
    method SearchSimilar(question: string, topK: int, useCustom: bool, source: Option<string>)
      returns (r: Result<seq<ScoredItem>, LoadError>)
      requires Valid()
      modifies this`defaultIndex
      ensures Valid()
      ensures (defaultIndex, if r.Failure? then Some(r.error) else None) == DefaultAfterEnsure(old(defaultIndex), source)
      ensures r.Success? ==> r.value == Search(Chosen(useCustom).value, question, topK)
    {
      var err := EnsureDefaultLoaded(source);
      if err.Some? {
        return Failure(err.value);
      }
      var index := if useCustom && customIndex.Some? then customIndex.value else defaultIndex.value;
      var qv := Vectorize(question);
      var qn2 := NormSquared(qv);
      var scored := ScoreRows(index, qv, qn2);
      // `scored.sort(...)` reorders the list in place; here it is replaced by its sorted value.
      scored := SortDesc(scored);
      r := Success(scored[..SliceEnd(|scored|, topK)]);
    }
  }

  /** A failed upload does not disturb an earlier successful one: the custom
      index that answers is still the first one. */
  method UploadThenFailedUpload(kb: KnowledgeBase, good: string, bad: string, question: string, topK: int, source: Option<string>)
    returns (r: Result<seq<ScoredItem>, LoadError>)
    requires kb.Valid()
    requires IndexOf(good).Success? && IndexOf(bad).Failure?
    modifies kb
    ensures r.Success? ==> r.value == Search(IndexOf(good).value, question, topK)
  {
    UploadTwice(kb, good, bad);
    var uploaded := kb.customIndex;
    r := kb.SearchSimilar(question, topK, true, source);
    assert kb.customIndex == uploaded;
    assert kb.Chosen(true) == uploaded;
  }

  /** A good upload, then a failed one: the first upload stays in place. */
  method UploadTwice(kb: KnowledgeBase, good: string, bad: string)
    requires kb.Valid()
    requires IndexOf(good).Success? && IndexOf(bad).Failure?
    modifies kb
    ensures kb.Valid() && kb.customIndex == Some(IndexOf(good).value)
  {
    var n1 := kb.LoadCustom(good);
    var n2 := kb.LoadCustom(bad);
  }

  /** The default index is loaded before the slot is chosen, so without the
      default file a search fails even when an uploaded index is there to answer. */
  method CustomSearchWithoutDefaultFile(kb: KnowledgeBase, good: string, question: string, topK: int)
    returns (r: Result<seq<ScoredItem>, LoadError>)
    requires kb.Valid() && kb.defaultIndex.None? && IndexOf(good).Success?
    modifies kb
    ensures kb.customIndex == Some(IndexOf(good).value)
    ensures r == Failure(DefaultFileMissing)
  {
    var n := kb.LoadCustom(good);
    r := kb.SearchSimilar(question, topK, true, None);
  }

  /** After a reset, asking for the custom index answers exactly as asking
      for the default one. */
  method UploadThenReset(kb: KnowledgeBase, good: string, question: string, topK: int, source: Option<string>)
    returns (withCustom: Result<seq<ScoredItem>, LoadError>, withDefault: Result<seq<ScoredItem>, LoadError>)
    requires kb.Valid()
    modifies kb
    ensures withCustom == withDefault
  {
    var n := kb.LoadCustom(good);
    kb.ResetCustom();
    withCustom := kb.SearchSimilar(question, topK, true, source);
    withDefault := kb.SearchSimilar(question, topK, false, source);
  }
}
