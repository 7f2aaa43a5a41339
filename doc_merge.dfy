/** One run of `DocMerge::execute` on the two files it writes: the crate's
    `search-index.js` merged into the destination's, and `crates.js` derived
    from the result. */
module DocMerge {
  import opened Text
  import opened KeyOrder
  import opened CrateKey
  import opened SearchIndex
  import opened CratesJs

  /** The search index after the run: the crate's own when the destination
      has none yet, the merge otherwise. */
  function IndexAfter(srcIndex: string, destIndex: Option<string>): string
  {
    match destIndex
    case None => srcIndex
    case Some(dest) => MergedText(srcIndex, dest)
  }

  /** The crate keys of a search-index text. */
  function IndexKeys(text: string): set<string>
  {
    KeySet(Split(text, '\n'))
  }

  /** `destIndex` is the destination's `search-index.js`, or nothing when it
      does not exist yet. Returns the written `search-index.js` and
      `crates.js`. */
  method Execute(srcIndex: string, destIndex: Option<string>) returns (index: string, cratesJs: string)
    ensures index == IndexAfter(srcIndex, destIndex)
    ensures cratesJs == Render(CrateNames(index))
    ensures var all := IndexKeys(srcIndex) + (if destIndex.Some? then IndexKeys(destIndex.value) else {});
      IndexKeys(index) == all && Parse(cratesJs) == Some(SortedKeys(all))
  {
    match destIndex {
      case None =>
        index := srcIndex;
      case Some(dest) =>
        index := MergeSearchIndex(srcIndex, dest);
    }
    cratesJs := Render(CrateNames(index));
    IndexAfterKeys(srcIndex, destIndex);
    CratesAfter(srcIndex, destIndex);
  }

  /** After a run the index holds the keys of both inputs. */
  lemma {:induction false} IndexAfterKeys(srcIndex: string, destIndex: Option<string>)
    ensures IndexKeys(IndexAfter(srcIndex, destIndex)) ==
      IndexKeys(srcIndex) + (if destIndex.Some? then IndexKeys(destIndex.value) else {})
  {
    if destIndex.Some? {
      MergedTextLines(srcIndex, destIndex.value);
    }
  }

  /** `crates.js` lists, in ascending order and once each, every crate of
      the crate's index and of the destination's. */
  lemma {:induction false} CratesAfter(srcIndex: string, destIndex: Option<string>)
    ensures var all := IndexKeys(srcIndex) + (if destIndex.Some? then IndexKeys(destIndex.value) else {});
      Parse(Render(CrateNames(IndexAfter(srcIndex, destIndex)))) == Some(SortedKeys(all))
  {
    IndexAfterKeys(srcIndex, destIndex);
    ParseCratesJs(IndexAfter(srcIndex, destIndex));
  }

  /** Merging the same crate a second time adds no crate: `crates.js` stays
      the same. */
  lemma {:induction false} RemergeKeepsCrates(srcIndex: string, destIndex: string)
    ensures var once := MergedText(srcIndex, destIndex);
      CrateNames(MergedText(srcIndex, once)) == CrateNames(once)
  {
    var once := MergedText(srcIndex, destIndex);
    MergedTextLines(srcIndex, destIndex);
    MergedTextLines(srcIndex, once);
    assert IndexKeys(MergedText(srcIndex, once)) == IndexKeys(once);
  }
}
