# doc-merge: the search-index merge and `crates.js`, in Dafny

`doc-merge` folds the `cargo doc` output of one crate into a shared rustdoc
site. This project models the part of `DocMerge::execute` that is not file
copying: the text-level merge of the crate's `search-index.js` into the
site's, and the generation of `crates.js` from the merged index.

The merge does not parse JSON. Both files are split on `'\n'`, and a line is
a crate line when it matches `^"([a-z0-9_]+)":`. Every crate line of the
crate's index goes into a `BTreeMap` from key to line. On the way, each `}\`
becomes `},\`, and a later line with the same key overwrites an earlier one.
The site's lines are then walked in order. The first line with a key the map
holds is replaced by that entry, and the entry is removed. The entries nobody
took are inserted one by one at index 1. The lines are joined with `"\n"`,
and the comma left before the closing `}');` line is removed. `crates.js` is
`window.ALL_CRATES = [` followed by the distinct keys of the written index,
each in double quotes, ascending and separated by `,`, then `];`.

Modules, in dependency order:

- `Text`: Rust's `split`, `join` and `replace` on strings.
- `KeyOrder`: the order on `String` keys, and the order in which a `BTreeMap`
  iterates its keys.
- `CrateKey`: the key pattern, written as a function `Key`. It also holds the
  stem of a line, the part before its first `}`, which alone decides the key.
- `BraceTails`: why both `replace` calls keep the number of lines and every
  line's key. They only touch text after a `}`.
- `SearchIndex`: the source map, the destination rewrite loop, the insertion
  loop, the repair, and what the merged lines and the written text hold.
- `CratesJs`: the crate list of an index, its rendering, and a reader that
  gets the list back.
- `DocMerge`: one run, from the two `search-index.js` texts to the two
  written files.

The leftover entries end up right after the first line in descending key
order. `into_values` yields them ascending, and each insert at index 1 pushes
the earlier ones down. `SearchIndex.InsertAtOne` states this as a reversal,
and `SearchIndex.LeftoversDescending` states the resulting order.

Every source entry lands in the merged lines exactly once
(`SearchIndex.SuppliedExactlyOnce`): either where the first destination line
with its key was, or in the block. When no two keyed lines of the site's index
share a key, no two lines of the written index do
(`SearchIndex.MergedTextUniqueKeys`), and the repair leaves no `},\`⏎`}');`
behind (`SearchIndex.RepairRemovesDanglingSep`).

The two loops of the source are methods proved against functions:

- `SearchIndex.RewriteDestination` is the `map` over the destination lines. It
  removes entries from the map as it goes.
- `SearchIndex.InsertAtOne` is the `insert(1, v)` loop.

The source has no object whose fields change: `src_js` and `contents` are
local variables, so they are local `map` and `seq` variables of these methods.

## Model

| member | source | states |
|---|---|---|
| CrateKey.KeyIff | src/main.rs:114 | `Key(line)` is `Some(k)` exactly when the line starts with `"`, then `k`, a non-empty run of `[a-z0-9_]`, then `":`. Any other line has no key. |
| CrateKey.Key | src/main.rs:114 | Computes the capture of `^"([a-z0-9_]+)":` on a line: the key after the opening `"` when a non-empty `[a-z0-9_]` run is followed by `":`, and `None` otherwise. `CrateKey.KeyIff` states this both ways. |
| CrateKey.KeyRunIsMaximal | src/main.rs:114 | The key-character run is made of `[a-z0-9_]` and stops at the first character outside it, so the pattern's greedy run cannot be shortened. |
| CrateKey.KeyIsName | src/main.rs:129 | Every captured key is a non-empty run of `[a-z0-9_]`. |
| CrateKey.KeyOfStem | src/main.rs:114 | A line's key depends only on its text before the first `}` or line break. |
| CrateKey.KeySetMembers | src/main.rs:127-133 | The key set of some lines holds exactly the keys that some line carries. |
| CrateKey.KeySetAppend | src/main.rs:134-143 | The keys of two runs of lines, one after the other, are the union of their keys. |
| CrateKey.KeySetPointwise | src/main.rs:134-142 | Lines that keep their keys position by position keep their key set. |
| CrateKey.UniqueKeysPointwise | src/main.rs:134-151 | Lines that keep their keys position by position keep the property that no two keyed lines share a key. |
| CrateKey.KeyInKeySet | src/main.rs:157-167 | The key of a keyed line is in the key set of its lines. |
| Text.Split | src/main.rs:126 | `split('\n')` yields at least one piece, and no piece holds a line break. |
| Text.Join | src/main.rs:151 | Computes `join("\n")`: the parts in order with the separator between neighbours. `Text.JoinSplit` and `Text.SplitJoin` state that it undoes and is undone by `split`. |
| Text.JoinSplit | src/main.rs:151 | Joining the pieces of a split with the same separator gives back the text. |
| Text.SplitJoin | src/main.rs:151 | Splitting a join gives back the parts when no part holds the separator. |
| Text.Replace | src/main.rs:130 | Every character of the result of `replace` comes from the text or from the replacement. |
| Text.ReplaceAbsent | src/main.rs:151 | `replace` leaves a text without the pattern unchanged. |
| Text.ReplacePrefixCopied | src/main.rs:151 | A prefix of the result of `replace` that never overlaps the replacement is copied from the text unchanged. |
| Text.ReplaceLeavesNone | src/main.rs:151 | When the pattern and the replacement cannot overlap, the result of the leftmost, non-overlapping `replace` holds no occurrence of the pattern anywhere. |
| Text.PrefixOfConcat | src/main.rs:151 | A prefix of `x + y` is a prefix of `x` or extends `x`. |
| Text.OccursAfter | src/main.rs:151 | An occurrence past the end of `x` in `x + y` is an occurrence in `y`, and back. |
| Text.OccursInside | src/main.rs:151 | An occurrence starting inside `x` in `x + y` overlaps the tail of `x`. |
| KeyOrder.LessIrreflexive | src/main.rs:124 | No key sorts before itself. |
| KeyOrder.LessTransitive | src/main.rs:124 | The order on keys is transitive. |
| KeyOrder.LessTotal | src/main.rs:124 | Any two distinct keys are ordered one way or the other. |
| KeyOrder.LessDiffer | src/main.rs:143 | Keys in order are different keys. |
| KeyOrder.SortedKeys | src/main.rs:143 | A map's iteration order lists each of its keys exactly once, and nothing else. |
| KeyOrder.SortedKeysAscending | src/main.rs:143 | That iteration order is strictly ascending. |
| KeyOrder.SortedKeysLess | src/main.rs:143 | Of two positions of the iteration order, the earlier one holds the smaller key. |
| KeyOrder.SortedKeysFromEnd | src/main.rs:143 | Counted from the end, the earlier position holds the greater key. |
| KeyOrder.SortedKeysPosition | src/main.rs:143 | Every key of the map has a position in the iteration order. |
| BraceTails.MaskIsStems | src/main.rs:130 | Erasing from every line what follows its first `}` gives the lines' stems joined by line breaks. |
| BraceTails.ReplaceKeepsMask | src/main.rs:151 | A `replace` whose pattern and replacement differ only after a `}` leaves that masked text unchanged. |
| BraceTails.ReplaceKeepsStems | src/main.rs:151 | Such a `replace` keeps the number of lines and every line's stem. |
| BraceTails.ReplaceKeepsKey | src/main.rs:130 | Such a `replace` on a single line keeps its key. |
| BraceTails.ReplaceKeepsLineKeys | src/main.rs:151 | Such a `replace` on joined lines gives back, when split, as many lines as were joined, each with its original key. |
| SearchIndex.RewritesTouchOnlyTails | src/main.rs:130 | `}\`→`},\` and `},\`⏎`}');`→`}\`⏎`}');` both differ only after a `}`. |
| SearchIndex.RewriteSourceLine | src/main.rs:130 | Rewriting `}\` to `},\` keeps a source line's key and adds no line break. |
| SearchIndex.Collect | src/main.rs:127-133 | Computes one step of the `filter_map` into the `BTreeMap`: a keyed line, rewritten, is stored under its key and replaces an earlier entry; an unkeyed line leaves the map alone. `SearchIndex.SourceMap` states what the steps build. |
| SearchIndex.SourceMap | src/main.rs:124-133 | The source map's keys are exactly the source lines' keys. Each entry carries its own key. When several lines share a key, the entry is the rewritten last of them. |
| SearchIndex.TakesEntryIffFirst | src/main.rs:136-141 | A destination line takes a source entry exactly when it is keyed, its key is in the map, and no earlier line has that key. |
| SearchIndex.RewrittenLine | src/main.rs:136-141 | Computes what destination line `i` becomes: the entry of its key when it is the first line with a key the map holds, the line itself otherwise. `SearchIndex.TakesEntryIffFirst` and `SearchIndex.MergedLine` state this. |
| SearchIndex.RewrittenLines | src/main.rs:134-142 | Computes the `map` over all destination lines; `SearchIndex.RewriteDestination` is the loop proved against it. |
| SearchIndex.RewriteDestination | src/main.rs:134-142 | The loop yields each destination line rewritten, in order. The entries left in the map are those whose key no destination line has. |
| SearchIndex.RewrittenKeepsKey | src/main.rs:136-140 | A rewritten destination line keeps its key. |
| SearchIndex.TakesEntryOnce | src/main.rs:139 | Two destination lines that both take an entry have different keys, so an entry is used at most once. |
| SearchIndex.TakenIffKeyed | src/main.rs:136-141 | A source entry is taken by some destination line exactly when some destination line has its key. |
| SearchIndex.ValuesInKeyOrder | src/main.rs:143 | `into_values` yields one value per key, each at its key's place in ascending order. |
| SearchIndex.ReversedAt | src/main.rs:143 | Position `i` of the reversal holds the `i`-th element from the end. |
| SearchIndex.ReversedSnoc | src/main.rs:143 | Reversing after appending an element puts that element first. |
| SearchIndex.InsertAtOne | src/main.rs:143 | Inserting values one by one at index 1 leaves the first line first, then the values back to front, then the other lines. |
| SearchIndex.MergeLines | src/main.rs:134-143 | The rewrite loop followed by the insertion loop gives the merged lines. |
| SearchIndex.InsertedShape | src/main.rs:143 | After insertion, line 0 is kept, positions `1..n` hold the block, and the other lines follow it shifted by `n`. |
| SearchIndex.InsertedAt | src/main.rs:143 | Line `i > 0` moves `n` places down when a block of `n` is inserted. |
| SearchIndex.ReversedValueAt | src/main.rs:143 | Position `j` of the values back to front holds the entry of the `j`-th largest key. |
| SearchIndex.ReversedKeyAt | src/main.rs:143 | In a well-keyed map, that entry also carries that key. |
| SearchIndex.ReversedKeyOf | src/main.rs:143 | The key of position `j` of the values back to front is the `j`-th largest key. |
| SearchIndex.ReversedHasKey | src/main.rs:143 | Every key of a well-keyed map has its entry among the values back to front. |
| SearchIndex.ReversedValuesComplete | src/main.rs:143 | Every entry of a well-keyed map is among the values back to front. |
| SearchIndex.ReversedDescending | src/main.rs:143 | Back to front, the values of a well-keyed map have strictly descending keys. |
| SearchIndex.Leftovers | src/main.rs:134-143 | Computes the block the insertion loop leaves after line 0: the untaken entries back to front. `SearchIndex.LeftoverBlock` and `SearchIndex.LeftoversDescending` state its contents and order. |
| SearchIndex.Merge | src/main.rs:134-143 | Computes the merged lines: line 0 rewritten, the block, the other lines rewritten. `SearchIndex.MergeLines` is the source's two loops proved against it. |
| SearchIndex.LeftoverBlock | src/main.rs:134-143 | The inserted block holds exactly the source entries whose key no destination line has, one per key. Position `j` holds the entry of the `j`-th largest such key. |
| SearchIndex.LeftoverAt | src/main.rs:134-143 | Position `j` of the block is an untaken source entry with the `j`-th largest untaken key. |
| SearchIndex.LeftoversDescending | src/main.rs:143 | The block is in strictly descending key order: of two entries, the later one has the smaller key. |
| SearchIndex.LeftoverKeysDiffer | src/main.rs:143 | Two different entries of the block carry different keys. |
| SearchIndex.LeftoverPosition | src/main.rs:134-143 | A source key that no destination line has sits in the block, with its own entry. |
| SearchIndex.MergedLine | src/main.rs:134-143 | Destination line `i` ends up at position 0 if `i` is 0, and after the block otherwise. There it holds its key's source entry if it is the first line with a key the map holds, and is unchanged otherwise. |
| SearchIndex.MergeHead | src/main.rs:143 | The merged lines have `|dest| + n` lines: the first destination line rewritten, then the `n` block entries. |
| SearchIndex.MergeTail | src/main.rs:134-143 | After the block come the other destination lines rewritten, in their order. |
| SearchIndex.MergeAt | src/main.rs:134-143 | Destination line `i > 0`, rewritten, sits at position `n + i`. |
| SearchIndex.MergeShape | src/main.rs:134-143 | The merged lines position by position: the first line, the block, then the other lines. |
| SearchIndex.MergeBlockAt | src/main.rs:143 | Merged position `j` in `1..n` holds block entry `j - 1`. |
| SearchIndex.InsertedBlockAt | src/main.rs:143 | After inserting a block after the first line, position `j` in `1..n` holds block entry `j - 1`. |
| SearchIndex.MergeBlockKey | src/main.rs:143 | A block position carries the key of its block entry. |
| SearchIndex.DestPositionKey | src/main.rs:134-143 | Position 0 and the positions `n + i` after the block carry the key of the destination line 0 or `i` they came from. |
| SearchIndex.BlockKeyOutsideDest | src/main.rs:134-143 | A block position carries a source key that no destination line has. |
| SearchIndex.BlockKeysDiffer | src/main.rs:143 | Two block positions carry different keys. |
| SearchIndex.BlockKeyNotInDest | src/main.rs:134-143 | A block position and a position that came from the destination carry different keys. |
| SearchIndex.MergedKeysDiffer | src/main.rs:134-143 | When no two keyed destination lines share a key, a keyed merged line shares its key with no later merged line. |
| SearchIndex.MergedUniqueKeys | src/main.rs:134-143 | When no two keyed destination lines share a key, no two keyed merged lines do. |
| SearchIndex.TakerPosition | src/main.rs:134-143 | A destination line that takes an entry puts that entry at merged position 0 or `n + i`, a supplied position with the line's key. |
| SearchIndex.SuppliedPosition | src/main.rs:134-143 | Every source entry sits at some supplied merged position: where the first destination line with its key was, or in the block. |
| SearchIndex.SuppliedKeysDiffer | src/main.rs:134-143 | Two supplied positions carry different keys, whatever the destination holds. |
| SearchIndex.SuppliedExactlyOnce | src/main.rs:134-143 | Every source entry is in the merged lines exactly once: one supplied position holds it, and no other supplied position carries its key. |
| SearchIndex.RewrittenLinesKeys | src/main.rs:134-142 | Rewriting keeps the destination's key set. |
| SearchIndex.LeftoverKeySet | src/main.rs:143 | The block's keys are the source keys that the destination lacks. |
| SearchIndex.MergedKeys | src/main.rs:134-143 | The merged lines carry the destination's keys and the source's keys, and no other. |
| SearchIndex.MergedHasNoBreaks | src/main.rs:134-143 | When no input line holds a line break, no merged line does. |
| SearchIndex.SourceMapHasNoBreaks | src/main.rs:124-133 | Source entries built from split lines hold no line break. |
| SearchIndex.RepairKeepsKeys | src/main.rs:151 | The trailing-comma repair keeps the number of lines and each line's key. |
| SearchIndex.Repair | src/main.rs:151 | Computes the `replace` of `},\`⏎`}');` by `}\`⏎`}');` on the joined text. `SearchIndex.RepairRemovesDanglingSep` and `SearchIndex.RepairKeepsKeys` state what it achieves and keeps. |
| SearchIndex.RepairPairNoOverlap | src/main.rs:151 | `},\`⏎`}');` and `}\`⏎`}');` cannot overlap one another. |
| SearchIndex.RepairRemovesDanglingSep | src/main.rs:151 | After the repair, no `},\`⏎`}');` is left anywhere in the written text. |
| SearchIndex.RepairWithoutDanglingSep | src/main.rs:151 | The repair changes nothing in a text without `},\`⏎`}');`. |
| SearchIndex.WrittenLines | src/main.rs:134-151 | The written text, split again, has one line per destination line plus one per untaken source key. It carries the keys of both inputs. |
| SearchIndex.WrittenUniqueKeys | src/main.rs:134-151 | When no two keyed destination lines share a key, no two written lines do. |
| SearchIndex.MergedText | src/main.rs:124-151 | Computes the text written back: split both texts, merge the lines, join them, repair. `SearchIndex.MergedTextLines` and `SearchIndex.MergedTextUniqueKeys` state what it holds. |
| SearchIndex.MergedTextLines | src/main.rs:124-151 | The same, stated from the two file texts. |
| SearchIndex.MergedTextUniqueKeys | src/main.rs:124-151 | Merging a crate never gives two lines of the written index the same key when the site's index had no such pair. |
| SearchIndex.MergeSearchIndex | src/main.rs:122-152 | The merge of the two texts writes the text that `MergedTextLines` describes. |
| CratesJs.QuoteAll | src/main.rs:179 | Each crate name is wrapped in double quotes, in order. |
| CratesJs.CrateNames | src/main.rs:158-167 | Computes the keys of the index's lines, each once, in ascending order, as the `BTreeMap` iterates them. `CratesJs.CrateNamesOfIndex` states this. |
| CratesJs.Render | src/main.rs:170-183 | Computes `window.ALL_CRATES = [`, the quoted names joined with `,`, then `];`. `CratesJs.ParseRender` states that it reads back. |
| CratesJs.UnquoteQuoteAll | src/main.rs:179-181 | Quoted names without quotes or commas read back as the names. |
| CratesJs.ParseRender | src/main.rs:176-182 | The rendered `crates.js` reads back as the list it was rendered from, for names without quotes or commas. |
| CratesJs.KeyNameIsPlain | src/main.rs:114 | A crate key holds no quote and no comma. |
| CratesJs.CrateNamesMembers | src/main.rs:158-167 | The crate list holds exactly the keys of the index's lines. |
| CratesJs.CrateNamesOfIndex | src/main.rs:158-178 | The crate list holds exactly the index's keys. Each is a key name, and the list is strictly ascending, so without repeats. |
| CratesJs.ParseCratesJs | src/main.rs:170-183 | The written `crates.js` reads back as the crate list of the index. |
| DocMerge.Execute | src/main.rs:113-183 | One run writes the crate's index when the site has none, and the merge otherwise. `crates.js` is rendered from the written index, which carries the keys of both inputs, and it reads back as their union in ascending order. |
| DocMerge.IndexAfter | src/main.rs:115-152 | Computes the index after the run: the crate's own text when the site has none, the merged text otherwise. `DocMerge.IndexAfterKeys` states its keys. |
| DocMerge.IndexAfterKeys | src/main.rs:115-152 | After a run the index carries the keys of both inputs and no other. |
| DocMerge.CratesAfter | src/main.rs:155-183 | `crates.js` lists every crate of both inputs, ascending and once each. |
| DocMerge.RemergeKeepsCrates | src/main.rs:124-183 | Merging the same crate a second time leaves the crate list unchanged. |

## Left out

- Command-line parsing (the `DocMerge` fields and `main`): library glue, with no behaviour of its own here.
- The directory checks, `create_dir_all` and `fatal!` with `process::exit`: file-system and process plumbing.
- The copy loop over subdirectories and `.html` files: bulk file-system I/O through a library outside this model.
- Reading and writing files: the merge is a function of the two texts. A missing destination `search-index.js` is `None`, and the source's copy of the file is then modelled as the index being the crate's text.
- The `doc_regex` description capture: its value is collected but never written anywhere.
- Removing `index.html` and creating the symlink to the chosen crate's page: OS-specific file-system calls.
- The `regex` crate: the one fixed pattern is written out as `CrateKey.Key` instead of modelling a regex engine.
- Key order: Rust compares `String`s by their UTF-8 bytes, and the model compares characters. For the `[a-z0-9_]` keys the two orders agree.
- DocMerge.RemergeKeepsCrates: proves that a second merge of the same crate keeps the crate list, not that it writes a byte-identical index.
- SearchIndex.RepairKeepsKeys: states that lines and keys survive the repair, and `SearchIndex.RepairRemovesDanglingSep` that no `},\`⏎`}');` is left. It does not separately prove that no other character changes; that follows from `Text.Replace`'s definition, whose only lemma on this is `Text.ReplaceAbsent`.
