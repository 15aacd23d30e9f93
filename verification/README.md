# Verified models of the bundled C libraries

This project models, in Dafny, the algorithmic cores of the C libraries under `library/`: the text pipeline of
utf8proc, and the bit buffer, block cipher, bucket array, base64 and buffer stream modules of the foundation
library. Each loop that rewrites memory in place is an imperative method proved against a value-level
specification, and the promises of the libraries are proved of those specifications.

## Text: utf8proc

| file | contents |
|---|---|
| `UnicodeTables.dfy` | options, properties, packed codepoint sequences, and the facts about the data tables |
| `CellMemory.dfy` | a block of `4n + 1` bytes seen as `n` 32-bit cells, so that re-encoding really overwrites its input |
| `Utf8.dfy` | decoding and encoding, and Table 3-7 of the Unicode Standard |
| `Grapheme.dfy` | the packed-state break machine and the rules of UAX #29, section 3.1.1 |
| `CanonicalOrdering.dfy`, `OrderingLoop.dfy` | canonical order (section 3.11 of the Unicode Standard) and the back-stepping loop |
| `Decomposition.dfy`, `DecompositionLoop.dfy` | decomposition of one character: value, and recursion into a buffer that may be too small |
| `TextDecomposition.dfy` | decomposition of a whole text, length-bounded or zero-terminated |
| `OptionEffects.dfy`, `SequenceUnits.dfy` | what each option does to a character, read off the tables; the packing of sequences |
| `DecomposedText.dfy` | what a decomposed and a mapped text is, and with which code a text is refused |
| `Composition.dfy`, `CompositionLoop.dfy` | composition (D115, D117; section 3.12 for Hangul), and the in-place pass |
| `ComposedText.dfy` | what composition makes of a text, said of the text and the result alone |
| `Normalization.dfy`, `Reencoding.dfy`, `Mapping.dfy` | line-break conversion, in-place encoding, and the whole of `utf8proc_map_custom` |
| `NormalForms.dfy` | idempotence and the relations between the normal forms, on byte strings |
| `LineBreaks.dfy` | idempotence when line breaks are converted or controls stripped, and exactly when it fails |
| `NullTerminated.dfy` | zero-terminated and length-bounded processing have the same outcome |
| `Clusters.dfy` | mapping with CHARBOUND alone |
| `SampleTables.dfy` | a table that meets every fact the theorems rely on |
| `Sequences.dfy`, `Bytes.dfy` | concatenating images; bytes and words |

The data tables are a parameter. `Tables.WellFormed`, `Clusters.BoundclassesOk` and `LineBreaks.LinesOk` list what the
theorems rely on: following decompositions and case foldings ends (there is a rank); their entries are assigned scalar
values other than zero; jamo and lump targets are left alone by every option; the rows of the pair table ascend, and
each listed pair is the canonical decomposition of its composite; boundary classes are never START or E_ZWG, conjunct
linkers and extenders have class EXTEND or ZWJ, and conjunct consonants are no controls; controls are starters, and
space, U+2028 and U+2029 are starters that are left alone. `ComposedText.ConsonantsOk`, which only the composition of
jamo needs, says that leading consonants are starters. `SampleTables.SampleOk` exhibits such a table. Results for
composing options other than plain canonical or compatibility composition (case folding, lumping) have the hypothesis
`Transparent`: a composite decomposes, under these options, to what its parts do; `PlainTransparent` proves it for the
options of the four normal forms.

## Foundation library

| file | contents |
|---|---|
| `BitStrings.dfy`, `BitBuffer.dfy`, `BitScripts.dfy` | shifts and masks on bit strings; the bit buffer; whole scripts of writes and reads |
| `Blowfish.dfy`, `BlockModes.dfy` | the Feistel network for arbitrary subkeys and S-boxes; the modes of NIST SP 800-38A, sections 6.1 to 6.4 |
| `BucketArray.dfy`, `BucketScripts.dfy` | the segmented array; whole runs on any number of them |
| `Base64.dfy` | RFC 4648 section 4, decoding that drops noise, also into its own source buffer |
| `BufferStream.dfy` | the cursor over a buffer, with 64-bit arithmetic that wraps |

Where the code and its documentation differ, the model follows the code:

- `base64.h` says that `((size-1)/4)*3` bytes of room suffice to decode everything. They do not
  (`DocumentedRoomFallsShort`); `WholeTextIff` gives the exact amount.
- Seeking backwards from the end of a buffer stream by more than its size leads to the end of the stream, not to
  its start (`SeekPastStart`); `SeekClampsIff` says exactly when seeking leads to the nearest valid position.
- Truncating a growing buffer stream beyond its capacity passes the cursor as the old size to the allocator, which
  promises to keep no more than that (`memory.c`, lines 374 to 392), so the bytes from the cursor on may be lost.
  `LosesIffAbandons` states exactly which, and `StaysStored` and `LastStored` name this as the one way, besides a
  write, in which a stored byte goes.
- Erasing from an empty bucket array wraps the count around: element 2^64 - 1 is copied from and becomes the count
  (`EraseFromEmpty`). `EraseInRangeIff` shows that this is the only case in which erasing leaves the buckets.
- Reserving within a bucket of 2^64 elements wraps a sum around and leaves a bucket array without buckets
  (`ReserveLosesBuckets`); resizing, pushing and appending reserve. `ReservedHoldsIff`, `PushFitsIff` and
  `AppendFitsIff` say exactly when the room asked for is there. `BucketScripts.Run` covers the scripts in which neither
  this nor the erasing above happens, which `Safe` decides from the operations and the numbers of elements and buckets.
- Asked for buckets of more than 2^63 elements, `bucketarray_initialize` does not end (`InitializeEndsIff`).
- STRIPCC strips controls after the marks were ordered, so mapping its own output may change it, with DECOMPOSE and
  with COMPOSE (`StrippingNotIdempotent`, `StrippingNotIdempotentComposed`). With DECOMPOSE it does exactly when a
  stripped control stood between marks that are out of order (`MapIdempotentIff`); with COMPOSE exactly when ordering
  what is left changes what it composes to (`MapIdempotentComposed`).

## Model

| member | source | states |
|---|---|---|
| Utf8.IterateTableRow | library/utf8proc/utf8proc.c:125-171 | a decoding step accepts `n` bytes exactly when they are a row of Table 3-7 |
| Utf8.DecodeEncoded | library/utf8proc/utf8proc.c:125-201 | decoding the encoding of any scalar value, whatever follows, returns the value and consumes its bytes |
| Utf8.EncodeDecoded | library/utf8proc/utf8proc.c:125-201 | whatever a step decodes is a scalar value whose encoding is the bytes consumed |
| Utf8.EncodingOrder | library/utf8proc/utf8proc.c:177-201 | encodings compared byte by byte are in the order of the codepoints, which leaves only one way to assign the rows of Table 3-7 |
| Utf8.DecodableIffWellFormed | library/utf8proc/utf8proc.c:124-171 | a byte string is accepted exactly when it is a concatenation of rows of Table 3-7 |
| Utf8.CodecBijection | library/utf8proc/utf8proc.c:124-201 | encoding and decoding are inverse bijections between scalar-value sequences and well-formed byte strings |
| Grapheme.CallCorrect | library/utf8proc/utf8proc.c:291-343 | one call with a state that stands for the text so far answers as the rules read over the whole text do, and leaves a state for the longer text |
| Grapheme.BreakForgets | library/utf8proc/utf8proc.c:304-339 | after a break the state is that of the last character alone |
| Grapheme.MachineFollowsRules | library/utf8proc/utf8proc.c:261-343 | over every character sequence the machine breaks exactly where the rules do, GB9c, GB11, GB12 and GB13 included |
| Grapheme.ResetsDoNotMatter | library/utf8proc/utf8proc.h:657-659 | resetting the state after any reported breaks never changes a later answer |
| CanonicalOrdering.OrderIsUnique | library/utf8proc/utf8proc.c:592-620 | the canonical order is the one arrangement that is ordered, keeps starters and sentinels in place and marks of equal class in their order |
| CanonicalOrdering.OrderPermutes | library/utf8proc/utf8proc.c:592-620 | ordering is a permutation |
| CanonicalOrdering.OrderPrefix | library/utf8proc/utf8proc.c:592-620 | ordering a prefix first does not change the order of the whole |
| OrderingLoop.SwapStep | library/utf8proc/utf8proc.c:611-614 | an exchange keeps the canonical order and removes exactly one inversion |
| OrderingLoop.LoopProgress | library/utf8proc/utf8proc.c:594-619 | every step of the back-stepping loop keeps the canonical order and decreases the pair of inversions and distance to the end |
| OrderingLoop.Step | library/utf8proc/utf8proc.c:594-619 | one turn of the loop on the buffer is one such step and touches no cell beyond |
| OrderingLoop.Reorder | library/utf8proc/utf8proc.c:592-620 | the loop ends on every buffer and leaves the canonical order of what it held |
| CellMemory.CellBuffer.Get | library/utf8proc/utf8proc.c:597-603 | reading four bytes gives the cell |
| CellMemory.CellBuffer.Set | library/utf8proc/utf8proc.c:613-614 | storing a cell changes that cell and no other |
| Decomposition.HangulParts | library/utf8proc/utf8proc.c:459-473 | a syllable becomes the two or three jamo that make it up, by the arithmetic of section 3.12 |
| Decomposition.FailsIffRejected | library/utf8proc/utf8proc.c:452-538 | decomposing a character fails exactly when it is no codepoint or unassigned and REJECTNA is set, so never inside an expansion |
| Decomposition.StateCarried | library/utf8proc/utf8proc.c:452-538 | without CHARBOUND the result does not depend on the boundary state, which is passed through |
| Decomposition.OutputFixed | library/utf8proc/utf8proc.c:380-397 | whatever a character decomposes to is left as it is by the same options |
| Decomposition.OutputScalar | library/utf8proc/utf8proc.c:452-538 | scalar values become scalar values, and only zero becomes zero |
| OptionEffects.OutputUntouched | library/utf8proc/utf8proc.c:452-538 | with any options, CHARBOUND too, no character that is left is a syllable to take apart, has a decomposition or folding the options ask for, is ignorable, unassigned or a mark to be dropped, or has another lump target |
| OptionEffects.FixedIff | library/utf8proc/utf8proc.c:452-538 | without CHARBOUND a character is left as it is exactly if no option has anything to do with it |
| OptionEffects.RefusedIff | library/utf8proc/utf8proc.c:456-477 | a character is refused exactly if it is none, or is not assigned, REJECTNA is set and it is no syllable to take apart |
| OptionEffects.Effects | library/utf8proc/utf8proc.c:460-514 | which of taking apart, dropping, lumping and stripping comes first, and what each makes of a character |
| OptionEffects.Expansions | library/utf8proc/utf8proc.c:515-525 | case folding comes before decomposition; a compatibility decomposition is made exactly with COMPAT; each gives the images of the entries of its sequence |
| OptionEffects.LumpsByCategory | library/utf8proc/utf8proc.c:485-508 | what categories are lumped to, separators only if all line breaks become U+000A, and that nothing else is lumped |
| OptionEffects.LumpsByCharacter | library/utf8proc/utf8proc.c:486-503 | what single characters are lumped to |
| SequenceUnits.EntryBack | library/utf8proc/utf8proc.c:363-372 | one or two UTF-16 units are read as the codepoint they stand for |
| SequenceUnits.ShortSequence | library/utf8proc/utf8proc.c:380-397 | up to three codepoints packed with their number in the index are read back |
| SequenceUnits.LongSequence | library/utf8proc/utf8proc.c:384-389 | longer sequences with their number in a unit of its own are read back |
| DecompositionLoop.WriteSyllable | library/utf8proc/utf8proc.c:461-473 | stores the jamo that fit and returns how many there are |
| DecompositionLoop.WriteLiteral | library/utf8proc/utf8proc.c:526-537 | stores the sentinel and the character as far as they fit |
| DecompositionLoop.DecomposeCharInto | library/utf8proc/utf8proc.c:452-538 | length, boundary state and error code do not depend on the buffer size, and exactly the leading cells that fit are stored |
| DecompositionLoop.WriteSequence | library/utf8proc/utf8proc.c:380-397 | the same for the expansion of a packed sequence |
| DecompositionLoop.StoredAll | library/utf8proc/utf8proc.c:380-397 | with room for all cells they are what the buffer holds, and nothing else changed |
| TextDecomposition.TerminatorEndsText | library/utf8proc/utf8proc.c:125-171 | with a terminator a step accepts and refuses as on the bytes before the terminator alone |
| TextDecomposition.FetchCorrect | library/utf8proc/utf8proc.c:564-576 | each reading step of the loop is the step on the text by itself, terminated or length-bounded |
| TextDecomposition.GatherErrors | library/utf8proc/utf8proc.c:564-590 | the only errors of a text are bad UTF-8, unassigned characters and overflow |
| TextDecomposition.ReadChar | library/utf8proc/utf8proc.c:564-576 | reads the next codepoint of the text and no byte past a terminator |
| TextDecomposition.GatherInto | library/utf8proc/utf8proc.c:559-591 | the loop stores the leading cells of the whole result that fit and returns the full length or the first error |
| TextDecomposition.DecomposeCustom | library/utf8proc/utf8proc.c:547-622 | returns the full length however small the buffer; with room the buffer begins with the decomposed, ordered text |
| DecomposedText.TextUntouched | library/utf8proc/utf8proc.c:547-622 | whatever the options, a decomposed text holds only sentinels and characters no option has anything to do with |
| DecomposedText.TextIsCanonical | library/utf8proc/utf8proc.c:559-620 | without CHARBOUND the cells are the images of the codepoints, with COMPOSE or DECOMPOSE in canonical order |
| DecomposedText.TextIsOrdered | library/utf8proc/utf8proc.c:592-620 | with any options and custom function, what is gathered is put into canonical order exactly if the text is normalized |
| DecomposedText.ClassesAscend | library/utf8proc/utf8proc.c:611-614 | in a normalized text no mark stands behind one of a higher class |
| DecomposedText.CustomText | library/utf8proc/utf8proc.c:577-583 | mapping with a custom function is mapping a text whose codepoints it was applied to, before anything else is done |
| DecomposedText.OptionsRefused | library/utf8proc/utf8proc.c:554-558 | the result is -5 exactly for COMPOSE with DECOMPOSE, and STRIPMARK with neither |
| DecomposedText.IllFormedRefused | library/utf8proc/utf8proc.c:564-576 | a text whose first fault is ill-formed UTF-8 gives -3 |
| DecomposedText.UnassignedRefused | library/utf8proc/utf8proc.c:580-584 | a text whose first fault is an unassigned character to be reported gives -4 |
| DecomposedText.TooLongRefused | library/utf8proc/utf8proc.c:585-589 | a text whose first fault is that its result gets too long gives -2 |
| Composition.MaxClassDecidesBlocked | library/utf8proc/utf8proc.c:670-670 | the one number the pass keeps decides exactly whether a character is blocked (D115) from the last starter |
| ComposedText.CompositeIff | library/utf8proc/utf8proc.c:674-726 | which pairs have which composite: consonant and vowel, open syllable and trailing consonant, and the listed pairs |
| ComposedText.ComposeNext | library/utf8proc/utf8proc.c:663-739 | behind any text, a character is composed with the last starter exactly if they have a composite and every mark between them has a lower class; else it is kept |
| ComposedText.ComposePastMarks | library/utf8proc/utf8proc.c:663-739 | behind any text, a starter, marks that do not compose with it and a character: the character is composed past the marks exactly if all have lower classes |
| ComposedText.ComposeStarter | library/utf8proc/utf8proc.c:663-739 | the same at the start of a text |
| ComposedText.ComposeNoStarter | library/utf8proc/utf8proc.c:665-670 | before the first starter every character is kept |
| ComposedText.ComposeSentinel | library/utf8proc/utf8proc.c:665-669 | sentinels are dropped |
| ComposedText.ComposeSyllable | library/utf8proc/utf8proc.c:674-696 | behind any text the jamo of a syllable are composed to it |
| ComposedText.ComposeHangul | library/utf8proc/utf8proc.c:674-696 | the decomposition of a syllable is composed to the syllable |
| Composition.HangulCompositeImage | library/utf8proc/utf8proc.c:674-696 | composing L+V or LV+T appends one jamo to the decomposition |
| Composition.CompositeImage | library/utf8proc/utf8proc.c:697-726 | a composite decomposes to what its starter does followed by the character absorbed |
| Composition.PlainTransparent | library/utf8proc/utf8proc.c:520-525 | the hypothesis on composites holds for the options of the normal forms |
| Composition.ComposePreserves | library/utf8proc/utf8proc.c:657-741 | decomposing and ordering the composition of any decomposed sequence, whatever the order of its marks, gives its canonical order |
| Composition.ComposeUndone | library/utf8proc/utf8proc.c:657-741 | so decomposing and ordering the composition of a decomposed, ordered sequence gives back exactly that sequence |
| CompositionLoop.LookupPair | library/utf8proc/utf8proc.c:700-726 | the linear search with its early exits finds exactly the listed pairs |
| CompositionLoop.FindComposite | library/utf8proc/utf8proc.c:672-726 | the composite, with the cached starter property always the right one |
| CompositionLoop.TryCompose | library/utf8proc/utf8proc.c:670-727 | stores the composite over the starter exactly when D117 composes |
| CompositionLoop.ComposeTurn | library/utf8proc/utf8proc.c:663-739 | one turn is one step of D117; the write index does not pass the read index and unread cells are untouched |
| CompositionLoop.ComposeInPlace | library/utf8proc/utf8proc.c:657-741 | the in-place pass leaves the D117 composition of the buffer |
| Normalization.ConvertInPlace | library/utf8proc/utf8proc.c:626-656 | line breaks converted and controls stripped in place, CR LF counting as one |
| LineBreaks.BreaksConverted | library/utf8proc/utf8proc.c:632-647 | CR LF is one line break and CR, LF and U+0085 are one each, with STRIPCC also U+000B and U+000C; what each becomes under NLF2LS and NLF2PS |
| LineBreaks.OthersConverted | library/utf8proc/utf8proc.c:648-653 | with STRIPCC a tab becomes a space and other controls and sentinels go; all else is kept |
| Normalization.NormalizeUtf32 | library/utf8proc/utf8proc.c:624-743 | both passes in place leave the normalized cells |
| Reencoding.EncodeCharInto | library/utf8proc/utf8proc.c:177-201 | stores exactly the encoding and nothing beyond |
| Reencoding.CharboundEncodeCharInto | library/utf8proc/utf8proc.c:204-230 | the same with 0xFF for the sentinel |
| Reencoding.CellUnchanged | library/utf8proc/utf8proc.c:753-763 | a cell none of whose bytes was overwritten still reads as it did |
| Reencoding.EncodeInPlace | library/utf8proc/utf8proc.c:750-763 | encoding into the memory that holds the cells gives the bytes of encoding out of place |
| Reencoding.Reencode | library/utf8proc/utf8proc.c:745-767 | the result and its final zero fit into `4n + 1` bytes |
| Mapping.MapErrors | library/utf8proc/utf8proc.c:775-803 | the errors mapping can return |
| DecomposedText.MapStages | library/utf8proc/utf8proc.c:775-803 | behind decomposition come line breaks and controls, composition and encoding, each exactly with its options |
| Mapping.MapCustom | library/utf8proc/utf8proc.c:775-803 | the sizing and the filling pass agree; the zero-terminated result is the decomposed, ordered, normalized and encoded text, or the error code |
| NormalForms.MapIdempotent | library/utf8proc/utf8proc.c:775-803 | mapping its own output returns the same bytes, for every option set without CHARBOUND, STRIPCC and line-break options; with COMPOSE under the hypothesis `Transparent` |
| LineBreaks.LineBreaksIdempotent | library/utf8proc/utf8proc.c:626-656 | the same with any line-break options, without CHARBOUND and STRIPCC; with COMPOSE under the hypothesis `Transparent` |
| LineBreaks.OrderedIffApart | library/utf8proc/utf8proc.c:630-654 | what conversion leaves is in canonical order exactly when no marks out of order were separated by stripped controls alone |
| LineBreaks.MapIdempotentIff | library/utf8proc/utf8proc.c:592-656 | without COMPOSE and CHARBOUND, with any line-break options and STRIPCC, mapping is idempotent exactly if it does not decompose or that condition holds of the decomposed text |
| LineBreaks.MapIdempotentComposed | library/utf8proc/utf8proc.c:624-743 | with COMPOSE, without CHARBOUND and under `Transparent`, mapping is idempotent exactly if composing what conversion leaves, as it is and in canonical order, gives the same; that condition on marks suffices |
| LineBreaks.StrippingChanges | library/utf8proc/utf8proc.c:648-650 | with DECOMPOSE: a letter, a mark, a control and a mark of lower class; mapping the output changes it |
| LineBreaks.StrippingChangesComposed | library/utf8proc/utf8proc.c:648-650 | the same with COMPOSE, if the letter composes with neither mark |
| SampleTables.StrippingNotIdempotent | library/utf8proc/utf8proc.c:648-650 | such an input for the sample table, with DECOMPOSE |
| SampleTables.StrippingNotIdempotentComposed | library/utf8proc/utf8proc.c:648-650 | and with COMPOSE |
| NormalForms.DecomposedOfComposed | library/utf8proc/utf8proc.c:775-803 | decomposing the composed form of a text is decomposing the text |
| NormalForms.ComposedOfDecomposed | library/utf8proc/utf8proc.c:775-803 | composing the decomposed form of a text is composing the text |
| NormalForms.SameComposedIffSameDecomposed | library/utf8proc/utf8proc.c:775-803 | two texts have the same composed form exactly when they have the same decomposed form |
| NormalForms.TerminatedText | library/utf8proc/utf8proc.c:564-576 | the bytes processed are those before the terminator, whatever lies behind, as with their length given |
| NullTerminated.SameMapText | library/utf8proc/utf8proc.c:547-803 | the outcome of mapping a text, error code included, does not depend on the NULLTERM flag |
| NullTerminated.TerminatedAsBounded | library/utf8proc/utf8proc.c:564-590 | a zero-terminated text gives the same bytes or error code as the same text with its length, for all options and custom mappings |
| NullTerminated.MapBothWays | library/utf8proc/utf8proc.c:775-803 | the two calls return the same length or code and the same terminated bytes |
| NormalForms.MapZeroFree | library/utf8proc/utf8proc.c:775-803 | text without zeros maps to text without zeros |
| NormalForms.NormalFormIdempotent | library/utf8proc/utf8proc.c:805-810 | NFD, NFC, NFKD and NFKC of a terminated string are idempotent |
| Clusters.CharboundAccepts | library/utf8proc/utf8proc.c:526-591 | with CHARBOUND alone a text is accepted exactly when it is UTF-8 and the result is not too long |
| Clusters.CharboundKeepsText | library/utf8proc/utf8proc.c:526-537 | deleting the 0xFF bytes from the output gives back the input |
| Clusters.CharboundSplitsClusters | library/utf8proc/utf8proc.c:753-757 | splitting the output at the 0xFF bytes gives the encodings of exactly the grapheme clusters, in order |
| Clusters.ClustersCut | library/utf8proc/utf8proc.c:526-535 | the clusters joined are the text, none is empty, and one starts exactly where the rules break |
| SampleTables.SampleOk | library/utf8proc/utf8proc.c:697-718 | the facts about the tables can be met, with a pair that composes |
| BitStrings.LowIsMod | library/foundation_lib/foundation/bitbuffer.c:165-166 | masking is taking the number modulo a power of two |
| BitStrings.OrAppends | library/foundation_lib/foundation/bitbuffer.c:251-251 | or-ing a shifted field onto the pending bits appends its bits |
| BitBuffers.SwappedBytes | library/foundation_lib/foundation/bitbuffer.c:20-20 | a swap puts byte `i` where byte `3 - i` was |
| BitBuffers.WrittenLaidOut | library/foundation_lib/foundation/bitbuffer.c:30-42 | which byte of memory holds which eight of the bits written, for either byte order |
| BitBuffers.ShownLaidOut | library/foundation_lib/foundation/bitbuffer.c:15-28 | the reader finds in each word of memory the bits its bytes hold in that order, and zeros past the end |
| BitBuffers.PaddingAligns | library/foundation_lib/foundation/bitbuffer.c:267-285 | an alignment leads to the next multiple of 32, by a whole word if forced and there already |
| BitBuffers.BitBuffer.constructor | library/foundation_lib/foundation/bitbuffer.c:69-79 | a fresh buffer has nothing written and stands at position 0 |
| BitBuffers.BitBuffer.Put | library/foundation_lib/foundation/bitbuffer.c:30-42 | a completed word is stored if there is room: which of its four bytes in memory holds which eight of its bits, for either byte order; no other word changes |
| BitBuffers.BitBuffer.Write32 | library/foundation_lib/foundation/bitbuffer.c:237-265 | appends the low bits of the value to all bits written; the counter is 32 times the words plus the offset |
| BitBuffers.BitBuffer.Write64 | library/foundation_lib/foundation/bitbuffer.c:201-213 | the same for up to 64 bits |
| BitBuffers.BitBuffer.Write128 | library/foundation_lib/foundation/bitbuffer.c:187-199 | the same for up to 128 bits |
| BitBuffers.BitBuffer.AlignWrite | library/foundation_lib/foundation/bitbuffer.c:279-285 | appends zeros up to the next word, a whole word if forced at a boundary |
| BitBuffers.BitBuffer.Get | library/foundation_lib/foundation/bitbuffer.c:15-28 | fetches the next word: which of its bits are those of which byte in memory, for either byte order; zero past the end |
| BitBuffers.BitBuffer.Read32 | library/foundation_lib/foundation/bitbuffer.c:148-185 | returns the bits at the reader's position and moves past them |
| BitBuffers.BitBuffer.Read64 | library/foundation_lib/foundation/bitbuffer.c:112-124 | the same for up to 64 bits |
| BitBuffers.BitBuffer.Read128 | library/foundation_lib/foundation/bitbuffer.c:89-110 | the same for up to 128 bits |
| BitBuffers.BitBuffer.AlignRead | library/foundation_lib/foundation/bitbuffer.c:267-277 | skips exactly what the writer's alignment fills at the same position |
| BitScripts.ScriptBack | library/foundation_lib/foundation/bitbuffer.c:89-285 | over words that carry a script every answer is the value written modulo 2 to the width |
| BitScripts.MemoryCarries | library/foundation_lib/foundation/bitbuffer.c:15-42 | the words the writer stored show its bits to the reader, for either byte order |
| BitScripts.WriteAll | library/foundation_lib/foundation/bitbuffer.c:187-285 | a list of writes and alignments leaves the bits of its script and keeps the counter invariant |
| BitScripts.ReadAll | library/foundation_lib/foundation/bitbuffer.c:89-185 | the same list of reads and alignments gives the answers at the script's positions |
| BitScripts.WriteThenRead | library/foundation_lib/foundation/bitbuffer.c:15-285 | a fresh reader over the same words gets each value modulo 2 to its width, for every list that fits the memory |
| Blowfish.WordsInverse | library/foundation_lib/foundation/blowfish.c:156-225 | the two word routines are inverse to each other, both ways round |
| Blowfish.Unwinding | library/foundation_lib/foundation/blowfish.c:194-219 | after `j` rounds of decrypting what is left is the encryption state `16 - j` rounds in |
| Blowfish.FeistelEquations | library/foundation_lib/foundation/blowfish.c:161-225 | both routines meet the equations of a Feistel network with whitening, the subkeys in order and in reverse |
| Blowfish.LinesAreNetwork | library/foundation_lib/foundation/blowfish.c:163-186 | the unrolled lines are the textbook network |
| Blowfish.EncryptWords | library/foundation_lib/foundation/blowfish.c:161-192 | the two words become the network's output, no other word changes |
| Blowfish.DecryptWords | library/foundation_lib/foundation/blowfish.c:194-225 | the same with the subkeys in reverse |
| BlockModes.EncryptedIffDecrypted | library/foundation_lib/foundation/blowfish.c:290-429 | the equations of encryption and of decryption hold of the same plaintexts and ciphertexts, in ECB, CBC, CFB and OFB |
| BlockModes.EncryptedIffEquations | library/foundation_lib/foundation/blowfish.c:311-345 | a ciphertext is the one sequence that meets the equations of ECB, CBC, CFB or OFB as the standard writes them |
| BlockModes.EncryptTurn | library/foundation_lib/foundation/blowfish.c:311-345 | a turn enciphers one block and leaves the next chain value |
| BlockModes.DecryptTurn | library/foundation_lib/foundation/blowfish.c:373-419 | a turn deciphers one block, the chain taken from the ciphertext before it is overwritten |
| BlockModes.Encrypt | library/foundation_lib/foundation/blowfish.c:290-351 | the whole blocks satisfy the mode's equations, everything beyond is untouched |
| BlockModes.Decrypt | library/foundation_lib/foundation/blowfish.c:353-429 | the same for decryption |
| BlockModes.EncryptDecrypt | library/foundation_lib/foundation/blowfish.c:290-429 | encrypting and then decrypting leaves the buffer as it was, for every mode, length and vector |
| BlockModes.KeyedOk | library/foundation_lib/foundation/blowfish.c:156-159 | 32-bit exclusive or has the laws the proofs use |
| BlockModes.WordsOfVector | library/foundation_lib/foundation/blowfish.c:308-309 | the two words the chain starts with, put together, are the vector |
| BlockModes.BytesOfWord | library/foundation_lib/foundation/blowfish.c:156-159 | the four bytes of a word that choose the entries are its bytes, the highest first |
| BlockModes.FeistelOfBytes | library/foundation_lib/foundation/blowfish.c:156-159 | each byte chooses an entry of a box of its own |
| BlockModes.EncryptWith | library/foundation_lib/foundation/blowfish.c:290-351 | encryption of 32-bit words, the chain beginning with the high word of the vector |
| BlockModes.DecryptWith | library/foundation_lib/foundation/blowfish.c:353-429 | decryption of 32-bit words, likewise |
| BlockModes.RoundTrip | library/foundation_lib/foundation/blowfish.c:290-429 | the same on 32-bit words with a 64-bit vector |
| BucketArrays.PlaceIsDivMod | library/foundation_lib/foundation/bucketarray.c:213-214 | bucket and place within it are quotient and remainder |
| BucketArrays.ReservedHoldsIff | library/foundation_lib/foundation/bucketarray.c:63-75 | reserving makes the room asked for, with the least number of buckets, exactly if the room is there or the sum of the request and the mask does not wrap around; otherwise no bucket is left |
| BucketArrays.ReserveLosesBuckets | library/foundation_lib/foundation/bucketarray.c:67-67 | an input where none is left |
| BucketArrays.PushFitsIff | library/foundation_lib/foundation/bucketarray.c:185-187 | pushing onto full buckets makes room exactly if the sum does not wrap around |
| BucketArrays.AppendFitsIff | library/foundation_lib/foundation/bucketarray.c:89-89 | appending makes room exactly if the number of elements fits |
| BucketArrays.InitializeEndsIff | library/foundation_lib/foundation/bucketarray.c:17-22 | the loop ends exactly if the size asked for is at most 2^63 |
| BucketArrays.BucketArray.constructor | library/foundation_lib/foundation/bucketarray.c:15-30 | for sizes up to 2^63, the bucket size is the least power of two from 16 up that is not below the one asked for |
| BucketArrays.BucketArray.InitializeCopy | library/foundation_lib/foundation/bucketarray.c:32-53 | the same elements in new buckets |
| BucketArrays.Duplicate | library/foundation_lib/foundation/bucketarray.c:40-52 | the copying loop: new buckets that agree with the source in all elements |
| BucketArrays.BucketArray.Reserve | library/foundation_lib/foundation/bucketarray.c:62-76 | for every request: if it fits, existing buckets and their contents stay and no more buckets are added than needed; if the sum wraps around, all buckets are lost |
| BucketArrays.BucketArray.Append | library/foundation_lib/foundation/bucketarray.c:78-133 | the elements are those of both arrays in order, also for different bucket sizes and for an array appended to itself; unchanged if element sizes differ |
| BucketArrays.AppendRun | library/foundation_lib/foundation/bucketarray.c:86-132 | the copying loop writes exactly the elements to append, even when it reads from the buckets it writes to |
| BucketArrays.BucketArray.Resize | library/foundation_lib/foundation/bucketarray.c:135-139 | for every request: if it fits, the elements that remain are those that were there; if the sum wraps around, all buckets are lost |
| BucketArrays.BucketArray.Push | library/foundation_lib/foundation/bucketarray.c:183-192 | the element is appended; a bucket, and only one, is added exactly when the storage was full |
| BucketArrays.BucketArray.Erase | library/foundation_lib/foundation/bucketarray.c:194-208 | the last element takes the place of the erased one |
| BucketArrays.BucketArray.Get | library/foundation_lib/foundation/bucketarray.c:210-216 | the place returned holds the element |
| BucketArrays.BucketArray.Copy | library/foundation_lib/foundation/bucketarray.c:226-238 | the flat buffer begins with the elements, the rest of it is untouched |
| BucketArrays.EraseInRangeIff | library/foundation_lib/foundation/bucketarray.c:195-207 | with 64-bit counts erasing copies from within the buckets and leaves a count within them exactly when the array is not empty |
| BucketArrays.EraseFromEmpty | library/foundation_lib/foundation/bucketarray.c:196-197 | the element copied from and the count left when the array is empty |
| BucketScripts.ErasedAt | library/foundation_lib/foundation/bucketarray.c:194-208 | after erasing every other element is where it was, the last one apart |
| BucketScripts.ShapesFollow | library/foundation_lib/foundation/bucketarray.c:15-238 | the numbers of elements and of buckets after an operation follow from those before it, so that a caller can tell which scripts are safe |
| BucketScripts.ReserveNotSafe | library/foundation_lib/foundation/bucketarray.c:62-76 | a script that would lose a bucket in use is refused |
| BucketScripts.ChangeFamily | library/foundation_lib/foundation/bucketarray.c:62-208 | push, erase, resize, reserve and append, on one of several arrays that share no bucket, do to it what they do to a flat sequence, leave the others alone, and keep the arrays apart |
| BucketScripts.Create | library/foundation_lib/foundation/bucketarray.c:15-53 | a new or copied array joins the others and shares no bucket with them |
| BucketScripts.CopyOf | library/foundation_lib/foundation/bucketarray.c:226-238 | copying hands out the elements of the array named |
| BucketScripts.Perform | library/foundation_lib/foundation/bucketarray.c:15-238 | any operation is its step on flat sequences |
| BucketScripts.Run | library/foundation_lib/foundation/bucketarray.c:15-238 | every script that erases from no empty array and makes no sum wrap around where that costs buckets, on any number of arrays of any bucket sizes, follows the same script on flat sequences and hands out the same; arrays keep their buckets and never come to share one |
| Base64.RoundTrip | library/foundation_lib/foundation/base64.c:21-102 | decoding a terminated encoding into enough room gives back the bytes |
| Base64.NoiseIgnored | library/foundation_lib/foundation/base64.c:82-90 | a character outside the alphabet changes nothing wherever it stands |
| Base64.LetterIsAlphabet | library/foundation_lib/foundation/base64.c:19-19 | the encode table is the alphabet of section 4 of RFC 4648 |
| Base64.EntryIsPlace | library/foundation_lib/foundation/base64.c:16-18 | the decode table knows exactly the characters of the alphabet, each with its place in it |
| Base64.GroupHasBits | library/foundation_lib/foundation/base64.c:37-64 | one to three bytes become the digits that have the same bits, filled up with padding |
| Base64.EncodedSplit | library/foundation_lib/foundation/base64.c:37-48 | three bytes in front are encoded by themselves |
| Base64.DigitsHaveBits | library/foundation_lib/foundation/base64.c:91-98 | two to four digits become the bytes that have the same bits, the surplus dropped |
| Base64.FittingIsMost | library/foundation_lib/foundation/base64.c:27-33 | the encoding of the bytes taken fits with its terminator, and that of one byte more does not |
| Base64.EncodesAllIff | library/foundation_lib/foundation/base64.c:27-33 | all bytes are taken exactly if the whole encoding fits |
| Base64.EncodeThenDecode | library/foundation_lib/foundation/base64.c:21-102 | what was encoded into enough room is decoded to what it was |
| Base64.WholeTextIff | library/foundation_lib/foundation/base64.c:72-102 | everything is decoded exactly when there is room for three bytes for every four digits, otherwise as many bytes from the front as there is room for |
| Base64.DocumentedRoomFallsShort | library/foundation_lib/foundation/base64.h:48-51 | the documented room does not suffice: an input where it loses three bytes |
| Base64.Encode | library/foundation_lib/foundation/base64.c:21-69 | the zero-terminated encoding of as many bytes as fit, of all if there is room, nothing beyond is written |
| Base64.ReadEntry | library/foundation_lib/foundation/base64.c:80-89 | drops characters until one has a digit |
| Base64.ReadBlock | library/foundation_lib/foundation/base64.c:77-90 | the next four digits, fewer only at the end of the text, padded with zeros |
| Base64.DecodeBlock | library/foundation_lib/foundation/base64.c:76-98 | a turn moves one group from what is to come to what is decoded, also within one buffer |
| Base64.Decode | library/foundation_lib/foundation/base64.c:71-102 | the digits of the text decoded in groups and cut at the capacity, also when source and destination are the same buffer |
| BufferStreams.SeekClampsIff | library/foundation_lib/foundation/bufferstream.c:170-190 | the cursor never passes the size; exactly when seeking leads to the position asked for or the nearest end |
| BufferStreams.SeekPastStart | library/foundation_lib/foundation/bufferstream.c:183-187 | an input where it does not |
| BufferStreams.WritesAllIff | library/foundation_lib/foundation/bufferstream.c:94-132 | all bytes of a write are stored exactly if the stream grows or they fit into the capacity; otherwise those that fit, with cursor and size at the capacity; no other byte changes |
| BufferStreams.WriteGrows | library/foundation_lib/foundation/bufferstream.c:104-116 | the capacity changes exactly if a growing stream has no room, and to what |
| BufferStreams.ReadsAllIff | library/foundation_lib/foundation/bufferstream.c:74-92 | as many bytes as asked for are handed out exactly if so many are stored from the cursor on, otherwise all of those |
| BufferStreams.TruncatesIff | library/foundation_lib/foundation/bufferstream.c:146-162 | the size becomes the one asked for exactly if the stream grows or the capacity allows it, otherwise the capacity |
| BufferStreams.AlwaysOk | library/foundation_lib/foundation/bufferstream.c:74-190 | in every state of every run cursor <= size <= capacity |
| BufferStreams.LosesIffAbandons | library/foundation_lib/foundation/bufferstream.c:146-161 | a truncation may lose a byte exactly if it reallocates and the byte is not before the cursor |
| BufferStreams.StaysStored | library/foundation_lib/foundation/bufferstream.c:94-162 | a byte stays until a write stores another in its place or a reallocating truncation abandons it |
| BufferStreams.LastStored | library/foundation_lib/foundation/bufferstream.c:74-162 | the byte at a position is the one the last write there stored, whatever else was done since |
| BufferStreams.ReadsLastStored | library/foundation_lib/foundation/bufferstream.c:74-92 | in every run a read hands out the bytes last stored at the positions it reads |
| BufferStreams.ReachCovers | library/foundation_lib/foundation/bufferstream.c:104-120 | a bound a caller computes from the script alone keeps every operation within 64 bits |
| BufferStreams.Perform | library/foundation_lib/foundation/bufferstream.c:74-190 | every operation on a stream is its step, and a read hands out the bytes at the cursor |
| BufferStreams.Run | library/foundation_lib/foundation/bufferstream.c:74-190 | every script within that bound is a run, with the bytes its reads hand out |
| BufferStreams.BufferStream.constructor | library/foundation_lib/foundation/bufferstream.c:25-60 | size and cursor of a fresh stream for every mode, also without a buffer |
| BufferStreams.BufferStream.Read | library/foundation_lib/foundation/bufferstream.c:74-92 | copies what is stored from the cursor on, as far as there is any |
| BufferStreams.BufferStream.Write | library/foundation_lib/foundation/bufferstream.c:94-132 | stores all bytes exactly if the stream grows or they fit into the capacity, otherwise those that do; where cursor, size and capacity end |
| BufferStreams.BufferStream.Truncate | library/foundation_lib/foundation/bufferstream.c:146-162 | size cut to the capacity, or grown with only the bytes before the cursor kept; cursor cut to the size |
| BufferStreams.BufferStream.Seek | library/foundation_lib/foundation/bufferstream.c:170-190 | the wrapping arithmetic leaves a valid stream |
| BufferStreams.BufferStream.Eos | library/foundation_lib/foundation/bufferstream.c:134-138 | at the end exactly when nothing is available to read |

## Left out

- The contents of the Unicode data tables (`utf8proc_data.c`): a parameter with stated hypotheses; case mapping, width and category lookups would only add table reads.
- CHARBOUND together with other options: composition and control stripping drop the sentinels and the Hangul path does not emit them, so no cluster law holds there.
- NormalForms.MapIdempotent: excludes CHARBOUND, whose output is not UTF-8, and line-break conversion and STRIPCC, for which `LineBreaks.dfy` has the results; case folding and lumping with composition have the hypothesis `Transparent`.
- The custom mapping function is a pure function; a NULL destination is an empty buffer; cells are stored little-endian; `ssize_t` has 64 bits.
- Tests of `utf8proc_map_custom` and `seqindex_write_char_decomposed` for failures that are proved impossible, and failure of allocation in all modules.
- The lookup of properties in `utf8proc_grapheme_break_stateful`, and `utf8proc_grapheme_break` without a state, which leaves the rules that need one unapplied.
- Float, stream-backed and discarding variants of the bit buffer; discarding does not roll back the counters.
- `blowfish_initialize`: the proofs hold for arbitrary subkeys and S-boxes, so the key schedule adds nothing to them. The clearing of local variables is not modelled.
- BlockModes.Encrypt: the choice of mode is made inside one loop instead of choosing between four loops.
- BucketArrays.BucketArray.Erase: requires an array that is not empty, since on an empty one the source reads outside its buckets; `EraseInRangeIff` states this case.
- `bucketarray_resize_fill`, whose start offset counts elements where bytes are meant; `bucketarray_clear` and deallocation.
- BucketArrays.BucketArray.constructor: requires a size of at most 2^63, since beyond it the source does not end.
- BucketArrays.BucketArray.Push: requires room or another bucket that can be counted, since otherwise the source writes outside its buckets; `PushFitsIff` states this case.
- BucketArrays.BucketArray.Append: requires that the number of elements fits, for the same reason; `AppendFitsIff` states this case.
- The sizes in bytes of buckets and of the list of buckets are not modelled: an element is one cell, and memory for it is assumed to be had.
- BufferStreams.BufferStream.Seek: seeking by the least signed offset is excluded, because its negation is not a value.
- BufferStreams.BufferStream.Write: writes that end beyond 2^64, and growing writes whose new capacity would exceed it, are excluded; no such buffer fits the address space. Time stamps and paths are not modelled.
- The D compiler, runtime and standard library, and the platform, tooling and build code, are not part of this model.
