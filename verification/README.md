# Verified models of the clipping store and the font caches

This project models the parts of the firmware that keep derived or persistent data consistent, and proves that each of
them gives the same answer as the plain thing it stands in for. It has four parts.

**Clippings** (`Bytes`, `Card`, `ClippingCodec`, `ClippingLayout`, `ClippingFiles`, `ClippingRewrite`, `ClippingStore`,
`ClippingMove`). `ClippingLayout` fixes every byte of the file, so that files already on a card keep their meaning.
The card is a map from paths to bytes. Every primitive (rename, remove, create, append, truncate, read) may fail, and a
ghost trace records every state the card goes through, with one state for each byte written, so that a statement about
all states of the trace is a statement about a power cut at any moment. The store class keeps its list in memory and
changes it before it writes, as the source does, and rolls it back when the write fails. What survives a power cut is
the pair of contents (the store, else its backup) and journal of deletions (its whole records). Each call is proved to
leave that pair as it was, or as the finished call would leave it, or, for a removal, with only the deletion queued; and
the lemmas on runs in `ClippingFiles` carry this over any sequence of calls.

**Compressed glyphs** (`Repacking`, `FontData`, `GroupCache`, `PageGlyphs`, `PageExtract`, `FontDecompressor`). The
decompressor has two caches in front of a pure function, `Decoded`, from font and glyph to packed bitmap. Inflating is a
function parameter that may fail. The validity of both caches is an invariant of every method, so the contract of
`GetBitmap` holds after any sequence of calls: an answer is what a decode without caches gives, and there is no answer
only when memory or the inflater failed.

**SD-card fonts** (`Sorting`, `SdStyle`, `Intervals`, `IntervalRegistry`, `AdvanceMerge`, `AdvanceTable`, `Kerning`,
`KernClasses`, `MiniKern`, `MiniLayout`, `MiniRead`, `MiniFont`, `OverflowCache`). Interval tables, their validation and
their sharing between fonts; the bounded collection of codepoints in front of a capped merge; the page's kern matrix;
the page's own glyph tables and the rebuild that may reserve its memory and start over; and the cache of glyphs loaded
on demand.

**Which fonts are loaded** (`FontIds`, `FontVariants`, `FontSystem`). The reader's font, the fonts that UI text falls
back to and the sized variants, with the ids they are registered under.

## How the source is modelled

- A file of the clipping store is a pair of the book's hash and a suffix; the decimal hash holds no dot, so no two pairs
  are spelled alike. Renaming onto an existing file may fail or replace it. Files are shorter than 2^31 bytes.
  A directory listing is complete: to the source a short listing looks like the end of the directory.
- The list's limit is a parameter of the store (256 or 1024 in the source, by board). The book's hash is a parameter;
  the lemma that keeps a folder's stores apart states injectivity where it needs it.
- Decoding of UTF-8, small capitals, breakable CJK codepoints, the inflater and the scripts a font covers are
  parameters. Texts are given as their codepoints.
- Memory, opens, seeks, reads and renames fail by arbitrary choice, and so does a heap heuristic that refuses a load.
  Every such refusal is counted in a ghost field (`faults` of the device, `oom` of the decompressor). A call that gives
  up is proved to have met one, or to have been given data it must refuse: its contract names which. Where a heuristic
  has retained data given back although nothing failed, the page counts that too (`reliefs`).
- Clocks for least-recent use do not overflow. Sums of sizes are unbounded; the widths that matter (32-bit spans of
  intervals, 16-bit compact rows, 32-bit text offsets, 32-bit hashes) are explicit.
- `std::sort` is a stable insertion sort given as a function; every key it is used with is distinct, or its order among
  equals does not matter to the proof.
- Fonts, tables and slots whose identity matters to the source are objects; slot arrays are sequences in fields.
- The sentinel `UINT32_MAX` of a glyph not extracted yet is `None`: 512 glyphs of at most 65535 bytes stay below it.

## What is false of the code, and exactly when

`SdCardFont::load` computes the span of an interval in 32 bits. One table slips through its checks although no font has
so many glyphs: the single interval from 0 to 0xFFFFFFFF, whose span wraps to zero. `CheckRecord` and `ScanIntervals`
state acceptance in both directions with that table named, and `IndicesFit` shows that the indices of an accepted table
stay below the glyph count if and only if the span of no interval wraps. Binary search finds the covering interval of
that table all the same; the source then casts the index to a signed word, so it is one only below 2^31, which every
Unicode codepoint is.

A removal that is cut short once its deletion is queued is not reported as long as the clipping has its id on the card.
`QueuedReport` shows that the id is reported after the next load if and only if no clipping of the recovered contents
has it. That happens to an id that was given for a sync whose save failed, and that was still in memory only when the
removal was cut short: `UnsavedIdReported`. For a list that had been saved it cannot happen: `InterruptedNotReported`.

## Model

| member | source | states |
|---|---|---|
| ClippingCodec.RecordRoundTrip | src/ClippingStore.cpp:469-523 | A record written in any version reads back with the same fields, its text placed where it was written and cut to the maximum. |
| ClippingCodec.StoreRoundTrip | src/ClippingStore.cpp:434-523 | A whole store of any version reads back with the same header check, clippings and texts, in order. |
| ClippingCodec.RewriteKeepsClippings | src/ClippingStore.cpp:434-523 | Whatever readable file of versions 1 to 4 is loaded, rewriting it as version 4 and loading again gives the same clippings with the same texts. |
| ClippingCodec.ParsedMetaIsStorable | src/ClippingStore.cpp:480-515 | Every record that can be read can be written again without loss. |
| ClippingCodec.StoreFitsOffsets | src/ClippingStore.cpp:569-627 | A store within the limits fits 32-bit text offsets, so the offsets written are exact. |
| ClippingLayout.PlaceFields | src/ClippingStore.cpp:464-472 | In every version the first twenty bytes of a record are spine index, start page, end page, page count, start word, end word, word count and paragraph, two bytes each with the low byte first, and the time in four. |
| ClippingLayout.SignatureField | src/ClippingStore.cpp:473-476 | Versions 3 and 4 have the layout signature at byte 20; before them it is zero. |
| ClippingLayout.OffsetFields | src/ClippingStore.cpp:477-485 | In version 4 the character offsets are at bytes 24 and 28. |
| ClippingLayout.RevisionField | src/ClippingStore.cpp:477-485 | The eight bytes of the sync revision are at byte 32. |
| ClippingLayout.MarkFields | src/ClippingStore.cpp:477-486 | The upload mark is byte 40, and the id the 64 bytes behind it with a zero. |
| ClippingLayout.NoSyncFields | src/ClippingStore.h:24-43 | A record of versions 1 to 3 has no offsets, no revision and no id, and waits for its upload. |
| ClippingLayout.TitleField | src/ClippingStore.cpp:487-491 | The chapter title comes last, at a place that depends on the version, 47 bytes and a zero. |
| ClippingLayout.RecordLayout | src/ClippingStore.cpp:492-518 | The text follows its length, of four bytes in version 1 and two in the others; exactly the records that are cut short or, from version 2 on, too long are refused. |
| ClippingLayout.HeadLayout | src/ClippingStore.cpp:442-458 | A head is accepted exactly when its bytes are a known version, a count within the limit, and title, author and path in this order, each with its length in front. |
| ClippingFiles.PendingIsExact | src/ClippingStore.cpp:353-376 | An id is reported exactly when it is in the journal and no live clipping has it. |
| ClippingFiles.IdIs | src/ClippingStore.cpp:353-376 | The id of a journal record is its first 64 bytes up to a zero. |
| ClippingFiles.RunRecoversNewest | src/ClippingStore.cpp:155-172 | Over any run of calls, each cut short anywhere, the next load reads the complete contents of the newest call that took effect, or the first contents. |
| ClippingFiles.RunKeepsDeletions | src/ClippingStore.cpp:230-259 | A removal that took effect keeps its id in the journal until the deletions are finished, whatever later calls leave. |
| ClippingFiles.RunWhole | src/ClippingStore.cpp:26-35 | Over any run the surviving journal consists of whole records. |
| ClippingFiles.RunNamed | src/ClippingStore.cpp:232-248 | Over any run the surviving journal holds only records that name a clipping, as the scan for deletions needs. |
| ClippingRewrite.RewrittenHolds | src/ClippingStore.cpp:569-627 | A rewritten file, read back, holds the list it was written from, with each clipping's text at its offset. |
| ClippingRewrite.RemovalLeaves | src/ClippingStore.cpp:230-259 | Queueing a deletion and then rewriting leaves only the states a removal may leave. |
| ClippingRewrite.QueuedReport | src/ClippingStore.cpp:230-259 | After a removal that was cut short with its deletion queued, the next load finds the old contents and the id is reported exactly when no clipping in them has it. |
| ClippingRewrite.InterruptedNotReported | src/ClippingStore.cpp:353-376 | If the list was saved before, the interrupted removal is not reported. |
| ClippingRewrite.UnsavedIdReported | src/ClippingStore.cpp:326-341 | If the id never reached the card, it is. |
| ClippingRewrite.LoadedIsIndexed | src/ClippingStore.cpp:434-523 | A loaded list points at its own texts in the file it was read from. |
| ClippingRewrite.AppliedFirst | src/ClippingStore.cpp:385-418 | A server change deletes or replaces the first clipping whose id is the same string, and no other; it asks for nothing exactly when the revision is the same and no upload waits. |
| ClippingRewrite.AppliedNone | src/ClippingStore.cpp:385-400 | Without such a clipping a deletion asks for nothing, and any other change adds the clipping at the end. |
| ClippingRewrite.OthersStay | src/ClippingStore.cpp:385-418 | Every clipping with another id stays in the list with its text, in order. |
| ClippingStores.ClippingStore.WriteToFile | src/ClippingStore.cpp:525-651 | True exactly when the new contents can be recovered, false exactly when the old ones still are; no state on the way shows anything else, and the list's offsets match the file. |
| ClippingStores.ClippingStore.Publish | src/ClippingStore.cpp:629-650 | Replacing the store through its backup switches what survives once, or not at all when it fails. |
| ClippingStores.ClippingStore.RecoverBackup | src/ClippingStore.cpp:541-551 | Putting a stranded backup back does not change what can be recovered. |
| ClippingStores.ClippingStore.AddClipping | src/ClippingStore.cpp:186-228 | Appends a clipping made of the arguments, field by field, and its text, or leaves list and card as they were; refuses exactly at the limit. |
| ClippingStores.ClippingStore.TruncateDeletionTail | src/ClippingStore.cpp:26-35 | Drops a torn last record and no whole one. |
| ClippingStores.ClippingStore.RemoveClippingAt | src/ClippingStore.cpp:230-259 | Removes one clipping and queues its id before, keeps order and texts of the others, and puts everything back when the write fails. |
| ClippingStores.ClippingStore.ApplyRemote | src/ClippingStore.cpp:385-418 | Adds, replaces or deletes the first clipping whose id is the same string, keeps every other with its text, and leaves that list on the card; leaves list and card alone exactly when nothing is asked, and the list and what survives when it fails. |
| ClippingStores.ClippingStore.LoadForBook | src/ClippingStore.cpp:139-172 | Loads exactly what can be recovered, takes a title or an author that was not given from the file, and changes nothing that survives. |
| ClippingStores.ClippingStore.NextDeletion | src/ClippingStore.cpp:353-376 | Returns the next journal record without a live clipping, and where to go on. |
| ClippingStores.ClippingStore.ReportDeletions | src/clippings/ClippingSync.cpp:167-177 | Repeated calls from offset 0 return, in order, exactly the journal's ids without a live clipping, unless the device failed. |
| ClippingStores.ClippingStore.FinishDeletions | src/ClippingStore.cpp:378-383 | Empties the journal or changes nothing that survives. |
| ClippingStores.ClippingStore.ReadClippingText | src/ClippingStore.cpp:287-314 | Reads a clipping's own text from the recoverable file. |
| ClippingStores.ClippingStore.PrepareSync | src/ClippingStore.cpp:326-341 | Gives ids to clippings without one, keeps everything else, and saves: what survives is the marked list, or what was there, and the journal in any case. |
| ClippingStores.ClippingStore.Unload | src/ClippingStore.cpp:174-184 | Saves what is dirty before it lets go of the list; what survives is that list, or what was there, and the journal in any case. |
| ClippingMove.MoveStoreFiles | src/ClippingStore.cpp:63-92 | Checks, moves or moves back the five sidecars of a book, stopping at a known step. |
| ClippingMove.MoveTreeStores | src/ClippingStore.cpp:94-134 | With an explicit stack visits each book below a folder once, in listing order, and tells traversable folders from others. |
| ClippingMove.MoveBook | src/ClippingStore.cpp:666-691 | True means every sidecar moved; false with a clean rollback means every sidecar is where it was. |
| ClippingMove.MovedMeans | src/ClippingStore.cpp:63-92 | After a finished move no old sidecar exists and each new one is the old one, or absent as it was. |
| ClippingMove.FolderIsDistinct | src/ClippingStore.cpp:98-134 | With an injective hash and a target outside the folder, the stores of a folder's books never meet. |
| Repacking.PackedPixel | lib/EpdFont/FontDecompressor.cpp:228-250 | Pixel (x, y) of the row-aligned bitmap is pixel y * width + x of the packed one. |
| Repacking.Digits | lib/EpdFont/FontDecompressor.cpp:236-249 | A byte holds four pixels, the leftmost in its highest two bits. |
| Repacking.PixelPlace | lib/EpdFont/FontDecompressor.cpp:228-243 | Pixel (x, y) of the row-aligned bitmap is in byte y * ceil(w / 4) + x / 4. |
| Repacking.PackedPadding | lib/EpdFont/FontDecompressor.cpp:228-250 | The packed bitmap has ceil(w * h / 4) bytes and zeros behind the last pixel. |
| Repacking.PackedCopies | lib/EpdFont/FontDecompressor.cpp:231-235 | For widths divisible by four the packed bitmap is a plain copy. |
| Repacking.CompactSingleGlyph | lib/EpdFont/FontDecompressor.cpp:228-250 | Both the copy and the bit loop write the packed bitmap and nothing else. |
| FontData.AlignedOffsetBefore | lib/EpdFont/FontDecompressor.cpp:217-223 | Nothing of a contiguous group comes before its first glyph, so its scan may start there. |
| FontData.AlignedOffsetStep | lib/EpdFont/FontDecompressor.cpp:201-226 | A glyph lies behind the padded rows of the glyphs of its group before it, and of no others. |
| FontData.GlyphInGroup | lib/EpdFont/EpdFontData.h:142-149 | Every glyph of a well-formed font lies within its inflated group. |
| FontData.DecodedIs | lib/EpdFont/FontDecompressor.cpp:184-199 | A glyph is decoded from the compressed bytes of its own group, inflated to the group's size and packed from the glyph's offset on; there is no bitmap exactly when they do not inflate to that size. |
| FontData.DecodedElsewhere | lib/EpdFont/FontDecompressor.cpp:184-199 | Where in the font a group is stored and what surrounds it does not matter to its glyphs. |
| FontData.DecodedPixel | lib/EpdFont/FontDecompressor.cpp:228-250 | Pixel (x, y) of the bitmap drawn is the one at its place in the padded rows of the inflated group. |
| GroupCache.AcquiredOk | lib/EpdFont/FontDecompressor.cpp:91-155 | After a miss, loaded or failed, slots hold distinct inflated groups with matching offset tables within the budget, unless one stands alone. |
| GroupCache.BudgetIs | lib/EpdFont/FontDecompressor.cpp:105-130 | The budget holds exactly when the buffers of the occupied slots take 57344 bytes together, or one slot at most is occupied. |
| GroupCache.NextSlotIsFree | lib/EpdFont/FontDecompressor.cpp:93-130 | While the groups asked for fit together, a new one goes to a cleared slot and evicts nothing. |
| GroupCache.WarmMissed | lib/EpdFont/FontDecompressor.cpp:91-155 | A miss keeps the record of which groups were inflated in step with which were first asked for. |
| GroupCache.InflatedOnce | lib/EpdFont/FontDecompressor.h:100-103 | From a cleared cache, groups that fit together are each inflated once however often they are asked for, as long as nothing fails. |
| FontDecompressors.FontDecompressor.TrimToBudget | lib/EpdFont/FontDecompressor.cpp:107-130 | Evicts others, least recently used first, no more than needed and until the budget holds or none is left. |
| FontDecompressors.FontDecompressor.BuildGroupOffsets | lib/EpdFont/FontDecompressor.cpp:59-89 | A finished table gives every glyph of the group the offset of the slow scan; a contiguous group has one exactly when there is memory for it. |
| FontDecompressors.FontDecompressor.AcquireGroupSlot | lib/EpdFont/FontDecompressor.cpp:91-155 | Fills the first empty or least recently used slot, or leaves it empty on failure; the invariants of the cache hold either way. |
| FontDecompressors.FontDecompressor.GetAlignedOffset | lib/EpdFont/FontDecompressor.cpp:201-226 | The scans of both layouts give the glyph's offset in its group. |
| FontDecompressors.PackedInSlot | lib/EpdFont/FontDecompressor.cpp:321-334 | The bytes of a resident group at the glyph's offset pack to what a decode without cache gives. |
| FontDecompressors.FontDecompressor.GetBitmap | lib/EpdFont/FontDecompressor.cpp:259-335 | Returns exactly the packed bitmap of a cache-free decode (`FontData.DecodedIs`), or nothing when memory failed or the group does not inflate; page hits and glyphs without extent leave the group cache alone. |
| PageGlyphs.NeededAll | lib/EpdFont/FontDecompressor.cpp:375-444 | Below the cap a page gets every glyph of its text and the ligature of every pair of them, none twice. |
| PageGlyphs.SortEntries | lib/EpdFont/FontDecompressor.cpp:496-505 | Sorts the lookup table and keeps its entries. |
| PageExtract.ScanFrequency | lib/EpdFont/FontDecompressor.cpp:511-547 | One pass over a frequency-grouped font gives every needed glyph the offset of the slow scan. |
| PageExtract.ScanRanges | lib/EpdFont/FontDecompressor.cpp:548-575 | The same for contiguous groups. |
| PageExtract.ExtractGroup | lib/EpdFont/FontDecompressor.cpp:601-611 | Extracts each needed glyph of a group once, to its own part of the page buffer, with its cache-free bitmap. |
| FontDecompressors.FontDecompressor.PrewarmCache | lib/EpdFont/FontDecompressor.cpp:365-620 | Adds a slot whose entries are exactly the glyphs needed; 0 missed groups below the group cap means all are extracted; without memory nothing changes. |
| FontDecompressors.FontDecompressor.ClearCache | lib/EpdFont/FontDecompressor.cpp:27-50 | Empties both caches and restores their invariants. |
| Intervals.LookupIsRank | lib/EpdFont/SdCardFont.cpp:928-945 | In a valid table the index of a codepoint is the number of covered codepoints below it, and -1 exactly when none covers it. |
| Intervals.LookupIncreases | lib/EpdFont/SdCardFont.cpp:755-819 | Indices lie below the glyph count and grow with the codepoint. |
| Intervals.LookupFills | lib/EpdFont/SdCardFont.cpp:755-819 | Every number below the total is some codepoint's index. |
| Intervals.FindGlyphIndex | lib/EpdFont/FontDecompressor.cpp:339-363 | Binary search finds the index of the covering interval or none. |
| Intervals.FindByUpperBound | lib/EpdFont/EpdFont.cpp:214-234 | The upper-bound search of getGlyph and hasCodepoint gives the same. |
| Intervals.CheckRecord | lib/EpdFont/SdCardFont.cpp:776-819 | Rejects a record exactly when no table starting like this is valid, but for the one whose span wraps. |
| Intervals.IndicesFit | lib/EpdFont/SdCardFont.cpp:788-792 | Accepted tables keep indices below the glyph count if and only if the span of no interval wraps. |
| IntervalRegistry.ReleasedOk | lib/EpdFont/SdCardFont.cpp:220-236 | Giving a table up keeps every reference count equal to the number of users and frees the table exactly with the last one. |
| IntervalRegistry.SharedOk | lib/EpdFont/SdCardFont.cpp:821-841 | Taking a registered table keeps the counts. |
| IntervalRegistry.LoadedFonts.ReleaseIntervals | lib/EpdFont/SdCardFont.cpp:220-236 | Frees the style's table if and only if it was its only user, and never a table twice. |
| IntervalRegistry.LoadedFonts.ScanIntervals | lib/EpdFont/SdCardFont.cpp:755-819 | Accepts exactly the valid tables (and the one whose span wraps) as long as the card can be read, knows when 16 bits suffice, and which registered tables have the same content. |
| IntervalRegistry.LoadedFonts.TakeShared | lib/EpdFont/SdCardFont.cpp:821-841 | Shares a table if and only if one with the same rows in the same form is registered. |
| IntervalRegistry.LoadedFonts.ReadTable | lib/EpdFont/SdCardFont.cpp:850-882 | A private copy, compact or not, holds the file's rows unchanged; it fails only with memory or card. |
| IntervalRegistry.LoadedFonts.Register | lib/EpdFont/SdCardFont.cpp:883-892 | Offers a complete table to later loads whenever an entry is free. |
| IntervalRegistry.LoadedFonts.LoadStyle | lib/EpdFont/SdCardFont.cpp:755-893 | A table that is loaded already in the same form costs no memory, and any other is registered while there is an entry for it. |
| IntervalRegistry.LoadedFonts.Load | lib/EpdFont/SdCardFont.cpp:739-911 | A loaded style looks up in exactly its file's table whether shared or not; a load fails only on a table it must refuse or with memory or card, leaves nothing behind then, and never touches other fonts. |
| IntervalRegistry.LoadedFonts.FindGlobalGlyphIndex | lib/EpdFont/SdCardFont.cpp:928-945 | The search over either form gives the plain lookup's answer. |
| IntervalRegistry.NothingLeaks | lib/EpdFont/SdCardFont.cpp:135-142 | Once all fonts are unloaded no table is left in memory and the registry is empty. |
| Sorting.LowestFirst | lib/EpdFont/SdCardFont.cpp:1813-1816 | Keeping only the lowest of a part beforehand gives the same lowest of the whole. |
| Sorting.LowestIsUnique | lib/EpdFont/SdCardFont.cpp:1605-1637 | Only one set of codepoints is the lowest up to a limit, so that is what a table holds. |
| AdvanceMerge.MergeFromBack | lib/EpdFont/SdCardFont.cpp:1621-1636 | The in-place merge from the back, with entries past the cap dropped, gives the first entries of the sorted merge. |
| AdvanceMerge.Unread | lib/EpdFont/SdCardFont.cpp:1621-1636 | No entry is overwritten before it is read. |
| AdvanceMerge.MergeKeepsLowest | lib/EpdFont/SdCardFont.cpp:1605-1637 | Cutting the merge off keeps it strictly ascending and keeps the lowest codepoints of both. |
| AdvanceTables.LowestCodepoints.Add | lib/EpdFont/SdCardFont.cpp:65-77 | The buffer always holds the lowest codepoints offered, up to the limit. |
| AdvanceTables.LowestCodepoints.AddReserved | lib/EpdFont/SdCardFont.cpp:79-82 | Adds a codepoint past the limit, once. |
| AdvanceTables.StyleAdvances.GetAdvance | lib/EpdFont/SdCardFont.cpp:1646-1665 | The file's advance for a cached codepoint, 0 for others. |
| SdStyle.AdvanceIs | lib/EpdFont/SdCardFont.cpp:1701-1714 | A covered codepoint advances by its own glyph, any other by that of U+FFFD if it is covered. |
| AdvanceTables.RequestedHas | lib/EpdFont/SdCardFont.cpp:1837-1853 | A pass asks for exactly the codepoints of its words, their capitals under small caps, and the space and hyphen if told to. |
| AdvanceTables.StyleAdvances.MergeInto | lib/EpdFont/SdCardFont.cpp:1605-1637 | The table becomes the lowest of old and new entries up to the limit, or stays as it was when memory failed. |
| AdvanceTables.StyleAdvances.Fetch | lib/EpdFont/SdCardFont.cpp:1670-1774 | What could be read of the uncached, resolvable codepoints is merged, with the advances the file gives them; that is all of them unless memory or card failed or the file ends before one. |
| AdvanceTables.PickedLosesNothing | lib/EpdFont/SdCardFont.cpp:1813-1820 | Merging the bounded collection and merging all that was wanted keep the same codepoints. |
| AdvanceTables.StyleAdvances.Build | lib/EpdFont/SdCardFont.cpp:1776-1879 | The table holds the lowest of old and all wanted codepoints, and the result counts the distinct requested codepoints no glyph covers, unless memory or card failed or the file ends before a wanted record. |
| Kerning.GetKerning | lib/EpdFont/EpdFont.cpp:117-159 | Split or packed classes and sparse or dense values all give the kerning of the table they represent, for every pair. |
| Kerning.KernIs | lib/EpdFont/EpdFont.cpp:132-158 | A pair with entries on both sides is kerned by the value at its two classes, counted from one, and not at all if either is zero. |
| Kerning.KernNone | lib/EpdFont/EpdFont.cpp:132-140 | A codepoint without an entry on its side is not kerned. |
| Kerning.ScanRow | lib/EpdFont/EpdFont.cpp:145-155 | The scan that stops past the target finds the stored value or zero. |
| Kerning.LookupKernClass | lib/EpdFont/EpdFont.cpp:97-115 | The packed search gives a codepoint's class or none. |
| Kerning.LookupKernClassSplit | lib/EpdFont/EpdFont.cpp:86-95 | So does the search over split arrays. |
| Kerning.FlatAt | lib/EpdFont/EpdFont.cpp:157-158 | The flat matrix holds row l, column c at l * columns + c. |
| KernClasses.ReadKernClasses | lib/EpdFont/SdCardFont.cpp:385-422 | Reading only the blocks the index points to assigns every page codepoint the class of the whole table, and a full read completes the index; it fails only with the card. |
| KernClasses.Consult | lib/EpdFont/SdCardFont.cpp:397-402 | A block is skipped only if none of its entries matches a page codepoint. |
| KernClasses.ClassInIs | lib/EpdFont/SdCardFont.cpp:413-419 | The class read is the lookup's in the table with classes past the matrix removed. |
| MiniKern.FullKern | lib/EpdFont/SdCardFont.cpp:413-419 | A pair of file entries is kerned by the value at their classes if both lie in the matrix, and else not at all. |
| MiniKern.Renumber | lib/EpdFont/SdCardFont.cpp:505-523 | Used classes get the numbers 1 to n, and each number leads back to its class. |
| MiniKern.MiniRefines | lib/EpdFont/SdCardFont.cpp:425-436 | A mini table with renumbered classes and picked rows and columns kerns page pairs as the full table and no others. |
| MiniKern.StyleKern.Build | lib/EpdFont/SdCardFont.cpp:437-592 | Every two page codepoints kern as in the full table; only a failure of memory or card leaves the page without kerning. |
| MiniLayout.RunsLookup | lib/EpdFont/SdCardFont.cpp:1322-1332 | In intervals built from a sorted list a codepoint is found at its place in the list, others not at all. |
| MiniLayout.BuildIntervals | lib/EpdFont/SdCardFont.cpp:1305-1332 | The intervals cut the sorted codepoints into runs numbered by position. |
| MiniLayout.MergeUnion | lib/EpdFont/SdCardFont.cpp:1237-1264 | The two-way walk gives the sorted union of resident and requested codepoints. |
| MiniLayout.UnionMissing | lib/EpdFont/SdCardFont.cpp:1288-1297 | Joining in resident codepoints does not change how many of a request are missing. |
| SdStyle.RecordIs | lib/EpdFont/SdCardFont.cpp:947-963 | A glyph record is taken as it is, with its own bytes, exactly when its length is the least that holds its pixels at two bits or one and its bytes lie in the file; every other is the empty glyph. |
| SdStyle.TwoBitLength | lib/EpdFont/SdCardFont.cpp:947-951 | A valid two-bit record is as long as the bitmaps the decompressor packs. |
| MiniRead.EntryIsRanked | lib/EpdFont/SdCardFont.cpp:1342-1392 | The record of a covered codepoint comes after those of all covered codepoints below it. |
| MiniRead.ReadGlyphs | lib/EpdFont/SdCardFont.cpp:1342-1392 | Reading in glyph order with skipped seeks still gives every codepoint its own entry, corrupt ones the empty glyph; it fails only with the card or on a file that ends before a covered record. |
| MiniRead.ReadBitmaps | lib/EpdFont/SdCardFont.cpp:1457-1491 | After the offset rewrite every glyph points at its own bitmap bytes; it fails only with the card. |
| MiniFont.StyleMini.GetGlyph | lib/EpdFont/EpdFont.cpp:214-234 | A resident codepoint is found through the page's intervals with its file entry and, on a full page, its bitmap. |
| MiniFont.StyleMini.SubsetHit | lib/EpdFont/SdCardFont.cpp:1142-1194 | The resident page is used as it is if and only if it serves the whole request; the missed count is the uncovered codepoints. |
| MiniFont.StyleMini.ChooseCodepoints | lib/EpdFont/SdCardFont.cpp:1211-1275 | The set to load is the request, or the request joined with all that is resident and with bitmaps if the page had them; it is joined whenever that is asked for and fits a page. |
| MiniFont.StyleMini.LoadPage | lib/EpdFont/SdCardFont.cpp:1277-1538 | Afterwards exactly the covered codepoints of the set are resident; it fails only with memory or card or on a truncated file, and leaves no half-built page. |
| MiniFont.StyleMini.PrewarmStyle | lib/EpdFont/SdCardFont.cpp:1138-1538 | All covered requested codepoints are resident with their records (`SdStyle.RecordIs`), kern if that was asked for, and the result counts the others, unless memory or card failed or the file lacks a covered record; a page that serves the request is kept as it is; when accumulating, what was resident stays; the prewarm starts over once at most. |
| MiniFont.StyleMini.PrewarmOrLess | lib/EpdFont/SdCardFont.cpp:1105-1136 | A smaller part of the request is tried only after memory failed for every larger one, halving from the estimate on, and the count includes what was dropped. |
| MiniFont.StyleMini.ResidentKerns | lib/EpdFont/SdCardFont.cpp:1167-1193 | While the kern table stands, any two resident codepoints kern as in the full table. |
| OverflowCache.UsedLast | lib/EpdFont/SdCardFont.cpp:1959-1962 | The key just used is last in the list and, with room for two, never the next one out. |
| OverflowCache.Overflow.OnGlyphMiss | lib/EpdFont/SdCardFont.cpp:1936-2039 | Returns the file's glyph and bitmap (`SdStyle.RecordIs`) and moves the key to the end of the list, evicting its first when full; gives up only with memory or card or on a codepoint the file has no record for, and then changes nothing cached. |
| OverflowCache.Overflow.PickSlot | lib/EpdFont/SdCardFont.cpp:1968-1977 | The slot is the next empty one or the list's oldest. |
| FontIds.MixedInjective | src/SdCardFontSystem.cpp:270-281 | One FNV step tells any two values apart, since the prime has an inverse modulo 2^32. |
| FontIds.ComputeVariantFontId | src/SdCardFontSystem.cpp:270-281 | The loop over the reader id's four bytes, then size and salt, gives the id the lemmas are about. |
| FontIds.ReservedIsAlone | src/SdCardFontSystem.cpp:270-281 | No reader font has one size that hashes to the reserved 0 and another to the 1 that replaces it. |
| FontIds.VariantIdsDiffer | src/SdCardFontSystem.cpp:270-281 | Two sizes of one reader font share an id only when they are equal. |
| FontVariants.ChooseSize | src/SdCardFontSystem.cpp:306-324 | Shrinking takes the largest size at or below the target or else the smallest, growing the nearest. |
| FontVariants.FindNearestSize | lib/EpdFont/SdCardFontRegistry.cpp:28-45 | The nearest size among the files of a style, the smaller of two equally near. |
| FontVariants.HashFontId | lib/EpdFont/SdCardFontManager.cpp:18-29 | Hashes content, family name byte by byte, and size; never 0. |
| FontSystem.SdCardFontSystem.LoadFamily | lib/EpdFont/SdCardFontManager.cpp:70-90 | The family's nearest file becomes the only loaded font; nothing is loaded only when there is no file, its id is taken, or memory or card failed. |
| FontSystem.SdCardFontSystem.EvictOldest | src/SdCardFontSystem.cpp:372-377 | Takes out the least recently used variant and no other font. |
| FontSystem.SdCardFontSystem.TouchVariant | src/SdCardFontSystem.cpp:356-361 | Finds a loaded variant by its id and stamps it, and it alone, as the newest. |
| FontSystem.SdCardFontSystem.LoadCpfontVariant | src/SdCardFontSystem.cpp:354-383 | Makes the variant available within the cap and the newest of all, unless memory or card failed, there is no file of the size, or its id is taken; one that is loaded already is only stamped; otherwise only the oldest may go; the reader's font and all that are not variants stay loaded. |
| FontSystem.SdCardFontSystem.ResolveVariant | src/SdCardFontSystem.cpp:288-328 | A result is a registered font, loaded at the size chosen for the scale; nothing but variants may have gone; without failure there is a result unless the size has no file or its id is taken. |
| FontSystem.SdCardFontSystem.LoadVariant | src/SdCardFontSystem.cpp:330-352 | Reloads a variant by the id that names a file's size, without disturbing the reader's font or the fallbacks. |
| FontSystem.SdCardFontSystem.SetupUiFallbacks | src/SdCardFontSystem.cpp:214-268 | Every fallback is a loaded font of its UI font's size, and each UI font whose size the family has gets one unless memory or card failed. |
| FontSystem.SdCardFontSystem.EnsureLoaded | src/SdCardFontSystem.cpp:130-212 | What was rediscovered replaces the registry, and afterwards the family wanted from it is in front at its nearest size, or nothing is loaded for a reason the contract names; what is loaded already is kept as it is; variants and fallbacks never outlive their reader font, and fallbacks are set up with a new one. |
| FontSystem.StillFits | src/SdCardFontSystem.cpp:362-377 | Eviction takes nothing away that UI text falls back to. |

## Left out

- The vector-font path of `SdCardFontSystem`: it depends on FreeType and on memory sizes that are not visible.
- Heap-size heuristics (retention floors, estimates, underuse counters): only their outcome, keep or free, is modelled.
- The codepoint collection of `SdCardFont::prewarm` (deduplication, replacement character, ligature outputs) and the
  loading of ligature tables: easy next to what follows them, and the same pattern as in `PageGlyphs`.
- The loops over the four styles in `buildAdvanceTablePacked`, `fetchAdvancesForCodepoints` and `prewarm`: each style is
  handled on its own, so one style is modelled.
- The 16-byte layout of glyph records and the .cpfont header: records are read whole or not at all.
- Cutting a new clipping's chapter title to its field at a whole character: titles are given already cut.
- `finishUploads`, `deleteForFilePath`, `readClippingPreview` and `clippingAt`: one loop or one branch each.
- Text layout in `EpdFont` (`getTextBounds`, `applyLigatures`), statistics, logging and timing.
- Settings, credential and token stores, recent books, device input, scripts: no long-lived invariant of their own.
- IntervalRegistry.LoadedFonts.Load: says nothing of the checks on the file's header and table of styles, which come
  before any table is taken.
- ClippingStores.ClippingStore.RandomId: an id is any string of 32 hexadecimal digits; that two ids differ is not
  claimed.
