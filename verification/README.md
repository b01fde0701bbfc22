# Verification of the bundled LuaJIT runtime and the cron search

The repository runs cron jobs from a Lua server. Its core is `ccronexpr.c`, which finds the times at
which a cron expression fires, and the bundled LuaJIT runtime. This project models the parts of both
in which most depends on invariants that no single function shows, and proves what they promise.
Code that changes things in place is modelled by classes and methods with the same fields, loops and
order of stores, and each method is proved against a specification function or property; the
properties of those are lemmas.

- **Memory allocator** (`lj_alloc.c`; modules TreeIndex, Trie, Rings, BestFit, TreeBins, SmallBins, Core,
  Heap, Steps, Growth, Coalesce, Requests, Accounts, LinkWords, Arena). Chunks with boundary tags in one flat
  memory; tries of large free chunks; rings of equal sizes; designated victim, top and segments. The
  main theorem is that `Arena.Serve` refines a plain set of separate blocks, over every run, and loses no memory.
  Where each block is taken from is told from the state before.
- **DynASM encoding engine** (`dasm_x86.h`; modules Layout, Labels, Buffers, Put, Program, Linking,
  Resolve, Emit, Encoder, Assemble, DasmExample). Three passes: store actions and thread label chains, shrink
  branches, encode. Every reference is bound to the label it means, and every branch leads there.
- **Register shuffling** (`lj_asm.c`; modules Moves, Head, PhiState, Phi). Parallel moves at the head of
  a side trace and for the PHIs of a loop, against a semantics of the emitted moves.
- **Bytecode dumps** (`lj_bcwrite.c`, `lj_bcread.c`; modules Powers, Uleb, Values, Dump, Undump, Writer,
  Reader, RoundTrip, DumpExample). What is written is read back.
- **Cron search** (`ccronexpr.c`; modules Calendar, CronTime, CronExpr, CronForward, CronGoals, CronSearch,
  CronBackward, CronPrev, CronEnds, CronSound, CronLeast, CronGreatest, CronDual, CronFields). Times are seconds since the
  epoch in UTC (section 4.16, Seconds Since the Epoch, of POSIX.1-2017 Base Definitions), dates are Gregorian.
- **Patterns and sorting** (`lib_string.c`, `lib_table.c`; modules StrClass, StrPattern, StrCaptures, StrMatch, SortOrder,
  TableSort). The backtracking matcher against a declarative meaning of patterns; quicksort.

Where the code does not do what one expects, the model follows the code:

- The tree index macro truncates sizes to 32 bits after a shift. `TreeIndexCorrectIff` says exactly for which
  sizes the bin is wrong; addresses below 2^40 keep all chunks of the model in the good range.
- `find_prev` moves the month before the day, so that the last days of a month may carry over into the next
  one. For some expressions `cron_prev` then never returns. `EndsIff` says exactly for which.
- `do_next` sets the month before the day (ccronexpr.c:411-416): from 2001-01-31 12:00:00 with only February
  listed, it carries over into March and passes February 2001 by (`FebruaryMissed`). It keeps seconds that
  it has moved (ccronexpr.c:472): at seconds 0 and 30 of minute 0, it goes from 00:01:05 to 01:00:30
  (`SecondMissedAt65`). `ExactIff` says exactly for which expressions that passes no firing time by, and
  `ExactBackIff` for the seconds of `do_prev`. For the others there is a date whose result is not the least.
- `find_next_day` gives up after 366 days, and tells whether it has moved by the number of the day. If that is
  the old one, `do_next` does not start again: searched from Tuesday, 2001-02-13 09:00:00, a Friday 13 at
  09:00:00 comes to 2001-04-13 00:00:00 (`FridayThirteenth`). `SoundIff` says exactly for which expressions no
  result is wrong in this way; among them are all with one day field open (`FreeDaysFound`).
- A backward reference to a local label of DynASM is refused while a forward reference waits for the next
  definition of it (`BackwardIff`).
- The branch of `asm_phi_break` that prefers shifts over cycles is never taken (`OnlyCycles`).

`dafny verify dfyconfig.toml` checks everything.

## Model

| member | source | states |
|---|---|---|
| TreeIndex.TreeIndexCorrect | LuaJIT-2.0.5/src/lj_alloc.c:533-544 | every size from 256 up to the largest one for which the index is meant goes to the bin whose interval of sizes contains it |
| TreeIndex.TreeIndexCorrectIff | LuaJIT-2.0.5/src/lj_alloc.c:533-558 | for all 64-bit sizes: the bin is the right one if and only if the truncation of the size to 32 bits in the macro did no harm |
| TreeIndex.ShiftStep | LuaJIT-2.0.5/src/lj_alloc.c:551-553 | the sign bit of the shifted size is the branch the size takes at that depth, and shifting on moves to the next bit |
| TreeBins.TreeBins.Insert | LuaJIT-2.0.5/src/lj_alloc.c:647-684 | keeps the tries, rings and bitmap consistent, and adds exactly the chunk, with its size, to what the tree bins hold |
| TreeBins.TreeBins.FindPlace | LuaJIT-2.0.5/src/lj_alloc.c:660-682 | the descent stops at a node of the same size, or above an empty slot whose bit prefix the size has |
| TreeBins.TreeBins.Unlink | LuaJIT-2.0.5/src/lj_alloc.c:686-730 | keeps the tries, rings and bitmap consistent, and removes exactly the chunk, whether it is a ring mate, a ring head or a single node |
| TreeBins.TreeBins.FindDeepLeaf | LuaJIT-2.0.5/src/lj_alloc.c:696-704 | ends at a leaf properly below the node that is to go, and at the slot that points to that leaf |
| TreeBins.TreeBins.Replace | LuaJIT-2.0.5/src/lj_alloc.c:706-729 | the replacement is a node of the trie instead of the one that goes, or the leaf is dropped, and the trie stays consistent; no fd, bk, size or index word of others changes |
| TreeBins.TreeBins.FindBestFit | LuaJIT-2.0.5/src/lj_alloc.c:1048-1094 | the answer is a smallest chunk among all that are large enough, with the rest it leaves; null exactly if no chunk is large enough |
| TreeBins.TreeBins.SearchBin | LuaJIT-2.0.5/src/lj_alloc.c:1050-1078 | after the descent in the bin of the size itself, no better chunk of that bin is outside of the subtree still to be searched |
| TreeBins.TreeBins.SmallestBelow | LuaJIT-2.0.5/src/lj_alloc.c:1086-1093 | going down by leftmost children misses no chunk that is better than the one found |
| TreeBins.TreeBins.FindSmallest | LuaJIT-2.0.5/src/lj_alloc.c:1116-1128 | for small requests, a smallest chunk of all tree bins |
| Rings.HandOverValid | LuaJIT-2.0.5/src/lj_alloc.c:686-730 | a ring mate takes over as the head of its ring: all rings, owners and the trie stay consistent |
| SmallBins.SmallBins.Insert | LuaJIT-2.0.5/src/lj_alloc.c:594-606 | adds exactly the chunk with its size; lists and bitmap stay consistent |
| SmallBins.SmallBins.Unlink | LuaJIT-2.0.5/src/lj_alloc.c:609-619 | removes exactly the chunk; lists and bitmap stay consistent, so that a list which becomes empty loses its bit |
| SmallBins.SmallBins.UnlinkFirst | LuaJIT-2.0.5/src/lj_alloc.c:622-630 | removes a chunk of exactly the size of the bin |
| SmallBins.MarkedIff | LuaJIT-2.0.5/src/lj_alloc.c:566-568 | a bit of smallmap is set if and only if there is a binned chunk of that size |
| Arena.Arena.constructor | LuaJIT-2.0.5/src/lj_alloc.c:1144-1166 | the state of lj_alloc_create satisfies the invariant, with no block handed out: one segment, all of it behind the state in top |
| Arena.Arena.UnlinkChunk | LuaJIT-2.0.5/src/lj_alloc.c:738-740 | keeps the invariant with the chunk in no bin; all link words that change belong to chunks that are free before and after |
| Arena.Arena.InsertChunk | LuaJIT-2.0.5/src/lj_alloc.c:734-736 | keeps the invariant with the chunk in the bin of its size; all link words that change belong to chunks that are free before and after |
| Arena.Arena.ReplaceDv | LuaJIT-2.0.5/src/lj_alloc.c:634-642 | the chunk becomes the designated victim and the old one is binned; all link words that change belong to free chunks |
| Arena.Arena.SplitChunk | LuaJIT-2.0.5/src/lj_alloc.c:583-589 | a free chunk is cut into a block and a free rest; no block in the hands of the user changes, and no other chunk comes into use |
| Arena.Arena.TmallocSmall | LuaJIT-2.0.5/src/lj_alloc.c:1112-1140 | carves the block out of a smallest chunk of the tree bins, whose rest becomes the designated victim; no other block changes |
| Arena.Arena.UnlinkFirstChunk | LuaJIT-2.0.5/src/lj_alloc.c:622-630 | takes a chunk of exactly the size of the bin out of it; all link words that change belong to chunks that are free before and after |
| Arena.Arena.TmallocLarge | LuaJIT-2.0.5/src/lj_alloc.c:1048-1109 | takes a best-fitting chunk exactly if one exists that fits tighter than the designated victim, and bins its rest; otherwise nothing changes |
| Arena.Arena.TakeDv | LuaJIT-2.0.5/src/lj_alloc.c:1235-1250 | a block of the size is carved, and no other block changes; the invariant holds for what is left of the designated victim |
| Arena.Arena.SplitTop | LuaJIT-2.0.5/src/lj_alloc.c:1251-1259 | a block of the size is carved, and no other block changes; the invariant holds for what is left of top |
| Arena.Arena.AllocSys | LuaJIT-2.0.5/src/lj_alloc.c:901-958 | fails exactly if the system fails or the size to ask for wraps around; then nothing changed; otherwise a new block is carved: behind top if the region continues its segment, else at the start of the region, which becomes the front of a segment if it ends where one starts, or a new one |
| Arena.Arena.PrependAlloc | LuaJIT-2.0.5/src/lj_alloc.c:820-850 | a block of the size is carved, and no other block changes, whether the rest of the region is joined with top, the designated victim, a free chunk, or nothing |
| Arena.Arena.AddRegion | LuaJIT-2.0.5/src/lj_alloc.c:853-897 | the invariant holds with the new segment and a top that fills it: its record, fenceposts and the rest of the old top included; no block changes, and only the record comes into use |
| Arena.Arena.AppendRegion | LuaJIT-2.0.5/src/lj_alloc.c:930-932 | top grows by the region that continues its segment, and no block changes |
| Arena.Arena.Malloc | LuaJIT-2.0.5/src/lj_alloc.c:1180-1261 | a new block of the requested size, all others untouched, and nothing else comes into use. It is taken from where the source says, told from the old state alone: for a small request a chunk of just that size or the next, then the designated victim, then a smallest one; for a large one a best fit that is tighter than the designated victim, then that; top only if nothing else fits, and the system only if top does not either. The rest is the designated victim, in a bin or top. Null only if nothing fits and the system fails or the size wraps around, and then nothing changed |
| Arena.Arena.Free | LuaJIT-2.0.5/src/lj_alloc.c:1263-1332 | the block is no more, all others are untouched, and all of its memory is in one free chunk or in top afterwards; the designated victim stays, unless it becomes part of top; the invariant holds again, in which no two free chunks are neighbours and every chunk in use is a block, the state, or the record of a segment |
| Arena.Arena.Realloc | LuaJIT-2.0.5/src/lj_alloc.c:1334-1382 | a block of the new size with the first bytes of the old one up to the smaller size, all others untouched: in its place if and only if its chunk is large enough, or with top behind it larger than enough; what is left over, or the old block, is free memory again. Null only for a request that is too large, or if nothing fits and the system fails or the size wraps around, and then nothing changed |
| Arena.Arena.Extend | LuaJIT-2.0.5/src/lj_alloc.c:1358-1368 | the block in front of top grows in place to just its new size; its content and all other blocks stay |
| Arena.Arena.CutUsed | LuaJIT-2.0.5/src/lj_alloc.c:1349-1357 | the block shrinks in place, and what it had too much is a chunk in use that belongs to nobody; contents stay |
| Arena.Arena.Serve | LuaJIT-2.0.5/src/lj_alloc.c:1384-1394 | the heap behaves like a set of separate blocks: after any request the blocks and all that the program knows of their contents are those of the plain model, read from memory with all link words in it; no memory is lost, a freed block is free memory again, and a request fails only if nothing fits |
| Arena.Arena.Run | LuaJIT-2.0.5/src/lj_alloc.c:1384-1394 | the same over every run from an empty heap: any requests, and any answers of the system to calls for memory; at its end every chunk in use is a block of the plain model, the state, or one record for each further segment |
| Accounts.FromTop | LuaJIT-2.0.5/src/lj_alloc.c:1235-1259 | memory is taken from top only for a request that no bin and not the designated victim has room for |
| Accounts.NextBin | LuaJIT-2.0.5/src/lj_alloc.c:1204-1211 | the chunks of the first marked bin are smallest ones that fit, of all bins |
| Accounts.TreeDecides | LuaJIT-2.0.5/src/lj_alloc.c:1096-1109 | the comparison of the two rests, one of which may wrap around, decides exactly whether a tree chunk fits tighter than the designated victim |
| Accounts.FreedOwned | LuaJIT-2.0.5/src/lj_alloc.c:1263-1332 | after a chunk that belonged to nobody is given back, every chunk in use belongs to somebody again |
| Requests.RequestTight | LuaJIT-2.0.5/src/lj_alloc.c:352-357 | a request gets the least chunk size that is a multiple of eight with eight bytes more than asked for, or the minimal one |
| Requests.MmapTight | LuaJIT-2.0.5/src/lj_alloc.c:475-480 | the size to ask the system for is the least multiple of the granularity with room for the chunk, the foot of top and a byte; it wraps around exactly if that is beyond size_t |
| Heap.LiveBlocks | LuaJIT-2.0.5/src/lj_alloc.c:341-358 | blocks in the hands of the user are aligned, large enough, mapped and do not overlap |
| Requests.SegmentTiled | LuaJIT-2.0.5/src/lj_alloc.c:360-397 | every segment is tiled by chunks without gap or overlap; in-use bits tell the truth about the chunk in front, and no two free chunks are neighbours |
| LinkWords.LinkApart | LuaJIT-2.0.5/src/lj_alloc.c:408-418 | the link words of a free chunk lie between its head and its foot, and in no block, head or foot of any other chunk |
| LinkWords.TagReads | LuaJIT-2.0.5/src/lj_alloc.c:388-397 | no head or foot word is overlaid by a link word of a binned chunk |
| LinkWords.HoldInMemory | LuaJIT-2.0.5/src/lj_alloc.c:408-418 | contents of blocks are the same whether or not the link words of binned chunks are in memory |
| Coalesce.FreeGap | LuaJIT-2.0.5/src/lj_alloc.c:396-397 | writing head and foot over a gap of chunks that are on their way to being free leaves one free chunk; no block changes |
| Growth.AddSegment | LuaJIT-2.0.5/src/lj_alloc.c:853-897 | the words and chunks that add_segment leaves satisfy the whole invariant |
| Growth.Prepend | LuaJIT-2.0.5/src/lj_alloc.c:820-850 | the words and chunks that prepend_alloc leaves satisfy the whole invariant |
| Encoder.Dasm.constructor | LuaJIT-2.0.5/dynasm/dasm_x86.h:84-151 | the state after dasm_init, dasm_setupglobal, dasm_growpc and dasm_setup: no action stored, no label used |
| Encoder.Dasm.PutReference | LuaJIT-2.0.5/dynasm/dasm_x86.h:214-233 | a reference gets the position of its label, or joins the chain of the label, which ends at its definition or stays pending |
| Encoder.Dasm.PutLabel | LuaJIT-2.0.5/dynasm/dasm_x86.h:238-244 | a definition resolves exactly the references of the chain to its own position, and the label is known from then on |
| Encoder.Dasm.CollapseChain | LuaJIT-2.0.5/dynasm/dasm_x86.h:242-242 | stores the position in every word of the chain and changes nothing else |
| Encoder.Dasm.Put | LuaJIT-2.0.5/dynasm/dasm_x86.h:167-263 | fails exactly if a range check of an action fails: immediates, numbers of labels and sections, backward references; otherwise stores exactly the entries of the action list with their arguments behind those of the section, with their label events and estimates |
| Encoder.BackwardIff | LuaJIT-2.0.5/dynasm/dasm_x86.h:216-219 | the check of backward references lets a local label pass if and only if it is defined and no forward reference waits for its next definition |
| Encoder.Dasm.CheckStep | LuaJIT-2.0.5/dynasm/dasm_x86.h:456-470 | succeeds exactly if there was no error, no local label is pending and the section matches; then local labels are forgotten |
| Encoder.Dasm.Link | LuaJIT-2.0.5/dynasm/dasm_x86.h:267-347 | fails exactly for an undefined pc label; otherwise every reference is bound to the label it means by the order of events, all words hold the offsets the layout gives, and the size is that of the code |
| Encoder.Dasm.LinkBranch | LuaJIT-2.0.5/dynasm/dasm_x86.h:304-325 | a branch shrinks exactly if the distance that can be seen in this pass, in front exact and behind estimated, is in reach of the short form |
| Encoder.Dasm.MarkUndefined | LuaJIT-2.0.5/dynasm/dasm_x86.h:283-290 | chains of undefined globals are marked with the number of the global, and nothing else changes |
| Encoder.Dasm.Encode | LuaJIT-2.0.5/dynasm/dasm_x86.h:361-440 | never a phase error; every entry is encoded where the second pass put it, opcode bytes patched for short forms, and globals get the addresses of their labels; what the bytes mean is said by Emit.ShortBranch, LongBranch, LabelReads and ImmReads |
| Encoder.Dasm.EncodeBranch | LuaJIT-2.0.5/dynasm/dasm_x86.h:396-406 | a branch is encoded long, or short with its opcode rewritten, with the displacement to its label, which Emit.ShortBranch and LongBranch read back |
| Encoder.Dasm.GetPcLabel | LuaJIT-2.0.5/dynasm/dasm_x86.h:443-452 | the final offset of a defined pc label, -1 for one that is only referenced, -2 for an unused one |
| Layout.BranchReaches | LuaJIT-2.0.5/dynasm/dasm_x86.h:304-325 | a branch that was shrunk reaches its label, whatever else shrinks later in the pass |
| Layout.LongOnlyIf | LuaJIT-2.0.5/dynasm/dasm_x86.h:304-325 | a branch that could be short stays long only if a short one would not have reached the label by what the pass can see |
| Layout.Closer | LuaJIT-2.0.5/dynasm/dasm_x86.h:293-342 | two places of the code never end up further apart than estimated, nor in the wrong order |
| Layout.AlignStep | LuaJIT-2.0.5/dynasm/dasm_x86.h:332-332 | an alignment leaves the next action at the nearest multiple of its boundary |
| Labels.ChainsApart | LuaJIT-2.0.5/dynasm/dasm_x86.h:218-244 | chains of different labels share no reference |
| Labels.MeaningMore | LuaJIT-2.0.5/dynasm/dasm_x86.h:218-244 | a new event gives a meaning to pending references only: forward references mean the next definition, backward ones the last |
| Emit.ShortBranch | LuaJIT-2.0.5/dynasm/dasm_x86.h:396-406 | in the finished code a shrunk branch has the short opcode, and its last byte, as a signed number, leads from its end to its label |
| Emit.LongBranch | LuaJIT-2.0.5/dynasm/dasm_x86.h:396-406 | in the finished code the last four bytes of a branch that is not shrunk, as a signed little-endian number, lead from its end to its label, or to the address of its global: exactly, if that is within reach, and modulo 2^32 |
| Emit.LabelReads | LuaJIT-2.0.5/dynasm/dasm_x86.h:407-413 | the four bytes of an address operand are, in little-endian order, the address of the label or global modulo 2^32 |
| Emit.ImmReads | LuaJIT-2.0.5/dynasm/dasm_x86.h:390-395 | the bytes of an immediate, read in little-endian order, are the argument modulo the size of the operand; a short one is sign-extended back to it |
| Emit.DwordReads | LuaJIT-2.0.5/dynasm/dasm_x86.h:350-357 | the four bytes of a dword, read back lowest first, are the number modulo 2^32 |
| Assemble.Run | LuaJIT-2.0.5/dynasm/dasm_x86.h:167-470 | over any sequence of dasm_put calls and the three passes: if no error is reported, the code is that of the calls, every reference means its label, every branch, short or long, leads to its label or global, and every operand reads back as its argument or address |
| DasmExample.ExampleStored | LuaJIT-2.0.5/dynasm/dasm_x86.h:167-263 | one action list with its arguments, and the entries that a call of dasm_put stores for it, written out |
| DasmExample.ExampleCode | LuaJIT-2.0.5/dynasm/dasm_x86.h:361-440 | the eleven bytes of code that it leads to, written out |
| Head.Shuffler.Shuffle | LuaJIT-2.0.5/src/lj_asm.c:1478-1512 | if it succeeds, the code leads from any state with the parent's registers to one with the target registers; it fails exactly if in one register file there is a cycle of moves and no allowed register outside of the live ones |
| Head.Shuffler.Coalesce | LuaJIT-2.0.5/src/lj_asm.c:1482-1491 | moves free live registers to their targets until none is free, each move keeping the values on their way |
| Head.Shuffler.BreakIn | LuaJIT-2.0.5/src/lj_asm.c:1497-1509 | breaks a cycle of one register file through a spare register; without one, the search is stuck and stays so |
| Moves.PickBot | LuaJIT-2.0.5/src/lj_asm.c:1484-1484 | the lowest register of a set that is not empty |
| Phi.PhiShuffler.Shuffle | LuaJIT-2.0.5/src/lj_asm.c:1110-1146 | ends with every left operand that is in a register in that of its PHI, and no PHI register holding another operand, by code that preserves all values; in a register file with a register besides those of the PHIs that is free or holds an operand, no operand loses its register or gains a spill slot |
| Phi.PhiShuffler.Pass | LuaJIT-2.0.5/src/lj_asm.c:1112-1139 | one turn over the PHI registers: each is settled, or blocked by another operand and listed with what it blocks; no operand loses its register |
| Phi.PhiShuffler.Place | LuaJIT-2.0.5/src/lj_asm.c:1116-1138 | one PHI register: its operand is renamed to it, once the invariant in it is restored, or it is marked as blocked; no operand loses its register or gains a spill slot |
| Phi.PhiShuffler.Break | LuaJIT-2.0.5/src/lj_asm.c:1072-1086 | breaks a cycle by a rename to a register that is not blocked, leaving the other register file as it is; no operand is misplaced that was not |
| Phi.PhiShuffler.Rename | LuaJIT-2.0.5/src/lj_asm.c:617-638 | the move in front keeps all values on their way, and the allocation is as if it had been so |
| Phi.PhiShuffler.Restore | LuaJIT-2.0.5/src/lj_asm.c:389-407 | spill or rematerialize: the register is free then, and all values stay on their way |
| Phi.PhiShuffler.Evict | LuaJIT-2.0.5/src/lj_asm.c:422-441 | the evicted register is a cheapest one, or a weak one |
| PhiState.OnlyCycles | LuaJIT-2.0.5/src/lj_asm.c:1072-1086 | if no blocked register is free, the blocked ones form cycles, so each blocks another: the branch for shifts is never taken |
| PhiState.RoomIsFree | LuaJIT-2.0.5/src/lj_asm.c:1077-1080 | with nothing but cycles left, a register file with a register besides those of the PHIs that is free or holds an operand has a free one to break them with, so that none is evicted |
| Uleb.PrefixFree | LuaJIT-2.0.5/src/lj_bcwrite.c:67-75 | no two numbers have the same code, and no code is a prefix of another |
| Uleb.EncodeValue | LuaJIT-2.0.5/src/lj_bcwrite.c:67-75 | the code of a number stands for it |
| Uleb.LengthPrefix | LuaJIT-2.0.5/src/lj_bcwrite.c:326-330 | the room left for the length in front of a prototype, computed by shifts from the length alone, is exactly what its code takes |
| Uleb.PatchMakes33 | LuaJIT-2.0.5/src/lj_bcwrite.c:222-235 | patching the last byte turns the code made from 32 bits into the code of the whole 33-bit number |
| Values.NarrowWiden | LuaJIT-2.0.5/src/lj_bcwrite.c:93-98 | an integer survives the trip through a double |
| Values.WidenNarrow | LuaJIT-2.0.5/src/lj_bcwrite.c:93-98 | a double that is written as an integer is restored from it bit for bit, unless it is a minus zero |
| Values.SetNarrowed | LuaJIT-2.0.5/src/lj_bcread.c:201-217 | a number written as an integer is restored when that is read |
| Values.NarrowIff | LuaJIT-2.0.5/src/lj_bcwrite.c:93-98 | exactly those doubles are written as integers whose value, from sign, exponent and mantissa as IEEE 754 has it, is a 32-bit integer; and as that integer |
| Writer.BCWriteCtx.Uleb128 | LuaJIT-2.0.5/src/lj_bcwrite.c:67-75 | appends exactly the code of the number |
| Writer.BCWriteCtx.Ktab | LuaJIT-2.0.5/src/lj_bcwrite.c:112-148 | appends the sizes and entries of the table: the array without unused slots at its end, and the used slots of the hash part from its end |
| Writer.BCWriteCtx.Kgc | LuaJIT-2.0.5/src/lj_bcwrite.c:151-203 | appends all GC constants of a prototype |
| Writer.BCWriteCtx.OneNumber | LuaJIT-2.0.5/src/lj_bcwrite.c:211-237 | appends the 33-bit code of an integer or the two words of a number |
| Writer.BCWriteCtx.FillIn | LuaJIT-2.0.5/src/lj_bcwrite.c:325-332 | the length and the data go to the callback as one block without a gap |
| Writer.BCWriteCtx.WriteProto | LuaJIT-2.0.5/src/lj_bcwrite.c:272-333 | sends the prototype, children first, in the format of the dump; after an error of the callback, only a prefix |
| Writer.BCWriteCtx.WriteDump | LuaJIT-2.0.5/src/lj_bcwrite.c:379-395 | if the callback takes all blocks, the whole dump was sent, otherwise a prefix of it; the result is the last answer of the callback |
| Dump.RereadSame | LuaJIT-2.0.5/src/lj_bcwrite.c:112-148 | a template table reads the same after the trip, though unused slots are gone |
| DumpExample.ExampleBytes | LuaJIT-2.0.5/src/lj_bcwrite.c:379-395 | the bytes of the dump of one prototype with a table, constants of several types and numbers, written out after the grammar at the top of lj_bcdump.h |
| DumpExample.DebuggedBytes | LuaJIT-2.0.5/src/lj_bcwrite.c:272-395 | another one, with debug info and the name of the chunk |
| DumpExample.NestedBytes | LuaJIT-2.0.5/src/lj_bcwrite.c:281-292 | a prototype with two children: the last one comes first, and the parent at the end |
| Reader.LexState.Uleb128 | LuaJIT-2.0.5/src/lj_bcread.c:136-151 | the number that the next bytes stand for in 32 bits, and just as many bytes used; an error at the end of the input |
| Reader.LexState.Uleb33 | LuaJIT-2.0.5/src/lj_bcread.c:154-169 | the same for 33-bit codes without their lowest bit |
| Reader.LexState.Ktab | LuaJIT-2.0.5/src/lj_bcread.c:220-241 | the table that the next bytes describe |
| Reader.LexState.Kgc | LuaJIT-2.0.5/src/lj_bcread.c:244-280 | the GC constants that the next bytes describe, children taken from the stack |
| Reader.LexState.ReadOne | LuaJIT-2.0.5/src/lj_bcread.c:329-420 | the next prototype, or the end of the dump |
| Reader.LexState.Read | LuaJIT-2.0.5/src/lj_bcread.c:455-475 | the prototype that the dump describes, or the error for a dump that is damaged |
| Undump.Uleb33Back | LuaJIT-2.0.5/src/lj_bcread.c:154-169 | both kinds of number constants come back from their codes, with the tag bit |
| Undump.KtabBack | LuaJIT-2.0.5/src/lj_bcread.c:220-241 | a template table comes back from its bytes, without unused slots |
| Undump.KgcsBack | LuaJIT-2.0.5/src/lj_bcread.c:244-280 | GC constants come back in order, and each child lands in its own slot |
| Undump.TreeBack | LuaJIT-2.0.5/src/lj_bcread.c:329-420 | reading what was written for a prototype and its children pushes that prototype and nothing else |
| Undump.DumpBack | LuaJIT-2.0.5/src/lj_bcread.c:455-475 | round trip: reading a dump gives the prototype that was dumped |
| RoundTrip.DumpAndLoad | LuaJIT-2.0.5/src/lj_bcwrite.c:379-395 | writer, callback and reader together: what is loaded is what was dumped, with its name or without debug info |
| CronTime.Tm.Mktime | ccronexpr.c:173-175 | normalizes the fields without changing the time they stand for |
| Calendar.MonthRule | ccronexpr.c:1021-1033 | lengths of months: 31 and 30 in turn, but for February, and 31 in both July and August |
| CronTime.Tm.AddToField | ccronexpr.c:270-302 | adds to the field, carrying as the calendar does |
| CronTime.AddToIs | ccronexpr.c:270-302 | adding to a field of a time is adding to that field of its date and time of day, normalized |
| CronTime.Tm.SetField | ccronexpr.c:358-392 | sets the field, carrying as the calendar does |
| CronSearch.NextSetBit | ccronexpr.c:241-252 | the first listed value from an index on, if there is one |
| CronSearch.FindNext | ccronexpr.c:398-422 | the calendar comes to the next time at which the field has a listed value, with the lower fields reset, or stays where it is |
| CronSearch.FindNextDay | ccronexpr.c:424-441 | the calendar stays where it is, or comes to the start of the next day that matches, or of the 366th if none before it does; the answer is the number of that day |
| CronSound.SoundIff | ccronexpr.c:424-441 | no search comes to a time at which the expression does not fire, if and only if: wherever the day moves on to one of the same number in a listed month, be it the next matching day or the 366th, that day matches, and its first second too |
| CronSound.FridayThirteenth | ccronexpr.c:424-507 | a wrong one: from Tuesday, 2001-02-13 09:00:00 the search for a Friday 13 at 09:00:00 comes to 2001-04-13 00:00:00 |
| CronForward.WeekdaysFound | ccronexpr.c:424-441 | with Monday to Friday and the days 1 to 15 listed, the next matching day is always found and has another number |
| CronForward.MonthStep | ccronexpr.c:411-416 | a change of the month comes to the first of the listed month found, or of the one after if that does not have the day of the month left behind, by way of January if the year changes |
| CronSearch.DoNext | ccronexpr.c:443-531 | terminates for every parsed expression; the time it comes to matches all fields if the expression is sound, and is not before that of its first nested call; if the expression is exact it passed no match by; and where the day moves on to one of the same number, it comes to the start of that |
| CronSearch.CronNext | ccronexpr.c:962-1003 | a result is after the date, and matches all fields if the expression is sound; it is the least such time if it is exact; it is a wrong time for a date that strays and not the least for one that is missed; one is found from a date after the epoch if the expression fires in the next four years, days are found and months may be set before days |
| CronPrev.PrevSetBit | ccronexpr.c:1008-1019 | the last listed value up to an index, if there is one |
| CronPrev.LastDayOfMonth | ccronexpr.c:1021-1033 | the length of the month |
| CronPrev.FindPrev | ccronexpr.c:1094-1118 | the calendar comes to the previous time at which the field has a listed value, with the lower fields at their highest, or stays where it is |
| CronPrev.FindPrevDay | ccronexpr.c:1120-1137 | the calendar stays where it is, or comes to the end of the previous day that matches, or of the 366th if none after it does; the answer is the number of that day |
| CronPrev.DoPrev | ccronexpr.c:1139-1227 | terminates, with every nested call being one the search makes, at a time that matches all fields and is not after that of the first of them |
| CronPrev.CronPrev | ccronexpr.c:1229-1272 | a result is before the date and matches all fields; it is the greatest such time for every exact expression, and is not for a date that is missed; one is found if the expression fired after the epoch in the four years before the date |
| CronDual.NextAndBack | ccronexpr.c:962-1272 | cron_prev after cron_next: it leads to a time not after the date with the same next time, and to the date itself exactly if the expression fires there |
| CronDual.PrevAndForth | ccronexpr.c:962-1272 | cron_next after cron_prev, likewise |
| CronLeast.ExactIff | ccronexpr.c:398-531 | no firing time is passed by from any date if and only if the listed seconds have no gap or all other fields are open, and every listed month behind one that is not listed has all listed days or none; or if the expression never fires |
| CronLeast.FebruaryMissed | ccronexpr.c:398-531 | one that is passed by: from 2001-01-31 12:00:00, with only February listed, the search goes on from 2001-03-01, though the expression fires at 2001-02-01 00:00:00 |
| CronLeast.SecondMissedAt65 | ccronexpr.c:398-531 | another one: at seconds 0 and 30 of minute 0, from 00:01:05 the search goes on from 01:00:30, though the expression fires at 01:00:00 |
| CronGreatest.ExactBackIff | ccronexpr.c:1094-1227 | of the expressions for which the search back ends, it passes no firing time by from any date if and only if the listed seconds have no gap or all other fields are open |
| CronGreatest.SecondMissedBackAt65 | ccronexpr.c:1094-1227 | one that is passed by: from 00:01:05 the search goes on from 00:00:00, though the same expression fires at 00:00:30 |
| CronEnds.EndsIff | ccronexpr.c:1139-1227 | the search back ends from every date if and only if no listed month has a listed day that its next month, which is not listed, would carry over |
| CronEnds.GoesOnForEver | ccronexpr.c:1139-1227 | for all other expressions, a date from which the search makes one nested call after the other without end |
| CronEnds.BackAndForthIn2001 | ccronexpr.c:1139-1227 | one of them: from 2001-03-31 23:59:00, with only February listed, the search alternates between two times for ever |
| CronFields.GetRange | ccronexpr.c:721-785 | an error exactly for a span that is reversed or exceeds the range; otherwise its bounds |
| CronFields.SetNumberHits | ccronexpr.c:787-864 | an error exactly for a bad part; otherwise exactly the values of all parts are added: single numbers, ranges, and steps |
| CronFields.SetMonths | ccronexpr.c:866-888 | months counted from 1 in the field are counted from 0 in the bits |
| CronFields.SetDaysOfWeek | ccronexpr.c:890-910 | Sunday may be 0 or 7 in the field, and is 0 in the bits |
| CronFields.ParseExpr | ccronexpr.c:920-960 | succeeds exactly if all fields are well formed; then no field is empty and each holds exactly the values its parts list |
| StrClass.Complement | LuaJIT-2.0.5/src/lib_string.c:232-244 | the upper case letter of a class matches exactly what the lower case one does not; other characters match themselves |
| StrClass.Letters | LuaJIT-2.0.5/src/lib_string.c:226-244 | what each class letter matches, in ranges of ASCII |
| StrClass.FindClassEnd | LuaJIT-2.0.5/src/lib_string.c:205-224 | the end of a single-character class, or the error for one that does not end |
| StrClass.MatchBracketClass | LuaJIT-2.0.5/src/lib_string.c:246-267 | a character is in a set if one of the elements of the set matches it, or none for a complement |
| StrPattern.BestUnique | LuaJIT-2.0.5/src/lib_string.c:368-451 | a pattern asks for at most one match at a position |
| StrPattern.BestFront | LuaJIT-2.0.5/src/lib_string.c:302-329 | the match asked for begins with the preferred one of those repetitions after which the rest matches |
| StrPattern.Longest | LuaJIT-2.0.5/src/lib_string.c:302-329 | on its own, an item with a minus sign matches nothing, and any other as many characters as it can |
| StrCaptures.CapturesOf | LuaJIT-2.0.5/src/lib_string.c:331-354 | the captures of a match, in the order in which they start: each goes from its opening parenthesis to the closing one that belongs to it, told from the balance of parentheses in the pattern alone |
| StrCaptures.EndsWith | LuaJIT-2.0.5/src/lib_string.c:196-203 | a closing parenthesis ends the capture that the list of captures calls the one to close if and only if it belongs to the opening one of that |
| StrCaptures.Nest | LuaJIT-2.0.5/src/lib_string.c:331-354 | two captures are one inside the other, or apart |
| StrCaptures.ItemsOfExample | LuaJIT-2.0.5/src/lib_string.c:368-451 | the items of one pattern, written out |
| StrCaptures.NestingOfExample | LuaJIT-2.0.5/src/lib_string.c:331-354 | its two captures, the second inside the first |
| StrMatch.MatchState.Match | LuaJIT-2.0.5/src/lib_string.c:368-451 | the match that the pattern asks for, greedy, lazy and optional items first to last, with the captures it leaves, which StrCaptures.CapturesOf describes; null exactly if there is none; or an error at the limit of the recursion |
| StrMatch.MatchState.MaxExpand | LuaJIT-2.0.5/src/lib_string.c:302-315 | the longest repetition after which the rest matches |
| StrMatch.MatchState.MinExpand | LuaJIT-2.0.5/src/lib_string.c:317-329 | the shortest repetition after which the rest matches |
| StrMatch.MatchState.CaptureToClose | LuaJIT-2.0.5/src/lib_string.c:196-203 | the latest capture that is still open: it is unfinished, and none behind it is |
| StrMatch.MatchState.Find | LuaJIT-2.0.5/src/lib_string.c:536-558 | the first position from the start on at which the pattern matches, and the match it asks for there, with the captures of properly nested parentheses; anchored patterns only at the start |
| TableSort.MedianOfThree | LuaJIT-2.0.5/src/lib_table.c:199-220 | first, middle and last element are in order; with up to three elements, all is sorted |
| TableSort.ScanUp | LuaJIT-2.0.5/src/lib_table.c:228-232 | stops at the first element not below the pivot, or at the end of the range with the error for an invalid order function |
| TableSort.ScanDown | LuaJIT-2.0.5/src/lib_table.c:233-237 | stops at the first element not above the pivot, or at the start of the range with the error |
| TableSort.Partition | LuaJIT-2.0.5/src/lib_table.c:221-247 | rearranges the range around its middle element: nothing behind it is less and nothing in front is greater |
| TableSort.AuxSort | LuaJIT-2.0.5/src/lib_table.c:195-256 | whatever the order function answers, the range is only rearranged; if it is a strict weak order, the range is sorted without error; recursion is at most logarithmic |

## Left out

Allocator:

- Direct mapping of large chunks, trimming of top, release of unused segments and lj_alloc_destroy. The blocks of the model are those of one state.
- Arena.Arena.AllocSys: takes the general path for all sizes; the direct mapping of requests from the threshold on (lj_alloc.c:906-911) is not modelled.
- Arena.Arena.Malloc: the same, by way of AllocSys.
- Arena.Arena.Free: no chunk is mapped directly, top is not trimmed (lj_alloc.c:1300-1301), and segments are not released (lj_alloc.c:1327-1328).
- Arena.Arena.Realloc: no chunk is mapped directly (lj_alloc.c:1347-1348).
- Arena.Arena.Serve: as for Malloc, Free and Realloc.
- Arena.Arena.Run: as for Serve.
- Memory maps addresses to words, and link words are kept in records of the bins, at their places in `Arena.View`; that a word is eight bytes shows only in that no two of them overlap.
- Calls for memory are parameters: the system may answer anything that overlaps nothing, or fail.

DynASM:

- DISP, VREG, MARK, SETLABEL, EXTERN and REL_A actions, actions for x64 only, and builds without DASM_CHECKS.
- Encoder.Dasm.Put: requires action lists as the preprocessor writes them, with room in the section for the positions of all actions; growing of buffers, overflow of the 24-bit positions and of 32-bit offsets are not modelled.
- Encoder.Dasm.Link: requires that no local label is pending, which dasm_checkstep has checked.

Register shuffling:

- The last part of asm_phi_shuffle, which restores invariants and saves PHI registers that have gained a spill slot, bookkeeping of renames for snapshots, and everything else of the backends.
- Phi.PhiShuffler.Rename: the rename entry that snapshots look up (lj_asm.c:631-637) is not modelled, only the move and the allocation.
- Phi.PhiShuffler.Restore: the kind of load that brings the value back is not modelled, only that it does.

Bytecode:

- Dumps of the other byte order are a fault; debug info is opaque bytes; loop instructions patched by the JIT compiler are not patched back; the reader gets its input as a whole, without a refill callback.
- Writer.BCWriteCtx.WriteProto: requires sizes that fit the 32-bit fields of the format.

Cron:

- Local time, splitting of strings, names of months and days, and strtol.
- CronFields.GetRange: starts from bounds that are numbers.
- CronFields.SetNumberHits: starts from parts that are split into numbers, ranges and steps.
- CronFields.SetMonths: names of months have been replaced by numbers.
- CronFields.SetDaysOfWeek: names of days have been replaced by numbers, and a question mark by a star.
- CronFields.ParseExpr: starts from six fields, each split into its parts.
- CronSearch.CronNext: that a time is found is not claimed for expressions whose days may move on to one of the same number, nor for months that may not be set before days.
- CronLeast.ExactIff: requires an open day field; where both are restricted, the condition is shown to be sufficient only.
- CronPrev.CronPrev: requires an expression for which the search ends, by CronEnds.EndsIff, and whose previous matching day is found and has another number.
- CronPrev.DoPrev: requires the same.
- CronEnds.EndsIff: requires an open day field.
- CronSearch.DoNext: the loop-free body is split into one method for each field, and its lists are sequences; running out of memory for them is not modelled. The same holds for CronPrev.DoPrev.
- The width of tm_year and time_t.

Patterns and sorting:

- string.gsub, gmatch and format.
- StrMatch.MatchState.Match: says nothing of the result for patterns with back-references, %b or %f items, or malformed ones.
- TableSort.AuxSort: elements are values, and the order function has no effects and does not raise errors.
