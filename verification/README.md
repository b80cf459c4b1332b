# apultra match finder, modelled in Dafny

apultra is an aPLib-compatible compressor. Its match finder (`src/matchfinder.c`,
`src/matchfinder.h`) turns a window of bytes into candidate matches. It works in
three stages:

- **Build.** `apultra_build_suffix_array` suffix-sorts the window. It computes
  the permuted LCP array by Kärkkäinen's Φ method and rotates it into rank
  entries. Each entry packs a position with a clamped, hash-tagged LCP into one
  64-bit reference. A single stack sweep then turns the rank entries into an
  LCP-interval tree. `intervals[x]` links interval x to its parent, the
  interval just enclosing it, and `pos_data[p]` links position p to the
  deepest interval that holds its rank.
- **Enumerate.** `apultra_find_matches_at` climbs that tree lazily for one
  position. It relinks every interval it passes to the position (flagged as
  visited), follows `pos_data` links to earlier positions, and offers
  (length, offset) candidates. Each candidate is filtered at one of five sites,
  coalesced into runs of depth words, and capped at the caller's capacity. The
  call also records the short-offset byte `match1`.
- **Drive.** `apultra_skip_matches` runs the enumeration without output over
  the previous block. `apultra_find_all_matches` runs it with output over the
  new bytes, in zero-padded slots of `nMatchesPerOffset` entries.
  `apultra_find_all_block_matches` chains build, skip and find.
  `apultra_matchfinder_init` and `apultra_matchfinder_destroy` allocate and
  release the six buffers.

The model has eight modules, one file each:

- `Layout` (`layout.dfy`): the packed reference, its masks and the index tag.
- `Suffixes` (`suffixes.dfy`): common-prefix length, suffix order, suffix
  arrays, rank and Φ.
- `Construction` (`construction.dfy`):
  - Φ and PLCP, computed in place on arrays;
  - the rotation into rank entries;
  - the specification `RankEntries` that the rotation meets.
- `IntervalTree` (`sweep.dfy`): the stack sweep, as methods over `array<u64>`.
  Its invariant is stated by predicates over the open stack, the parent links
  and the leaf links, and by a ghost rank range per interval. When the sweep
  ends, its tables satisfy `LcpTree`:
  - the intervals are exactly the LCP intervals of the rank order, each once,
    numbered by their leftmost boundary of their own depth;
  - every interval but the root links to its parent, the interval just
    enclosing it;
  - every position links to the deepest interval that holds its rank.

  Two trees over the same rank entries hold the same entries (`TablesAgree`).
- `Enumeration` (`enumeration.dfy`): one call of `apultra_find_matches_at` as
  functions on values (`FindAt`), one function per source loop. Each function
  takes a fuel bound.
- `EnumerationFacts` (`enumeration_facts.dfy`) covers three things:
  - properties of one call: the result does not depend on the fuel, the table
    rewrite does not depend on the request, the output stays within bounds,
    and the climb only turns the intervals it passes into `p | VISITED_FLAG`;
  - the tables and output of the call at a position (`Next`, `Emit`);
  - trails of calls over a range of positions.
- `Termination` (`termination.dfy`): an invariant of the two tables that
  every call keeps. Under it, the climb of lines 214-217 always finishes,
  within 2^15 steps, one per value of the LCP field.
- `MatchFinding` (`matchfinder.dfy`): class `MatchFinder`, holding the six
  buffers and `max_offset` as fields. Its methods are the source's functions,
  each proved against the functional model. For example, `FindMatchesAt`
  rewrites the tables to `Next` and writes exactly `Emit`. `FindAllMatches`
  fills `match`, `match_depth` and `match1` with the padded slots of the
  outputs along the trail of calls.

Every 64-bit reference is an unbounded integer restricted to `0 .. 2^64 - 1`
(`u64`). Masks and shifts are written out as division, remainder and addition.
`MasksPartitionWord` ties those numbers to the header's `bv64` masks. The
correspondence of each view (`PosOf`, `LcpOf`, `ClearVisited`, `MatchLenOf`,
`Pack`, `Visit`, `Tagged`) with the source's `&`, `>>`, `<<` and `|` rests on
standard identities for unsigned words, and is not proved in Dafny:
- `x & (2^k - 1) == x % 2^k`;
- `x >> k == x / 2^k`;
- `a | (b << k) == a + b * 2^k` when `a < 2^k`.

## Model

| member | source | states |
|---|---|---|
| Layout.MasksPartitionWord | src/matchfinder.h:44-52 | POS_MASK, LCP_MASK and VISITED_FLAG are disjoint and cover all 64 bits; EXCL_VISITED_MASK is the complement of VISITED_FLAG; LCP_SHIFT is 48, LCP_MAX is 2047, and LCP_AND_TAG_MAX is LCP_MAX with a full 4-bit tag, i.e. 2^15 - 1 |
| Layout.PosOf | src/matchfinder.c:95 | `x & POS_MASK` is below 2^48 |
| Layout.LcpOf | src/matchfinder.c:123-124 | the LCP field of a reference is below 2^15 |
| Layout.ClearVisited | src/matchfinder.c:230 | `x & EXCL_VISITED_MASK` is below the visited bit |
| Layout.MatchLenOf | src/matchfinder.c:240 | the match length shifted out of a reference is below 4096 |
| Layout.Pack | src/matchfinder.c:102 | packing a position with an LCP field gives both back under their masks, with the visited bit clear |
| Layout.Visit | src/matchfinder.c:215 | `p \| VISITED_FLAG` keeps p under both masks, has an empty LCP field, and is non-zero and at least 2^63 |
| Layout.Tagged | src/matchfinder.c:100 | `(len << TAG_BITS) \| tag` stays within LCP_AND_TAG_MAX, and splits back into len and tag |
| Layout.PackRoundTrip | src/matchfinder.c:95-102 | a position packed with a tagged length unpacks to the same position and the same match length, and clearing the visited bit leaves it unchanged |
| Layout.PackOrder | src/matchfinder.c:126-129 | references compare by their LCP fields whenever those differ; packing is injective |
| Layout.IndexTag | src/matchfinder.c:43-45 | the golden-ratio hash of an index, taken mod 2^64 and shifted right by 60, fits 4 bits |
| Layout.TaggedLcp | src/matchfinder.c:96-100 | a PLCP below MIN_MATCH_SIZE gives field 0; otherwise the field is the length clamped to LCP_MAX, with the index tag in the low 4 bits |
| Suffixes.Lce | src/matchfinder.c:83-84 | the common prefix of two suffixes stays inside the window |
| Suffixes.LceAgree | src/matchfinder.c:84 | two suffixes agree on their first Lce bytes and differ at the next byte when both go on |
| Suffixes.LceExact | src/matchfinder.c:84 | a common prefix that ends at a mismatch or at the window's end has exactly the Lce length |
| Suffixes.Rank | src/matchfinder.c:76-77 | every position has exactly one rank in a permutation |
| Suffixes.Phi | src/matchfinder.c:76-77 | Φ[p] is -1 or another position of the window |
| Suffixes.SortedLess | src/matchfinder.c:62-64 | in a suffix array, a lower rank holds a strictly smaller suffix |
| Suffixes.PermutedLcpStep | src/matchfinder.c:84-86 | Kärkkäinen's carry: if PLCP[i] is at least 2 then Φ[i + 1] exists, and PLCP[i + 1] is at least PLCP[i] - 1; this justifies keeping nCurLen - 1 |
| Suffixes.NeighbourLce | src/matchfinder.c:92-103 | the suffix just before rank j shares at least as long a prefix with it as any earlier rank |
| Construction.PlcpMeaning | src/matchfinder.c:78-87 | PLCP[i] is 0 for the first suffix; otherwise the suffixes at i and Φ[i] agree on PLCP[i] bytes within the window and differ right after |
| Construction.PlcpAtRank | src/matchfinder.c:92-103 | read at sa[k], PLCP is 0 for rank 0 and the common prefix of ranks k - 1 and k elsewhere |
| Construction.FillPhi | src/matchfinder.c:76-77 | the array filled from the suffix array is Φ at every position |
| Construction.PhiByRank | src/matchfinder.c:76-77 | a table that holds sa[k - 1] (or -1) at sa[k] for every rank k is Φ |
| Construction.ExtendMatch | src/matchfinder.c:83-84 | starting from any lower bound, the extension loop ends exactly at the common prefix of i and Φ[i] |
| Construction.PhiToPlcp | src/matchfinder.c:78-87 | the in-place pass with its running nCurLen turns Φ into PLCP at every position |
| Construction.ComputePlcp | src/matchfinder.c:71-87 | the PLCP of the window, from its suffix array |
| Construction.Entry | src/matchfinder.c:94-102 | the rank entry of a position keeps the position, with the tagged LCP in the LCP field |
| Construction.Rotate | src/matchfinder.c:92-103 | entry 0 keeps its position; entry r >= 1 becomes its position packed with its tagged PLCP; entries past the window are untouched |
| Construction.RankEntry | src/matchfinder.c:92-103 | rank r holds position sa[r]; its LCP field is 0 for rank 0, and otherwise the tagged common prefix with rank r - 1 |
| Construction.RankEntries | src/matchfinder.c:92-103 | the rank table has one entry per position, each the RankEntry of its rank |
| Construction.RankEntriesDistinct | src/matchfinder.c:122 | the rank entries name distinct positions inside the window |
| Construction.BuildRanks | src/matchfinder.c:69-103 | the first n entries become RankEntries of the window; later entries are untouched |
| IntervalTree.BoundaryDepth | src/matchfinder.c:123 | a boundary depth fits the LCP field |
| IntervalTree.Enclosing | src/matchfinder.c:140-154 | the depth of the interval just enclosing ranks lo..hi is the deeper of the two boundaries around them |
| IntervalTree.LeafDepth | src/matchfinder.c:127-135 | the depth of the leaf interval of rank k is the deeper of the boundaries around rank k |
| IntervalTree.GrowClosed | src/matchfinder.c:130 | opening an interval keeps every parent link made so far |
| IntervalTree.GrowLeaves | src/matchfinder.c:130 | opening an interval keeps every leaf link made so far |
| IntervalTree.Push | src/matchfinder.c:130 | pushing a deeper interval keeps the open stack strictly increasing in id and depth, and the push fits the 2^15-slot stack |
| IntervalTree.Pop | src/matchfinder.c:137 | popping keeps the open stack, and the popped id is no longer on it |
| IntervalTree.CloseTop | src/matchfinder.c:142-154 | linking the popped interval to a shallower one keeps every closed interval linked to its parent |
| IntervalTree.Interpose | src/matchfinder.c:144-150 | an interval of intermediate depth replaces the top; the closed top links to it, and the stack stays ordered |
| IntervalTree.LinkLeaf | src/matchfinder.c:127-134 | linking the position of rank k to an interval of its leaf depth extends the leaf links to rank k |
| IntervalTree.StepLevel | src/matchfinder.c:126-128 | an equal LCP keeps the sweep invariant after one more rank |
| IntervalTree.StepOpen | src/matchfinder.c:129-131 | a deeper LCP opens an interval, which fits the stack and the id field, and keeps the sweep invariant |
| IntervalTree.LinkSpan | src/matchfinder.c:128 | linking the position of rank r - 1 to the top interval keeps every rank range: the top interval holds rank r - 1 |
| IntervalTree.OpenSpan | src/matchfinder.c:131 | the interval opened at boundary r starts at rank r - 1 and keeps the open stack nested, each open interval an LCP interval as far as rank r shows |
| IntervalTree.Advance | src/matchfinder.c:126-158 | once the top interval is as deep as boundary r, that boundary lies inside it and every open interval stays an LCP interval through rank r |
| IntervalTree.CloseSpan | src/matchfinder.c:142-163 | the closed top interval ends at rank r - 1 and is then a full LCP interval, inside the interval below it, whose depth is that of the deeper boundary around it |
| IntervalTree.InterposeSpan | src/matchfinder.c:149-150 | the new interval of depth next_lcp starts where the closed one does and becomes its parent, of the deeper boundary's depth |
| IntervalTree.FinishSpans | src/matchfinder.c:161-163 | with only the root open after the last rank, the root spans every rank and the tables form the LcpTree |
| IntervalTree.LeafDeepest | src/matchfinder.c:127-135 | of all intervals of the tree holding rank k, the one the position of rank k links to is the deepest |
| IntervalTree.ParentNearest | src/matchfinder.c:140-154 | of all shallower intervals enclosing an interval, its parent is the deepest |
| IntervalTree.IntervalsUnique | src/matchfinder.c:131 | no LCP interval is opened twice: two intervals with the same ranks and depth have the same id |
| IntervalTree.IntervalsComplete | src/matchfinder.c:121-163 | every LCP interval of the rank order is an interval of the tree |
| IntervalTree.LcpSame | src/matchfinder.c:121-163 | an LCP interval is fixed by its depth and its ranks |
| IntervalTree.LcpOverlap | src/matchfinder.c:121-163 | two LCP intervals of one depth that share a rank are the same interval |
| IntervalTree.Embeds | src/matchfinder.c:119-131 | ids follow the leftmost boundaries, so the first m ids of one tree name the same intervals in another tree over the same ranks |
| IntervalTree.TreesAgree | src/matchfinder.c:111-163 | two trees over the same rank entries have the same intervals under the same ids |
| IntervalTree.TablesAgree | src/matchfinder.c:111-163 | two trees over the same rank entries hold the same parent link in every interval entry and the same entry for the position of every rank |
| IntervalTree.SameOwner | src/matchfinder.c:111-163 | two intervals of a tree with one depth that share a rank are one interval |
| IntervalTree.SweepStep | src/matchfinder.c:121-158 | one rank of the sweep keeps the sweep invariant and the rank ranges, with boundary r now read |
| IntervalTree.ContinueTop | src/matchfinder.c:126-128 | an equal LCP links the position of rank r - 1 to the top interval and keeps the invariant and the ranges |
| IntervalTree.OpenAbove | src/matchfinder.c:129-132 | a deeper LCP pushes a new interval and links the position of rank r - 1 to it, keeping the invariant and the ranges |
| IntervalTree.CloseDown | src/matchfinder.c:133-157 | a shallower LCP links the position of rank r - 1 to the top, then closes down to depth next_lcp, keeping the invariant, the ranges and the unread entries |
| IntervalTree.CloseOne | src/matchfinder.c:136-155 | one pop links the closed interval to its parent and keeps the stack; it stops exactly when the top has depth next_lcp, and otherwise the stack shrinks; no entry past the ids in use is written |
| IntervalTree.LinkBelow | src/matchfinder.c:140-155 | the popped interval is linked to the one below it and gets its last rank r - 1 |
| IntervalTree.PutBetween | src/matchfinder.c:144-151 | the popped interval is linked to a new interval of depth next_lcp that takes its place on the stack |
| IntervalTree.CloseDeeper | src/matchfinder.c:133-156 | closing ends with next_lcp on top, every closed interval linked to its parent, and the unread rank entries untouched |
| IntervalTree.ReadEntries | src/matchfinder.c:121-123 | the rank entries read so far and past the ids in use are never overwritten |
| IntervalTree.CloseAll | src/matchfinder.c:161-163 | after the last rank only the root stays open and the tables form the LcpTree; entries past the last id keep their rank entries |
| IntervalTree.CloseOpen | src/matchfinder.c:163 | the final loop closes every open interval but the root, each linked to the one below it and ending at the last rank |
| IntervalTree.Sweep | src/matchfinder.c:111-163 | on rank entries of distinct positions, the sweep leaves the LcpTree of those entries: the root entry is 0, every other interval is an LCP interval linked to its parent, every position links to the deepest interval holding its rank, entries past the last id and past n are unchanged |
| Enumeration.Climb | src/matchfinder.c:214-217 | the climb keeps the table sizes and ends at an interval whose entry has an empty LCP field; what it writes is in EnumerationFacts.ClimbEffect |
| Enumeration.Accepts | src/matchfinder.c:297-326 | the filter of each of the five offer sites once there is room: offset at most max_offset, and the site's own test (none; distance 128 from the last offset; length 3, or 2 with two free entries, below 1280 and distance 128; a new offset; length 2 and distance 128) |
| Enumeration.Continues | src/matchfinder.c:244-245 | a candidate one closer and one shorter than the last entry, of length above 2, extends its run while the run count is below LCP_MAX |
| Enumeration.Offer | src/matchfinder.c:242-262 | the repeated offer block keeps the output consistent and match1 unchanged; its three outcomes are in EnumerationFacts.OfferCases |
| Enumeration.Gate | src/matchfinder.c:238 | indirect candidates are offered only when both low bits of nBlockFlags are set |
| Enumeration.Candidate | src/matchfinder.c:238-239 | a gated candidate keeps the output consistent and match1 unchanged; its cases are in EnumerationFacts.OfferCases |
| Enumeration.ChaseLinks | src/matchfinder.c:297-328 | the chase stops at a position whose pos_data entry is at most ref in packed order, with a consistent output and match1 unchanged |
| Enumeration.Ascend | src/matchfinder.c:265-390 | one turn of the ascent keeps the table sizes and a consistent output; bounds are in EnumerationFacts.AscendBounded |
| Enumeration.DirectOutput | src/matchfinder.c:330-358 | the direct offer keeps the output consistent; bounds are in EnumerationFacts.DirectBounded |
| Enumeration.Relink | src/matchfinder.c:330-389 | relinking keeps the table sizes and a consistent output; bounds are in EnumerationFacts.RelinkBounded |
| Enumeration.FindAt | src/matchfinder.c:182-393 | one call keeps the table sizes and a consistent output |
| EnumerationFacts.ClimbFuel | src/matchfinder.c:214-217 | more fuel than the climb needs changes nothing |
| EnumerationFacts.ChaseFuel | src/matchfinder.c:297-328 | more fuel than the chase needs changes nothing |
| EnumerationFacts.AscendFuel | src/matchfinder.c:265-390 | more fuel than the ascent needs changes nothing |
| EnumerationFacts.RelinkFuel | src/matchfinder.c:330-389 | more fuel than the relink needs changes nothing |
| EnumerationFacts.FindAtFuel | src/matchfinder.c:182-393 | more fuel than a call needs changes nothing |
| EnumerationFacts.FindAtDeterministic | src/matchfinder.c:182-393 | any two sufficient fuels give the same tables and output |
| EnumerationFacts.ChaseIndependent | src/matchfinder.c:297-328 | whether the chase finishes, and where it stops, do not depend on the request or the output so far |
| EnumerationFacts.AscendIndependent | src/matchfinder.c:265-390 | whether the ascent finishes, and the tables it leaves, do not depend on the request or the output so far |
| EnumerationFacts.RelinkIndependent | src/matchfinder.c:330-389 | whether the relink finishes, and the tables it leaves, do not depend on the request or the output so far |
| EnumerationFacts.FindAtIndependent | src/matchfinder.c:409-411 | the rewrite of intervals and pos_data by one call does not depend on nMaxMatches, nBlockFlags or max_offset, so skipping a position updates the tree as finding its matches would |
| EnumerationFacts.OfferCases | src/matchfinder.c:238-263 | an offer either leaves the output alone (no room or filtered out), appends exactly the candidate with its site's flag, or raises the depth word of the run's entry by one; bounds are kept |
| EnumerationFacts.CandidateBounded | src/matchfinder.c:238-239 | a gated candidate keeps the output within bounds |
| EnumerationFacts.ChaseBounded | src/matchfinder.c:297-328 | the chase keeps the output within bounds |
| EnumerationFacts.DirectBounded | src/matchfinder.c:330-358 | the direct offer and the match1 update keep the output within bounds |
| EnumerationFacts.AscendBounded | src/matchfinder.c:265-390 | the ascent keeps the output within bounds |
| EnumerationFacts.RelinkBounded | src/matchfinder.c:330-389 | relinking keeps the output within bounds |
| EnumerationFacts.ClimbEffect | src/matchfinder.c:214-217 | the climb leaves pos_data alone, turns every interval entry it changes into p \| VISITED_FLAG, and stops at ref itself or at a parent link read from the intervals table |
| EnumerationFacts.FindAtRoot | src/matchfinder.c:219-227 | when the climb ends at an entry of 0 (the root or an unvisited child of the root), the call returns no matches and match1 0, pos_data[p] becomes 0 with the rest of pos_data kept, and each interval entry is kept or becomes p \| VISITED_FLAG |
| EnumerationFacts.FindAtBounded | src/matchfinder.c:182-393 | one call returns at most nMaxMatches entries (none when it is 0), each offset at most max_offset, each depth word a run count of at most LCP_MAX, possibly with the 0x8000 flag, and match1 in 0..255 |
| EnumerationFacts.Next | src/matchfinder.c:182-393 | the tables after the call at p keep their sizes |
| EnumerationFacts.Emit | src/matchfinder.c:182-393 | the output of the call at p is within the bounds of its request |
| EnumerationFacts.Canonical | src/matchfinder.c:182-393 | whatever the fuel and request of a call that finishes, its tables are Next and its output is Emit |
| EnumerationFacts.TrailTail | src/matchfinder.c:410-411 | a trail without its first call is the trail of the calls after it |
| EnumerationFacts.TrailThrough | src/matchfinder.c:410-411 | a trail's calls all finish, and it ends in the tables that the calls in order give |
| EnumerationFacts.TrailUnique | src/matchfinder.c:410-411 | two trails of the same calls from the same tables are equal |
| EnumerationFacts.TrailExists | src/matchfinder.c:410-411 | calls that all finish have a trail |
| EnumerationFacts.TrailAppend | src/matchfinder.c:410-411 | a trail followed by one more call that finishes is the trail of the calls one position further |
| EnumerationFacts.TrailPrefix | src/matchfinder.c:472 | the first calls of a trail form a trail of their own |
| EnumerationFacts.TrailSuffix | src/matchfinder.c:473-474 | the remaining calls of a trail form a trail from where the prefix ended |
| EnumerationFacts.Outputs | src/matchfinder.c:434-436 | one output per call along a trail |
| EnumerationFacts.OutputAt | src/matchfinder.c:434-436 | the j-th output along a trail is the Emit of the j-th call, which is a step of the trail |
| EnumerationFacts.OutputsProduced | src/matchfinder.c:434-436 | the outputs along a trail are produced call by call |
| EnumerationFacts.ProducedOutputs | src/matchfinder.c:434-436 | outputs produced call by call along a trail are its Outputs |
| EnumerationFacts.ProducedWithin | src/matchfinder.c:434-436 | every output produced along a trail fits its request's capacity |
| EnumerationFacts.ThroughSplit | src/matchfinder.c:472-474 | the calls over [0, prev) and then [prev, n) leave the same tables as one pass over [0, n) |
| Termination.EntryTarget | src/matchfinder.c:229-230 | under the invariant, an interval entry with the visited bit cleared names a window position, or lies beyond every table when it is a parent link below the root |
| Termination.VisitKeeps | src/matchfinder.c:215 | relinking an interval to `p \| VISITED_FLAG` for a window position p keeps the invariant |
| Termination.ClimbKeeps | src/matchfinder.c:214-217 | from an interval of depth at most f the climb finishes within f steps, keeps the invariant and stops at an interval of the tree |
| Termination.ChaseStays | src/matchfinder.c:297-328 | the chase stops at a position of the window |
| Termination.AscendKeeps | src/matchfinder.c:265-390 | the ascent keeps the invariant |
| Termination.RelinkKeeps | src/matchfinder.c:330-389 | the relink of lines 330-331, and the turns after it, keep the invariant |
| Termination.FindAtKeeps | src/matchfinder.c:182-393 | a call at a window position keeps the invariant |
| Termination.CallClimbs | src/matchfinder.c:207-217 | under the invariant, the climb of every call finishes within 2^15 steps, since each parent link it follows is strictly shallower |
| Termination.CallDefined | src/matchfinder.c:182-393 | under the invariant, a call whose ascent finishes finishes |
| Termination.NextKeeps | src/matchfinder.c:182-393 | the tables after a call keep the invariant |
| MatchFinding.BuiltHierarchy | src/matchfinder.c:111-163 | the built tables satisfy the invariant the calls keep |
| MatchFinding.BuiltUnique | src/matchfinder.c:56-167 | the built shape is a function of the window: two tables of that shape for one window agree on every entry of both tables over the window |
| MatchFinding.RunsAlong | src/matchfinder.c:410-411 | along a trail from built tables, with every ascent finishing, every later call finishes |
| MatchFinding.BuiltRuns | src/matchfinder.c:472-474 | given that every ascent finishes, the calls over the whole window from the built tables all finish |
| MatchFinding.Record | src/matchfinder.c:238-263 | the repeated offer block writes exactly Offer's output into the arrays, and touches nothing outside the entries written |
| MatchFinding.Consider | src/matchfinder.c:238-239 | the gated offer writes exactly Candidate's output and touches nothing else |
| MatchFinding.Padded | src/matchfinder.c:438-443 | a padded slot has exactly k entries |
| MatchFinding.MatchSlots | src/matchfinder.c:434-447 | the match array for n outputs has Span(n, k) = n * k entries |
| MatchFinding.DepthSlots | src/matchfinder.c:434-447 | the match_depth array for n outputs has n * k entries |
| MatchFinding.Match1s | src/matchfinder.c:434-447 | match1 holds one byte per position: that position's match1 |
| MatchFinding.SlotsAppend | src/matchfinder.c:444-446 | one more position appends exactly its padded slot to match and match_depth and its byte to match1 |
| MatchFinding.ZeroFill | src/matchfinder.c:438-443 | the padding loop zeroes entries lo..hi-1 of both arrays and nothing else |
| MatchFinding.SlotLayout | src/matchfinder.c:435-446 | a kept prefix, then the entries written, then the zero padding, is the prefix plus the padded slot |
| MatchFinding.SpanProduct | src/matchfinder.c:444-445 | advancing the pointers by nMatchesPerOffset per position gives n * k entries |
| MatchFinding.MatchFinder.MarkPath | src/matchfinder.c:214-217 | the climb loop on the intervals array computes exactly Climb |
| MatchFinding.MatchFinder.FollowLinks | src/matchfinder.c:297-328 | the chase loop computes exactly ChaseLinks and writes its output, and nothing else |
| MatchFinding.MatchFinder.OfferDirect | src/matchfinder.c:330-358 | the direct offer and the match1 store compute exactly DirectOutput |
| MatchFinding.MatchFinder.Approach | src/matchfinder.c:266-328 | the step along pos_data and the chase leave the tables alone, and what remains of the turn is Relink |
| MatchFinding.MatchFinder.Link | src/matchfinder.c:330-389 | linking either finishes the call as Relink does, or continues with the superinterval as Ascend does, with less fuel |
| MatchFinding.MatchFinder.Ascent | src/matchfinder.c:265-390 | the `for (;;)` loop computes exactly Ascend, on the tables and on all three outputs |
| MatchFinding.MatchFinder.Enumerate | src/matchfinder.c:198-263 | the body of a call computes exactly FindAt: new tables, entries with their count, match1, and nothing else written |
| MatchFinding.MatchFinder.FindMatchesAt | src/matchfinder.c:182-393 | a call that finishes rewrites the tables to Next, returns the count of Emit's entries, writes them from the base index, sets match1 to Emit's byte, and writes nothing else |
| MatchFinding.MatchFinder.BuildSuffixArray | src/matchfinder.c:56-167 | returns 100 and leaves the tables alone when sorting fails; otherwise returns 0 with the tables in the Built shape: the LcpTree of the rank entries, with every interval linked to its parent and every position to the deepest interval holding its rank; the entries past the window are kept |
| MatchFinding.MatchFinder.SkipAt | src/matchfinder.c:410-411 | one skipped call moves the tables one step along the trail |
| MatchFinding.MatchFinder.SkipMatches | src/matchfinder.c:402-413 | skipping [start, end) leaves the tables at the end of the trail of those calls |
| MatchFinding.MatchFinder.FindSlot | src/matchfinder.c:435-446 | the call at start + j writes its output as one zero-padded slot of k entries at `at`, and its byte at j; everything else is kept |
| MatchFinding.MatchFinder.Turn | src/matchfinder.c:434-447 | one turn extends the filled slots by one position and changes nothing past the last slot |
| MatchFinding.MatchFinder.FindAllMatches | src/matchfinder.c:424-449 | match, match_depth and match1 hold exactly the padded slots of the outputs along the trail; the tables end at the trail's end; everything past the slots is kept |
| MatchFinding.MatchFinder.FindFrom | src/matchfinder.c:473-474 | the find over [prev, prev + size) leaves the outputs of the calls from prev on, along the rest of the trail, in the arrays |
| MatchFinding.MatchFinder.ScanWindow | src/matchfinder.c:472-475 | the skip over [0, prev) and the find over [prev, prev + size) follow the one trail of calls over the window, and leave the outputs of the calls from prev on in the arrays |
| MatchFinding.MatchFinder.FindAllBlockMatches | src/matchfinder.c:464-476 | returns -1 with tables and outputs untouched when sorting fails; otherwise returns 0, the trail starts from the Built tables with the entries past the window kept, and the arrays hold the scanned outputs |
| MatchFinding.MatchFinder.Destroy | src/matchfinder.c:484-516 | every buffer is released, and a second destroy is harmless |
| MatchFinding.MatchFinder.AllocateTables | src/matchfinder.c:542-547 | intervals and pos_data get one entry per window position and the open stack 2^15 entries, each exactly when its allocation and all before it succeed |
| MatchFinding.MatchFinder.AllocateOutputs | src/matchfinder.c:549-556 | match and match_depth get nBlockSize * nMatchedPerIndex entries and match1 nBlockSize, each exactly when its allocation and all before it succeed |
| MatchFinding.MatchFinder.Init | src/matchfinder.c:528-565 | returns 0 with all six buffers sized as the source sizes them exactly when the sorter's init and all six allocations succeed; otherwise returns -1 holding nothing |

## Left out

- Suffix sorting (`divsufsort_build_array`, its context, `divsufsort_init` and
  `divsufsort_destroy`) is not part of this model. The sorter's result is a
  parameter: `None` for failure, or a sequence proved to be the window's suffix
  array. `divsufsort_init`'s outcome is the `sortReady` parameter of `Init`.
- `malloc` is a parameter: each allocation's success is one entry of `grants`.
  `free` is modelled as dropping the reference.
- The source reuses its buffers: the suffix array is read as `saidx_t` from
  the first half of `intervals`, and Φ/PLCP are kept as `int` inside
  `pos_data`. The model uses a fresh array for Φ/PLCP and copies the suffix
  array into `intervals`. This aliasing is not modelled.
- MatchFinding.Ascents: the model proves that the climb of every call
  finishes (`CallClimbs`, under the invariant `Hierarchy` that every call
  keeps). It does not prove that the chase and the ascent after it finish.
  Each enumeration function takes a fuel bound, and `FindAllBlockMatches`
  requires `Ascents`: along every run of calls from built tables, the ascent
  of each call finishes. That part of termination is a premise, not a result.
- EnumerationFacts.FindAtBounded: it states the capacity, max-offset and
  depth-word bounds of one call's output, and `0 <= match1 < 256`. It does not
  state that each (length, offset) names bytes that really repeat in the
  window. That would need an invariant on the lazily relinked tree across the
  whole sequence of calls.
- `apultra_match.length`/`offset` (unsigned int), `match_depth` (unsigned
  short) and `match1` (unsigned char) are unbounded integers. The depth words
  are proved to fit 16 bits. The single narrowing cast, the store into
  `match1`, is written out as `% 256`.
- `nBlockFlags` is a natural number. Negative flags are not modelled, since
  only `(nBlockFlags & 3) == 3` is read.
- The window must hold at least one byte and fewer than 2^31 bytes
  (`BuildSuffixArray`, `FindAllBlockMatches`). An empty window is not modelled.
- The filter thresholds of the enumeration (128, 1280, 16, the length tests)
  are reproduced as written. Nothing is proved about why they were chosen.
- MatchFinding.MatchFinder.FindAllBlockMatches: the output arrays are fixed
  by the window and the old tail entries of the tables. That follows from
  `BuiltUnique` with the stated tail frames, and from `TrailUnique`. No single
  lemma states it for the output arrays.
- `Through` has no postcondition of its own. Its meaning is stated by
  `TrailThrough` and `ThroughSplit`.
