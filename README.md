# IPv4 ranges, CIDR blocks, interval maps and address sets

A Dafny model of the core of the Go package `ipv4`. The package represents an
IPv4 address as a `uint32` and offers three things:

- **CIDR conversions** (`cidr.go`). `CIDR2Range` turns a CIDR network into
  its first and last address. `Interval2CIDRs` cuts an inclusive address
  range into the greedy sequence of the largest aligned blocks.
  `Range2CIDRs` wraps that with parsing and the `a1 > a2` guard.
- **An interval map** (`map.go`). It holds closed intervals of addresses,
  each carrying a value, kept sorted and disjoint. `add` appends an
  interval, sorts the slice, runs one coalescing pass and returns `Valid`'s
  verdict on the result. `Contains` does a lower-bound search.
- **An address set** (`set.go`). It is a slice of addresses meant to stay
  strictly ascending. `Add` splices an address in at its lower bound,
  `Contains` bisects, `Valid` checks strict order, and `AddAll` appends
  several addresses and then sorts and deduplicates them.

The project has these modules:

- `Bits` (`bits.dfy`) models Go's `uint32` arithmetic on unbounded integers.
  `+`, `-` and `<<` wrap explicitly modulo 2^32, and `&`, `|`, `^x` are
  defined bit by bit. Lemmas tie the masks the package uses to ordinary
  arithmetic.
- `Sorting` (`sorting.dfy`) holds `sort.Search` as a verified bisection.
  It also holds `SortBy`, which stands for `sort.Sort`. Callers rely only on
  its contract: the result is ordered by the key and is a permutation of the
  input.
- `Cidr` (`cidr.dfy`) covers the three functions of cidr.go. Blocks are
  returned as values, not emitted through a callback.
- `IntervalMaps` (`interval_map.dfy`) holds the rules of `add` as functions
  (`Step`, `Merged`, `FirstDefect`, `Inserted`). The class `IntervalMap` has
  one field, the slice of intervals. Its methods replace that slice as the
  Go methods do, and each method is proved against those functions.
- `IntervalMapProofs` (`interval_map_proofs.dfy`) proves what `add`
  guarantees on a map that `Valid` accepts. `AddKeepsOrder` is the main
  theorem. A map is canonical when it is well ordered and no two neighbours
  could be joined by the continuation rule. `Valid` accepts some maps that
  are not canonical, for example [0,5]→1 next to [6,10]→1. The empty map
  is canonical, and `AddKeepsCanonical` proves that `add` keeps a map
  canonical, so every map built by `add` is canonical. On canonical maps,
  the other lemmas cover an insertion into a gap, an insertion of a
  contained interval, an insertion that overlaps the end of a stored
  interval, one that cuts a stored interval short, and re-adding a stored
  interval.
- `IntervalMapScenarios` (`interval_map_scenarios.dfy`) relates the
  intervals `Add` derives from networks to CIDR blocks. It replays the
  CIDR test and TestOverlaps2 of map_test.go. `TailDropped` shows, on a
  separate two-interval example, a stored address that map.go:106 loses.
- `AddressSets` (`address_set.dfy`) holds the class `AddressSet`, whose one
  field is the slice, together with the functions `Dedup` and `Compacted`
  that specify `sort`.
- `AddressSetScenarios` (`address_set_scenarios.dfy`) replays the two tests
  of set_test.go.

Addresses arrive already parsed:

- A dotted address is an `Option<u32>`, with `None` where `FromDots` fails.
- A CIDR network is a `CidrParse` or `ParsedNet` built from what
  `net.ParseCIDR` returns.
- A value stored in the map has a type `V` with equality, which models
  Go's `==` on `interface{}`.

### Behaviour the model follows as written

- **Overlap branch of `add` (map.go:106).** The branch sets the end of the
  interval it extends to `right`, the end of the interval being added, not
  to `val.Right`. Two things follow. A stored interval that the new one
  overlaps from inside keeps its own value, and its end moves to the new
  interval's end (`InsertOverlapping`; TestOverlaps2 hits this case in
  `Overlaps2`). A stored interval that starts inside the new one and ends
  past it loses its tail. `AddKeepsOrder` proves that every other stored
  address is kept. `InsertCutsTail` proves that the tail is lost when the
  new interval starts in a gap, and `TailDropped` shows one lost address.
  When the two intervals start at the same address, whether the tail is
  kept depends on the order that `sort.Sort` gives them.
- **Truncation in `sort` (set.go:125).** The statement `in = in[:j+1]`
  assigns a local variable, so the stored slice keeps its length.
  `Compacted` describes what the slice holds. `SortResultValid` says the
  result is a valid set exactly when the sorted slice had no repeats.
  `RepeatLeft` shows a slice that is left invalid.
- **Two span limits.** `add` rejects an interval spanning `1 << 24`
  addresses or more (map.go:76). `Valid` rejects only a span larger than
  `255 << 24` (map.go:133). Merging can produce spans between the two, and
  `AddKeepsOrder` accounts for that.
- **A failed `add` is still stored (map.go:121-122).** `add` assigns the
  merged slice to the map before it calls `Valid`, so an error does not
  undo the insertion. `FailedAddStays` shows this: on [0, 0xFEFFFFFF]→v,
  which `Valid` accepts, adding [0xFF000000, 0xFF000001]→v merges the two
  into one interval that is too large. `add` returns `TooLarge`, and the
  merged interval stays in the map.
- **Adding 10.0.0.4 with value 7 in the CIDR test (map_test.go:78-81).**
  The new interval continues 10.0.0.3, which has the same value, so the
  last interval is extended to [10.0.0.3, 10.0.0.4]. The length stays 4, and
  the test expects 7 for both addresses (map_test.go:97-98). The model
  follows the code: `FinalExtends` and `FinalLookupsHigh`.
- **The interval `Add` builds from a network (map.go:168).** It is computed
  from the address as written, not from the network address, in wrapping
  `uint32` arithmetic. `NetworkRangeIsBlock` shows that for a network
  address this equals the CIDR block that `CIDR2Range` computes.
  `WideNetworksRejected` shows that prefixes shorter than 8 or longer than
  32 give intervals that `add` rejects.

## Model

| member | source | states |
|---|---|---|
| Bits.Add32 | map.go:112 | Go's uint32 `+`: the sum when it fits, otherwise the sum minus 2^32 |
| Bits.Sub32 | map.go:76 | Go's uint32 `-`: the difference when it is not negative, otherwise the difference plus 2^32 |
| Bits.Shl32 | map.go:168 | Go's uint32 `<<`: x · 2^n when that is below 2^32, and 0 once n reaches 32 |
| Bits.Not32 | cidr.go:21-24 | Go's uint32 `^x`: 2^32 - 1 - x, every bit flipped (`ComplementValue` proves it bit by bit) |
| Bits.Or32 | cidr.go:21-24 | Go's uint32 bitwise or: the result is at least each operand; `OrLowMask` gives its value against a low mask |
| Bits.And32 | cidr.go:63 | Go's uint32 bitwise and: the result is at most its first operand; `AndHighMask` gives its value against a high mask |
| Bits.ShiftConstants | map.go:76 | the word `uint32(1) << 24` is 2^24 and `uint32(255) << 24` is 0xFF000000 (map.go:133) |
| Bits.LowMaskValue | cidr.go:62 | for shifts up to 32, `(uint32(1) << l) - 1` is 2^l - 1, with the wrap at l = 32 |
| Bits.AndHighMask | cidr.go:63 | clearing the low l bits with the mask 2^w - 2^l subtracts the low l bits |
| Bits.OrLowMask | cidr.go:21-24 | x or (2^l - 1), bitwise, is the last address of the 2^l-block holding x |
| Sorting.Search | set.go:39 | sort.Search: the index is in [0, n]; f holds there and fails just before; for a monotone f it is the first index where f holds |
| Sorting.SortBy | map.go:86 | sort.Sort by a key: the result is sorted by the key and is a permutation of the input |
| Cidr.PrefixMask | cidr.go:21-24 | the mask `ipnet.Mask` holds for a /p network: bit i is set exactly when i >= 32 - p, and its complement `^mask` is 2^(32-p) - 1 |
| Cidr.Cidr2Range | cidr.go:11-27 | a parse error is returned unchanged; a network with no IPv4 form gives ErrBadIP; otherwise the range starts at the network address and does not end before it |
| Cidr.Cidr2RangeOfPrefix | cidr.go:12-26 | for any address and any prefix p, the network ParseCIDR derives is aligned and holds the address, and CIDR2Range of it is exactly the 2^(32-p) addresses from it |
| Cidr.BlockRoundTrip | cidr.go:16-26 | an aligned block converted back with CIDR2Range gives exactly its first and last address |
| Cidr.InnerTest | cidr.go:62-65 | the Go break test, with uint32 wrap-around, holds exactly when the 2^l-block at a1 is aligned and ends at or before a2 |
| Cidr.LargestBlock | cidr.go:61-68 | the inner loop stops at the largest aligned block starting at a1 within a2, and returns its last address |
| Cidr.FoundBlock | cidr.go:65-67 | the first l, counting down, whose block fits gives the greatest block and its last address |
| Cidr.Interval2CIDRs | cidr.go:52-76 | nothing for a1 > a2; a single /32 for a1 == a2; otherwise consecutive blocks tiling [a1, a2], each the greatest aligned block at its start |
| Cidr.AppendBlock | cidr.go:69-74 | a block emitted right after the last one extends the tiling to the block's end |
| Cidr.TilesCoverExactly | cidr.go:59-75 | the emitted blocks cover exactly the addresses a1..a2, no more and no fewer |
| Cidr.TilesAscending | cidr.go:59-75 | the emitted blocks are pairwise disjoint and in ascending order |
| Cidr.GreatestUnique | cidr.go:61-68 | at a given start there is only one greatest block |
| Cidr.GreedyUnique | cidr.go:52-76 | any two tilings of a range by greatest blocks are equal, so the output is determined by the range |
| Cidr.WholeSpaceIsOneBlock | cidr_test.go:48 | the range 0.0.0.0 to 255.255.255.255 decomposes into the single block 0.0.0.0/0 |
| Cidr.GreatestBlocksRoundTrip | cidr.go:11-27 | every emitted block, converted back with CIDR2Range, yields exactly its own range |
| Cidr.Range2CIDRs | cidr.go:31-47 | nil exactly when an address fails to parse or a1 > a2; otherwise a tiling of [a1, a2] by greatest blocks |
| IntervalMaps.Step | map.go:99-119 | one iteration of the coalescing loop grows `newset` by at most one interval |
| IntervalMaps.Merged | map.go:95-119 | after the loop has seen n sorted intervals, `newset` holds between 1 and n intervals |
| IntervalMaps.FirstDefectFrom | map.go:128-145 | no error exactly when no position from pos on is defective; otherwise the error of the first defective position |
| IntervalMaps.Lookup | map.go:194-234 | the value stored for x: none exactly when no interval holds x, and otherwise the value of an interval holding x |
| IntervalMaps.TargetRange | map.go:150-169 | an address that fails to parse gives the parse error, and one that parses gives the one-address interval; a network that fails to parse gives ParseCIDR's error; a parsed network gives the interval from its address as written (0 without an IPv4 form) to 2^(32-ones) - 1 past it, wrapped to 32 bits, with 0 in place of 2^(32-ones) when ones > 32 |
| IntervalMaps.IntervalMap.constructor | map.go:49-53 | a new map holds no intervals |
| IntervalMaps.IntervalMap.Len | map.go:188-190 | the number of intervals stored |
| IntervalMaps.IntervalMap.AddInterval | map.go:71-123 | an inverted or too wide interval is rejected and changes nothing; the first interval is stored as it is; otherwise the new slice is the coalescing pass over a sorted arrangement of the old slice plus the interval, and the error is Valid's verdict on it |
| IntervalMaps.IntervalMap.CoalesceSorted | map.go:95-121 | the loop computes the coalescing pass Merged over the whole sorted slice |
| IntervalMaps.IntervalMap.Valid | map.go:126-147 | the error of the first defective position, or none |
| IntervalMaps.IntervalMap.Add | map.go:150-172 | a failed parse returns its error and changes nothing; otherwise add of the interval TargetRange derives |
| IntervalMaps.IntervalMap.AddRange | map.go:175-185 | either address failing to parse gives an error and changes nothing; otherwise add of the interval between them |
| IntervalMaps.IntervalMap.Contains | map.go:194-234 | none for a bad address or an empty map; a value only from an interval holding the address; on a well-ordered map exactly Lookup |
| IntervalMaps.LookupNear | map.go:208-233 | on a well-ordered map the value for x is found at the first interval starting at or after x, or at the one before it |
| IntervalMapProofs.ValidIff | map.go:126-147 | Valid accepts a slice exactly when it is sorted, disjoint and non-inverted, with every span at most 255 << 24 |
| IntervalMapProofs.SplitArrangement | map.go:81-86 | sorting a well-ordered map with one interval appended yields the map with that interval inserted at some position |
| IntervalMapProofs.StepOrdered | map.go:99-119 | one iteration keeps `newset` well ordered and free of mergeable neighbours |
| IntervalMapProofs.StepGrows | map.go:99-119 | one iteration loses no covered address, and covers the next interval, only up to `right` in the overlap branch |
| IntervalMapProofs.StepSound | map.go:99-119 | one iteration covers nothing beyond `newset`, the next interval and, in the overlap branch, the stretch up to `right` |
| IntervalMapProofs.PassOutcome | map.go:95-121 | the pass over the sorted slice is well ordered with no mergeable neighbours, covers nothing new, and keeps the new interval and the stored addresses add keeps |
| IntervalMapProofs.AddKeepsOrder | map.go:71-123 | on a map Valid accepts: the result of add is well ordered whatever the order sort.Sort gives equal left ends; an accepted interval is covered in full with no mergeable neighbours; nothing new is covered; a stored address is lost only if its interval starts inside the new one and the address lies past the new one's end; no error exactly when the interval was accepted and every span stays within Valid's limit |
| IntervalMapProofs.ValidReports | map.go:122 | on a well-ordered result Valid can only report a span that is too large |
| IntervalMapProofs.CanonicalMeans | map.go:110-116 | a canonical slice is exactly a well-ordered one with no two neighbours that the continuation rule could join |
| IntervalMapProofs.SortedUnique | map.go:86 | two slices sorted by left end with the same elements are equal when the left ends strictly increase |
| IntervalMapProofs.RunAppends | map.go:117-118 | past the last merge, the pass copies the remaining canonical intervals unchanged |
| IntervalMapProofs.ArrangedAt | map.go:86 | an interval whose left end lies strictly between two stored ones can only be sorted to the position between them |
| IntervalMapProofs.InsertBetween | map.go:95-121 | an interval falling in a gap of a canonical map is placed there and fused with each neighbour it continues with the same value; the error is Valid's verdict |
| IntervalMapProofs.AddKeepsCanonical | map.go:71-123 | add, accepted or not, keeps a canonical map canonical, so every map built by add from the empty map is canonical |
| IntervalMapProofs.InsertContained | map.go:100-104 | on a canonical map, an interval a stored one already holds leaves the map unchanged, whatever its value, when the stored one starts earlier or is sorted first |
| IntervalMapProofs.InsertOverlapping | map.go:105-108 | on a canonical map, an interval starting inside a stored one and ending past it, short of the next, extends the stored one to its end; the stored value is kept and the new value is dropped |
| IntervalMapProofs.InsertCutsTail | map.go:105-108 | on a canonical map, an interval starting in a gap and ending inside the next stored one replaces that stored one; the stored addresses past its end are no longer covered |
| IntervalMapProofs.AddSameTwice | map.go:100-104 | on a canonical map, adding a stored interval again changes nothing, so the length and every lookup stay the same |
| IntervalMapProofs.DuplicatePlace | map.go:86 | sort.Sort puts a copy of a stored interval next to it, and both placements give the same slice |
| IntervalMapScenarios.NetworkRangeIsBlock | map.go:161-169 | for a network address, the interval Add stores is exactly the CIDR block, the same range CIDR2Range gives |
| IntervalMapScenarios.WideNetworksRejected | map.go:166-171 | a prefix shorter than 8 or longer than 32 yields an interval add rejects as inverted or too wide |
| IntervalMapScenarios.TailDropped | map.go:105-108 | adding [5, 25] over the stored [20, 30] leaves [5, 25]; address 30 was covered before and is not after |
| IntervalMapScenarios.Overlaps2Targets | map_test.go:153-157 | 64.39.96.0/20 and 64.39.106.0/20 give 2^12-address intervals from their addresses as written, and 64.39.106.208 a single address |
| IntervalMapScenarios.Overlaps2 | map_test.go:150-168 | the three adds of TestOverlaps2 succeed and leave a valid map; the second extends the first to 64.39.121.255 with value 0, and the third changes nothing |
| IntervalMapScenarios.AppendedAtEnd | map.go:117-118 | an interval past the last one that does not continue it is appended unchanged |
| IntervalMapScenarios.FailedAddStays | map.go:121-122 | the map [0, 0xFEFFFFFF]→v, which Valid accepts, plus [0xFF000000, 0xFF000001]→v becomes [0, 0xFF000001]→v and add reports TooLarge: the merged slice stays stored |
| IntervalMapScenarios.ExtendsLast | map.go:110-115 | an interval continuing the last one with the same value extends that interval to its end |
| IntervalMapScenarios.TableTargets | map_test.go:57-60 | the intervals Add derives from 192.128.1.0/7, 1.0.0.0/8, 10.0.0.0/32 and 10.0.0.1/32 |
| IntervalMapScenarios.TablePrefix | map_test.go:70-73 | the map after each accepted entry of the table is canonical and accepted by Valid |
| IntervalMapScenarios.TableStep | map_test.go:63-74 | each accepted entry of the table is added after the previous ones without error |
| IntervalMapScenarios.FinalExtends | map_test.go:78-81 | adding 10.0.0.4 with value 7 extends [10.0.0.3] to [10.0.0.3, 10.0.0.4], without error, and the length stays 4 |
| IntervalMapScenarios.FinalLookupsLow | map_test.go:88-93 | the final map is well ordered and gives the expected value for each address up to 9.255.255.255 |
| IntervalMapScenarios.FinalLookupsHigh | map_test.go:94-99 | the final map gives 5, 6, none, 7, 7, none for 10.0.0.0 to 10.0.0.4 and 255.255.255.255 |
| IntervalMapScenarios.ExtendTable | map_test.go:78-81 | on the class: Add of 10.0.0.4 with value 7 to the table's map gives the final map, without error, with length 4 |
| AddressSets.Dedup | set.go:114-124 | removing repeated neighbours never lengthens the slice and keeps its last address |
| AddressSets.Compacted | set.go:108-126 | the slice sort leaves has the length of the slice it sorted |
| AddressSets.Parsed | set.go:74-78 | holds exactly the addresses of the list that parse |
| AddressSets.AddressSet.constructor | set.go:14-16 | a new set is empty |
| AddressSets.AddressSet.Len | set.go:19-21 | the number of addresses in the slice |
| AddressSets.AddressSet.Contains | set.go:34-41 | true only for a parsed address that is stored; on an ascending slice, true exactly when it is stored |
| AddressSets.AddressSet.Add | set.go:44-69 | a failed parse adds nothing; a refusal happens only for a stored address and changes nothing; an address that is added is spliced in between its smaller and larger neighbours; on an ascending slice it is added exactly when absent; a valid set stays valid |
| AddressSets.AddressSet.Valid | set.go:85-97 | true exactly when the slice is strictly ascending |
| AddressSets.AddressSet.Sort | set.go:108-126 | the slice becomes Compacted of an ascending permutation of itself |
| AddressSets.AddressSet.Compact | set.go:114-124 | the in-place dedup loop leaves the distinct values in front and the rest of the sorted slice in place |
| AddressSets.AddressSet.AddAll | set.go:72-82 | returns true; the slice becomes Compacted of an ascending permutation of the old addresses plus those of the list that parse |
| AddressSets.AddressSet.AppendParsed | set.go:73-78 | the slice with every parsed address of the list appended in order |
| AddressSets.AtLeastMonotone | set.go:39 | on an ascending slice the search predicate `m[i] >= x` is monotone, so sort.Search finds the lower bound |
| AddressSets.AbsentAt | set.go:50-58 | an address strictly between the neighbours of its lower bound is not in an ascending slice |
| AddressSets.InsertKeepsStrict | set.go:60-67 | splicing an address between a smaller and a larger neighbour keeps a valid set valid |
| AddressSets.DedupStrict | set.go:114-124 | deduplicating an ascending slice gives a strictly ascending one |
| AddressSets.DedupElements | set.go:114-124 | deduplicating keeps exactly the addresses of the slice |
| AddressSets.DedupOfStrict | set.go:114-124 | a strictly ascending slice is its own deduplication |
| AddressSets.DedupShorter | set.go:114-124 | an ascending slice with a repeat loses at least one position |
| AddressSets.SortResultValid | set.go:125 | after sort the set is valid exactly when the sorted slice had no repeats, and is then the sorted slice itself |
| AddressSets.CompactedElements | set.go:108-126 | sort keeps exactly the addresses the slice held |
| AddressSets.AddAllHolds | set.go:72-82 | after AddAll the set holds exactly the old addresses and those of the list that parse |
| AddressSets.AscendingUnique | set.go:110 | two ascending slices with the same addresses, counted with repeats, are equal, so the slice sort.Sort leaves is determined |
| AddressSets.RepeatLeft | set.go:125 | sorting 2, 1, 1 leaves the slice 1, 2, 2, which Valid rejects |
| AddressSetScenarios.StrictIsAscending | set.go:85-97 | a valid set is ascending, which makes Contains and Add exact |
| AddressSetScenarios.AddTwice | set_test.go:6-33 | an empty set is valid with length 0 and lacks 12.12.12.12; it is added once, refused the second time, and then found |
| AddressSetScenarios.AddSmaller | set_test.go:35-49 | 1.1.1.1 goes in front, the length becomes 2, the set stays valid and both addresses are found |
| AddressSetScenarios.AddBetween | set_test.go:50-67 | 6.6.6.6 goes between the two, the length becomes 3, the set stays valid and all three are found |
| AddressSetScenarios.AddJunk | set_test.go:69-74 | an address that does not parse is neither added nor found, and the set is unchanged |
| AddressSetScenarios.AppendThenSort | set_test.go:76-85 | appending 0 makes the set invalid, and sort makes it valid again with 0 first |
| AddressSetScenarios.SortedWithZero | set_test.go:82 | the only ascending arrangement of the four addresses puts 0 first |
| AddressSetScenarios.AddAllTwo | set_test.go:88-98 | AddAll of 127.0.0.1 and 10.0.0.1 on an empty set gives a valid set holding 10.0.0.1 and then 127.0.0.1 |

## Left out

- Parsing is not modelled: `FromDots`, `net.ParseCIDR`, `FromNetIP`, `Mask.Size` and the `'/'` test of `Add` (map.go:154). Their results are inputs. int.go is not part of this model.
- Rendering is not modelled: `ToDots`, `String`, `Go`, `Set.ToDots`, and the `a.b.c.d/p` text of `Range2CIDRs`. Blocks are returned as values, and errors are datatype values, not formatted messages.
- networks.go is not part of this model.
- The callback `out` of `Interval2CIDRs` is modelled as the returned sequence of its calls.
- Sorting.SortBy: `sort.Sort`'s own algorithm is not modelled, only its contract. The order it gives intervals with equal left ends is unspecified, so it appears as the ghost out-parameter `arranged`.
- The `Swap` and `Less` plumbing of `Set` and `IntervalList` is not modelled. Only the keys `Less` compares are (`AddressSets.Value`, `IntervalMaps.LeftOf`).
- IntervalMaps.IntervalMap.constructor: requires a capacity of at least 0, because Go's `make` panics on a negative capacity. The panic is not modelled. A capacity of 0 or more only decides Go's allocation.
- AddressSets.AddressSet.constructor: requires a capacity of at least 0, for the same reason.
- Go's `==` on `interface{}` values panics when the dynamic type is not comparable. The map's values are a type with equality, so that panic is not modelled.
- Aliasing of Go slices is not modelled: `append` on a shared backing array, and `*m = orig` in `Set.Add`. Each set and map owns its slice as a `seq`.
- AddressSets.AddressSet.Sort: `sort` on an empty slice of capacity 0 panics in Go (`in[:1]` at set.go:125). The model leaves the set empty instead.
- AddressSets.AddressSet.Contains: on a slice that is not ascending, the contract says only that a found address is stored, not which one the bisection reaches.
- IntervalMaps.IntervalMap.Contains: on a slice that is not well ordered, the contract says only that a returned value comes from an interval holding the address.
- IntervalMapProofs.InsertContained: one case is not stated. The contained interval may have the same left end as the stored one and be sorted first. The new interval then keeps its own value, and the stored one is dropped or cut at the new interval's end.
- The lookups of the CIDR test are proved on `Lookup` over the final map. `Contains` equals `Lookup` on every well-ordered map, so they are not replayed through the class.
- The three entries of the CIDR test's table that fail to parse are not replayed one by one. They are covered by the failure clause of `IntervalMap.Add`.
