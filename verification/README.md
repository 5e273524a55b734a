# Battle.net API client core, modelled in Dafny

This project models four pieces of sequential logic from the Battle.net
World of Warcraft API client (`src/battle_net_api_client.rs`) and proves
properties about them:

- **Connected-realm clustering** (`process_connected_realms`). Module
  `ConnectedRealms`. Each realm's connected-realms list is collected, the
  lists are stable-sorted by their first slug, and consecutive equal lists
  are dropped. The model keeps the defect the source's own comment
  documents: realms that list the same auction house in different orders
  give separate groups (`DifferentOrderGivesTwoGroups`,
  `ReversedListsStaySeparate`).
- **Freshness gate** (`get_auction_listings`). Module `AuctionListings`.
  The last pointer of the status reply is taken. The listings are skipped
  when that pointer is not newer than the cutoff, and fetched from its URL
  otherwise.
- **Owner-field sanitiser**: the regex rewrite of `"owner":"([^"]+?)"` to
  `"owner":"_"`. Module `OwnerSanitizer`. It is a hand-written scanner with
  leftmost, non-overlapping matches, proved to agree with a declarative
  description of the pattern (`IsOwnerMatch`).
- **Retry executor** (`make_blizzard_api_call`). Module `RequestExecutor`.
  The loop runs over a finite trace of attempt outcomes: send failure,
  non-OK status, read failure, or a body. Decoding is a parameter
  `decode: string -> Option<T>`. The loop keeps the source's buffer quirk:
  the buffer is declared once per call and every read appends to it.

Supporting modules:

- `ApiTypes` holds the reply records and `Option`.
- `StringOrder` defines Rust's `Ord` on `String` as lexicographic order on
  characters. Dafny's own `<` on sequences means "proper prefix".
- `SeqFacts` holds small generic sequence lemmas.

Rust's `sort_by` is a stable sort. Any stable sort under a total preorder
returns the same sequence. So the model uses a stable insertion sort, and
`StringOrder` proves that the first-slug comparison is total and
transitive.

## Model

| member | source | states |
|---|---|---|
| StringOrder.LexLe | src/battle_net_api_client.rs:166 | The order `cmp` puts on slugs: the empty string is below every string, and a string is at most another only if its first character is not greater. |
| StringOrder.LexLeMeansPrefixOrSmaller | src/battle_net_api_client.rs:166 | The recursive order agrees with the textbook definition: `a <= b` exactly when `a` is a prefix of `b` or `a` has the smaller character where they first differ. |
| StringOrder.LexLeTotal | src/battle_net_api_client.rs:166 | Any two slugs are comparable under the order `cmp` uses. |
| StringOrder.LexLeTransitive | src/battle_net_api_client.rs:166 | The slug order is transitive, so sorting by first slug is well defined. |
| StringOrder.LexLeAntisymmetric | src/battle_net_api_client.rs:166 | Two slugs that are each at most the other are equal. |
| ConnectedRealms.ConnectedLists | src/battle_net_api_client.rs:160-162 | Position `i` of the collected lists is realm `i`'s connected-realms list, and there is one list per realm. |
| ConnectedRealms.InsertByFirstSlug | src/battle_net_api_client.rs:166 | One step of the stable sort adds exactly one list, and keeps every list non-empty when all were. Comparing needs first slugs, so every list must have one once there is anything to compare with. |
| ConnectedRealms.InsertByFirstSlugPermutes | src/battle_net_api_client.rs:166 | One insertion step adds the new list and keeps every other list, with multiplicity. |
| ConnectedRealms.InsertByFirstSlugSorted | src/battle_net_api_client.rs:166 | Inserting into lists ordered by first slug keeps them ordered. |
| ConnectedRealms.InsertByFirstSlugSelects | src/battle_net_api_client.rs:166 | Insertion is stable: the new list comes after every list already there with the same first slug. |
| ConnectedRealms.SortByFirstSlug | src/battle_net_api_client.rs:166 | The sort keeps the number of lists, and keeps them non-empty. |
| ConnectedRealms.SortByFirstSlugPermutes | src/battle_net_api_client.rs:166 | The sorted lists are a permutation of the input lists. |
| ConnectedRealms.SortByFirstSlugSorted | src/battle_net_api_client.rs:166 | The sorted lists are non-decreasing by first slug. |
| ConnectedRealms.SortByFirstSlugSelects | src/battle_net_api_client.rs:166 | The sort is stable: for every slug, the lists with that first slug keep their input order. |
| ConnectedRealms.Dedup | src/battle_net_api_client.rs:167 | Dropping repeats never lengthens the sequence, and the last list survives. |
| ConnectedRealms.RunStartsIncreasing | src/battle_net_api_client.rs:167 | The run starts are positions of the lists, in strictly increasing order. |
| ConnectedRealms.RunStartsMembers | src/battle_net_api_client.rs:167 | Position `i` is a run start exactly when `i` is 0 or the list there differs from the one before it. |
| ConnectedRealms.DedupPicksRunStarts | src/battle_net_api_client.rs:167 | The `j`-th list `dedup` keeps is the list at the `j`-th run start. |
| ConnectedRealms.DedupKeepsFirstOfEachRun | src/battle_net_api_client.rs:167 | `dedup` keeps exactly the lists at positions `i` with `i == 0` or a different list at `i - 1`, in their original order. So only consecutive repeats are dropped, and in every run of equal lists it is the first copy that stays. |
| ConnectedRealms.DedupMembers | src/battle_net_api_client.rs:167 | Dropping repeats keeps exactly the lists there were. |
| ConnectedRealms.DedupNoAdjacentRepeats | src/battle_net_api_client.rs:167 | After dropping repeats, no list equals its successor. |
| ConnectedRealms.DedupWithoutRepeats | src/battle_net_api_client.rs:167 | Lists with no equal neighbours are left unchanged. |
| ConnectedRealms.DedupKeepsOrder | src/battle_net_api_client.rs:167 | Dropping repeats keeps the order by first slug. |
| ConnectedRealms.DedupSelectsBySlug | src/battle_net_api_client.rs:166-167 | On sorted lists, dropping repeats commutes with selecting the lists of one first slug. |
| ConnectedRealms.SelectionsDetermineSorted | src/battle_net_api_client.rs:166-167 | Two sequences sorted by first slug that select the same lists for every slug are equal. |
| ConnectedRealms.ProcessConnectedRealms | src/battle_net_api_client.rs:159-169 | There are never more groups than realms, and at least one group when there is a realm. An empty list panics the comparison once two realms are compared, so this is a precondition. |
| ConnectedRealms.ProcessConnectedRealmsOrdered | src/battle_net_api_client.rs:164-168 | The groups are non-decreasing by first slug, and no group equals the next one. |
| ConnectedRealms.ProcessConnectedRealmsMembers | src/battle_net_api_client.rs:160-168 | Every realm's list is a group, and every group is some realm's list. |
| ConnectedRealms.ProcessConnectedRealmsSelects | src/battle_net_api_client.rs:160-168 | For each first slug, the groups with that slug are the realms' lists with it, in realm order, less consecutive repeats. |
| ConnectedRealms.GroupsAreDeterminedBySlugSelections | src/battle_net_api_client.rs:159-169 | The result is the only sequence that is sorted by first slug and has these per-slug selections. Together with the sort lemmas and `DedupKeepsFirstOfEachRun`, which says which copies survive, this fixes the result exactly. |
| ConnectedRealms.GroupsDistinctWhenOrderAgrees | src/battle_net_api_client.rs:164-167 | Under the comment's assumption (lists sharing a first slug are identical), no group occurs twice. |
| ConnectedRealms.DifferentOrderGivesTwoGroups | src/battle_net_api_client.rs:164-167 | Two realms whose lists differ, even only in order, always give two groups. |
| ConnectedRealms.SameOrderGivesOneGroup | src/battle_net_api_client.rs:164-167 | Two realms with the same non-empty list give that list as the single group. |
| ConnectedRealms.ReversedListsStaySeparate | src/battle_net_api_client.rs:164-167 | Realms listing `[a, b]` and `[b, a]` give two groups. |
| ConnectedRealms.MatchingListsMerge | src/battle_net_api_client.rs:164-167 | Realms both listing `[a, b]` give the one group `[a, b]`. |
| ConnectedRealms.InterleavedListsStaySeparate | src/battle_net_api_client.rs:164-167 | Realms listing `[a, b, c]`, `[a, c, b]` and `[a, b, c]` give exactly those three groups in that order: the two equal lists are not adjacent, so both stay. |
| AuctionListings.AuctionDataUrl | src/battle_net_api_client.rs:145 | The status URL starts with the auction data base, holds the realm's slug right after it, and ends with the API key. |
| AuctionListings.AuctionDataUrlDistinguishesRealms | src/battle_net_api_client.rs:145 | With one API key, two different realms get two different status URLs. |
| AuctionListings.IsNewer | src/battle_net_api_client.rs:149 | A snapshot modified at the cutoff itself is not newer, nothing is newer than the largest `u64` cutoff, and a newer snapshot has a positive time. |
| AuctionListings.SelectPointer | src/battle_net_api_client.rs:148 | The selected pointer is one of the reply's files, and the only one when there is one. |
| AuctionListings.GetAuctionListings | src/battle_net_api_client.rs:142-155 | Nothing is returned exactly when the last pointer's time is at or before the cutoff; then only the status URL is fetched. Otherwise the call fetches the status URL, then exactly that pointer's URL, and returns its time and the fetched auctions. |
| AuctionListings.SkipPersistsAsCutoffRises | src/battle_net_api_client.rs:149-151 | A snapshot skipped at one cutoff is skipped at every later cutoff, with no listings fetch. |
| AuctionListings.UnchangedSnapshotIsSkipped | src/battle_net_api_client.rs:149-151 | A pointer modified exactly at the cutoff yields nothing and fetches only the status. |
| AuctionListings.NewerSnapshotIsFetched | src/battle_net_api_client.rs:152-154 | A pointer modified after the cutoff yields its time and its listings. |
| OwnerSanitizer.MatchAt | src/battle_net_api_client.rs:122 | A match found at the head of the text is at least as long as the key, one value character and the closing quote, and fits in the text. |
| OwnerSanitizer.MatchAtSound | src/battle_net_api_client.rs:122 | The scanner reports a match at the head of the text exactly when some prefix matches the pattern, and the reported prefix is one. |
| OwnerSanitizer.MatchEndUnique | src/battle_net_api_client.rs:122 | At a given start at most one match exists, because the value cannot hold a quote. So the lazy `+?` picks the only end. |
| OwnerSanitizer.NoMatchStartsBeforeMeans | src/battle_net_api_client.rs:122-123 | The scanner finds no match before position `k` if and only if no substring starting before `k` matches the pattern. |
| OwnerSanitizer.Sanitize | src/battle_net_api_client.rs:123 | The rewritten text is never longer than the input, since no match is shorter than its replacement. |
| OwnerSanitizer.SanitizeCopiesPrefix | src/battle_net_api_client.rs:123 | Text before the first position where a match starts is copied unchanged, and scanning resumes there. |
| OwnerSanitizer.SanitizeCopiesUntilMatch | src/battle_net_api_client.rs:123 | A prefix in which no match starts is copied unchanged. |
| OwnerSanitizer.SanitizeWithoutMatch | src/battle_net_api_client.rs:123 | Text holding no match is returned unchanged. |
| OwnerSanitizer.SanitizeLeftmostMatch | src/battle_net_api_client.rs:122-123 | The leftmost match is replaced by `"owner":"_"`, and the text after it is rewritten on its own, so matches do not overlap. |
| OwnerSanitizer.SanitizeKeepsLeadingNonQuote | src/battle_net_api_client.rs:122-123 | Every match begins with a quote, so text that does not start with one keeps its first character at the front. |
| OwnerSanitizer.SanitizeKeepsEmptyOwner | src/battle_net_api_client.rs:122-123 | An empty owner value `"owner":""` is not a match and is copied through. |
| RequestExecutor.Appended | src/battle_net_api_client.rs:92-111 | A send failure or a non-OK status adds nothing to the buffer, and a complete read adds the whole body. |
| RequestExecutor.BufferAfterAttempt | src/battle_net_api_client.rs:84-111 | A send failure or a non-OK status leaves the buffer as it was. An OK status appends the whole body read, or on a read error the part that was kept. |
| RequestExecutor.RunAttempt | src/battle_net_api_client.rs:88-129 | One pass of the loop passes the throttle and then sends to the URL, whatever the outcome. It appends the attempt's text to the buffer. It yields a value exactly when the status is OK, the read completed and the sanitised buffer decodes, and that value is the decoding. Every other outcome goes round again. |
| RequestExecutor.RetryCall | src/battle_net_api_client.rs:83-131 | The loop returns the decoding of the sanitised buffer at the first attempt that succeeds, and no earlier attempt succeeds. The counter is that attempt's number. It returns something exactly when some attempt in the trace succeeds. Each attempt passes the throttle once, then sends once. |
| RequestExecutor.MakeApiCall | src/battle_net_api_client.rs:83-131 | Every clause of `RetryCall`, with the owner sanitiser as the repair applied before decoding. This includes the exhausted trace: every attempt was made, and none succeeded. |
| RequestExecutor.BufferNeverCleared | src/battle_net_api_client.rs:84-105 | The buffer after any attempt is a prefix of the buffer after every later attempt. |
| RequestExecutor.BufferIsAllTextsRead | src/battle_net_api_client.rs:84-124 | The text sanitised and decoded on attempt `k` is everything read in attempts 1 to `k`, joined in order. |
| RequestExecutor.AccumulatedBufferBlocksRecovery | src/battle_net_api_client.rs:84-124 | With a bad body `x` and then a good body `{}`, no attempt of the loop as written succeeds. A fresh buffer would let the second attempt return. |
| RequestExecutor.LeadingBadBodyBlocksEveryAttempt | src/battle_net_api_client.rs:84-124 | For every trace whose first attempt reads `x` with status OK, no attempt ever returns, whatever the server sends afterwards. |
| RequestExecutor.RetryCallFreshBuffer | src/battle_net_api_client.rs:83-131 | The loop with a buffer per attempt returns the decoding of the first body that decodes on its own, whatever failed before it. |
| RequestExecutor.MakeApiCallFreshBuffer | src/battle_net_api_client.rs:83-131 | Every clause of `RetryCallFreshBuffer`, with the owner sanitiser as the repair. This includes the exhausted trace: every attempt was made, and no body decoded on its own. |

## Left out

- The hyper transport (`Client::get`, `send`, `Response`) is replaced by a trace of attempt outcomes. A status is an integer compared with 200 (`hyper::Ok`).
- The `ThreadThrottler` is reduced to one `ThrottlePass` step before each request. Its rate window concerns timing and concurrency, which this model does not cover.
- JSON decoding (`json::decode` and the `Decodable` derives) is a black box: the `decode` parameter.
- `println!` logging and the `task` label argument are side effects only and are not modelled.
- The real loop retries forever. The model runs a finite trace and returns nothing when the trace runs out without a success.
- `get_realms`, `get_item_info` and token/configuration handling are plumbing around the executor and are not modelled. The status URL format of `get_auction_listings` is kept (`AuctionDataUrl`).
- Within `get_auction_listings`, the two executor calls are function parameters: an executor call that eventually returns, seen as a function from URL to decoded reply.
- The panics on `files.pop().unwrap()` and on the first-slug `unwrap` in the sort become preconditions (`GetAuctionListings`, `Comparable`).
- RequestExecutor.RetryCall: the attempt counter is an unbounded natural number. In the source, `retries` (lines 85 and 89) has no type annotation, so it is an `i32`, which would overflow after 2^31 - 1 attempts: a panic in debug builds, a wrap in release builds. The throttle admits 100 requests per second (line 74), so that needs more than eight months of uninterrupted failures. The counter only appears in log lines, which are not modelled either.
- RequestExecutor.MakeApiCall: the same unbounded attempt counter as `RetryCall`, for the same reason.
- RequestExecutor.BufferAfter: its contract lives in `BufferAfterAttempt`, `BufferNeverCleared` and `BufferIsAllTextsRead`, not on the function itself, whose every use would otherwise unfold it again.
- RequestExecutor.RetryCall: the loop is stated for any repair function. `MakeApiCall` and `MakeApiCallFreshBuffer` fix it to the owner sanitiser.
- ConnectedRealms.ProcessConnectedRealms: its own contract only bounds the number of groups. Its order, membership and per-slug contents are stated by the `ProcessConnectedRealms…` lemmas and `GroupsAreDeterminedBySlugSelections`.
- OwnerSanitizer.Sanitize: its own contract is only a length bound. What it rewrites is stated by the `Sanitize…` lemmas.

## Findings

| source | as written | input that shows it | evidently intended | confidence | as-written member | corrected member |
|---|---|---|---|---|---|---|
| src/battle_net_api_client.rs:84-124 | The buffer `s` is created once, before the loop, and `read_to_string` appends to it. So after a failed decode, every later attempt decodes the old text followed by the new body. | Two attempts with status OK: the first body is `x`, which does not decode; the second is `{}`, which does. The second attempt decodes `x{}`, which fails again. Every later buffer also starts with `x`, so no later attempt of any trace that starts this way returns either (`RequestExecutor.LeadingBadBodyBlocksEveryAttempt`). | Each attempt decodes only the body it read itself, so a good response is accepted whatever failed before it. | medium, not executed | RequestExecutor.AccumulatedBufferBlocksRecovery | RequestExecutor.MakeApiCallFreshBuffer |
