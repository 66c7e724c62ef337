# Matchy meetups pairing, modelled in Dafny

The matchy-meetups bot splits the members of a Discord role into pairs, with
one triple when the count is odd. It tries not to pair people who were already
matched in the past year. It answers two administrator commands:

- `/create_pairing <seed>` computes a proposed pairing and replies with:
  - the pairing, one match per line;
  - the member total;
  - the members who could only be placed with someone they met before (the
    "imperfect" members);
  - a key made of the seed text, an underscore and an eight-digit checksum.
- `/send_pairing <key>` recomputes the pairing from the key's seed text and
  checks the checksum. It then posts an announcement and a history record,
  messages each member the names of their partners, and reports how many
  members it messaged.

This project models the pairing engine and the text processing around it, and
proves properties of them:

- **`graph_pair`** (module `Matching`) works in these steps:
  1. Shuffle the participants.
  2. Number them by position.
  3. Turn every historical match into "may-not-pair" edges.
  4. Ask a maximum-matching solver for pairs on the complement graph.
  5. Pair the leftovers in id order.
  6. Put a single remaining participant into the match it has the fewest
     constraints against.
  7. Report the imperfect members.
- The older engines **`random_pair`** and **`pair`** shuffle and cut the list
  into pairs (modules `Matching` and `Pair`).
- **Rendering and the checksum** come from `src/helpers.rs` (module `Helpers`).
  The decimal display and parsing of user ids is in module `UserIds`.
- **Reading the history channel** (`previous_matches`) and the participant
  check of `match_members` are in module `DiscordHelpers`.
- **The two commands' logic** is in modules `CreatePairing` and `SendPairing`:
  - building the key and splitting it back;
  - the checksum gate;
  - the reply texts;
  - the partner lists;
  - the message loop and its counter.

Foreign pieces are parameters:

- **The seeded ChaCha8 shuffle** is a `Shuffler`: any function of the list and
  the seed that returns a permutation.
- **petgraph's `maximum_matching`** is a `Solver`: any function of the graph
  that returns a set of pairwise disjoint graph edges. Lemmas that also need
  the matching to be maximal say so as a hypothesis (`IsMaximalSolver`). A
  maximum matching is always maximal.
- **The two `DefaultHasher` hashes** are the functions `SeedHasher` and
  `PairingHasher`.
- **User lookups and DM channels** are `UserLookup` and `ChannelOpener`.
- **The history channel** is the list of fetch results it yields, and the
  clock is one instant `now`.

Those lemmas and methods take the functions as arguments, so every property
holds for every shuffle, solver and hash of the required kind.

Modules:

| module | what it holds |
|---|---|
| `Prelude` | the option and result types, the error kinds, `u64` |
| `Seqs` | the slice and string operations used: flatten, chunks of two, split and join, `rsplit_once`, `take`, `filter`, lexicographic order |
| `UserIds`, `Helpers` | formatting and parsing ids, `format_pairs`, the checksum |
| `Pair` | `src/pair.rs` |
| `Matching` | `src/matching.rs` |
| `MatchingLemmas`, `IdPairingLemmas`, `FlaggedLemmas`, `GraphPairLemmas` | the properties of `graph_pair`, first on node ids, then lifted to participants |
| `NodeCountFinding` | the node-count finding below |
| `DiscordHelpers` | the mention parser, the history reading, `match_members` |
| `CreatePairing` | `src/create_pairing.rs` |
| `SendPairing` | `src/send_pairing.rs` |

Some descriptions of the system differ from its code. The model follows the
code:

- **Who is flagged.** One reading is that the imperfect members are exactly
  those whose match holds someone they met before. The code does something
  else:
  - It flags every member of the leftover pairs.
  - It flags the single remainder when its constraint count is positive.
  - It never flags the two members of the match the remainder joins
    (src/matching.rs:90-103).

  `GraphPairSolverMembersUnflagged`, `GraphPairFlaggedComplete` and
  `GraphPairRemainderFlag` state what the code guarantees.
- **Ties between matches.** Ties for the remainder are not broken by discovery
  order alone. `.min()` compares `(count, match)` pairs, so among equal counts
  the lexicographically smallest match wins. Only among equal pairs does the
  first one win (src/matching.rs:183-194). `Matching.Precedes` is that order.
- **Nobody can be paired anew.** A round where every two participants met
  before does not fall back to constraint-violating pairs. The solver returns
  nothing and `graph_pair` fails with "Matching was unexpectedly empty"
  (src/matching.rs:80). `GraphPairEmptyMatching` characterises that case.

## Model

| member | source | states |
|---|---|---|
| Pair.Pair | src/pair.rs:7-22 | the chunks flattened are exactly the shuffled list, so a permutation of the input; there are `len / 2` chunks of two, and the last has three when `len` is odd |
| Matching.RandomPair | src/matching.rs:25-36 | the same chunk-by-two shape and permutation as `pair`, with an empty imperfect list |
| Matching.NewEdge | src/matching.rs:47-53 | the normalised edge has `lower <= upper` and the same two ends as the input |
| MatchingLemmas.NewEdgeCanonical | src/matching.rs:47-53 | two normalised edges are equal exactly when they join the same multiset of ids |
| MatchingLemmas.NewEdgeSymmetric | src/matching.rs:47-53 | the order of the two ids does not matter |
| Matching.MemberIds | src/matching.rs:132-137 | the ids kept from a historical match point at its members, and every member who is a participant keeps its id |
| Matching.Constraints | src/matching.rs:130-141 | every constraint edge is normalised and joins two participant positions |
| MatchingLemmas.PairEdgesIff | src/matching.rs:132-140 | with distinct participants, a historical match yields the edge {i, j} exactly when it contains both participants |
| MatchingLemmas.ConstraintsIff | src/matching.rs:130-141 | {i, j} is a constraint exactly when some historical match contains both participants; non-participants impose nothing |
| Matching.NodeIds | src/matching.rs:118-128 | the ids of the `nodes` map are positions of the list |
| MatchingLemmas.NodeIdsAll | src/matching.rs:118-128 | with distinct participants every position is an id |
| Matching.FromEdgesNodeCount | src/matching.rs:143-150 | `from_edges` creates nodes up to the largest end of any edge and no more |
| Matching.BuildMatchingGraph | src/matching.rs:114-153 | the graph as written is well formed and has at most one node per participant |
| Matching.BuildFullMatchingGraph | src/matching.rs:114-153 | the corrected graph has exactly one node per participant |
| MatchingLemmas.CandidateIff | src/matching.rs:143-150 | with distinct participants, {i, j} is a candidate edge exactly when the two never shared a match; both graphs have the same edges |
| MatchingLemmas.FullGraphIsComplement | src/matching.rs:143-150 | no candidate edge is a constraint, and with distinct participants every unconstrained pair is a candidate edge |
| Matching.MatchingIdsBelow | src/matching.rs:72-77 | the solver's matched pairs use ids of the graph and join two different nodes |
| Matching.Unmatched | src/matching.rs:160-162 | the unmatched ids are exactly the nodes the matching misses, in increasing order |
| MatchingLemmas.PairUnmatchedSpec | src/matching.rs:156-172 | the leftover pairs are consecutive pairs of the unmatched ids; with the remainder they give back the unmatched list; a remainder exists exactly when the count is odd |
| IdPairingLemmas.RemainderParity | src/matching.rs:163-170 | for any matching, exactly the graphs with an odd node count leave a remainder |
| IdPairingLemmas.CoverAll | src/matching.rs:156-162 | matched and unmatched ids together list every node once |
| Matching.PairUnmatched | src/matching.rs:156-172 | the leftover pairs have two members each and are half as many as the unmatched ids; a remainder exists exactly when that count is odd (contents in `PairUnmatchedSpec`) |
| MatchingLemmas.ConstraintCountZero | src/matching.rs:186-189 | a count is at most the match size, and zero exactly when no member has a constraint against the remainder |
| MatchingLemmas.PrecedesIrreflexive | src/matching.rs:192 | no key is smaller than itself |
| MatchingLemmas.PrecedesAsymmetric | src/matching.rs:192 | when a is smaller than b, b is not smaller than a |
| MatchingLemmas.PrecedesTransitive | src/matching.rs:192 | the key order is transitive |
| MatchingLemmas.PrecedesTotal | src/matching.rs:192 | of two different keys one is smaller, so `.min()` is well defined |
| Matching.FirstMin | src/matching.rs:192 | the chosen index is one of the keys examined |
| MatchingLemmas.FirstMinIsFirstMinimum | src/matching.rs:183-194 | no key is smaller than the chosen one, and every earlier key is strictly larger |
| Matching.FindBest | src/matching.rs:183-194 | the loop picks the first match with the smallest key and returns its constraint count |
| MatchingLemmas.AddRemainderSpec | src/matching.rs:176-204 | without a remainder the matches come back with score 0; with no match to join it fails; otherwise the remainder joins exactly one match, the first with the smallest key, the rest are unchanged, and the score is that match's count, which no other count undercuts |
| Matching.AddRemainder | src/matching.rs:176-204 | it fails exactly when there is a remainder and no match, and otherwise returns as many matches as it was given (the choice and score are in `AddRemainderSpec`) |
| Matching.AddRemainderToPairing | src/matching.rs:176-204 | the loop over the matches and the push onto the chosen one compute `AddRemainder` |
| Matching.IdPairing | src/matching.rs:74-103 | every id in the output matches and in the flagged list is a node of the graph |
| IdPairingLemmas.IdPairingErrors | src/matching.rs:79-86 | the id pairing fails exactly when the matching is empty, and then with that error |
| IdPairingLemmas.IdPairingLayout | src/matching.rs:105-109 | the output is the solver's matches, one possibly extended, followed by the leftover pairs |
| IdPairingLemmas.IdPairingPartition | src/matching.rs:74-111 | every node of the graph is in exactly one output match |
| IdPairingLemmas.IdPairingSizes | src/matching.rs:82-86 | all matches have two members except one of three exactly when the node count is odd |
| FlaggedLemmas.IdPairingSolverMembersUnflagged | src/matching.rs:90-103 | the two members of a solver match are never flagged |
| FlaggedLemmas.IdPairingFlagsLeftoverPairs | src/matching.rs:90-96 | every member of every leftover pair is flagged |
| FlaggedLemmas.RemainderMatch | src/matching.rs:85-86 | the remainder ends up third in one solver match; every other solver match keeps two members |
| FlaggedLemmas.IdPairingRemainderFlag | src/matching.rs:97-101 | the third member of a triple is flagged exactly when it has a constraint against one of the other two |
| FlaggedLemmas.IdPairingFlaggedSound | src/matching.rs:90-103 | with a maximal matching on the complement graph, every flagged node shares its match with a node it has a constraint against |
| FlaggedLemmas.IdPairingFlaggedComplete | src/matching.rs:90-103 | when two members of a match have a constraint, at least one of them is flagged |
| GraphPairLemmas.GraphPairErrors | src/matching.rs:63-86 | fewer than two participants is "too few", more than 200 is "too many", and in between it fails only when the solver matched nobody; the empty-matches error of `add_remainder_to_pairing` is unreachable |
| GraphPairLemmas.GraphPairPartition | src/matching.rs:58-112 | the matches, flattened, are a permutation of the participants (corrected graph) |
| GraphPairLemmas.GraphPairSizes | src/matching.rs:82-111 | matches have two members, with one triple exactly when the count is odd (corrected graph) |
| GraphPairLemmas.GraphPairNovelPairs | src/matching.rs:72-77 | with distinct participants, each solver match starts with two different people who never shared a match |
| GraphPairLemmas.GraphPairFlaggedSound | src/matching.rs:90-103 | with distinct participants and a maximal solver, every flagged participant meets someone they met before |
| GraphPairLemmas.GraphPairFlaggedComplete | src/matching.rs:90-103 | whenever two members of one match met before, at least one of them is flagged |
| GraphPairLemmas.GraphPairSolverMembersUnflagged | src/matching.rs:97-101 | the two participants a solver match starts with are never flagged |
| GraphPairLemmas.GraphPairRemainderFlag | src/matching.rs:97-101 | the third member of a triple is flagged exactly when they met one of the other two before |
| GraphPairLemmas.GraphPairEmptyMatching | src/matching.rs:79-80 | with distinct participants and a maximal solver, the round fails for want of a matching exactly when every two participants met before |
| Matching.GraphPair | src/matching.rs:58-112 | `graph_pair` on the corrected graph; its contract is stated by `GraphPairErrors`, `GraphPairPartition`, `GraphPairSizes`, `GraphPairNovelPairs` and the flag lemmas above |
| Matching.GraphPairAsWritten | src/matching.rs:58-112 | `graph_pair` as written; its contract is stated by the `NodeCountFinding` lemmas below |
| NodeCountFinding.AsWrittenAgreesWhenAllNodesCreated | src/matching.rs:143-150 | when `from_edges` happens to create a node for every participant, the code as written and the corrected one agree |
| NodeCountFinding.TrioGraphs | src/matching.rs:143-150 | for participants 1, 2, 3 where 3 met both others, the graph as written has two nodes and the corrected one three |
| NodeCountFinding.AsWrittenDropsTrioMember | src/matching.rs:143-160 | the code as written never places participant 3, whatever the solver, so its output is not a permutation of the participants |
| NodeCountFinding.AsWrittenTrioResult | src/matching.rs:58-112 | the code as written returns the pairing `[[1, 2]]` with nobody flagged |
| NodeCountFinding.CorrectedTrioResult | src/matching.rs:58-112 | the corrected code returns the triple `[[1, 2, 3]]` and flags 3 |
| Helpers.FormatId | src/helpers.rs:93-95 | a ping is `<@`, then digits without a leading zero that parse back to the id, then `>` |
| Helpers.FormatTwo | src/helpers.rs:102-104 | a two-member match reads `<@a> and <@b>` |
| Helpers.FormatLarger | src/helpers.rs:102-104 | a match of three or more reads as the first members joined by `, `, then `, and `, then the last member |
| Helpers.FormatHasNoNewline | src/helpers.rs:101-105 | a rendered match holds no newline |
| Helpers.FormatPairsLines | src/helpers.rs:98-107 | splitting `format_pairs` at newlines gives back one line per match, so there is no trailing newline |
| Helpers.FormatPairs | src/helpers.rs:98-108 | `format_pairs`; its contract (one line per match, no trailing newline) is `FormatPairsLines` |
| Helpers.LowerHex | src/helpers.rs:88 | `{:x}` gives at least one lowercase hexadecimal digit, and the first digit is `0` only for zero |
| Helpers.LowerHexValue | src/helpers.rs:88 | the digits `{:x}` writes denote the hash |
| Helpers.LowerHexLength | src/helpers.rs:88-89 | the hexadecimal text has at least `d` digits exactly when the hash is at least 16^(d-1) |
| Helpers.LowerHexPrefix | src/helpers.rs:88-89 | the first `k` digits of the text are the leading digits of the hash: with `p` the place value of the dropped digits, the hash lies in `[v * p, v * p + p)` for their value `v` |
| Helpers.ChecksumAsWrittenLeadingDigits | src/helpers.rs:88-89 | the eight characters the slice keeps are the eight leading hexadecimal digits of the hash |
| Helpers.ChecksumAsWrittenPanics | src/helpers.rs:89 | the slice panics exactly for hashes below 0x1000_0000 |
| Helpers.PadLeft | src/helpers.rs:88-89 | padding reaches the width and leaves long texts alone; a short text ends the result and only pad characters come before it |
| Helpers.Checksum | src/helpers.rs:88-89 | the corrected checksum always has eight lowercase hex digits, holds no underscore or newline, and agrees with the slice wherever the slice works |
| Helpers.ChecksumZeroPadded | src/helpers.rs:88-89 | for a hash of at most eight digits, the corrected checksum is its hexadecimal text with zeros in front, and it still denotes the hash |
| Helpers.ChecksumPairing | src/helpers.rs:84-90 | the checksum of a pairing is eight characters with no underscore or newline (corrected engine) |
| UserIds.Decimal | src/helpers.rs:94 | an id displays as at least one digit, a single digit exactly below ten, and a leading `0` only for zero |
| UserIds.DecimalRoundTrip | src/helpers.rs:94 | the value of the displayed digits is the number |
| UserIds.ParseLeadingZeros | src/discord_helpers.rs:95 | a decimal number written with any number of leading zeros parses to that number exactly when it is between 1 and 2^64 - 1, and fails otherwise |
| UserIds.ParseDisplayedId | src/discord_helpers.rs:95 | a displayed id parses back to itself |
| DiscordHelpers.DigitRun | src/discord_helpers.rs:74 | the maximal run of digits at the start of a text |
| DiscordHelpers.Captures | src/discord_helpers.rs:74 | every capture of `<@([0-9]+)>` is a non-empty digit string |
| DiscordHelpers.CapturesSkip | src/discord_helpers.rs:93 | text without `<` contributes no capture |
| DiscordHelpers.CapturesToken | src/discord_helpers.rs:93-94 | a token `<@digits>` contributes its digits, and the scan resumes after it |
| DiscordHelpers.CapturesJoined | src/discord_helpers.rs:93-96 | the pings of a list, joined by `, `, are captured as the decimals of the ids, in order |
| DiscordHelpers.ParsedIds | src/discord_helpers.rs:95 | parsing keeps at most one id per capture |
| DiscordHelpers.ParsedDecimals | src/discord_helpers.rs:95 | the decimals of ids parse back to the ids |
| DiscordHelpers.LineIdsOfMatch | src/discord_helpers.rs:92-97 | the line rendered for a match parses back to exactly that match |
| DiscordHelpers.NicknameMentionIgnored | src/discord_helpers.rs:74 | a nickname mention `<@!id>` yields no id |
| DiscordHelpers.NonDigitMentionIgnored | src/discord_helpers.rs:74 | a mention like `<@x>` yields no id |
| DiscordHelpers.InvalidIdDropped | src/discord_helpers.rs:95 | a mention of 0 or of a number beyond 64 bits is dropped |
| DiscordHelpers.LineGroups | src/discord_helpers.rs:92-98 | each line yields at most one group, and only groups of two or more ids are kept |
| DiscordHelpers.LineGroupsAppend | src/discord_helpers.rs:91-98 | lines are processed independently and in order |
| DiscordHelpers.MessageGroups | src/discord_helpers.rs:89-98 | a message yields at most one group per line, each of two or more ids |
| DiscordHelpers.MessageGroupsLines | src/discord_helpers.rs:91 | no group spans a line break |
| DiscordHelpers.LineGroupsOfMatches | src/discord_helpers.rs:92-98 | the lines of a pairing read back as its matches of two or more |
| DiscordHelpers.MessageGroupsOfPairs | src/discord_helpers.rs:88-99 | the text `format_pairs` writes reads back as its matches of two or more |
| DiscordHelpers.Horizon | src/discord_helpers.rs:84-87 | the first message that is a fetch error or older than the cutoff; all earlier ones are recent |
| DiscordHelpers.HistoryGroupsSpec | src/discord_helpers.rs:81-104 | reading fails exactly when a fetch error comes before every old message; otherwise it is the groups of all messages before the first old one, in message order |
| DiscordHelpers.HistoryGroups | src/discord_helpers.rs:81-104 | the history read message by message; its contract is `HistoryGroupsSpec` |
| DiscordHelpers.PreviousMatches | src/discord_helpers.rs:66-105 | the loop over at most 1000 messages, stopping at the first one older than 365 days, computes that history |
| DiscordHelpers.MatchMembersErrors | src/discord_helpers.rs:121-133 | zero or one participant is an error of its own that reports the count; `graph_pair`'s "too few" error is unreachable; a history error is passed on (corrected engine) |
| DiscordHelpers.MatchMembersPartition | src/discord_helpers.rs:129-133 | a successful round places every participant exactly once (corrected engine) |
| DiscordHelpers.MatchMembersSizes | src/discord_helpers.rs:129-133 | every match of a successful round has two or three members (corrected engine) |
| DiscordHelpers.MatchMembers | src/discord_helpers.rs:109-134 | `match_members` after its lookups (corrected engine); its contract is stated by `MatchMembersErrors`, `MatchMembersPartition` and `MatchMembersSizes` |
| Seqs.RSplitOnce | src/send_pairing.rs:22 | the split fails exactly when there is no underscore; otherwise the text is the left part, an underscore and a right part without underscores |
| Seqs.RSplitOnceGlued | src/send_pairing.rs:22 | gluing a text, an underscore and an underscore-free text splits back into the two texts |
| Seqs.Take | src/discord_helpers.rs:79 | `take(n)` is the prefix of length `n`, or the whole sequence when it is no longer than `n` |
| CreatePairing.PairingKey | src/create_pairing.rs:13-17 | the key splits at its last underscore into exactly the seed text and the checksum, even when the seed text holds underscores (corrected engine) |
| CreatePairing.ImperfectMessage | src/create_pairing.rs:19-26 | the fixed "All members were matched with new people" text appears exactly when nobody is flagged |
| CreatePairing.ImperfectMessageIds | src/create_pairing.rs:19-26 | the mentions of the flagged line are exactly the flagged members, in order, on one line |
| CreatePairing.ReplyLines | src/create_pairing.rs:27-29 | the reply's lines are one line per match, then the total, the flagged line and the key line |
| CreatePairing.SumLengthsOfPartition | src/create_pairing.rs:18 | the member total of a partition is the number of participants |
| CreatePairing.ReplyOfPartition | src/create_pairing.rs:18-29 | the reply of a successful round shows the participant count as its total (corrected engine) |
| CreatePairing.CreateReplyContents | src/create_pairing.rs:8-30 | a successful `/create_pairing` reply shows every match on its own line, the participant count, the flagged members and the replay key, for a seed text without a line break (corrected engine) |
| CreatePairing.HandleCreatePairing | src/create_pairing.rs:8-30 | `handle_create_pairing` (corrected engine); its contract is `CreateReplyContents` |
| SendPairing.KeyReplay | src/send_pairing.rs:22-43 | the key `/create_pairing` showed, replayed with the same members and history, passes the gate and yields the same matches (corrected engine) |
| SendPairing.ConfirmPairingErrors | src/send_pairing.rs:22-43 | the key is invalid exactly when it has no underscore; it mismatches exactly when the recomputed checksum differs; a checksum part not eight characters long never passes (corrected engine) |
| SendPairing.ConfirmedMatches | src/send_pairing.rs:34-43 | a confirmed pairing is the one recomputed from the key's seed text (corrected engine) |
| SendPairing.ConfirmedShape | src/send_pairing.rs:34-43 | a confirmed pairing has matches of two or three, covers every participant once, and has no repeated member when the participants are distinct (corrected engine) |
| SendPairing.ConfirmPairing | src/send_pairing.rs:22-43 | the key split and the checksum gate (corrected engine); its contract is stated by `ConfirmPairingErrors`, `ConfirmedMatches`, `ConfirmedShape` and `KeyReplay` |
| SendPairing.AnnouncementLines | src/send_pairing.rs:45-53 | the announcement reads, line by line, as the role greeting, a blank line and one line per match, in match order |
| SendPairing.AnnouncementText | src/send_pairing.rs:45-53 | the announcement text; its contract is `AnnouncementLines` |
| SendPairing.HistoryRecord | src/send_pairing.rs:54-60 | the edited history message; its contract is `HistoryRecordReadBack` |
| SendPairing.HistoryRecordReadBack | src/send_pairing.rs:54-60 | the history record reads back as exactly the matches it announces |
| SendPairing.RecordedMembersMet | src/send_pairing.rs:54-60 | after the record is read back, any two members of a recorded match count as having met |
| SendPairing.PartnersAreOthers | src/send_pairing.rs:66 | a member's partners are the other members of the match, in order |
| SendPairing.PartnerEntries | src/send_pairing.rs:67-78 | the partner list fails exactly when a partner's record cannot be fetched; otherwise each entry is the ping and the display name |
| SendPairing.MessageUserSpec | src/send_pairing.rs:66-95 | one member is messaged exactly when the partner names can be fetched and the channel opens; otherwise the error is a name or channel failure and nothing is sent |
| SendPairing.MessageUsersSpec | src/send_pairing.rs:65-96 | the members of one match are messaged in order, all of them exactly when each can be |
| SendPairing.MessageMatchesSpec | src/send_pairing.rs:62-97 | the loop succeeds exactly when every member can be messaged; it then messages every member once, in match order, and the count is the total member count |
| SendPairing.MessageUser | src/send_pairing.rs:64-95 | one member's lookup, channel and message; its contract is `MessageUserSpec` |
| SendPairing.MessageMatches | src/send_pairing.rs:62-97 | the nested loops as a function; its contract is `MessageMatchesSpec` |
| SendPairing.MessageMembers | src/send_pairing.rs:62-97 | the nested loops compute the messages of `MessageMatches` and count them |
| SendPairing.EveryoneReachable | src/send_pairing.rs:64-97 | when every member can be looked up and messaged, the loop does not fail |
| SendPairing.HandleSendPairing | src/send_pairing.rs:12-100 | nothing is posted or sent unless the key is confirmed; then the announcement and history record are posted, the members are messaged up to the first failure, and the reply is that failure or the count (corrected engine) |
| SendPairing.PartitionReachable | src/send_pairing.rs:62-98 | messaging a partition of reachable participants reaches each of them once |
| SendPairing.SendAfterCreate | src/send_pairing.rs:12-100 | with the key `/create_pairing` showed, unchanged members and history, and reachable members, every participant is messaged once and the count is the participant count (corrected engine) |

## Left out

- The ChaCha8 shuffle (src/matching.rs:16-20, src/pair.rs:14-16) is foreign code. It is any permutation determined by the list and the seed.
- petgraph's `maximum_matching` and `MatrixGraph` are foreign code. The solver returns disjoint graph edges. That the matching is maximum is never assumed. Lemmas that need it to be maximal take that as a hypothesis.
- GraphPairLemmas.GraphPairFlaggedSound: holds only for a maximal solver. That is the one property of a maximum matching it needs.
- The `DefaultHasher` hashes in `hash_seed` and `checksum_pairing` (src/helpers.rs:76-90) depend on SipHash and the Rust version, so they stay abstract functions.
- Discord I/O is left out: reading the guild and the role, `find_channel` (src/discord_helpers.rs:13-24), posting messages and editing the history message. Their failures are not modelled. The role id and the announcement link are parameters.
- The errors of those lookups are not modelled. In the source the notification and history channel lookups come between the key split and pairing; here only the split's own error is kept.
- `guild_members_with_role` (src/discord_helpers.rs:27-63, src/helpers.rs:15-51) pages through the server's member list; its result is the participant list parameter.
- `pair_members` (src/helpers.rs:55-73) is not called from the commands. It is `pair` behind the same participant check `match_members` models.
- SendPairing.MessageUser: the fixed prose of the direct message is not modelled. Only the recipient and the rendered partner list are kept. Delivery errors are ignored, as the source ignores them.
- `try_join_all` runs the partner lookups concurrently. The model looks them up in order; only whether all of them succeed matters.
- DiscordHelpers.PreviousMatches: the clock is read once. The source calls `Local::now()` for every message. The cutoff is that one instant minus 365 days of seconds.
- The `regex` crate: `<@([0-9]+)>` is modelled by hand as a left-to-right scan that resumes after each token.
- Node ids are `u16` in the source. The 200-participant limit keeps every id in range, so they are unbounded naturals here.
- Serenity's `UserId` parse is modelled as a non-zero 64-bit decimal, read back from its plain decimal display.
- The checksum is called `checksum_pairing` where it is defined and `checksum_matching` where it is used. Both are the one function `ChecksumPairing`.
- Pair.Pair: the source panics on one participant or none (src/pair.rs:11-13); the model requires at least two instead of modelling the panic.
- Matching.RandomPair: the source panics on one participant or none (src/matching.rs:26-28); the model requires at least two instead of modelling the panic.
- Helpers.FormatPairs: an empty match makes the source underflow or hit its `expect` (src/helpers.rs:102-104); the model requires every match to be non-empty. `AnnouncementText` and `HistoryRecord` inherit that requirement.
- Helpers.ChecksumAsWritten: the slice panics on hashes below 0x1000_0000; the model requires eight digits, and `ChecksumAsWrittenPanics` states exactly when the panic happens.
- Helpers.ChecksumPairing: built on the corrected, zero-padded checksum. The code as written panics where `ChecksumAsWrittenPanics` says.
- DiscordHelpers.MatchMembers: built on the corrected `graph_pair`. With the code as written a participant can be left out (see the first finding).
- DiscordHelpers.MatchMembersErrors: built on the corrected `graph_pair`.
- DiscordHelpers.MatchMembersPartition: built on the corrected `graph_pair`. With the code as written the trio of the first finding gets `[[1, 2]]`, which leaves out participant 3.
- DiscordHelpers.MatchMembersSizes: built on the corrected `graph_pair`.
- CreatePairing.PairingKey: its length `|seed text| + 9` relies on the corrected checksum. The code as written panics instead for hashes below 0x1000_0000.
- CreatePairing.ReplyOfPartition: states the total for a partition. The code as written need not return a partition (see the first finding).
- CreatePairing.CreateReplyContents: built on the corrected `graph_pair` and checksum. With the code as written the trio of the first finding gets the reply "Total paired members: 2".
- CreatePairing.CreateReplyContents: stated only for a seed text without a line break. A slash-command option is a single line, and the source adds no check of its own; a line break in the seed would split the key line.
- GraphPairLemmas.GraphPairPartition: built on the corrected graph. As written, the trio of the first finding gets `[[1, 2]]`, which is not a permutation of the participants.
- GraphPairLemmas.GraphPairSizes: built on the corrected graph. As written, the trio of the first finding gets `[[1, 2]]`, with no triple although the count is odd.
- CreatePairing.HandleCreatePairing: built on the corrected `graph_pair` and checksum.
- SendPairing.KeyReplay: built on the corrected `graph_pair` and checksum.
- SendPairing.ConfirmPairing: built on the corrected `graph_pair` and checksum.
- SendPairing.ConfirmPairingErrors: built on the corrected `graph_pair` and checksum.
- SendPairing.ConfirmedMatches: built on the corrected `graph_pair` and checksum.
- SendPairing.ConfirmedShape: built on the corrected `graph_pair`. With the code as written a confirmed pairing can leave participants out.
- SendPairing.HandleSendPairing: built on the corrected `graph_pair` and checksum.
- SendPairing.SendAfterCreate: built on the corrected `graph_pair`. With the code as written the trio of the first finding messages only 2 of its 3 participants.
- `log_error`, `src/main.rs` and the `poise` command wrappers (src/create_pairing.rs:32-54, src/send_pairing.rs:102-121) only log, start the bot or print the reply. `src/main.rs` declares no `pair` module, so `src/pair.rs` is unused.

## Findings

| source | as written | input that shows it | evidently intended | confidence | as-written member | corrected member |
|---|---|---|---|---|---|---|
| src/matching.rs:143-160 | `UnMatrix::from_edges` creates only the nodes up to the largest end of a candidate edge, and `pair_unmatched` walks `0..graph.node_count()`, so participants at the last positions with no candidate edge are never placed in any match | participants `[1, 2, 3]` in that shuffled order, history `[[2, 3], [1, 3]]`: the only candidate edge is {0, 1}, the graph has two nodes, and the result is `[[1, 2]]`, dropping 3 | one node per participant, so that 3 joins the pair as a flagged third member: `[[1, 2, 3]]` with 3 flagged | not executed | NodeCountFinding.AsWrittenDropsTrioMember | GraphPairLemmas.GraphPairPartition |
| src/helpers.rs:88-89 | `hex[..8]` slices the unpadded hexadecimal text of the hash, which is shorter than eight digits for any hash below 0x1000_0000, and the slice then panics | any pairing whose hash is below 0x1000_0000, e.g. 0xfff_ffff (seven digits) | pad to eight digits first (`{:08x}`), so every hash gives an eight-digit checksum | not executed | Helpers.ChecksumAsWrittenPanics | Helpers.Checksum |

The rest of the model uses the corrected graph (`Matching.GraphPair`) and the
corrected checksum; rows marked "(corrected engine)" hold for those, and
"## Left out" says for each what the code as written does instead. `Matching.GraphPairAsWritten` and
`Helpers.ChecksumAsWritten` keep the code as written.
