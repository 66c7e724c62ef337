/** `src/send_pairing.rs`: `/send_pairing` replays a key, recomputes the
    pairing, refuses it unless the checksum matches, then announces it, records
    it in the history channel and messages every member. The Discord calls are
    parameters: the user records `to_user` fetches, whether a direct-message
    channel opens, and the link of the posted announcement. */
module SendPairing {
  import opened Prelude
  import opened Seqs
  import opened UserIds
  import opened Helpers
  import opened Pair
  import opened Matching
  import opened MatchingLemmas
  import opened GraphPairLemmas
  import opened DiscordHelpers
  import opened CreatePairing

  // ------------------------------------------------------------ the key gate

  /** The steps before anything is posted: the key is split at its last
      underscore, the seed text is hashed, the members are paired again, and
      the checksum of the new pairing must equal the key's checksum. */
  function ConfirmPairing(key: string, participants: seq<UserId>, history: Result<seq<Match<UserId>>>,
                          hashSeed: SeedHasher, hash: PairingHasher,
                          shuffle: Shuffler<UserId>, solve: Solver): Result<seq<Match<UserId>>>
    requires IsShuffler(shuffle) && IsSolver(solve)
  {
    match RSplitOnce(key, '_')
    case None => Err(InvalidKey)
    case Some((seedStr, checksum)) =>
      var seed := hashSeed(seedStr);
      match MatchMembers(participants, history, seed, shuffle, solve)
      case Err(e) => Err(e)
      case Ok(p) =>
        if ChecksumPairing(seed, p.matches, hash) == checksum then Ok(p.matches) else Err(KeyMismatch)
  }

  /** Replaying the key `/create_pairing` showed, with the same members and
      history, is accepted and yields the same matches, whatever underscores
      the seed text holds. */
  lemma KeyReplay(seedStr: string, participants: seq<UserId>, history: Result<seq<Match<UserId>>>,
                  hashSeed: SeedHasher, hash: PairingHasher,
                  shuffle: Shuffler<UserId>, solve: Solver)
    requires IsShuffler(shuffle) && IsSolver(solve)
    requires MatchMembers(participants, history, hashSeed(seedStr), shuffle, solve).Ok?
    ensures var seed := hashSeed(seedStr);
      var p := MatchMembers(participants, history, seed, shuffle, solve).value;
      ConfirmPairing(PairingKey(seedStr, seed, p.matches, hash), participants, history, hashSeed, hash, shuffle, solve)
        == Ok(p.matches)
  {
  }

  /** The gate's own errors: a key without underscore is invalid, and a key
      whose checksum differs from the recomputed pairing's is a mismatch; a
      checksum part that is not eight characters long can never pass. */
  lemma ConfirmPairingErrors(key: string, participants: seq<UserId>, history: Result<seq<Match<UserId>>>,
                             hashSeed: SeedHasher, hash: PairingHasher,
                             shuffle: Shuffler<UserId>, solve: Solver)
    requires IsShuffler(shuffle) && IsSolver(solve)
    requires history.Err? ==> history.error.HistoryFetchFailed?
    ensures var r := ConfirmPairing(key, participants, history, hashSeed, hash, shuffle, solve);
      && (r == Err(InvalidKey) <==> '_' !in key)
      && ('_' in key ==>
           var (seedStr, checksum) := RSplitOnce(key, '_').value;
           var m := MatchMembers(participants, history, hashSeed(seedStr), shuffle, solve);
           && (r == Err(KeyMismatch) <==>
                 m.Ok? && ChecksumPairing(hashSeed(seedStr), m.value.matches, hash) != checksum)
           && (|checksum| != 8 ==> r.Err?))
  {
    if '_' in key {
      var (seedStr, checksum) := RSplitOnce(key, '_').value;
      MatchMembersErrors(participants, history, hashSeed(seedStr), shuffle, solve);
    }
  }

  /** A confirmed pairing has matches of two or three members, and distinct
      participants give duplicate-free matches. */
  lemma ConfirmedShape(key: string, participants: seq<UserId>, history: Result<seq<Match<UserId>>>,
                       hashSeed: SeedHasher, hash: PairingHasher,
                       shuffle: Shuffler<UserId>, solve: Solver)
    requires IsShuffler(shuffle) && IsSolver(solve)
    requires ConfirmPairing(key, participants, history, hashSeed, hash, shuffle, solve).Ok?
    ensures var pairs := ConfirmPairing(key, participants, history, hashSeed, hash, shuffle, solve).value;
      && (forall k :: 0 <= k < |pairs| ==> 2 <= |pairs[k]| <= 3)
      && multiset(Flatten(pairs)) == multiset(participants)
      && (NoDup(participants) ==> forall k :: 0 <= k < |pairs| ==> NoDup(pairs[k]))
  {
    var seedStr := RSplitOnce(key, '_').value.0;
    var seed := hashSeed(seedStr);
    ConfirmedMatches(key, participants, history, hashSeed, hash, shuffle, solve);
    MatchMembersSizes(participants, history, seed, shuffle, solve);
    MatchMembersPartition(participants, history, seed, shuffle, solve);
    PartitionNoDup(MatchMembers(participants, history, seed, shuffle, solve).value.matches, participants);
  }

  /** A confirmed pairing is the pairing recomputed from the key's seed text. */
  lemma ConfirmedMatches(key: string, participants: seq<UserId>, history: Result<seq<Match<UserId>>>,
                         hashSeed: SeedHasher, hash: PairingHasher,
                         shuffle: Shuffler<UserId>, solve: Solver)
    requires IsShuffler(shuffle) && IsSolver(solve)
    requires ConfirmPairing(key, participants, history, hashSeed, hash, shuffle, solve).Ok?
    ensures RSplitOnce(key, '_').Some?
    ensures var seed := hashSeed(RSplitOnce(key, '_').value.0);
      && MatchMembers(participants, history, seed, shuffle, solve).Ok?
      && ConfirmPairing(key, participants, history, hashSeed, hash, shuffle, solve).value ==
         MatchMembers(participants, history, seed, shuffle, solve).value.matches
  {
  }

  /** The matches of a partition of distinct participants are duplicate-free. */
  lemma PartitionNoDup(pairs: seq<Match<UserId>>, participants: seq<UserId>)
    requires multiset(Flatten(pairs)) == multiset(participants)
    ensures NoDup(participants) ==> forall k :: 0 <= k < |pairs| ==> NoDup(pairs[k])
  {
    if NoDup(participants) {
      NoDupPermutation(participants, Flatten(pairs));
      forall k | 0 <= k < |pairs|
        ensures NoDup(pairs[k])
      {
        FlattenPartNoDup(pairs, k);
      }
    }
  }

  // ------------------------------------------------------- what gets posted

  /** The first line of the announcement: the role ping and a greeting. */
  function AnnouncementHeader(role: nat): string
  {
    "Hey <@&" + Decimal(role) + ">, " + "here are the pairings " + "for the next round of matchy meetups!"
  }

  /** The text posted to the notification channel: a role ping, then the pairing. */
  function AnnouncementText(role: nat, pairs: seq<Match<UserId>>): string
    requires forall k :: 0 <= k < |pairs| ==> |pairs[k]| >= 1
  {
    AnnouncementHeader(role) + "\n\n" + FormatPairs(pairs)
  }

  /** The announcement reads, line by line, as the greeting, a blank line and
      one line per match, in match order. */
  lemma AnnouncementLines(role: nat, pairs: seq<Match<UserId>>)
    requires |pairs| >= 1 && forall k :: 0 <= k < |pairs| ==> |pairs[k]| >= 1
    ensures Split(AnnouncementText(role, pairs), '\n') == [AnnouncementHeader(role), ""] + FormatMatches(pairs)
  {
    HeaderOneLine(role);
    BlankLineThen(AnnouncementHeader(role), FormatPairs(pairs));
    FormatPairsLines(pairs);
  }

  lemma HeaderOneLine(role: nat)
    ensures '\n' !in AnnouncementHeader(role)
  {
    var d := Decimal(role);
    assert forall k :: 0 <= k < |d| ==> IsDigit(d[k]);
    assert '\n' !in "Hey <@&" && '\n' !in ">, " && '\n' !in "here are the pairings ";
    assert '\n' !in "for the next round of matchy meetups!";
  }

  lemma BlankLineThen(header: string, text: string)
    requires '\n' !in header
    ensures Split(header + "\n\n" + text, '\n') == [header, ""] + Split(text, '\n')
  {
    assert header + "\n\n" + text == header + ['\n'] + ([] + ['\n'] + text);
    SplitPrefix(header, '\n', [] + ['\n'] + text);
    SplitPrefix([], '\n', text);
  }

  /** The text the history message ends up with: the announcement's link on
      its own line, then the pairing. */
  function HistoryRecord(link: string, pairs: seq<Match<UserId>>): string
    requires forall k :: 0 <= k < |pairs| ==> |pairs[k]| >= 1
  {
    link + "\n" + FormatPairs(pairs)
  }

  /** What the next `previous_matches` reads back from the history record is
      exactly the matches sent, provided the link is a single line without
      mentions (as a message link is). */
  lemma HistoryRecordReadBack(link: string, pairs: seq<Match<UserId>>)
    requires forall k :: 0 <= k < |pairs| ==> |pairs[k]| >= 2
    requires '\n' !in link && '<' !in link
    ensures MessageGroups(HistoryRecord(link, pairs)) == pairs
  {
    MessageGroupsLines(link, FormatPairs(pairs));
    SplitNoSeparator(link, '\n');
    CapturesSkip(link, []);
    assert link + [] == link;
    assert MessageGroups(link) == [];
    MessageGroupsOfPairs(pairs);
    FilterAll(pairs, (p: Match<UserId>) => |p| > 1);
  }

  /** After a round is recorded, any two members of one of its matches count
      as having met, whatever else the history holds. */
  lemma RecordedMembersMet(link: string, pairs: seq<Match<UserId>>, older: seq<Match<UserId>>,
                           k: nat, x: UserId, y: UserId)
    requires forall j :: 0 <= j < |pairs| ==> |pairs[j]| >= 2
    requires '\n' !in link && '<' !in link
    requires k < |pairs| && x in pairs[k] && y in pairs[k]
    ensures PairedBefore(x, y, MessageGroups(HistoryRecord(link, pairs)) + older)
  {
    HistoryRecordReadBack(link, pairs);
    assert (pairs + older)[k] == pairs[k];
  }

  // --------------------------------------------------------- direct messages

  /** The user's own match without the user, in match order. */
  function Partners(pair: Match<UserId>, user: UserId): seq<UserId>
  {
    Filter(pair, (u: UserId) => u != user)
  }

  /** In a match without repeats, a member's partners are the other members,
      in order. */
  lemma PartnersAreOthers(pair: Match<UserId>, j: nat)
    requires NoDup(pair) && j < |pair|
    ensures Partners(pair, pair[j]) == pair[..j] + pair[j + 1..]
    ensures |Partners(pair, pair[j])| == |pair| - 1
  {
    var keep := (u: UserId) => u != pair[j];
    var before, after := pair[..j], pair[j + 1..];
    assert pair == before + [pair[j]] + after;
    assert forall k :: 0 <= k < |before| ==> before[k] == pair[k];
    assert forall k :: 0 <= k < |after| ==> after[k] == pair[j + 1 + k];
    FilterDropOne(before, pair[j], after, keep);
  }

  /** A user record as `to_user` returns it. */
  datatype User = User(name: string, globalName: Option<string>)

  /** `UserId::to_user`: `None` when the request fails. */
  type UserLookup = UserId -> Option<User>

  /** Whether `create_dm_channel` succeeds for a user. */
  type ChannelOpener = UserId -> bool

  function DisplayName(u: User): string
  {
    if u.globalName.Some? then u.globalName.value else u.name
  }

  /** The rendered partner list: every partner is fetched (`try_join_all`),
      shown as its mention and display name, and the entries are joined by
      ` and `. One failed fetch fails the whole list. */
  function PartnerEntries(partners: seq<UserId>, lookup: UserLookup): (r: Option<seq<string>>)
    ensures r.None? <==> exists k :: 0 <= k < |partners| && lookup(partners[k]).None?
    ensures r.Some? ==> |r.value| == |partners|
    ensures r.Some? ==> forall k :: 0 <= k < |partners| ==>
      r.value[k] == FormatId(partners[k]) + " (" + DisplayName(lookup(partners[k]).value) + ")"
  {
    if partners == [] then Some([])
    else
      var u := lookup(partners[0]);
      var rest := PartnerEntries(partners[1..], lookup);
      if u.None? || rest.None? then
        (if u.Some? then
          var k :| 0 <= k < |partners[1..]| && lookup(partners[1..][k]).None?;
          assert lookup(partners[k + 1]).None?;
          None
        else None)
      else
        var r := [FormatId(partners[0]) + " (" + DisplayName(u.value) + ")"] + rest.value;
        assert forall k :: 1 <= k < |partners| ==> partners[k] == partners[1..][k - 1];
        Some(r)
  }

  function PartnerText(partners: seq<UserId>, lookup: UserLookup): Option<string>
  {
    match PartnerEntries(partners, lookup)
    case None => None
    case Some(entries) => Some(Join(entries, " and "))
  }

  /** A direct message: the recipient and the rendered partner list. The fixed
      prose around the list is not modelled. */
  datatype Dm = Dm(user: UserId, pairing: string)

  /** The messages sent so far and, when the loop stopped early, why. */
  datatype Outcome = Outcome(sent: seq<Dm>, failure: Option<Error>)

  /** Runs `a`, then `b` unless `a` failed. */
  function Then(a: Outcome, b: Outcome): Outcome
  {
    if a.failure.Some? then a else Outcome(a.sent + b.sent, b.failure)
  }

  /** One user: the partner names must be fetched and the channel must open;
      either failure ends the command with an error. Whether the message itself
      is delivered is ignored. */
  function MessageUser(pair: Match<UserId>, user: UserId, lookup: UserLookup, canOpen: ChannelOpener): Outcome
  {
    match PartnerText(Partners(pair, user), lookup)
    case None => Outcome([], Some(NameLookupFailed))
    case Some(text) =>
      if canOpen(user) then Outcome([Dm(user, text)], None) else Outcome([], Some(DmChannelFailed))
  }

  /** The users of one match, in order. */
  function MessageUsers(pair: Match<UserId>, users: seq<UserId>, lookup: UserLookup, canOpen: ChannelOpener): Outcome
  {
    if users == [] then Outcome([], None)
    else Then(MessageUser(pair, users[0], lookup, canOpen), MessageUsers(pair, users[1..], lookup, canOpen))
  }

  /** Every user of every match, match by match. */
  function MessageMatches(pairs: seq<Match<UserId>>, lookup: UserLookup, canOpen: ChannelOpener): Outcome
  {
    if pairs == [] then Outcome([], None)
    else Then(MessageUsers(pairs[0], pairs[0], lookup, canOpen), MessageMatches(pairs[1..], lookup, canOpen))
  }

  lemma ThenAssoc(a: Outcome, b: Outcome, c: Outcome)
    ensures Then(Then(a, b), c) == Then(a, Then(b, c))
  {
    if a.failure.None? && b.failure.None? {
      assert a.sent + b.sent + c.sent == a.sent + (b.sent + c.sent);
    }
  }

  lemma ThenNothing(a: Outcome)
    ensures Then(Outcome([], None), a) == a
  {
    assert [] + a.sent == a.sent;
  }

  /** The nested loops of `handle_send_pairing`: for each match, for each of
      its users, fetch the partners' names, open the channel, send, count. */
  method MessageMembers(pairs: seq<Match<UserId>>, lookup: UserLookup, canOpen: ChannelOpener)
    returns (messagesSent: nat, failure: Option<Error>, sent: seq<Dm>)
    ensures Outcome(sent, failure) == MessageMatches(pairs, lookup, canOpen)
    ensures messagesSent == |sent|
  {
    messagesSent := 0;
    sent := [];
    ThenNothing(MessageMatches(pairs, lookup, canOpen));
    assert pairs[0..] == pairs;
    for i := 0 to |pairs|
      invariant messagesSent == |sent|
      invariant MessageMatches(pairs, lookup, canOpen) ==
        Then(Outcome(sent, None), MessageMatches(pairs[i..], lookup, canOpen))
    {
      var pair := pairs[i];
      assert pairs[i..][1..] == pairs[i + 1..];
      assert pair[0..] == pair;
      for j := 0 to |pair|
        invariant messagesSent == |sent|
        invariant MessageMatches(pairs, lookup, canOpen) ==
          Then(Outcome(sent, None), Then(MessageUsers(pair, pair[j..], lookup, canOpen),
                                         MessageMatches(pairs[i + 1..], lookup, canOpen)))
      {
        var user := pair[j];
        var rest := MessageUsers(pair, pair[j + 1..], lookup, canOpen);
        var later := MessageMatches(pairs[i + 1..], lookup, canOpen);
        assert pair[j..][1..] == pair[j + 1..];
        ThenAssoc(MessageUser(pair, user, lookup, canOpen), rest, later);
        var text := PartnerText(Partners(pair, user), lookup);
        if text.None? {
          assert sent + [] == sent;
          return messagesSent, Some(NameLookupFailed), sent;
        }
        if !canOpen(user) {
          assert sent + [] == sent;
          return messagesSent, Some(DmChannelFailed), sent;
        }
        ThenAssoc(Outcome(sent, None), Outcome([Dm(user, text.value)], None), Then(rest, later));
        sent := sent + [Dm(user, text.value)];
        messagesSent := messagesSent + 1;
      }
      assert pair[|pair|..] == [];
      ThenNothing(MessageMatches(pairs[i + 1..], lookup, canOpen));
    }
    assert sent + [] == sent;
    failure := None;
  }

  /** A user can be messaged: the partners' names are found and the channel opens. */
  predicate Deliverable(pair: Match<UserId>, user: UserId, lookup: UserLookup, canOpen: ChannelOpener)
  {
    PartnerText(Partners(pair, user), lookup).Some? && canOpen(user)
  }

  /** The recipients of the messages, in order. */
  function Recipients(sent: seq<Dm>): (r: seq<UserId>)
    ensures |r| == |sent| && forall k :: 0 <= k < |sent| ==> r[k] == sent[k].user
  {
    seq(|sent|, k requires 0 <= k < |sent| => sent[k].user)
  }

  lemma RecipientsAppend(a: seq<Dm>, b: seq<Dm>)
    ensures Recipients(a + b) == Recipients(a) + Recipients(b)
  {
  }

  /** Each of the given users can be messaged. */
  predicate AllDeliverable(pair: Match<UserId>, users: seq<UserId>, lookup: UserLookup, canOpen: ChannelOpener)
  {
    forall j :: 0 <= j < |users| ==> Deliverable(pair, users[j], lookup, canOpen)
  }

  lemma AllDeliverableCons(pair: Match<UserId>, users: seq<UserId>, lookup: UserLookup, canOpen: ChannelOpener)
    requires users != []
    ensures AllDeliverable(pair, users, lookup, canOpen) <==>
      Deliverable(pair, users[0], lookup, canOpen) && AllDeliverable(pair, users[1..], lookup, canOpen)
  {
    assert forall j :: 1 <= j < |users| ==> users[j] == users[1..][j - 1];
  }

  /** One match succeeds exactly when each of the given users can be messaged,
      and then messages them in order. Failures are name or channel errors. */
  lemma {:induction false} MessageUsersSpec(pair: Match<UserId>, users: seq<UserId>, lookup: UserLookup,
                                            canOpen: ChannelOpener)
    ensures var o := MessageUsers(pair, users, lookup, canOpen);
      && (o.failure.None? <==> AllDeliverable(pair, users, lookup, canOpen))
      && (o.failure.None? ==> Recipients(o.sent) == users)
      && KnownFailure(o)
  {
    if users != [] {
      MessageUsersSpec(pair, users[1..], lookup, canOpen);
      MessageUserSpec(pair, users[0], lookup, canOpen);
      AllDeliverableCons(pair, users, lookup, canOpen);
      var first := MessageUser(pair, users[0], lookup, canOpen);
      var rest := MessageUsers(pair, users[1..], lookup, canOpen);
      ThenStep(first, rest, [users[0]], users[1..], Deliverable(pair, users[0], lookup, canOpen),
               AllDeliverable(pair, users[1..], lookup, canOpen));
      HeadTail(users);
    }
  }

  /** A failure of either step is a name or channel error. */
  predicate KnownFailure(o: Outcome)
  {
    o.failure.Some? ==> o.failure.value == NameLookupFailed || o.failure.value == DmChannelFailed
  }

  /** Running two steps: it succeeds when both do, and then messages the
      recipients of the first, then those of the second. */
  lemma ThenStep(first: Outcome, rest: Outcome, a: seq<UserId>, b: seq<UserId>, okFirst: bool, okRest: bool)
    requires (first.failure.None? <==> okFirst) && (first.failure.None? ==> Recipients(first.sent) == a)
    requires (rest.failure.None? <==> okRest) && (rest.failure.None? ==> Recipients(rest.sent) == b)
    requires KnownFailure(first) && KnownFailure(rest)
    ensures var o := Then(first, rest);
      && (o.failure.None? <==> okFirst && okRest)
      && (o.failure.None? ==> Recipients(o.sent) == a + b)
      && KnownFailure(o)
  {
    if first.failure.None? {
      RecipientsAppend(first.sent, rest.sent);
    }
  }

  lemma MessageUserSpec(pair: Match<UserId>, user: UserId, lookup: UserLookup, canOpen: ChannelOpener)
    ensures var o := MessageUser(pair, user, lookup, canOpen);
      && (o.failure.None? <==> Deliverable(pair, user, lookup, canOpen))
      && (o.failure.None? ==> Recipients(o.sent) == [user])
      && (o.failure.Some? ==> o.sent == [])
      && KnownFailure(o)
  {
  }

  /** The whole loop succeeds exactly when every member of every match can be
      messaged; it then messages every member once, in match order, and the
      count it reports is the total number of members. */
  lemma {:induction false} MessageMatchesSpec(pairs: seq<Match<UserId>>, lookup: UserLookup, canOpen: ChannelOpener)
    ensures var o := MessageMatches(pairs, lookup, canOpen);
      && (o.failure.None? <==> EveryoneDeliverable(pairs, lookup, canOpen))
      && (o.failure.None? ==> Recipients(o.sent) == Flatten(pairs) && |o.sent| == SumLengths(pairs))
      && KnownFailure(o)
  {
    if pairs != [] {
      MessageMatchesSpec(pairs[1..], lookup, canOpen);
      MessageUsersSpec(pairs[0], pairs[0], lookup, canOpen);
      EveryoneDeliverableCons(pairs, lookup, canOpen);
      var first := MessageUsers(pairs[0], pairs[0], lookup, canOpen);
      var rest := MessageMatches(pairs[1..], lookup, canOpen);
      ThenStep(first, rest, pairs[0], Flatten(pairs[1..]), AllDeliverable(pairs[0], pairs[0], lookup, canOpen),
               EveryoneDeliverable(pairs[1..], lookup, canOpen));
      FlattenLength(pairs);
    }
  }

  /** Every member of every match can be messaged. */
  predicate EveryoneDeliverable(pairs: seq<Match<UserId>>, lookup: UserLookup, canOpen: ChannelOpener)
  {
    forall k :: 0 <= k < |pairs| ==> AllDeliverable(pairs[k], pairs[k], lookup, canOpen)
  }

  lemma EveryoneDeliverableCons(pairs: seq<Match<UserId>>, lookup: UserLookup, canOpen: ChannelOpener)
    requires pairs != []
    ensures EveryoneDeliverable(pairs, lookup, canOpen) <==>
      AllDeliverable(pairs[0], pairs[0], lookup, canOpen) && EveryoneDeliverable(pairs[1..], lookup, canOpen)
  {
    assert forall k :: 1 <= k < |pairs| ==> pairs[k] == pairs[1..][k - 1];
  }

  /** Everyone can be messaged when every member's record can be fetched and
      every channel opens. */
  lemma EveryoneReachable(pairs: seq<Match<UserId>>, lookup: UserLookup, canOpen: ChannelOpener)
    requires forall k, x :: 0 <= k < |pairs| && x in pairs[k] ==> lookup(x).Some? && canOpen(x)
    ensures MessageMatches(pairs, lookup, canOpen).failure.None?
  {
    forall k | 0 <= k < |pairs|
      ensures AllDeliverable(pairs[k], pairs[k], lookup, canOpen)
    {
      forall j | 0 <= j < |pairs[k]|
        ensures Deliverable(pairs[k], pairs[k][j], lookup, canOpen)
      {
        MemberReachable(pairs[k], pairs[k][j], lookup, canOpen);
      }
    }
    MessageMatchesSpec(pairs, lookup, canOpen);
  }

  lemma MemberReachable(pair: Match<UserId>, user: UserId, lookup: UserLookup, canOpen: ChannelOpener)
    requires forall x :: x in pair ==> lookup(x).Some?
    requires canOpen(user)
    ensures Deliverable(pair, user, lookup, canOpen)
  {
    var partners := Partners(pair, user);
    assert forall i :: 0 <= i < |partners| ==> lookup(partners[i]).Some?;
  }

  // ------------------------------------------------------------ the command

  /** What was posted to the channels. */
  datatype Post = Announcement(text: string) | HistoryEntry(text: string)

  function SuccessText(n: nat): string
  {
    "Successfully messaged " + Decimal(n) + " users."
  }

  /** What the command does once the gate has decided `c`: on an error it
      replies with that error and neither posts nor sends anything; on a
      confirmed pairing (of matches of two or three) it posts the announcement
      and the history record, messages every member in order up to the first
      failure, and replies with the failure or the count of messages sent. */
  predicate Handled(c: Result<seq<Match<UserId>>>, role: nat, link: string,
                    lookup: UserLookup, canOpen: ChannelOpener,
                    r: Result<string>, posts: seq<Post>, sent: seq<Dm>)
  {
    match c
    case Err(e) => r == Err(e) && posts == [] && sent == []
    case Ok(pairs) =>
      && (forall k :: 0 <= k < |pairs| ==> 2 <= |pairs[k]| <= 3)
      && posts == [Announcement(AnnouncementText(role, pairs)), HistoryEntry(HistoryRecord(link, pairs))]
      && var o := MessageMatches(pairs, lookup, canOpen);
         && sent == o.sent
         && r == if o.failure.Some? then Err(o.failure.value) else Ok(SuccessText(|sent|))
  }

  /** `handle_send_pairing`: nothing is posted or sent unless the key is
      confirmed; then the announcement and the history record are posted and
      every member is messaged, and the reply reports the count. */
  method HandleSendPairing(key: string, participants: seq<UserId>, history: Result<seq<Match<UserId>>>,
                           role: nat, link: string,
                           hashSeed: SeedHasher, hash: PairingHasher,
                           shuffle: Shuffler<UserId>, solve: Solver,
                           lookup: UserLookup, canOpen: ChannelOpener)
    returns (r: Result<string>, posts: seq<Post>, sent: seq<Dm>)
    requires IsShuffler(shuffle) && IsSolver(solve)
    ensures Handled(ConfirmPairing(key, participants, history, hashSeed, hash, shuffle, solve),
                    role, link, lookup, canOpen, r, posts, sent)
  {
    var c := ConfirmPairing(key, participants, history, hashSeed, hash, shuffle, solve);
    if c.Err? {
      return Err(c.error), [], [];
    }
    var pairs := c.value;
    ConfirmedShape(key, participants, history, hashSeed, hash, shuffle, solve);
    posts := [Announcement(AnnouncementText(role, pairs)), HistoryEntry(HistoryRecord(link, pairs))];
    var messagesSent, failure;
    messagesSent, failure, sent := MessageMembers(pairs, lookup, canOpen);
    if failure.Some? {
      return Err(failure.value), posts, sent;
    }
    r := Ok(SuccessText(messagesSent));
  }

  /** With the key `/create_pairing` showed, unchanged members and history,
      and every member reachable, the command messages every participant once
      and reports the participant count. */
  lemma SendAfterCreate(seedStr: string, participants: seq<UserId>, history: Result<seq<Match<UserId>>>,
                        hashSeed: SeedHasher, hash: PairingHasher,
                        shuffle: Shuffler<UserId>, solve: Solver,
                        lookup: UserLookup, canOpen: ChannelOpener)
    requires IsShuffler(shuffle) && IsSolver(solve)
    requires MatchMembers(participants, history, hashSeed(seedStr), shuffle, solve).Ok?
    requires forall x :: x in participants ==> lookup(x).Some? && canOpen(x)
    ensures var seed := hashSeed(seedStr);
      var p := MatchMembers(participants, history, seed, shuffle, solve).value;
      var key := PairingKey(seedStr, seed, p.matches, hash);
      var c := ConfirmPairing(key, participants, history, hashSeed, hash, shuffle, solve);
      var o := MessageMatches(p.matches, lookup, canOpen);
      && c == Ok(p.matches)
      && o.failure.None?
      && multiset(Recipients(o.sent)) == multiset(participants)
      && |o.sent| == |participants|
  {
    var seed := hashSeed(seedStr);
    var p := MatchMembers(participants, history, seed, shuffle, solve).value;
    KeyReplay(seedStr, participants, history, hashSeed, hash, shuffle, solve);
    MatchMembersPartition(participants, history, seed, shuffle, solve);
    PartitionReachable(p.matches, participants, lookup, canOpen);
  }

  /** Messaging a partition of reachable participants reaches each of them once. */
  lemma PartitionReachable(pairs: seq<Match<UserId>>, participants: seq<UserId>,
                           lookup: UserLookup, canOpen: ChannelOpener)
    requires multiset(Flatten(pairs)) == multiset(participants)
    requires forall x :: x in participants ==> lookup(x).Some? && canOpen(x)
    ensures var o := MessageMatches(pairs, lookup, canOpen);
      && o.failure.None?
      && multiset(Recipients(o.sent)) == multiset(participants)
      && |o.sent| == |participants|
  {
    forall k, x | 0 <= k < |pairs| && x in pairs[k]
      ensures lookup(x).Some? && canOpen(x)
    {
      InFlatten(pairs, x);
      assert x in multiset(Flatten(pairs));
    }
    EveryoneReachable(pairs, lookup, canOpen);
    MessageMatchesSpec(pairs, lookup, canOpen);
    SumLengthsOfPartition(pairs, participants);
  }
}
