/** `src/create_pairing.rs`: the reply of `/create_pairing`, which shows a
    proposed pairing, the member total, the participants who may meet someone
    again, and the key that `/send_pairing` later replays. */
module CreatePairing {
  import opened Prelude
  import opened Seqs
  import opened UserIds
  import opened Helpers
  import opened Pair
  import opened Matching
  import opened DiscordHelpers

  /** `hash_seed`: the seed text hashed with `DefaultHasher`, kept abstract. */
  type SeedHasher = string -> u64

  /** The replay key: the seed text, an underscore, then the checksum of the
      pairing. Splitting it at its last underscore gives back both halves,
      whatever underscores the seed text holds. */
  function PairingKey(seedStr: string, seed: u64, pairs: seq<Match<UserId>>, hash: PairingHasher): (key: string)
    ensures RSplitOnce(key, '_') == Some((seedStr, ChecksumPairing(seed, pairs, hash)))
    ensures |key| == |seedStr| + 9
    ensures '\n' in key <==> '\n' in seedStr
  {
    var checksum := ChecksumPairing(seed, pairs, hash);
    RSplitOnceGlued(seedStr, '_', checksum);
    seedStr + "_" + checksum
  }

  /** The member total line for `n` paired members. */
  function TotalLine(n: nat): string
  {
    "Total paired members: " + Decimal(n)
  }

  /** The flagged line when nobody is flagged. */
  const AllMatchedMessage: string := "All members were " + "matched with new people"

  /** The sentence before the mentions of the flagged participants. */
  const ImperfectPrefix: string :=
    "The following members " + "could only be matched " + "with people they may " + "have matched with before: "

  /** The line about the flagged participants: a fixed sentence when nobody is
      flagged, otherwise a sentence followed by their mentions. */
  function ImperfectMessage(imperfect: seq<UserId>): (s: string)
    ensures s == AllMatchedMessage <==> imperfect == []
  {
    if imperfect == [] then AllMatchedMessage
    else
      assert |ImperfectPrefix| > |AllMatchedMessage|;
      ImperfectPrefix + Join(FormatIds(imperfect), ", ")
  }

  const KeyIntro: string := "To send this pairing, " + "use this key: `"

  function KeyLine(key: string): string
  {
    KeyIntro + key + "`"
  }

  /** The whole reply: the pairing text, then the total, the flagged line and
      the key line, separated by newlines. */
  function CreateReply(pairs: seq<Match<UserId>>, imperfect: seq<UserId>, key: string): string
    requires forall k :: 0 <= k < |pairs| ==> |pairs[k]| >= 1
  {
    Join([FormatPairs(pairs), TotalLine(SumLengths(pairs)), ImperfectMessage(imperfect), KeyLine(key)], "\n")
  }

  /** `handle_create_pairing`: the seed text is hashed, the members are paired
      and the reply is built; any error of `match_members` is passed on. */
  function HandleCreatePairing(seedStr: string, participants: seq<UserId>, history: Result<seq<Match<UserId>>>,
                               hashSeed: SeedHasher, hash: PairingHasher,
                               shuffle: Shuffler<UserId>, solve: Solver): Result<string>
    requires IsShuffler(shuffle) && IsSolver(solve)
  {
    var seed := hashSeed(seedStr);
    match MatchMembers(participants, history, seed, shuffle, solve)
    case Err(e) => Err(e)
    case Ok(p) =>
      MatchMembersSizes(participants, history, seed, shuffle, solve);
      Ok(CreateReply(p.matches, p.imperfect, PairingKey(seedStr, seed, p.matches, hash)))
  }

  // ----------------------------------------------------------------- lemmas

  /** The mentions of the flagged line are exactly the flagged participants,
      in order, and the line is a single line. */
  lemma ImperfectMessageIds(imperfect: seq<UserId>)
    ensures LineIds(ImperfectMessage(imperfect)) == imperfect
    ensures '\n' !in ImperfectMessage(imperfect)
  {
    if imperfect == [] {
      FixedTextsPlain();
      CapturesSkip(AllMatchedMessage, []);
      assert AllMatchedMessage + [] == AllMatchedMessage;
    } else {
      ImperfectListIds(imperfect);
    }
  }

  lemma ImperfectListIds(imperfect: seq<UserId>)
    requires imperfect != []
    ensures LineIds(ImperfectMessage(imperfect)) == imperfect
    ensures '\n' !in ImperfectMessage(imperfect)
  {
    var ids := Join(FormatIds(imperfect), ", ");
    assert ImperfectMessage(imperfect) == ImperfectPrefix + ids;
    FixedTextsPlain();
    CapturesSkip(ImperfectPrefix, ids);
    CapturesJoined(imperfect, []);
    assert ids + [] == ids;
    assert Decimals(imperfect) + [] == Decimals(imperfect);
    assert Captures(ImperfectPrefix + ids) == Decimals(imperfect);
    ParsedDecimals(imperfect);
    IdsHaveNoNewline(imperfect);
    JoinHasNoNewline(FormatIds(imperfect));
  }

  /** The fixed sentences hold no mention and no line break. */
  lemma FixedTextsPlain()
    ensures '<' !in AllMatchedMessage && '\n' !in AllMatchedMessage
    ensures '<' !in ImperfectPrefix && '\n' !in ImperfectPrefix
  {
    PlainAllMatched();
    PlainPrefix();
  }

  /** No mention and no line break. */
  predicate Plain(s: string)
  {
    '<' !in s && '\n' !in s
  }

  lemma PlainAllMatched()
    ensures Plain(AllMatchedMessage)
  {
    assert Plain("All members were ");
    assert Plain("matched with new people");
  }

  lemma PlainPrefix()
    ensures Plain(ImperfectPrefix)
  {
    assert Plain("The following members ");
    assert Plain("could only be matched ");
    assert Plain("with people they may ");
    assert Plain("have matched with before: ");
  }

  lemma TotalLineOneLine(n: nat)
    ensures '\n' !in TotalLine(n)
  {
    var d := Decimal(n);
    assert forall k :: 0 <= k < |d| ==> IsDigit(d[k]);
  }

  /** The reply reads, line by line, as one line per match, the total, the
      flagged line and the key line. */
  lemma ReplyLines(pairs: seq<Match<UserId>>, imperfect: seq<UserId>, key: string)
    requires |pairs| >= 1 && forall k :: 0 <= k < |pairs| ==> |pairs[k]| >= 1
    requires '\n' !in key
    ensures Split(CreateReply(pairs, imperfect, key), '\n') ==
      FormatMatches(pairs) + [TotalLine(SumLengths(pairs)), ImperfectMessage(imperfect), KeyLine(key)]
  {
    var text := FormatPairs(pairs);
    var t := TotalLine(SumLengths(pairs));
    var i := ImperfectMessage(imperfect);
    var k := KeyLine(key);
    TotalLineOneLine(SumLengths(pairs));
    ImperfectMessageIds(imperfect);
    KeyLineOneLine(key);
    SplitAfterText(text, t, i, k);
    FormatPairsLines(pairs);
  }

  lemma SplitAfterText(text: string, t: string, i: string, k: string)
    requires '\n' !in t && '\n' !in i && '\n' !in k
    ensures Split(Join([text, t, i, k], "\n"), '\n') == Split(text, '\n') + [t, i, k]
  {
    assert [text, t, i, k] == [text] + [t, i, k];
    assert "\n" == ['\n'];
    var lines := [t, i, k];
    assert lines[0] == t && lines[1] == i && lines[2] == k;
    SplitJoinAfter(text, lines, '\n');
  }

  lemma KeyLineOneLine(key: string)
    requires '\n' !in key
    ensures '\n' !in KeyLine(key)
  {
    assert Plain("To send this pairing, ");
    assert Plain("use this key: `");
  }

  lemma SumLengthsOfPartition(ms: seq<Match<UserId>>, vec: seq<UserId>)
    requires multiset(Flatten(ms)) == multiset(vec)
    ensures SumLengths(ms) == |vec|
  {
    FlattenLength(ms);
    assert |multiset(Flatten(ms))| == |Flatten(ms)|;
  }

  /** The reply reads, line by line, as the matches, the member total `total`,
      the flagged line and the key line. */
  predicate ReplyShows(reply: string, p: Pairing<UserId>, total: nat, key: string)
  {
    && (forall k :: 0 <= k < |p.matches| ==> |p.matches[k]| >= 1)
    && Split(reply, '\n') ==
       FormatMatches(p.matches) + [TotalLine(total), ImperfectMessage(p.imperfect), KeyLine(key)]
  }

  /** A successful reply counts every participant once, lists every match on
      its own line, and carries the flagged line and the replay key. */
  lemma CreateReplyContents(seedStr: string, participants: seq<UserId>, history: Result<seq<Match<UserId>>>,
                            hashSeed: SeedHasher, hash: PairingHasher,
                            shuffle: Shuffler<UserId>, solve: Solver, p: Pairing<UserId>)
    requires IsShuffler(shuffle) && IsSolver(solve)
    requires '\n' !in seedStr
    requires MatchMembers(participants, history, hashSeed(seedStr), shuffle, solve) == Ok(p)
    ensures |p.matches| >= 1
    ensures var reply := HandleCreatePairing(seedStr, participants, history, hashSeed, hash, shuffle, solve);
      reply.Ok? && ReplyShows(reply.value, p, |participants|, PairingKey(seedStr, hashSeed(seedStr), p.matches, hash))
  {
    var seed := hashSeed(seedStr);
    MatchMembersSizes(participants, history, seed, shuffle, solve);
    MatchMembersPartition(participants, history, seed, shuffle, solve);
    ReplyOfPartition(p, participants, PairingKey(seedStr, seed, p.matches, hash));
  }

  lemma ReplyOfPartition(p: Pairing<UserId>, participants: seq<UserId>, key: string)
    requires forall k :: 0 <= k < |p.matches| ==> 2 <= |p.matches[k]| <= 3
    requires multiset(Flatten(p.matches)) == multiset(participants) && |participants| >= 2
    requires '\n' !in key
    ensures |p.matches| >= 1
    ensures Split(CreateReply(p.matches, p.imperfect, key), '\n') ==
      FormatMatches(p.matches) +
      [TotalLine(|participants|), ImperfectMessage(p.imperfect), KeyLine(key)]
    ensures LineIds(ImperfectMessage(p.imperfect)) == p.imperfect
  {
    SumLengthsOfPartition(p.matches, participants);
    assert SumLengths(p.matches) >= 2;
    ReplyLines(p.matches, p.imperfect, key);
    ImperfectMessageIds(p.imperfect);
  }
}
