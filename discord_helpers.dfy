/** `src/discord_helpers.rs`: reading the history channel back into groups of
    user ids (`previous_matches`) and the participant check in front of
    `graph_pair` (`match_members`). The Discord calls themselves are left to
    the caller: the fetched messages, the clock and the member list arrive as
    parameters. */
module DiscordHelpers {
  import opened Prelude
  import opened Seqs
  import opened UserIds
  import opened Helpers
  import opened Pair
  import opened Matching
  import opened MatchingLemmas
  import opened IdPairingLemmas
  import opened GraphPairLemmas

  // ---------------------------------------------------------------- mentions

  /** The length of the run of decimal digits at the start of `s`. */
  function DigitRun(s: string): (n: nat)
    ensures n <= |s| && AllDigits(s[..n])
    ensures n < |s| ==> !IsDigit(s[n])
  {
    if s == [] || !IsDigit(s[0]) then 0
    else
      var n := 1 + DigitRun(s[1..]);
      assert s[..n] == [s[0]] + s[1..][..n - 1];
      n
  }

  /** The pattern `<@([0-9]+)>` matches at the start of `s`. Since the digits
      are followed by `>`, the greedy digit run is the only candidate. */
  predicate MentionAt(s: string)
  {
    && |s| >= 4 && s[0] == '<' && s[1] == '@'
    && 1 <= DigitRun(s[2..]) && 2 + DigitRun(s[2..]) < |s|
    && s[2 + DigitRun(s[2..])] == '>'
  }

  /** Non-empty strings of decimal digits. */
  predicate DigitStrings(caps: seq<string>)
  {
    forall k :: 0 <= k < |caps| ==> |caps[k]| >= 1 && AllDigits(caps[k])
  }

  /** `Regex::captures_iter` with `<@([0-9]+)>`: the digit groups of the
      leftmost non-overlapping matches, from left to right. */
  function Captures(s: string): (r: seq<string>)
    ensures DigitStrings(r)
    decreases |s|
  {
    if s == [] then []
    else if MentionAt(s) then
      var n := DigitRun(s[2..]);
      assert s[2..2 + n] == s[2..][..n];
      [s[2..2 + n]] + Captures(s[3 + n..])
    else Captures(s[1..])
  }

  /** `flat_map(|id| id.parse().ok())`: captured digits that do not denote a
      valid user id are dropped without an error. */
  function ParsedIds(caps: seq<string>): (r: seq<UserId>)
    requires DigitStrings(caps)
    ensures |r| <= |caps|
  {
    if caps == [] then []
    else
      (match ParseUserId(caps[0]) case Some(id) => [id] case None => []) + ParsedIds(caps[1..])
  }

  /** The user ids mentioned on one line, in order. */
  function LineIds(line: string): seq<UserId>
  {
    ParsedIds(Captures(line))
  }

  /** The group of one line is kept when it names more than one user. */
  function LineGroups(lines: seq<string>): (r: seq<Match<UserId>>)
    ensures |r| <= |lines|
    ensures forall k :: 0 <= k < |r| ==> |r[k]| > 1
  {
    if lines == [] then []
    else
      var ids := LineIds(lines[0]);
      (if |ids| > 1 then [ids] else []) + LineGroups(lines[1..])
  }

  /** The groups one history message contributes: one per line at most. */
  function MessageGroups(content: string): (r: seq<Match<UserId>>)
    ensures |r| <= |Split(content, '\n')|
    ensures forall k :: 0 <= k < |r| ==> |r[k]| > 1
  {
    LineGroups(Split(content, '\n'))
  }

  // ------------------------------------------------------- scanning lemmas

  lemma {:induction false} DigitRunStops(d: string, t: string)
    requires AllDigits(d)
    requires t == [] || !IsDigit(t[0])
    ensures DigitRun(d + t) == |d|
  {
    if d != [] {
      assert (d + t)[1..] == d[1..] + t;
      DigitRunStops(d[1..], t);
    }
  }

  /** Text without `<` contributes no capture. */
  lemma {:induction false} CapturesSkip(x: string, rest: string)
    requires '<' !in x
    ensures Captures(x + rest) == Captures(rest)
  {
    if x != [] {
      var s := x + rest;
      assert s[0] == x[0];
      assert !MentionAt(s);
      assert s[1..] == x[1..] + rest;
      assert Captures(s) == Captures(s[1..]);
      CapturesSkip(x[1..], rest);
    } else {
      assert x + rest == rest;
    }
  }

  /** A well-formed token is captured, and scanning resumes right after it. */
  lemma CapturesToken(d: string, rest: string)
    requires |d| >= 1 && AllDigits(d)
    ensures Captures("<@" + d + ">" + rest) == [d] + Captures(rest)
  {
    var s := "<@" + d + ">" + rest;
    assert s[2..] == d + (">" + rest);
    DigitRunStops(d, ">" + rest);
    assert s[2 + |d|] == '>';
    assert MentionAt(s);
    assert s[2..2 + |d|] == d;
    assert s[3 + |d|..] == rest;
  }

  /** The digits of each rendered id. */
  function Decimals(ids: seq<UserId>): (r: seq<string>)
    ensures |r| == |ids| && forall k :: 0 <= k < |ids| ==> r[k] == Decimal(ids[k])
  {
    seq(|ids|, k requires 0 <= k < |ids| => Decimal(ids[k]))
  }

  lemma CapturesId(id: UserId, rest: string)
    ensures Captures(FormatId(id) + rest) == [Decimal(id)] + Captures(rest)
  {
    CapturesToken(Decimal(id), rest);
  }

  /** Scanning ids joined by `, ` yields their digits in order. */
  lemma {:induction false} CapturesJoined(ids: seq<UserId>, tail: string)
    ensures Captures(Join(FormatIds(ids), ", ") + tail) == Decimals(ids) + Captures(tail)
  {
    if |ids| <= 1 {
      CapturesJoinedShort(ids, tail);
    } else {
      CapturesJoinedStep(ids, tail);
      CapturesJoined(ids[1..], tail);
      DecimalsCons(ids, Captures(tail));
    }
  }

  lemma DecimalsCons(ids: seq<UserId>, rest: seq<string>)
    requires |ids| >= 1
    ensures [Decimal(ids[0])] + (Decimals(ids[1..]) + rest) == Decimals(ids) + rest
  {
    assert Decimals(ids) == [Decimal(ids[0])] + Decimals(ids[1..]);
  }

  lemma CapturesJoinedShort(ids: seq<UserId>, tail: string)
    requires |ids| <= 1
    ensures Captures(Join(FormatIds(ids), ", ") + tail) == Decimals(ids) + Captures(tail)
  {
    var f := FormatIds(ids);
    if |ids| == 0 {
      assert Join(f, ", ") + tail == tail;
      assert Decimals(ids) + Captures(tail) == Captures(tail);
    } else {
      assert Join(f, ", ") == FormatId(ids[0]);
      CapturesId(ids[0], tail);
      assert Decimals(ids) == [Decimal(ids[0])];
    }
  }

  lemma CapturesJoinedStep(ids: seq<UserId>, tail: string)
    requires |ids| > 1
    ensures Captures(Join(FormatIds(ids), ", ") + tail) ==
      [Decimal(ids[0])] + Captures(Join(FormatIds(ids[1..]), ", ") + tail)
  {
    var f := FormatIds(ids);
    assert f[0] == FormatId(ids[0]);
    assert f[1..] == FormatIds(ids[1..]);
    var more := Join(FormatIds(ids[1..]), ", ");
    assert Join(f, ", ") == f[0] + ", " + more;
    var t := ", " + (more + tail);
    Regroup(FormatId(ids[0]), ", ", more, tail);
    CapturesId(ids[0], t);
    CapturesSkip(", ", more + tail);
  }

  /** The digits of valid ids parse back to the ids. */
  lemma {:induction false} ParsedDecimals(ids: seq<UserId>)
    ensures ParsedIds(Decimals(ids)) == ids
  {
    if ids != [] {
      ParseDisplayedId(ids[0]);
      assert Decimals(ids)[1..] == Decimals(ids[1..]);
      ParsedDecimals(ids[1..]);
    }
  }

  /** Reading a rendered match gives back its members, in order. */
  lemma LineIdsOfMatch(p: Match<UserId>)
    requires |p| >= 1
    ensures LineIds(FormatMatch(p)) == p
  {
    CapturesOfMatch(p);
    ParsedDecimals(p);
  }

  lemma CapturesOfMatch(p: Match<UserId>)
    requires |p| >= 1
    ensures Captures(FormatMatch(p)) == Decimals(p)
  {
    var init := p[..|p| - 1];
    var last := p[|p| - 1];
    var sep := LastSeparator(|p|);
    assert FormatMatch(p) == Join(FormatIds(init), ", ") + (sep + FormatId(last));
    CapturesJoined(init, sep + FormatId(last));
    CapturesLast(sep, last);
    DecimalsSnoc(p);
  }

  lemma DecimalsSnoc(p: seq<UserId>)
    requires |p| >= 1
    ensures Decimals(p[..|p| - 1]) + [Decimal(p[|p| - 1])] == Decimals(p)
  {
  }

  lemma CapturesLast(sep: string, last: UserId)
    requires '<' !in sep
    ensures Captures(sep + FormatId(last)) == [Decimal(last)]
  {
    CapturesSkip(sep, FormatId(last));
    CapturesId(last, []);
    assert FormatId(last) + [] == FormatId(last);
  }

  /** A nickname mention `<@!id>` is not recognised. */
  lemma NicknameMentionIgnored(id: UserId)
    ensures LineIds("<@!" + Decimal(id) + ">") == []
  {
    var s := "<@!" + Decimal(id) + ">";
    assert !IsDigit(s[2..][0]);
    assert !MentionAt(s);
    assert '<' !in s[1..];
    CapturesSkip(s[1..], []);
    assert s[1..] + [] == s[1..];
  }

  /** A token with a non-digit inside, such as `<@x>`, is not recognised. */
  lemma NonDigitMentionIgnored(c: char)
    requires !IsDigit(c) && c != '<'
    ensures LineIds("<@" + [c] + ">") == []
  {
    var s := "<@" + [c] + ">";
    assert !MentionAt(s);
    assert '<' !in s[1..];
    CapturesSkip(s[1..], []);
    assert s[1..] + [] == s[1..];
  }

  /** A token whose number is zero or does not fit in 64 bits is dropped. */
  lemma InvalidIdDropped(n: nat)
    requires n == 0 || n >= U64Limit
    ensures LineIds("<@" + Decimal(n) + ">") == []
  {
    CapturesToken(Decimal(n), []);
    assert "<@" + Decimal(n) + ">" + [] == "<@" + Decimal(n) + ">";
    DecimalRoundTrip(n);
  }

  // -------------------------------------------------------- grouping lemmas

  lemma {:induction false} LineGroupsAppend(a: seq<string>, b: seq<string>)
    ensures LineGroups(a + b) == LineGroups(a) + LineGroups(b)
  {
    if a != [] {
      assert (a + b)[0] == a[0];
      assert (a + b)[1..] == a[1..] + b;
      LineGroupsAppend(a[1..], b);
      var ids := LineIds(a[0]);
      var head := if |ids| > 1 then [ids] else [];
      assert LineGroups(a) == head + LineGroups(a[1..]);
      assert LineGroups(a + b) == head + LineGroups(a[1..] + b);
    } else {
      assert a + b == b;
    }
  }

  /** No group spans a line break: the groups of two lines of text are the
      groups of the first followed by those of the rest. */
  lemma MessageGroupsLines(a: string, b: string)
    requires '\n' !in a
    ensures MessageGroups(a + "\n" + b) == MessageGroups(a) + MessageGroups(b)
  {
    SplitPrefix(a, '\n', b);
    SplitNoSeparator(a, '\n');
    LineGroupsAppend([a], Split(b, '\n'));
  }

  /** The rendered matches read back as the matches with more than one member. */
  lemma {:induction false} LineGroupsOfMatches(pairs: seq<Match<UserId>>)
    requires forall k :: 0 <= k < |pairs| ==> |pairs[k]| >= 1
    ensures LineGroups(FormatMatches(pairs)) == Filter(pairs, (p: Match<UserId>) => |p| > 1)
  {
    if pairs != [] {
      LineIdsOfMatch(pairs[0]);
      assert FormatMatches(pairs)[1..] == FormatMatches(pairs[1..]);
      LineGroupsOfMatches(pairs[1..]);
    }
  }

  /** A message holding `format_pairs` output reads back as the pairing's
      matches, leaving out single-member matches. */
  lemma MessageGroupsOfPairs(pairs: seq<Match<UserId>>)
    requires forall k :: 0 <= k < |pairs| ==> |pairs[k]| >= 1
    ensures MessageGroups(FormatPairs(pairs)) == Filter(pairs, (p: Match<UserId>) => |p| > 1)
  {
    if pairs != [] {
      FormatPairsLines(pairs);
    }
    LineGroupsOfMatches(pairs);
  }

  // ---------------------------------------------------------------- history

  /** A message of the history channel: its creation time in seconds and its text. */
  datatype Message = Message(timestamp: int, content: string)

  /** One item of the channel's message stream. */
  datatype Fetch = Fetched(message: Message) | FetchFailed(reason: string)

  const MaxMessagesToRequest: nat := 1000

  /** `Duration::days(365)`, in seconds. */
  const HistoryWindow: int := 365 * 24 * 60 * 60

  /** Extends an outcome with groups read earlier. */
  function Prepend(groups: seq<Match<UserId>>, r: Result<seq<Match<UserId>>>): Result<seq<Match<UserId>>>
  {
    if r.Ok? then Ok(groups + r.value) else r
  }

  /** The groups of the messages up to the first one older than `cutoff`
      (newest first, as the channel returns them), or the error of the first
      message that could not be fetched. */
  function HistoryGroups(messages: seq<Fetch>, cutoff: int): Result<seq<Match<UserId>>>
  {
    if messages == [] then Ok([])
    else
      match messages[0]
      case FetchFailed(reason) => Err(HistoryFetchFailed(reason))
      case Fetched(m) =>
        if m.timestamp < cutoff then Ok([])
        else Prepend(MessageGroups(m.content), HistoryGroups(messages[1..], cutoff))
  }

  /** The stream stops being read at a fetch error or at an old message. */
  predicate Stops(f: Fetch, cutoff: int)
  {
    f.FetchFailed? || f.message.timestamp < cutoff
  }

  /** The position of the first item that stops the reading. */
  function Horizon(messages: seq<Fetch>, cutoff: int): (h: nat)
    ensures h <= |messages|
    ensures forall k :: 0 <= k < h ==> !Stops(messages[k], cutoff)
    ensures h < |messages| ==> Stops(messages[h], cutoff)
  {
    if messages == [] || Stops(messages[0], cutoff) then 0
    else 1 + Horizon(messages[1..], cutoff)
  }

  /** The groups of each message before the horizon. */
  function GroupsBefore(messages: seq<Fetch>, h: nat): seq<seq<Match<UserId>>>
    requires h <= |messages|
    requires forall k :: 0 <= k < h ==> messages[k].Fetched?
  {
    seq(h, k requires 0 <= k < h => MessageGroups(messages[k].message.content))
  }

  /** What reading the history should give: the error of a fetch failure at
      the horizon, or the groups of all messages before it. */
  function ExpectedHistory(messages: seq<Fetch>, cutoff: int): Result<seq<Match<UserId>>>
  {
    var h := Horizon(messages, cutoff);
    if h < |messages| && messages[h].FetchFailed? then Err(HistoryFetchFailed(messages[h].reason))
    else Ok(Flatten(GroupsBefore(messages, h)))
  }

  /** History reading fails exactly when a fetch error comes before every old
      message; otherwise it is the groups of all messages before the first old
      one, in message order. */
  lemma HistoryGroupsSpec(messages: seq<Fetch>, cutoff: int)
    ensures var h := Horizon(messages, cutoff);
      HistoryGroups(messages, cutoff) ==
        if h < |messages| && messages[h].FetchFailed? then Err(HistoryFetchFailed(messages[h].reason))
        else Ok(Flatten(GroupsBefore(messages, h)))
  {
    HistoryGroupsExpected(messages, cutoff);
  }

  lemma {:induction false} HistoryGroupsExpected(messages: seq<Fetch>, cutoff: int)
    ensures HistoryGroups(messages, cutoff) == ExpectedHistory(messages, cutoff)
  {
    if messages != [] && !Stops(messages[0], cutoff) {
      HistoryGroupsExpected(messages[1..], cutoff);
      ExpectedHistoryCons(messages, cutoff);
    }
  }

  /** Past a message that does not stop the reading, the expected outcome is
      that message's groups in front of the expected outcome of the rest. */
  lemma ExpectedHistoryCons(messages: seq<Fetch>, cutoff: int)
    requires messages != [] && !Stops(messages[0], cutoff)
    ensures ExpectedHistory(messages, cutoff) ==
      Prepend(MessageGroups(messages[0].message.content), ExpectedHistory(messages[1..], cutoff))
  {
    var h := Horizon(messages, cutoff);
    assert h == 1 + Horizon(messages[1..], cutoff);
    GroupsBeforeCons(messages, h);
    if h < |messages| {
      assert messages[h] == messages[1..][h - 1];
    }
  }

  lemma GroupsBeforeCons(messages: seq<Fetch>, h: nat)
    requires 1 <= h <= |messages|
    requires forall k :: 0 <= k < h ==> messages[k].Fetched?
    ensures Flatten(GroupsBefore(messages, h)) ==
      MessageGroups(messages[0].message.content) + Flatten(GroupsBefore(messages[1..], h - 1))
  {
    assert GroupsBefore(messages, h)[1..] == GroupsBefore(messages[1..], h - 1);
    assert GroupsBefore(messages, h)[0] == MessageGroups(messages[0].message.content);
  }

  lemma PrependNothing(r: Result<seq<Match<UserId>>>)
    ensures Prepend([], r) == r
  {
    if r.Ok? {
      assert [] + r.value == r.value;
    }
  }

  lemma PrependAppend(a: seq<Match<UserId>>, b: seq<Match<UserId>>, r: Result<seq<Match<UserId>>>)
    ensures Prepend(a, Prepend(b, r)) == Prepend(a + b, r)
  {
    if r.Ok? {
      assert a + (b + r.value) == (a + b) + r.value;
    }
  }

  /** `previous_matches`: reads at most `MaxMessagesToRequest` messages and
      stops at the first message older than a year before `now`. The clock is
      read once; the source reads it again for every message. */
  method PreviousMatches(fetched: seq<Fetch>, now: int) returns (r: Result<seq<Match<UserId>>>)
    ensures r == HistoryGroups(Take(fetched, MaxMessagesToRequest), now - HistoryWindow)
  {
    var messages := Take(fetched, MaxMessagesToRequest);
    var cutoff := now - HistoryWindow;
    var pairings: seq<Match<UserId>> := [];
    var i := 0;
    assert messages[0..] == messages;
    PrependNothing(HistoryGroups(messages, cutoff));
    while i < |messages|
      invariant 0 <= i <= |messages|
      invariant HistoryGroups(messages, cutoff) == Prepend(pairings, HistoryGroups(messages[i..], cutoff))
    {
      assert messages[i..][1..] == messages[i + 1..];
      match messages[i]
      case FetchFailed(reason) =>
        return Err(HistoryFetchFailed(reason));
      case Fetched(message) =>
        if message.timestamp < cutoff {
          break;
        }
        PrependAppend(pairings, MessageGroups(message.content), HistoryGroups(messages[i + 1..], cutoff));
        pairings := pairings + MessageGroups(message.content);
      i := i + 1;
    }
    assert pairings + [] == pairings;
    return Ok(pairings);
  }

  // ---------------------------------------------------------- match_members

  /** `match_members`: at most one participant is an error of its own; the
      history is read only after that check and its error is passed on;
      otherwise the participants are paired with `graph_pair`. */
  function MatchMembers(participants: seq<UserId>, history: Result<seq<Match<UserId>>>, seed: u64,
                        shuffle: Shuffler<UserId>, solve: Solver): Result<Pairing<UserId>>
    requires IsShuffler(shuffle) && IsSolver(solve)
  {
    if |participants| <= 1 then Err(NotEnoughMembers(|participants|))
    else if history.Err? then Err(history.error)
    else GraphPair(participants, history.value, seed, shuffle, solve)
  }

  /** The participant check fires exactly for zero or one member, reports the
      count, and makes `graph_pair`'s own "too few" error unreachable. */
  lemma MatchMembersErrors(participants: seq<UserId>, history: Result<seq<Match<UserId>>>, seed: u64,
                           shuffle: Shuffler<UserId>, solve: Solver)
    requires IsShuffler(shuffle) && IsSolver(solve)
    requires history.Err? ==> history.error.HistoryFetchFailed?
    ensures var r := MatchMembers(participants, history, seed, shuffle, solve);
      && ((r.Err? && r.error.NotEnoughMembers?) <==> |participants| <= 1)
      && (|participants| <= 1 ==> r.error.found == |participants|)
      && r != Err(TooFewElements)
      && (r.Err? ==> r.error.NotEnoughMembers? || r.error.HistoryFetchFailed?
                     || r.error == TooManyElements || r.error == EmptyMatching)
  {
    if 2 <= |participants| <= GraphPairLimit && history.Ok? {
      GraphPairUnfold(participants, history.value, seed, shuffle, solve);
      var (g, c) := RoundGraph(participants, history.value, seed, shuffle);
      IdPairingErrors(g, c, solve(g));
    }
  }

  /** A successful round pairs every participant exactly once. */
  lemma MatchMembersPartition(participants: seq<UserId>, history: Result<seq<Match<UserId>>>, seed: u64,
                              shuffle: Shuffler<UserId>, solve: Solver)
    requires IsShuffler(shuffle) && IsSolver(solve)
    requires MatchMembers(participants, history, seed, shuffle, solve).Ok?
    ensures history.Ok? && |participants| >= 2
    ensures multiset(Flatten(MatchMembers(participants, history, seed, shuffle, solve).value.matches))
      == multiset(participants)
  {
    GraphPairPartition(participants, history.value, seed, shuffle, solve);
  }

  /** Every match of a successful round has two or three members. */
  lemma MatchMembersSizes(participants: seq<UserId>, history: Result<seq<Match<UserId>>>, seed: u64,
                          shuffle: Shuffler<UserId>, solve: Solver)
    requires IsShuffler(shuffle) && IsSolver(solve)
    requires MatchMembers(participants, history, seed, shuffle, solve).Ok?
    ensures var ms := MatchMembers(participants, history, seed, shuffle, solve).value.matches;
      forall k :: 0 <= k < |ms| ==> 2 <= |ms[k]| <= 3
  {
    GraphPairSizes(participants, history.value, seed, shuffle, solve);
  }
}
