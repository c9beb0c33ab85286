/** The bet lifecycle engine of `src/betUtil.ts`: bet records, the team
    button toggle, the announcement's participant list, resolution with its
    planned side effects, timer arming and start-up recovery.

    The older single-file copy in `src/index.ts` runs the same engine; the
    `Edition` parameter carries its two differences (no cap on the listed
    participants, no currency reward step). Side effects are returned as a
    list of planned `Action`s in the order the source performs them; the
    store is a map from bet id to record and `Writes` applies the planned
    `Persist` actions to it. Time is integer milliseconds.
 */
module Bets {
  import opened Prelude
  import opened Dict
  import Timers

  // ---------------------------------------------------------------------------
  // Data model
  // ---------------------------------------------------------------------------

  datatype Team = Team1 | Team2 {
    /** The string stored in participant entries and button ids. */
    function Tag(): string {
      if Team1? then "TEAM_1" else "TEAM_2"
    }

    function Other(): Team {
      if Team1? then Team2 else Team1
    }
  }

  /** Which copy of the engine runs: `betUtil.ts` or the older `index.ts`. */
  datatype Edition = Current | Legacy

  /** At most this many participants are mentioned by name (Current only). */
  const ParticipantDisplayCap: nat := 43

  /** From this many participants on, the field label shows the count. */
  const CountShownFrom: nat := 10

  const MillisPerHour: int := 3600000

  /** A result time may lie at most 10 days ahead of the creation instant. */
  const MaxLeadMillis: int := 864000000

  /** `BetInfo`. `participants` maps user id to the team string of the
      button pressed; `winningTeam` is absent until resolution.
      `currencyReward` is always absent in the Legacy edition. */
  datatype BetRecord = BetRecord(
    betId: string,
    title: string,
    description: string,
    rewardText: string,
    currencyReward: Option<int>,
    resultTime: int,
    muteHours: real,
    channelId: string,
    messageId: string,
    participants: Dict<string>,
    hostName: string,
    hostPicture: string,
    pingRoleId: Option<string>,
    winningTeam: Option<Team>)

  /** The `bets` key-value namespace. */
  type Store = map<string, BetRecord>

  /** Every record is stored under its own id. */
  predicate WellKeyed(store: Store)
  {
    forall k :: k in store ==> store[k].betId == k
  }

  // ---------------------------------------------------------------------------
  // Team button ids
  // ---------------------------------------------------------------------------

  const EnterTeamPrefix: string := "enter-team"

  /** The custom id of a team button: `enter-team|TEAM|betId`. */
  function TeamButtonId(team: string, betId: string): string
  {
    EnterTeamPrefix + "|" + team + "|" + betId
  }

  /** The first three `|`-separated parts of a custom id. */
  datatype ButtonParts = ButtonParts(prefix: string, team: Option<string>, betId: Option<string>)

  function DecodeButtonId(customId: string): ButtonParts
  {
    var parts := Split(customId, '|');
    ButtonParts(parts[0], PartAt(parts, 1), PartAt(parts, 2))
  }

  /** A team button's id decodes to its team and bet, provided neither
      contains the separator. */
  lemma ButtonIdRoundTrip(team: string, betId: string)
    requires '|' !in team && '|' !in betId
    ensures DecodeButtonId(TeamButtonId(team, betId)) == ButtonParts(EnterTeamPrefix, Some(team), Some(betId))
  {
    var parts := [EnterTeamPrefix, team, betId];
    assert parts[1..] == [team, betId];
    assert parts[1..][1..] == [betId];
    assert Join([betId], '|') == betId;
    assert Join([team, betId], '|') == team + "|" + betId;
    assert Join(parts, '|') == EnterTeamPrefix + "|" + (team + "|" + betId);
    assert EnterTeamPrefix + "|" + (team + "|" + betId) == TeamButtonId(team, betId);
    SplitOfJoin(parts, '|');
  }

  // ---------------------------------------------------------------------------
  // The announcement's dynamic parts
  // ---------------------------------------------------------------------------

  datatype ResultField = AnnouncedAt(resultTime: int) | Won(team: Team) | NotEnoughParticipants

  /** The "Participants" field body: nobody, or the first ids mentioned by
      name followed by "and N others". */
  datatype ParticipantList = Nobody | Listed(shown: seq<string>, others: nat)

  datatype Button = EnterTeam(customId: string) | Finished

  datatype BetView = BetView(
    result: ResultField,
    countSuffix: Option<nat>,
    participants: ParticipantList,
    buttons: seq<Button>)

  /** The participant list for the ids in key order. */
  function ParticipantField(ids: seq<string>, edition: Edition): (l: ParticipantList)
    ensures l.Nobody? <==> |ids| == 0
    ensures l.Listed? ==> l.shown <= ids && |l.shown| + l.others == |ids|
    ensures l.Listed? && edition == Current ==> |l.shown| == Min(|ids|, ParticipantDisplayCap)
    ensures l.Listed? && edition == Legacy ==> l.shown == ids
  {
    if |ids| == 0 then Nobody
    else if edition == Current && |ids| > ParticipantDisplayCap then
      Listed(ids[..ParticipantDisplayCap], |ids| - ParticipantDisplayCap)
    else Listed(ids, 0)
  }

  /** The ` (N)` suffix of the field label. */
  function CountSuffix(n: nat): (s: Option<nat>)
    ensures s.Some? <==> n >= CountShownFrom
    ensures s.Some? ==> s.value == n
  {
    if n >= CountShownFrom then Some(n) else None
  }

  /** `generateBetMessage`, reduced to what depends on the record's state. */
  function Render(bet: BetRecord, edition: Edition): BetView
  {
    var ids := Keys(bet.participants);
    BetView(
      match bet.winningTeam
      case Some(t) => if |ids| > 0 then Won(t) else NotEnoughParticipants
      case None => AnnouncedAt(bet.resultTime),
      CountSuffix(|ids|),
      ParticipantField(ids, edition),
      if bet.winningTeam.Some? then [Finished]
      else [EnterTeam(TeamButtonId(Team1.Tag(), bet.betId)), EnterTeam(TeamButtonId(Team2.Tag(), bet.betId))])
  }

  /** An open bet shows one button per team, each leading back to this bet
      with that team; a resolved one shows only the disabled "finished" button. */
  lemma RenderButtons(bet: BetRecord, edition: Edition)
    requires '|' !in bet.betId
    ensures bet.winningTeam.Some? ==> Render(bet, edition).buttons == [Finished]
    ensures bet.winningTeam.None? ==>
      && |Render(bet, edition).buttons| == 2
      && DecodeButtonId(Render(bet, edition).buttons[0].customId) == ButtonParts(EnterTeamPrefix, Some("TEAM_1"), Some(bet.betId))
      && DecodeButtonId(Render(bet, edition).buttons[1].customId) == ButtonParts(EnterTeamPrefix, Some("TEAM_2"), Some(bet.betId))
  {
    ButtonIdRoundTrip("TEAM_1", bet.betId);
    ButtonIdRoundTrip("TEAM_2", bet.betId);
  }

  /** Nobody is hidden from the participant field: the listed ids and the
      "others" count account for every participant, the label shows the
      count from ten participants on, and "nobody" appears only for an
      empty bet. */
  lemma RenderParticipants(bet: BetRecord, edition: Edition)
    ensures var v := Render(bet, edition);
      && (v.participants.Nobody? <==> |bet.participants| == 0)
      && (v.participants.Listed? ==> |v.participants.shown| + v.participants.others == |bet.participants|)
      && (v.countSuffix.Some? <==> |bet.participants| >= CountShownFrom)
      && (v.countSuffix.Some? ==> v.countSuffix.value == |bet.participants|)
      && (edition == Legacy && v.participants.Listed? ==> v.participants.shown == Keys(bet.participants) && v.participants.others == 0)
  {
  }

  // ---------------------------------------------------------------------------
  // Planned side effects
  // ---------------------------------------------------------------------------

  /** The ephemeral reply to a team button press. */
  datatype Reply = NoLongerValid | Withdrew | Joined(team: string)

  datatype Action =
    | PostAnnouncement(view: BetView)
    | Persist(key: string, bet: BetRecord)
    | ReplyToPress(reply: Reply)
    | EditAnnouncement(view: BetView)
    | AnnounceWinners(winningTeam: Team, winners: seq<string>)
    | AnnounceLosers(losingTeam: Team, losers: seq<string>, muteHours: real)
    | Penalize(userId: string, until: real, durationMs: real)
    | Credit(userId: string, amount: int)

  /** The store after the planned `Persist` actions, in order. */
  function Writes(store: Store, acts: seq<Action>): Store
    decreases |acts|
  {
    if |acts| == 0 then store
    else Writes(if acts[0].Persist? then store[acts[0].key := acts[0].bet] else store, acts[1..])
  }

  predicate NoWrites(acts: seq<Action>)
  {
    forall i :: 0 <= i < |acts| ==> !acts[i].Persist?
  }

  /** Appending a plan without writes keeps the writes to the first action. */
  lemma NoWritesAfterFirst(a: seq<Action>, b: seq<Action>)
    requires |a| >= 1 && NoWrites(a[1..]) && NoWrites(b)
    ensures (a + b)[0] == a[0] && NoWrites((a + b)[1..])
  {
    assert (a + b)[1..] == a[1..] + b;
  }

  lemma {:induction false} WritesNothing(store: Store, acts: seq<Action>)
    requires NoWrites(acts)
    ensures Writes(store, acts) == store
    decreases |acts|
  {
    if |acts| > 0 {
      WritesNothing(store, acts[1..]);
    }
  }

  /** A plan whose only write is its first action writes exactly that. */
  lemma WritesFirstOnly(store: Store, acts: seq<Action>)
    requires |acts| >= 1 && acts[0].Persist? && NoWrites(acts[1..])
    ensures Writes(store, acts) == store[acts[0].key := acts[0].bet]
  {
    WritesNothing(store[acts[0].key := acts[0].bet], acts[1..]);
  }

  // ---------------------------------------------------------------------------
  // Joining, switching and withdrawing
  // ---------------------------------------------------------------------------

  /** The participant entry change of a team button press: pressing one's
      own team withdraws, any other press joins or switches to that team. */
  function Toggle(p: Dict<string>, user: string, team: string): (r: Dict<string>)
    ensures Get(p, user) == Some(team) ==> Get(r, user) == None
    ensures Get(p, user) != Some(team) ==> Get(r, user) == Some(team)
    ensures forall other :: other != user ==> Get(r, other) == Get(p, other)
    ensures Valid(p) ==> Valid(r)
    ensures Get(p, user).Some? && Get(p, user) != Some(team) ==> Keys(r) == Keys(p)
    ensures Get(p, user).None? ==> Keys(r) == Keys(p) + [user]
  {
    if Get(p, user) == Some(team) then Delete(p, user) else Put(p, user, team)
  }

  /** A bet accepts presses while it exists, its result time has not
      passed, and no winner is recorded. */
  predicate Open(store: Store, betId: string, now: int)
  {
    betId in store && !(store[betId].resultTime < now) && store[betId].winningTeam.None?
  }

  /** `handleBetButtonInteraction` once the id is decoded: reject a missing,
      expired or resolved bet without writing; otherwise toggle the user's
      entry, persist the record, reply, then refresh the announcement. */
  function PressTeam(store: Store, team: string, betId: string, user: string, now: int, edition: Edition): (acts: seq<Action>)
    ensures !Open(store, betId, now) ==> acts == [ReplyToPress(NoLongerValid)] && Writes(store, acts) == store
    ensures Open(store, betId, now) ==>
      && |acts| == 3
      && acts[0].Persist? && acts[0].key == betId
      && acts[0].bet == store[betId].(participants := acts[0].bet.participants)
      && acts[0].bet.participants == Toggle(store[betId].participants, user, team)
      && acts[1] == ReplyToPress(if Get(store[betId].participants, user) == Some(team) then Withdrew else Joined(team))
      && acts[2] == EditAnnouncement(Render(acts[0].bet, edition))
      && Writes(store, acts) == store[betId := acts[0].bet]
  {
    if !Open(store, betId, now) then
      [ReplyToPress(NoLongerValid)]
    else
      var bet := store[betId];
      var entered := bet.(participants := Toggle(bet.participants, user, team));
      var reply := if Get(bet.participants, user) == Some(team) then Withdrew else Joined(team);
      var acts := [Persist(betId, entered), ReplyToPress(reply), EditAnnouncement(Render(entered, edition))];
      assert NoWrites(acts[1..]);
      WritesFirstOnly(store, acts);
      acts
  }

  /** The whole button handler of `betUtil.ts`: split the custom id and press
      the team in its second part for the bet in its third. An id with fewer
      than three parts names no stored bet and is rejected. */
  function HandleBetButton(store: Store, customId: string, user: string, now: int): (acts: seq<Action>)
    ensures var b := DecodeButtonId(customId);
      b.betId.None? ==> acts == [ReplyToPress(NoLongerValid)]
    ensures var b := DecodeButtonId(customId);
      b.betId.Some? ==> b.team.Some? && acts == PressTeam(store, b.team.value, b.betId.value, user, now, Current)
  {
    var parts := Split(customId, '|');
    if |parts| < 3 then [ReplyToPress(NoLongerValid)]
    else PressTeam(store, parts[1], parts[2], user, now, Current)
  }

  /** Pressing the same team twice: join then withdraw. The user ends up
      without an entry and nobody else's entry moves. */
  lemma PressSameTeamTwice(store: Store, team: string, betId: string, user: string, now: int, edition: Edition)
    requires Open(store, betId, now)
    requires Get(store[betId].participants, user) != Some(team)
    ensures var s1 := Writes(store, PressTeam(store, team, betId, user, now, edition));
      var s2 := Writes(s1, PressTeam(s1, team, betId, user, now, edition));
      && PressTeam(store, team, betId, user, now, edition)[1] == ReplyToPress(Joined(team))
      && PressTeam(s1, team, betId, user, now, edition)[1] == ReplyToPress(Withdrew)
      && Get(s2[betId].participants, user) == None
      && forall other :: other != user ==> Get(s2[betId].participants, other) == Get(store[betId].participants, other)
  {
    var s1 := Writes(store, PressTeam(store, team, betId, user, now, edition));
    assert Open(s1, betId, now);
  }

  /** Pressing one team and then the other leaves the user on the second
      team: a switch, not a second entry. */
  lemma PressOtherTeam(store: Store, a: string, b: string, betId: string, user: string, now: int, edition: Edition)
    requires Open(store, betId, now) && a != b
    ensures var s1 := Writes(store, PressTeam(store, a, betId, user, now, edition));
      var s2 := Writes(s1, PressTeam(s1, b, betId, user, now, edition));
      && Get(s2[betId].participants, user) == Some(b)
      && PressTeam(s1, b, betId, user, now, edition)[1] == ReplyToPress(Joined(b))
      && forall other :: other != user ==> Get(s2[betId].participants, other) == Get(store[betId].participants, other)
  {
    var s1 := Writes(store, PressTeam(store, a, betId, user, now, edition));
    assert Open(s1, betId, now);
  }

  /** Once a press is rejected because the result time passed, every later
      press is rejected too. */
  lemma ExpiryIsPermanent(store: Store, team: string, betId: string, user: string, now: int, later: int, edition: Edition)
    requires betId in store && store[betId].resultTime < now <= later
    ensures PressTeam(store, team, betId, user, later, edition) == [ReplyToPress(NoLongerValid)]
  {
  }

  // ---------------------------------------------------------------------------
  // Resolution
  // ---------------------------------------------------------------------------

  /** What resolution learns from the outside world: whether the channel and
      announcement message can still be fetched, and the guild's reward
      service token, if configured. */
  datatype Env = Env(messageFound: bool, rewardToken: Option<string>)

  /** Winners and losers in participant order: an entry whose team string
      equals the winning tag wins, every other entry loses. */
  function Partition(p: Dict<string>, winTag: string): (r: (seq<string>, seq<string>))
    ensures Valid(p) ==> forall u :: u in r.0 <==> Get(p, u) == Some(winTag)
    ensures Valid(p) ==> forall u :: u in r.1 <==> Get(p, u).Some? && Get(p, u) != Some(winTag)
    ensures |r.0| + |r.1| == |p|
    decreases |p|
  {
    if |p| == 0 then ([], [])
    else
      var rest := Partition(p[1..], winTag);
      if p[0].1 == winTag then ([p[0].0] + rest.0, rest.1) else (rest.0, [p[0].0] + rest.1)
  }

  /** Winners and losers are disjoint and together are exactly the participants. */
  lemma PartitionCovers(p: Dict<string>, winTag: string)
    requires Valid(p)
    ensures var r := Partition(p, winTag);
      && (forall u :: !(u in r.0 && u in r.1))
      && (forall u :: u in r.0 || u in r.1 <==> u in Keys(p))
  {
  }

  /** JavaScript truthiness of an optional amount: absent and 0 are false. */
  predicate Truthy(amount: Option<int>) { amount.Some? && amount.value != 0 }

  predicate HasToken(token: Option<string>) { token.Some? && token.value != "" }

  /** The instant a loser's timeout ends: the scheduled result time plus
      the mute duration, whenever resolution actually runs. */
  function PenaltyEnd(bet: BetRecord): real
  {
    bet.resultTime as real + bet.muteHours * MillisPerHour as real
  }

  /** The record with the winner committed. */
  function Decided(bet: BetRecord, coin: Team): BetRecord
  {
    bet.(winningTeam := Some(coin))
  }

  function Winners(bet: BetRecord, coin: Team): seq<string>
  {
    Partition(bet.participants, coin.Tag()).0
  }

  function Losers(bet: BetRecord, coin: Team): seq<string>
  {
    Partition(bet.participants, coin.Tag()).1
  }

  /** The commit, the announcement refresh and the two result messages. */
  function Announced(bet: BetRecord, coin: Team, edition: Edition): (acts: seq<Action>)
    ensures |acts| == 4 && acts[0] == Persist(bet.betId, Decided(bet, coin)) && NoWrites(acts[1..])
    ensures forall a :: a in acts ==> !a.Penalize? && !a.Credit?
  {
    [Persist(bet.betId, Decided(bet, coin)), EditAnnouncement(Render(Decided(bet, coin), edition)),
     AnnounceWinners(coin, Winners(bet, coin)), AnnounceLosers(coin.Other(), Losers(bet, coin), bet.muteHours)]
  }

  /** One timeout per loser, each ending at the penalty end. */
  function Penalties(losers: seq<string>, until: real, now: int): (acts: seq<Action>)
    ensures |acts| == |losers|
    ensures forall i :: 0 <= i < |acts| ==> acts[i] == Penalize(losers[i], until, until - now as real)
    ensures NoWrites(acts)
  {
    seq(|losers|, i requires 0 <= i < |losers| => Penalize(losers[i], until, until - now as real))
  }

  /** Whether the reward step credits winners. */
  predicate PaysRewards(bet: BetRecord, env: Env, edition: Edition)
  {
    edition == Current && Truthy(bet.currencyReward) && HasToken(env.rewardToken)
  }

  /** One credit of the bet's reward per winner, when the reward step runs. */
  function Rewards(bet: BetRecord, coin: Team, env: Env, edition: Edition): (acts: seq<Action>)
    ensures !PaysRewards(bet, env, edition) ==> acts == []
    ensures PaysRewards(bet, env, edition) ==> |acts| == |Winners(bet, coin)|
    ensures forall i :: 0 <= i < |acts| ==> acts[i] == Credit(Winners(bet, coin)[i], bet.currencyReward.value)
    ensures NoWrites(acts)
  {
    if PaysRewards(bet, env, edition) then
      var ws := Winners(bet, coin);
      seq(|ws|, i requires 0 <= i < |ws| => Credit(ws[i], bet.currencyReward.value))
    else []
  }

  /** The full resolution of a bet with participants whose announcement
      still exists: commit, refresh, result messages, timeouts, credits. */
  function Settlement(bet: BetRecord, coin: Team, env: Env, now: int, edition: Edition): (acts: seq<Action>)
    ensures |acts| >= 4 && acts[0] == Persist(bet.betId, Decided(bet, coin)) && NoWrites(acts[1..])
  {
    var head := Announced(bet, coin, edition);
    var pens := Penalties(Losers(bet, coin), PenaltyEnd(bet), now);
    var rewards := Rewards(bet, coin, env, edition);
    NoWritesAfterFirst(head, pens);
    NoWritesAfterFirst(head + pens, rewards);
    head + pens + rewards
  }

  /** `endBet`. A bet with a winner is left alone. Otherwise `coin` (the
      random draw) becomes the winner and is persisted first; the rest is
      best effort: refresh the announcement, and unless nobody joined,
      announce winners and losers, time out every loser until the penalty
      end, and credit every winner when a reward and a token exist. */
  function EndBet(bet: BetRecord, coin: Team, env: Env, now: int, edition: Edition): (acts: seq<Action>)
    ensures bet.winningTeam.Some? ==> acts == []
    ensures bet.winningTeam.None? ==>
      && |acts| >= 1
      && acts[0] == Persist(bet.betId, Decided(bet, coin))
      && NoWrites(acts[1..])
  {
    if bet.winningTeam.Some? then []
    else if !env.messageFound then [Persist(bet.betId, Decided(bet, coin))]
    else if |Keys(bet.participants)| == 0 then
      [Persist(bet.betId, Decided(bet, coin)), EditAnnouncement(Render(Decided(bet, coin), edition))]
    else Settlement(bet, coin, env, now, edition)
  }

  /** Resolution writes exactly one record: the bet with its winner, under
      the bet's id, and never touches another bet. */
  lemma EndBetCommit(store: Store, bet: BetRecord, coin: Team, env: Env, now: int, edition: Edition)
    ensures bet.winningTeam.Some? ==> Writes(store, EndBet(bet, coin, env, now, edition)) == store
    ensures bet.winningTeam.None? ==>
      Writes(store, EndBet(bet, coin, env, now, edition)) == store[bet.betId := Decided(bet, coin)]
  {
    var acts := EndBet(bet, coin, env, now, edition);
    if bet.winningTeam.None? {
      WritesFirstOnly(store, acts);
    }
  }

  /** What resolution announces. Without the announcement message only the
      commit happens. Otherwise the announcement is refreshed to show the
      decided bet; with participants, the drawn team is announced with
      exactly its members as winners, and the other team, never the drawn
      one, with every other participant as losers and the bet's mute hours. */
  lemma EndBetAnnounces(bet: BetRecord, coin: Team, env: Env, now: int, edition: Edition)
    requires Valid(bet.participants)
    ensures var acts := EndBet(bet, coin, env, now, edition);
      bet.winningTeam.None? && !env.messageFound ==> acts == [Persist(bet.betId, Decided(bet, coin))]
    ensures var acts := EndBet(bet, coin, env, now, edition);
      bet.winningTeam.None? && env.messageFound ==>
        && |acts| >= 2
        && acts[1] == EditAnnouncement(Render(Decided(bet, coin), edition))
        && (|bet.participants| == 0 ==> |acts| == 2)
        && (|bet.participants| > 0 ==> |acts| >= 4 && AnnouncesResult(acts[2], acts[3], bet, coin))
  {
    if bet.winningTeam.None? && env.messageFound && |bet.participants| > 0 {
      var acts := EndBet(bet, coin, env, now, edition);
      assert acts == Settlement(bet, coin, env, now, edition);
      var head := Announced(bet, coin, edition);
      assert acts[..4] == head;
      ResultMessages(bet, coin);
    }
  }

  /** The two result messages of a resolution: the drawn team with exactly
      its members, then the other team with every other participant and
      the bet's mute hours. */
  ghost predicate AnnouncesResult(w: Action, l: Action, bet: BetRecord, coin: Team)
  {
    && w.AnnounceWinners? && w.winningTeam == coin
    && l.AnnounceLosers? && l.losingTeam == coin.Other() && l.losingTeam != w.winningTeam
    && l.muteHours == bet.muteHours
    && (forall u :: u in w.winners <==> Get(bet.participants, u) == Some(coin.Tag()))
    && (forall u :: u in l.losers <==> Get(bet.participants, u).Some? && Get(bet.participants, u) != Some(coin.Tag()))
  }

  lemma ResultMessages(bet: BetRecord, coin: Team)
    requires Valid(bet.participants)
    ensures AnnouncesResult(AnnounceWinners(coin, Winners(bet, coin)),
                            AnnounceLosers(coin.Other(), Losers(bet, coin), bet.muteHours), bet, coin)
  {
  }

  /** With nobody entered, resolution stops after the commit and the
      announcement refresh: no announcements, penalties or credits. */
  lemma EndBetEmpty(bet: BetRecord, coin: Team, env: Env, now: int, edition: Edition)
    requires |bet.participants| == 0
    ensures var acts := EndBet(bet, coin, env, now, edition);
      forall a :: a in acts ==> a.Persist? || a.EditAnnouncement?
  {
  }

  /** The timeouts of a settlement are those of its penalty step. */
  lemma SettlementPenalty(bet: BetRecord, coin: Team, env: Env, now: int, edition: Edition, a: Action)
    requires a in Settlement(bet, coin, env, now, edition) && a.Penalize?
    ensures a in Penalties(Losers(bet, coin), PenaltyEnd(bet), now)
  {
    var head := Announced(bet, coin, edition);
    var pens := Penalties(Losers(bet, coin), PenaltyEnd(bet), now);
    var rewards := Rewards(bet, coin, env, edition);
    assert a in head + pens + rewards;
    assert a !in head;
    assert a !in rewards;
  }

  /** The credits of a settlement are those of its reward step. */
  lemma SettlementCredit(bet: BetRecord, coin: Team, env: Env, now: int, edition: Edition, a: Action)
    requires a in Settlement(bet, coin, env, now, edition) && a.Credit?
    ensures a in Rewards(bet, coin, env, edition)
  {
    var head := Announced(bet, coin, edition);
    var pens := Penalties(Losers(bet, coin), PenaltyEnd(bet), now);
    var rewards := Rewards(bet, coin, env, edition);
    assert a in head + pens + rewards;
    assert a !in head;
    assert a !in pens;
  }

  /** Every timeout of a settlement goes to a loser and ends at the penalty end. */
  lemma PenaltyGoesToLoser(bet: BetRecord, coin: Team, env: Env, now: int, edition: Edition, a: Action)
    requires Valid(bet.participants)
    requires a in Settlement(bet, coin, env, now, edition) && a.Penalize?
    ensures a.until == PenaltyEnd(bet) && a.durationMs == PenaltyEnd(bet) - now as real
    ensures Get(bet.participants, a.userId).Some? && Get(bet.participants, a.userId) != Some(coin.Tag())
  {
    SettlementPenalty(bet, coin, env, now, edition, a);
    var pens := Penalties(Losers(bet, coin), PenaltyEnd(bet), now);
    var i :| 0 <= i < |pens| && pens[i] == a;
    assert a.userId in Losers(bet, coin);
  }

  /** An element of the last part of a three-part plan is in the plan. */
  lemma InThird<T>(a: seq<T>, b: seq<T>, c: seq<T>, i: int)
    requires 0 <= i < |c|
    ensures c[i] in a + b + c
  {
    assert (a + b + c)[|a| + |b| + i] == c[i];
  }

  /** An element of the middle part of a three-part plan is in the plan. */
  lemma InSecond<T>(a: seq<T>, b: seq<T>, c: seq<T>, i: int)
    requires 0 <= i < |b|
    ensures b[i] in a + b + c
  {
    assert (a + b + c)[|a| + i] == b[i];
  }

  /** Every loser gets a timeout in a settlement. */
  lemma LoserIsPenalized(bet: BetRecord, coin: Team, env: Env, now: int, edition: Edition, u: string)
    requires Valid(bet.participants)
    requires Get(bet.participants, u).Some? && Get(bet.participants, u) != Some(coin.Tag())
    ensures Penalize(u, PenaltyEnd(bet), PenaltyEnd(bet) - now as real) in Settlement(bet, coin, env, now, edition)
  {
    var losers := Losers(bet, coin);
    var pens := Penalties(losers, PenaltyEnd(bet), now);
    var i :| 0 <= i < |losers| && losers[i] == u;
    assert pens[i] == Penalize(u, PenaltyEnd(bet), PenaltyEnd(bet) - now as real);
    InSecond(Announced(bet, coin, edition), pens, Rewards(bet, coin, env, edition), i);
  }

  /** Every credit of a settlement goes to a winner and is the bet's reward. */
  lemma CreditGoesToWinner(bet: BetRecord, coin: Team, env: Env, now: int, edition: Edition, a: Action)
    requires Valid(bet.participants)
    requires a in Settlement(bet, coin, env, now, edition) && a.Credit?
    ensures PaysRewards(bet, env, edition) && a.amount == bet.currencyReward.value
    ensures Get(bet.participants, a.userId) == Some(coin.Tag())
  {
    SettlementCredit(bet, coin, env, now, edition, a);
    var rewards := Rewards(bet, coin, env, edition);
    var i :| 0 <= i < |rewards| && rewards[i] == a;
    assert a.userId in Winners(bet, coin);
  }

  /** When the reward step runs, every winner is credited in a settlement. */
  lemma WinnerIsCredited(bet: BetRecord, coin: Team, env: Env, now: int, edition: Edition, u: string)
    requires Valid(bet.participants) && PaysRewards(bet, env, edition)
    requires Get(bet.participants, u) == Some(coin.Tag())
    ensures Credit(u, bet.currencyReward.value) in Settlement(bet, coin, env, now, edition)
  {
    var winners := Winners(bet, coin);
    var rewards := Rewards(bet, coin, env, edition);
    var i :| 0 <= i < |winners| && winners[i] == u;
    assert rewards[i] == Credit(u, bet.currencyReward.value);
    InThird(Announced(bet, coin, edition), Penalties(Losers(bet, coin), PenaltyEnd(bet), now), rewards, i);
  }

  /** Losers, and only losers, get a timeout, and every timeout ends at the
      scheduled result time plus the mute hours; its length is that end
      minus the moment resolution runs. */
  lemma EndBetPenalties(bet: BetRecord, coin: Team, env: Env, now: int, edition: Edition)
    requires Valid(bet.participants)
    ensures var acts := EndBet(bet, coin, env, now, edition);
      forall a :: a in acts && a.Penalize? ==>
        && a.until == PenaltyEnd(bet)
        && a.durationMs == PenaltyEnd(bet) - now as real
        && Get(bet.participants, a.userId).Some?
        && Get(bet.participants, a.userId) != Some(coin.Tag())
    ensures var acts := EndBet(bet, coin, env, now, edition);
      bet.winningTeam.None? && env.messageFound ==>
        forall u :: Get(bet.participants, u).Some? && Get(bet.participants, u) != Some(coin.Tag()) ==>
          Penalize(u, PenaltyEnd(bet), PenaltyEnd(bet) - now as real) in acts
  {
    var acts := EndBet(bet, coin, env, now, edition);
    if bet.winningTeam.None? && env.messageFound && |bet.participants| > 0 {
      assert acts == Settlement(bet, coin, env, now, edition);
      forall a | a in acts && a.Penalize?
        ensures a.until == PenaltyEnd(bet) && a.durationMs == PenaltyEnd(bet) - now as real
        ensures Get(bet.participants, a.userId).Some? && Get(bet.participants, a.userId) != Some(coin.Tag())
      {
        PenaltyGoesToLoser(bet, coin, env, now, edition, a);
      }
      forall u | Get(bet.participants, u).Some? && Get(bet.participants, u) != Some(coin.Tag())
        ensures Penalize(u, PenaltyEnd(bet), PenaltyEnd(bet) - now as real) in acts
      {
        LoserIsPenalized(bet, coin, env, now, edition, u);
      }
    }
  }

  /** A credit of exactly the bet's reward goes to each winner, and to
      nobody else, when the record carries a non-zero reward and the guild
      has a reward token; otherwise nobody is credited. */
  lemma EndBetRewards(bet: BetRecord, coin: Team, env: Env, now: int, edition: Edition)
    requires Valid(bet.participants)
    ensures var acts := EndBet(bet, coin, env, now, edition);
      forall a :: a in acts && a.Credit? ==>
        && PaysRewards(bet, env, edition)
        && a.amount == bet.currencyReward.value
        && Get(bet.participants, a.userId) == Some(coin.Tag())
    ensures var acts := EndBet(bet, coin, env, now, edition);
      bet.winningTeam.None? && env.messageFound && |bet.participants| > 0 && PaysRewards(bet, env, edition) ==>
        forall u :: Get(bet.participants, u) == Some(coin.Tag()) ==> Credit(u, bet.currencyReward.value) in acts
  {
    var acts := EndBet(bet, coin, env, now, edition);
    if bet.winningTeam.None? && env.messageFound && |bet.participants| > 0 {
      assert acts == Settlement(bet, coin, env, now, edition);
      forall a | a in acts && a.Credit?
        ensures PaysRewards(bet, env, edition) && a.amount == bet.currencyReward.value
        ensures Get(bet.participants, a.userId) == Some(coin.Tag())
      {
        CreditGoesToWinner(bet, coin, env, now, edition, a);
      }
      if PaysRewards(bet, env, edition) {
        forall u | Get(bet.participants, u) == Some(coin.Tag())
          ensures Credit(u, bet.currencyReward.value) in acts
        {
          WinnerIsCredited(bet, coin, env, now, edition, u);
        }
      }
    }
  }

  /** The Legacy edition never credits anyone, whatever the record and token. */
  lemma LegacyPaysNothing(bet: BetRecord, coin: Team, env: Env, now: int)
    ensures forall a :: a in EndBet(bet, coin, env, now, Legacy) ==> !a.Credit?
  {
  }

  /** The two editions resolve alike: the same commit, the same result
      messages and the same penalties; the Current edition only adds the
      credits at the end (and may list fewer names in the refreshed
      announcement). */
  lemma EditionsAgree(bet: BetRecord, coin: Team, env: Env, now: int)
    requires bet.winningTeam.None? && env.messageFound && |bet.participants| > 0
    ensures var cur := EndBet(bet, coin, env, now, Current);
      var prior := EndBet(bet, coin, env, now, Legacy);
      && |prior| <= |cur|
      && cur[0] == prior[0] && cur[2..|prior|] == prior[2..]
      && cur[|prior|..] == Rewards(bet, coin, env, Current)
  {
    var pens := Penalties(Losers(bet, coin), PenaltyEnd(bet), now);
    var head1, head0 := Announced(bet, coin, Current), Announced(bet, coin, Legacy);
    assert EndBet(bet, coin, env, now, Legacy) == head0 + pens + [];
    assert head1[2..] == head0[2..];
    SameTail(head1, head0, pens, Rewards(bet, coin, env, Current));
  }

  /** Two lists that agree from position 2 on, each followed by the same
      middle, agree from position 2 to the end of that middle. */
  lemma SameTail<T>(h1: seq<T>, h0: seq<T>, m: seq<T>, r: seq<T>)
    requires |h1| == |h0| >= 2 && h1[0] == h0[0] && h1[2..] == h0[2..]
    ensures var cur, prior := h1 + m + r, h0 + m + [];
      && |prior| <= |cur| && cur[0] == prior[0]
      && cur[2..|prior|] == prior[2..] && cur[|prior|..] == r
  {
    var cur, prior := h1 + m + r, h0 + m + [];
    assert prior == h0 + m;
    assert cur[2..|prior|] == h1[2..] + m;
    assert prior[2..] == h0[2..] + m;
  }

  // ---------------------------------------------------------------------------
  // Timer callbacks and the "resolved is final" invariant
  // ---------------------------------------------------------------------------

  /** The timer callback: re-read the bet from the store and end it. A
      missing record makes the callback fail before doing anything. */
  function OnTimerFire(store: Store, betId: string, coin: Team, env: Env, now: int, edition: Edition): (acts: seq<Action>)
    ensures betId !in store ==> acts == []
    ensures betId in store && store[betId].winningTeam.Some? ==> acts == []
  {
    if betId in store then EndBet(store[betId], coin, env, now, edition) else []
  }

  /** Resolution is idempotent: after one firing has committed a winner, a
      second firing for the same bet, with any draw, plans nothing and the
      winner stays the first draw. */
  lemma FireTwice(store: Store, betId: string, c1: Team, c2: Team, env1: Env, env2: Env, t1: int, t2: int, edition: Edition)
    requires WellKeyed(store) && betId in store
    ensures var s1 := Writes(store, OnTimerFire(store, betId, c1, env1, t1, edition));
      && betId in s1
      && s1[betId].winningTeam.Some?
      && (store[betId].winningTeam.None? ==> s1[betId].winningTeam == Some(c1))
      && OnTimerFire(s1, betId, c2, env2, t2, edition) == []
  {
    EndBetCommit(store, store[betId], c1, env1, t1, edition);
  }

  /** A resolved bet is never mutated again: neither a button press nor a
      timer firing changes its stored record. */
  lemma ResolvedIsFinal(store: Store, betId: string, coin: Team, env: Env, now: int, team: string, user: string, edition: Edition)
    requires WellKeyed(store) && betId in store && store[betId].winningTeam.Some?
    ensures Writes(store, PressTeam(store, team, betId, user, now, edition)) == store
    ensures Writes(store, OnTimerFire(store, betId, coin, env, now, edition)) == store
  {
  }

  // ---------------------------------------------------------------------------
  // Creation, timer arming and start-up recovery
  // ---------------------------------------------------------------------------

  /** The verdict on the result time typed into the creation form. */
  datatype TimeCheck = Unparseable | OutOfWindow | InWindow

  /** Reject an unparseable time, then one more than 10 days ahead or already past. */
  function CheckResultTime(parsed: Option<int>, now: int): (c: TimeCheck)
    ensures c == Unparseable <==> parsed.None?
    ensures c == InWindow <==> parsed.Some? && now <= parsed.value <= now + MaxLeadMillis
  {
    if parsed.None? then Unparseable
    else if parsed.value - now > MaxLeadMillis || parsed.value < now then OutOfWindow
    else InWindow
  }

  /** A bet as submitted, before its announcement is posted. */
  datatype Draft = Draft(
    betId: string,
    title: string,
    description: string,
    rewardText: string,
    currencyReward: Option<int>,
    resultTime: int,
    muteHours: real,
    hostName: string,
    hostPicture: string,
    pingRoleId: Option<string>)

  /** The draft completed with the posted message's references. */
  function Filled(d: Draft, channelId: string, messageId: string): BetRecord
  {
    BetRecord(d.betId, d.title, d.description, d.rewardText, d.currencyReward, d.resultTime, d.muteHours,
              channelId, messageId, [], d.hostName, d.hostPicture, d.pingRoleId, None)
  }

  datatype Started = Started(bet: BetRecord, actions: seq<Action>, timers: Timers.Registry)

  /** `startBet`: post the announcement, persist the record filled with the
      message references, and arm its timer for the result time. */
  function StartBet(d: Draft, channelId: string, messageId: string, timers: Timers.Registry, now: int, edition: Edition): (s: Started)
    ensures s.bet.betId == d.betId && s.bet.resultTime == d.resultTime
    ensures s.bet.participants == [] && s.bet.winningTeam.None?
    ensures s.bet.channelId == channelId && s.bet.messageId == messageId
    ensures && s.bet.title == d.title && s.bet.description == d.description && s.bet.rewardText == d.rewardText
            && s.bet.currencyReward == d.currencyReward && s.bet.muteHours == d.muteHours
            && s.bet.hostName == d.hostName && s.bet.hostPicture == d.hostPicture && s.bet.pingRoleId == d.pingRoleId
    ensures |s.actions| == 2 && s.actions[0] == PostAnnouncement(Render(s.bet, edition)) && s.actions[1] == Persist(d.betId, s.bet)
    ensures Timers.Inv(timers) ==> Timers.Inv(s.timers)
    ensures Timers.Inv(timers) ==>
      Timers.PendingFor(s.timers, d.betId) == {Timers.Wakeup(d.betId, Timers.FireTime(d.resultTime, now), timers.next)}
    ensures Timers.Inv(timers) ==>
      forall other :: other != d.betId ==> Timers.PendingFor(s.timers, other) == Timers.PendingFor(timers, other)
  {
    var bet := Filled(d, channelId, messageId);
    Started(bet, [PostAnnouncement(Render(bet, edition)), Persist(d.betId, bet)],
            Timers.Arm(timers, d.betId, d.resultTime, now))
  }

  /** A bet admitted by the creation window and armed at creation fires at
      its result time (one millisecond later when that is the very instant
      of creation), never early. */
  lemma WindowKeepsTimerExact(parsed: Option<int>, now: int)
    requires CheckResultTime(parsed, now) == InWindow
    ensures parsed.value > now ==> Timers.FireTime(parsed.value, now) == parsed.value
    ensures parsed.value == now ==> Timers.FireTime(parsed.value, now) == now + 1
  {
  }

  /** A bet still waiting for its result. */
  predicate Unresolved(entries: Dict<BetRecord>, betId: string)
  {
    Get(entries, betId).Some? && Get(entries, betId).value.winningTeam.None?
  }

  /** `refreshAllBetTimeouts`: walk the store's entries and arm a timer for
      each bet without a winner, at its result time clamped by the runtime's
      delay rule. */
  function RecoverAll(entries: Dict<BetRecord>, timers: Timers.Registry, now: int): Timers.Registry
    decreases |entries|
  {
    if |entries| == 0 then timers
    else
      var bet := entries[0].1;
      var armed := if bet.winningTeam.None? then Timers.Arm(timers, entries[0].0, bet.resultTime, now) else timers;
      RecoverAll(entries[1..], armed, now)
  }

  /** One pending wake-up for `id`, firing as armed at `now` for `resultTime`. */
  ghost predicate ArmedOnce(r: Timers.Registry, id: string, resultTime: int, now: int)
  {
    |Timers.PendingFor(r, id)| == 1
    && forall w :: w in Timers.PendingFor(r, id) ==> w.fireAt == Timers.FireTime(resultTime, now)
  }

  /** One step of recovery, for one bet id: what the walk over the remaining
      entries leaves for `id` carries over to the walk over all entries. */
  lemma RecoverStep(entries: Dict<BetRecord>, timers: Timers.Registry, now: int, id: string)
    requires |entries| > 0 && Valid(entries) && Timers.Inv(timers)
    requires var armed := if entries[0].1.winningTeam.None? then Timers.Arm(timers, entries[0].0, entries[0].1.resultTime, now) else timers;
      var r := RecoverAll(entries[1..], armed, now);
      && (Unresolved(entries[1..], id) ==> ArmedOnce(r, id, Get(entries[1..], id).value.resultTime, now))
      && (!Unresolved(entries[1..], id) ==> Timers.PendingFor(r, id) == Timers.PendingFor(armed, id))
    ensures var r := RecoverAll(entries, timers, now);
      && (Unresolved(entries, id) ==> ArmedOnce(r, id, Get(entries, id).value.resultTime, now))
      && (!Unresolved(entries, id) ==> Timers.PendingFor(r, id) == Timers.PendingFor(timers, id))
  {
    var id0 := entries[0].0;
    var bet := entries[0].1;
    var armed := if bet.winningTeam.None? then Timers.Arm(timers, id0, bet.resultTime, now) else timers;
    assert RecoverAll(entries, timers, now) == RecoverAll(entries[1..], armed, now);
    if id == id0 {
      assert !Unresolved(entries[1..], id0);
    } else {
      assert Unresolved(entries, id) == Unresolved(entries[1..], id);
    }
  }

  /** Recovery leaves exactly one pending wake-up, at the result time as
      clamped by the runtime, for every unresolved bet, and leaves every
      other bet's pending wake-ups as they were. */
  lemma {:induction false} RecoverAllArms(entries: Dict<BetRecord>, timers: Timers.Registry, now: int)
    requires Valid(entries) && Timers.Inv(timers)
    ensures var r := RecoverAll(entries, timers, now);
      && Timers.Inv(r)
      && (forall id :: Unresolved(entries, id) ==>
            |Timers.PendingFor(r, id)| == 1
            && forall w :: w in Timers.PendingFor(r, id) ==> w.fireAt == Timers.FireTime(Get(entries, id).value.resultTime, now))
      && (forall id :: !Unresolved(entries, id) ==> Timers.PendingFor(r, id) == Timers.PendingFor(timers, id))
    decreases |entries|
  {
    if |entries| > 0 {
      var bet := entries[0].1;
      var armed := if bet.winningTeam.None? then Timers.Arm(timers, entries[0].0, bet.resultTime, now) else timers;
      RecoverAllArms(entries[1..], armed, now);
      var r := RecoverAll(entries, timers, now);
      forall id
        ensures Unresolved(entries, id) ==> ArmedOnce(r, id, Get(entries, id).value.resultTime, now)
        ensures !Unresolved(entries, id) ==> Timers.PendingFor(r, id) == Timers.PendingFor(timers, id)
      {
        RecoverStep(entries, timers, now, id);
      }
    }
  }

  /** After a restart (empty registry), recovery arms wake-ups exactly for
      the unresolved bets, and running it again still leaves one wake-up
      per unresolved bet. */
  lemma RecoverAfterRestart(entries: Dict<BetRecord>, now: int, later: int)
    requires Valid(entries)
    ensures var r := RecoverAll(entries, Timers.Empty(), now);
      forall id :: Timers.PendingFor(r, id) != {} <==> Unresolved(entries, id)
    ensures var r2 := RecoverAll(entries, RecoverAll(entries, Timers.Empty(), now), later);
      forall id :: |Timers.PendingFor(r2, id)| == (if Unresolved(entries, id) then 1 else 0)
  {
    var r := RecoverAll(entries, Timers.Empty(), now);
    RecoverAllArms(entries, Timers.Empty(), now);
    RecoverAllArms(entries, r, later);
    var r2 := RecoverAll(entries, r, later);
    forall id | !Unresolved(entries, id)
      ensures |Timers.PendingFor(r2, id)| == 0
    {
      assert Timers.PendingFor(r2, id) == Timers.PendingFor(Timers.Empty(), id);
    }
  }
}
