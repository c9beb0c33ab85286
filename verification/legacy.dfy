/** The older single-file bot, `src/index.ts`. It runs the engine of module
    Bets in its Legacy edition (every participant listed, no reward step)
    and keeps inline what `betUtil.ts` later factored out: the prefix check
    on button ids, the creation form's time window and the start-up
    recovery in the ready handler.
 */
module LegacyBot {
  import opened Prelude
  import opened Dict
  import opened Bets
  import Timers

  /** The button branch of the interaction handler. Only ids whose first
      part is `enter-team` are handled; the second part is the team and the
      third the bet. */
  function HandleButton(store: Store, customId: string, user: string, now: int): (acts: seq<Action>)
    ensures DecodeButtonId(customId).prefix != EnterTeamPrefix ==> acts == []
    ensures var b := DecodeButtonId(customId);
      b.prefix == EnterTeamPrefix && b.betId.None? ==> acts == [ReplyToPress(NoLongerValid)]
    ensures var b := DecodeButtonId(customId);
      b.prefix == EnterTeamPrefix && b.betId.Some? ==>
        b.team.Some? && acts == PressTeam(store, b.team.value, b.betId.value, user, now, Legacy)
  {
    var parts := Split(customId, '|');
    if parts[0] != EnterTeamPrefix then []
    else if |parts| < 3 then [ReplyToPress(NoLongerValid)]
    else PressTeam(store, parts[1], parts[2], user, now, Legacy)
  }

  /** Pressing a team button of an open bet toggles the presser's entry for
      that team and nobody else's, then persists the record; pressing one
      of a missing, expired or resolved bet writes nothing. */
  lemma PressButton(store: Store, team: Team, betId: string, user: string, now: int)
    requires '|' !in betId
    ensures var acts := HandleButton(store, TeamButtonId(team.Tag(), betId), user, now);
      && (!Open(store, betId, now) ==> acts == [ReplyToPress(NoLongerValid)] && Writes(store, acts) == store)
      && (Open(store, betId, now) ==>
            |acts| == 3 && betId in Writes(store, acts) &&
            var before := store[betId].participants;
            var after := Writes(store, acts)[betId].participants;
            && acts[0] == Persist(betId, store[betId].(participants := after))
            && (Get(before, user) == Some(team.Tag()) ==> Get(after, user) == None)
            && (Get(before, user) != Some(team.Tag()) ==> Get(after, user) == Some(team.Tag()))
            && forall other :: other != user ==> Get(after, other) == Get(before, other))
  {
    assert '|' !in team.Tag();
    ButtonIdRoundTrip(team.Tag(), betId);
  }

  /** The announcement of index.ts names every participant: the field says
      "nobody" only for an empty bet, otherwise it lists all ids in entry
      order with no "and N others" tail; the label shows the count from ten
      participants on. */
  lemma ParticipantDisplay(bet: BetRecord)
    ensures var v := Render(bet, Legacy);
      && (v.participants.Nobody? <==> |bet.participants| == 0)
      && (v.participants.Listed? ==> v.participants.shown == Keys(bet.participants) && v.participants.others == 0)
      && (v.countSuffix == if |bet.participants| >= 10 then Some(|bet.participants|) else None)
  {
  }

  /** `endBet` of index.ts: the Legacy edition of the engine, which has no
      reward step and so never reads a reward token. */
  function EndBet(bet: BetRecord, coin: Team, messageFound: bool, now: int): (acts: seq<Action>)
    ensures bet.winningTeam.Some? ==> acts == []
    ensures bet.winningTeam.None? ==> |acts| >= 1 && acts[0] == Persist(bet.betId, Decided(bet, coin)) && NoWrites(acts[1..])
    ensures forall a :: a in acts ==> !a.Credit?
    ensures forall token :: acts == Bets.EndBet(bet, coin, Env(messageFound, token), now, Legacy)
  {
    Bets.EndBet(bet, coin, Env(messageFound, None), now, Legacy)
  }

  /** Resolution in index.ts: an empty bet stops after the commit and the
      refresh; otherwise the final step times out every loser, and only
      losers, until the result time plus the mute hours. */
  lemma EndBetEffects(bet: BetRecord, coin: Team, messageFound: bool, now: int)
    requires Valid(bet.participants)
    ensures |bet.participants| == 0 ==>
      forall a :: a in EndBet(bet, coin, messageFound, now) ==> a.Persist? || a.EditAnnouncement?
    ensures forall a :: a in EndBet(bet, coin, messageFound, now) && a.Penalize? ==>
      a.until == PenaltyEnd(bet) && Get(bet.participants, a.userId).Some? && Get(bet.participants, a.userId) != Some(coin.Tag())
    ensures bet.winningTeam.None? && messageFound ==>
      forall u :: Get(bet.participants, u).Some? && Get(bet.participants, u) != Some(coin.Tag()) ==>
        Penalize(u, PenaltyEnd(bet), PenaltyEnd(bet) - now as real) in EndBet(bet, coin, messageFound, now)
  {
    EndBetPenalties(bet, coin, Env(messageFound, None), now, Legacy);
    if |bet.participants| == 0 {
      EndBetEmpty(bet, coin, Env(messageFound, None), now, Legacy);
    }
  }

  /** What index.ts announces on resolution: the refresh to the decided
      bet, then the drawn team with exactly its members and the other team
      with every other participant, as in the current file. */
  lemma EndBetAnnounces(bet: BetRecord, coin: Team, messageFound: bool, now: int)
    requires Valid(bet.participants)
    ensures var acts := EndBet(bet, coin, messageFound, now);
      bet.winningTeam.None? && !messageFound ==> acts == [Persist(bet.betId, Decided(bet, coin))]
    ensures var acts := EndBet(bet, coin, messageFound, now);
      bet.winningTeam.None? && messageFound ==>
        && |acts| >= 2
        && acts[1] == EditAnnouncement(Render(Decided(bet, coin), Legacy))
        && (|bet.participants| == 0 ==> |acts| == 2)
        && (|bet.participants| > 0 ==> |acts| >= 4 && AnnouncesResult(acts[2], acts[3], bet, coin))
  {
    Bets.EndBetAnnounces(bet, coin, Env(messageFound, None), now, Legacy);
  }

  /** What the creation form supplies besides the result time. */
  datatype Form = Form(title: string, description: string, rewardText: string, muteHours: real, hostName: string, hostPicture: string)

  datatype Creation = Rejected(reason: TimeCheck) | Created(started: Started)

  /** The `pariu` command after the form is submitted: the typed result time
      must parse, must not be past, and must lie at most 10 days ahead;
      only then is the bet started, with no reward amount and no ping role. */
  function CreateBet(betId: string, form: Form, parsed: Option<int>, now: int,
                     channelId: string, messageId: string, timers: Timers.Registry): (c: Creation)
    ensures c.Created? <==> parsed.Some? && now <= parsed.value && parsed.value - now <= MaxLeadMillis
    ensures parsed.None? ==> c == Rejected(Unparseable)
    ensures c.Created? ==>
      var bet := c.started.bet;
      && bet.betId == betId && bet.resultTime == parsed.value
      && bet.participants == [] && bet.winningTeam.None?
      && bet.currencyReward.None? && bet.pingRoleId.None?
      && bet.title == form.title && bet.description == form.description && bet.rewardText == form.rewardText
      && bet.muteHours == form.muteHours && bet.hostName == form.hostName && bet.hostPicture == form.hostPicture
      && |c.started.actions| == 2
      && c.started.actions[0] == PostAnnouncement(Render(bet, Legacy)) && c.started.actions[1] == Persist(betId, bet)
      && (Timers.Inv(timers) ==>
            && Timers.Inv(c.started.timers)
            && Timers.PendingFor(c.started.timers, betId) == {Timers.Wakeup(betId, Timers.FireTime(bet.resultTime, now), timers.next)}
            && (bet.resultTime > now ==> Timers.FireTime(bet.resultTime, now) == bet.resultTime))
  {
    var check := CheckResultTime(parsed, now);
    if check != InWindow then Rejected(check)
    else
      var d := Draft(betId, form.title, form.description, form.rewardText, None, parsed.value, form.muteHours,
                     form.hostName, form.hostPicture, None);
      Created(StartBet(d, channelId, messageId, timers, now, Legacy))
  }

  /** The ready handler: with a fresh registry, arm a wake-up for exactly
      the stored bets that have no winner, each at its result time clamped
      by the runtime's delay rule. */
  function OnClientReady(entries: Dict<BetRecord>, now: int): (r: Timers.Registry)
    requires Valid(entries)
    ensures Timers.Inv(r)
    ensures forall id :: Timers.PendingFor(r, id) != {} <==> Unresolved(entries, id)
    ensures forall id :: Unresolved(entries, id) ==>
      |Timers.PendingFor(r, id)| == 1
      && forall w :: w in Timers.PendingFor(r, id) ==> w.fireAt == Timers.FireTime(Get(entries, id).value.resultTime, now)
  {
    RecoverAllArms(entries, Timers.Empty(), now);
    RecoverAll(entries, Timers.Empty(), now)
  }
}
