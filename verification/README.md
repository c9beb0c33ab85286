# august-bot: a verified model of the bet engine and the fact store

This project models three pieces of a Discord bot for a Romanian community:

- The bet lifecycle of `src/betUtil.ts`:
  - A bet record keeps a participants object from user id to team string and an optional winning team.
  - Members join, switch or withdraw by pressing team buttons.
  - A timer resolves the bet at its result time. It commits a coin-flip winner, times out the losers, and credits the winners through a currency service.
  - A start-up pass re-arms the timers of bets that are still open.
- The older single-file copy of the same engine in `src/index.ts`:
  - It has no currency reward and no cap on the listed participants.
  - Its button-id check, creation-time window and ready-time recovery are written inline.
- The per-guild fact store of `src/factUtil.ts`:
  - Subjects are kept in lower case.
  - An auto-reply cache is derived from the facts.
  - Subject autocomplete returns at most 25 choices.
  - The fact list is paged 15 at a time, with navigation buttons.
  - Auto-reply can be switched on and off.
  - Facts are created, edited and removed through an edit form.

Modules:

| file | module | what it holds |
|---|---|---|
| `prelude.dfy` | `Prelude` | `Option`, JavaScript `split`/`join` on one character, `toLowerCase`, `includes`, `${n}` and `parseInt` |
| `dict.dfy` | `Dict` | A JavaScript object as an association list in property-insertion order, with `Get`, `Put` (`d[k] = v`) and `Delete` (`delete d[k]`). |
| `timers.dfy` | `Timers` | The `timeoutsForBets` registry: remembered handles, pending callbacks, Node's delay rule. |
| `bets.dfy` | `Bets` | Bet records, the toggle, the participant display, resolution, creation, arming and recovery. `Edition` selects `betUtil.ts` (`Current`) or `index.ts` (`Legacy`). |
| `legacy.dfy` | `LegacyBot` | The parts of `index.ts` that differ: the prefix check on button ids, `endBet` without rewards, the creation form and the ready handler. |
| `facts.dfy` | `Facts` | Facts, subject serialisation, the auto-reply cache, autocomplete, the auto-reply switch, and the edit form as written and as intended. |
| `factlist.dfy` | `FactList` | The paged list, its navigation ids, the `/info list` command and the navigation buttons. |

How the model represents the outside world:

- **Side effects.** They become a returned list of planned `Action`s, in source order:
  - posting and editing the announcement;
  - persisting a record;
  - replies;
  - result messages;
  - member timeouts;
  - currency credits.
- **The store.** `Writes` applies the `Persist` actions of a plan to a store map.
- **Time.** Integer milliseconds, passed in as `now`.
- **Parameters instead of calls.** The coin flip (`Math.random`), whether the announcement message can still be fetched, the guild's reward token, and the form's parsed result time are all parameters.

## Model

| member | source | states |
|---|---|---|
| Prelude.SplitOfJoin | src/betUtil.ts:369 | Splitting a bar-joined id gives back its parts when no part contains the bar. |
| Prelude.JoinOfSplit | src/factUtil.ts:384 | `split` loses nothing: joining the parts with the separator rebuilds the id. |
| Prelude.ParseIntOfIntToString | src/factUtil.ts:385 | `parseInt` reads back every integer the list writes into an id with `${k}`, negative ones included. |
| Dict.Put | src/betUtil.ts:394 | After `d[k] = v`, `k` reads `v` and every other key reads as before. An existing key keeps its position; a new key is appended. Keys stay unique. |
| Dict.Delete | src/betUtil.ts:391 | After `delete d[k]`, `k` is absent and every other key reads as before. In a record that holds `k`, the result is the record with exactly that entry cut out, so the remaining keys keep their order. |
| Timers.FireTime | src/betUtil.ts:345-348 | A wake-up fires strictly after it is armed. It fires exactly at the result time when that lies within 2^31-1 ms ahead. It fires 1 ms after arming when the result time has passed, and also when it lies further ahead than 2^31-1 ms (Node's fallback for an out-of-range delay). |
| Timers.Arm | src/betUtil.ts:339-351 | `refreshBetTimeout` leaves exactly one pending callback for the bet, firing at the clamped result time. Other bets' pending callbacks are unchanged and the registry invariant holds. |
| Timers.Fire | src/betUtil.ts:345-347 | A callback that runs is no longer pending, its handle stays remembered, and other bets are unaffected. |
| Timers.AtMostOnePending | src/betUtil.ts:339-343 | While the registry invariant holds, no bet has two pending callbacks. |
| Bets.ButtonIdRoundTrip | src/betUtil.ts:369-372 | A team button's id (prefix, team and bet joined by bars) decodes to `enter-team`, that team and that bet when neither contains a bar. |
| Bets.ParticipantField | src/betUtil.ts:152-164 | "Nobody" shows exactly when there are no ids. Otherwise a prefix of the ids is shown, and the shown ids plus "N others" count every participant. At most 43 are named in `betUtil.ts` and all of them in `index.ts`. |
| Bets.RenderButtons | src/betUtil.ts:180 | An open bet shows two buttons whose ids decode to this bet with team 1 and with team 2. A resolved bet shows only the "finished" button. |
| Bets.RenderParticipants | src/betUtil.ts:104-165 | In the rendered announcement, "nobody" shows only for an empty bet, the shown ids and the "N others" count add up to the number of participants, and the label carries the count from ten on. In `index.ts` every id is shown. |
| Bets.Toggle | src/betUtil.ts:388-397 | Pressing one's own team removes the entry. Any other press sets the entry to the pressed team. Nobody else's entry changes, and a switch keeps the key order. |
| Bets.PressTeam | src/betUtil.ts:374-406 | A missing, expired or resolved bet gets "no longer valid" and no write. Otherwise exactly one record is written, under the bet id, with only the participants changed by the toggle; then the matching reply and the announcement refresh follow. |
| Bets.HandleBetButton | src/betUtil.ts:366-407 | The handler presses the team in the id's second part for the bet in its third. An id with fewer than three parts names no bet and is rejected. |
| Bets.PressSameTeamTwice | src/betUtil.ts:388-399 | Joining and then pressing the same team again withdraws the user ("joined", then "left") and leaves everyone else's entry as it was. |
| Bets.PressOtherTeam | src/betUtil.ts:388-399 | Pressing team A and then team B leaves the user on B only, and nobody else changes. |
| Bets.ExpiryIsPermanent | src/betUtil.ts:376-386 | Once a press is rejected because the result time passed, every later press is rejected too. |
| Bets.Partition | src/betUtil.ts:261-266 | A participant is a winner iff its team string equals the winning tag. Every other participant, whatever its string, is a loser. The two lists together are as long as the participant list. |
| Bets.PartitionCovers | src/betUtil.ts:261-266 | Winners and losers are disjoint and together are exactly the participant keys. |
| Bets.CheckResultTime | src/betUtil.ts:501-516 | An unparseable time is rejected as such. A time is accepted iff it is neither past nor more than 10 days ahead. |
| Bets.StartBet | src/betUtil.ts:184-207 | The stored record carries every field of the draft (title, description, reward text, reward, mute hours, host, ping role), the posted message's ids, no participants and no winner. The plan posts the announcement of exactly that record and then persists it under its id. The bet's timer is armed at the clamped result time, and no other bet's timer changes. |
| Bets.WindowKeepsTimerExact | src/betUtil.ts:508-516 | A bet the creation window admits fires exactly at its result time (1 ms later when that is the creation instant). |
| Bets.EndBet | src/betUtil.ts:239-268 | Resolving a resolved bet plans nothing. Otherwise the first action persists the bet with the drawn winner, and no later action writes to the store. |
| Bets.EndBetAnnounces | src/betUtil.ts:239-291 | Without the announcement message, resolution only commits. Otherwise the announcement is refreshed to show the decided bet. With participants, the drawn team is announced with exactly its members as winners. The losing team announced is the other team, never the drawn one, with every other participant and the bet's mute hours. |
| Bets.EndBetCommit | src/betUtil.ts:240-248 | Resolution writes exactly one record, the bet with the drawn winner under its own id. It writes nothing for a resolved bet. |
| Bets.EndBetEmpty | src/betUtil.ts:268 | With no participants, resolution stops after the commit and the refresh: no result messages, timeouts or credits. |
| Bets.EndBetPenalties | src/betUtil.ts:293-314 | Only losers are timed out, each until the result time plus the mute hours, whenever the timer actually fires. Every loser is timed out when the announcement still exists. |
| Bets.EndBetRewards | src/betUtil.ts:316-336 | Credits go only to winners, each of exactly the bet's reward, and only when the reward is non-zero and a token is configured. Then every winner is credited. |
| Bets.LegacyPaysNothing | src/index.ts:209-285 | The `index.ts` resolution never credits anyone. |
| Bets.EditionsAgree | src/index.ts:209-285 | The two files resolve alike: the same commit, result messages and timeouts in the same order. `betUtil.ts` only appends the credits. |
| Bets.OnTimerFire | src/betUtil.ts:345-347 | A callback for a missing or already resolved bet plans nothing. |
| Bets.FireTwice | src/betUtil.ts:240 | After one firing has committed a winner, a second firing with any draw plans nothing, and the first draw stays the winner. |
| Bets.ResolvedIsFinal | src/betUtil.ts:376-380 | A resolved bet's record is never written again, by a press or by a timer. |
| Bets.RecoverAllArms | src/betUtil.ts:353-364 | Recovery leaves exactly one pending wake-up for each stored bet without a winner, at its result time as clamped by the runtime (1 ms after recovery for a bet already past due). Every other bet keeps the wake-ups it had. |
| Bets.RecoverAfterRestart | src/betUtil.ts:353-364 | After a restart, wake-ups are pending exactly for the unresolved bets. Recovering twice still leaves one per unresolved bet and none for the others. |
| LegacyBot.HandleButton | src/index.ts:453-493 | Ids not starting with `enter-team` are ignored. A short `enter-team` id is rejected. Otherwise the team in the second part is pressed for the bet in the third. |
| LegacyBot.PressButton | src/index.ts:460-485 | Pressing a team button of a bet that is not open is rejected with no write. For an open bet the presser's entry is toggled, nobody else's changes, and the record is persisted first. |
| LegacyBot.ParticipantDisplay | src/index.ts:91-143 | `index.ts` names every participant in entry order. "Nobody" appears only for an empty bet, and the count suffix appears iff there are at least 10. |
| LegacyBot.EndBet | src/index.ts:209-285 | A resolved bet plans nothing. Otherwise the winner is persisted first and nothing else writes. No credit is ever planned, and no reward token is read. |
| LegacyBot.EndBetAnnounces | src/index.ts:209-261 | In `index.ts` too, resolution without the message only commits. Otherwise it refreshes the announcement to the decided bet, then announces the drawn team with exactly its members, and the other team (`losingTeam`) with every other participant and the mute hours. |
| LegacyBot.EndBetEffects | src/index.ts:238-284 | An empty bet stops after the commit and refresh. Otherwise only losers are timed out, until the result time plus the mute hours, and every loser is. |
| LegacyBot.CreateBet | src/index.ts:412-443 | A bet is created iff the typed time parses and lies between now and 10 days ahead. An unparseable time is rejected as such. The created bet carries the form's title, description, reward text, mute hours and host, with no participants, no reward and no ping role. Its announcement is posted, it is persisted under its id, and it is armed once for its result time. |
| LegacyBot.OnClientReady | src/index.ts:309-314 | At start-up, wake-ups are pending for exactly the stored bets without a winner, one each, at the result time as clamped by the runtime. |
| Facts.SerializeIdempotent | src/factUtil.ts:78-80 | Serialising twice is serialising once. |
| Facts.GenerateContentCache | src/factUtil.ts:58-64 | The cache holds exactly the subjects whose fact is defined and has auto-reply on, each mapped to that fact's body. |
| Facts.HandleMessage | src/factUtil.ts:397-409 | A message gets a reply iff its lower-cased text names a fact with auto-reply on and a non-empty body. The reply is that body. |
| Facts.Autocomplete | src/factUtil.ts:82-102 | At most 25 choices, each a subject containing the lower-cased query. They are the first matches in subject order, all matches when there are at most 25, and exactly 25 otherwise. |
| Facts.SetAutoReply | src/factUtil.ts:290-319 | A missing subject is refused with nothing written. Otherwise only that fact's flag changes, the auto-reply lookup follows the switch, and keys and other facts stay the same. |
| Facts.Remove | src/factUtil.ts:184-207 | Removing a missing fact is refused. Otherwise exactly that subject disappears and the removed fact's author is reported. |
| Facts.Save | src/factUtil.ts:214-222 | The saved fact has the editor as author, the new body and stamp, and the previous auto-reply flag of that subject. Other subjects are untouched, and an existing subject keeps its position. |
| Facts.EditFact | src/factUtil.ts:125-229 | As written: a preset subject with body REMOVE removes; an empty subject saves nothing; otherwise the form saves under the preset or the typed subject. No edit is ever refused for ownership. |
| Facts.EditFactIntended | src/factUtil.ts:104-123 | As intended: every removal and save is by someone allowed to edit that subject. A refusal concerns the edited subject (the preset one, or the serialised typed one), which holds a fact written by someone else. Saved subjects are serialised, so a store with lower-case keys stays lower-case. |
| Facts.EditReadingsAgree | src/factUtil.ts:125-229 | For an editor who may edit and an already serialised subject, the written and intended forms agree. |
| Facts.SavedFactIsReachable | src/factUtil.ts:208-221 | A fact saved through the intended form is found by the auto-reply switch under the subject it was typed with. |
| Facts.ContextMenuSubjectUnreachable | src/factUtil.ts:208 | As written, a context-menu fact typed as `Foo` is stored under `Foo`, and no subject given to the auto-reply switch finds it. |
| Facts.ForeignFactOverwritten | src/factUtil.ts:132-135 | As written, a member who neither wrote a fact nor may manage messages overwrites it and becomes its author. The intended form refuses. |
| FactList.Shown | src/factUtil.ts:327-330 | The list holds exactly the defined facts, and with the filter only those with auto-reply on. |
| FactList.ShownSnoc | src/factUtil.ts:327-330 | The list follows record order: a property added last is listed last, after everything listed before it, and is listed once if it is defined (and, with the filter, has auto-reply on). |
| FactList.LastPage | src/factUtil.ts:332 | The last page index is -1 exactly for an empty list. Otherwise it is the page whose 15-slot range holds the last fact. |
| FactList.ClampPage | src/factUtil.ts:333-334 | The shown page is never negative. For a non-empty list it is never past the last page: a page in range is kept, a negative one becomes 0, and one past the end becomes the last. An empty list (last page index -1) always shows page 0. |
| FactList.Entries | src/factUtil.ts:335-338 | A page holds at most 15 entries, in list order, numbered from its start plus one. A page before the end is full, and a page starting inside the list is non-empty. |
| FactList.ListPageShape | src/factUtil.ts:322-379 | As written: the navigation row is attached iff the list is empty or longer than one page. An empty list shows page 0 with no entries and "next" enabled. Any other list shows a page in range that has entries. A requested page in range is honoured. |
| FactList.ListPageIntended | src/factUtil.ts:322-379 | As intended: the page always lies in [0, last] and a requested page in range is honoured. A non-empty list never shows an empty page. Navigation shows iff there are more than 15 facts, and "next" is enabled only before the last page. |
| FactList.ListReadingsAgree | src/factUtil.ts:332 | On a non-empty list the written and intended pages are identical. |
| FactList.FactOnItsPage | src/factUtil.ts:335-364 | The fact at position 15p + s of the list appears on page p, in slot s, numbered 15p + s + 1. |
| FactList.NavIdRoundTrip | src/factUtil.ts:384-386 | A navigation id decodes back to the page and the filter it was made from. |
| FactList.ListCommand | src/factUtil.ts:264-276 | `/info list` shows the first page when no page is given, and page `pagina - 1` when `pagina` is in range. The buttons carry the filter, which is off unless asked for. As written, the view computed for an empty list has last page index -1, no entries, the navigation row attached and "next" enabled. |
| FactList.ListCommandIntended | src/factUtil.ts:264-276 | Over the intended pagination, `/info list` attaches the navigation row iff there are more than 15 facts to list, and enables "next" only before the last page. Whenever there is something to list it shows exactly what the command as written shows. |
| FactList.HandleNavButton | src/factUtil.ts:381-395 | A navigation press redraws the list iff the id's page part is a number, and then draws exactly the as-written page for the page and filter the id names. For a stale id on an empty list that is page 0 without entries. |
| FactList.HandleNavButtonIntended | src/factUtil.ts:381-395 | Over the intended pagination, a navigation press draws a page in range, and it agrees with the press as written whenever the filtered list is non-empty. |
| FactList.NavTo | src/factUtil.ts:381-395 | Pressing a button whose id names an existing page redraws exactly that page with the same filter. |
| FactList.PageFilled | src/factUtil.ts:332-338 | Every page up to the last one of a non-empty list is drawn as itself and has entries. |
| FactList.NextButtonTurnsPage | src/factUtil.ts:348-353 | An enabled "next" button names the following page with the same filter. On a non-empty list that page exists, is drawn as itself and has entries. On an empty list, as written, it redraws the same empty page. |
| FactList.PrevButtonTurnsPage | src/factUtil.ts:341-347 | An enabled "previous" button names the preceding page, which exists, is drawn as itself and has entries. |
| FactList.EmptyListNavigation | src/factUtil.ts:332-377 | As written, the view computed for an empty list has last page index -1 (title "1/0"), the navigation row attached with "next" enabled, and "next" leads back to the same view. |

`refreshBetTimeout` in `src/index.ts:287-299` is the same code as in `betUtil.ts`, so `Timers.Arm` stands for both copies. Its ready-time recovery (`src/index.ts:309-314`) is `Bets.RecoverAll`, started from an empty registry.

## Left out

- Discord I/O is left out: message send, edit and reply, embeds, modals, member fetches and `timeout` calls. They appear only as planned actions. The text of messages, embeds, colours and emoji is not modelled.
- Concurrency is left out. The bot reads and writes the store across `await`s with no lock. Interleavings of two presses, or of a press and a timer, are not modelled: each handler runs as one atomic transition.
- Failures are left out. In resolution, a failing store write, channel fetch or message send rejects the whole `endBet` and skips the later steps. A loser whose member fetch or timeout fails is caught on its own, and the other losers are still timed out. The model plans every step; only the "message not found" stop of resolution is modelled, as `Env.messageFound`.
- Clocks, luxon date parsing and time zones are parameters (`now`, the parsed result time as integer milliseconds). `Math.random` is the `coin` parameter.
- `parseFloat` of the mute hours and `parseInt` of the `!N` reward in `handleCreateBetCommand` are left out: they are float and free-text parsing. The record's `muteHours` and `currencyReward` are inputs.
- The parts of `handleCreateBetCommand` other than the time window are left out: the reward text rewrite, the guild config lookup and the ping role. `handleConfigPingRoleCommand` and the guild bet schedule are left out too; they are configuration plumbing.
- The currency service client is left out. Credits are planned actions. Its failures are caught per winner in the source and do not change the plan.
- `updateBetMessage`'s equality branch is left out. Every caller passes `true`, so only the always-edit path is modelled.
- `Timers.Fire`: fired handles stay in the handle map, as in the source, which never deletes them. Node's own timer bookkeeping is not modelled.
- `Bets.OnTimerFire`: a callback whose record is missing is modelled as doing nothing. The source passes `undefined` on, and the guard then throws.
- Dict: JavaScript enumerates integer-like keys ("0" to "4294967294") first, in ascending numeric order, before the other keys in insertion order. The model keeps every key in insertion order. This matters for fact subjects such as "10" or "2024": it changes the order of autocomplete choices and which facts land on which page of `/info list`. Participant ids are Discord snowflakes above 2^32 and are unaffected.
- Store iteration order in recovery is the entry order given. Key-value backends may order keys differently, and nothing in recovery depends on it.
- `Prelude.LowerChar`: only ASCII, Latin-1 and the Romanian capitals are lower-cased. Full Unicode case mapping, including characters whose lower case has a different length, is not modelled.
- `Prelude.ParseInt`: covers an optional `-` and decimal digits. Leading whitespace, `+`, `0x` prefixes and non-numeric text other than "no digits" (NaN) are not modelled.
- `FactList.ListPage`: discord.js embed validation is not modelled. A page without entries gets an empty description, which `EmbedBuilder` rejects, so the empty-list view (`FactList.EmptyListNavigation`, and `FactList.ListPageIntended` for an empty list) is what the code computes, not necessarily what is shown. The placeholder description an empty page needs is not modelled.
- `FactList.HandleNavButton`: an id whose page part is NaN yields None. The source renders a page with NaN arithmetic; the bot's own ids never carry one.
- `Facts.SetAutoReply`: inherited property names are not modelled. In the source `facts[subject]` also finds names from `Object.prototype`: `constructor` finds the `Object` function, and the later `fact.subject.toUpperCase()` throws. `__proto__` finds `Object.prototype`, so setting its flag makes every fact without its own flag auto-reply until restart. The model treats such a name as a missing subject and refuses.
- `Facts.Remove`: inherited property names are not modelled. For `constructor` with body REMOVE the source deletes nothing and reports `<@undefined>` as the author; the model refuses as not removable.
- `Facts.Save`: inherited property names are not modelled. Saving under `__proto__` re-parents the record instead of adding a property, so nothing is stored; the model stores the fact.
- `Facts.HandleMessage`: the cache is derived afresh from the record. The process-wide caches (`factSubjectsCache`, `factContentCache`) and their staleness between updates are not modelled. A reply needs a non-empty body, as the source's truthiness check demands.
- `Facts.Autocomplete`: takes the subject keys as a parameter instead of the cached key list.
- The "despre" subcommand is left out: a random pick and message text. So are `generateFactMessage` and `getGuildFacts`' default (a missing guild is the empty record).
- `Facts.EditFact`: the ownership reply that the unawaited check may still send is not modelled. Neither is the form's length limit.
- `src/registerCommands.ts`, `src/unbUtil.ts` and `src/dateUtil.ts` are not part of this model. They hold command definitions, a config-store wrapper and a date helper.

## Findings

| source | as written | input that shows it | evidently intended | confidence | as-written member | corrected member |
|---|---|---|---|---|---|---|
| src/factUtil.ts:332 | `maxPageNumber` is `ceil(n/15) - 1`, which is -1 for an empty list. The message is built with title "Pagina 1/0", and since `-1 !== 0` the navigation row with "next" enabled. The page has no entries, so the embed description is the empty string. discord.js's `EmbedBuilder` rejects an empty description, so the most likely visible result is that `/info list` fails with no reply. | `/info list` in a guild with no facts (or no auto-reply facts with the filter on) | An empty list is one page without navigation, whose description is a non-empty placeholder such as "no facts" | medium; not executed | FactList.EmptyListNavigation | FactList.ListPageIntended |
| src/factUtil.ts:208 | A subject typed into the context-menu form is stored as typed, not serialised. The auto-reply switch, message auto-replies, `/info edit` and its REMOVE path all serialise the subject first, so none of them reaches a subject with a capital letter. The raw key still shows in autocomplete and `/info list`, and `/info despre` reads it unserialised. | Create a fact from the context menu with subject `Foo`, then `/auto-reply Foo on` | The typed subject is serialised like every other subject | high; not executed | Facts.ContextMenuSubjectUnreachable | Facts.EditFactIntended |
| src/factUtil.ts:133 | `assertFactOwnership` is async and is called without `await`, so `ok` is a Promise and `!ok` is always false. The ownership check never stops an edit (the same happens at line 210). | A member who is not the author and cannot manage messages edits another member's fact | Only the author or a moderator may edit or remove a fact | high; not executed | Facts.ForeignFactOverwritten | Facts.EditFactIntended |
