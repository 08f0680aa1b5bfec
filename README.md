# Retro trivia battle: a verified model of the game core

The system is a browser trivia game about 90s nostalgia (cartoons, Bollywood,
Hollywood, old gadgets, snacks, toys). Players answer four-option questions
against a ten-second countdown. A correct answer earns `max(100, 1000 - ms)`
points. At the end of a game the score turns into experience (`score / 10`)
and the correct answers into coins (5 each). In multiplayer matches, coins buy
attacks on an opponent's screen: blur, reversed text, shake, a frozen timer,
or a fake fifth option.

This project models the game's core and proves properties of the model in
Dafny:

- **The match state machine.** It exists twice:
  - `server/socket.ts`: a `GameManager` class with the Socket.IO handlers
    (`TsServer`);
  - `socket-server.js`: the same machine written inline over two module-level
    maps (`JsServer`).
- **What the two servers share** (`MatchState`):
  - the game and player records;
  - the roster searches and filter;
  - the answer and attack updates;
  - the flag-reset and reward loops;
  - the registry invariant both servers keep: every game is stored under its
    own id, its player ids are distinct, every game has ten questions, and
    every `playerGames` entry names a stored game whose roster holds that
    player.
- **The catalogues:** the attack table and enums of `lib/types.ts`
  (`GameTypes`) and the 21 built-in questions of `lib/questions.ts`
  (`QuestionBank`).
- **The scoring arithmetic** (`Scoring`).
- **The client-side rules:**
  - the solo game loop of `app/game/solo/page.tsx` (`SoloGame`);
  - the countdown, selection and attack rendering of
    `components/QuestionCard.tsx` (`QuestionCard`);
  - the affordability and per-target cooldown rule of
    `components/AttackPanel.tsx` (`AttackPanel`);
  - the lobby's start rule in `components/GameLobby.tsx` (`GameLobby`).

## How the model is built

- **Objects and state.**
  - Objects whose fields the source updates become classes: `GameManager`,
    the standalone server's maps, the solo page's React state, the question
    card and the attack panel.
  - Their maps are `map` fields. Games and players are values stored in those
    maps.
  - Each handler is a method. It states the registry's complete new state and
    keeps `Valid()`.
- **Loops.** The source's `forEach`/`for` loops are methods with loop
  invariants: `ResetAnswers`, `RewardUpdates` and `RemoveMappings`.
- **Timers.** Each one becomes a method or a value that a driver fires later:
  - the 3000 ms auto-start;
  - the solo page's 3000 ms result timeout (a `Continuation` holding what its
    closure captured);
  - the card's 100 ms interval;
  - the 2000 ms freeze.
- **Outside inputs.** The clock is a `now` parameter. Database reads
  (profiles, the random question) are parameters. Database writes are
  returned as values (`StatsUpdate`, `ProfileUpdate`) or left out, as listed
  below.
- **JavaScript details.** These are written out explicitly:
  - `""` is falsy (`MatchState.Truthy`);
  - a missing attack cost reads as `|| 0`;
  - the attacker and the target may be the same roster entry;
  - `server/socket.ts` sends unfloored experience, modelled as a `real`.

## Variant differences

The two servers are modelled separately because they differ:

1. **Capacity check.** `server/socket.ts` refuses a join once the roster
   holds the mode's capacity (4, 2 or 1). `socket-server.js` has no check:
   `JsServer.OverCapacityScenario` puts three players into a `1v1` game.
2. **Auto-start test.**
   - `server/socket.ts` compares the roster size with `totalQuestions`
     (10), not with the mode's capacity. Under its own capacity check no
     roster reaches 10, so its auto-start never fires
     (`TsServer.AutoStartNeverDue`).
   - `socket-server.js` compares with the capacity of the mode named in the
     join request, not with the stored game's mode.
3. **Experience.** `server/socket.ts` sends `score / 10` unfloored.
   `socket-server.js` floors it. They agree exactly when the score is a
   multiple of 10 (`Scoring.XpExactIsWholeIff`).
4. **The finished snapshot.**
   - `server/socket.ts` marks it `finished` through `endGame`.
   - `socket-server.js` reports the game with the status it had, then deletes
     it and its mappings itself.
5. **Disconnect.**
   - `server/socket.ts` removes the player from the game its `playerGames`
     entry names.
   - `socket-server.js` removes it from the game the socket joined, and
     deletes that game once its roster is empty.
   - When the last player leaves, `server/socket.ts` still emits
     `player-left` with the empty game, because `removePlayer` returns it;
     `socket-server.js` emits nothing (`Disconnect` returns `None`).

## Model

| member | source | states |
|---|---|---|
| GameTypes.FindAttackIn | components/AttackPanel.tsx:20 | a found entry is in the list and has the requested name; nothing is found exactly when no entry has it |
| GameTypes.FindAttack | components/AttackPanel.tsx:20 | a catalogue lookup returns an entry of the catalogue with the requested name |
| GameTypes.ConfigOf | lib/types.ts:97-138 | every attack kind has a catalogue entry of that kind |
| GameTypes.IndexOf | lib/types.ts:97-138 | the position of each kind's entry in the catalogue |
| GameTypes.AttackNameInjective | lib/types.ts:3 | distinct attack kinds have distinct names |
| GameTypes.AttacksOnePerKind | lib/types.ts:97-138 | the catalogue has five entries, one per kind, with no kind repeated |
| GameTypes.FindAttackByName | components/AttackPanel.tsx:20 | looking a kind up by its name finds that kind's entry |
| GameTypes.FindAttackKnownIff | components/AttackPanel.tsx:20-21 | a lookup succeeds if and only if the name is one of the five kinds' names |
| GameTypes.CatalogueValues | lib/types.ts:97-138 | costs 10/15/12/20/18 and durations 4/5/3/2/10 s for blur/reverse/shake/freeze/fake |
| GameTypes.CostsAndDurationsPositive | lib/types.ts:97-138 | every attack costs something and lasts a positive time |
| QuestionBank.BankSize | lib/questions.ts:3-157 | the built-in bank holds 21 questions |
| QuestionBank.BankWellFormed | lib/questions.ts:3-157 | every built-in question has four options and a correct index among them |
| QuestionBank.Witness | lib/questions.ts:3-157 | for each category, the index of a question of that category |
| QuestionBank.EveryCategoryPresent | lib/questions.ts:3-157 | every category has at least one built-in question |
| Scoring.CorrectPoints | server/socket.ts:243 | a correct answer scores at least 100, at least `1000 - timeTaken`, and exactly one of the two |
| Scoring.Points | server/socket.ts:238-246 | a wrong answer scores 0; a correct one scores 100 to 1000 for a non-negative time, `1000 - t` up to 900 ms and 100 from 900 ms on |
| Scoring.PointsAntitone | server/socket.ts:243 | a faster answer never scores less |
| Scoring.XpFloor | socket-server.js:238 | the floored experience is the largest whole number whose tenfold fits in the score |
| Scoring.XpExact | server/socket.ts:351 | the unfloored experience is exactly a tenth of the score |
| Scoring.XpFloorIsFloorOfExact | socket-server.js:238 | the floored experience is the floor of the unfloored one |
| Scoring.XpExactIsWholeIff | server/socket.ts:351 | the two servers' experience agree if and only if the score is a multiple of 10 |
| Scoring.CoinsGained | server/socket.ts:352 | the coin reward is a multiple of 5, five per correct answer |
| MatchState.ModeCapacity | server/socket.ts:77 | 4 exactly for `4player`, 2 exactly for `1v1`, otherwise 1 |
| MatchState.ModeCapacityOfModes | server/socket.ts:189 | solo, random and friends hold 1 player, 1v1 two, 4player four |
| MatchState.FindPlayer | server/socket.ts:235 | `find` returns the first roster entry with the id, and fails exactly when no entry has it |
| MatchState.WithoutPlayer | server/socket.ts:132 | the filtered roster keeps exactly the entries with another id, and is unchanged when the id is absent |
| MatchState.IdsAppend | server/socket.ts:92-93 | pushing a player adds exactly its id to the roster's ids |
| MatchState.AppendKeepsUnique | server/socket.ts:73-92 | pushing a player whose id is absent keeps the ids distinct |
| MatchState.WithoutPlayerFacts | server/socket.ts:132 | on a roster with distinct ids, the filter removes exactly that id and shrinks the roster by one when the id was present |
| MatchState.WithoutPlayerKeepsOrder | server/socket.ts:132 | on a roster with distinct ids, removing a present player leaves the entries before it and after it in their order |
| MatchState.Answered | server/socket.ts:238-246 | the player is marked answered with its time; the score rises by `Points` and the correct count by one only for a correct answer; nothing else changes |
| MatchState.SubmitAccepted | server/socket.ts:233-236 | an answer is accepted only with a current question and a sender on the roster whose first entry has not answered, and always when the sender has not answered yet |
| MatchState.AllAnswered | server/socket.ts:265 | a solo game is always complete; any other game is complete exactly when every roster entry has answered |
| MatchState.ServerAttackCost | server/socket.ts:287-295 | the cost is never negative, and is 0 exactly for a kind outside the five listed |
| MatchState.AttackDecision | server/socket.ts:281-299 | the attack is ignored exactly when the attacker or the target is off the roster; otherwise it goes ahead at the server's cost exactly when the attacker's coins cover it |
| MatchState.AfterAttackGame | server/socket.ts:301-303 | only the roster changes, and it keeps its length and every entry's id |
| MatchState.ServerCostMatchesCatalogue | server/socket.ts:287-295 | the server's cost table charges what the client catalogue lists, and 0 for an unknown kind |
| MatchState.AfterAttack | server/socket.ts:301-303 | the attacker's coins fall by the cost and its attacks used rise by one; the target's attacks received rise by one (both when they are the same player); no other entry changes |
| MatchState.SameIdsKeepUnique | server/socket.ts:301-303 | an update that keeps every entry's id keeps the ids and their distinctness |
| MatchState.ResetAnswers | server/socket.ts:340-343 | every player is unmarked and loses its answer time, and nothing else changes |
| MatchState.RewardUpdates | server/socket.ts:350-360 | one stats update per player in roster order, with its id, its experience (floored or not), five coins per correct answer and its correct count |
| MatchState.RemoveMappings | server/socket.ts:121 | the mapping of exactly the roster's players is deleted |
| MatchState.SubmitEffect | server/socket.ts:230-246 | an accepted answer changes only the sender's roster entry: answered, timed, scored by `Points`, coins kept |
| MatchState.SubmitIdempotent | server/socket.ts:236 | after an accepted answer the same player's next answer is ignored |
| MatchState.FindPlayerSameIds | server/socket.ts:235 | `find` gives the same answer on rosters with the same ids |
| MatchState.AttackKeepsCoins | server/socket.ts:295-301 | a successful attack debits exactly the cost, no balance goes negative, a balance equal to the cost ends at 0, and an unknown kind costs nothing |
| MatchState.RosterUpdateKeepsInvariant | server/socket.ts:239-246 | a roster update that keeps every id keeps the game invariant |
| MatchState.AdvancedAcceptsEveryAnswer | server/socket.ts:339-343 | after the question advances, every roster player's answer is accepted again |
| TsServer.GameManager.constructor | server/socket.ts:50-52 | the registry starts with no games and no mappings |
| TsServer.GameManager.CreateGame | server/socket.ts:54-67 | a waiting game with no players, index 0 and ten questions is stored under the id; the mappings are untouched |
| TsServer.GameManager.JoinGame | server/socket.ts:69-95 | an unknown game gives null; a present player gets the game unchanged; a full game gives null; otherwise the player is appended with zeroed statistics and mapped to the game; a joined roster never exceeds the mode's capacity |
| TsServer.GameManager.GetGame | server/socket.ts:97-99 | returns the stored game exactly when there is one |
| TsServer.GameManager.GetPlayerGame | server/socket.ts:101-104 | returns a game exactly when the player has a non-empty mapping, and that game's roster holds the player |
| TsServer.GameManager.StartGame | server/socket.ts:106-113 | a stored game becomes active with the start time `now`; nothing else changes |
| TsServer.GameManager.EndGame | server/socket.ts:115-123 | the game is returned finished, removed, and so are its players' mappings |
| TsServer.GameManager.RemovePlayer | server/socket.ts:125-140 | a falsy or dangling mapping gives null; otherwise the player leaves the roster and its mapping is removed; the game is deleted if and only if its roster became empty |
| TsServer.AutoStartNeverDue | server/socket.ts:209 | under the capacity invariant, `players.length === totalQuestions` is never true, so this server never schedules an auto-start |
| TsServer.AutoStartDue | server/socket.ts:209 | a solo game never auto-starts, and no roster within the mode's capacity matches the ten questions |
| TsServer.HandleJoinGame | server/socket.ts:174-221 | a missing profile is an error with nothing changed; otherwise the game is created when absent and joined; the mode's capacity is enforced; no auto-start is ever scheduled |
| TsServer.HandleSubmitAnswer | server/socket.ts:230-274 | without a current question, or with an absent or already-answered sender, the answer is ignored; otherwise only the sender's entry is updated; the reply carries correctness, the new score, and whether every player has answered |
| TsServer.HandleUseAttack | server/socket.ts:276-332 | an attack is ignored unless attacker and target are both on the roster, refused when coins are short, and otherwise applied at the server's cost |
| TsServer.HandleNextQuestion | server/socket.ts:334-390 | the index advances and flags clear; past the last question the game is finished and removed with its mappings, one unfloored reward per player; otherwise the fetched question, if any, is installed with the 10 s limit and start time `now` |
| TsServer.HandleDisconnect | server/socket.ts:392-404 | nothing happens without a joined game id; otherwise the effect is `removePlayer`'s: a dangling mapping changes nothing, else the player leaves the roster and the mappings, and the game is deleted exactly when no player remains |
| JsServer.StandaloneServer.constructor | socket-server.js:27-28 | both maps start empty |
| JsServer.StandaloneServer.JoinGame | socket-server.js:51-113 | a missing profile is an error; otherwise the game is created when absent; an absent sender is appended and mapped with no capacity check; auto-start is scheduled when the roster size equals the capacity of the request's mode and that mode is not solo |
| JsServer.AutoStartDue | socket-server.js:100 | solo never auto-starts; 1v1 starts at two players, 4player at four, every other mode at one |
| JsServer.StandaloneServer.StartGame | socket-server.js:115-122 | a stored game becomes active at `now`; an unknown id changes nothing |
| JsServer.StandaloneServer.FireAutoStart | socket-server.js:101-108 | the delayed start is a no-op for a deleted game and otherwise activates the game with its roster kept |
| JsServer.StandaloneServer.SubmitAnswer | socket-server.js:124-166 | the same acceptance rule and sender-only update as the other server |
| JsServer.StandaloneServer.UseAttack | socket-server.js:168-221 | the same attack rule as the other server: ignored, refused for short coins, or applied at the cost |
| JsServer.StandaloneServer.NextQuestion | socket-server.js:223-278 | the index advances and flags clear; past the last question the game is reported with its status kept and floored rewards, then deleted along with its players' mappings; otherwise the fetched question is installed |
| JsServer.StandaloneServer.Disconnect | socket-server.js:280-299 | with the socket's game present, the player leaves that roster and its mapping; the game is deleted if and only if no player remains, and `player-left` is emitted only when it survives |
| JsServer.OverCapacityScenario | socket-server.js:79-100 | three joins put three players into a `1v1` game, and auto-start is scheduled on the second join only |
| SoloGame.CategoryMap | app/game/solo/page.tsx:14-22 | the seven listed names map to categories ("Mixed" to cartoons), and no other name does |
| SoloGame.FilterCategory | app/game/solo/page.tsx:30 | no filter for "Mixed", a missing or empty parameter, or an unknown name; otherwise the mapped category |
| SoloGame.OfCategory | app/game/solo/page.tsx:86 | the filter keeps exactly the questions of the category |
| SoloGame.CategoryPoolsNonEmpty | app/game/solo/page.tsx:90-92 | every category's filter finds questions, so the fall-back to the whole bank is never taken |
| SoloGame.PoolOf | app/game/solo/page.tsx:84-92 | the pool lies within the bank; it is the whole bank without a filter or when the filter finds nothing, exactly the category when any match, and never empty for a non-empty bank |
| SoloGame.Pool | app/game/solo/page.tsx:84-92 | the built-in pool is never empty and is exactly the selected category's questions, or the whole bank |
| SoloGame.SelectQuestion | app/game/solo/page.tsx:94 | every shown question comes from the pool, is well formed, and belongs to the selected category |
| SoloGame.SelectionCycles | app/game/solo/page.tsx:94 | questions repeat with the pool's length as period |
| SoloGame.Continues | app/game/solo/page.tsx:133 | a limit of 0 always continues; with a positive limit the game continues exactly while the next index is below it; a negative limit ends after the first question |
| SoloGame.UnlimitedNeverFinishes | app/game/solo/page.tsx:133 | with a limit of 0 the timeout always continues |
| SoloGame.PlayedAll | app/game/solo/page.tsx:129-139 | a game limited to N questions shows the indices 0 to N-1 in order, once each |
| SoloGame.TimeUpScoresNothing | app/game/solo/page.tsx:142-144 | the time-up answer −1 is never a bank question's correct index, and scores 0 |
| SoloGame.Reward | app/game/solo/page.tsx:149-163 | the profile gains floored `score / 10` experience and five coins per correct answer |
| SoloGame.SoloGame.constructor | app/game/solo/page.tsx:35-42 | no game id, not started, no question, index, score and count 0, no attacks, no result |
| SoloGame.SoloGame.GameCreated | app/game/solo/page.tsx:65-66 | the game id is set and nothing else changes |
| SoloGame.SoloGame.LoadQuestion | app/game/solo/page.tsx:82-102 | the selected question is shown with attacks cleared and the result hidden; score, count and index are kept |
| SoloGame.SoloGame.StartGame | app/game/solo/page.tsx:77-80 | the game is started on question 0 |
| SoloGame.SoloGame.HandleAnswer | app/game/solo/page.tsx:104-140 | without question, game id or profile nothing happens; otherwise the score gains `Points`, the count rises only when correct, the result shows, and the scheduled timeout captured the index, score and count from before this answer |
| SoloGame.SoloGame.HandleTimeUp | app/game/solo/page.tsx:142-144 | a time-up never changes the score or the count, and schedules a timeout exactly when an answer would |
| SoloGame.SoloGame.FireContinuation | app/game/solo/page.tsx:129-139 | the result is hidden; the game either moves to the next question (live index plus one, captured index plus one selects it) or rewards the captured score and count |
| SoloGame.SoloGame.FireContinuationIntended | app/game/solo/page.tsx:146-150 | the same, except that the finish rewards the score and count as they are now |
| SoloGame.SoloGame.LeaveGame | app/game/solo/page.tsx:198-220 | a confirmed leave rewards the current score and count exactly when a game id and a profile exist |
| SoloGame.StaleRewardScenario | app/game/solo/page.tsx:129-150 | a one-question game answered correctly at 400 ms shows 600 points but rewards 0 experience and 0 coins |
| SoloGame.IntendedRewardScenario | app/game/solo/page.tsx:146-150 | with the corrected timeout the same game rewards 60 experience and 5 coins |
| QuestionCard.TicksToTimeUp | components/QuestionCard.tsx:62-71 | a countdown reports time-up after at least one tick |
| QuestionCard.CountdownLength | components/QuestionCard.tsx:62-71 | an uninterrupted countdown lasts the limit rounded up to 100 ms ticks, one tick for a zero limit |
| QuestionCard.TenSecondCountdown | components/QuestionCard.tsx:62-71 | the 10 000 ms question ends after exactly 100 ticks |
| QuestionCard.TickStep | components/QuestionCard.tsx:63-69 | one tick takes 100 ms off without going below 0, and reports time-up exactly when it reaches 0 |
| QuestionCard.Reverse | components/QuestionCard.tsx:83 | reversal keeps the length |
| QuestionCard.ReverseAt | components/QuestionCard.tsx:83 | character k of the reversal is character len−1−k of the input |
| QuestionCard.ReverseInvolution | components/QuestionCard.tsx:83 | reversing twice gives the question back |
| QuestionCard.DisplayQuestion | components/QuestionCard.tsx:83 | under the reverse attack the question shows mirrored, otherwise unchanged |
| QuestionCard.DisplayOptions | components/QuestionCard.tsx:84 | the options are kept in order, with the fake appended exactly when it is a non-empty string |
| QuestionCard.IndicesExcept | components/QuestionCard.tsx:131-135 | the rendered indices are exactly the range less the skipped one |
| QuestionCard.RenderedIndices | components/QuestionCard.tsx:131-135 | as written, every real option is rendered, and the fake one exactly when a fake is present and results are shown |
| QuestionCard.RenderedIndicesIntended | components/QuestionCard.tsx:131-135 | corrected, every real option is rendered, and the fake one exactly when a fake is present and results are not shown |
| QuestionCard.FakeHiddenWhileAnswering | components/QuestionCard.tsx:131-135 | as written, the fake option is rendered if and only if results are shown; the real options always are |
| QuestionCard.FakeShownWhileAnsweringIntended | components/QuestionCard.tsx:132-133 | corrected, the fake option is rendered if and only if results are not shown, and nothing past it ever is |
| QuestionCard.QuestionCard.constructor | components/QuestionCard.tsx:37-39 | the countdown starts full, nothing selected, not frozen |
| QuestionCard.QuestionCard.QuestionChanged | components/QuestionCard.tsx:53-57 | a new question or limit resets the countdown, the selection and the freeze |
| QuestionCard.QuestionCard.FreezeStarted | components/QuestionCard.tsx:42-44 | the freeze attack freezes the card and changes nothing else |
| QuestionCard.QuestionCard.FreezeExpired | components/QuestionCard.tsx:45-47 | the freeze ends 2000 ms later and nothing else changes |
| QuestionCard.QuestionCard.Tick | components/QuestionCard.tsx:59-74 | a disabled or frozen card does not count down; otherwise 100 ms pass, and at 100 ms left or less the countdown ends at 0 and reports time-up; a selected answer does not stop it |
| QuestionCard.QuestionCard.HandleAnswer | components/QuestionCard.tsx:76-81 | only the first click on an enabled card is reported, with the time spent so far, which lies between 0 and the limit |
| AttackPanel.CooldownRemaining | components/AttackPanel.tsx:104-107 | a live cooldown shows the remaining time rounded up to whole seconds, at least 1; otherwise 0 |
| AttackPanel.CooldownKey | components/AttackPanel.tsx:23 | the key is the kind, a dash at the kind's length, then the target |
| AttackPanel.IsOnCooldown | components/AttackPanel.tsx:24 | a missing or expired entry is not live; an entry later than a non-negative `now` is |
| AttackPanel.ButtonDisabled | components/AttackPanel.tsx:102-113 | the button is disabled when the panel is, when the coins fall short, or when seconds remain on the pair's cooldown, and enabled otherwise |
| AttackPanel.EnabledButtonFires | components/AttackPanel.tsx:102-113 | clicking an enabled button passes every check `handleAttack` makes |
| AttackPanel.CooldownKeyInjective | components/AttackPanel.tsx:23 | distinct (kind, target) pairs have distinct cooldown keys |
| AttackPanel.CooldownIsolation | components/AttackPanel.tsx:29-32 | setting one pair's cooldown leaves every other pair's cooldown as it was |
| AttackPanel.TargetName | components/AttackPanel.tsx:34 | the notice names the first opponent with the target's id, or "Opponent" when there is none or its name is empty |
| AttackPanel.AttackPanel.constructor | components/AttackPanel.tsx:16-17 | no notice shown and no cooldowns |
| AttackPanel.AttackPanel.HandleAttack | components/AttackPanel.tsx:19-40 | the attack is sent if and only if its kind is catalogued, the coins cover its cost and its pair is not cooling down; then only that pair's cooldown is set to `now + 5000` and the notice shown; otherwise nothing changes |
| AttackPanel.AttackPanel.ClearLastAttack | components/AttackPanel.tsx:38 | the notice is cleared and the cooldowns are kept |
| AttackPanel.FiredPairBlocked | components/AttackPanel.tsx:24-32 | a pair that fired blocks repeats for the next 5000 ms and shows at least one second left |
| GameLobby.CanStartRule | components/GameLobby.tsx:48 | solo can always start; 1v1 needs 2 players, 4player 4, random and friends 1 |
| GameLobby.CanStartMonotone | components/GameLobby.tsx:48 | more players never disable the start button |
| GameLobby.RequiredPlayers | components/GameLobby.tsx:48 | two players exactly for 1v1, four exactly for 4player, one for every other mode |
| GameLobby.CanStart | components/GameLobby.tsx:48 | solo can always start; any other mode exactly when the roster reaches the required count |
| GameLobby.Label | components/GameLobby.tsx:107 | "Start Game" exactly for solo; otherwise the current and required counts, the latter at least 1 |
| GameLobby.LabelAgreesWithCanStart | components/GameLobby.tsx:107 | outside solo the label shows the current count, and the button is enabled if and only if that count reaches the shown requirement |
| GameLobby.RequiredIsServerCapacity | components/GameLobby.tsx:48 | the lobby waits for the same count at which the server's capacity check fills the roster |

## Findings

| source | as written | input that shows it | evidently intended | confidence | as-written member | corrected member |
|---|---|---|---|---|---|---|
| app/game/solo/page.tsx:129-150 | the result timeout calls the `finishGame` of the render that handled the last answer, and that function reads the `score` and `correctAnswers` from before that answer | `?questions=1`, the one answer correct after 400 ms: the page shows 600 points, the profile gains 0 experience and 0 coins | the last answer counts: 60 experience and 5 coins | high; not executed | SoloGame.StaleRewardScenario | SoloGame.IntendedRewardScenario |
| components/QuestionCard.tsx:132-133 | the fake option is skipped when results are NOT shown, the opposite of the comment above the test | a fake option "X" while the player is answering (`showResult` false): the fifth button is not rendered, so the attack has no visible effect until the answer is in | the dummy fifth option is shown among the real ones while answering and dropped at the results | medium; not executed | QuestionCard.FakeHiddenWhileAnswering | QuestionCard.FakeShownWhileAnsweringIntended |

In the first finding, the as-written timeout is `SoloGame.SoloGame.FireContinuation`
and the corrected one is `SoloGame.SoloGame.FireContinuationIntended`. They
differ only in which score the finish reads. In the second, `RenderedIndices`
and `RenderedIndicesIntended` differ only in which value of `showResult`
skips the fake.

## Left out

- **Environment.** The Supabase database, authentication, Socket.IO
  transport and rooms, and the `emit`s are not modelled. Each handler's
  outcome value stands for what it emits.
- **Database writes.** The `game_answers` and `attacks_used` inserts, the
  per-attack `profiles.coins` update, the solo `games` status update and the
  inserted game row are not modelled. The new coin balance is the attacker's
  entry in the stored game. The solo page's game row is reduced to
  `GameCreated(id)`.
- **Failures.** The `try`/`catch` error replies ("Failed to …") are not
  modelled: the database is not modelled, so nothing here can throw.
- **Concurrency.** Every handler and timer runs to completion, with no
  interleaving at its `await`s. The timers' delays (3000, 2000 and 100 ms)
  are represented only by when a driver calls the matching method.
- **Object identity.** Games and players are values in the maps. Aliasing is
  not modelled:
  - the object `getGame` returns and a later mutation, such as the
    `question-complete` timer emitting a game that changed after it was
    scheduled;
  - the same object held by two sockets.
- **Random question fetch.** The `next-question` query (`order('random()')`)
  is an input, `fetched`.
- **Unused arguments.** `roomCode` is never used by the source, and
  `createGame`'s `maxPlayers` and `createdBy` are not stored. `questionId`
  only feeds the `game_answers` insert (server/socket.ts:252), which is left
  out with the other database writes.
- Scoring.Points, MatchState.Answered and the submit handlers: take
  `answerIndex` and `timeTaken` as integers. The socket payload is untyped
  JSON, so a client could send a fraction (a `timeTaken` of 412.5 would
  score 587.5) or a string (which never equals `correctAnswer`). The game
  pages send whole numbers.
- **Presentation.**
  - Icons, animations, blur and shake styling, the colour of the timer and
    the answer-state classes are not modelled.
  - The seconds display `(timeLeft / 1000).toFixed(1)` is not modelled.
  - The questions' `id` (`q-${index}`) and `created_at` fields are not
    modelled.
  - Navigation with `router.push` and the `confirm` dialog are not modelled;
    the dialog is the `confirmed` parameter.
- JsServer.StandaloneServer.JoinGame: requires the fetched profile's id to
  be the sender's id. The profile row is read by `.eq('id', userId)`; the
  source checks the roster by `socket.data.userId` and pushes `profile.id`.
- TsServer.GameManager.CreateGame: promises the registry invariant only
  for a new id. The handler calls it only for an absent game (lines 187-190);
  replacing a populated game would leave its players' mappings pointing at
  an empty roster.
- QuestionCard.QuestionCard.constructor and QuestionChanged: require
  a non-negative time limit. Both pages pass 10000; a negative limit would
  start the countdown below zero.
- SoloGame.SoloGame.HandleAnswer: there is one answer per call. The card
  keeps counting after an answer (`Tick` ignores the selection), so a
  time-up can follow an answer made with under three seconds left and
  schedule a second timeout. The model captures the second `HandleAnswer`
  call, but no lemma follows the resulting double advance. The
  `clearInterval` at time-up is not modelled either: a `Tick` at 0 reports
  time-up again. In the source the interval is re-created whenever the
  `onTimeUp` property changes, which the solo page passes as a new function
  on every render, so a time-up can likewise fire more than once.
- **SoloGame totals.** `totalQuestions` is any integer.
  `parseInt` returning `NaN` for a malformed `questions` parameter is not
  modelled.
- SoloGame.Profile: holds whole-number experience and coins. A null
  `xp` or `coins` is read as 0 (`|| 0`) before the model sees it.
- QuestionCard.Reverse: works on Dafny characters (Unicode scalar
  values). `split('')` splits UTF-16 code units, so the two differ for
  characters outside the Basic Multilingual Plane.
- MatchState.ServerAttackCost: covers the five listed kinds and 0 for
  anything else. A name that is a JavaScript object-prototype key (e.g.
  `constructor`) would look up a non-number in `attackCosts`; that is not
  modelled.
- GameLobby: its members take the typed `GameMode`. The battle page casts
  the URL segment (`params.mode as GameMode`), so an unlisted string can reach
  the lobby; it then needs one player, as `MatchState.ModeCapacity` gives for
  any unlisted mode string, but the lobby's members are not stated on strings.
- **Other pages.** The battle, dashboard, leaderboard, results, category
  selection and authentication pages and the question seeding route are not
  part of this model.
