/**
 * server/socket.ts: the `GameManager` registry (two maps, `games` and
 * `playerGames`) and the Socket.IO handlers that mutate the games it holds.
 * Profile and question reads are inputs; the clock is the `now` parameter;
 * the 3000 ms auto-start callback is `GameManager.StartGame` fired later.
 */
module TsServer {
  import opened Wrappers
  import opened GameTypes
  import opened MatchState

  /**
   * What `joinGame` does to the game `g` stored under `gameId`: an
   * already-present id returns the game untouched, a full game returns null
   * untouched, otherwise the player is appended and mapped to the game.
   */
  ghost predicate JoinEffect(gameId: string, g: GameState, player: Profile, r: Option<GameState>,
    games0: map<string, GameState>, pg0: map<string, string>,
    games1: map<string, GameState>, pg1: map<string, string>)
  {
    if player.id in Ids(g.players) then
      r == Some(g) && games1 == games0 && pg1 == pg0
    else if |g.players| >= ModeCapacity(g.mode) then
      r == None && games1 == games0 && pg1 == pg0
    else
      var joined := g.(players := g.players + [JoinedPlayer(player)]);
      r == Some(joined) && games1 == games0[gameId := joined] && pg1 == pg0[player.id := gameId]
  }

  /**
   * What `removePlayer(playerId)` does: with no truthy mapping to a stored
   * game, null and nothing changes; otherwise the player leaves that roster
   * and loses its mapping, and the game is deleted exactly when its roster
   * is then empty.
   */
  ghost predicate RemovalEffect(playerId: string, r: Option<GameState>,
    games0: map<string, GameState>, pg0: map<string, string>,
    games1: map<string, GameState>, pg1: map<string, string>)
  {
    if !(playerId in pg0 && Truthy(pg0[playerId]) && pg0[playerId] in games0) then
      r == None && games1 == games0 && pg1 == pg0
    else
      var gameId := pg0[playerId];
      var g := games0[gameId];
      var left := g.(players := WithoutPlayer(g.players, playerId));
      && r == Some(left)
      && |left.players| == |g.players| - 1
      && Ids(left.players) == Ids(g.players) - {playerId}
      && pg1 == pg0 - {playerId}
      && games1 == if |left.players| == 0 then games0 - {gameId} else games0[gameId := left]
  }

  class GameManager {
    var games: map<string, GameState>
    var playerGames: map<string, string>

    ghost predicate Valid()
      reads this
    {
      RegistryInvariant(games, playerGames, true)
    }

    constructor ()
      ensures Valid() && games == map[] && playerGames == map[]
    {
      games := map[];
      playerGames := map[];
    }

    /** Stores a new waiting game, replacing whatever was stored under that id. */
    method CreateGame(gameId: string, mode: string, maxPlayers: int, createdBy: string) returns (game: GameState)
      modifies this
      ensures game == NewGame(gameId, mode)
      ensures games == old(games)[gameId := game] && playerGames == old(playerGames)
      ensures old(Valid()) && gameId !in old(games) ==> Valid()
    {
      game := NewGame(gameId, mode);
      games := games[gameId := game];
    }

    method JoinGame(gameId: string, player: Profile) returns (r: Option<GameState>)
      requires Valid()
      modifies this
      ensures Valid()
      ensures gameId !in old(games) ==> r == None && games == old(games) && playerGames == old(playerGames)
      ensures gameId in old(games) ==>
        JoinEffect(gameId, old(games)[gameId], player, r, old(games), old(playerGames), games, playerGames)
      ensures r.Some? ==> player.id in Ids(r.value.players) && |r.value.players| <= ModeCapacity(r.value.mode)
    {
      if gameId !in games {
        return None;
      }
      var game := games[gameId];
      if FindPlayer(game.players, player.id).Some? {
        return Some(game);
      }
      if |game.players| >= ModeCapacity(game.mode) {
        return None;
      }
      var entry := JoinedPlayer(player);
      IdsAppend(game.players, entry);
      AppendKeepsUnique(game.players, entry);
      game := game.(players := game.players + [entry]);
      games := games[gameId := game];
      playerGames := playerGames[player.id := gameId];
      r := Some(game);
    }

    method GetGame(gameId: string) returns (r: Option<GameState>)
      ensures r.Some? <==> gameId in games
      ensures r.Some? ==> r.value == games[gameId]
    {
      r := if gameId in games then Some(games[gameId]) else None;
    }

    /** The game a player is mapped to; under the invariant the player is on its roster. */
    method GetPlayerGame(playerId: string) returns (r: Option<GameState>)
      requires Valid()
      ensures r.Some? <==> playerId in playerGames && Truthy(playerGames[playerId])
      ensures r.Some? ==> r.value == games[playerGames[playerId]] && playerId in Ids(r.value.players)
    {
      if playerId in playerGames && Truthy(playerGames[playerId]) {
        var gameId := playerGames[playerId];
        r := Some(games[gameId]);
      } else {
        r := None;
      }
    }

    /** Marks a stored game active, whatever its status; the `start-game` handler and the auto-start callback. */
    method StartGame(gameId: string, now: int) returns (r: Option<GameState>)
      requires Valid()
      modifies this
      ensures Valid() && playerGames == old(playerGames)
      ensures gameId !in old(games) ==> r == None && games == old(games)
      ensures gameId in old(games) ==>
        && r == Some(old(games)[gameId].(status := Active, startTime := Some(now)))
        && games == old(games)[gameId := r.value]
    {
      if gameId !in games {
        return None;
      }
      var game := games[gameId].(status := Active, startTime := Some(now));
      games := games[gameId := game];
      r := Some(game);
    }

    /** Removes a game and the mapping of every player on its roster. */
    method EndGame(gameId: string) returns (r: Option<GameState>)
      requires Valid()
      modifies this
      ensures Valid()
      ensures gameId !in old(games) ==> r == None && games == old(games) && playerGames == old(playerGames)
      ensures gameId in old(games) ==>
        && r == Some(old(games)[gameId].(status := Finished))
        && games == old(games) - {gameId}
        && playerGames == old(playerGames) - Ids(old(games)[gameId].players)
    {
      if gameId !in games {
        return None;
      }
      var game := games[gameId].(status := Finished);
      games := games - {gameId};
      playerGames := RemoveMappings(playerGames, game.players);
      r := Some(game);
    }

    /**
     * Takes a player off the roster of the game it is mapped to and drops
     * the mapping; the game is deleted exactly when its roster becomes empty.
     */
    method RemovePlayer(playerId: string) returns (r: Option<GameState>)
      requires Valid()
      modifies this
      ensures Valid()
      ensures RemovalEffect(playerId, r, old(games), old(playerGames), games, playerGames)
    {
      if playerId !in playerGames || !Truthy(playerGames[playerId]) {
        return None;
      }
      var gameId := playerGames[playerId];
      if gameId !in games {
        return None;
      }
      var game := games[gameId];
      WithoutPlayerFacts(game.players, playerId);
      game := game.(players := WithoutPlayer(game.players, playerId));
      games := games[gameId := game];
      playerGames := playerGames - {playerId};
      if |game.players| == 0 {
        games := games - {gameId};
      }
      r := Some(game);
    }
  }

  /**
   * This variant's auto-start test: the roster size against `totalQuestions`.
   * It never holds for solo, nor for a ten-question game within its mode's
   * capacity.
   */
  function AutoStartDue(g: GameState): (due: bool)
    ensures g.mode == "solo" ==> !due
    ensures g.totalQuestions == DefaultTotalQuestions && |g.players| <= ModeCapacity(g.mode) ==> !due
  {
    |g.players| == g.totalQuestions && g.mode != "solo"
  }

  /** No stored game can meet that test: rosters hold at most four players, and every game has ten questions. */
  lemma AutoStartNeverDue(id: string, g: GameState)
    requires GameInvariant(id, g, true)
    ensures !AutoStartDue(g)
  {
  }

  datatype JoinOutcome = ProfileNotFound | CouldNotJoin | Joined(game: GameState, autoStartScheduled: bool)

  /** The `join-game` handler; `profile` is the fetched row of the sender, `None` when absent. */
  method HandleJoinGame(gm: GameManager, userId: string, gameId: string, mode: string, profile: Option<Profile>)
    returns (out: JoinOutcome)
    requires gm.Valid()
    modifies gm
    ensures gm.Valid()
    ensures profile.None? ==> out == ProfileNotFound && gm.games == old(gm.games) && gm.playerGames == old(gm.playerGames)
    ensures profile.Some? ==>
      var base := if gameId in old(gm.games) then old(gm.games)[gameId] else NewGame(gameId, mode);
      && out != ProfileNotFound
      && JoinEffect(gameId, base, profile.value, if out.Joined? then Some(out.game) else None,
           old(gm.games)[gameId := base], old(gm.playerGames), gm.games, gm.playerGames)
    ensures out.Joined? ==> !out.autoStartScheduled
  {
    if profile.None? {
      return ProfileNotFound;
    }
    var existing := gm.GetGame(gameId);
    if existing.None? {
      var _ := gm.CreateGame(gameId, mode, ModeCapacity(mode), userId);
    }
    var updated := gm.JoinGame(gameId, profile.value);
    if updated.None? {
      return CouldNotJoin;
    }
    var game := updated.value;
    AutoStartNeverDue(gameId, game);
    out := Joined(game, AutoStartDue(game));
  }

  datatype SubmitOutcome = Ignored | Submitted(isCorrect: bool, score: int, completeScheduled: bool)

  /** The `submit-answer` handler; `userId` is the sender. */
  method HandleSubmitAnswer(gm: GameManager, userId: string, gameId: string, answerIndex: int, timeTaken: int)
    returns (out: SubmitOutcome)
    requires gm.Valid()
    modifies gm
    ensures gm.Valid() && gm.playerGames == old(gm.playerGames)
    ensures !(gameId in old(gm.games) && SubmitAccepted(old(gm.games)[gameId], userId)) ==>
      out == Ignored && gm.games == old(gm.games)
    ensures gameId in old(gm.games) && SubmitAccepted(old(gm.games)[gameId], userId) ==>
      var g := old(gm.games)[gameId];
      var after := AfterSubmit(g, userId, answerIndex, timeTaken);
      var i := FindPlayer(g.players, userId).value;
      && gm.games == old(gm.games)[gameId := after]
      && out == Submitted(answerIndex == g.currentQuestion.value.correctAnswer, after.players[i].score,
                          AllAnswered(after.players, g.mode))
  {
    var found := gm.GetGame(gameId);
    if found.None? || found.value.currentQuestion.None? {
      return Ignored;
    }
    var game := found.value;
    var i := FindPlayer(game.players, userId);
    if i.None? || game.players[i.value].answered {
      return Ignored;
    }
    var isCorrect := answerIndex == game.currentQuestion.value.correctAnswer;
    var player := Answered(game.players[i.value], isCorrect, timeTaken);
    var players := game.players[i.value := player];
    RosterUpdateKeepsInvariant(gameId, game, players, true);
    game := game.(players := players);
    gm.games := gm.games[gameId := game];
    out := Submitted(isCorrect, player.score, AllAnswered(game.players, game.mode));
  }

  /** The `use-attack` handler; `userId` is the attacker. */
  method HandleUseAttack(gm: GameManager, userId: string, gameId: string, targetId: string, attackType: string)
    returns (out: AttackOutcome)
    requires gm.Valid()
    modifies gm
    ensures gm.Valid() && gm.playerGames == old(gm.playerGames)
    ensures gameId !in old(gm.games) ==> out == AttackIgnored && gm.games == old(gm.games)
    ensures gameId in old(gm.games) ==>
      var g := old(gm.games)[gameId];
      && out == AttackDecision(g, userId, targetId, attackType)
      && gm.games == if out.Attacked? then old(gm.games)[gameId := AfterAttackGame(g, userId, targetId, attackType)]
                     else old(gm.games)
  {
    var found := gm.GetGame(gameId);
    if found.None? {
      return AttackIgnored;
    }
    var game := found.value;
    var attacker := FindPlayer(game.players, userId);
    var target := FindPlayer(game.players, targetId);
    if attacker.None? || target.None? {
      return AttackIgnored;
    }
    var cost := ServerAttackCost(attackType);
    if game.players[attacker.value].coins < cost {
      return NotEnoughCoins;
    }
    var players := AfterAttack(game.players, attacker.value, target.value, cost);
    RosterUpdateKeepsInvariant(gameId, game, players, true);
    gm.games := gm.games[gameId := game.(players := players)];
    out := Attacked(cost);
  }

  datatype NextOutcome =
    | NoGame
    | GameFinished(game: GameState, updates: seq<StatsUpdate>)
    | NewQuestion(question: QuestionState)
    | NoQuestion

  /**
   * The `next-question` handler: advance the index and clear every answer
   * flag; past the last question end the game and compute its rewards
   * (experience unfloored), otherwise install the fetched question, if any.
   */
  method HandleNextQuestion(gm: GameManager, gameId: string, fetched: Option<QuestionRow>, now: int)
    returns (out: NextOutcome)
    requires gm.Valid()
    modifies gm
    ensures gm.Valid()
    ensures gameId !in old(gm.games) ==> out == NoGame && gm.games == old(gm.games) && gm.playerGames == old(gm.playerGames)
    ensures gameId in old(gm.games) && old(gm.games)[gameId].questionIndex + 1 >= old(gm.games)[gameId].totalQuestions ==>
      var g := old(gm.games)[gameId];
      && out.GameFinished?
      && out.game.status == Finished && Advanced(g, out.game.(status := g.status))
      && gm.games == old(gm.games) - {gameId}
      && gm.playerGames == old(gm.playerGames) - Ids(g.players)
      && |out.updates| == |g.players|
      && forall k :: 0 <= k < |g.players| ==>
           out.updates[k] == StatsUpdate(g.players[k].id, Scoring.XpExact(g.players[k].score),
                                         Scoring.CoinsGained(g.players[k].correctAnswers), g.players[k].correctAnswers)
    ensures gameId in old(gm.games) && old(gm.games)[gameId].questionIndex + 1 < old(gm.games)[gameId].totalQuestions ==>
      var g := old(gm.games)[gameId];
      && gameId in gm.games && gm.playerGames == old(gm.playerGames)
      && gm.games == old(gm.games)[gameId := gm.games[gameId]]
      && Advanced(g, gm.games[gameId].(currentQuestion := g.currentQuestion))
      && (fetched.None? ==> out == NoQuestion && gm.games[gameId].currentQuestion == g.currentQuestion)
      && (fetched.Some? ==>
            var q := fetched.value;
            && out == NewQuestion(QuestionState(q.id, q.question, q.options, q.correctAnswer, q.category, QuestionTimeLimit, now))
            && gm.games[gameId].currentQuestion == Some(out.question))
  {
    var found := gm.GetGame(gameId);
    if found.None? {
      return NoGame;
    }
    var game := found.value;
    var players := ResetAnswers(game.players);
    RosterUpdateKeepsInvariant(gameId, game, players, true);
    game := game.(questionIndex := game.questionIndex + 1, players := players);
    gm.games := gm.games[gameId := game];
    if game.questionIndex >= game.totalQuestions {
      var finished := gm.EndGame(gameId);
      var updates := RewardUpdates(finished.value.players, false);
      out := GameFinished(finished.value, updates);
    } else if fetched.Some? {
      var q := fetched.value;
      var slot := QuestionState(q.id, q.question, q.options, q.correctAnswer, q.category, QuestionTimeLimit, now);
      game := game.(currentQuestion := Some(slot));
      gm.games := gm.games[gameId := game];
      out := NewQuestion(slot);
    } else {
      out := NoQuestion;
    }
  }

  /** The `disconnect` handler: `socketGameId` is the id the socket joined, `""` when none. */
  method HandleDisconnect(gm: GameManager, userId: string, socketGameId: string) returns (r: Option<GameState>)
    requires gm.Valid()
    modifies gm
    ensures gm.Valid()
    ensures !Truthy(socketGameId) ==> r == None && gm.games == old(gm.games) && gm.playerGames == old(gm.playerGames)
    ensures Truthy(socketGameId) ==> RemovalEffect(userId, r, old(gm.games), old(gm.playerGames), gm.games, gm.playerGames)
    ensures r.Some? ==>
      && userId in old(gm.playerGames)
      && userId !in gm.playerGames
      && userId !in Ids(r.value.players)
      && (r.value.players == [] <==> r.value.gameId !in gm.games)
  {
    if Truthy(socketGameId) {
      r := gm.RemovePlayer(userId);
    } else {
      r := None;
    }
  }
}
