/**
 * socket-server.js: the same match state machine written inline over the
 * module-level `games` and `playerGames` maps. It differs from server/socket.ts
 * in five places: a join has no capacity check; the auto-start test compares
 * the roster with the capacity of the requested mode; experience is floored;
 * the finish path deletes the game itself and keeps its status; and a
 * disconnect leaves the game the socket joined rather than the mapped one.
 */
module JsServer {
  import opened Wrappers
  import opened GameTypes
  import opened MatchState

  datatype JoinOutcome = ProfileNotFound | Joined(game: GameState, autoStartScheduled: bool)

  datatype SubmitOutcome = Ignored | Submitted(isCorrect: bool, score: int, completeScheduled: bool)

  datatype NextOutcome =
    | NoGame
    | GameFinished(game: GameState, updates: seq<StatsUpdate>)
    | NewQuestion(question: QuestionState)
    | NoQuestion

  /**
   * This variant's auto-start test, on the mode named in the join request:
   * never for solo; at two players for 1v1, at four for 4player, and at the
   * first player for every other mode.
   */
  function AutoStartDue(playerCount: int, mode: string): (due: bool)
    ensures mode == "solo" ==> !due
    ensures mode == "1v1" ==> (due <==> playerCount == 2)
    ensures mode == "4player" ==> (due <==> playerCount == 4)
    ensures mode != "solo" && mode != "1v1" && mode != "4player" ==> (due <==> playerCount == 1)
  {
    playerCount == ModeCapacity(mode) && mode != "solo"
  }

  class StandaloneServer {
    var games: map<string, GameState>
    var playerGames: map<string, string>

    ghost predicate Valid()
      reads this
    {
      RegistryInvariant(games, playerGames, false)
    }

    constructor ()
      ensures Valid() && games == map[] && playerGames == map[]
    {
      games := map[];
      playerGames := map[];
    }

    /**
     * The `join-game` handler. `profile` is the sender's row, fetched by
     * `userId`, so its id is `userId`. The game is created when absent; the
     * sender is appended unless already present, with no capacity check.
     */
    method JoinGame(userId: string, gameId: string, mode: string, profile: Option<Profile>) returns (out: JoinOutcome)
      requires Valid()
      requires profile.Some? ==> profile.value.id == userId
      modifies this
      ensures Valid()
      ensures profile.None? ==> out == ProfileNotFound && games == old(games) && playerGames == old(playerGames)
      ensures profile.Some? ==>
        var base := if gameId in old(games) then old(games)[gameId] else NewGame(gameId, mode);
        var joined := if userId in Ids(base.players) then base else base.(players := base.players + [JoinedPlayer(profile.value)]);
        && out == Joined(joined, AutoStartDue(|joined.players|, mode))
        && games == old(games)[gameId := joined]
        && playerGames == if userId in Ids(base.players) then old(playerGames) else old(playerGames)[userId := gameId]
    {
      if profile.None? {
        return ProfileNotFound;
      }
      if gameId !in games {
        games := games[gameId := NewGame(gameId, mode)];
      }
      var game := games[gameId];
      if FindPlayer(game.players, userId).None? {
        var entry := JoinedPlayer(profile.value);
        IdsAppend(game.players, entry);
        AppendKeepsUnique(game.players, entry);
        game := game.(players := game.players + [entry]);
        games := games[gameId := game];
        playerGames := playerGames[userId := gameId];
      }
      out := Joined(game, AutoStartDue(|game.players|, mode));
    }

    /** The `start-game` handler: a stored game becomes active, whatever its status. */
    method StartGame(gameId: string, now: int) returns (started: Option<GameState>)
      requires Valid()
      modifies this
      ensures Valid() && playerGames == old(playerGames)
      ensures gameId !in old(games) ==> started == None && games == old(games)
      ensures gameId in old(games) ==>
        && started == Some(old(games)[gameId].(status := Active, startTime := Some(now)))
        && games == old(games)[gameId := started.value]
    {
      if gameId !in games {
        return None;
      }
      var game := games[gameId].(status := Active, startTime := Some(now));
      games := games[gameId := game];
      started := Some(game);
    }

    /** The auto-start callback, 3000 ms after a join: a no-op when the game is gone. */
    method FireAutoStart(gameId: string, now: int) returns (started: Option<GameState>)
      requires Valid()
      modifies this
      ensures Valid() && playerGames == old(playerGames)
      ensures gameId !in old(games) ==> started == None && games == old(games)
      ensures gameId in old(games) ==>
        && started.Some? && started.value.status == Active && started.value.startTime == Some(now)
        && started.value.players == old(games)[gameId].players
        && games == old(games)[gameId := started.value]
    {
      started := StartGame(gameId, now);
    }

    /** The `submit-answer` handler: the same rule as the other server. */
    method SubmitAnswer(userId: string, gameId: string, answerIndex: int, timeTaken: int) returns (out: SubmitOutcome)
      requires Valid()
      modifies this
      ensures Valid() && playerGames == old(playerGames)
      ensures !(gameId in old(games) && SubmitAccepted(old(games)[gameId], userId)) ==>
        out == Ignored && games == old(games)
      ensures gameId in old(games) && SubmitAccepted(old(games)[gameId], userId) ==>
        var g := old(games)[gameId];
        var after := AfterSubmit(g, userId, answerIndex, timeTaken);
        var i := FindPlayer(g.players, userId).value;
        && games == old(games)[gameId := after]
        && out == Submitted(answerIndex == g.currentQuestion.value.correctAnswer, after.players[i].score,
                            AllAnswered(after.players, g.mode))
    {
      if gameId !in games || games[gameId].currentQuestion.None? {
        return Ignored;
      }
      var game := games[gameId];
      var i := FindPlayer(game.players, userId);
      if i.None? || game.players[i.value].answered {
        return Ignored;
      }
      var isCorrect := answerIndex == game.currentQuestion.value.correctAnswer;
      var player := Answered(game.players[i.value], isCorrect, timeTaken);
      var players := game.players[i.value := player];
      RosterUpdateKeepsInvariant(gameId, game, players, false);
      game := game.(players := players);
      games := games[gameId := game];
      out := Submitted(isCorrect, player.score, AllAnswered(game.players, game.mode));
    }

    /** The `use-attack` handler; `userId` is the attacker. */
    method UseAttack(userId: string, gameId: string, targetId: string, attackType: string) returns (out: AttackOutcome)
      requires Valid()
      modifies this
      ensures Valid() && playerGames == old(playerGames)
      ensures gameId !in old(games) ==> out == AttackIgnored && games == old(games)
      ensures gameId in old(games) ==>
        var g := old(games)[gameId];
        && out == AttackDecision(g, userId, targetId, attackType)
        && games == if out.Attacked? then old(games)[gameId := AfterAttackGame(g, userId, targetId, attackType)]
                    else old(games)
    {
      if gameId !in games {
        return AttackIgnored;
      }
      var game := games[gameId];
      var attacker := FindPlayer(game.players, userId);
      var target := FindPlayer(game.players, targetId);
      if attacker.None? || target.None? {
        return AttackIgnored;
      }
      var cost := ServerAttackCost(attackType);
      if game.players[attacker.value].coins < cost {
        return NotEnoughCoins;
      }
      var players := AfterAttack(game.players, attacker.value, target.value, cost);
      RosterUpdateKeepsInvariant(gameId, game, players, false);
      games := games[gameId := game.(players := players)];
      out := Attacked(cost);
    }

    /**
     * The `next-question` handler. Past the last question the game is
     * reported with floored experience, then deleted with the mapping of
     * every roster player; its status is left as it was.
     */
    method NextQuestion(gameId: string, fetched: Option<QuestionRow>, now: int) returns (out: NextOutcome)
      requires Valid()
      modifies this
      ensures Valid()
      ensures gameId !in old(games) ==> out == NoGame && games == old(games) && playerGames == old(playerGames)
      ensures gameId in old(games) && old(games)[gameId].questionIndex + 1 >= old(games)[gameId].totalQuestions ==>
        var g := old(games)[gameId];
        && out.GameFinished? && Advanced(g, out.game)
        && games == old(games) - {gameId}
        && playerGames == old(playerGames) - Ids(g.players)
        && |out.updates| == |g.players|
        && forall k :: 0 <= k < |g.players| ==>
             out.updates[k] == StatsUpdate(g.players[k].id, Scoring.XpFloor(g.players[k].score) as real,
                                           Scoring.CoinsGained(g.players[k].correctAnswers), g.players[k].correctAnswers)
      ensures gameId in old(games) && old(games)[gameId].questionIndex + 1 < old(games)[gameId].totalQuestions ==>
        var g := old(games)[gameId];
        && gameId in games && playerGames == old(playerGames)
        && games == old(games)[gameId := games[gameId]]
        && Advanced(g, games[gameId].(currentQuestion := g.currentQuestion))
        && (fetched.None? ==> out == NoQuestion && games[gameId].currentQuestion == g.currentQuestion)
        && (fetched.Some? ==>
              var q := fetched.value;
              && out == NewQuestion(QuestionState(q.id, q.question, q.options, q.correctAnswer, q.category, QuestionTimeLimit, now))
              && games[gameId].currentQuestion == Some(out.question))
    {
      if gameId !in games {
        return NoGame;
      }
      var game := games[gameId];
      var players := ResetAnswers(game.players);
      RosterUpdateKeepsInvariant(gameId, game, players, false);
      game := game.(questionIndex := game.questionIndex + 1, players := players);
      games := games[gameId := game];
      if game.questionIndex >= game.totalQuestions {
        var updates := RewardUpdates(game.players, true);
        out := GameFinished(game, updates);
        games := games - {gameId};
        playerGames := RemoveMappings(playerGames, game.players);
      } else if fetched.Some? {
        var q := fetched.value;
        var slot := QuestionState(q.id, q.question, q.options, q.correctAnswer, q.category, QuestionTimeLimit, now);
        game := game.(currentQuestion := Some(slot));
        games := games[gameId := game];
        out := NewQuestion(slot);
      } else {
        out := NoQuestion;
      }
    }

    /**
     * The `disconnect` handler: `socketGameId` is the id the socket joined,
     * `""` when none. Only the leaving player and its mapping go; the game
     * is deleted exactly when its roster is then empty, and `player-left`
     * (the returned game) is emitted only when it survives.
     */
    method Disconnect(userId: string, socketGameId: string) returns (left: Option<GameState>)
      requires Valid()
      modifies this
      ensures Valid()
      ensures !(Truthy(socketGameId) && socketGameId in old(games)) ==>
        left == None && games == old(games) && playerGames == old(playerGames)
      ensures Truthy(socketGameId) && socketGameId in old(games) ==>
        var g := old(games)[socketGameId];
        var rest := g.(players := WithoutPlayer(g.players, userId));
        && left == (if |rest.players| == 0 then None else Some(rest))
        && Ids(rest.players) == Ids(g.players) - {userId}
        && playerGames == old(playerGames) - {userId}
        && games == if |rest.players| == 0 then old(games) - {socketGameId} else old(games)[socketGameId := rest]
    {
      if !Truthy(socketGameId) || socketGameId !in games {
        return None;
      }
      var game := games[socketGameId];
      WithoutPlayerFacts(game.players, userId);
      game := game.(players := WithoutPlayer(game.players, userId));
      playerGames := playerGames - {userId};
      if |game.players| == 0 {
        games := games - {socketGameId};
        left := None;
      } else {
        games := games[socketGameId := game];
        left := Some(game);
      }
    }
  }

  /**
   * Nothing bounds a roster here: three players join a '1v1' game and all
   * three are kept; auto-start is scheduled on the second join only.
   */
  method OverCapacityScenario() returns (players: int, scheduledSecond: bool, scheduledThird: bool)
    ensures players == 3 > ModeCapacity("1v1")
    ensures scheduledSecond && !scheduledThird
  {
    var server := new StandaloneServer();
    var a := server.JoinGame("a", "g", "1v1", Some(Profile("a", "A", "", 50)));
    var b := server.JoinGame("b", "g", "1v1", Some(Profile("b", "B", "", 50)));
    var c := server.JoinGame("c", "g", "1v1", Some(Profile("c", "C", "", 50)));
    assert "b" !in Ids(a.game.players);
    assert "c" !in Ids(b.game.players);
    players := |c.game.players|;
    scheduledSecond := b.autoStartScheduled;
    scheduledThird := c.autoStartScheduled;
  }
}
