/**
 * The in-memory match state that both Socket.IO servers keep
 * (`GameState`, `PlayerState`, `QuestionState` of server/socket.ts and the
 * same shapes written inline in socket-server.js), with the pieces of
 * handler logic the two servers share: the roster searches and filter, the
 * answer and attack updates of one player, the `forEach` flag reset and the
 * reward loop.
 */
module MatchState {
  import opened Wrappers
  import opened GameTypes
  import Scoring

  datatype QuestionState = QuestionState(
    id: string, question: string, options: seq<string>, correctAnswer: int,
    category: string, timeLimit: int, startTime: int)

  /** The row a question query returns (the fields the servers copy). */
  datatype QuestionRow = QuestionRow(id: string, question: string, options: seq<string>, correctAnswer: int, category: string)

  datatype PlayerState = PlayerState(
    id: string, username: string, avatar: string,
    score: int, correctAnswers: int, coins: int,
    attacksUsed: int, attacksReceived: int,
    answered: bool, answerTime: Option<int>)

  datatype GameState = GameState(
    gameId: string, mode: string, status: GameStatus, players: seq<PlayerState>,
    currentQuestion: Option<QuestionState>, questionIndex: int, totalQuestions: int,
    startTime: Option<int>)

  /** The fields of a fetched `profiles` row that a join copies. */
  datatype Profile = Profile(id: string, username: string, avatar: string, coins: int)

  /** One `update_player_stats` call made when a match finishes. */
  datatype StatsUpdate = StatsUpdate(playerId: string, xpGained: real, coinsGained: int, correctAnswers: int)

  const DefaultTotalQuestions: int := 10
  const QuestionTimeLimit: int := 10000

  /** JavaScript truthiness of a string: only the empty string is falsy. */
  predicate Truthy(s: string)
  {
    s != ""
  }

  /** `mode === '4player' ? 4 : mode === '1v1' ? 2 : 1`. */
  function ModeCapacity(mode: string): (n: nat)
    ensures n == 4 <==> mode == "4player"
    ensures n == 2 <==> mode == "1v1"
    ensures n == 1 <==> mode != "4player" && mode != "1v1"
  {
    if mode == "4player" then 4 else if mode == "1v1" then 2 else 1
  }

  /** The capacity of each named mode: solo 1, 1v1 2, 4player 4, and 1 for random and friends. */
  lemma ModeCapacityOfModes(m: GameMode)
    ensures ModeCapacity(ModeName(m)) == match m
      case OneVsOne => 2
      case FourPlayer => 4
      case _ => 1
  {
  }

  /** A freshly created game: waiting, no players, question 0 of 10. */
  function NewGame(gameId: string, mode: string): GameState
  {
    GameState(gameId, mode, Waiting, [], None, 0, DefaultTotalQuestions, None)
  }

  /** The new roster entry for a joining profile. */
  function JoinedPlayer(p: Profile): PlayerState
  {
    PlayerState(p.id, p.username, p.avatar, 0, 0, p.coins, 0, 0, false, None)
  }

  function Ids(players: seq<PlayerState>): set<string>
  {
    set p | p in players :: p.id
  }

  ghost predicate UniqueIds(players: seq<PlayerState>)
  {
    forall i, j :: 0 <= i < j < |players| ==> players[i].id != players[j].id
  }

  /** `players.find(p => p.id === id)` as the index of the first match. */
  function FindPlayer(players: seq<PlayerState>, id: string): (r: Option<nat>)
    ensures r.Some? ==> r.value < |players| && players[r.value].id == id
    ensures r.Some? ==> forall j :: 0 <= j < r.value ==> players[j].id != id
    ensures r.None? <==> id !in Ids(players)
  {
    if |players| == 0 then None
    else if players[0].id == id then Some(0)
    else
      match FindPlayer(players[1..], id)
      case None =>
        assert forall p :: p in players ==> p == players[0] || p in players[1..];
        None
      case Some(k) => Some(k + 1)
  }

  /** `players.filter(p => p.id !== id)`. */
  function WithoutPlayer(players: seq<PlayerState>, id: string): (r: seq<PlayerState>)
    ensures forall p :: p in r <==> p in players && p.id != id
    ensures |r| <= |players|
    ensures id !in Ids(players) ==> r == players
  {
    if |players| == 0 then []
    else
      var rest := WithoutPlayer(players[1..], id);
      assert forall p :: p in players <==> p == players[0] || p in players[1..];
      if players[0].id == id then rest else [players[0]] + rest
  }

  /** On a roster with distinct ids, the filter removes exactly the entry `find` locates and keeps the others in order. */
  lemma {:induction false} WithoutPlayerKeepsOrder(players: seq<PlayerState>, id: string, i: nat)
    requires UniqueIds(players) && FindPlayer(players, id) == Some(i)
    ensures WithoutPlayer(players, id) == players[..i] + players[i + 1..]
  {
    forall p | p in players[i + 1..] ensures p.id != id {
      var j :| 0 <= j < |players[i + 1..]| && players[i + 1..][j] == p;
      assert players[i + 1 + j] == p;
    }
    WithoutSingleMatch(players, id, i);
  }

  /** The filter drops the one entry at `i` when no other entry has the id. */
  lemma {:induction false} WithoutSingleMatch(players: seq<PlayerState>, id: string, i: nat)
    requires i < |players| && players[i].id == id
    requires forall j :: 0 <= j < i ==> players[j].id != id
    requires id !in Ids(players[i + 1..])
    ensures WithoutPlayer(players, id) == players[..i] + players[i + 1..]
  {
    if i == 0 {
      WithoutHeadMatch(players, id);
    } else {
      var tail := players[1..];
      TailKeepsPrefix(players, id, i);
      assert tail[i..] == players[i + 1..];
      WithoutSingleMatch(tail, id, i - 1);
      SplitAfterHead(players, i);
    }
  }

  lemma SplitAfterHead(players: seq<PlayerState>, i: nat)
    requires 0 < i < |players|
    ensures players[..i] + players[i + 1..] == [players[0]] + (players[1..][..i - 1] + players[1..][i..])
  {
    assert players[..i] == [players[0]] + players[1..][..i - 1];
  }

  lemma WithoutHeadMatch(players: seq<PlayerState>, id: string)
    requires |players| > 0 && players[0].id == id && id !in Ids(players[1..])
    ensures WithoutPlayer(players, id) == players[..0] + players[1..]
  {
    assert players[..0] + players[1..] == players[1..];
  }

  lemma TailKeepsPrefix(players: seq<PlayerState>, id: string, i: nat)
    requires 0 < i < |players| && forall j :: 0 <= j < i ==> players[j].id != id
    ensures forall j :: 0 <= j < i - 1 ==> players[1..][j].id != id
    ensures WithoutPlayer(players, id) == [players[0]] + WithoutPlayer(players[1..], id)
  {
    assert players[0].id != id;
  }

  lemma {:induction false} IdsAppend(players: seq<PlayerState>, p: PlayerState)
    ensures Ids(players + [p]) == Ids(players) + {p.id}
  {
    assert forall q :: q in players + [p] <==> q in players || q == p;
  }

  /** Appending a player whose id is new keeps the ids distinct. */
  lemma {:induction false} AppendKeepsUnique(players: seq<PlayerState>, p: PlayerState)
    requires UniqueIds(players) && p.id !in Ids(players)
    ensures UniqueIds(players + [p])
  {
    forall i | 0 <= i < |players| ensures players[i].id != p.id {
      assert players[i] in players;
    }
  }

  /** Filtering a player out of a roster of distinct ids removes exactly that id, and one entry when it was present. */
  lemma {:induction false} WithoutPlayerFacts(players: seq<PlayerState>, id: string)
    requires UniqueIds(players)
    ensures UniqueIds(WithoutPlayer(players, id))
    ensures Ids(WithoutPlayer(players, id)) == Ids(players) - {id}
    ensures |WithoutPlayer(players, id)| == if id in Ids(players) then |players| - 1 else |players|
  {
    var r := WithoutPlayer(players, id);
    if |players| > 0 {
      var rest := WithoutPlayer(players[1..], id);
      assert UniqueIds(players[1..]) by {
        forall i, j | 0 <= i < j < |players[1..]| ensures players[1..][i].id != players[1..][j].id {
          assert players[1..][i] == players[i + 1] && players[1..][j] == players[j + 1];
        }
      }
      WithoutPlayerFacts(players[1..], id);
      assert players[0].id !in Ids(players[1..]);
      assert forall p :: p in players <==> p == players[0] || p in players[1..];
      assert Ids(players) == {players[0].id} + Ids(players[1..]);
      if players[0].id != id {
        assert r == [players[0]] + rest;
        assert forall p :: p in r <==> p == players[0] || p in rest;
        assert players[0].id !in Ids(rest);
        forall i, j | 0 <= i < j < |r| ensures r[i].id != r[j].id {
          if i == 0 {
            assert r[j] in rest;
          } else {
            assert r[i] == rest[i - 1] && r[j] == rest[j - 1];
          }
        }
      }
    }
  }

  /** The answer bookkeeping of `submit-answer` for one player. */
  function Answered(p: PlayerState, isCorrect: bool, timeTaken: int): (q: PlayerState)
    ensures q.answered && q.answerTime == Some(timeTaken)
    ensures q.score == p.score + Scoring.Points(isCorrect, timeTaken)
    ensures q.correctAnswers == p.correctAnswers + (if isCorrect then 1 else 0)
    ensures q.(score := p.score, correctAnswers := p.correctAnswers, answered := p.answered, answerTime := p.answerTime) == p
  {
    var marked := p.(answered := true, answerTime := Some(timeTaken));
    if isCorrect then
      marked.(score := p.score + Scoring.CorrectPoints(timeTaken), correctAnswers := p.correctAnswers + 1)
    else marked
  }

  /** `players.every(p => p.answered || mode === 'solo')`: always true in solo, and otherwise true exactly when nobody is still to answer. */
  function AllAnswered(players: seq<PlayerState>, mode: string): (all: bool)
    ensures mode == "solo" ==> all
    ensures mode != "solo" ==> (all <==> forall p :: p in players ==> p.answered)
  {
    forall i :: 0 <= i < |players| ==> players[i].answered || mode == "solo"
  }

  /** The server's `attackCosts[attackType] || 0`: never negative, and 0 exactly for a name outside the table. */
  function ServerAttackCost(attackType: string): (cost: int)
    ensures cost >= 0
    ensures cost == 0 <==> attackType !in {"blur", "reverse", "shake", "freeze", "fake"}
  {
    if attackType == "blur" then 10
    else if attackType == "reverse" then 15
    else if attackType == "shake" then 12
    else if attackType == "freeze" then 20
    else if attackType == "fake" then 18
    else 0
  }

  /** The server's cost table agrees with the client catalogue, and charges nothing for an unknown kind. */
  lemma {:induction false} ServerCostMatchesCatalogue(attackType: string)
    ensures FindAttack(attackType).Some? ==> ServerAttackCost(attackType) == FindAttack(attackType).value.cost
    ensures FindAttack(attackType).None? ==> ServerAttackCost(attackType) == 0
  {
    FindAttackKnownIff(attackType);
    if FindAttack(attackType).Some? {
      var t: AttackType :| AttackName(t) == attackType;
      FindAttackByName(t);
    } else {
      assert attackType != AttackName(Blur) && attackType != AttackName(Reverse) && attackType != AttackName(Shake);
      assert attackType != AttackName(Freeze) && attackType != AttackName(Fake);
    }
  }

  /**
   * `attacker.coins -= cost; attacker.attacksUsed++; target.attacksReceived++`
   * on the roster entries at `a` and `t`, which may be the same entry.
   */
  function AfterAttack(players: seq<PlayerState>, a: nat, t: nat, cost: int): (r: seq<PlayerState>)
    requires a < |players| && t < |players|
    ensures |r| == |players|
    ensures forall k :: 0 <= k < |r| ==>
      && r[k].coins == players[k].coins - (if k == a then cost else 0)
      && r[k].attacksUsed == players[k].attacksUsed + (if k == a then 1 else 0)
      && r[k].attacksReceived == players[k].attacksReceived + (if k == t then 1 else 0)
      && r[k].(coins := players[k].coins, attacksUsed := players[k].attacksUsed, attacksReceived := players[k].attacksReceived) == players[k]
  {
    var charged := players[a := players[a].(coins := players[a].coins - cost, attacksUsed := players[a].attacksUsed + 1)];
    charged[t := charged[t].(attacksReceived := charged[t].attacksReceived + 1)]
  }

  /** A roster of distinct ids keeps them after any per-entry update that leaves ids alone. */
  lemma {:induction false} SameIdsKeepUnique(before: seq<PlayerState>, after: seq<PlayerState>)
    requires UniqueIds(before) && |after| == |before|
    requires forall k :: 0 <= k < |before| ==> after[k].id == before[k].id
    ensures UniqueIds(after) && Ids(after) == Ids(before)
  {
    forall x | x in Ids(after) ensures x in Ids(before) {
      var p :| p in after && p.id == x;
      var k :| 0 <= k < |after| && after[k] == p;
      assert before[k] in before;
    }
    forall x | x in Ids(before) ensures x in Ids(after) {
      var p :| p in before && p.id == x;
      var k :| 0 <= k < |before| && before[k] == p;
      assert after[k] in after;
    }
  }

  /** `players.forEach(p => { p.answered = false; p.answerTime = null })`. */
  method ResetAnswers(players: seq<PlayerState>) returns (r: seq<PlayerState>)
    ensures |r| == |players|
    ensures forall k :: 0 <= k < |r| ==> r[k] == players[k].(answered := false, answerTime := None)
  {
    r := players;
    var i := 0;
    while i < |r|
      invariant 0 <= i <= |r| == |players|
      invariant forall k :: 0 <= k < i ==> r[k] == players[k].(answered := false, answerTime := None)
      invariant forall k :: i <= k < |r| ==> r[k] == players[k]
    {
      r := r[i := r[i].(answered := false, answerTime := None)];
      i := i + 1;
    }
  }

  /**
   * The `update_player_stats` calls of a finished match, one per player in
   * roster order. `floorXp` is the one place the servers differ: socket-server.js
   * floors `score / 10`, server/socket.ts sends the quotient unfloored.
   */
  method RewardUpdates(players: seq<PlayerState>, floorXp: bool) returns (u: seq<StatsUpdate>)
    ensures |u| == |players|
    ensures forall k :: 0 <= k < |u| ==>
      && u[k].playerId == players[k].id
      && u[k].coinsGained == Scoring.CoinsGained(players[k].correctAnswers)
      && u[k].correctAnswers == players[k].correctAnswers
      && u[k].xpGained == if floorXp then Scoring.XpFloor(players[k].score) as real else Scoring.XpExact(players[k].score)
  {
    u := [];
    for i := 0 to |players|
      invariant |u| == i
      invariant forall k :: 0 <= k < i ==>
        && u[k].playerId == players[k].id
        && u[k].coinsGained == Scoring.CoinsGained(players[k].correctAnswers)
        && u[k].correctAnswers == players[k].correctAnswers
        && u[k].xpGained == if floorXp then Scoring.XpFloor(players[k].score) as real else Scoring.XpExact(players[k].score)
    {
      var p := players[i];
      var xp := if floorXp then Scoring.XpFloor(p.score) as real else Scoring.XpExact(p.score);
      u := u + [StatsUpdate(p.id, xp, Scoring.CoinsGained(p.correctAnswers), p.correctAnswers)];
    }
  }

  /** The `playerGames.delete(p.id)` loop over a finished game's roster. */
  method RemoveMappings(playerGames: map<string, string>, players: seq<PlayerState>) returns (r: map<string, string>)
    ensures r == playerGames - Ids(players)
  {
    r := playerGames;
    for i := 0 to |players|
      invariant r == playerGames - Ids(players[..i])
    {
      assert players[..i + 1] == players[..i] + [players[i]];
      IdsAppend(players[..i], players[i]);
      r := r - {players[i].id};
    }
    assert players[..|players|] == players;
  }

  /**
   * The registry invariant both servers keep: each game is stored under its
   * own id, has distinct player ids and ten questions, and (where `capped`)
   * no more players than its mode allows; and every `playerGames` entry
   * names a stored game whose roster holds that player.
   */
  ghost predicate GameInvariant(id: string, g: GameState, capped: bool)
  {
    && g.gameId == id
    && UniqueIds(g.players)
    && g.totalQuestions == DefaultTotalQuestions
    && (capped ==> |g.players| <= ModeCapacity(g.mode))
  }

  ghost predicate RegistryInvariant(games: map<string, GameState>, playerGames: map<string, string>, capped: bool)
  {
    && (forall id :: id in games ==> GameInvariant(id, games[id], capped))
    && (forall p :: p in playerGames ==> playerGames[p] in games && p in Ids(games[playerGames[p]].players))
  }

  // ----- submit-answer -----

  /**
   * The `submit-answer` guard: a current question, and the sender on the
   * roster and not yet answered. It holds whenever no entry with that id has
   * answered, and never without a question or for an absent player.
   */
  function SubmitAccepted(g: GameState, playerId: string): (ok: bool)
    ensures ok ==> g.currentQuestion.Some? && playerId in Ids(g.players)
    ensures ok ==> !g.players[FindPlayer(g.players, playerId).value].answered
    ensures (g.currentQuestion.Some? && playerId in Ids(g.players)
             && forall k :: 0 <= k < |g.players| && g.players[k].id == playerId ==> !g.players[k].answered) ==> ok
  {
    && g.currentQuestion.Some?
    && FindPlayer(g.players, playerId).Some?
    && !g.players[FindPlayer(g.players, playerId).value].answered
  }

  /** The game after an accepted `submit-answer`: only the sender's entry changes. */
  function AfterSubmit(g: GameState, playerId: string, answerIndex: int, timeTaken: int): GameState
    requires SubmitAccepted(g, playerId)
  {
    var i := FindPlayer(g.players, playerId).value;
    var isCorrect := answerIndex == g.currentQuestion.value.correctAnswer;
    g.(players := g.players[i := Answered(g.players[i], isCorrect, timeTaken)])
  }

  /**
   * An accepted answer marks the sender answered with its time, adds
   * `Points` to the score and one correct answer exactly when the index is
   * the correct one, and leaves every other player and every other field alone.
   */
  lemma {:induction false} SubmitEffect(g: GameState, playerId: string, answerIndex: int, timeTaken: int)
    requires SubmitAccepted(g, playerId)
    ensures var r := AfterSubmit(g, playerId, answerIndex, timeTaken);
      var i := FindPlayer(g.players, playerId).value;
      var isCorrect := answerIndex == g.currentQuestion.value.correctAnswer;
      && r.(players := g.players) == g
      && |r.players| == |g.players|
      && r.players[i].answered && r.players[i].answerTime == Some(timeTaken)
      && r.players[i].score == g.players[i].score + Scoring.Points(isCorrect, timeTaken)
      && r.players[i].correctAnswers == g.players[i].correctAnswers + (if isCorrect then 1 else 0)
      && r.players[i].coins == g.players[i].coins
      && (forall k :: 0 <= k < |g.players| && k != i ==> r.players[k] == g.players[k])
  {
  }

  /** A resubmission by the same player is ignored: after one accepted answer the guard fails. */
  lemma {:induction false} SubmitIdempotent(g: GameState, playerId: string, answerIndex: int, timeTaken: int)
    requires SubmitAccepted(g, playerId)
    ensures !SubmitAccepted(AfterSubmit(g, playerId, answerIndex, timeTaken), playerId)
  {
    var r := AfterSubmit(g, playerId, answerIndex, timeTaken);
    var i := FindPlayer(g.players, playerId).value;
    FindPlayerSameIds(g.players, r.players, playerId);
  }

  /** `find` answers the same on two rosters that agree on every id. */
  lemma {:induction false} FindPlayerSameIds(a: seq<PlayerState>, b: seq<PlayerState>, id: string)
    requires |a| == |b| && forall k :: 0 <= k < |a| ==> a[k].id == b[k].id
    ensures FindPlayer(a, id) == FindPlayer(b, id)
  {
    if |a| > 0 && a[0].id != id {
      FindPlayerSameIds(a[1..], b[1..], id);
    }
  }

  // ----- use-attack -----

  datatype AttackOutcome = AttackIgnored | NotEnoughCoins | Attacked(cost: int)

  /**
   * The `use-attack` decision: ignored unless attacker and target are both
   * on the roster, refused when the attacker has fewer coins than the cost.
   */
  function AttackDecision(g: GameState, attackerId: string, targetId: string, attackType: string): (out: AttackOutcome)
    ensures out == AttackIgnored <==> attackerId !in Ids(g.players) || targetId !in Ids(g.players)
    ensures out.Attacked? ==> out.cost == ServerAttackCost(attackType)
    ensures out.Attacked? || out == NotEnoughCoins ==>
      var a := FindPlayer(g.players, attackerId).value;
      (out.Attacked? <==> g.players[a].coins >= ServerAttackCost(attackType))
  {
    var a := FindPlayer(g.players, attackerId);
    var t := FindPlayer(g.players, targetId);
    if a.None? || t.None? then AttackIgnored
    else if g.players[a.value].coins < ServerAttackCost(attackType) then NotEnoughCoins
    else Attacked(ServerAttackCost(attackType))
  }

  /** The game after a successful attack: only the roster changes, and every entry keeps its id. */
  function AfterAttackGame(g: GameState, attackerId: string, targetId: string, attackType: string): (r: GameState)
    requires AttackDecision(g, attackerId, targetId, attackType).Attacked?
    ensures r.(players := g.players) == g
    ensures |r.players| == |g.players| && forall k :: 0 <= k < |r.players| ==> r.players[k].id == g.players[k].id
  {
    var a := FindPlayer(g.players, attackerId).value;
    var t := FindPlayer(g.players, targetId).value;
    g.(players := AfterAttack(g.players, a, t, ServerAttackCost(attackType)))
  }

  ghost predicate CoinsNonNegative(g: GameState)
  {
    forall k :: 0 <= k < |g.players| ==> g.players[k].coins >= 0
  }

  /**
   * A successful attack debits exactly the cost from the attacker (an
   * unknown kind costs nothing), so that no balance goes negative and a
   * balance equal to the cost ends at zero.
   */
  lemma {:induction false} AttackKeepsCoins(g: GameState, attackerId: string, targetId: string, attackType: string)
    requires AttackDecision(g, attackerId, targetId, attackType).Attacked?
    requires CoinsNonNegative(g)
    ensures var r := AfterAttackGame(g, attackerId, targetId, attackType);
      var a := FindPlayer(g.players, attackerId).value;
      && CoinsNonNegative(r)
      && r.players[a].coins == g.players[a].coins - ServerAttackCost(attackType)
      && (g.players[a].coins == ServerAttackCost(attackType) ==> r.players[a].coins == 0)
      && (FindAttack(attackType).None? ==> r.players[a].coins == g.players[a].coins)
  {
    ServerCostMatchesCatalogue(attackType);
    var a := FindPlayer(g.players, attackerId).value;
    var t := FindPlayer(g.players, targetId).value;
    var r := AfterAttackGame(g, attackerId, targetId, attackType);
    assert r.players == AfterAttack(g.players, a, t, ServerAttackCost(attackType));
    assert ServerAttackCost(attackType) >= 0;
  }

  /** A roster update that keeps every id keeps the game invariant. */
  lemma {:induction false} RosterUpdateKeepsInvariant(id: string, g: GameState, players: seq<PlayerState>, capped: bool)
    requires GameInvariant(id, g, capped)
    requires |players| == |g.players| && forall k :: 0 <= k < |players| ==> players[k].id == g.players[k].id
    ensures GameInvariant(id, g.(players := players), capped)
    ensures Ids(players) == Ids(g.players)
  {
    SameIdsKeepUnique(g.players, players);
  }

  // ----- next-question -----

  /** `questionIndex++` and the flag reset, every other field untouched. */
  ghost predicate Advanced(g: GameState, r: GameState)
  {
    && r.questionIndex == g.questionIndex + 1
    && |r.players| == |g.players|
    && (forall k :: 0 <= k < |g.players| ==> r.players[k] == g.players[k].(answered := false, answerTime := None))
    && r.(players := g.players, questionIndex := g.questionIndex) == g
  }

  /** After an advance nobody has answered, so every player's next answer is accepted. */
  lemma {:induction false} AdvancedAcceptsEveryAnswer(g: GameState, r: GameState, playerId: string)
    requires Advanced(g, r) && r.currentQuestion.Some? && playerId in Ids(r.players)
    ensures SubmitAccepted(r, playerId)
  {
  }
}
