/**
 * components/GameLobby.tsx: when the lobby's start button is enabled, and the
 * count its label shows. The mode is the lobby's declared `GameMode` prop; an
 * unlisted string that reaches it behaves like a one-player mode, as
 * `MatchState.ModeCapacity` states for the servers.
 */
module GameLobby {
  import opened GameTypes
  import MatchState

  /** `mode === '1v1' ? 2 : mode === '4player' ? 4 : 1`. */
  function RequiredPlayers(mode: GameMode): (n: nat)
    ensures n == 2 <==> mode == OneVsOne
    ensures n == 4 <==> mode == FourPlayer
    ensures mode != OneVsOne && mode != FourPlayer ==> n == 1
  {
    if mode == OneVsOne then 2 else if mode == FourPlayer then 4 else 1
  }

  /** `mode === 'solo' || players.length >= RequiredPlayers(mode)`. */
  function CanStart(mode: GameMode, playerCount: nat): (ok: bool)
    ensures mode == Solo ==> ok
    ensures mode != Solo ==> (ok <==> playerCount >= RequiredPlayers(mode))
  {
    mode == Solo || playerCount >= RequiredPlayers(mode)
  }

  /** The button label: "Start Game" for solo, `Start (have/need)` otherwise. */
  datatype StartLabel = StartGame | StartProgress(have: nat, need: nat)

  function Label(mode: GameMode, playerCount: nat): (l: StartLabel)
    ensures l.StartGame? <==> mode == Solo
    ensures l.StartProgress? ==> l.have == playerCount && l.need == RequiredPlayers(mode) && l.need >= 1
  {
    if mode == Solo then StartGame else StartProgress(playerCount, RequiredPlayers(mode))
  }

  /** Solo can always start; 1v1 needs two players, 4player four, the other modes one. */
  lemma CanStartRule(mode: GameMode, playerCount: nat)
    ensures mode == Solo ==> CanStart(mode, playerCount)
    ensures mode == OneVsOne ==> (CanStart(mode, playerCount) <==> playerCount >= 2)
    ensures mode == FourPlayer ==> (CanStart(mode, playerCount) <==> playerCount >= 4)
    ensures mode == Random || mode == Friends ==> (CanStart(mode, playerCount) <==> playerCount >= 1)
  {
  }

  /** More players never disable the button. */
  lemma CanStartMonotone(mode: GameMode, fewer: nat, more: nat)
    requires fewer <= more && CanStart(mode, fewer)
    ensures CanStart(mode, more)
  {
  }

  /** The label shows exactly the count the button waits for. */
  lemma LabelAgreesWithCanStart(mode: GameMode, playerCount: nat)
    ensures mode != Solo ==> Label(mode, playerCount).StartProgress?
    ensures Label(mode, playerCount).StartProgress? ==>
      && Label(mode, playerCount).have == playerCount
      && (CanStart(mode, playerCount) <==> playerCount >= Label(mode, playerCount).need)
  {
  }

  /** The lobby waits for the same count at which the servers' rosters are full. */
  lemma RequiredIsServerCapacity(mode: GameMode)
    ensures RequiredPlayers(mode) == MatchState.ModeCapacity(ModeName(mode))
  {
  }
}
