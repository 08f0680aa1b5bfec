/**
 * components/AttackPanel.tsx: the client's affordability and per-(kind,
 * target) cooldown rule before an attack is sent. The clock is `now`; the
 * 2000 ms timer that clears the "Attack Launched!" notice is `ClearLastAttack`.
 */
module AttackPanel {
  import opened Wrappers
  import opened GameTypes

  const CooldownMs: int := 5000

  /** `${type}-${targetId}`: the kind, a dash, then the target. */
  function CooldownKey(attackType: string, targetId: string): (key: string)
    ensures |key| == |attackType| + 1 + |targetId|
    ensures key[..|attackType|] == attackType && key[|attackType|] == '-' && key[|attackType| + 1..] == targetId
  {
    attackType + "-" + targetId
  }

  /** `cooldowns[key] && cooldowns[key] > now`: a missing or zero entry is not live, nor one already past. */
  function IsOnCooldown(cooldowns: map<string, int>, key: string, now: int): (live: bool)
    ensures key !in cooldowns ==> !live
    ensures key in cooldowns && cooldowns[key] <= now ==> !live
    ensures key in cooldowns && cooldowns[key] > now && now >= 0 ==> live
  {
    key in cooldowns && cooldowns[key] != 0 && cooldowns[key] > now
  }

  /** `isOnCooldown ? Math.ceil((cooldowns[key] - now) / 1000) : 0`, in whole seconds. */
  function CooldownRemaining(cooldowns: map<string, int>, key: string, now: int): (r: int)
    ensures IsOnCooldown(cooldowns, key, now) ==>
      r >= 1 && (r - 1) * 1000 < cooldowns[key] - now <= r * 1000
    ensures !IsOnCooldown(cooldowns, key, now) ==> r == 0
  {
    if IsOnCooldown(cooldowns, key, now) then (cooldowns[key] - now + 999) / 1000 else 0
  }

  /** `disabled || !canAfford || isOnCooldown` for one button: any one of the three disables it. */
  function ButtonDisabled(disabled: bool, coins: int, attack: AttackConfig, cooldowns: map<string, int>, opponentId: string, now: int): (off: bool)
    ensures disabled ==> off
    ensures coins < attack.cost ==> off
    ensures CooldownRemaining(cooldowns, CooldownKey(AttackName(attack.kind), opponentId), now) > 0 ==> off
    ensures (!disabled && coins >= attack.cost &&
             CooldownRemaining(cooldowns, CooldownKey(AttackName(attack.kind), opponentId), now) == 0) ==> !off
  {
    disabled || !(coins >= attack.cost) || IsOnCooldown(cooldowns, CooldownKey(AttackName(attack.kind), opponentId), now)
  }

  /** Clicking an enabled button of a catalogue attack passes every check `handleAttack` makes. */
  lemma {:induction false} EnabledButtonFires(coins: int, attack: AttackConfig, cooldowns: map<string, int>, opponentId: string, now: int)
    requires attack in Attacks && !ButtonDisabled(false, coins, attack, cooldowns, opponentId, now)
    ensures FindAttack(AttackName(attack.kind)) == Some(attack)
    ensures coins >= FindAttack(AttackName(attack.kind)).value.cost
    ensures !IsOnCooldown(cooldowns, CooldownKey(AttackName(attack.kind), opponentId), now)
  {
    FindAttackByName(attack.kind);
    AttacksOnePerKind();
    var i :| 0 <= i < |Attacks| && Attacks[i] == attack;
    assert i == IndexOf(attack.kind);
  }

  lemma {:induction false} SameKindFromLetters(a: AttackType, b: AttackType)
    requires AttackName(a)[0] == AttackName(b)[0] && AttackName(a)[1] == AttackName(b)[1]
    ensures a == b
  {
  }

  /** Distinct (kind, target) pairs have distinct keys: no spelling of a kind contains '-'. */
  lemma {:induction false} CooldownKeyInjective(a: AttackType, x: string, b: AttackType, y: string)
    requires CooldownKey(AttackName(a), x) == CooldownKey(AttackName(b), y)
    ensures a == b && x == y
  {
    var ka, kb := CooldownKey(AttackName(a), x), CooldownKey(AttackName(b), y);
    assert ka[0] == AttackName(a)[0] && ka[1] == AttackName(a)[1];
    assert kb[0] == AttackName(b)[0] && kb[1] == AttackName(b)[1];
    SameKindFromLetters(a, b);
    var n := |AttackName(a)| + 1;
    assert ka[n..] == x;
    assert kb[n..] == y;
  }

  /** Setting one pair's cooldown leaves every other kind and every other target as it was. */
  lemma {:induction false} CooldownIsolation(cooldowns: map<string, int>, a: AttackType, x: string, b: AttackType, y: string, expiry: int, now: int)
    requires a != b || x != y
    ensures var updated := cooldowns[CooldownKey(AttackName(a), x) := expiry];
      IsOnCooldown(updated, CooldownKey(AttackName(b), y), now) == IsOnCooldown(cooldowns, CooldownKey(AttackName(b), y), now)
  {
    if CooldownKey(AttackName(a), x) == CooldownKey(AttackName(b), y) {
      CooldownKeyInjective(a, x, b, y);
    }
  }

  datatype Opponent = Opponent(id: string, username: string, avatar: string)

  datatype LastAttack = LastAttack(kind: AttackType, target: string)

  /** `opponents.find(o => o.id === targetId)?.username || 'Opponent'`. */
  function TargetName(opponents: seq<Opponent>, targetId: string): (name: string)
    ensures (forall k :: 0 <= k < |opponents| ==> opponents[k].id != targetId) ==> name == "Opponent"
    ensures forall i :: 0 <= i < |opponents| && opponents[i].id == targetId
                        && (forall k :: 0 <= k < i ==> opponents[k].id != targetId) ==>
              name == if opponents[i].username != "" then opponents[i].username else "Opponent"
  {
    if |opponents| == 0 then "Opponent"
    else if opponents[0].id == targetId then (if opponents[0].username != "" then opponents[0].username else "Opponent")
    else TargetName(opponents[1..], targetId)
  }

  class AttackPanel {
    var cooldowns: map<string, int>
    var lastAttack: Option<LastAttack>

    constructor ()
      ensures cooldowns == map[] && lastAttack == None
    {
      cooldowns := map[];
      lastAttack := None;
    }

    /**
     * `handleAttack`: `fired` says whether `onAttack` is called. It is called
     * exactly when the kind is in the catalogue, the coins cover its cost and
     * the pair's cooldown is not live; only then is that one key set to
     * `now + 5000` and the notice shown.
     */
    method HandleAttack(attackType: string, targetId: string, coins: int, opponents: seq<Opponent>, now: int)
      returns (fired: bool)
      modifies this
      ensures fired <==>
        && FindAttack(attackType).Some?
        && coins >= FindAttack(attackType).value.cost
        && !IsOnCooldown(old(cooldowns), CooldownKey(attackType, targetId), now)
      ensures fired ==>
        && cooldowns == old(cooldowns)[CooldownKey(attackType, targetId) := now + CooldownMs]
        && lastAttack == Some(LastAttack(FindAttack(attackType).value.kind, TargetName(opponents, targetId)))
      ensures !fired ==> cooldowns == old(cooldowns) && lastAttack == old(lastAttack)
    {
      var attack := FindAttack(attackType);
      fired := false;
      if attack.Some? && coins >= attack.value.cost {
        var key := CooldownKey(attackType, targetId);
        if IsOnCooldown(cooldowns, key, now) {
          return;
        }
        cooldowns := cooldowns[key := now + CooldownMs];
        lastAttack := Some(LastAttack(attack.value.kind, TargetName(opponents, targetId)));
        fired := true;
      }
    }

    /** The 2000 ms timer after an attack. */
    method ClearLastAttack()
      modifies this
      ensures lastAttack == None && cooldowns == old(cooldowns)
    {
      lastAttack := None;
    }
  }

  /** A pair that just fired stays blocked for the next 5000 ms, and shows a positive number of seconds left. */
  lemma FiredPairBlocked(cooldowns: map<string, int>, key: string, firedAt: int, now: int)
    requires 0 <= firedAt <= now < firedAt + CooldownMs
    ensures IsOnCooldown(cooldowns[key := firedAt + CooldownMs], key, now)
    ensures CooldownRemaining(cooldowns[key := firedAt + CooldownMs], key, now) >= 1
  {
  }
}
