/**
 * The shared enumerations of lib/types.ts and the `ATTACKS` catalogue:
 * one entry per attack kind with its coin cost and effect duration.
 */
module GameTypes {
  import opened Wrappers

  datatype GameMode = Solo | OneVsOne | FourPlayer | Random | Friends

  /** The string a mode travels as over the wire and in the database. */
  function ModeName(m: GameMode): string
  {
    match m
    case Solo => "solo"
    case OneVsOne => "1v1"
    case FourPlayer => "4player"
    case Random => "random"
    case Friends => "friends"
  }

  datatype GameStatus = Waiting | Active | Finished

  datatype AttackType = Blur | Reverse | Shake | Freeze | Fake

  function AttackName(t: AttackType): string
  {
    match t
    case Blur => "blur"
    case Reverse => "reverse"
    case Shake => "shake"
    case Freeze => "freeze"
    case Fake => "fake"
  }

  /** An `AttackConfig` record; `duration` is in seconds. */
  datatype AttackConfig = AttackConfig(kind: AttackType, name: string, description: string, cost: int, duration: int)

  const Attacks: seq<AttackConfig> := [
    AttackConfig(Blur, "Blur Screen", "Question becomes blurry for 4 seconds", 10, 4),
    AttackConfig(Reverse, "Reverse Text", "Question text becomes reversed", 15, 5),
    AttackConfig(Shake, "Screen Shake", "UI shakes for 3 seconds", 12, 3),
    AttackConfig(Freeze, "Time Freeze", "Opponent timer stops for 2 seconds", 20, 2),
    AttackConfig(Fake, "Fake Option", "Adds a dummy 5th option", 18, 10)
  ]

  /** `list.find(a => a.type === name)`: the first entry whose kind is spelled `name`. */
  function FindAttackIn(list: seq<AttackConfig>, name: string): (r: Option<AttackConfig>)
    ensures r.Some? ==> r.value in list && AttackName(r.value.kind) == name
    ensures r.None? <==> forall i :: 0 <= i < |list| ==> AttackName(list[i].kind) != name
  {
    if |list| == 0 then None
    else if AttackName(list[0].kind) == name then Some(list[0])
    else FindAttackIn(list[1..], name)
  }

  /** `ATTACKS.find(a => a.type === name)`. */
  function FindAttack(name: string): (r: Option<AttackConfig>)
    ensures r.Some? ==> r.value in Attacks && AttackName(r.value.kind) == name
  {
    FindAttackIn(Attacks, name)
  }

  /** The catalogue entry of a kind. */
  function ConfigOf(t: AttackType): (c: AttackConfig)
    ensures c in Attacks && c.kind == t
  {
    match t
    case Blur => Attacks[0]
    case Reverse => Attacks[1]
    case Shake => Attacks[2]
    case Freeze => Attacks[3]
    case Fake => Attacks[4]
  }

  lemma {:induction false} AttackNameInjective(a: AttackType, b: AttackType)
    requires AttackName(a) == AttackName(b)
    ensures a == b
  {
    var na, nb := AttackName(a), AttackName(b);
    // The spellings already differ in their first or second letter.
    assert na[0] == nb[0];
    if na[0] == 'f' {
      assert na[1] == nb[1];
    }
  }

  /** The catalogue holds exactly five entries, one per kind, none twice. */
  lemma {:induction false} AttacksOnePerKind()
    ensures |Attacks| == 5
    ensures forall i, j :: 0 <= i < j < |Attacks| ==> Attacks[i].kind != Attacks[j].kind
    ensures forall t: AttackType :: Attacks[IndexOf(t)].kind == t
  {
  }

  /** Looking a kind up by its spelling finds that kind's entry. */
  lemma {:induction false} FindAttackByName(t: AttackType)
    ensures FindAttack(AttackName(t)) == Some(ConfigOf(t))
  {
    AttacksOnePerKind();
    var r := FindAttack(AttackName(t));
    assert r.Some? by {
      assert AttackName(Attacks[IndexOf(t)].kind) == AttackName(t);
    }
    AttackNameInjective(r.value.kind, t);
  }

  function IndexOf(t: AttackType): (i: nat)
    ensures i < |Attacks| && Attacks[i].kind == t
  {
    match t
    case Blur => 0
    case Reverse => 1
    case Shake => 2
    case Freeze => 3
    case Fake => 4
  }

  /** A lookup succeeds exactly for the five spellings of a kind. */
  lemma {:induction false} FindAttackKnownIff(name: string)
    ensures FindAttack(name).Some? <==> exists t: AttackType :: AttackName(t) == name
  {
    if exists t: AttackType :: AttackName(t) == name {
      var t: AttackType :| AttackName(t) == name;
      FindAttackByName(t);
    }
  }

  /** The published costs and durations (seconds). */
  lemma CatalogueValues()
    ensures ConfigOf(Blur).cost == 10 && ConfigOf(Blur).duration == 4
    ensures ConfigOf(Reverse).cost == 15 && ConfigOf(Reverse).duration == 5
    ensures ConfigOf(Shake).cost == 12 && ConfigOf(Shake).duration == 3
    ensures ConfigOf(Freeze).cost == 20 && ConfigOf(Freeze).duration == 2
    ensures ConfigOf(Fake).cost == 18 && ConfigOf(Fake).duration == 10
  {
  }

  /** Every cost and every duration is positive. */
  lemma {:induction false} CostsAndDurationsPositive()
    ensures forall i :: 0 <= i < |Attacks| ==> Attacks[i].cost > 0 && Attacks[i].duration > 0
  {
  }
}
