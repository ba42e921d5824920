/**
 * A unit's health and attack state: health clamped to [0, maxHp] by the
 * health setter, damage reduced by defence but never below one point,
 * one-way death, an attack cooldown gated by the time of the last attack,
 * and stat modifiers with lower floors.
 */
module Status {

  /**
   * Mathf.Clamp: raises a value below `lo` to `lo`, otherwise lowers a value
   * above `hi` to `hi`. With `hi < lo` the result is one of the two bounds.
   */
  function Clamp(v: real, lo: real, hi: real): (r: real)
    ensures lo <= hi ==> lo <= r <= hi
    ensures lo <= v <= hi ==> r == v
    ensures v < lo ==> r == lo
    ensures lo <= v && hi < v ==> r == hi
    ensures hi < lo ==> r == lo || r == hi
  {
    if v < lo then lo else if v > hi then hi else v
  }

  /** Mathf.Max. */
  function Max(a: real, b: real): (r: real)
    ensures r >= a && r >= b
    ensures r == a || r == b
  {
    if a > b then a else b
  }

  /**
   * Damage a live unit takes from a hit of `damage` against `defence`:
   * the reduced damage, but never less than one point.
   */
  function ActualDamage(damage: real, defence: real): (d: real)
    ensures d >= 1.0
    ensures d >= damage - defence
    ensures damage - defence >= 1.0 ==> d == damage - defence
  {
    Max(1.0, damage - defence)
  }

  /** The 0.1 floor of attack speed and attack range. */
  const MinRate: real := 0.1

  /** lastAttackTime as set by Start: far enough in the past for any first attack. */
  const NeverAttacked: real := -999.0

  /**
   * The wait after an attack before the next one, `(pre + post) / speed`,
   * read with IEEE semantics when the speed is zero: an infinite wait
   * when the delays are positive, an infinitely negative one when they
   * are negative, and NaN (which no comparison accepts) when they are zero.
   */
  predicate CooldownOver(now: real, last: real, pre: real, post: real, speed: real)
  {
    if speed != 0.0 then now >= last + (pre + post) / speed
    else pre + post < 0.0
  }

  /** Once a cooldown is over it stays over as time goes on. */
  lemma CooldownMonotone(now: real, later: real, last: real, pre: real, post: real, speed: real)
    requires now <= later
    requires CooldownOver(now, last, pre, post, speed)
    ensures CooldownOver(later, last, pre, post, speed)
  {
  }

  /**
   * A single-precision quotient as the health bar receives it: a finite
   * value, or what IEEE division yields for a zero divisor.
   */
  datatype Ratio = Finite(value: real) | NaN | Infinite(positive: bool)

  /** The health ratio `hp / maxHp` passed to onHealthChanged. */
  function HealthRatio(hp: real, maxHp: real): (r: Ratio)
    ensures maxHp != 0.0 ==> r.Finite? && r.value * maxHp == hp
    ensures maxHp > 0.0 && 0.0 <= hp <= maxHp ==> r.Finite? && 0.0 <= r.value <= 1.0
    ensures maxHp != 0.0 && hp == maxHp ==> r == Finite(1.0)
    ensures maxHp == 0.0 && hp == 0.0 ==> r == NaN
  {
    if maxHp != 0.0 then
      Quotient(hp, maxHp);
      Finite(hp / maxHp)
    else if hp == 0.0 then NaN
    else Infinite(hp > 0.0)
  }

  /** A product with a positive factor has the sign of the other factor. */
  lemma SignOfProduct(a: real, b: real)
    requires b > 0.0 && a * b >= 0.0
    ensures a >= 0.0
  {
  }

  /**
   * The quotient `part / whole` times `whole` gives back `part`; the whole
   * over itself is one; a share of a positive whole lies between nothing
   * and all of it.
   */
  lemma Quotient(part: real, whole: real)
    requires whole != 0.0
    ensures (part / whole) * whole == part
    ensures part == whole ==> part / whole == 1.0
    ensures whole > 0.0 && 0.0 <= part <= whole ==> 0.0 <= part / whole <= 1.0
  {
    var q := part / whole;
    assert q * whole == part;
    assert (q - 1.0) * whole == part - whole;
    if whole > 0.0 && 0.0 <= part <= whole {
      assert (1.0 - q) * whole == whole - part;
      SignOfProduct(q, whole);
      SignOfProduct(1.0 - q, whole);
    }
  }

  class UnitStatus {
    /** baseStatusData.maxHp, never changed by this component. */
    const maxHp: real
    /** baseStatusData.currentHp. */
    var currentHp: real
    /** baseStatusData.defence, attackDamage, attackSpeed and attackRange. */
    var defence: real
    var attackDamage: real
    var dataAttackSpeed: real
    var attackRange: real

    /** The component's own attack timing fields, which CanAttack reads. */
    const preAttackDelay: real
    const postAttackDelay: real
    const attackSpeed: real

    /** Presence of the sibling components and the death-animation switch. */
    const useDeathAnimation: bool
    const hasSpriteRenderer: bool
    const hasMovement: bool
    const hasCollider: bool
    const hasHealthBar: bool
    /** DeathFadeOut's duration: the fade outlives Die only when it is positive. */
    const deathFadeTime: real
    /** Whether Start has looked the sibling components up; until then Die sees none. */
    var componentsFetched: bool

    var isAttacking: bool
    var lastAttackTime: real
    var isDead: bool

    /** Every value passed to onHealthChanged (the health ratio), oldest first. */
    var healthRatios: seq<Ratio>
    /** How often onUnitDeath has fired. */
    var deathEvents: nat
    /** Enabled state of the movement component and the collider. */
    var movementEnabled: bool
    var colliderEnabled: bool
    /** Whether the death fade-out runs, and whether the game object is active. */
    var fading: bool
    var active: bool
    var healthBarVisible: bool

    /** Class invariant: death is recorded by exactly one death event. */
    predicate Valid()
      reads this
    {
      deathEvents == (if isDead then 1 else 0)
    }

    /**
     * The state Die leaves behind, given whether the components had been
     * looked up and the flags before it ran: dead, one death event, movement
     * and collider switched off where found, the health bar hidden where
     * found, and either a fade-out still running or the object deactivated.
     * The fade-out coroutine runs up to its first frame inside Die, so with
     * a fade time of zero or less it deactivates the object at once.
     */
    predicate DiedFrom(fetched: bool, movement: bool, collider: bool, fade: bool, act: bool, bar: bool)
      reads this
    {
      var fadesOut := fetched && useDeathAnimation && hasSpriteRenderer && deathFadeTime > 0.0;
      && isDead
      && deathEvents == 1
      && movementEnabled == (movement && !(fetched && hasMovement))
      && colliderEnabled == (collider && !(fetched && hasCollider))
      && fading == (fade || fadesOut)
      && active == (act && fadesOut)
      && healthBarVisible == (bar && !(fetched && hasHealthBar))
    }

    /** A live unit as configured in the scene, before Start runs. */
    constructor(maxHp: real, currentHp: real, defence: real, attackDamage: real,
                dataAttackSpeed: real, attackRange: real,
                preAttackDelay: real, postAttackDelay: real, attackSpeed: real,
                useDeathAnimation: bool, deathFadeTime: real, hasSpriteRenderer: bool,
                hasMovement: bool, hasCollider: bool, hasHealthBar: bool)
      ensures Valid() && !isDead && !isAttacking
      ensures this.maxHp == maxHp && this.currentHp == currentHp && this.defence == defence
      ensures this.attackDamage == attackDamage && this.dataAttackSpeed == dataAttackSpeed
      ensures this.attackRange == attackRange
      ensures this.preAttackDelay == preAttackDelay && this.postAttackDelay == postAttackDelay
      ensures this.attackSpeed == attackSpeed
      ensures this.useDeathAnimation == useDeathAnimation && this.hasSpriteRenderer == hasSpriteRenderer
      ensures this.hasMovement == hasMovement && this.hasCollider == hasCollider
      ensures this.hasHealthBar == hasHealthBar && this.deathFadeTime == deathFadeTime
      ensures !componentsFetched
      ensures healthRatios == [] && movementEnabled && colliderEnabled && !fading && active
      ensures healthBarVisible && lastAttackTime == 0.0
    {
      this.maxHp := maxHp;
      this.currentHp := currentHp;
      this.defence := defence;
      this.attackDamage := attackDamage;
      this.dataAttackSpeed := dataAttackSpeed;
      this.attackRange := attackRange;
      this.preAttackDelay := preAttackDelay;
      this.postAttackDelay := postAttackDelay;
      this.attackSpeed := attackSpeed;
      this.useDeathAnimation := useDeathAnimation;
      this.hasSpriteRenderer := hasSpriteRenderer;
      this.hasMovement := hasMovement;
      this.hasCollider := hasCollider;
      this.hasHealthBar := hasHealthBar;
      this.deathFadeTime := deathFadeTime;
      componentsFetched := false;
      isAttacking := false;
      lastAttackTime := 0.0;
      isDead := false;
      healthRatios := [];
      deathEvents := 0;
      movementEnabled := true;
      colliderEnabled := true;
      fading := false;
      active := true;
      healthBarVisible := true;
    }

    /**
     * Die: a no-op on a dead unit; otherwise marks the unit dead, fires the
     * death event once, disables movement and collider, starts the fade-out
     * (or deactivates the object at once) and hides the health bar. Only
     * components Start has looked up are touched.
     */
    method Die()
      requires Valid()
      modifies this`isDead, this`deathEvents, this`movementEnabled, this`colliderEnabled
      modifies this`fading, this`active, this`healthBarVisible
      ensures Valid() && isDead
      ensures old(isDead) ==> unchanged(this)
      ensures !old(isDead) ==>
        DiedFrom(old(componentsFetched), old(movementEnabled), old(colliderEnabled), old(fading), old(active),
                 old(healthBarVisible))
    {
      if isDead {
        return;
      }
      isDead := true;
      deathEvents := deathEvents + 1;
      if componentsFetched && hasMovement {
        movementEnabled := false;
      }
      if componentsFetched && hasCollider {
        colliderEnabled := false;
      }
      if componentsFetched && useDeathAnimation && hasSpriteRenderer {
        // DeathFadeOut runs up to its first yield before Die goes on
        if deathFadeTime > 0.0 {
          fading := true;
        } else {
          active := false;
        }
      } else {
        active := false;
      }
      if componentsFetched && hasHealthBar {
        healthBarVisible := false;
      }
    }

    /**
     * The CurrentHealth setter: stores the clamped value, announces the
     * health ratio, and lets the unit die when nothing is left. The only
     * death path is Die's; a call that kills nobody leaves Die's fields alone.
     */
    method SetCurrentHealth(value: real)
      requires Valid()
      modifies this`currentHp, this`healthRatios
      modifies this`isDead, this`deathEvents, this`movementEnabled, this`colliderEnabled
      modifies this`fading, this`active, this`healthBarVisible
      ensures Valid()
      ensures currentHp == Clamp(value, 0.0, maxHp)
      ensures maxHp >= 0.0 ==> 0.0 <= currentHp <= maxHp
      ensures maxHp < 0.0 ==> currentHp <= 0.0
      ensures healthRatios == old(healthRatios) + [HealthRatio(currentHp, maxHp)]
      ensures isDead == (old(isDead) || currentHp <= 0.0)
      ensures !old(isDead) && isDead ==>
        DiedFrom(old(componentsFetched), old(movementEnabled), old(colliderEnabled), old(fading), old(active),
                 old(healthBarVisible))
      ensures old(isDead) || !isDead ==>
        unchanged(this`deathEvents, this`movementEnabled, this`colliderEnabled,
                  this`fading, this`active, this`healthBarVisible)
    {
      currentHp := Clamp(value, 0.0, maxHp);
      healthRatios := healthRatios + [HealthRatio(currentHp, maxHp)];
      if currentHp <= 0.0 && !isDead {
        Die();
      }
    }

    /**
     * Start: health set to the maximum through the setter, no attack in the
     * recent past, and then the sibling components looked up. A non-positive
     * maximum leaves nothing to live on, and the unit dies before its
     * components are known: only the object is deactivated.
     */
    method Start()
      requires Valid()
      modifies this`currentHp, this`healthRatios, this`lastAttackTime, this`componentsFetched
      modifies this`isDead, this`deathEvents, this`movementEnabled, this`colliderEnabled
      modifies this`fading, this`active, this`healthBarVisible
      ensures Valid()
      ensures lastAttackTime == NeverAttacked && componentsFetched
      ensures maxHp > 0.0 ==>
        && currentHp == maxHp
        && healthRatios == old(healthRatios) + [Finite(1.0)]
        && isDead == old(isDead)
        && unchanged(this`deathEvents, this`movementEnabled, this`colliderEnabled,
                     this`fading, this`active, this`healthBarVisible)
      ensures maxHp <= 0.0 ==> currentHp == 0.0 && isDead
      ensures maxHp == 0.0 ==> healthRatios == old(healthRatios) + [NaN]
      ensures maxHp < 0.0 ==> healthRatios == old(healthRatios) + [Finite(0.0)]
      ensures maxHp <= 0.0 && !old(isDead) && !old(componentsFetched) ==>
        && deathEvents == 1 && !active
        && unchanged(this`movementEnabled, this`colliderEnabled, this`fading, this`healthBarVisible)
      ensures !old(isDead) && isDead ==>
        DiedFrom(old(componentsFetched), old(movementEnabled), old(colliderEnabled), old(fading), old(active),
                 old(healthBarVisible))
    {
      SetCurrentHealth(maxHp);
      lastAttackTime := NeverAttacked;
      componentsFetched := true;
    }

    /**
     * TakeDamage: nothing for a dead unit; otherwise at least one point,
     * the defence-reduced damage, taken off the clamped health.
     */
    method TakeDamage(damage: real) returns (actual: real)
      requires Valid()
      modifies this`currentHp, this`healthRatios
      modifies this`isDead, this`deathEvents, this`movementEnabled, this`colliderEnabled
      modifies this`fading, this`active, this`healthBarVisible
      ensures Valid()
      ensures old(isDead) ==> actual == 0.0 && unchanged(this)
      ensures !old(isDead) ==>
        && actual == ActualDamage(damage, defence)
        && actual >= 1.0
        && currentHp == Clamp(old(currentHp) - actual, 0.0, maxHp)
        && healthRatios == old(healthRatios) + [HealthRatio(currentHp, maxHp)]
        && (isDead <==> currentHp <= 0.0)
      ensures maxHp >= 0.0 ==> isDead ==> old(isDead) || currentHp == 0.0
      ensures !old(isDead) && isDead ==>
        DiedFrom(old(componentsFetched), old(movementEnabled), old(colliderEnabled), old(fading), old(active),
                 old(healthBarVisible))
      ensures !isDead ==>
        unchanged(this`deathEvents, this`movementEnabled, this`colliderEnabled,
                  this`fading, this`active, this`healthBarVisible)
    {
      if isDead {
        return 0.0;
      }
      actual := ActualDamage(damage, defence);
      SetCurrentHealth(currentHp - actual);
    }

    /** Heal: nothing for a dead unit; otherwise the clamped sum. */
    method Heal(amount: real)
      requires Valid()
      modifies this`currentHp, this`healthRatios
      modifies this`isDead, this`deathEvents, this`movementEnabled, this`colliderEnabled
      modifies this`fading, this`active, this`healthBarVisible
      ensures Valid()
      ensures old(isDead) ==> unchanged(this)
      ensures !old(isDead) ==>
        && currentHp == Clamp(old(currentHp) + amount, 0.0, maxHp)
        && healthRatios == old(healthRatios) + [HealthRatio(currentHp, maxHp)]
        && (isDead <==> currentHp <= 0.0)
      ensures !old(isDead) && isDead ==>
        DiedFrom(old(componentsFetched), old(movementEnabled), old(colliderEnabled), old(fading), old(active),
                 old(healthBarVisible))
      ensures !isDead ==>
        unchanged(this`deathEvents, this`movementEnabled, this`colliderEnabled,
                  this`fading, this`active, this`healthBarVisible)
    {
      if isDead {
        return;
      }
      SetCurrentHealth(currentHp + amount);
    }

    /** CanAttack: not in an attack, and the cooldown since the last one is over. */
    predicate CanAttack(now: real)
      reads this
    {
      !isAttacking && CooldownOver(now, lastAttackTime, preAttackDelay, postAttackDelay, attackSpeed)
    }

    /**
     * TryAttack: refuses and changes nothing when the unit cannot attack;
     * otherwise starts an attack at `now` (StartAttack).
     */
    method TryAttack(now: real) returns (ok: bool)
      requires Valid()
      modifies this`isAttacking, this`lastAttackTime
      ensures Valid()
      ensures ok <==> old(CanAttack(now))
      ensures !ok ==> unchanged(this)
      ensures ok ==> isAttacking && lastAttackTime == now
      ensures ok ==> !CanAttack(now)
    {
      if !CanAttack(now) {
        return false;
      }
      isAttacking := true;
      lastAttackTime := now;
      ok := true;
    }

    /**
     * EndAttack, reached from ExecuteAttack after the two delays: the unit
     * may attack again once the cooldown measured from the last attack is over.
     */
    method EndAttack()
      requires Valid()
      modifies this`isAttacking
      ensures Valid()
      ensures !isAttacking
      ensures forall now :: CanAttack(now) <==>
        CooldownOver(now, lastAttackTime, preAttackDelay, postAttackDelay, attackSpeed)
    {
      isAttacking := false;
    }

    /** Update's safety net for health edited from outside the setter. */
    method Update()
      requires Valid()
      modifies this`isDead, this`deathEvents, this`movementEnabled, this`colliderEnabled
      modifies this`fading, this`active, this`healthBarVisible
      ensures Valid()
      ensures isDead == (old(isDead) || currentHp <= 0.0)
      ensures old(isDead) || currentHp > 0.0 ==> unchanged(this)
      ensures !old(isDead) && isDead ==>
        DiedFrom(old(componentsFetched), old(movementEnabled), old(colliderEnabled), old(fading), old(active),
                 old(healthBarVisible))
    {
      if currentHp <= 0.0 && !isDead {
        Die();
      }
    }

    method ModifyAttackDamage(amount: real)
      requires Valid()
      modifies this`attackDamage
      ensures Valid()
      ensures attackDamage == Max(0.0, old(attackDamage) + amount) && attackDamage >= 0.0
    {
      attackDamage := Max(0.0, attackDamage + amount);
    }

    method ModifyDefense(amount: real)
      requires Valid()
      modifies this`defence
      ensures Valid()
      ensures defence == Max(0.0, old(defence) + amount) && defence >= 0.0
    {
      defence := Max(0.0, defence + amount);
    }

    /** Scales the data asset's attack speed; CanAttack reads the component's own field. */
    method ModifyAttackSpeed(multiplier: real)
      requires Valid()
      modifies this`dataAttackSpeed
      ensures Valid()
      ensures dataAttackSpeed == Max(MinRate, old(dataAttackSpeed) * multiplier)
      ensures dataAttackSpeed >= MinRate
      ensures forall now :: CanAttack(now) == old(CanAttack(now))
    {
      dataAttackSpeed := Max(MinRate, dataAttackSpeed * multiplier);
    }

    method ModifyAttackRange(amount: real)
      requires Valid()
      modifies this`attackRange
      ensures Valid()
      ensures attackRange == Max(MinRate, old(attackRange) + amount) && attackRange >= MinRate
    {
      attackRange := Max(MinRate, attackRange + amount);
    }
  }
}
