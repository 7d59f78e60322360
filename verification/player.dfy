/**
 PlayerSystem: the per-player state each client keeps for one player object,
 stripped of rendering, physics and audio. The owner of the object (Photon's
 `photonView.IsMine`) runs the round phase and takes damage; calls into the
 player manager (`SetPlayerReady`, `SetPlayerDead`) and ability RPCs appear
 here as emitted reports.
 */
module PlayerSystem {
  import opened Options
  import Int32

  type i32 = Int32.i32

  /** Waiting for the next round to begin, or playing one. */
  datatype PlayState = Waiting | Playing

  /** The integer stats of a character; the float fire rate is not part of the model. */
  datatype Stats = Stats(health: i32, speed: i32, damage: i32, bulletSpeed: i32)

  /** The field initialisers of `baseHealth`, `baseSpeed`, `baseDamage`, `baseBulletSpeed`. */
  const DefaultStats: Stats := Stats(100, 100, 10, 150)

  /** Character indices, as chosen in the menu. */
  const King: int := 0
  const Queen: int := 1
  const Pawn: int := 2

  /** The speed an enemy's stopping ability imposes. */
  const StoppedSpeed: i32 := 20

  /**
   One player object on one client: whether this client owns it, its base
   stats, its current stats, the ability cooldown flag, the streamed firing
   flag, whether the game scene has been reached, and the round phase.
   */
  datatype Player = Player(
    isMine: bool,
    base: Stats,
    current: Stats,
    canUseAbility: bool,
    isFiring: bool,
    onGameScene: bool,
    playState: PlayState)

  /** A call this player object makes into the rest of the game. */
  datatype Report =
    | PlayerReady             // playerManager.SetPlayerReady()
    | PlayerDead              // playerManager.SetPlayerDead()
    | AbilityHealing(target: nat)   // GetAbilityEffect_Healing RPC to every copy of the target
    | AbilityStopping(target: nat)  // GetAbilityEffect_Stopping RPC to every copy of the target

  /** A player object after one transition, and the calls it made, in order. */
  datatype Outcome = Outcome(player: Player, reports: seq<Report>)

  /** The player object hit by the ability's sphere cast, and whether it is a team mate (`AreInSameTeam`). */
  datatype Aim = Aim(target: nat, sameTeam: bool)

  /** The inputs one frame of `Update` reads. `aim` is the sphere-cast result, `None` when nothing is hit. */
  datatype Input = Input(fireDown: bool, fireUp: bool, abilityDown: bool, aim: Option<Aim>)

  /**
   `InitChosenCharacter`: the character's base stats. Each known character
   overrides some stats and keeps the others from `defaults`; an unknown index
   keeps all of them.
   */
  function InitChosenCharacter(defaults: Stats, character: int): (b: Stats)
    ensures character == King ==> b == Stats(200, 80, 20, 40)
    ensures character == Queen ==> b.health == 110 && b.speed == 110 && b.bulletSpeed == 200
    ensures character == Queen ==> b.damage == defaults.damage
    ensures character == Pawn ==> b.health == 80 && b.speed == 140 && b.damage == 5
    ensures character == Pawn ==> b.bulletSpeed == defaults.bulletSpeed
    ensures character != King && character != Queen && character != Pawn ==> b == defaults
  {
    if character == King then defaults.(health := 200, speed := 80, damage := 20, bulletSpeed := 40)
    else if character == Queen then defaults.(health := 110, speed := 110, bulletSpeed := 200)
    else if character == Pawn then defaults.(health := 80, speed := 140, damage := 5)
    else defaults
  }

  /** Every character, and every unknown index, starts from a positive base health. */
  lemma CharacterTable(character: int)
    ensures InitChosenCharacter(DefaultStats, King) == Stats(200, 80, 20, 40)
    ensures InitChosenCharacter(DefaultStats, Queen) == Stats(110, 110, 10, 200)
    ensures InitChosenCharacter(DefaultStats, Pawn) == Stats(80, 140, 5, 150)
    ensures character !in {King, Queen, Pawn} ==> InitChosenCharacter(DefaultStats, character) == Stats(100, 100, 10, 150)
    ensures InitChosenCharacter(DefaultStats, character).health > 0
  {
  }

  /**
   `SwitchPlayState` as far as the model sees it: for the owner, entering
   `Waiting` stops firing. (Cameras, controller and the respawn position are
   presentation.)
   */
  function SwitchPlayState(p: Player, state: PlayState): (r: Player)
    ensures r.(isFiring := p.isFiring) == p
    ensures p.isMine && state == Waiting ==> !r.isFiring
    ensures !(p.isMine && state == Waiting) ==> r == p
  {
    if p.isMine && state == Waiting then p.(isFiring := false) else p
  }

  /**
   `Start`: the object waits for a round, takes the base stats of `character`
   as its current stats, and (for the owner only) may use its ability.
   `character` is this client's `PlayerManager.chosenCharacter` for every
   copy, owned or not, so a copy of another player's object gets the local
   player's stats.
   */
  function Start(isMine: bool, character: int): (p: Player)
    ensures p.isMine == isMine
    ensures p.playState == Waiting
    ensures p.base == InitChosenCharacter(DefaultStats, character)
    ensures p.current == p.base
    ensures p.canUseAbility == isMine
    ensures !p.onGameScene && !p.isFiring
  {
    var b := InitChosenCharacter(DefaultStats, character);
    Player(isMine, b, b, isMine, false, false, Waiting)
  }

  /**
   `Damage`: on the owner, `health -= dam` (a wrapping C# subtraction); if that
   leaves no health, the health is reset, one death is reported and the player
   waits for the next round. Other copies ignore the call.
   */
  function Damage(p: Player, dam: i32): (r: Outcome)
    ensures !p.isMine ==> r == Outcome(p, [])
    ensures |r.reports| <= 1
    ensures p.isMine && Int32.Wrap(p.current.health as int - dam as int) > 0 ==>
      r == Outcome(p.(current := p.current.(health := Int32.Wrap(p.current.health as int - dam as int))), [])
    ensures p.isMine && Int32.InRange(p.current.health as int - dam as int) && p.current.health as int - dam as int > 0 ==>
      r.player.current.health as int == p.current.health as int - dam as int
    ensures p.isMine && Int32.Wrap(p.current.health as int - dam as int) <= 0 ==>
      r == Outcome(p.(current := p.current.(health := p.base.health), playState := Waiting, isFiring := false), [PlayerDead])
    ensures p.isMine && p.base.health > 0 ==> r.player.current.health > 0
  {
    if !p.isMine then Outcome(p, [])
    else
      var health := Int32.Wrap(p.current.health as int - dam as int);
      if health <= 0 then
        var dead := p.(current := p.current.(health := p.base.health), playState := Waiting);
        Outcome(SwitchPlayState(dead, Waiting), [PlayerDead])
      else
        Outcome(p.(current := p.current.(health := health)), [])
  }

  /** `GetAbilityEffect_Healing`: back to full health, on every copy of the player (the RPC is not owner-guarded). */
  function Healing(p: Player): (r: Player)
    ensures r.current.health == p.base.health
    ensures r.current.(health := p.current.health) == p.current
    ensures r.(current := p.current) == p
  {
    p.(current := p.current.(health := p.base.health))
  }

  /** `GetAbilityEffect_Stopping`: speed drops to 20 on every copy; a restore is scheduled. */
  function Stopping(p: Player): (r: Player)
    ensures r.current.speed == StoppedSpeed
    ensures r.current.(speed := p.current.speed) == p.current
    ensures r.(current := p.current) == p
  {
    p.(current := p.current.(speed := StoppedSpeed))
  }

  /** `RechangeSpeed`, the restore `Stopping` schedules, run as an explicit later step. */
  function RechangeSpeed(p: Player): (r: Player)
    ensures r.current.speed == p.base.speed
    ensures r.current.(speed := p.current.speed) == p.current
    ensures r.(current := p.current) == p
  {
    p.(current := p.current.(speed := p.base.speed))
  }

  /** `AbilityCooldown`, run as an explicit later step: the ability may be used again. */
  function AbilityCooldown(p: Player): (r: Player)
    ensures r.canUseAbility
    ensures r.(canUseAbility := p.canUseAbility) == p
  {
    p.(canUseAbility := true)
  }

  /** `StartNewRound`: the owner starts playing; other copies ignore the call. */
  function StartNewRound(p: Player): (r: Player)
    ensures p.isMine ==> r == p.(playState := Playing)
    ensures !p.isMine ==> r == p
  {
    if p.isMine then SwitchPlayState(p.(playState := Playing), Playing) else p
  }

  /**
   `WinBlackTeam` and `WinWhiteTeam`: whichever team won, the owner waits for
   the next round (they differ only in the banner shown); other copies ignore
   the call.
   */
  function WinTeam(p: Player): (r: Player)
    ensures p.isMine ==> r == p.(playState := Waiting, isFiring := false)
    ensures !p.isMine ==> r == p
  {
    if p.isMine then SwitchPlayState(p.(playState := Waiting), Waiting) else p
  }

  /** The firing flag after one frame's mouse button: pressed starts firing, released stops it. */
  function FireButton(isFiring: bool, input: Input): bool
  {
    if input.fireDown then true else if input.fireUp then false else isFiring
  }

  /** The frame's input triggers the ability: an owned, playing object whose ability is available, aimed at a player. */
  predicate AbilityFires(p: Player, input: Input) {
    p.isMine && p.playState == Playing && input.abilityDown && p.canUseAbility && input.aim.Some?
  }

  /** The RPC the ability sends to the player it hit: healing for a team mate, stopping for an enemy. */
  function AbilityEffect(aim: Aim): Report {
    if aim.sameTeam then AbilityHealing(aim.target) else AbilityStopping(aim.target)
  }

  /**
   One frame of `Update`. On the first frame in the game scene the object
   records it and, if owned, refreshes its play state and reports ready. Then
   an owned object that is playing reads input: the fire button, and the
   ability, which when available and aimed at a player heals a team mate or
   stops an enemy and starts the cooldown. A waiting object reads no input.
   */
  function Update(p: Player, sceneIsGame: bool, input: Input): (r: Outcome)
    ensures r.player.(canUseAbility := p.canUseAbility, isFiring := p.isFiring, onGameScene := p.onGameScene) == p
    ensures r.player.onGameScene == (p.onGameScene || sceneIsGame)
    ensures r.reports
         == (if p.isMine && !p.onGameScene && sceneIsGame then [PlayerReady] else [])
          + (if AbilityFires(p, input) then [AbilityEffect(input.aim.value)] else [])
    ensures r.player.canUseAbility == (p.canUseAbility && !AbilityFires(p, input))
    ensures !p.isMine ==> r.player.isFiring == p.isFiring
    ensures p.isMine && p.playState == Waiting ==> r.player.isFiring == (p.isFiring && (p.onGameScene || !sceneIsGame))
    ensures p.isMine && p.playState == Playing ==> r.player.isFiring == FireButton(p.isFiring, input)
  {
    var entering := !p.onGameScene && sceneIsGame;
    var p1 := if entering then p.(onGameScene := true) else p;
    var p2 := if entering && p.isMine then SwitchPlayState(p1, p1.playState) else p1;
    var ready := if entering && p.isMine then [PlayerReady] else [];
    assert p2.playState == p.playState && p2.canUseAbility == p.canUseAbility;
    if !p.isMine || p2.playState == Waiting then Outcome(p2, ready)
    else
      var firing := p2.(isFiring := FireButton(p2.isFiring, input));
      if input.abilityDown && p2.canUseAbility && input.aim.Some? then
        Outcome(firing.(canUseAbility := false), ready + [AbilityEffect(input.aim.value)])
      else
        Outcome(firing, ready)
  }

  /** While a player waits, or on a copy it does not own, `Update` does the same whatever the input. */
  lemma InputIgnoredWhileWaiting(p: Player, sceneIsGame: bool, i1: Input, i2: Input)
    requires !p.isMine || p.playState == Waiting
    ensures Update(p, sceneIsGame, i1) == Update(p, sceneIsGame, i2)
  {
  }

  /** A stop followed by its scheduled restore leaves the player at base speed, with nothing else changed. */
  lemma StopThenRestore(p: Player)
    ensures RechangeSpeed(Stopping(p)) == p.(current := p.current.(speed := p.base.speed))
  {
  }

  /** Everything that can happen to a player object, one step at a time. */
  datatype Step =
    | Hit(dam: i32)
    | Healed
    | Stopped
    | SpeedRestored
    | CooldownOver
    | RoundStarted
    | RoundWon
    | Frame(sceneIsGame: bool, input: Input)

  /** One step: the handler the step stands for, with what it reports. */
  function Apply(p: Player, s: Step): (r: Outcome)
  {
    match s
    case Hit(dam) => Damage(p, dam)
    case Healed => Outcome(Healing(p), [])
    case Stopped => Outcome(Stopping(p), [])
    case SpeedRestored => Outcome(RechangeSpeed(p), [])
    case CooldownOver => Outcome(AbilityCooldown(p), [])
    case RoundStarted => Outcome(StartNewRound(p), [])
    case RoundWon => Outcome(WinTeam(p), [])
    case Frame(sceneIsGame, input) => Update(p, sceneIsGame, input)
  }

  /** The player after a sequence of steps, and every report made along the way. */
  function Run(p: Player, steps: seq<Step>): (r: Outcome)
    decreases |steps|
  {
    if |steps| == 0 then Outcome(p, [])
    else
      var first := Apply(p, steps[0]);
      var rest := Run(first.player, steps[1..]);
      Outcome(rest.player, first.reports + rest.reports)
  }

  /** The health invariant: a positive base health and a positive current health. */
  predicate Healthy(p: Player) {
    p.base.health > 0 && p.current.health > 0
  }

  /** Every step keeps the base stats and ownership, and keeps a healthy player healthy. */
  lemma StepKeepsHealth(p: Player, s: Step)
    requires Healthy(p)
    ensures Healthy(Apply(p, s).player)
    ensures Apply(p, s).player.base == p.base && Apply(p, s).player.isMine == p.isMine
  {
  }

  /** From a healthy player (as `Start` returns), no sequence of steps ever brings its health to zero or below. */
  lemma {:induction false} HealthStaysPositive(p: Player, steps: seq<Step>)
    requires Healthy(p)
    ensures Healthy(Run(p, steps).player)
    ensures Run(p, steps).player.base == p.base
    decreases |steps|
  {
    if |steps| > 0 {
      StepKeepsHealth(p, steps[0]);
      HealthStaysPositive(Apply(p, steps[0]).player, steps[1..]);
    }
  }

  /** Every character starts healthy, owned or not. */
  lemma StartIsHealthy(isMine: bool, character: int)
    ensures Healthy(Start(isMine, character))
  {
  }

  /** A step reports ready at most once, and only on the frame that first reaches the game scene. */
  lemma StepReadyOnce(p: Player, s: Step)
    ensures multiset(Apply(p, s).reports)[PlayerReady] <= (if p.onGameScene then 0 else 1)
    ensures Apply(p, s).player.onGameScene == (p.onGameScene || (s.Frame? && s.sceneIsGame))
  {
  }

  /** Whatever happens, a player object reports ready at most once in its lifetime. */
  lemma {:induction false} ReadyAtMostOnce(p: Player, steps: seq<Step>)
    ensures multiset(Run(p, steps).reports)[PlayerReady] <= (if p.onGameScene then 0 else 1)
    decreases |steps|
  {
    if |steps| > 0 {
      var first := Apply(p, steps[0]);
      StepReadyOnce(p, steps[0]);
      var rest := Run(first.player, steps[1..]);
      ReadyAtMostOnce(first.player, steps[1..]);
      assert Run(p, steps).reports == first.reports + rest.reports;
      assert multiset(Run(p, steps).reports) == multiset(first.reports) + multiset(rest.reports);
    }
  }

  /**
   `Damage` does not look at the round phase: an owner that died and waits for
   the next round can be hit again and reports a second death. A 60 hit on 50
   health kills; the reset to base health 100 is then killed by a 100 hit.
   */
  lemma DeathReportedAgainWhileWaiting(p: Player)
    requires p.isMine && p.base.health == 100 && 0 < p.current.health <= 60
    ensures Run(p, [Hit(60)]).player.playState == Waiting
    ensures Run(p, [Hit(60), Hit(100)]).reports == [PlayerDead, PlayerDead]
  {
  }
}
