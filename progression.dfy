/** The game-state rule of the main loop: the champion menu, the level-up
    choice, and the level-up, win and death checks at the end of a playing
    frame. The movement, combat and spawning physics of a frame is summarised
    by two inputs: the damage the player takes and the mobs the player kills. */
module Progression {

  const SCREEN_W: int := 800
  const LEVEL_DURATION_SECONDS: real := 600.0
  /** XP needed per level: the check is xp >= level * XP_PER_LEVEL. */
  const XP_PER_LEVEL: int := 5

  datatype GameState = ChampSelect | Playing | LevelUp | Win | Dead

  datatype Champion = Mage | Rogue | Knight

  datatype AttackType = Projectile | Melee

  /** The stats a champion preset gives the player. */
  datatype Preset = Preset(attackType: AttackType, projSpeed: real, projDmg: real, cooldown: real, range: real)

  /** The CHAMPIONS table. */
  function PresetOf(c: Champion): (p: Preset)
    ensures p.attackType == Melee <==> c == Knight
    ensures p.attackType == Melee ==> p.projSpeed == 0.0
    ensures p.projDmg > 0.0 && p.cooldown > 0.0 && p.range > 0.0
  {
    match c
    case Mage => Preset(Projectile, 420.0, 28.0, 0.7, 520.0)
    case Rogue => Preset(Projectile, 650.0, 14.0, 0.35, 620.0)
    case Knight => Preset(Melee, 0.0, 36.0, 0.5, 56.0)
  }

  datatype Key = Key1 | Key2 | Key3 | Escape | OtherKey

  datatype Event = Quit | KeyDown(key: Key) | MouseDown(mx: int, my: int)

  /** The card under a click: the screen is split into three equal columns
      by Python's true-division comparisons, computed here on integers. */
  function ChampionAtClick(mx: int): (c: Champion)
    ensures c == Mage <==> (mx as real) < (SCREEN_W as real) / 3.0
    ensures c == Rogue <==> (SCREEN_W as real) / 3.0 <= (mx as real) < 2.0 * (SCREEN_W as real) / 3.0
    ensures c == Knight <==> 2.0 * (SCREEN_W as real) / 3.0 <= (mx as real)
  {
    if 3 * mx < SCREEN_W then Mage
    else if 3 * mx < 2 * SCREEN_W then Rogue
    else Knight
  }

  /** What the champion menu does with an event: nothing, leave the program,
      or pick a champion. */
  datatype MenuOutcome = Ignore | Exit | Pick(champion: Champion)

  function MenuOutcomeOf(ev: Event): (o: MenuOutcome)
    ensures o == Exit <==> ev == Quit
    ensures o == Ignore <==> ev.KeyDown? && ev.key in {Escape, OtherKey}
    ensures ev.MouseDown? ==> o == Pick(ChampionAtClick(ev.mx))
    ensures ev == KeyDown(Key1) ==> o == Pick(Mage)
    ensures ev == KeyDown(Key2) ==> o == Pick(Rogue)
    ensures ev == KeyDown(Key3) ==> o == Pick(Knight)
  {
    match ev
    case Quit => Exit
    case KeyDown(k) =>
      (match k
       case Key1 => Pick(Mage)
       case Key2 => Pick(Rogue)
       case Key3 => Pick(Knight)
       case _ => Ignore)
    case MouseDown(mx, _) => Pick(ChampionAtClick(mx))
  }

  /** The first event of a frame that the menu acts on, if any. */
  function MenuDecision(events: seq<Event>): (o: MenuOutcome)
    ensures o == Ignore <==> forall i :: 0 <= i < |events| ==> MenuOutcomeOf(events[i]) == Ignore
    ensures o != Ignore ==> exists i :: (0 <= i < |events| && MenuOutcomeOf(events[i]) == o &&
      forall j :: 0 <= j < i ==> MenuOutcomeOf(events[j]) == Ignore)
  {
    if events == [] then Ignore
    else if MenuOutcomeOf(events[0]) != Ignore then
      assert MenuOutcomeOf(events[0]) != Ignore;
      MenuOutcomeOf(events[0])
    else
      var rest := MenuDecision(events[1..]);
      assert forall i :: 0 < i < |events| ==> events[i] == events[1..][i - 1];
      rest
  }

  /** Where the end-of-frame checks leave the state and the level. */
  datatype Progress = Progress(state: GameState, level: int)

  /** The checks at the end of a playing frame: the level-up check, then the
      win check, then the death check, each overriding the one before. */
  function FrameChecks(level: int, xp: int, hp: real, elapsed: real): (r: Progress)
    ensures r.level == if xp >= level * XP_PER_LEVEL then level + 1 else level
    ensures r.state == Dead <==> hp <= 0.0
    ensures r.state == Win <==> hp > 0.0 && elapsed >= LEVEL_DURATION_SECONDS
    ensures r.state == LevelUp <==> hp > 0.0 && elapsed < LEVEL_DURATION_SECONDS && xp >= level * XP_PER_LEVEL
    ensures r.state == Playing <==> hp > 0.0 && elapsed < LEVEL_DURATION_SECONDS && xp < level * XP_PER_LEVEL
  {
    var (s1, l1) := if xp >= level * XP_PER_LEVEL then (LevelUp, level + 1) else (Playing, level);
    var s2 := if elapsed >= LEVEL_DURATION_SECONDS then Win else s1;
    var s3 := if hp <= 0.0 then Dead else s2;
    Progress(s3, l1)
  }

  /** The first level-up choice key of a frame, if any. */
  function FirstChoice(events: seq<Event>): (k: Key)
    ensures k in {Key1, Key2, Key3, OtherKey}
    ensures k == OtherKey <==> forall i :: 0 <= i < |events| ==> !IsChoice(events[i])
    ensures k != OtherKey ==> exists i :: (0 <= i < |events| && events[i] == KeyDown(k) &&
      forall j :: 0 <= j < i ==> !IsChoice(events[j]))
  {
    if events == [] then OtherKey
    else if IsChoice(events[0]) then
      assert events[0] == KeyDown(events[0].key);
      events[0].key
    else
      var rest := FirstChoice(events[1..]);
      assert forall i :: 0 < i < |events| ==> events[i] == events[1..][i - 1];
      rest
  }

  predicate IsChoice(ev: Event) {
    ev.KeyDown? && ev.key in {Key1, Key2, Key3}
  }

  /** The frame ends the main loop when it holds a quit event or an Escape key. */
  predicate Stops(events: seq<Event>) {
    exists i :: 0 <= i < |events| && (events[i] == Quit || events[i] == KeyDown(Escape))
  }

  /** The attack damage bonus of level-up option 1, 8 + level * 2: a whole
      even number, at least 10 from the first level on. */
  function DamageBonus(level: int): (b: real)
    ensures b == b.Floor as real && b.Floor % 2 == 0
    ensures level >= 1 ==> b >= 10.0
  {
    (8 + level * 2) as real
  }

  class Player {
    var x: real
    var y: real
    var hp: real
    var level: int
    var xp: int
    var speed: real
    var attackCooldown: real
    var champion: Champion
    var projSpeed: real
    var projDmg: real
    var attackRange: real
    var attackType: AttackType

    /** Player(x, y) with the dataclass defaults. */
    constructor (x0: real, y0: real)
      ensures x == x0 && y == y0
      ensures hp == 100.0 && level == 1 && xp == 0 && speed == 250.0 && attackCooldown == 0.5
      ensures champion == Mage && projSpeed == 420.0 && projDmg == 20.0 && attackRange == 520.0
      ensures attackType == Projectile
    {
      x, y := x0, y0;
      hp, level, xp, speed, attackCooldown := 100.0, 1, 0, 250.0, 0.5;
      champion, projSpeed, projDmg, attackRange, attackType := Mage, 420.0, 20.0, 520.0, Projectile;
    }

    /** The four attributes a level-up choice can raise. */
    ghost function Stats(): Attributes
      reads this
    {
      Attributes(projDmg, attackRange, speed, hp)
    }

    /** The champion and the attack fields that only choose_champion sets. */
    ghost function Kit(): Loadout
      reads this
    {
      Loadout(champion, attackCooldown, projSpeed, attackType)
    }
  }

  datatype Attributes = Attributes(projDmg: real, attackRange: real, speed: real, hp: real)

  datatype Loadout = Loadout(champion: Champion, attackCooldown: real, projSpeed: real, attackType: AttackType)

  /** The loadout choose_champion gives a champion. */
  function LoadoutOf(c: Champion): Loadout {
    var p := PresetOf(c);
    Loadout(c, p.cooldown, p.projSpeed, p.attackType)
  }

  /** The attributes after choosing option k at the given level. */
  ghost function Boosted(k: Key, level: int, s: Attributes): Attributes {
    Attributes(s.projDmg + (if k == Key1 then DamageBonus(level) else 0.0),
          s.attackRange + (if k == Key1 then 10.0 else 0.0),
          s.speed + (if k == Key2 then 40.0 else 0.0),
          s.hp + (if k == Key3 then 40.0 else 0.0))
  }

  /** The variables of main that the state rule reads and writes. */
  class Game {
    var state: GameState
    var elapsed: real
    var running: bool
    const player: Player

    /** The world before the champion menu: the player at the world centre. */
    constructor ()
      ensures state == ChampSelect && elapsed == 0.0 && running
      ensures fresh(player) && player.x == 1200.0 && player.y == 900.0
      ensures player.hp == 100.0 && player.level == 1 && player.xp == 0 && player.speed == 250.0
      ensures player.projDmg == 20.0 && player.attackRange == 520.0
      ensures player.Kit() == Loadout(Mage, 0.5, 420.0, Projectile)
    {
      state, elapsed, running := ChampSelect, 0.0, true;
      player := new Player(1200.0, 900.0);
    }

    /** choose_champion: copies the preset into the player and starts playing;
        hp, level, xp and speed stay as they were. */
    method ChooseChampion(c: Champion)
      modifies this, player
      ensures state == Playing && elapsed == old(elapsed) && running == old(running)
      ensures player.champion == c
      ensures player.attackCooldown == PresetOf(c).cooldown && player.projSpeed == PresetOf(c).projSpeed
      ensures player.projDmg == PresetOf(c).projDmg && player.attackRange == PresetOf(c).range
      ensures player.attackType == PresetOf(c).attackType
      ensures player.x == old(player.x) && player.y == old(player.y) && player.hp == old(player.hp)
      ensures player.level == old(player.level) && player.xp == old(player.xp) && player.speed == old(player.speed)
      ensures player.Kit() == LoadoutOf(c)
    {
      var p := PresetOf(c);
      player.champion := c;
      player.attackCooldown := p.cooldown;
      player.projSpeed := p.projSpeed;
      player.projDmg := p.projDmg;
      player.attackRange := p.range;
      player.attackType := p.attackType;
      state := Playing;
    }

    /** One frame of the champion menu: the first event the menu acts on
        either picks a champion or leaves; the others are ignored. Returns
        whether the program exits. */
    method ChampionMenuFrame(events: seq<Event>) returns (exit: bool)
      requires state == ChampSelect
      modifies this, player
      ensures exit <==> MenuDecision(events) == Exit
      ensures elapsed == old(elapsed) && running == old(running)
      ensures player.x == old(player.x) && player.y == old(player.y)
      ensures player.hp == old(player.hp) && player.level == old(player.level) && player.xp == old(player.xp)
      ensures player.speed == old(player.speed)
      ensures var o := MenuDecision(events);
        if o.Pick? then
          && state == Playing
          && player.Kit() == LoadoutOf(o.champion)
          && player.projDmg == PresetOf(o.champion).projDmg && player.attackRange == PresetOf(o.champion).range
        else
          && state == ChampSelect
          && player.Kit() == old(player.Kit()) && player.Stats() == old(player.Stats())
    {
      exit := false;
      for i := 0 to |events|
        invariant MenuDecision(events) == MenuDecision(events[i..])
        invariant state == ChampSelect && elapsed == old(elapsed) && running == old(running)
        invariant player.x == old(player.x) && player.y == old(player.y)
        invariant player.hp == old(player.hp) && player.level == old(player.level) && player.xp == old(player.xp)
        invariant player.Kit() == old(player.Kit()) && player.Stats() == old(player.Stats())
      {
        assert events[i..][1..] == events[i + 1..];
        var o := MenuOutcomeOf(events[i]);
        if o == Exit {
          exit := true;
          return;
        } else if o.Pick? {
          ChooseChampion(o.champion);
          return;
        }
      }
    }

    /** The level-up choice: option 1 raises damage by 8 + level * 2 and range
        by 10, option 2 speed by 40, option 3 hp by 40; the game resumes and
        the level stays. */
    method ApplyChoice(k: Key)
      requires state == LevelUp && k in {Key1, Key2, Key3}
      modifies this, player
      ensures state == Playing && elapsed == old(elapsed) && running == old(running)
      ensures player.projDmg == old(player.projDmg) + (if k == Key1 then DamageBonus(old(player.level)) else 0.0)
      ensures player.attackRange == old(player.attackRange) + (if k == Key1 then 10.0 else 0.0)
      ensures player.speed == old(player.speed) + (if k == Key2 then 40.0 else 0.0)
      ensures player.hp == old(player.hp) + (if k == Key3 then 40.0 else 0.0)
      ensures player.level == old(player.level) && player.xp == old(player.xp)
      ensures player.x == old(player.x) && player.y == old(player.y) && player.Kit() == old(player.Kit())
      ensures player.Stats() == Boosted(k, old(player.level), old(player.Stats()))
    {
      if k == Key1 {
        player.projDmg := player.projDmg + DamageBonus(player.level);
        player.attackRange := player.attackRange + 10.0;
      } else if k == Key2 {
        player.speed := player.speed + 40.0;
      } else if k == Key3 {
        player.hp := player.hp + 40.0;
      }
      state := Playing;
    }

    /** One event of the frame's event loop: a quit event or Escape clears
        running, and a choice key on the level-up screen applies its option. */
    method HandleEvent(ev: Event)
      modifies this, player
      ensures running == (old(running) && ev != Quit && ev != KeyDown(Escape))
      ensures elapsed == old(elapsed)
      ensures player.level == old(player.level) && player.xp == old(player.xp)
      ensures player.x == old(player.x) && player.y == old(player.y) && player.Kit() == old(player.Kit())
      ensures var applied := old(state) == LevelUp && IsChoice(ev);
        && state == (if applied then Playing else old(state))
        && player.Stats() == (if applied then Boosted(ev.key, old(player.level), old(player.Stats())) else old(player.Stats()))
    {
      if ev == Quit {
        running := false;
      }
      if ev.KeyDown? {
        if ev.key == Escape {
          running := false;
        }
        if state == LevelUp && ev.key in {Key1, Key2, Key3} {
          ApplyChoice(ev.key);
        }
      }
    }

    /** The event loop of a game frame: a quit event or Escape stops the main
        loop, and while the level-up screen is shown the first choice key
        applies its bonus; later choice keys of the same frame find the game
        playing and are ignored. */
    method HandleEvents(events: seq<Event>)
      modifies this, player
      ensures running == (old(running) && !Stops(events))
      ensures elapsed == old(elapsed)
      ensures var k := FirstChoice(events);
        if old(state) == LevelUp && k != OtherKey then
          && state == Playing
          && player.projDmg == old(player.projDmg) + (if k == Key1 then DamageBonus(old(player.level)) else 0.0)
          && player.attackRange == old(player.attackRange) + (if k == Key1 then 10.0 else 0.0)
          && player.speed == old(player.speed) + (if k == Key2 then 40.0 else 0.0)
          && player.hp == old(player.hp) + (if k == Key3 then 40.0 else 0.0)
        else
          && state == old(state)
          && player.projDmg == old(player.projDmg) && player.attackRange == old(player.attackRange)
          && player.speed == old(player.speed) && player.hp == old(player.hp)
      ensures player.level == old(player.level) && player.xp == old(player.xp)
      ensures player.x == old(player.x) && player.y == old(player.y) && player.Kit() == old(player.Kit())
    {
      ghost var k := FirstChoice(events);
      ghost var s0, level0, state0 := player.Stats(), player.level, state;
      for i := 0 to |events|
        invariant running == (old(running) && !Stops(events[..i]))
        invariant elapsed == old(elapsed)
        invariant player.level == level0 && player.xp == old(player.xp)
        invariant player.x == old(player.x) && player.y == old(player.y) && player.Kit() == old(player.Kit())
        invariant FirstChoice(events[..i]) != OtherKey ==> FirstChoice(events[..i]) == k
        invariant var applied := state0 == LevelUp && FirstChoice(events[..i]) != OtherKey;
          && state == (if applied then Playing else state0)
          && player.Stats() == (if applied then Boosted(k, level0, s0) else s0)
      {
        FirstChoiceExtend(events, i);
        StopsExtend(events, i);
        HandleEvent(events[i]);
      }
      assert events[..|events|] == events;
    }

    /** One frame of the main loop: time advances and the events are handled;
        when the game is playing after them (it was, or the level-up screen
        was answered in this frame) the frame's physics applies its damage
        and kills and the end-of-frame checks run; otherwise (level-up screen
        unanswered, win, death) nothing about the player changes. */
    method Frame(dt: real, events: seq<Event>, damage: real, kills: nat)
      modifies this, player
      ensures elapsed == old(elapsed) + dt
      ensures running == (old(running) && !Stops(events))
      ensures player.x == old(player.x) && player.y == old(player.y) && player.Kit() == old(player.Kit())
      ensures var k := FirstChoice(events);
        var answered := old(state) == LevelUp && k != OtherKey;
        var s := if answered then Boosted(k, old(player.level), old(player.Stats())) else old(player.Stats());
        if old(state) == Playing || answered then
          && player.projDmg == s.projDmg && player.attackRange == s.attackRange && player.speed == s.speed
          && player.hp == s.hp - damage && player.xp == old(player.xp) + kills
          && Progress(state, player.level) == FrameChecks(old(player.level), old(player.xp) + kills, s.hp - damage, elapsed)
        else
          && state == old(state)
          && player.Stats() == old(player.Stats()) && player.level == old(player.level) && player.xp == old(player.xp)
    {
      elapsed := elapsed + dt;
      HandleEvents(events);
      if state == Playing {
        PlayingFrame(damage, kills);
      }
    }

    /** The playing part of a frame: the physics applies its damage and kills,
        then the level-up, win and death checks set the state. */
    method PlayingFrame(damage: real, kills: nat)
      requires state == Playing
      modifies this, player
      ensures elapsed == old(elapsed) && running == old(running)
      ensures player.x == old(player.x) && player.y == old(player.y) && player.Kit() == old(player.Kit())
      ensures player.projDmg == old(player.projDmg) && player.attackRange == old(player.attackRange)
      ensures player.speed == old(player.speed)
      ensures player.hp == old(player.hp) - damage && player.xp == old(player.xp) + kills
      ensures Progress(state, player.level) == FrameChecks(old(player.level), old(player.xp) + kills, old(player.hp) - damage, elapsed)
    {
      player.hp := player.hp - damage;
      player.xp := player.xp + kills;
      if player.xp >= player.level * XP_PER_LEVEL {
        player.level := player.level + 1;
        state := LevelUp;
      }
      if elapsed >= LEVEL_DURATION_SECONDS {
        state := Win;
      }
      if player.hp <= 0.0 {
        state := Dead;
      }
    }
  }

  /** The first choice of a concatenation is found in its first part when
      that part has one, and in the second part otherwise. */
  lemma {:induction false} FirstChoiceConcat(s: seq<Event>, t: seq<Event>)
    ensures FirstChoice(s + t) == if FirstChoice(s) != OtherKey then FirstChoice(s) else FirstChoice(t)
    decreases |s|
  {
    if s != [] {
      assert (s + t)[1..] == s[1..] + t;
      FirstChoiceConcat(s[1..], t);
    } else {
      assert s + t == t;
    }
  }

  lemma FirstChoiceExtend(events: seq<Event>, i: nat)
    requires i < |events|
    ensures FirstChoice(events[..i]) != OtherKey ==> FirstChoice(events[..i + 1]) == FirstChoice(events[..i])
    ensures FirstChoice(events[..i]) == OtherKey && IsChoice(events[i]) ==> FirstChoice(events[..i + 1]) == events[i].key
    ensures FirstChoice(events[..i]) == OtherKey && !IsChoice(events[i]) ==> FirstChoice(events[..i + 1]) == OtherKey
    ensures FirstChoice(events[..i + 1]) != OtherKey ==> FirstChoice(events) == FirstChoice(events[..i + 1])
  {
    assert events[..i + 1] == events[..i] + [events[i]];
    FirstChoiceConcat(events[..i], [events[i]]);
    assert [events[i]][1..] == [];
    assert events == events[..i + 1] + events[i + 1..];
    FirstChoiceConcat(events[..i + 1], events[i + 1..]);
  }

  lemma StopsExtend(events: seq<Event>, i: nat)
    requires i < |events|
    ensures Stops(events[..i + 1]) <==> Stops(events[..i]) || events[i] == Quit || events[i] == KeyDown(Escape)
  {
    var front := events[..i + 1];
    if Stops(front) {
      var j :| 0 <= j < |front| && (front[j] == Quit || front[j] == KeyDown(Escape));
      if j < i {
        assert events[..i][j] == front[j];
      }
    }
    if Stops(events[..i]) {
      var j :| 0 <= j < i && (events[..i][j] == Quit || events[..i][j] == KeyDown(Escape));
      assert front[j] == events[..i][j];
    }
    if events[i] == Quit || events[i] == KeyDown(Escape) {
      assert front[i] == events[i];
    }
  }
}
