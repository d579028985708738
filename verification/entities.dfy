/**
 * The game's entities: grid cells and the player. Both carry the common
 * game-object part (a rectangle and an `active` flag); a cell's kind is a
 * tagged value rather than a subclass.
 */
module Entities {
  import opened CMath
  import opened Constants
  import opened Rects

  datatype CellType = Empty | Obstacle | Coin | Finish

  /** One grid tile. Its kind is fixed when it is made; only `collected` ever changes. */
  datatype Cell = Cell(kind: CellType, rect: Rect, active: bool, collected: bool, textureId: string)

  /** Texture each cell kind is drawn with; an EMPTY cell has none. */
  function TextureFor(kind: CellType): string
  {
    match kind
    case Obstacle => "obstacle"
    case Coin => "coin"
    case Finish => "finish"
    case Empty => ""
  }

  function NewCell(kind: CellType, x: int, y: int, w: int, h: int): (c: Cell)
    ensures c.kind == kind && c.rect == Rect(x, y, w, h)
    ensures c.active && !c.collected
    ensures kind == Obstacle ==> c.textureId == "obstacle"
    ensures kind == Coin ==> c.textureId == "coin"
    ensures kind == Finish ==> c.textureId == "finish"
    ensures c.textureId == "" <==> kind == Empty
  {
    Cell(kind, Rect(x, y, w, h), true, false, TextureFor(kind))
  }

  /** The texture id of a new cell identifies its kind. */
  lemma TextureIdentifiesKind(k1: CellType, k2: CellType, x: int, y: int, w: int, h: int)
    requires NewCell(k1, x, y, w, h).textureId == NewCell(k2, x, y, w, h).textureId
    ensures k1 == k2
  {
    match k1
    case Empty =>
    case Obstacle => assert TextureFor(k2)[0] == 'o';
    case Coin => assert TextureFor(k2)[0] == 'c';
    case Finish => assert TextureFor(k2)[0] == 'f';
  }

  /** Marks a cell as collected; nothing else about it changes. */
  function Collect(c: Cell): (c': Cell)
    ensures c'.collected
    ensures c'.kind == c.kind && c'.rect == c.rect && c'.active == c.active && c'.textureId == c.textureId
  {
    c.(collected := true)
  }

  lemma CollectIdempotent(c: Cell)
    ensures Collect(Collect(c)) == Collect(c)
  {
  }

  // ---------------------------------------------------------------- Player

  /** Frames in the player's sprite-sheet animation. */
  const PLAYER_FRAME_COUNT := 3
  /** Ticks a frame stays on screen is this value plus one. */
  const PLAYER_ANIMATION_SPEED := 20

  datatype Player = Player(
    rect: Rect,
    active: bool,
    score: int,
    alive: bool,
    currentFrame: int,
    frameCount: int,
    animationSpeed: int,
    frameCounter: int)

  /** The animation counters are within the ranges the sprite sheet needs. */
  predicate AnimationValid(p: Player)
  {
    && 0 < p.frameCount && 0 <= p.animationSpeed
    && 0 <= p.currentFrame < p.frameCount
    && 0 <= p.frameCounter <= p.animationSpeed
  }

  function NewPlayer(x: int, y: int): (p: Player)
    ensures p.rect == Rect(x, y, PLAYER_WIDTH, PLAYER_HEIGHT)
    ensures p.active && p.alive && p.score == 0
    ensures p.currentFrame == 0 && p.frameCounter == 0
    ensures p.frameCount == PLAYER_FRAME_COUNT && p.animationSpeed == PLAYER_ANIMATION_SPEED
    ensures AnimationValid(p)
  {
    Player(Rect(x, y, PLAYER_WIDTH, PLAYER_HEIGHT), true, 0, true, 0,
           PLAYER_FRAME_COUNT, PLAYER_ANIMATION_SPEED, 0)
  }

  /** Player::update: advances the animation counter and, when it wraps, the frame. */
  function Animate(p: Player): (p': Player)
    requires p.frameCount > 0
    ensures AnimationValid(p) ==> AnimationValid(p')
    ensures p'.currentFrame != p.currentFrame ==> p.frameCounter + 1 > p.animationSpeed
    ensures p.frameCounter + 1 <= p.animationSpeed ==> p'.frameCounter == p.frameCounter + 1
    ensures p.frameCounter + 1 > p.animationSpeed ==> p'.frameCounter == 0
    ensures p.frameCounter + 1 > p.animationSpeed ==> p'.currentFrame == Rem(p.currentFrame + 1, p.frameCount)
    ensures AnimationValid(p) && p.frameCounter + 1 > p.animationSpeed ==>
      p'.currentFrame == if p.currentFrame + 1 == p.frameCount then 0 else p.currentFrame + 1
    ensures p' == p.(currentFrame := p'.currentFrame, frameCounter := p'.frameCounter)
  {
    var counter := p.frameCounter + 1;
    if counter > p.animationSpeed then
      p.(frameCounter := 0, currentFrame := Rem(p.currentFrame + 1, p.frameCount))
    else
      p.(frameCounter := counter)
  }

  /** `n` consecutive animation ticks. */
  function AnimateN(p: Player, n: nat): (p': Player)
    requires p.frameCount > 0
    decreases n
    ensures p'.frameCount == p.frameCount
  {
    if n == 0 then p else AnimateN(Animate(p), n - 1)
  }

  lemma ModAdd3(a: nat, b: nat)
    ensures (a % 3 + b) % 3 == (a + b) % 3
  {
  }

  /**
   * With the player's own settings the animation has a closed form: the
   * counter runs modulo 21 and the frame advances once per 21 ticks,
   * modulo 3.
   */
  lemma {:induction false} AnimationClosedForm(p: Player, n: nat)
    requires AnimationValid(p)
    requires p.frameCount == PLAYER_FRAME_COUNT && p.animationSpeed == PLAYER_ANIMATION_SPEED
    decreases n
    ensures AnimateN(p, n).frameCounter == (p.frameCounter + n) % 21
    ensures AnimateN(p, n).currentFrame == (p.currentFrame + (p.frameCounter + n) / 21) % 3
  {
    if n > 0 {
      var q := Animate(p);
      AnimationClosedForm(q, n - 1);
      if p.frameCounter == 20 {
        assert (p.frameCounter + n) / 21 == 1 + (n - 1) / 21;
        ModAdd3(p.currentFrame + 1, (n - 1) / 21);
      }
    }
  }

  /** Player::moveLeft: step left by the player speed, stopping at the screen's left edge. */
  function MoveLeft(p: Player): (p': Player)
    ensures p'.rect.x >= 0
    ensures p.rect.x >= PLAYER_SPEED ==> p'.rect.x == p.rect.x - PLAYER_SPEED
    ensures p.rect.x < PLAYER_SPEED ==> p'.rect.x == 0
    ensures p' == p.(rect := p.rect.(x := p'.rect.x))
  {
    var x := p.rect.x - PLAYER_SPEED;
    p.(rect := p.rect.(x := if x < 0 then 0 else x))
  }

  /** Player::moveRight: step right by the player speed, stopping where the player touches the right edge. */
  function MoveRight(p: Player): (p': Player)
    ensures p'.rect.x <= SCREEN_WIDTH - p.rect.w
    ensures p.rect.x + PLAYER_SPEED <= SCREEN_WIDTH - p.rect.w ==> p'.rect.x == p.rect.x + PLAYER_SPEED
    ensures p.rect.x + PLAYER_SPEED > SCREEN_WIDTH - p.rect.w ==> p'.rect.x == SCREEN_WIDTH - p.rect.w
    ensures p' == p.(rect := p.rect.(x := p'.rect.x))
  {
    var x := p.rect.x + PLAYER_SPEED;
    p.(rect := p.rect.(x := if x > SCREEN_WIDTH - p.rect.w then SCREEN_WIDTH - p.rect.w else x))
  }

  /** Horizontal position lies on screen: the whole player is visible. */
  predicate OnScreen(p: Player)
  {
    0 <= p.rect.x <= SCREEN_WIDTH - p.rect.w
  }

  /** A sequence of key-held ticks: `true` steps left, `false` steps right. */
  function Steer(p: Player, moves: seq<bool>): (p': Player)
    decreases |moves|
    ensures p'.rect.w == p.rect.w
    ensures p' == p.(rect := p.rect.(x := p'.rect.x))
  {
    if |moves| == 0 then p
    else Steer(if moves[0] then MoveLeft(p) else MoveRight(p), moves[1..])
  }

  /** A player that starts on screen stays on screen whatever keys are held. */
  lemma {:induction false} SteerStaysOnScreen(p: Player, moves: seq<bool>)
    requires OnScreen(p)
    decreases |moves|
    ensures OnScreen(Steer(p, moves))
  {
    if |moves| > 0 {
      SteerStaysOnScreen(if moves[0] then MoveLeft(p) else MoveRight(p), moves[1..]);
    }
  }

  /** Player::addScore. */
  function AddScore(p: Player, points: int): (p': Player)
    ensures p'.score - p.score == points
    ensures points >= 0 ==> p'.score >= p.score
    ensures p' == p.(score := p'.score)
  {
    p.(score := p.score + points)
  }

  /** Player::kill: the one transition of `alive`, and it only goes to false. */
  function Kill(p: Player): (p': Player)
    ensures !p'.alive
    ensures p'.(alive := true) == p.(alive := true)
  {
    p.(alive := false)
  }
}
