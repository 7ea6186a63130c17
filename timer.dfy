/** The countdown of a game: seconds left and whether the one-second timer
    is still active. */
module Timer {

  /** Length of a game in seconds (AppleGame.GAME_TIME). */
  const GameTime: int := 90

  datatype Clock = Clock(timeLeft: int, running: bool)

  /** A clock in a reachable state: never negative, and never active with no
      time left. */
  predicate Sane(c: Clock) {
    c.timeLeft >= 0 && (c.running ==> c.timeLeft > 0)
  }

  /** The clock a new game starts: full time, timer active. */
  function Start(): Clock {
    Clock(GameTime, true)
  }

  /** One call of the timer callback: one second less, and the timer stops
      once no time is left. */
  function Tick(c: Clock): (r: Clock)
    ensures r.running ==> c.running && r.timeLeft > 0
  {
    var t := c.timeLeft - 1;
    Clock(t, c.running && t > 0)
  }

  /** One second of wall time: an active timer fires its callback, a stopped
      one does nothing. */
  function Elapse(c: Clock): (r: Clock)
    ensures r.running ==> c.running
    ensures Sane(c) ==> Sane(r)
  {
    if c.running then Tick(c) else c
  }

  /** The clock after `k` seconds. */
  function ElapseN(c: Clock, k: nat): (r: Clock)
    ensures r.running ==> c.running
    ensures Sane(c) ==> Sane(r)
  {
    if k == 0 then c else Elapse(ElapseN(c, k - 1))
  }

  /** From an active clock with `t0` seconds left, after `k` seconds the time
      left is t0 - k until it reaches 0, where it stays, and the timer is
      active exactly while k < t0. */
  lemma {:induction false} Countdown(t0: int, k: nat)
    requires t0 > 0
    ensures ElapseN(Clock(t0, true), k) ==
      if k < t0 then Clock(t0 - k, true) else Clock(0, false)
  {
    if k > 0 {
      Countdown(t0, k - 1);
    }
  }

  /** The timer stops on one second only: the `k`-th second of a game ends it
      exactly when k is GameTime, so the game-over step runs once, never
      before 90 seconds, and never twice. */
  lemma GameEndsOnce(k: nat)
    requires k > 0
    ensures ElapseN(Start(), k - 1).running && !ElapseN(Start(), k).running <==> k == GameTime
  {
    Countdown(GameTime, k - 1);
    Countdown(GameTime, k);
  }
}
