/** The polling loop: each poll reads the time, plays the explosion at the
    top of an hour it has not celebrated yet, and redraws the clock face. */
module MainLoop {
  import opened Display
  import opened Layout
  import opened Frame

  /** The hour last celebrated before any poll: no hour at all. */
  const InitialLastHour: int := -1

  /** A poll at minute 0, second 0. */
  predicate TopOfHour(now: Instant)
  {
    now.minute == 0 && now.second == 0
  }

  /** The explosion plays at the top of an hour other than the last one celebrated. */
  predicate Fires(lastHour: int, now: Instant)
  {
    TopOfHour(now) && now.hour != lastHour
  }

  /** The last celebrated hour after one poll. */
  function NextLastHour(lastHour: int, now: Instant): int
  {
    if Fires(lastHour, now) then now.hour else lastHour
  }

  /** The number of explosions over a run of polls. */
  function Firings(lastHour: int, polls: seq<Instant>): nat
    decreases polls
  {
    if polls == [] then 0
    else (if Fires(lastHour, polls[0]) then 1 else 0) + Firings(NextLastHour(lastHour, polls[0]), polls[1..])
  }

  /** The last celebrated hour after a run of polls. */
  function LastHourAfter(lastHour: int, polls: seq<Instant>): int
    decreases polls
  {
    if polls == [] then lastHour else LastHourAfter(NextLastHour(lastHour, polls[0]), polls[1..])
  }

  /** The state the loop keeps between polls. */
  class Clock {
    var lastHour: int

    constructor ()
      ensures lastHour == InitialLastHour
    {
      lastHour := InitialLastHour;
    }

    /** One pass of the loop: decide on and record the explosion, show its
        frames (path holds the particle positions the random physics yields
        for each frame), then draw the face that is handed to the display. */
    method Poll(now: Instant, path: seq<seq<(int, int)>>)
      returns (exploded: bool, animation: seq<Framebuffer>, face: Framebuffer)
      requires ValidInstant(now)
      modifies this
      ensures exploded == Fires(old(lastHour), now)
      ensures lastHour == NextLastHour(old(lastHour), now)
      ensures |animation| == if exploded then |path| else 0
      ensures forall n :: 0 <= n < |animation| ==>
        fresh(animation[n].pixels) && animation[n].Valid() &&
        forall i, j :: InBounds(i, j) ==>
          animation[n].pixels[i, j] == if (i, j) in path[n] then BRIGHTNESS else 0
      ensures fresh(face) && fresh(face.pixels) && face.Valid()
      ensures forall i, j :: InBounds(i, j) ==> face.pixels[i, j] == TimePixel(now, i, j)
    {
      exploded := false;
      animation := [];
      if now.minute == 0 && now.second == 0 && now.hour != lastHour {
        exploded := true;
        animation := Explosion(path);
        lastHour := now.hour;
      }
      face := DrawTime(now);
    }
  }

  /** The loop over a finite run of polls, paths[n] being the particle
      positions of the explosion poll n would play: it plays Firings
      explosions and leaves lastHour at LastHourAfter. */
  method Run(clock: Clock, polls: seq<Instant>, paths: seq<seq<seq<(int, int)>>>)
    returns (explosions: nat)
    requires |paths| == |polls|
    requires forall k :: 0 <= k < |polls| ==> ValidInstant(polls[k])
    modifies clock
    ensures explosions == Firings(old(clock.lastHour), polls)
    ensures clock.lastHour == LastHourAfter(old(clock.lastHour), polls)
  {
    ghost var start := clock.lastHour;
    explosions := 0;
    for n := 0 to |polls|
      invariant explosions == Firings(start, polls[..n])
      invariant clock.lastHour == LastHourAfter(start, polls[..n])
    {
      var exploded, animation, face := clock.Poll(polls[n], paths[n]);
      if exploded {
        explosions := explosions + 1;
      }
      assert polls[..n + 1] == polls[..n] + [polls[n]];
      assert [polls[n]][1..] == [];
      FiringsSplit(start, polls[..n], [polls[n]]);
    }
    assert polls[..|polls|] == polls;
  }

  /** After an explosion, no later poll in the same hour fires. */
  lemma NoRefireWithinHour(lastHour: int, now: Instant, later: Instant)
    requires Fires(lastHour, now) && later.hour == now.hour
    ensures NextLastHour(lastHour, now) == now.hour
    ensures !Fires(NextLastHour(lastHour, now), later)
  {
  }

  /** A poll that does not fire keeps the last celebrated hour. */
  lemma QuietPollKeepsHour(lastHour: int, now: Instant)
    requires !Fires(lastHour, now)
    ensures NextLastHour(lastHour, now) == lastHour
  {
  }

  /** Before any explosion, the first top of an hour always fires. */
  lemma FirstTopOfHourFires(now: Instant)
    requires ValidInstant(now) && TopOfHour(now)
    ensures Fires(InitialLastHour, now)
  {
  }

  /** Polls run one after another: counts add up and the state threads through. */
  lemma {:induction false} FiringsSplit(lastHour: int, a: seq<Instant>, b: seq<Instant>)
    ensures Firings(lastHour, a + b) == Firings(lastHour, a) + Firings(LastHourAfter(lastHour, a), b)
    ensures LastHourAfter(lastHour, a + b) == LastHourAfter(LastHourAfter(lastHour, a), b)
    decreases a
  {
    if a != [] {
      assert (a + b)[0] == a[0] && (a + b)[1..] == a[1..] + b;
      FiringsSplit(NextLastHour(lastHour, a[0]), a[1..], b);
    } else {
      assert a + b == b;
    }
  }

  /** Over any run of polls within one hour h the explosion plays at most
      once: exactly once when h is not already celebrated and the run reaches
      the top of the hour, after which h is the celebrated hour. */
  lemma {:induction false} OncePerHour(lastHour: int, polls: seq<Instant>, h: int)
    requires forall k :: 0 <= k < |polls| ==> polls[k].hour == h
    ensures Firings(lastHour, polls) <= 1
    ensures Firings(lastHour, polls) == 1 <==>
      lastHour != h && exists k :: 0 <= k < |polls| && TopOfHour(polls[k])
    ensures LastHourAfter(lastHour, polls) ==
      if Firings(lastHour, polls) == 1 then h else lastHour
    decreases polls
  {
    if polls != [] {
      var next := NextLastHour(lastHour, polls[0]);
      OncePerHour(next, polls[1..], h);
      if Fires(lastHour, polls[0]) {
        assert next == h;
        assert Firings(h, polls[1..]) == 0;
      } else {
        assert next == lastHour;
        if lastHour != h && exists k :: 0 <= k < |polls| && TopOfHour(polls[k]) {
          var k :| 0 <= k < |polls| && TopOfHour(polls[k]);
          assert k != 0;
          assert TopOfHour(polls[1..][k - 1]);
        }
        if exists k :: 0 <= k < |polls[1..]| && TopOfHour(polls[1..][k]) {
          var k :| 0 <= k < |polls[1..]| && TopOfHour(polls[1..][k]);
          assert TopOfHour(polls[k + 1]);
        }
      }
    }
  }
}
