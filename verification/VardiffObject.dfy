/** The difficulty of one connection as the object its methods update. */
module VardiffObject {
  import opened Basics
  import opened PowersOfTwo
  import opened Vardiff

  class Difficulty {
    const params: Params
    var current: nat
    var lastSent: nat
    var quickdiffActive: bool
    var quickdiffValue: nat
    var sharesSinceSnapshot: nat
    var snapshotAt: nat

    ghost function View(): State
      reads this
    {
      State(current, lastSent, quickdiffActive, quickdiffValue, sharesSinceSnapshot, snapshotAt)
    }

    constructor (p: Params, now: nat)
      ensures params == p && View() == Fresh(p, now)
    {
      params := p;
      current, lastSent := p.min, 0;
      quickdiffActive, quickdiffValue := false, 0;
      sharesSinceSnapshot, snapshotAt := 0, now;
    }

    method ResetSnapshot(now: nat)
      modifies this
      ensures View() == Step(params, old(View()), Restarted(now))
    {
      sharesSinceSnapshot, snapshotAt := 0, now;
    }

    /** The notify step: `announce` is the difficulty to tell first when it is not the one last told, and
        `diff` the one the work is served at. */
    method OnNotify(floor: nat, quickdiff: bool, now: nat) returns (announce: Option<nat>, diff: nat)
      modifies this
      ensures View() == Step(params, old(View()), Notify(floor, quickdiff, now))
      ensures announce == Announced(params, old(View()), Notify(floor, quickdiff, now))
      ensures diff == lastSent && !ChangePending(View())
    {
      hide AdjustedToRate, MsPerShare, ElapsedMs;
      if !quickdiff {
        AdjustOnNotify(now);
      }
      current := Max(current, floor);
      announce := None;
      if lastSent != current {
        var d := MarkSent();
        announce := Some(d);
      }
      quickdiffActive := quickdiff;
      if quickdiff {
        quickdiffValue := lastSent;
      }
      diff := lastSent;
    }

    /** Counts the share and adjusts for it; true for a raise that is announced at once. */
    method OnShareAccepted(now: nat) returns (raised: bool)
      modifies this
      ensures View() == Step(params, old(View()), Accepted(now))
      ensures raised == RaisesAtOnce(params, old(View()).(shares := old(sharesSinceSnapshot) + 1), now)
    {
      sharesSinceSnapshot := sharesSinceSnapshot + 1;
      raised := AdjustOnShare(now);
    }

    method MarkSent() returns (d: nat)
      modifies this
      ensures View() == Step(params, old(View()), Subscribed)
      ensures d == lastSent && Announced(params, old(View()), Subscribed) == Some(d)
    {
      if current == 0 {
        current := params.min;
      }
      lastSent := current;
      d := current;
    }

    method Halve(now: nat)
      modifies this
      ensures View() == Halved(params, old(View()), now)
    {
      current := Max(current / 2, params.min);
      ResetSnapshot(now);
    }

    method AdjustToRate(msPerShare: nat, now: nat)
      modifies this
      ensures View() == AdjustedToRate(params, old(View()), msPerShare, now)
    {
      var target := TargetMs(params);
      if msPerShare > target * RATE_TOLERANCE {
        Halve(now);
      } else if sharesSinceSnapshot >= MIN_SHARES_TO_DOUBLE && msPerShare < target / RATE_TOLERANCE {
        current := 2 * current % U64;
        ResetSnapshot(now);
      }
    }

    method MeasuredMs(now: nat) returns (ms: Option<nat>)
      ensures ms == MsPerShare(View(), now)
    {
      var n := sharesSinceSnapshot;
      var delta := Sub(now, snapshotAt) / NANOS_PER_MS;
      if n == 0 || delta < MIN_SAMPLE_MS {
        return None;
      }
      return Some(Max(delta / n, 1));
    }

    method AdjustOnNotify(now: nat)
      modifies this
      ensures View() == AdjustedOnNotify(params, old(View()), now)
    {
      hide AdjustedToRate, MsPerShare;
      if current != lastSent {
        return;
      }
      if sharesSinceSnapshot == 0 {
        if Sub(now, snapshotAt) / NANOS_PER_MS > MS_PER_MINUTE {
          Halve(now);
        }
        return;
      }
      var ms := MeasuredMs(now);
      if ms.Some? {
        AdjustToRate(ms.value, now);
      }
    }

    method AdjustOnShare(now: nat) returns (raised: bool)
      modifies this
      ensures View() == AdjustedOnShare(params, old(View()), now)
      ensures raised == RaisesAtOnce(params, old(View()), now)
    {
      hide AdjustedToRate, MsPerShare, ElapsedMs, TargetMs;
      if current != lastSent || sharesSinceSnapshot < params.quickdiffCount {
        return false;
      }
      var ms := MeasuredMs(now);
      if ms.None? {
        return false;
      }
      if !quickdiffActive && ms.value < TargetMs(params) / Max(params.quickdiffDelta, 1) {
        QuickRaise(ms.value, now);
        return true;
      }
      AdjustToRate(ms.value, now);
      return false;
    }

    method QuickRaise(msPerShare: pos, now: nat)
      modifies this
      ensures View() == NewSnapshot(old(View()).(current := Raised(params, old(current), msPerShare)), now)
    {
      var factor := TargetMs(params) / msPerShare;
      var raw := Min(factor * current, U64 - 1);
      current := Max(Max(Pow2Floor(raw), 1), 4 * current % U64);
      ResetSnapshot(now);
    }
  }
}
