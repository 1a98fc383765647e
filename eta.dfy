/** The estimated time left, split into days, hours, minutes and seconds
    for the progress line (src/main.rs:164-171). */
module Eta {
  import opened RustText

  datatype Duration = Duration(days: nat, hours: nat, minutes: nat, seconds: nat)

  /** Total seconds of a split duration. */
  function TotalSeconds(d: Duration): nat {
    d.days * 86400 + d.hours * 3600 + d.minutes * 60 + d.seconds
  }

  /** A split where every unit below the day is under its carry limit. */
  predicate Normalized(d: Duration) {
    d.hours < 24 && d.minutes < 60 && d.seconds < 60
  }

  /** `x` written as `k * q + r` with `0 <= r < k` fixes `x / k` and `x % k`. */
  lemma DivModUnique(x: int, k: int, q: int, r: int)
    requires k > 0 && x == k * q + r && 0 <= r < k
    ensures x / k == q && x % k == r
  {
    var q', r' := x / k, x % k;
    assert k * (q - q') == r' - r;
    if q > q' {
      MulAtLeast(k, q - q');
    } else if q < q' {
      MulAtLeast(k, q' - q);
    }
  }

  lemma {:induction false} MulAtLeast(k: nat, t: nat)
    requires t >= 1
    ensures k * t >= k
  {
    if t > 1 {
      MulAtLeast(k, t - 1);
      assert k * t == k * (t - 1) + k;
    }
  }

  /** The walker's split of the ETA: whole days, then the hours, minutes and
      seconds left over. */
  function Split(etaSeconds: U64): (d: Duration)
    ensures TotalSeconds(d) == etaSeconds && Normalized(d)
  {
    var days := etaSeconds / 86400;
    var hours := (etaSeconds % 86400) / 3600;
    var minutes := (etaSeconds % 3600) / 60;
    var seconds := etaSeconds % 60;
    var inDay := etaSeconds % 86400;
    var inHour := inDay % 3600;
    assert inDay == 3600 * hours + inHour;
    DivModUnique(etaSeconds, 3600, 24 * days + hours, inHour);
    DivModUnique(etaSeconds, 60, 60 * (24 * days + hours) + inHour / 60, inHour % 60);
    Duration(days, hours, minutes, seconds)
  }

  /** A normalized split is unique: `Split` is the only one with its total. */
  lemma SplitUnique(etaSeconds: U64, d: Duration)
    requires TotalSeconds(d) == etaSeconds && Normalized(d)
    ensures d == Split(etaSeconds)
  {
    var belowDay := d.hours * 3600 + d.minutes * 60 + d.seconds;
    DivModUnique(etaSeconds, 86400, d.days, belowDay);
    DivModUnique(etaSeconds % 86400, 3600, d.hours, d.minutes * 60 + d.seconds);
    DivModUnique(etaSeconds, 3600, d.days * 24 + d.hours, d.minutes * 60 + d.seconds);
    DivModUnique(etaSeconds % 3600, 60, d.minutes, d.seconds);
    DivModUnique(etaSeconds, 60, d.days * 1440 + d.hours * 60 + d.minutes, d.seconds);
  }
}
