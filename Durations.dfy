/**
 * The hours / minutes / seconds decomposition that both duration formatters of the web
 * application perform: `Math.floor(s / 3600)`, `Math.floor((s % 3600) / 60)` and `s % 60`.
 * Durations are whole non-negative seconds, for which JavaScript's `Math.floor` of a
 * quotient and `%` agree with Dafny's `/` and `%`.
 */
module Durations {

  /** A number of seconds as whole hours, minutes and seconds. */
  datatype Hms = Hms(hours: nat, minutes: nat, seconds: nat)

  function Seconds(t: Hms): nat {
    t.hours * 3600 + t.minutes * 60 + t.seconds
  }

  /** Euclidean division is determined by its defining equation and remainder bound. */
  lemma DivModUnique(a: nat, b: nat, q: nat, r: nat)
    requires b > 0 && a == b * q + r && r < b
    ensures q == a / b && r == a % b
  {
    var q' := a / b;
    if q < q' {
      MulMonotonic(b, q + 1, q');
      assert false;
    } else if q' < q {
      MulMonotonic(b, q' + 1, q);
      assert false;
    }
  }

  lemma MulMonotonic(b: nat, x: nat, y: nat)
    requires x <= y
    ensures b * x <= b * y
  {
  }

  function Split(total: nat): (t: Hms)
    ensures Seconds(t) == total
    ensures t.minutes < 60 && t.seconds < 60
    ensures t.hours > 0 <==> total >= 3600
  {
    var hours := total / 3600;
    var rest := total % 3600;
    var minutes := rest / 60;
    var secs := total % 60;
    assert rest == 60 * minutes + rest % 60;
    assert total == 60 * (60 * hours + minutes) + rest % 60;
    DivModUnique(total, 60, 60 * hours + minutes, rest % 60);
    Hms(hours, minutes, secs)
  }

  /** A total of at least `k` hours splits into at least `k` hours. */
  lemma HoursAtLeast(total: nat, k: nat)
    ensures total >= k * 3600 ==> Split(total).hours >= k
  {
  }

  /** Any decomposition whose minutes and seconds are below 60 is the one `Split` gives. */
  lemma SplitUnique(t: Hms)
    requires t.minutes < 60 && t.seconds < 60
    ensures Split(Seconds(t)) == t
  {
    var total := Seconds(t);
    assert total == 3600 * t.hours + (60 * t.minutes + t.seconds);
    DivModUnique(total, 3600, t.hours, 60 * t.minutes + t.seconds);
    assert total == 60 * (60 * t.hours + t.minutes) + t.seconds;
    DivModUnique(total, 60, 60 * t.hours + t.minutes, t.seconds);
    DivModUnique(60 * t.minutes + t.seconds, 60, t.minutes, t.seconds);
  }

  /**
   * The seconds a list of clock fields denotes: `[h, m, s]` or `[m, s]`
   * (the two shapes the formatters produce); any other list denotes nothing.
   */
  function FieldsToSeconds(fields: seq<nat>): int {
    if |fields| == 3 then fields[0] * 3600 + fields[1] * 60 + fields[2]
    else if |fields| == 2 then fields[0] * 60 + fields[1]
    else -1
  }
}
