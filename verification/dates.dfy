/**
 * Posted dates as the fetcher writes them, `strftime("%Y-%m-%d")`, and the fact
 * the digest ordering relies on: comparing two such strings as Python compares
 * `str` values orders them by calendar date.
 */
module Dates {
  import opened Text

  /** A calendar date with the fields `strftime` reads. */
  datatype Date = Date(year: int, month: int, day: int)

  /** Four-digit years, months 1-12, days 1-31: the ranges `%Y`, `%m` and `%d` print at fixed width. */
  predicate InRange(d: Date) {
    1000 <= d.year <= 9999 && 1 <= d.month <= 12 && 1 <= d.day <= 31
  }

  /** `a` is an earlier calendar day than `b`. */
  predicate Before(a: Date, b: Date) {
    || a.year < b.year
    || (a.year == b.year && a.month < b.month)
    || (a.year == b.year && a.month == b.month && a.day < b.day)
  }

  function Pow10(w: nat): nat {
    if w == 0 then 1 else 10 * Pow10(w - 1)
  }

  /** The decimal digit for `k`. */
  function Digit(k: nat): char
    requires k < 10
  {
    ('0' as int + k) as char
  }

  /** `n` in decimal, zero-padded to `w` digits. */
  function Pad(n: nat, w: nat): (r: string)
    requires n < Pow10(w)
    ensures |r| == w
  {
    if w == 0 then "" else Pad(n / 10, w - 1) + [Digit(n % 10)]
  }

  /** `d.strftime("%Y-%m-%d")` */
  function Format(d: Date): (r: string)
    requires InRange(d)
  {
    Pad(d.year, 4) + "-" + Pad(d.month, 2) + "-" + Pad(d.day, 2)
  }

  /** Zero-padded numbers of one width compare as strings the way they compare as numbers. */
  lemma {:induction false} PadOrder(m: nat, n: nat, w: nat)
    requires m < Pow10(w) && n < Pow10(w)
    ensures Less(Pad(m, w), Pad(n, w)) <==> m < n
    ensures Pad(m, w) == Pad(n, w) <==> m == n
  {
    if w == 0 {
      LessIrreflexive("");
    } else {
      var p, q := Pad(m / 10, w - 1), Pad(n / 10, w - 1);
      var x, y := [Digit(m % 10)], [Digit(n % 10)];
      PadOrder(m / 10, n / 10, w - 1);
      LessConcat(p, q, x, y);
      assert Less(x, y) <==> m % 10 < n % 10 by {
        assert x[1..] == [] && y[1..] == [];
      }
      if Pad(m, w) == Pad(n, w) {
        assert p == Pad(m, w)[..w - 1] == Pad(n, w)[..w - 1] == q;
        assert x == Pad(m, w)[w - 1..] == Pad(n, w)[w - 1..] == y;
      }
    }
  }

  /** The formatted date strings sort exactly as the calendar does. */
  lemma {:induction false} FormatOrder(a: Date, b: Date)
    requires InRange(a) && InRange(b)
    ensures Less(Format(a), Format(b)) <==> Before(a, b)
  {
    assert Pow10(2) == 100 && Pow10(4) == 10000;
    PadOrder(a.year, b.year, 4);
    PadOrder(a.month, b.month, 2);
    PadOrder(a.day, b.day, 2);
    var ya, yb := Pad(a.year, 4), Pad(b.year, 4);
    var ma, mb := Pad(a.month, 2), Pad(b.month, 2);
    var da, db := Pad(a.day, 2), Pad(b.day, 2);
    assert Format(a) == ya + ("-" + (ma + ("-" + da)));
    assert Format(b) == yb + ("-" + (mb + ("-" + db)));
    LessConcat(ya, yb, "-" + (ma + ("-" + da)), "-" + (mb + ("-" + db)));
    LessConcat("-", "-", ma + ("-" + da), mb + ("-" + db));
    LessConcat(ma, mb, "-" + da, "-" + db);
    LessConcat("-", "-", da, db);
  }

  /** Two dates print the same exactly when they are the same date. */
  lemma {:induction false} FormatInjective(a: Date, b: Date)
    requires InRange(a) && InRange(b)
    ensures Format(a) == Format(b) <==> a == b
  {
    if Format(a) == Format(b) {
      assert Pow10(2) == 100 && Pow10(4) == 10000;
      var fa, fb := Format(a), Format(b);
      assert Pad(a.year, 4) == fa[..4] == fb[..4] == Pad(b.year, 4);
      assert Pad(a.month, 2) == fa[5..7] == fb[5..7] == Pad(b.month, 2);
      assert Pad(a.day, 2) == fa[8..] == fb[8..] == Pad(b.day, 2);
      PadOrder(a.year, b.year, 4);
      PadOrder(a.month, b.month, 2);
      PadOrder(a.day, b.day, 2);
    }
  }
}
