/**
 * `formatTimeAgo` (src/utils/time.ts) with the elapsed time `now - date` as
 * an integer number of milliseconds. Each unit is the previous one divided
 * down with floor division; the first unit whose count stays under its limit
 * is the one printed.
 */
module TimeAgo {
  import opened Strings

  datatype Unit = Minute | Hour | Day | Month | Year

  /** What the text says: `just now`, or a count of one unit. */
  datatype Ago = JustNow | Count(unit: Unit, n: nat)

  /** `Math.max(0, Math.floor(diffMs / 1000))`; Dafny's `/` by a positive divisor is the floor. */
  function ElapsedSeconds(elapsedMs: int): (s: nat)
    ensures elapsedMs < 1000 ==> s == 0
    ensures elapsedMs >= 0 ==> s * 1000 <= elapsedMs < (s + 1) * 1000
  {
    if elapsedMs / 1000 < 0 then 0 else elapsedMs / 1000
  }

  /** The bucket of a number of elapsed seconds. */
  function Classify(seconds: nat): (r: Ago)
    ensures r == JustNow <==> seconds < 45
    ensures r.Count? && r.unit == Minute <==> 45 <= seconds && seconds / 60 < 60
    ensures r.Count? && r.unit == Hour <==> 60 <= seconds / 60 && seconds / 3600 < 24
    ensures r.Count? && r.unit == Day <==> 24 <= seconds / 3600 && seconds / 86400 < 30
    ensures r.Count? && r.unit == Month <==> 30 <= seconds / 86400 && seconds / 2592000 < 12
    ensures r.Count? && r.unit == Year <==> 12 <= seconds / 2592000
    ensures r.Count? ==> r.n == seconds / UnitSeconds(r.unit)
  {
    if seconds < 45 then JustNow
    else
      var minutes := seconds / 60;
      if minutes < 60 then Count(Minute, minutes)
      else
        var hours := minutes / 60;
        if hours < 24 then Count(Hour, hours)
        else
          var days := hours / 24;
          if days < 30 then Count(Day, days)
          else
            var months := days / 30;
            if months < 12 then Count(Month, months)
            else Count(Year, months / 12)
  }

  /** The length of a unit in seconds, with a month of 30 days and a year of 12 months. */
  function UnitSeconds(u: Unit): nat {
    match u
    case Minute => 60
    case Hour => 3600
    case Day => 86400
    case Month => 2592000
    case Year => 31104000
  }

  function UnitName(u: Unit): string {
    match u
    case Minute => "minute"
    case Hour => "hour"
    case Day => "day"
    case Month => "month"
    case Year => "year"
  }

  /** `${n} <unit>${n === 1 ? '' : 's'} ago`, or `just now`. */
  function Text(a: Ago): string {
    match a
    case JustNow => "just now"
    case Count(u, n) => NatToDecimal(n) + " " + Tail(u, n)
  }

  /** What follows the count: the unit, an `s` unless the count is one, and `ago`. */
  function Tail(u: Unit, n: nat): string {
    UnitName(u) + (if n == 1 then "" else "s") + " ago"
  }

  /** `formatTimeAgo`. */
  function FormatTimeAgo(elapsedMs: int): string {
    Text(Classify(ElapsedSeconds(elapsedMs)))
  }

  /** A date in the future, or less than 45 seconds back, reads `just now`. */
  lemma FutureIsJustNow(elapsedMs: int)
    requires elapsedMs < 45000
    ensures FormatTimeAgo(elapsedMs) == "just now"
  {
  }

  /** The count of a bucket is the number of whole units elapsed. */
  lemma CountIsWholeUnits(seconds: nat)
    requires Classify(seconds).Count?
    ensures var a := Classify(seconds);
            a.n * UnitSeconds(a.unit) <= seconds < (a.n + 1) * UnitSeconds(a.unit)
  {
    var a := Classify(seconds);
    var u := UnitSeconds(a.unit);
    assert a.n == seconds / u;
  }

  /** The rank of a bucket from the finest, `just now`, to the coarsest, years. */
  function Rank(a: Ago): nat {
    match a
    case JustNow => 0
    case Count(Minute, _) => 1
    case Count(Hour, _) => 2
    case Count(Day, _) => 3
    case Count(Month, _) => 4
    case Count(Year, _) => 5
  }

  /**
   * More time elapsed never lands in a finer bucket, and within one bucket
   * never gives a smaller count.
   */
  lemma LaterIsCoarser(s: nat, t: nat)
    requires s <= t
    ensures Rank(Classify(s)) <= Rank(Classify(t))
    ensures Classify(s).Count? && Classify(t).Count? && Classify(s).unit == Classify(t).unit ==>
              Classify(s).n <= Classify(t).n
  {
    assert s / 60 <= t / 60 && s / 3600 <= t / 3600 && s / 86400 <= t / 86400;
    assert s / 2592000 <= t / 2592000 && s / 31104000 <= t / 31104000;
  }

  /** Elapsed milliseconds map to seconds monotonically, so the order carries over to the text's bucket. */
  lemma LaterIsCoarserMs(m1: int, m2: int)
    requires m1 <= m2
    ensures Rank(Classify(ElapsedSeconds(m1))) <= Rank(Classify(ElapsedSeconds(m2)))
  {
    assert m1 / 1000 <= m2 / 1000;
    LaterIsCoarser(ElapsedSeconds(m1), ElapsedSeconds(m2));
  }

  /** A count with its unit in the singular exactly when the count is one. */
  lemma SingularOnlyForOne(u: Unit, n: nat)
    ensures Text(Count(u, n)) == NatToDecimal(n) + " " + UnitName(u) + " ago" <==> n == 1
  {
    var x := NatToDecimal(n) + " " + UnitName(u);
    if n != 1 {
      assert Text(Count(u, n)) == x + "s ago";
    }
  }

  /** The text tells its bucket and count back: different buckets or counts never read the same. */
  lemma TextInjective(a: Ago, b: Ago)
    ensures Text(a) == Text(b) <==> a == b
  {
    if a.Count? && b.Count? {
      CountTextInjective(a.unit, a.n, b.unit, b.n);
    }
  }

  lemma CountTextInjective(u: Unit, n: nat, v: Unit, m: nat)
    ensures Text(Count(u, n)) == Text(Count(v, m)) ==> u == v && n == m
  {
    DecimalThenSeparator(n, Tail(u, n), m, Tail(v, m), ' ');
    if Text(Count(u, n)) == Text(Count(v, m)) {
      UnitTailInjective(u, v, n);
    }
  }

  lemma UnitTailInjective(u: Unit, v: Unit, n: nat)
    ensures Tail(u, n) == Tail(v, n) ==> u == v
  {
    assert Tail(u, n)[0] == UnitName(u)[0] && Tail(u, n)[1] == UnitName(u)[1];
    assert Tail(v, n)[0] == UnitName(v)[0] && Tail(v, n)[1] == UnitName(v)[1];
    UnitNamesDiffer(u, v);
  }

  /** No two unit names start with the same two letters. */
  lemma UnitNamesDiffer(u: Unit, v: Unit)
    ensures UnitName(u)[0] == UnitName(v)[0] && UnitName(u)[1] == UnitName(v)[1] ==> u == v
  {
  }
}
