/** The primes that the constants of SHA-256 are derived from. */
module FirstPrimes {

  /** The first sixty-four primes, eight to a row. */
  const PRIME_ROWS: seq<seq<nat>> := [
    [2, 3, 5, 7, 11, 13, 17, 19],
    [23, 29, 31, 37, 41, 43, 47, 53],
    [59, 61, 67, 71, 73, 79, 83, 89],
    [97, 101, 103, 107, 109, 113, 127, 131],
    [137, 139, 149, 151, 157, 163, 167, 173],
    [179, 181, 191, 193, 197, 199, 211, 223],
    [227, 229, 233, 239, 241, 251, 257, 263],
    [269, 271, 277, 281, 283, 293, 307, 311]
  ]

  ghost predicate Prime(n: nat) {
    n >= 2 && forall d :: 2 <= d < n ==> n % d != 0
  }

  /** Not a proper multiple of a prime up to seventeen. */
  predicate Sieved(n: nat) {
    && n >= 2
    && (n != 2 ==> n % 2 != 0) && (n != 3 ==> n % 3 != 0) && (n != 5 ==> n % 5 != 0) && (n != 7 ==> n % 7 != 0)
    && (n != 11 ==> n % 11 != 0) && (n != 13 ==> n % 13 != 0) && (n != 17 ==> n % 17 != 0)
  }

  /** Below 18 * 18 the sieve finds every composite. */
  lemma SieveIsExact(n: nat)
    requires n < 324
    ensures Prime(n) <==> Sieved(n)
  {
    if Sieved(n) {
      forall d | 2 <= d < n ensures n % d != 0 {
        if n % d == 0 { FactorIsSieved(n, d); }
      }
    } else if n >= 2 {
      var d := if n % 2 == 0 then 2 else if n % 3 == 0 then 3 else if n % 5 == 0 then 5 else if n % 7 == 0 then 7
               else if n % 11 == 0 then 11 else if n % 13 == 0 then 13 else 17;
      assert n % d == 0;
    }
  }

  lemma FactorIsSieved(n: nat, d: nat)
    requires 2 <= d < n < 324 && n % d == 0
    ensures !Sieved(n)
  {
    hide Sieved;
    var e := n / d;
    assert n == d * e;
    if d <= 17 {
      SmallFactor(d, e);
    } else {
      assert d * e >= 18 * e;
      SmallFactor(e, d);
    }
  }

  lemma SmallFactor(small: nat, large: nat)
    requires 2 <= small <= 17 && large >= 2
    ensures !Sieved(small * large)
  {
    var p := if small % 2 == 0 then 2 else if small % 3 == 0 then 3 else small;
    var m := small / p;
    assert small == p * m;
    assert small * large == p * (m * large);
    assert m * large >= large;
    Multiple(p, m * large);
  }

  lemma Multiple(p: nat, m: nat)
    requires p in {2, 3, 5, 7, 11, 13, 17} && m >= 2
    ensures !Sieved(p * m)
  {
    var n := p * m;
    assert n != p;
    Remainders(n, m);
    assert p == 2 ==> n == 2 * m;
    assert p == 3 ==> n == 3 * m;
    assert p == 5 ==> n == 5 * m;
    assert p == 7 ==> n == 7 * m;
    assert p == 11 ==> n == 11 * m;
    assert p == 13 ==> n == 13 * m;
    assert p == 17 ==> n == 17 * m;
  }

  lemma Remainders(n: nat, m: nat)
    ensures (n == 2 * m ==> n % 2 == 0) && (n == 3 * m ==> n % 3 == 0) && (n == 5 * m ==> n % 5 == 0)
    ensures n == 7 * m ==> n % 7 == 0
    ensures (n == 11 * m ==> n % 11 == 0) && (n == 13 * m ==> n % 13 == 0) && (n == 17 * m ==> n % 17 == 0)
  {
    if n == 11 * m { RemainderByEleven(m); }
    if n == 13 * m { RemainderByThirteen(m); }
    if n == 17 * m { RemainderBySeventeen(m); }
  }

  lemma RemainderByEleven(m: nat)
    ensures (11 * m) % 11 == 0
  {
  }

  lemma RemainderByThirteen(m: nat)
    ensures (13 * m) % 13 == 0
  {
  }

  lemma RemainderBySeventeen(m: nat)
    ensures (17 * m) % 17 == 0
  {
  }

  /** One of the eight numbers of a row. */
  predicate Among(row: seq<nat>, n: nat) {
    |row| == 8 && (n == row[0] || n == row[1] || n == row[2] || n == row[3] ||
                   n == row[4] || n == row[5] || n == row[6] || n == row[7])
  }

  /** Beyond three only numbers next to a multiple of six are left to look at. */
  predicate NextToSix(n: nat, j: nat) {
    n == 6 * j + 1 || n == 6 * j + 5
  }

  lemma Row0(n: nat, j: nat)
    requires n < 20 && NextToSix(n, j)
    ensures Sieved(n) <==> Among(PRIME_ROWS[0], n)
  {
    assert j == 0 || j == 1 || j == 2 || j == 3;
  }

  lemma Row1(n: nat, j: nat)
    requires 20 <= n < 54 && NextToSix(n, j)
    ensures Sieved(n) <==> Among(PRIME_ROWS[1], n)
  {
    assert j == 3 || j == 4 || j == 5 || j == 6 || j == 7 || j == 8;
  }

  lemma Row2(n: nat, j: nat)
    requires 54 <= n < 90 && NextToSix(n, j)
    ensures Sieved(n) <==> Among(PRIME_ROWS[2], n)
  {
    assert j == 9 || j == 10 || j == 11 || j == 12 || j == 13 || j == 14;
  }

  lemma Row3(n: nat, j: nat)
    requires 90 <= n < 132 && NextToSix(n, j)
    ensures Sieved(n) <==> Among(PRIME_ROWS[3], n)
  {
    assert j == 15 || j == 16 || j == 17 || j == 18 || j == 19 || j == 20 || j == 21;
  }

  lemma Row4(n: nat, j: nat)
    requires 132 <= n < 174 && NextToSix(n, j)
    ensures Sieved(n) <==> Among(PRIME_ROWS[4], n)
  {
    assert j == 22 || j == 23 || j == 24 || j == 25 || j == 26 || j == 27 || j == 28;
  }

  lemma Row5(n: nat, j: nat)
    requires 174 <= n < 224 && NextToSix(n, j)
    ensures Sieved(n) <==> Among(PRIME_ROWS[5], n)
  {
    assert j == 29 || j == 30 || j == 31 || j == 32 || j == 33 || j == 34 || j == 35 || j == 36 || j == 37;
  }

  lemma Row6(n: nat, j: nat)
    requires 224 <= n < 264 && NextToSix(n, j)
    ensures Sieved(n) <==> Among(PRIME_ROWS[6], n)
  {
    assert j == 37 || j == 38 || j == 39 || j == 40 || j == 41 || j == 42 || j == 43;
  }

  lemma Row7(n: nat, j: nat)
    requires 264 <= n < 312 && NextToSix(n, j)
    ensures Sieved(n) <==> Among(PRIME_ROWS[7], n)
  {
    assert j == 44 || j == 45 || j == 46 || j == 47 || j == 48 || j == 49 || j == 50 || j == 51;
  }

  /** The row that holds a prime up to 311. */
  function RowOf(n: nat): nat {
    if n < 20 then 0 else if n < 54 then 1 else if n < 90 then 2 else if n < 132 then 3
    else if n < 174 then 4 else if n < 224 then 5 else if n < 264 then 6 else 7
  }

  lemma SievedNextToSix(n: nat) returns (j: nat)
    requires n > 3 && Sieved(n)
    ensures NextToSix(n, j)
  {
    j := n / 6;
    var r := n - 6 * j;
    if r == 0 { Remainders(n, 3 * j); }
    else if r == 2 { Remainders(n, 3 * j + 1); }
    else if r == 3 { Remainders(n, 2 * j + 1); }
    else if r == 4 { Remainders(n, 3 * j + 2); }
  }

  lemma ListedNextToSix(n: nat, r: nat) returns (j: nat)
    requires n > 3 && r < |PRIME_ROWS| && Among(PRIME_ROWS[r], n)
    ensures NextToSix(n, j)
  {
    j := n / 6;
  }

  lemma RowIsSieved(n: nat)
    requires n <= 311
    ensures |PRIME_ROWS| == 8 && (Sieved(n) <==> Among(PRIME_ROWS[RowOf(n)], n))
  {
    if n <= 3 {
      return;
    }
    hide Sieved, Among;
    if Sieved(n) || Among(PRIME_ROWS[RowOf(n)], n) {
      var j: nat;
      if Sieved(n) { j := SievedNextToSix(n); } else { j := ListedNextToSix(n, RowOf(n)); }
      match RowOf(n)
      case 0 => Row0(n, j);
      case 1 => Row1(n, j);
      case 2 => Row2(n, j);
      case 3 => Row3(n, j);
      case 4 => Row4(n, j);
      case 5 => Row5(n, j);
      case 6 => Row6(n, j);
      case _ => Row7(n, j);
    }
  }

  /** The rows hold the primes up to 311, all of them, in order: the first sixty-four. */
  lemma RowsAreThePrimes(n: nat)
    requires n <= 311
    ensures |PRIME_ROWS| == 8
    ensures Prime(n) <==> exists r :: 0 <= r < 8 && Among(PRIME_ROWS[r], n)
    ensures forall r :: 0 <= r < 8 ==> |PRIME_ROWS[r]| == 8
    ensures forall r, c, d :: 0 <= r < 8 && 0 <= c < d < 8 ==> PRIME_ROWS[r][c] < PRIME_ROWS[r][d]
    ensures forall q, r :: 0 <= q < r < 8 ==> PRIME_ROWS[q][7] < PRIME_ROWS[r][0]
  {
    hide Prime, Sieved;
    SieveIsExact(n);
    RowIsSieved(n);
    RowsAscend();
    forall r | 0 <= r < 8 && Among(PRIME_ROWS[r], n) ensures r == RowOf(n) {}
  }

  lemma RowsAscend()
    ensures |PRIME_ROWS| == 8 && forall r :: 0 <= r < 8 ==> |PRIME_ROWS[r]| == 8
    ensures forall r, c, d :: 0 <= r < 8 && 0 <= c < d < 8 ==> PRIME_ROWS[r][c] < PRIME_ROWS[r][d]
    ensures forall q, r :: 0 <= q < r < 8 ==> PRIME_ROWS[q][7] < PRIME_ROWS[r][0]
  {
  }
}
