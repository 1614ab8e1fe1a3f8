/** Small runtime vocabulary shared by the game model: optional values, the
    exceptions the C# code can raise, and the semantics of the few .NET
    primitives the game relies on (integer division, Math.Clamp,
    Random.Next and "retry until accepted" loops). */
module Common {

  /** A value that may be absent: a rejected candidate, a placement loop
      that ran out of random draws. */
  datatype Option<+T> = None | Some(value: T)

  /** The .NET exceptions the modelled code can throw. */
  datatype Error =
    | DivideByZero          // integer `/` by a zero divisor
    | MinGreaterThanMax     // Math.Clamp called with min > max
    | IndexOutOfRange       // List<T> indexer outside [0, Count)

  /** The outcome of an operation that may throw. */
  datatype Result<+T> = Ok(value: T) | Err(error: Error)

  function Abs(a: int): (r: nat)
    ensures r == a || r == -a
  {
    if a < 0 then -a else a
  }

  /** Distance between two points of the integer line. */
  function Dist(a: int, b: int): nat {
    Abs(a - b)
  }

  /** C#'s integer `/`: the quotient is truncated toward zero, so the
      remainder is never larger than the divisor and takes the dividend's
      sign (unlike Dafny's Euclidean `/`). */
  function Quot(a: int, b: int): (q: int)
    requires b != 0
    ensures 0 <= a && 0 < b ==> q == a / b
    ensures Abs(a - q * b) < Abs(b)
    ensures 0 <= a ==> 0 <= a - q * b
    ensures a <= 0 ==> a - q * b <= 0
  {
    var n := Abs(a);
    var d := Abs(b);
    var t := n / d;
    NatDivision(n, d);
    if (0 <= a) == (0 < b) then
      assert t * b == (if 0 < b then t * d else -(t * d));
      t
    else
      assert (-t) * b == (if 0 < b then -(t * d) else t * d);
      -t
  }

  /** Euclidean division of naturals: the remainder lies in [0, d). */
  lemma NatDivision(n: nat, d: nat)
    requires 0 < d
    ensures 0 <= n - (n / d) * d < d
    ensures 0 <= n / d
  {
  }

  /** Math.Clamp(value, min, max): throws when min > max, otherwise the
      point of [min, max] nearest to value. */
  function Clamp(v: int, lo: int, hi: int): (r: Result<int>)
    ensures r.Ok? <==> lo <= hi
    ensures r.Ok? ==> lo <= r.value <= hi
    ensures r.Ok? ==> forall w :: lo <= w <= hi ==> Dist(r.value, v) <= Dist(w, v)
  {
    if hi < lo then Err(MinGreaterThanMax)
    else if v < lo then Ok(lo)
    else if hi < v then Ok(hi)
    else Ok(v)
  }

  /** The values `Random.Next(0, max)` (and `Random.Next(max)`) can return:
      [0, max) for a positive max, exactly 0 for max == 0; a negative max
      throws, so no draw exists for it. */
  predicate IsNextDraw(r: int, max: int) {
    if max == 0 then r == 0 else 0 <= r < max
  }

  /** The index of the first draw a "retry until accepted" loop accepts,
      or None when every draw in the finite prefix is rejected. */
  function FirstAccepted<T>(draws: seq<T>, accept: T -> bool): (r: Option<nat>)
    ensures r.Some? ==> r.value < |draws| && accept(draws[r.value])
    ensures r.Some? ==> forall j :: 0 <= j < r.value ==> !accept(draws[j])
    ensures r.None? ==> forall j :: 0 <= j < |draws| ==> !accept(draws[j])
  {
    if |draws| == 0 then None
    else if accept(draws[0]) then Some(0)
    else
      match FirstAccepted(draws[1..], accept)
      case None => None
      case Some(i) => Some(i + 1)
  }

  /** Cell index along one axis: a point `a * c + h` with 0 <= h < c lies in
      the cell `[b * c, b * c + c)` only when a == b. */
  lemma SameCell(a: int, b: int, c: int, h: int)
    requires 0 <= h < c
    requires b * c <= a * c + h < b * c + c
    ensures a == b
  {
    MulStrictlyMonotone(a, b, c);
    MulStrictlyMonotone(b, a, c);
  }

  /** Multiplying by a positive cell size keeps distinct indices at least
      one cell apart. */
  lemma MulStrictlyMonotone(x: int, y: int, c: int)
    requires 0 < c
    ensures x < y ==> x * c + c <= y * c
  {
    if x < y {
      var k := y - x - 1;
      assert y * c == x * c + c + k * c;
      assert 0 <= k * c;
    }
  }

  /** A pixel `q * c + m` with 0 <= m < c lies in cell q at offset m. */
  lemma CellDivMod(q: int, c: int, m: int)
    requires 0 <= m < c
    ensures (q * c + m) / c == q
    ensures (q * c + m) % c == m
  {
    var n := q * c + m;
    assert n == (n / c) * c + n % c;
    SameCell(q, n / c, c, m);
  }

  /** `a` is obtained from `b` by deleting elements, keeping the order. */
  ghost predicate IsSubsequence<T>(a: seq<T>, b: seq<T>)
    decreases |b|
  {
    || |a| == 0
    || (&& |b| > 0
        && (|| (a[0] == b[0] && IsSubsequence(a[1..], b[1..]))
            || IsSubsequence(a, b[1..])))
  }

  /** A subsequence is no longer than its source and draws every element
      from it. */
  lemma {:induction false} SubsequenceBounds<T>(a: seq<T>, b: seq<T>)
    requires IsSubsequence(a, b)
    ensures |a| <= |b|
    ensures forall x :: x in a ==> x in b
    decreases |b|
  {
    if |a| == 0 {
    } else if a[0] == b[0] && IsSubsequence(a[1..], b[1..]) {
      SubsequenceBounds(a[1..], b[1..]);
      assert forall x :: x in a ==> x == a[0] || x in a[1..];
    } else {
      SubsequenceBounds(a, b[1..]);
    }
  }
}
