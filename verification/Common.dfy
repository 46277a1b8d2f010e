/** Types and byte-level arithmetic shared by the other modules: options and results,
    little-endian integers of any width, division with remainder as it is needed for
    digits and word sizes, and sequences cut and joined. */
module Common {

  type byte = b: int | 0 <= b < 0x100

  datatype Option<+T> = None | Some(value: T)

  datatype Result<+T, +E> = Ok(value: T) | Err(error: E)

  function Min(a: nat, b: nat): nat {
    if a <= b then a else b
  }

  // ---------------------------------------------------------------------------
  // Little-endian unsigned integers
  // ---------------------------------------------------------------------------

  /** 256 to the power `width`: one more than the largest integer of that many bytes. */
  function Pow256(width: nat): nat
    ensures Pow256(width) > 0
  {
    if width == 0 then 1 else 0x100 * Pow256(width - 1)
  }

  lemma Pow256Values()
    ensures Pow256(1) == 0x100
    ensures Pow256(4) == 0x1_0000_0000
    ensures Pow256(8) == 0x1_0000_0000_0000_0000
  {
    assert Pow256(2) == 0x100 * Pow256(1);
    assert Pow256(3) == 0x100 * Pow256(2);
    assert Pow256(4) == 0x100 * Pow256(3);
    assert Pow256(5) == 0x100 * Pow256(4);
    assert Pow256(6) == 0x100 * Pow256(5);
    assert Pow256(7) == 0x100 * Pow256(6);
  }

  /** The low `width` bytes of `n`, least significant first; a wider `n` is cut, as
      an `as u32` or `as u64` cast cuts it. */
  function LE(n: nat, width: nat): (bs: seq<byte>)
    ensures |bs| == width
  {
    if width == 0 then [] else [n % 0x100] + LE(n / 0x100, width - 1)
  }

  function FromLE(bs: seq<byte>): nat {
    if bs == [] then 0 else bs[0] + 0x100 * FromLE(bs[1..])
  }

  lemma {:induction false} FromLEBound(bs: seq<byte>)
    ensures FromLE(bs) < Pow256(|bs|)
  {
    if bs != [] { FromLEBound(bs[1..]); }
  }

  lemma DivModNested(n: nat, b: nat, m: nat)
    requires b > 0 && m > 0
    ensures b * m > 0
    ensures n % b + b * (n / b % m) == n % (b * m)
  {
    NestedDigits(n, b, m, n / b, n % b);
  }

  lemma NestedDigits(n: nat, b: nat, m: nat, t: nat, low: nat)
    requires m > 0 && low < b && n == b * t + low
    ensures b * m > 0
    ensures n % (b * m) == low + b * (t % m)
  {
    var q, r := t / m, t % m;
    assert t == m * q + r;
    MulGap(b, r, m);
    Distribute(b, m * q, r);
    Associate(b, m, q);
    DivModUnique(n, b * m, q, low + b * r);
  }

  lemma Distribute(a: int, b: int, c: int)
    ensures a * (b + c) == a * b + a * c
  {
  }

  lemma Associate(a: int, b: int, c: int)
    ensures a * (b * c) == (a * b) * c
  {
  }

  lemma DivModUnique(n: nat, d: nat, q: nat, r: nat)
    requires r < d && n == d * q + r
    ensures n % d == r && n / d == q
  {
    var q', r' := n / d, n % d;
    assert d * q' + r' == d * q + r;
    MulGap(d, q', q);
    MulGap(d, q, q');
  }

  lemma MulGap(d: nat, a: nat, b: nat)
    ensures a < b ==> d * a + d <= d * b
  {
    if a < b {
      assert d * (a + 1) <= d * b;
    }
  }

  /** Reading back what was written gives the value the width can hold. */
  lemma {:induction false} LERoundTrip(n: nat, width: nat)
    ensures FromLE(LE(n, width)) == n % Pow256(width)
  {
    if width != 0 {
      LERoundTrip(n / 0x100, width - 1);
      assert LE(n, width)[1..] == LE(n / 0x100, width - 1);
      DivModNested(n, 0x100, Pow256(width - 1));
    }
  }

  /** Writing back what was read gives the same bytes. */
  lemma {:induction false} FromLERoundTrip(bs: seq<byte>)
    ensures LE(FromLE(bs), |bs|) == bs
  {
    if bs != [] {
      FromLERoundTrip(bs[1..]);
      DivModUnique(FromLE(bs), 0x100, FromLE(bs[1..]), bs[0]);
    }
  }

  lemma {:induction false} FromLEZeros(bs: seq<byte>, k: nat)
    ensures FromLE(bs + seq(k, _ => 0)) == FromLE(bs)
  {
    if bs != [] {
      FromLEZeros(bs[1..], k);
      assert (bs + seq(k, _ => 0))[1..] == bs[1..] + seq(k, _ => 0);
    } else if k != 0 {
      FromLEZeros([], k - 1);
      assert ([] + seq(k, _ => 0))[1..] == [] + seq(k - 1, _ => 0);
    }
  }

  // ---------------------------------------------------------------------------
  // Concatenation
  // ---------------------------------------------------------------------------

  function Concat<T>(parts: seq<seq<T>>): seq<T> {
    if parts == [] then [] else parts[0] + Concat(parts[1..])
  }

  lemma {:induction false} ConcatAppend<T>(a: seq<seq<T>>, b: seq<seq<T>>)
    ensures Concat(a + b) == Concat(a) + Concat(b)
  {
    if a == [] {
      assert a + b == b;
    } else {
      ConcatAppend(a[1..], b);
      assert (a + b)[1..] == a[1..] + b;
      assert Concat(a + b) == a[0] + Concat(a[1..] + b);
    }
  }

  lemma SplitThenRest<T>(a: seq<T>, n: nat, b: seq<T>)
    requires n <= |a|
    ensures a[..n] + (a[n..] + b) == a + b
  {
  }

  lemma ConcatAssoc<T>(a: seq<T>, b: seq<T>, c: seq<T>)
    ensures (a + b) + c == a + (b + c)
  {
  }

  /** The result of a whole run is what is done so far followed by the run of the rest. */
  ghost predicate Continues<T, E>(whole: Result<seq<T>, E>, done: seq<T>, rest: Result<seq<T>, E>) {
    match rest
    case Err(e) => whole == Err(e)
    case Ok(values) => whole.Ok? && whole.value == done + values
  }
}
