/** Small definitions shared by every component: optional values and facts about sequences. */
module Prelude {

  datatype Option<+T> = None | Some(value: T)

  /** A byte of a Go string or of a network stream. */
  newtype byte = b: int | 0 <= b < 256

  type Bytes = seq<byte>

  /** Go's "time": an instant on an abstract clock; the zero time.Time is None. */
  type Time = int

  /** now.Before(until), where the zero time lies before every instant of the clock. */
  predicate Before(now: Time, until: Option<Time>) {
    until.Some? && now < until.value
  }

  /** No element occurs twice. */
  ghost predicate Distinct<T>(s: seq<T>) {
    s == [] || (s[0] !in s[1..] && Distinct(s[1..]))
  }

  lemma {:induction false} DistinctIndices<T>(s: seq<T>, i: nat, j: nat)
    requires Distinct(s) && i < j < |s|
    ensures s[i] != s[j]
  {
    if i == 0 {
      assert s[j] == s[1..][j - 1];
    } else {
      DistinctIndices(s[1..], i - 1, j - 1);
    }
  }

  lemma {:induction false} DistinctAppend<T>(s: seq<T>, x: T)
    requires Distinct(s) && x !in s
    ensures Distinct(s + [x])
  {
    if s == [] {
      assert s + [x] == [x];
    } else {
      DistinctAppend(s[1..], x);
      assert (s + [x])[1..] == s[1..] + [x];
    }
  }

  /** The sequence without the first occurrence of x. */
  function Without<T(==)>(s: seq<T>, x: T): (r: seq<T>)
    ensures |r| <= |s|
  {
    if s == [] then [] else if s[0] == x then s[1..] else [s[0]] + Without(s[1..], x)
  }

  lemma {:induction false} WithoutElements<T>(s: seq<T>, x: T)
    ensures forall y :: y in Without(s, x) ==> y in s
    ensures forall y :: y in s && y != x ==> y in Without(s, x)
    ensures x !in s ==> Without(s, x) == s
    ensures x in s ==> |Without(s, x)| == |s| - 1
  {
    if s != [] && s[0] != x {
      WithoutElements(s[1..], x);
      assert s == [s[0]] + s[1..];
    }
  }

  lemma {:induction false} WithoutDistinct<T>(s: seq<T>, x: T)
    requires Distinct(s)
    ensures Distinct(Without(s, x)) && x !in Without(s, x)
  {
    if s != [] && s[0] != x {
      WithoutDistinct(s[1..], x);
      WithoutElements(s[1..], x);
      assert ([s[0]] + Without(s[1..], x))[1..] == Without(s[1..], x);
    }
  }

  lemma {:induction false} WithoutLast<T>(s: seq<T>, x: T)
    requires x !in s
    ensures Without(s + [x], x) == s
  {
    if s == [] {
      assert s + [x] == [x];
    } else {
      WithoutLast(s[1..], x);
      assert (s + [x])[1..] == s[1..] + [x];
    }
  }

  /** The elements of a sequence, as a set. */
  ghost function Elements<T>(s: seq<T>): set<T> {
    set x | x in s
  }

  lemma {:induction false} DistinctSize<T>(s: seq<T>)
    requires Distinct(s)
    ensures |Elements(s)| == |s|
  {
    if s == [] {
      assert Elements(s) == {};
    } else {
      DistinctSize(s[1..]);
      assert Elements(s) == {s[0]} + Elements(s[1..]);
    }
  }

  /** strings.TrimSuffix for a suffix of one element. */
  function TrimSuffix<T(==)>(s: seq<T>, x: T): seq<T> {
    if s != [] && s[|s| - 1] == x then s[..|s| - 1] else s
  }

  /** The key under which the limiters count an address. */
  function Key(address: string): string {
    if address == "" then "unknown" else address
  }

  /** An address other than the empty one and the one that stands for it. */
  predicate Proper(address: string) {
    address != "" && address != "unknown"
  }

  /** The addresses are the same, or the empty one and its stand-in. */
  predicate Together(a: string, b: string) {
    a == b || (!Proper(a) && !Proper(b))
  }

  /** Exactly such addresses are counted together. */
  lemma KeyExactly(a: string, b: string)
    ensures Key(a) == Key(b) <==> Together(a, b)
    ensures Proper(a) ==> Key(a) == a
    ensures Key("") == "unknown"
  {
  }

  lemma Associative<T>(a: seq<T>, b: seq<T>, c: seq<T>)
    ensures a + b + c == a + (b + c)
  {
  }

  lemma Overwrite<K, V>(m: map<K, V>, k: K, a: V, b: V)
    ensures m[k := a][k := b] == m[k := b]
  {
  }

  lemma {:induction false} SubsetSize<T>(a: set<T>, b: set<T>)
    requires a <= b
    ensures |a| <= |b|
  {
    if a != {} {
      var x :| x in a;
      SubsetSize(a - {x}, b - {x});
    }
  }
}

/** Facts about products and remainders that the solver does not find alone. */
module Arithmetic {

  lemma OneMore(h: nat, t: nat)
    ensures h * (t + 1) == h * t + h
  {
  }

  lemma {:induction false} MultiplesApart(h: nat, t: nat, u: nat)
    requires t > u
    ensures h * t >= h * u + h
  {
    OneMore(h, t - 1);
    if t - 1 > u {
      MultiplesApart(h, t - 1, u);
    }
  }

  lemma MultipleBetween(h: nat, t: nat, u: nat)
    requires h * u - h < h * t < h * u + h
    ensures t == u
  {
    if t > u {
      MultiplesApart(h, t, u);
    } else if t < u {
      MultiplesApart(h, u, t);
    }
  }

  lemma CloseMultiples(h: nat, t: nat, u: nat)
    requires -2 * h < h * t - h * u < 2 * h
    ensures -1 <= t - u <= 1
  {
    OneMore(h, t);
    OneMore(h, u);
    if t > u + 1 {
      MultiplesApart(h, t, u + 1);
    } else if u > t + 1 {
      MultiplesApart(h, u, t + 1);
    }
  }

  lemma AtMostQuotient(h: nat, t: nat, m: nat)
    requires h > 0 && h * t <= m
    ensures t <= m / h
  {
    assert m == h * (m / h) + m % h;
    if t > m / h {
      MultiplesApart(h, t, m / h);
    }
  }

  lemma Monotonous(h: nat, t: nat, u: nat)
    requires t <= u
    ensures h * t <= h * u
  {
    if t < u {
      MultiplesApart(h, u, t);
    }
  }

  lemma DivisionUnique(m: nat, h: nat, q: nat, r: nat)
    requires h > 0 && r < h && m == h * q + r
    ensures m % h == r
  {
    assert m == h * (m / h) + m % h;
    assert h * q - h < h * (m / h) < h * q + h;
    MultipleBetween(h, m / h, q);
  }
}
