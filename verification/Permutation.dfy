/** Sequence and divisor facts behind `exchange` (src/getopt.c), which swaps two adjacent blocks in place. */
module Permutation {

  /** `s` with its adjacent blocks [bottom, middle) and [middle, top) exchanged. */
  ghost function Rotated<T>(s: seq<T>, bottom: nat, middle: nat, top: nat): seq<T>
    requires bottom <= middle <= top <= |s|
  {
    s[..bottom] + s[middle..top] + s[bottom..middle] + s[top..]
  }

  /** `s` with the equally long runs starting at `i` and `j` swapped. */
  ghost function RunsSwapped<T>(s: seq<T>, i: nat, j: nat, len: nat): seq<T>
    requires i + len <= j && j + len <= |s|
  {
    s[..i] + s[j..j + len] + s[i + len..j] + s[i..i + len] + s[j + len..]
  }

  /** Sequences that agree from `i` on agree from any later place on. */
  lemma ShorterSuffix<T>(a: seq<T>, b: seq<T>, i: nat, j: nat)
    requires i <= j <= |a| == |b| && a[i..] == b[i..]
    ensures a[j..] == b[j..]
  {
    assert a[j..] == a[i..][j - i..] && b[j..] == b[i..][j - i..];
  }

  lemma NothingToRotate<T>(s: seq<T>, bottom: nat, middle: nat, top: nat)
    requires bottom <= middle <= top <= |s| && (bottom == middle || middle == top)
    ensures Rotated(s, bottom, middle, top) == s
  {
  }

  /** `RunsSwapped`, element by element. */
  lemma RunsAssembled<T>(s: seq<T>, t: seq<T>, i: nat, j: nat, len: nat)
    requires i + len <= j && j + len <= |s| == |t|
    requires forall m :: i <= m < i + len ==> t[m] == s[m + (j - i)]
    requires forall m :: j <= m < j + len ==> t[m] == s[m - (j - i)]
    requires forall m :: 0 <= m < |s| && !(i <= m < i + len) && !(j <= m < j + len) ==> t[m] == s[m]
    ensures t == RunsSwapped(s, i, j, len)
  {
    assert t[..i] == s[..i];
    assert t[i..i + len] == s[j..j + len];
    assert t[i + len..j] == s[i + len..j];
    assert t[j..j + len] == s[i..i + len];
    assert t[j + len..] == s[j + len..];
    assert t[..i + len] == t[..i] + t[i..i + len];
    assert t[..j] == t[..i + len] + t[i + len..j];
    assert t[..j + len] == t[..j] + t[j..j + len];
    assert t == t[..j + len] + t[j + len..];
  }

  /** Swapping a short bottom block with the far end of the top block leaves a smaller exchange to do. */
  lemma BottomShort<T>(s: seq<T>, s': seq<T>, bottom: nat, middle: nat, top: nat, len: nat)
    requires bottom <= middle <= top <= |s| && len == middle - bottom <= top - middle
    requires s' == RunsSwapped(s, bottom, top - len, len)
    ensures |s'| == |s| && Rotated(s', bottom, middle, top - len) == Rotated(s, bottom, middle, top)
  {
    assert s'[..bottom] == s[..bottom];
    var head := s[..bottom] + s[top - len..top];
    assert s' == head + s[middle..top - len] + (s[bottom..middle] + s[top..]) && |head| == middle;
    assert s'[middle..top - len] == s[middle..top - len];
    assert s'[bottom..middle] == s[top - len..top];
    assert s'[top - len..] == s[bottom..middle] + s[top..];
    assert s[middle..top] == s[middle..top - len] + s[top - len..top];
  }

  /** Swapping a short top block with the near end of the bottom block leaves a smaller exchange to do. */
  lemma TopShort<T>(s: seq<T>, s': seq<T>, bottom: nat, middle: nat, top: nat, len: nat)
    requires bottom <= middle <= top <= |s| && len == top - middle <= middle - bottom
    requires s' == RunsSwapped(s, bottom, middle, len)
    ensures |s'| == |s| && Rotated(s', bottom + len, middle, top) == Rotated(s, bottom, middle, top)
  {
    assert s'[..bottom + len] == s[..bottom] + s[middle..top];
    assert s'[middle..top] == s[bottom..bottom + len];
    assert s'[bottom + len..middle] == s[bottom + len..middle];
    assert s'[top..] == s[top..];
    assert s[bottom..middle] == s[bottom..bottom + len] + s[bottom + len..middle];
  }

  /** Greatest common divisor by repeated subtraction. */
  ghost function Gcd(a: nat, b: nat): nat
    decreases a + b
  {
    if a == 0 then b
    else if b == 0 then a
    else if b > a then Gcd(a, b - a)
    else Gcd(a - b, b)
  }

  ghost predicate Divides(d: nat, n: nat) {
    exists k: nat :: n == d * k
  }

  lemma DividesSum(d: nat, a: nat, b: nat)
    requires Divides(d, a) && Divides(d, b)
    ensures Divides(d, a + b)
  {
    var i: nat :| a == d * i;
    var j: nat :| b == d * j;
    assert a + b == d * (i + j);
  }

  lemma DividesDifference(d: nat, a: nat, b: nat)
    requires b <= a && Divides(d, a) && Divides(d, b)
    ensures Divides(d, a - b)
  {
    var i: nat :| a == d * i;
    var j: nat :| b == d * j;
    if i < j {
      assert d * j == d * i + d * (j - i);
      assert a - b == d * 0;
    } else {
      assert a - b == d * (i - j);
    }
  }

  /** `Gcd` is the greatest common divisor: it divides both numbers, and every common divisor divides it. */
  lemma {:induction false} GcdIsGreatest(a: nat, b: nat)
    ensures Divides(Gcd(a, b), a) && Divides(Gcd(a, b), b)
    ensures forall d: nat :: Divides(d, a) && Divides(d, b) ==> Divides(d, Gcd(a, b))
    decreases a + b
  {
    var g := Gcd(a, b);
    if a == 0 || b == 0 {
      assert g == g * 1 && 0 == g * 0;
    } else if b > a {
      GcdIsGreatest(a, b - a);
      DividesSum(g, a, b - a);
      forall d: nat | Divides(d, a) && Divides(d, b)
        ensures Divides(d, g)
      {
        DividesDifference(d, b, a);
      }
    } else {
      GcdIsGreatest(a - b, b);
      DividesSum(g, a - b, b);
      forall d: nat | Divides(d, a) && Divides(d, b)
        ensures Divides(d, g)
      {
        DividesDifference(d, a, b);
      }
    }
  }
}
