/** The fixed-width counters of the protocol: 8-bit sequence numbers that wrap,
    16-bit sizes that wrap, and 7-bit port numbers. */
module Words {

  type Byte = x: int | 0 <= x < 256
  type Word = x: int | 0 <= x < 0x10000
  type Port = x: int | 0 <= x < 128

  datatype Option<T> = None | Some(value: T)

  /** `uint8_t` addition. */
  function Add8(a: int, b: int): Byte {
    (a + b) % 256
  }

  /** `uint8_t` subtraction: how far `a` lies after `b` on the ring. */
  function Sub8(a: int, b: int): Byte {
    (a - b) % 256
  }

  function Abs(x: int): nat {
    if x < 0 then -x else x
  }

  /** Reading `std::map<uint8_t, uint8_t>::operator[]`: a key that was never written reads as 0. */
  function At(m: map<Port, Byte>, p: Port): Byte {
    if p in m then m[p] else 0
  }

  /** An absolute index at most 255 ahead of an absolute offset is recovered from the two residues alone. */
  lemma RingDistance(i: nat, e: nat)
    requires e <= i < e + 256
    ensures Sub8(i % 256, e % 256) == i - e
  {
    var d := i - e;
    assert i % 256 == (e % 256 + d) % 256 by {
      assert i == 256 * (e / 256) + (e % 256 + d);
      ModShift(e % 256 + d, e / 256);
    }
    var r := e % 256 + d;
    assert r % 256 == if r < 256 then r else r - 256;
  }

  /** Two absolute indices in one span of 256 are equal as soon as their residues are. */
  lemma ResidueDetermines(i: nat, j: nat, e: nat)
    requires e <= i < e + 256 && e <= j < e + 256
    requires i % 256 == j % 256
    ensures i == j
  {
    RingDistance(i, e);
    RingDistance(j, e);
  }

  lemma ModShift(r: int, k: int)
    ensures (256 * k + r) % 256 == r % 256
  {
    var q := r / 256;
    assert r == 256 * q + r % 256;
    assert 256 * k + r == 256 * (k + q) + r % 256;
  }

  lemma AddMod(e: nat, n: nat)
    ensures (e % 256 + n) % 256 == (e + n) % 256
  {
    ModShift(e % 256 + n, e / 256);
    assert e + n == 256 * (e / 256) + (e % 256 + n);
  }

  /** A bag, held as a sequence, without its element `k`. */
  function Without<T>(q: seq<T>, k: nat): seq<T>
    requires k < |q|
  {
    q[..k] + q[k + 1..]
  }

  // ----- Sequence facts, named so that large proofs can call them instead of searching -----

  lemma Assoc<T>(a: seq<T>, b: seq<T>, c: seq<T>)
    ensures a + b + c == a + (b + c)
  {
  }

  lemma SplitAt<T>(s: seq<T>, i: nat)
    requires i <= |s|
    ensures s == s[..i] + s[i..]
  {
  }

  lemma DropDrop<T>(s: seq<T>, i: nat, j: nat)
    requires i + j <= |s|
    ensures s[i..][j..] == s[i + j..]
  {
  }

  lemma SplitTwice<T>(s: seq<T>, i: nat, j: nat)
    requires i <= j <= |s|
    ensures s == s[..i] + (s[i..j] + s[j..])
  {
  }

  lemma SplitAround<T>(s: seq<T>, k: nat)
    requires k < |s|
    ensures s == s[..k] + ([s[k]] + s[k + 1..])
  {
  }

  lemma InsertedAt<T>(q: seq<T>, k: nat, x: T, i: nat)
    requires k <= |q| && i <= |q|
    ensures (q[..k] + [x] + q[k..])[i] == if i < k then q[i] else if i == k then x else q[i - 1]
  {
  }

  lemma MultisetFront<T>(s: seq<T>)
    requires |s| > 0
    ensures multiset(s[..|s| - 1]) == multiset(s) - multiset{s[|s| - 1]}
  {
    SplitAt(s, |s| - 1);
    assert multiset(s) == multiset(s[..|s| - 1]) + multiset{s[|s| - 1]};
  }

  lemma TakeMore<T>(s: seq<T>, i: nat, j: nat)
    requires i <= j <= |s|
    ensures s[..j] == s[..i] + s[i..j]
  {
  }

  lemma MultisetAssoc<T>(a: multiset<T>, b: multiset<T>, c: multiset<T>)
    ensures a + b + c == a + (b + c)
  {
  }

  lemma TakeOne<T>(s: seq<T>, n: nat)
    requires n < |s|
    ensures s[..n + 1] == s[..n] + [s[n]]
  {
  }

  lemma SnocFront<T>(q: seq<T>, x: T)
    ensures (q + [x])[..|q|] == q && (q + [x])[|q|] == x
  {
  }

  lemma ConcatSnoc<T>(a: seq<T>, b: seq<T>)
    requires b != []
    ensures a + b == (a + b[..|b| - 1]) + [b[|b| - 1]]
    ensures b == b[..|b| - 1] + [b[|b| - 1]]
  {
  }

  lemma MultisetCancel<T>(r: multiset<T>, x: multiset<T>, y: multiset<T>)
    requires r + x == r + y
    ensures x == y
  {
    assert x == r + x - r;
    assert y == r + y - r;
  }
}
