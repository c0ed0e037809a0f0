/** Types shared by the other modules. */
module Common {

  /** One `uint8_t`. */
  type byte = b: int | 0 <= b < 256

  datatype Option<+T> = None | Some(value: T)

  const TWO_32: nat := 0x1_0000_0000
  const TWO_64: nat := 0x1_0000_0000_0000_0000

  type u32 = n: int | 0 <= n < TWO_32
  type u64 = n: int | 0 <= n < TWO_64

  function Min(a: int, b: int): int {
    if a < b then a else b
  }

  /** Appending the next slice of s to what was already appended. */
  lemma AppendSlice<T>(first: seq<T>, s: seq<T>, a: nat, b: nat, before: seq<T>, after: seq<T>)
    requires a <= b <= |s|
    requires before == first + s[..a] && after == before + s[a..b]
    ensures after == first + s[..b]
  {
    assert s[..b] == s[..a] + s[a..b];
  }

  /** Moving the next n elements of the remainder to the part already taken. */
  lemma TakeMore<T>(all: seq<T>, m: nat, n: nat, taken: seq<T>, rest: seq<T>)
    requires m <= |all| && n <= |rest|
    requires taken == all[..m] && rest == all[m..]
    ensures m + n <= |all| && taken + rest[..n] == all[..m + n] && rest[n..] == all[m + n..]
  {
  }

  /** `memcpy` of the bytes src to the cells of a from `at` on. */
  method Memcpy(a: array<byte>, at: nat, src: seq<byte>)
    requires at + |src| <= a.Length
    modifies a
    ensures a[..] == old(a[..at]) + src + old(a[at + |src|..])
    ensures a[..at + |src|] == old(a[..at]) + src
  {
    forall k | 0 <= k < |src| {
      a[at + k] := src[k];
    }
  }

  lemma AtLeastOnePeriod(d: int, count: nat)
    ensures d >= 1 ==> d * count >= count
    ensures d <= -1 ==> d * count + count <= 0
  {
  }

  /** Quotient and remainder are what they have to be. */
  lemma QuotientRemainder(v: int, q: int, r: int, count: nat)
    requires count > 0 && v == q * count + r && 0 <= r < count
    ensures v / count == q && v % count == r
  {
    var d := v / count - q;
    assert v == v / count * count + v % count;
    assert d * count == v / count * count - q * count;
    AtLeastOnePeriod(d, count);
  }
}
