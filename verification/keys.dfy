/** Keys of the map and the string hash that picks a key's home slot. */
module Keys {

  /** A C string: no NUL character (it would end the string) and only ASCII
      characters, so that `tolower` is the plain 'A'..'Z' mapping. */
  predicate IsCString(s: string) {
    forall i :: 0 <= i < |s| ==> 0 < s[i] as int < 128
  }

  type Key = s: string | IsCString(s)

  /** 2^64: arithmetic on `unsigned long` wraps modulo this. */
  const Word: nat := 0x1_0000_0000_0000_0000

  /** The code `tolower` gives for an ASCII character. */
  function LowerCode(c: char): int {
    if 'A' <= c <= 'Z' then c as int + ('a' as int - 'A' as int) else c as int
  }

  /** Two keys that differ at most in the letter case of their characters. */
  predicate SameIgnoringCase(a: string, b: string) {
    |a| == |b| && forall i :: 0 <= i < |a| ==> LowerCode(a[i]) == LowerCode(b[i])
  }

  /** One turn of the hash loop, `hash += hash * 32 + tolower(c)`, on a
      64-bit unsigned accumulator: every operation wraps modulo 2^64. */
  function HashStep(h: nat, c: char): (r: nat)
    requires h < Word
    requires 0 < c as int < 128
    ensures r < Word
    ensures r == (33 * h + LowerCode(c)) % Word
  {
    var term := (h * 32 % Word + LowerCode(c)) % Word;
    ModSum(h * 32, LowerCode(c));
    ModSum(h * 32 + LowerCode(c), h);
    (h + term) % Word
  }

  /** (a mod 2^64 + b) mod 2^64 == (a + b) mod 2^64 for non-negative a, b. */
  lemma ModSum(a: nat, b: nat)
    ensures (a % Word + b) % Word == (a + b) % Word
  {
    var q := a / Word;
    assert a == q * Word + a % Word;
    ModShift(a % Word + b, q);
  }

  lemma ModShift(x: nat, q: nat)
    ensures (x + q * Word) % Word == x % Word
  {
    var y := x + q * Word;
    assert y == (y / Word) * Word + y % Word;
    assert x == (x / Word) * Word + x % Word;
  }

  /** The unsigned accumulator after the loop has consumed all of `s`. */
  function HashOf(s: string): (r: nat)
    requires IsCString(s)
    ensures r < Word
  {
    if |s| == 0 then 0 else HashStep(HashOf(s[..|s| - 1]), s[|s| - 1])
  }

  /** `hash(key, capacity)`: the home slot of `key` in a table of `capacity` slots. */
  function Hash(key: Key, capacity: int): (r: nat)
    requires capacity > 0
    ensures r < capacity
  {
    HashOf(key) % capacity
  }

  /** Letter case does not change the hash: keys that differ only in the case
      of their letters share a home slot in every table. */
  lemma {:induction false} HashIgnoresCase(a: Key, b: Key, capacity: int)
    requires SameIgnoringCase(a, b)
    requires capacity > 0
    ensures HashOf(a) == HashOf(b)
    ensures Hash(a, capacity) == Hash(b, capacity)
  {
    PrefixHashIgnoresCase(a, b, |a|);
    assert a[..|a|] == a && b[..|b|] == b;
  }

  lemma {:induction false} PrefixHashIgnoresCase(a: Key, b: Key, n: nat)
    requires SameIgnoringCase(a, b)
    requires n <= |a|
    ensures HashOf(a[..n]) == HashOf(b[..n])
  {
    if n > 0 {
      PrefixHashIgnoresCase(a, b, n - 1);
      assert a[..n][..n - 1] == a[..n - 1];
      assert b[..n][..n - 1] == b[..n - 1];
    }
  }

  /** The loop of `hash` as written: the accumulator starts at 0 and takes one
      `HashStep` per character; the result is reduced modulo the capacity. */
  method HashLoop(key: Key, capacity: int) returns (r: int)
    requires capacity > 0
    ensures r == Hash(key, capacity)
    ensures 0 <= r < capacity
  {
    var h: nat := 0;
    var i := 0;
    while i < |key|
      invariant 0 <= i <= |key|
      invariant h == HashOf(key[..i])
    {
      assert key[..i + 1][..i] == key[..i];
      h := HashStep(h, key[i]);
      i := i + 1;
    }
    assert key[..|key|] == key;
    r := h % capacity;
  }
}
