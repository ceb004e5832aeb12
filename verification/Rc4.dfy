/** The two RC4 implementations of src/crypto/encryption.rs: `rc4_cipher` on indices modulo 256
    and `rc4_encrypt`/`rc4_decrypt` on wrapping bytes. */
module Rc4 {
  import opened Bits

  type State = s: seq<byte> | |s| == 256 witness Repeat(0 as byte, 256)

  type Key = k: seq<byte> | k != [] witness [0]

  /** `Panic` is no error of the source: its own check of a slice or a divisor stops the program. */
  datatype CryptoError = InvalidKey | Panic

  function Identity(): State {
    seq(256, i requires 0 <= i < 256 => i as byte)
  }

  function Swapped(s: State, i: byte, j: byte): State {
    s[i := s[j]][j := s[i]]
  }

  // ---------------------------------------------------------------- the cipher as functions

  datatype Scheduled = Scheduled(s: State, j: byte)

  /** Key schedule after `n` of its 256 steps. */
  function Schedule(key: Key, n: nat): Scheduled
    requires n <= 256
  {
    if n == 0 then Scheduled(Identity(), 0)
    else
      var before := Schedule(key, n - 1);
      var i: byte := n - 1;
      var j: byte := (before.j as int + before.s[i] as int + key[(n - 1) % |key|] as int) % 256;
      Scheduled(Swapped(before.s, i, j), j)
  }

  datatype Generator = Generator(s: State, i: byte, j: byte)

  function Advance(g: Generator): Generator {
    var i: byte := (g.i as int + 1) % 256;
    var j: byte := (g.j as int + g.s[i] as int) % 256;
    Generator(Swapped(g.s, i, j), i, j)
  }

  /** Generator state after `n` output bytes. */
  function Generated(key: Key, n: nat): Generator {
    if n == 0 then Generator(Schedule(key, 256).s, 0, 0) else Advance(Generated(key, n - 1))
  }

  function OutputByte(g: Generator): byte {
    g.s[(g.s[g.i] as int + g.s[g.j] as int) % 256]
  }

  /** The `n`th byte of the keystream: it depends on the key and the position only. */
  function KeystreamByte(key: Key, n: nat): byte {
    OutputByte(Generated(key, n + 1))
  }

  function Cipher(data: seq<byte>, key: Key): (r: seq<byte>)
    ensures |r| == |data|
  {
    seq(|data|, n requires 0 <= n < |data| => Xor(data[n], KeystreamByte(key, n)))
  }

  // ---------------------------------------------------------------- the two implementations

  method Swap(a: array<byte>, i: byte, j: byte)
    requires a.Length == 256
    modifies a
    ensures a[..] == Swapped(old(a[..]), i, j)
  {
    var t := a[i];
    a[i] := a[j];
    a[j] := t;
  }

  method IdentityArray() returns (s: array<byte>)
    ensures fresh(s) && s.Length == 256 && s[..] == Identity()
  {
    s := new byte[256](_ => 0);
    for i := 0 to 256
      invariant forall k :: 0 <= k < i ==> s[k] == k
    {
      s[i] := i;
    }
  }

  /** `rc4_cipher`. */
  method Rc4Cipher(data: seq<byte>, key: seq<byte>) returns (r: Result<seq<byte>, CryptoError>)
    ensures r == if key == [] then Err(InvalidKey) else Ok(Cipher(data, key))
  {
    hide Schedule, Generated, Swapped, Xor;
    if key == [] {
      return Err(InvalidKey);
    }
    var s := IdentityArray();
    ScheduleStart(key);
    var j: int := 0;
    for i := 0 to 256
      invariant 0 <= j < 256
      invariant s[..] == Schedule(key, i).s && j == Schedule(key, i).j
    {
      ScheduleStep(key, i);
      j := (j + s[i] as int + key[i % |key|] as int) % 256;
      Swap(s, i, j);
    }
    var result: seq<byte> := [];
    var i: int := 0;
    j := 0;
    GeneratedStart(key);
    for n := 0 to |data|
      invariant 0 <= i < 256 && 0 <= j < 256
      invariant Generator(s[..], i, j) == Generated(key, n)
      invariant |result| == n && result == Cipher(data[..n], key)
    {
      GeneratedStep(key, n);
      i := (i + 1) % 256;
      j := (j + s[i] as int) % 256;
      Swap(s, i, j);
      var k := s[(s[i] as int + s[j] as int) % 256];
      CipherStep(data, key, n);
      result := result + [Xor(data[n], k)];
    }
    assert data[..|data|] == data;
    return Ok(result);
  }

  function WrappingAdd(a: byte, b: byte): byte {
    (a as int + b as int) % 256
  }

  lemma WrappingTwice(a: byte, b: byte, c: byte)
    ensures WrappingAdd(WrappingAdd(a, b), c) == (a as int + b as int + c as int) % 256
  {
  }

  /** `rc4_encrypt`, which `rc4_decrypt` calls; it takes any key, and an empty one makes it divide by zero. */
  method Rc4Encrypt(data: seq<byte>, key: seq<byte>) returns (r: Result<seq<byte>, CryptoError>)
    ensures r == if key == [] then Err(CryptoError.Panic) else Ok(Cipher(data, key))
  {
    hide Schedule, Generated, Swapped, Xor;
    if key == [] {
      return Err(CryptoError.Panic);
    }
    var s := IdentityArray();
    ScheduleStart(key);
    var j: byte := 0;
    for i := 0 to 256
      invariant s[..] == Schedule(key, i).s && j == Schedule(key, i).j
    {
      ScheduleStep(key, i);
      WrappingTwice(j, s[i], key[i % |key|]);
      j := WrappingAdd(WrappingAdd(j, s[i]), key[i % |key|]);
      Swap(s, i, j);
    }
    var result: seq<byte> := [];
    var i: byte := 0;
    j := 0;
    GeneratedStart(key);
    for n := 0 to |data|
      invariant Generator(s[..], i, j) == Generated(key, n)
      invariant |result| == n && result == Cipher(data[..n], key)
    {
      GeneratedStep(key, n);
      i := WrappingAdd(i, 1);
      j := WrappingAdd(j, s[i]);
      Swap(s, i, j);
      var k := s[WrappingAdd(s[i], s[j])];
      CipherStep(data, key, n);
      result := result + [Xor(data[n], k)];
    }
    assert data[..|data|] == data;
    return Ok(result);
  }

  lemma ScheduleStart(key: Key)
    ensures Schedule(key, 0) == Scheduled(Identity(), 0)
  {
  }

  lemma ScheduleStep(key: Key, i: nat)
    requires i < 256
    ensures var before := Schedule(key, i);
      var j: byte := (before.j as int + before.s[i] as int + key[i % |key|] as int) % 256;
      Schedule(key, i + 1) == Scheduled(Swapped(before.s, i, j), j)
  {
  }

  lemma GeneratedStart(key: Key)
    ensures Generated(key, 0) == Generator(Schedule(key, 256).s, 0, 0)
  {
  }

  lemma GeneratedStep(key: Key, n: nat)
    ensures Generated(key, n + 1) == Advance(Generated(key, n))
  {
  }

  lemma CipherStep(data: seq<byte>, key: Key, n: nat)
    requires n < |data|
    ensures Cipher(data[..n + 1], key) == Cipher(data[..n], key) + [Xor(data[n], KeystreamByte(key, n))]
  {
  }

  // ---------------------------------------------------------------- properties

  /** Each bit of the data is flipped where the keystream has a one. */
  lemma CipherBits(data: seq<byte>, key: Key, n: nat, i: nat)
    requires n < |data| && i < 8
    ensures Bit(Cipher(data, key)[n], i) == (Bit(data[n], i) != Bit(KeystreamByte(key, n), i))
  {
    hide Bit, Xor, KeystreamByte;
    XorBit(data[n], KeystreamByte(key, n), i);
  }

  /** Where the byte at place `t` of a state is after places `i` and `j` have been exchanged. */
  function Exchanged(s: State, i: byte, j: byte, t: byte): byte {
    if t == i then s[j] else if t == j then s[i] else s[t]
  }

  /** The bytes of the keystream: before byte `n` the index is `n` modulo 256; the next place and the place that its
      byte moves the second index to are exchanged, and the byte at the place that their sum names comes out. */
  lemma KeystreamStep(key: Key, n: nat)
    ensures var g, next := Generated(key, n), Generated(key, n + 1);
      var i: byte := (n + 1) % 256;
      var j: byte := (g.j as int + g.s[i] as int) % 256;
      && g.i == n % 256 && next.i == i && next.j == j
      && (forall t: byte :: next.s[t] == Exchanged(g.s, i, j, t))
      && KeystreamByte(key, n) == Exchanged(g.s, i, j, (g.s[i] as int + g.s[j] as int) % 256)
  {
    hide Schedule, Generated;
    IndexCounts(key, n);
    GeneratedStep(key, n);
  }

  lemma {:induction false} IndexCounts(key: Key, n: nat)
    ensures Generated(key, n).i == n % 256
  {
    hide Schedule, Swapped, Generated;
    if n == 0 {
      GeneratedStart(key);
    } else {
      IndexCounts(key, n - 1);
      GeneratedStep(key, n - 1);
    }
  }

  /** Where the output starts, and the key schedule step by step: place `n` and the place that its byte and the key
      byte, taken round and round, move the index to are exchanged. */
  lemma ScheduleExactly(key: Key, n: nat)
    requires n < 256
    ensures Schedule(key, 0).j == 0 && forall t: byte :: Schedule(key, 0).s[t] == t
    ensures Generated(key, 0) == Generator(Schedule(key, 256).s, 0, 0)
    ensures var before, next := Schedule(key, n), Schedule(key, n + 1);
      && next.j == (before.j as int + before.s[n] as int + key[n % |key|] as int) % 256
      && forall t: byte :: next.s[t] == Exchanged(before.s, n, next.j, t)
  {
    hide Schedule;
    ScheduleStart(key);
    ScheduleStep(key, n);
    GeneratedStart(key);
  }

  /** Applying the cipher twice with one key is the identity. */
  lemma CipherTwice(data: seq<byte>, key: Key)
    ensures Cipher(Cipher(data, key), key) == data
  {
    hide Xor, KeystreamByte;
    forall n | 0 <= n < |data| ensures Cipher(Cipher(data, key), key)[n] == data[n] {
      XorTwice(data[n], KeystreamByte(key, n));
    }
  }

  ghost predicate IsPermutation(s: State) {
    multiset(s) == multiset(Identity())
  }

  lemma SwapPermutes(s: State, i: byte, j: byte)
    requires IsPermutation(s)
    ensures IsPermutation(Swapped(s, i, j))
  {
    hide Identity;
    assert multiset(s[i := s[j]]) == multiset(s) - multiset{s[i]} + multiset{s[j]};
  }

  lemma {:induction false} SchedulePermutes(key: Key, n: nat)
    requires n <= 256
    ensures IsPermutation(Schedule(key, n).s)
  {
    hide Identity, Swapped;
    if n > 0 {
      SchedulePermutes(key, n - 1);
      ScheduleStep(key, n - 1);
      SwapPermutes(Schedule(key, n - 1).s, n - 1, Schedule(key, n).j);
    }
  }

  /** The state is a permutation of 0..255 through key schedule and output. */
  lemma {:induction false} GeneratedPermutes(key: Key, n: nat)
    ensures IsPermutation(Generated(key, n).s)
  {
    hide Identity, Swapped;
    if n == 0 {
      SchedulePermutes(key, 256);
    } else {
      GeneratedPermutes(key, n - 1);
      var g := Generated(key, n);
      SwapPermutes(Generated(key, n - 1).s, g.i, g.j);
    }
  }

  lemma {:induction false} IdentityCount(n: nat, b: byte)
    requires n <= 256
    ensures multiset(Identity()[..n])[b] == if b < n then 1 else 0
  {
    if n > 0 {
      IdentityCount(n - 1, b);
      assert Identity()[..n] == Identity()[..n - 1] + [n - 1];
    }
  }

  /** A permutation state holds every byte, at one place only. */
  lemma PermutationCovers(s: State, b: byte)
    requires IsPermutation(s)
    ensures b in s
    ensures forall i, j :: 0 <= i < j < 256 && s[i] == b ==> s[j] != b
  {
    hide Identity;
    IdentityCount(256, b);
    assert Identity()[..256] == Identity();
    assert b in multiset(s);
    forall i, j | 0 <= i < j < 256 && s[i] == b ensures s[j] != b {
      assert s == s[..i] + [s[i]] + s[i + 1..j] + [s[j]] + s[j + 1..];
      assert multiset(s) ==
        multiset(s[..i]) + multiset{s[i]} + multiset(s[i + 1..j]) + multiset{s[j]} + multiset(s[j + 1..]);
    }
  }
}
