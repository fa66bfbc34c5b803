/** The CMAC of a message that arrives in pieces equals the one-shot definition (sections 2.3 and 2.4 of
    RFC 4493), for any function from blocks to blocks in place of the cipher. */
module Cmac {
  import opened BinaryField
  import opened ByteBits
  import opened Pieces

  datatype Cipher = Cipher(size: nat, encrypt: seq<Byte> -> seq<Byte>)

  ghost predicate IsCipher(c: Cipher) {
    c.size in {8, 16, 32} && forall x: seq<Byte> :: |x| == c.size ==> |c.encrypt(x)| == c.size
  }

  function Zeros(n: nat): (z: seq<Byte>)
    ensures |z| == n
  {
    seq(n, _ => 0)
  }

  /** b xored onto the beginning of a. */
  function Xor(a: seq<Byte>, b: seq<Byte>): (r: seq<Byte>)
    requires |b| <= |a|
    ensures |r| == |a|
  {
    seq(|a|, i requires 0 <= i < |a| => if i < |b| then a[i] ^ b[i] else a[i])
  }

  /** The chaining value after all complete blocks but the last, and the last block. */
  datatype Chained = Chained(x: seq<Byte>, last: seq<Byte>)

  ghost function Chain(c: Cipher, x: seq<Byte>, m: seq<Byte>): (r: Chained)
    requires IsCipher(c) && |x| == c.size
    ensures |r.x| == c.size && |r.last| <= c.size && (m != [] ==> r.last != [])
    decreases |m|
  {
    if |m| <= c.size then Chained(x, m) else Chain(c, c.encrypt(Xor(x, m[..c.size])), m[c.size..])
  }

  /** The subkeys: the encrypted zero block doubled once, and twice. */
  ghost predicate AreSubkeys(c: Cipher, k1: seq<Byte>, k2: seq<Byte>)
    requires IsCipher(c)
  {
    var p := CodePolynomial(c.size);
    IsDouble(c.encrypt(Zeros(c.size)), k1, p) && IsDouble(k1, k2, p)
  }

  function Padded(size: nat, last: seq<Byte>): (r: seq<Byte>)
    requires |last| < size
    ensures |r| == size
  {
    last + [0x80] + Zeros(size - |last| - 1)
  }

  ghost function LastBlock(size: nat, last: seq<Byte>, k1: seq<Byte>, k2: seq<Byte>): (r: seq<Byte>)
    requires |last| <= size == |k1| == |k2|
    ensures |r| == size
  {
    if |last| == size then Xor(last, k1) else Xor(Padded(size, last), k2)
  }

  /** The MAC of a whole message. */
  ghost function Mac(c: Cipher, m: seq<Byte>, k1: seq<Byte>, k2: seq<Byte>): (t: seq<Byte>)
    requires IsCipher(c) && |k1| == |k2| == c.size
    ensures |t| == c.size
  {
    var ch := Chain(c, Zeros(c.size), m);
    c.encrypt(Xor(LastBlock(c.size, ch.last, k1, k2), ch.x))
  }

  /** More bytes only continue from the chaining value and the block held back. */
  lemma {:induction false} ChainMore(c: Cipher, x: seq<Byte>, m: seq<Byte>, t: seq<Byte>)
    requires IsCipher(c) && |x| == c.size
    ensures var ch := Chain(c, x, m); Chain(c, x, m + t) == Chain(c, ch.x, ch.last + t)
    decreases |m|
  {
    if |m| > c.size {
      assert (m + t)[..c.size] == m[..c.size] && (m + t)[c.size..] == m[c.size..] + t;
      ChainMore(c, c.encrypt(Xor(x, m[..c.size])), m[c.size..], t);
    }
  }

  /** Cipher block chaining: every complete block, and the bytes that are left over. */
  ghost function Blocks(c: Cipher, x: seq<Byte>, m: seq<Byte>): (r: Chained)
    requires IsCipher(c) && |x| == c.size
    ensures |r.x| == c.size && |r.last| < c.size
    decreases |m|
  {
    if |m| < c.size then Chained(x, m) else Blocks(c, c.encrypt(Xor(x, m[..c.size])), m[c.size..])
  }

  /** As long as something still follows, the complete blocks may go through the cipher. */
  lemma {:induction false} BlocksChain(c: Cipher, x: seq<Byte>, m: seq<Byte>, t: seq<Byte>)
    requires IsCipher(c) && |x| == c.size && t != []
    ensures var b := Blocks(c, x, m); Chain(c, x, m + t) == Chain(c, b.x, b.last + t)
    decreases |m|
  {
    if |m| >= c.size {
      assert (m + t)[..c.size] == m[..c.size] && (m + t)[c.size..] == m[c.size..] + t;
      BlocksChain(c, c.encrypt(Xor(x, m[..c.size])), m[c.size..], t);
    }
  }

  lemma ModSmall(n: nat, size: nat)
    requires n < size
    ensures n % size == n
  {
  }

  lemma ModStep(n: nat, size: nat)
    requires size in {8, 16, 32} && n >= size
    ensures (n - size) % size == n % size
  {
    if size == 8 {
    } else if size == 16 {
    } else {
      assert (n - 32) % 32 == n % 32;
    }
  }

  /** The block held back: never empty once there is a message, and its length. */
  lemma {:induction false} HeldBack(c: Cipher, x: seq<Byte>, m: seq<Byte>)
    requires IsCipher(c) && |x| == c.size && m != []
    ensures var last := Chain(c, x, m).last;
      |last| == (|m| - 1) % c.size + 1 && last == m[|m| - |last|..]
    decreases |m|
  {
    if |m| <= c.size {
      ModSmall(|m| - 1, c.size);
    } else {
      var y, t := c.encrypt(Xor(x, m[..c.size])), m[c.size..];
      assert Chain(c, x, m) == Chain(c, y, t);
      hide Chain;
      HeldBack(c, y, t);
      ModStep(|m| - 1, c.size);
    }
  }

  /** xoring t behind the part that was already xored onto x, whatever follows the block. */
  lemma XorOnto(a: seq<Byte>, x: seq<Byte>, part: seq<Byte>, t: seq<Byte>)
    requires |part| + |t| <= |x| <= |a| && a[..|x|] == Xor(x, part)
    ensures var r := a[..|part|] + Xor(a[|part|..], t); r[..|x|] == Xor(x, part + t) && r[|x|..] == a[|x|..]
  {
    var r := a[..|part|] + Xor(a[|part|..], t);
    forall i | 0 <= i < |x|
      ensures r[i] == Xor(x, part + t)[i]
    {
      assert a[i] == a[..|x|][i];
    }
    assert r[..|x|] == Xor(x, part + t);
  }

  lemma XorCommutes(x: seq<Byte>, a: seq<Byte>, k: seq<Byte>)
    requires |x| == |a| == |k|
    ensures Xor(Xor(x, a), k) == Xor(Xor(a, k), x)
  {
    forall i | 0 <= i < |x|
      ensures Xor(Xor(x, a), k)[i] == Xor(Xor(a, k), x)[i]
    {
      assert (x[i] ^ a[i]) ^ k[i] == (a[i] ^ k[i]) ^ x[i];
    }
  }

  lemma XorPadded(x: seq<Byte>, last: seq<Byte>)
    requires |last| < |x|
    ensures Xor(x, Padded(|x|, last)) == Xor(x, last)[|last| := Xor(x, last)[|last|] ^ 0x80]
  {
  }

  /** xors t onto the array from position `at`. */
  method XorBuf(a: array<Byte>, at: nat, t: seq<Byte>)
    requires at + |t| <= a.Length
    modifies a
    ensures a[..] == old(a[..at]) + Xor(old(a[at..]), t)
  {
    forall i | 0 <= i < |t| {
      a[at + i] := a[at + i] ^ t[i];
    }
  }

  /** Replaces the first block of the array by what the cipher makes of it. */
  method ProcessBlock(c: Cipher, a: array<Byte>, ghost size: nat)
    requires IsCipher(c) && size == c.size <= a.Length
    modifies a
    ensures a[..] == c.encrypt(old(a[..size])) + old(a[size..])
  {
    var out := c.encrypt(a[..c.size]);
    forall i | 0 <= i < c.size {
      a[i] := out[i];
    }
  }

  /** `AdvancedProcessBlocks` as CMAC uses it: one register that takes in block after block. */
  method AdvancedProcessBlocks(c: Cipher, reg: array<Byte>, xorBlocks: seq<Byte>) returns (left: nat)
    requires IsCipher(c) && c.size <= reg.Length
    modifies reg
    ensures left <= |xorBlocks|
    ensures Chained(reg[..c.size], xorBlocks[|xorBlocks| - left..]) == Blocks(c, old(reg[..c.size]), xorBlocks)
    ensures reg[c.size..] == old(reg[c.size..])
  {
    left := |xorBlocks|;
    while left >= c.size
      invariant left <= |xorBlocks|
      invariant Blocks(c, reg[..c.size], xorBlocks[|xorBlocks| - left..]) == Blocks(c, old(reg[..c.size]), xorBlocks)
      invariant reg[c.size..] == old(reg[c.size..])
    {
      EncryptXored(c, reg, xorBlocks[|xorBlocks| - left..][..c.size]);
      assert xorBlocks[|xorBlocks| - left..][c.size..] == xorBlocks[|xorBlocks| - left + c.size..];
      left := left - c.size;
    }
  }

  /** One turn of that loop. */
  method EncryptXored(c: Cipher, reg: array<Byte>, block: seq<Byte>)
    requires IsCipher(c) && c.size == |block| <= reg.Length
    modifies reg
    ensures reg[..c.size] == c.encrypt(Xor(old(reg[..c.size]), block)) && reg[c.size..] == old(reg[c.size..])
  {
    ghost var x := reg[..c.size];
    XorNothing(x);
    XorOnto(reg[..], x, [], block);
    assert [] + block == block;
    XorBuf(reg, 0, block);
    ProcessBlock(c, reg, c.size);
  }

  /** The two subkeys, made behind the first block of the array. */
  method DeriveSubkeys(c: Cipher, reg: array<Byte>)
    requires IsCipher(c) && reg.Length == 3 * c.size && reg[..c.size] == Zeros(c.size)
    modifies reg
    ensures reg[..c.size] == old(reg[..c.size]) && AreSubkeys(c, reg[c.size..2 * c.size], reg[2 * c.size..])
  {
    hide IsDouble, Zeros;
    var n := c.size;
    ghost var z := reg[..n];
    var k := c.encrypt(reg[..n]);
    Copy(reg, n, k);
    assert reg[n..2 * n] == k && reg[..n] == z;
    var ok := MulU(reg, n, n);
    ghost var k1 := reg[n..2 * n];
    assert IsDouble(k, k1, CodePolynomial(n));
    Copy(reg, 2 * n, reg[n..2 * n]);
    ghost var before := reg[..];
    assert before[..n] == z;
    assert reg[2 * n..3 * n] == k1 && before[n..2 * n] == k1;
    ok := MulU(reg, 2 * n, n);
    KeysInPlace(before, reg[..], n, k1, reg[2 * n..3 * n]);
    assert reg[..n] == before[..2 * n][..n] == z;
  }

  datatype Result = Tag(mac: seq<Byte>) | InvalidSize

  class CmacBase {
    const cipher: Cipher
    const reg: array<Byte>
    var counter: nat
    // The message since the last reset
    ghost var message: seq<Byte>

    ghost predicate Keyed()
      reads reg
    {
      && IsCipher(cipher) && reg.Length == 3 * cipher.size
      && AreSubkeys(cipher, K1(), K2())
    }

    ghost function K1(): seq<Byte>
      reads reg
      requires reg.Length == 3 * cipher.size
    {
      reg[cipher.size..2 * cipher.size]
    }

    ghost function K2(): seq<Byte>
      reads reg
      requires reg.Length == 3 * cipher.size
    {
      reg[2 * cipher.size..]
    }

    /** The register holds the chaining value with the last block xored onto it. */
    ghost predicate Valid()
      reads this, reg
    {
      && Keyed()
      && Holds(Chain(cipher, Zeros(cipher.size), message))
    }

    ghost predicate Holds(ch: Chained)
      reads this, reg
    {
      && reg.Length == 3 * cipher.size && |ch.x| == cipher.size
      && counter == |ch.last| <= cipher.size && reg[..cipher.size] == Xor(ch.x, ch.last)
    }

    /** `UncheckedSetKey`: derives the subkeys into the register array. */
    constructor (cipher: Cipher)
      requires IsCipher(cipher)
      ensures Valid() && message == [] && this.cipher == cipher && fresh(reg)
    {
      this.cipher, counter, message := cipher, 0, [];
      reg := new Byte[3 * cipher.size](_ => 0);
      new;
      hide IsDouble;
      ghost var z := Zeros(cipher.size);
      assert reg[..cipher.size] == z;
      DeriveSubkeys(cipher, reg);
      XorNothing(z);
    }

    /** Xors the bytes behind what was held back of the last block. */
    method XorIn(t: seq<Byte>, ghost ch: Chained) returns (ghost next: Chained)
      requires Holds(ch) && |ch.last| + |t| <= cipher.size
      modifies this`counter, reg
      ensures next == Chained(ch.x, ch.last + t) && Holds(next) && reg[cipher.size..] == old(reg[cipher.size..])
    {
      next := Chained(ch.x, ch.last + t);
      XorOnto(reg[..], ch.x, ch.last, t);
      XorBuf(reg, counter, t);
      counter := counter + |t|;
    }

    /** The first part of `Update`: fills up the last block, and encrypts it if more bytes follow. */
    method FillBlock(input: seq<Byte>, ghost ch: Chained) returns (rest: seq<Byte>, ghost next: Chained)
      requires IsCipher(cipher) && Holds(ch) && counter > 0
      modifies this`counter, reg
      ensures Holds(next) && reg[cipher.size..] == old(reg[cipher.size..]) && |rest| <= |input|
      ensures rest == [] || counter == 0
      ensures Chain(cipher, ch.x, ch.last + input) == Chain(cipher, next.x, next.last + rest)
    {
      var len := if cipher.size - counter <= |input| then cipher.size - counter else |input|;
      assert ch.last + input == ch.last + input[..len] + input[len..];
      next := XorIn(input[..len], ch);
      rest := input[len..];
      if counter == cipher.size && |rest| > 0 {
        ghost var whole := next.last + rest;
        assert whole[..cipher.size] == next.last && whole[cipher.size..] == rest;
        XorNothing(cipher.encrypt(Xor(next.x, next.last)));
        ProcessBlock(cipher, reg, cipher.size);
        counter := 0;
        next := Chained(cipher.encrypt(Xor(next.x, next.last)), []);
        assert next.last + rest == rest;
      }
    }

    /** The second part of `Update`: all complete blocks but the last byte's. */
    method ProcessComplete(input: seq<Byte>, ghost ch: Chained) returns (rest: seq<Byte>, ghost next: Chained)
      requires IsCipher(cipher) && Holds(ch) && counter == 0 && input != []
      modifies this`counter, reg
      ensures Holds(next) && counter == 0 && reg[cipher.size..] == old(reg[cipher.size..])
      ensures 0 < |rest| <= cipher.size
      ensures Chain(cipher, ch.x, ch.last + input) == Chain(cipher, next.x, next.last + rest)
    {
      ghost var most, end := input[..|input| - 1], input[|input| - 1..];
      XorNothing(ch.x);
      BlocksChain(cipher, ch.x, most, end);
      var leftOver := AdvancedProcessBlocks(cipher, reg, input[..|input| - 1]);
      leftOver := 1 + leftOver;
      rest := input[|input| - leftOver..];
      next := Chained(reg[..cipher.size], []);
      XorNothing(next.x);
      assert ch.last + input == most + end;
      assert next.last + rest == most[|input| - leftOver..] + end;
    }

    /** Hashes more bytes. However the message was cut into calls, only the whole message matters. */
    method Update(input: seq<Byte>)
      requires Valid()
      modifies this, reg
      ensures Valid() && message == old(message) + input && reg[cipher.size..] == old(reg[cipher.size..])
    {
      if |input| == 0 {
        assert message + input == message;
        return;
      }
      hide Chain, Zeros, Xor, AreSubkeys;
      ghost var ch := Chain(cipher, Zeros(cipher.size), message);
      ChainMore(cipher, Zeros(cipher.size), message, input);
      message := message + input;
      var rest := input;
      if counter > 0 {
        rest, ch := FillBlock(rest, ch);
      }
      if |rest| > cipher.size {
        rest, ch := ProcessComplete(rest, ch);
      }
      if |rest| > 0 {
        ch := XorIn(rest, ch);
      } else {
        assert ch.last + rest == ch.last;
      }
      ChainShort(cipher, ch.x, ch.last);
      SameKeys(cipher.size, old(reg[..]), reg[..]);
    }

    /** The MAC of the message so far, cut to the size asked for; then a new message begins. */
    method TruncatedFinal(size: nat) returns (mac: Result)
      requires Valid()
      modifies this, reg
      ensures Valid() && reg[cipher.size..] == old(reg[cipher.size..])
      ensures if size > cipher.size then mac == InvalidSize && message == old(message)
              else message == [] && mac == Tag(old(Mac(cipher, message, K1(), K2()))[..size])
    {
      if size > cipher.size {
        return InvalidSize;
      }
      FinishBlock();
      mac := Tag(reg[..size]);
      assert reg[..size] == reg[..cipher.size][..size];
      counter := 0;
      message := [];
      Copy(reg, 0, Zeros(cipher.size));
      XorNothing(Zeros(cipher.size));
      SameKeys(cipher.size, old(reg[..]), reg[..]);
    }

    /** Turns the register into the MAC: a complete last block takes the first subkey, a padded one the second. */
    method FinishBlock()
      requires Valid()
      modifies reg
      ensures reg[..cipher.size] == old(Mac(cipher, message, K1(), K2())) && reg[cipher.size..] == old(reg[cipher.size..])
    {
      hide Chain, Zeros, Xor, AreSubkeys, Padded;
      ghost var ch := Chain(cipher, Zeros(cipher.size), message);
      var n := cipher.size;
      ghost var tail := reg[n..];
      ghost var k1, k2 := K1(), K2();
      XorCommutes(ch.x, if |ch.last| == n then ch.last else Padded(n, ch.last), if |ch.last| == n then k1 else k2);
      if counter < n {
        XorPadded(ch.x, ch.last);
        reg[counter] := reg[counter] ^ 0x80;
        assert reg[..n] == Xor(ch.x, Padded(n, ch.last));
        assert reg[n..] == tail && reg[2 * n..3 * n] == k2;
        var left := AdvancedProcessBlocks(cipher, reg, reg[2 * n..3 * n]);
        OneBlock(cipher, Xor(ch.x, Padded(n, ch.last)), k2);
      } else {
        var left := AdvancedProcessBlocks(cipher, reg, reg[n..2 * n]);
        OneBlock(cipher, Xor(ch.x, ch.last), k1);
      }
    }
  }

  lemma OneBlock(c: Cipher, x: seq<Byte>, block: seq<Byte>)
    requires IsCipher(c) && |x| == |block| == c.size
    ensures Blocks(c, x, block) == Chained(c.encrypt(Xor(x, block)), [])
  {
    assert block[..c.size] == block && block[c.size..] == [];
  }

  lemma ChainShort(c: Cipher, x: seq<Byte>, m: seq<Byte>)
    requires IsCipher(c) && |x| == c.size && |m| <= c.size
    ensures Chain(c, x, m) == Chained(x, m)
  {
  }

  lemma SameKeys(n: nat, a: seq<Byte>, b: seq<Byte>)
    requires |a| == |b| == 3 * n && a[n..] == b[n..]
    ensures a[n..2 * n] == b[n..2 * n] && a[2 * n..] == b[2 * n..]
  {
    assert a[n..2 * n] == a[n..][..n] && a[2 * n..] == a[n..][n..];
  }

  method Copy(a: array<Byte>, at: nat, t: seq<Byte>)
    requires at + |t| <= a.Length
    modifies a
    ensures a[..] == old(a[..at]) + t + old(a[at + |t|..])
  {
    forall i | 0 <= i < |t| {
      a[at + i] := t[i];
    }
  }

  lemma XorNothing(x: seq<Byte>)
    ensures Xor(x, []) == x
  {
  }

  /** The array once the subkeys were put behind a first block. */
  lemma KeysInPlace(a: seq<Byte>, b: seq<Byte>, n: nat, k1: seq<Byte>, k2: seq<Byte>)
    requires |a| == |b| == 3 * n && a[n..2 * n] == k1 && b[..2 * n] == a[..2 * n] && b[2 * n..3 * n] == k2
    ensures b[n..2 * n] == k1 && b[2 * n..] == k2
  {
    assert b[..2 * n][n..] == a[..2 * n][n..];
  }

  /** For every message and every way to cut it into pieces, the result is the MAC of the message. */
  method MacOfPieces(c: Cipher, pieces: seq<seq<Byte>>) returns (mac: seq<Byte>)
    requires IsCipher(c)
    ensures forall k1, k2 :: AreSubkeys(c, k1, k2) ==> |k1| == |k2| == c.size && mac == Mac(c, Joined(pieces), k1, k2)
  {
    hide Mac, CmacBase.Holds, IsDouble;
    var hash := new CmacBase(c);
    JoinAll(pieces);
    for i := 0 to |pieces|
      invariant fresh(hash) && fresh(hash.reg) && hash.cipher == c && hash.Valid() && hash.message == Joined(pieces[..i])
    {
      JoinNext(pieces, i);
      hash.Update(pieces[i]);
    }
    ghost var l1, l2 := hash.K1(), hash.K2();
    var r := hash.TruncatedFinal(c.size);
    mac := r.mac;
    assert mac == Mac(c, Joined(pieces), l1, l2);
    forall k1, k2 | AreSubkeys(c, k1, k2)
      ensures |k1| == |k2| == c.size && mac == Mac(c, Joined(pieces), k1, k2)
    {
      SubkeysUnique(c, k1, k2, l1, l2);
    }
  }

  lemma SubkeysUnique(c: Cipher, k1: seq<Byte>, k2: seq<Byte>, l1: seq<Byte>, l2: seq<Byte>)
    requires IsCipher(c) && AreSubkeys(c, k1, k2) && AreSubkeys(c, l1, l2)
    ensures k1 == l1 && k2 == l2 && |k1| == |k2| == c.size
  {
    DoubleUnique(c.encrypt(Zeros(c.size)), k1, l1, CodePolynomial(c.size));
    DoubleUnique(k1, k2, l2, CodePolynomial(c.size));
  }
}
