/** Reading the text of an address: `inet_net_pton_ipv6`, with `getv4` and `getbits`. */
module Ipv6Parse {
  import opened Common

  function DecimalDigit(c: char): Option<nat> {
    if '0' <= c <= '9' then Some((c - '0') as nat) else None
  }

  function HexDigit(c: char): Option<nat> {
    if '0' <= c <= '9' then Some((c - '0') as nat)
    else if 'a' <= c <= 'f' then Some(10 + (c - 'a') as nat)
    else if 'A' <= c <= 'F' then Some(10 + (c - 'A') as nat)
    else None
  }

  /** `getbits` from position i, with n digits read: at most 128, no leading zeros. */
  function BitsFrom(src: string, i: nat, n: nat, val: nat): (r: Option<nat>)
    requires i <= |src| && val <= 128
    ensures r.Some? ==> r.value <= 128
    decreases |src| - i
  {
    if i == |src| then (if n == 0 then None else Some(val))
    else match DecimalDigit(src[i])
      case None => None
      case Some(d) =>
        if (n != 0 && val == 0) || val * 10 + d > 128 then None else BitsFrom(src, i + 1, n + 1, val * 10 + d)
  }

  datatype V4 = BadV4 | V4(octets: seq<Byte>, bits: int)

  /** `getv4` from position i, with some octets stored and n digits of the next one read. */
  function V4From(src: string, i: nat, octets: seq<Byte>, n: nat, val: Byte): (r: V4)
    requires i <= |src| && |octets| <= 4
    ensures r.V4? ==> 1 <= |r.octets| <= 4 && -1 <= r.bits <= 128 && octets <= r.octets
    decreases |src| - i
  {
    if i == |src| then (if n == 0 || |octets| > 3 then BadV4 else V4(octets + [val], -1))
    else match DecimalDigit(src[i])
      case Some(d) =>
        if (n != 0 && val == 0) || val * 10 + d > 255 then BadV4 else V4From(src, i + 1, octets, n + 1, val * 10 + d)
      case None =>
        if src[i] != '.' && src[i] != '/' then BadV4
        else if |octets| > 3 then BadV4
        else if src[i] == '/' then
          match BitsFrom(src, i + 1, 0, 0)
          case None => BadV4
          case Some(bits) => V4(octets + [val], bits)
        else V4From(src, i + 1, octets + [val], 0, 0)
  }

  /** Where the scan of an address stands: the bytes stored so far and the word that is being read.
      colon is where the double colon was, -1 if there was none. */
  datatype State = State(tmp: seq<Byte>, tp: nat, colon: int, curtok: nat, sawDigit: bool, val: nat, digits: nat)

  predicate Fine(src: string, st: State) {
    |st.tmp| == 16 && st.tp <= 16 && -1 <= st.colon <= st.tp && st.curtok <= |src|
    && st.digits <= 4 && st.val < [1, 16, 256, 4096, 65536][st.digits]
  }

  datatype Scanned = NotAnAddress | TooLong | Scanned(st: State, bits: int, ipv4: bool)

  /** s with t stored at position `at`. */
  function Stored(s: seq<Byte>, at: nat, t: seq<Byte>): (r: seq<Byte>)
    requires at + |t| <= |s|
    ensures |r| == |s|
  {
    s[..at] + t + s[at + |t|..]
  }

  function TwoBytes(val: nat): (r: seq<Byte>)
    requires val < 65536
  {
    [val / 256, val % 256]
  }

  function AddDigit(st: State, d: nat): State {
    st.(val := st.val * 16 + d, digits := st.digits + 1, sawDigit := true)
  }

  function StoreWord(st: State): State
    requires |st.tmp| == 16 && st.tp + 2 <= 16 && st.val < 65536
  {
    st.(tmp := Stored(st.tmp, st.tp, TwoBytes(st.val)), tp := st.tp + 2, sawDigit := false, digits := 0, val := 0)
  }

  /** The main loop, from position i. */
  function Scan(src: string, i: nat, st: State): (r: Scanned)
    requires i <= |src| && Fine(src, st)
    ensures r.Scanned? ==> Fine(src, r.st) && -1 <= r.bits <= 128
    decreases |src| - i
  {
    if i == |src| then Scanned(st, -1, false)
    else match HexDigit(src[i])
      case Some(d) =>
        if st.digits + 1 > 4 then NotAnAddress else Scan(src, i + 1, AddDigit(st, d))
      case None =>
        if src[i] == ':' then
          if !st.sawDigit then
            if st.colon != -1 then NotAnAddress else Scan(src, i + 1, st.(curtok := i + 1, colon := st.tp))
          else if i + 1 == |src| then NotAnAddress
          else if st.tp + 2 > 16 then TooLong
          else Scan(src, i + 1, StoreWord(st).(curtok := i + 1))
        else if src[i] == '.' && st.tp + 4 <= 16 && V4From(src, st.curtok, [], 0, 0).V4? then
          var v4 := V4From(src, st.curtok, [], 0, 0);
          Scanned(st.(tmp := Stored(st.tmp, st.tp, v4.octets), tp := st.tp + 4, sawDigit := false), v4.bits, true)
        else if src[i] == '/' && BitsFrom(src, i + 1, 0, 0).Some? then Scanned(st, BitsFrom(src, i + 1, 0, 0).value, false)
        else NotAnAddress
  }

  /** The state at the start: a leading colon must be followed by another one, and is skipped. */
  function Start(src: string): (i: nat)
    ensures i <= |src|
  {
    if |src| > 0 && src[0] == ':' then 1 else 0
  }

  predicate BadStart(src: string) {
    |src| > 0 && src[0] == ':' && (|src| == 1 || src[1] != ':')
  }

  function Initial(src: string): (st: State)
    ensures Fine(src, st)
  {
    State(seq(16, _ => 0), 0, -1, Start(src), false, 0, 0)
  }

  /** What the function returns: -1 with ENOENT or EMSGSIZE, 0, or the number of bits and the bytes for
      them. Undefined stands for the failure of the shift: when a prefix length leaves room for fewer words
      than follow the double colon, its last turns write in front of its buffer
      (`Ipv6Prefix.UndefinedExactly` says for which texts). */
  datatype Result = Enoent | Emsgsize | Zero | Address(bits: nat, bytes: seq<Byte>) | Undefined

  /** The shift that makes room for the zeros of the double colon, from its i-th turn on. */
  function Shifted(tmp: seq<Byte>, colon: nat, n: nat, end: nat, i: nat): (r: seq<Byte>)
    requires |tmp| == 16 && colon + n <= 16 && n <= end <= 16 && 1 <= i <= n + 1
    ensures |r| == 16
    decreases n + 1 - i
  {
    if i > n then tmp
    else Shifted(tmp[end - i := tmp[colon + n - i]][colon + n - i := 0], colon, n, end, i + 1)
  }

  lemma ShiftTurn(tmp: seq<Byte>, colon: nat, n: nat, end: nat, i: nat)
    requires |tmp| == 16 && colon + n <= 16 && n <= end <= 16 && 1 <= i <= n + 1
    ensures Shifted(tmp, colon, n, end, i)
      == if i > n then tmp else Shifted(tmp[end - i := tmp[colon + n - i]][colon + n - i := 0], colon, n, end, i + 1)
  {
  }

  function WordCount(bits: nat, ipv4: bool): nat {
    if ipv4 then 8 else if (bits + 15) / 16 < 2 then 2 else (bits + 15) / 16
  }

  /** Everything after the main loop. */
  function Finish(src: string, scanned: Scanned, size: nat): Result
    requires scanned.Scanned? ==> Fine(src, scanned.st) && -1 <= scanned.bits <= 128
  {
    match scanned
    case NotAnAddress => Enoent
    case TooLong => Zero
    case Scanned(st, bits, ipv4) =>
      if st.sawDigit && st.tp + 2 > 16 then Enoent
      else Placed(src, if st.sawDigit then StoreWord(st) else st, if bits == -1 then 128 else bits, ipv4, size)
  }

  /** The bytes in their places, with zeros for the double colon. */
  function Placed(src: string, st: State, bits: nat, ipv4: bool, size: nat): Result
    requires Fine(src, st) && bits <= 128
  {
    var end := 2 * WordCount(bits, ipv4);
    if st.colon != -1 && st.tp == end then Enoent
    else if st.colon != -1 && st.tp - st.colon > end then Undefined
    else if st.colon == -1 && st.tp != end then Enoent
    else
      var tmp := if st.colon != -1 then Shifted(st.tmp, st.colon, st.tp - st.colon, end, 1) else st.tmp;
      var bytes := (bits + 7) / 8;
      if bytes > size then Emsgsize else Address(bits, tmp[..bytes])
  }

  /** `inet_net_pton_ipv6` as a function of the text. */
  function Parsed(src: string, size: nat): Result {
    if BadStart(src) then Enoent else Finish(src, Scan(src, Start(src), Initial(src)), size)
  }

  // ----- the loops

  method GetBits(src: string, start: nat) returns (r: Option<nat>)
    requires start <= |src|
    ensures r == BitsFrom(src, start, 0, 0)
  {
    var i, n: nat, val := start, 0, 0;
    while i < |src|
      invariant start <= i <= |src| && 0 <= val <= 128 && BitsFrom(src, i, n, val) == BitsFrom(src, start, 0, 0)
    {
      var d := DecimalDigit(src[i]);
      if d.None? {
        return None;
      }
      if n != 0 && val == 0 {
        return None;
      }
      n := n + 1;
      val := val * 10 + d.value;
      if val > 128 {
        return None;
      }
      i := i + 1;
    }
    if n == 0 {
      return None;
    }
    return Some(val);
  }

  /** `getv4`: on success the octets that were read are stored from `at` on, possibly fewer than four. */
  method GetV4(src: string, start: nat, dst: array<Byte>, at: nat) returns (ok: bool, bits: int)
    requires start <= |src| && at + 4 <= dst.Length
    modifies dst
    ensures ok <==> V4From(src, start, [], 0, 0).V4?
    ensures ok ==> bits == V4From(src, start, [], 0, 0).bits
    ensures ok ==> dst[..] == Stored(old(dst[..]), at, V4From(src, start, [], 0, 0).octets)
  {
    ghost var was := dst[..];
    ghost var octets: seq<Byte> := [];
    var i, n: nat, val := start, 0, 0;
    ok, bits := false, -1;
    var count := 0;
    assert Stored(was, at, []) == was;
    while i < |src|
      invariant start <= i <= |src| && 0 <= val < 256 && count == |octets| <= 4
      invariant V4From(src, i, octets, n, val) == V4From(src, start, [], 0, 0)
      invariant dst[..] == Stored(was, at, octets)
    {
      var d := DecimalDigit(src[i]);
      if d.Some? {
        if n != 0 && val == 0 {
          return;
        }
        n := n + 1;
        val := val * 10 + d.value;
        if val > 255 {
          return;
        }
      } else if src[i] == '.' || src[i] == '/' {
        if count > 3 {
          return;
        }
        dst[at + count] := val;
        StoreNext(was, at, octets, val);
        octets := octets + [val];
        count := count + 1;
        if src[i] == '/' {
          var b := GetBits(src, i + 1);
          if b.Some? {
            ok, bits := true, b.value;
          }
          return;
        }
        val, n := 0, 0;
      } else {
        return;
      }
      i := i + 1;
    }
    if n == 0 || count > 3 {
      return;
    }
    dst[at + count] := val;
    StoreNext(was, at, octets, val);
    ok := true;
  }

  lemma StoreNext(s: seq<Byte>, at: nat, octets: seq<Byte>, val: Byte)
    requires at + |octets| < |s|
    ensures Stored(s, at, octets + [val]) == Stored(s, at, octets)[at + |octets| := val]
  {
  }

  /** The variables of the scan besides the bytes. */
  class Scanner {
    const src: string
    const tmp: array<Byte>
    var tp: nat
    var colonp: int
    var curtok: nat
    var sawDigit: bool
    var val: nat
    var digits: nat

    ghost function Now(): State
      reads this, tmp
    {
      State(tmp[..], tp, colonp, curtok, sawDigit, val, digits)
    }

    ghost predicate Valid()
      reads this, tmp
    {
      Fine(src, Now())
    }

    constructor (src: string)
      ensures this.src == src && Valid() && Now() == Initial(src) && fresh(tmp)
    {
      this.src := src;
      tmp := new Byte[16](_ => 0);
      tp, colonp, curtok, sawDigit, val, digits := 0, -1, Start(src), false, 0, 0;
      new;
      assert tmp[..] == Initial(src).tmp;
    }

    /** Stores the word that was read. */
    method Store()
      requires Valid() && tp + 2 <= 16
      modifies this, tmp
      ensures Valid() && Now() == StoreWord(old(Now()))
    {
      ghost var before := Now();
      tmp[tp] := val / 256;
      tmp[tp + 1] := val % 256;
      assert tmp[..] == Stored(before.tmp, before.tp, TwoBytes(before.val));
      tp := tp + 2;
      sawDigit, digits, val := false, 0, 0;
    }

    /** A colon at position i. */
    method Colon(i: nat) returns (failed: Option<Scanned>)
      requires Valid() && i < |src| && src[i] == ':'
      modifies this, tmp
      ensures failed.None? ==> Valid() && Scan(src, i, old(Now())) == Scan(src, i + 1, Now())
      ensures failed.Some? ==> failed.value == Scan(src, i, old(Now())) && !failed.value.Scanned?
    {
      curtok := i + 1;
      if !sawDigit {
        if colonp != -1 {
          return Some(NotAnAddress);
        }
        colonp := tp;
        return None;
      }
      if i + 1 == |src| {
        return Some(NotAnAddress);
      }
      if tp + 2 > 16 {
        return Some(TooLong);
      }
      Store();
      return None;
    }

    /** The main loop. */
    method ScanAll() returns (failed: Option<Scanned>, bits: int, ipv4: bool)
      requires Valid() && Now() == Initial(src)
      modifies this, tmp
      ensures failed.Some? ==> failed.value == Scan(src, Start(src), Initial(src)) && !failed.value.Scanned?
      ensures failed.None? ==> Valid() && Scan(src, Start(src), Initial(src)) == Scanned(Now(), bits, ipv4)
    {
      var i := Start(src);
      failed, bits, ipv4 := None, -1, false;
      while i < |src|
        invariant failed.None? && bits == -1 && !ipv4
        invariant i <= |src| && Valid() && Scan(src, i, Now()) == Scan(src, Start(src), Initial(src))
      {
        var d := HexDigit(src[i]);
        if d.Some? {
          val := val * 16 + d.value;
          digits := digits + 1;
          if digits > 4 {
            return Some(NotAnAddress), bits, ipv4;
          }
          sawDigit := true;
        } else if src[i] == ':' {
          failed := Colon(i);
          if failed.Some? {
            return;
          }
        } else {
          failed, bits, ipv4 := Other(i);
          return;
        }
        i := i + 1;
      }
    }

    /** Any other character ends the scan. */
    method Other(i: nat) returns (failed: Option<Scanned>, bits: int, ipv4: bool)
      requires Valid() && i < |src| && src[i] != ':' && HexDigit(src[i]).None?
      modifies this, tmp
      ensures failed.Some? ==> failed.value == Scan(src, i, old(Now())) && !failed.value.Scanned?
      ensures failed.None? ==> Valid() && Scan(src, i, old(Now())) == Scanned(Now(), bits, ipv4)
    {
      bits, ipv4 := -1, false;
      if src[i] == '.' && tp + 4 <= 16 {
        var ok, b := GetV4(src, curtok, tmp, tp);
        if ok {
          tp := tp + 4;
          sawDigit := false;
          return None, b, true;
        }
      }
      if src[i] == '/' {
        var b := GetBits(src, i + 1);
        if b.Some? {
          return None, b.value, false;
        }
      }
      return Some(NotAnAddress), -1, false;
    }

    /** The loop that moves what follows the double colon to the end. */
    method Shift(end: nat)
      requires Valid() && 0 <= colonp && tp - colonp <= end <= 16
      modifies tmp
      ensures tmp[..] == Shifted(old(tmp[..]), colonp, tp - colonp, end, 1)
    {
      hide Shifted;
      var n := tp - colonp;
      var i := 1;
      while i <= n
        invariant 1 <= i <= n + 1
        invariant Shifted(tmp[..], colonp, n, end, i) == Shifted(old(tmp[..]), colonp, n, end, 1)
      {
        ghost var before := tmp[..];
        ShiftTurn(before, colonp, n, end, i);
        tmp[end - i] := tmp[colonp + n - i];
        tmp[colonp + n - i] := 0;
        assert tmp[..] == before[end - i := before[colonp + n - i]][colonp + n - i := 0];
        i := i + 1;
      }
      ShiftTurn(tmp[..], colonp, n, end, i);
    }

    /** The rest of the function after the main loop. */
    method Complete(bitsIn: int, ipv4: bool, size: nat) returns (r: Result)
      requires Valid() && -1 <= bitsIn <= 128
      modifies this, tmp
      ensures r == Finish(src, old(Scanned(Now(), bitsIn, ipv4)), size)
    {
      hide Placed;
      if sawDigit {
        if tp + 2 > 16 {
          return Enoent;
        }
        Store();
      }
      var bits := bitsIn;
      if bits == -1 {
        bits := 128;
      }
      r := Place(bits, ipv4, size);
    }

    /** The size of the result, and the shift of what follows the double colon. */
    method Place(bits: nat, ipv4: bool, size: nat) returns (r: Result)
      requires Valid() && bits <= 128
      modifies this`tp, tmp
      ensures r == Placed(src, old(Now()), bits, ipv4, size)
    {
      hide Shifted;
      var words := (bits + 15) / 16;
      if words < 2 {
        words := 2;
      }
      if ipv4 {
        words := 8;
      }
      var end := 2 * words;
      if colonp != -1 {
        if tp == end {
          return Enoent;
        }
        if tp - colonp > end {
          return Undefined;
        }
        Shift(end);
        tp := end;
      }
      if tp != end {
        return Enoent;
      }
      var bytes := (bits + 7) / 8;
      if bytes > size {
        return Emsgsize;
      }
      return Address(bits, tmp[..bytes]);
    }
  }

  /** `inet_net_pton_ipv6`. */
  method InetNetPtonIpv6(src: string, size: nat) returns (r: Result)
    ensures r == Parsed(src, size)
  {
    if |src| > 0 && src[0] == ':' {
      if |src| == 1 || src[1] != ':' {
        return Enoent;
      }
    }
    var scanner := new Scanner(src);
    var failed, bits, ipv4 := scanner.ScanAll();
    if failed.Some? {
      r := if failed.value == TooLong then Zero else Enoent;
      return;
    }
    r := scanner.Complete(bits, ipv4, size);
  }
}
