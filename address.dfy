/**
 * `clean_ip`: normalising a raw feed token into a canonical IPv4 address
 * ("a.b.c.d") or a canonical IPv4 network in prefix notation ("a.b.c.d/p",
 * host bits cleared), or rejecting it.
 *
 * The network branch hands the token to `ipaddress.ip_network(t,
 * strict=False)`; the host branch first rewrites the token (digit segments
 * only, leading zeros dropped) and then hands it to `ipaddress.ip_address`.
 * Both library parsers are modelled here for IPv4 in prefix notation:
 * `ParseOctet`, `ParseIPv4`, `ParsePrefix` and the masking `BitAnd(v,
 * Netmask(p))`.
 */
module Address {
  import opened Wrappers
  import opened Text
  import opened Decimal

  /** 2^32: one more than the largest IPv4 address value. */
  const Limit: nat := 0x1_0000_0000

  function Pow2(k: nat): (r: nat)
    ensures r >= 1
  {
    if k == 0 then 1 else 2 * Pow2(k - 1)
  }

  lemma {:induction false} Pow2Monotone(i: nat, j: nat)
    requires i <= j
    ensures Pow2(i) <= Pow2(j)
    decreases j
  {
    if i < j {
      Pow2Monotone(i, j - 1);
    }
  }

  lemma {:induction false} Pow2Add(a: nat, b: nat)
    ensures Pow2(a + b) == Pow2(a) * Pow2(b)
    decreases a
  {
    if a > 0 {
      Pow2Add(a - 1, b);
      assert Pow2(a + b) == 2 * Pow2(a - 1 + b);
    }
  }

  lemma Pow2Of32()
    ensures Pow2(32) == Limit
  {
    assert Pow2(4) == 16;
    Pow2Add(4, 4);
    Pow2Add(8, 8);
    Pow2Add(16, 16);
  }

  function Pow256(n: nat): (r: nat)
    ensures r >= 1
  {
    if n == 0 then 1 else 256 * Pow256(n - 1)
  }

  // ---------------------------------------------------------------------
  // 32-bit values and their four octets

  /** `int.from_bytes(os, 'big')`. */
  function FromBytes(os: seq<nat>): nat {
    if os == [] then 0 else FromBytes(os[..|os| - 1]) * 256 + os[|os| - 1]
  }

  /** `v.to_bytes(n, 'big')` for `v < 256^n`. */
  function ToBytes(v: nat, n: nat): (os: seq<nat>)
    ensures |os| == n
    ensures forall i :: 0 <= i < n ==> os[i] < 256
  {
    if n == 0 then [] else ToBytes(v / 256, n - 1) + [v % 256]
  }

  predicate AreOctets(os: seq<nat>) {
    forall i :: 0 <= i < |os| ==> os[i] < 256
  }

  lemma {:induction false} FromToBytes(v: nat, n: nat)
    requires v < Pow256(n)
    ensures FromBytes(ToBytes(v, n)) == v
  {
    if n > 0 {
      var os := ToBytes(v, n);
      assert os[..|os| - 1] == ToBytes(v / 256, n - 1);
      assert v / 256 < Pow256(n - 1);
      FromToBytes(v / 256, n - 1);
    }
  }

  lemma {:induction false} ToFromBytes(os: seq<nat>)
    requires AreOctets(os)
    ensures FromBytes(os) < Pow256(|os|)
    ensures ToBytes(FromBytes(os), |os|) == os
    decreases |os|
  {
    if os != [] {
      var p := os[..|os| - 1];
      var last := os[|os| - 1];
      ToFromBytes(p);
      var v := FromBytes(os);
      assert v == FromBytes(p) * 256 + last;
      assert v / 256 == FromBytes(p) && v % 256 == last;
      assert FromBytes(p) <= Pow256(|p|) - 1;
      assert v < Pow256(|os|) by {
        assert FromBytes(p) * 256 <= (Pow256(|p|) - 1) * 256;
      }
      assert os == p + [last];
    }
  }

  lemma Pow256Of4()
    ensures Pow256(4) == Limit
  {
  }

  // ---------------------------------------------------------------------
  // The strict dotted-quad parser of the `ipaddress` library

  /**
   * `IPv4Address._parse_octet`: a non-empty run of at most three ASCII
   * digits, without a leading zero (except "0" itself), of value at most
   * 255. Only the canonical spelling of a value is accepted.
   */
  function ParseOctet(s: string): (r: Option<nat>)
    ensures r.Some? ==> r.value < 256 && NatToString(r.value) == s
  {
    if s == [] then None
    else if !AllDigits(s) then None
    else if |s| > 3 then None
    else if s != "0" && s[0] == '0' then None
    else if DigitsValue(s) > 255 then None
    else
      StringOfValue(s);
      Some(DigitsValue(s))
  }

  /** `ParseOctet` on each piece, failing if any piece fails. */
  function ParseOctets(parts: seq<string>): (r: Option<seq<nat>>)
    ensures r.Some? ==> |r.value| == |parts| && AreOctets(r.value)
    ensures r.Some? ==> Decimals(r.value) == parts
  {
    if parts == [] then Some([])
    else
      match (ParseOctet(parts[0]), ParseOctets(parts[1..]))
      case (Some(o), Some(os)) =>
        DecimalsCons(o, os);
        assert parts == [parts[0]] + parts[1..];
        Some([o] + os)
      case _ => None
  }

  /**
   * `IPv4Address._ip_int_from_string`: a non-empty string of exactly four
   * dot-separated octets, read as a 32-bit big-endian value.
   */
  function ParseIPv4(s: string): (r: Option<nat>)
    ensures r.Some? ==> r.value < Limit
  {
    if s == [] then None
    else
      var parts := Split(s, '.');
      if |parts| != 4 then None
      else
        match ParseOctets(parts)
        case None => None
        case Some(os) =>
          ToFromBytes(os);
          Pow256Of4();
          Some(FromBytes(os))
  }

  /** `str(n)` of each value. */
  function Decimals(os: seq<nat>): (ss: seq<string>)
    ensures |ss| == |os|
    ensures forall i :: 0 <= i < |os| ==> ss[i] == NatToString(os[i])
  {
    seq(|os|, i requires 0 <= i < |os| => NatToString(os[i]))
  }

  lemma DecimalsCons(o: nat, os: seq<nat>)
    ensures Decimals([o] + os) == [NatToString(o)] + Decimals(os)
  {
  }

  /** `str(IPv4Address(v))`: the four octets in decimal, joined by dots. */
  function FormatIPv4(v: nat): string
    requires v < Limit
  {
    Join(Decimals(ToBytes(v, 4)), '.')
  }

  /**
   * `IPv4Network._prefix_from_prefix_string`: a non-empty run of ASCII
   * digits (leading zeros allowed) that `int` converts, of value at most 32.
   * Netmask and hostmask spellings, which the library tries next, are not
   * modelled; a string of digits alone is never one of them.
   */
  function ParsePrefix(s: string): (r: Option<nat>)
    ensures r.Some? ==> r.value <= 32 && IsDigitString(s) && IntConverts(s) && DigitsValue(s) == r.value
  {
    if !IsDigitString(s) then None
    else if !IntConverts(s) then None
    else if DigitsValue(s) > 32 then None
    else Some(DigitsValue(s))
  }

  // ---------------------------------------------------------------------
  // Masking

  /** `x & y` on naturals, bit by bit from the least significant. */
  function BitAnd(x: nat, y: nat): (r: nat)
    ensures r <= x && r <= y
    decreases x
  {
    if x == 0 || y == 0 then 0
    else 2 * BitAnd(x / 2, y / 2) + (if x % 2 == 1 && y % 2 == 1 then 1 else 0)
  }

  /** `int(IPv4Network.netmask)` for prefix length `p`: the top `p` of 32 bits set. */
  function Netmask(p: nat): nat
    requires p <= 32
  {
    Pow2Monotone(32 - p, 32);
    Pow2Of32();
    Limit - Pow2(32 - p)
  }

  lemma MulMonotone(d: nat, a: nat, b: nat)
    requires a <= b
    ensures d * a <= d * b
  {
    assert d * b == d * a + d * (b - a);
  }

  lemma SmallMultiple(d: int, k: int)
    requires d > 0 && -d < d * k < d
    ensures k == 0
  {
    if k >= 1 {
      MulMonotone(d, 1, k);
    }
  }

  /** Helper: uniqueness of Euclidean division. */
  lemma DivModUnique(x: nat, d: nat, q: nat, r: nat)
    requires d > 0 && r < d && x == d * q + r
    ensures x / d == q && x % d == r
  {
    var q0, r0 := x / d, x % d;
    assert x == d * q0 + r0;
    assert d * (q - q0) == r0 - r;
    SmallMultiple(d, q - q0);
  }

  lemma ModDouble(v: nat, k: nat)
    requires k >= 1
    ensures v % Pow2(k) == 2 * ((v / 2) % Pow2(k - 1)) + v % 2
  {
    var m := Pow2(k - 1);
    assert Pow2(k) == 2 * m;
    var q, r := v / 2, v % 2;
    var a, b := q / m, q % m;
    assert q == m * a + b;
    assert v == 2 * q + r;
    assert v == (2 * m) * a + (2 * b + r) by {
      assert 2 * (m * a) == (2 * m) * a;
    }
    DivModUnique(v, 2 * m, a, 2 * b + r);
  }

  /** ANDing a value below 2^n with n one-bits leaves it unchanged. */
  lemma {:induction false} AndAllOnes(v: nat, n: nat)
    requires v < Pow2(n)
    ensures BitAnd(v, Pow2(n) - 1) == v
    decreases n
  {
    if v > 0 {
      var ones := Pow2(n) - 1;
      var half := v / 2;
      assert n > 0;
      var prev := Pow2(n - 1);
      assert ones == 2 * (prev - 1) + 1;
      DivModUnique(ones, 2, prev - 1, 1);
      assert half < prev;
      AndAllOnes(half, n - 1);
      assert BitAnd(v, ones) == 2 * BitAnd(half, prev - 1) + v % 2;
    }
  }

  /** The value of the low `k` bits of `v`, bit by bit. */
  function LowBits(v: nat, k: nat): (r: nat)
    ensures r <= v
  {
    if k == 0 then 0 else 2 * LowBits(v / 2, k - 1) + v % 2
  }

  /** The low `k` bits of `v` are its remainder modulo 2^k. */
  lemma {:induction false} LowBitsMod(v: nat, k: nat)
    ensures LowBits(v, k) == v % Pow2(k)
    decreases k
  {
    if k > 0 {
      LowBitsMod(v / 2, k - 1);
      ModDouble(v, k);
    }
  }

  /**
   * ANDing a value below 2^n with a mask whose bits `k` to `n - 1` are set
   * clears its low `k` bits.
   */
  lemma {:induction false} AndHighLow(v: nat, n: nat, k: nat)
    requires v < Pow2(n) && k <= n && Pow2(k) <= Pow2(n)
    ensures BitAnd(v, Pow2(n) - Pow2(k)) == v - LowBits(v, k)
    decreases n
  {
    if k == 0 {
      AndAllOnes(v, n);
    } else if Pow2(k) == Pow2(n) {
      LowBitsBelow(v, k);
    } else if v == 0 {
      LowBitsOfZero(k);
    } else {
      HalfBounds(v, n, k);
      AndHighLow(v / 2, n - 1, k - 1);
      AndHighStep(v, n, k);
    }
  }

  /** Halving keeps the value and the mask's low end below the halved top. */
  lemma HalfBounds(v: nat, n: nat, k: nat)
    requires v < Pow2(n) && 0 < k <= n && Pow2(k) < Pow2(n)
    ensures v / 2 < Pow2(n - 1) && Pow2(k - 1) < Pow2(n - 1)
  {
    assert Pow2(n) == 2 * Pow2(n - 1) && Pow2(k) == 2 * Pow2(k - 1);
  }

  /** The induction step of `AndHighLow`, from the claim for `v / 2`. */
  lemma AndHighStep(v: nat, n: nat, k: nat)
    requires v < Pow2(n) && 0 < k <= n && v > 0 && Pow2(k) < Pow2(n)
    requires v / 2 < Pow2(n - 1) && Pow2(k - 1) < Pow2(n - 1)
    requires BitAnd(v / 2, Pow2(n - 1) - Pow2(k - 1)) == v / 2 - LowBits(v / 2, k - 1)
    ensures BitAnd(v, Pow2(n) - Pow2(k)) == v - LowBits(v, k)
  {
    AndHighHalf(v, n, k);
  }

  /** A value below 2^k is its own low `k` bits. */
  lemma LowBitsBelow(v: nat, k: nat)
    requires v < Pow2(k)
    ensures LowBits(v, k) == v
  {
    LowBitsMod(v, k);
    DivModUnique(v, Pow2(k), 0, v);
  }

  lemma {:induction false} LowBitsOfZero(k: nat)
    ensures LowBits(0, k) == 0
  {
    if k > 0 {
      LowBitsOfZero(k - 1);
    }
  }

  /** One step of `BitAnd`: the low bits' product under twice the rest. */
  lemma BitAndStep(x: nat, y: nat)
    requires x > 0 && y > 0
    ensures BitAnd(x, y) == 2 * BitAnd(x / 2, y / 2) + (if x % 2 == 1 && y % 2 == 1 then 1 else 0)
  {
  }

  /** The mask's lowest bit is clear, so ANDing with it halves into the next step. */
  lemma AndHighHalf(v: nat, n: nat, k: nat)
    requires v < Pow2(n) && 0 < k <= n && v > 0 && Pow2(k) < Pow2(n)
    ensures v / 2 < Pow2(n - 1) && Pow2(k - 1) < Pow2(n - 1)
    ensures BitAnd(v, Pow2(n) - Pow2(k)) == 2 * BitAnd(v / 2, Pow2(n - 1) - Pow2(k - 1))
  {
    var mask := Pow2(n) - Pow2(k);
    BitAndStep(v, mask);
    var prev, low := Pow2(n - 1), Pow2(k - 1);
    assert Pow2(n) == 2 * prev && Pow2(k) == 2 * low;
    DivModUnique(mask, 2, prev - low, 0);
  }

  /**
   * `packed & int(netmask)` keeps the top `p` bits of a 32-bit value and
   * clears the `32 - p` host bits; the result is a multiple of 2^(32-p).
   */
  lemma MaskClearsHostBits(v: nat, p: nat)
    requires v < Limit && p <= 32
    ensures BitAnd(v, Netmask(p)) == ClearHostBits(v, p)
    ensures ClearHostBits(ClearHostBits(v, p), p) == ClearHostBits(v, p)
  {
    MaskIsClear(v, p);
    ClearTwice(v, p);
  }

  lemma MaskIsClear(v: nat, p: nat)
    requires v < Limit && p <= 32
    ensures BitAnd(v, Netmask(p)) == ClearHostBits(v, p)
  {
    var k := 32 - p;
    AndHighBitsOfLimit(v, k);
    assert Netmask(p) == Limit - Pow2(k);
    assert ClearHostBits(v, p) == v - LowBits(v, k);
  }

  /** The mask of `AndHighLow` for 32-bit values, with 2^32 written as `Limit`. */
  lemma AndHighBitsOfLimit(v: nat, k: nat)
    requires v < Limit && k <= 32
    ensures Pow2(k) <= Limit
    ensures BitAnd(v, Limit - Pow2(k)) == v - LowBits(v, k)
  {
    Pow2Of32();
    Pow2Monotone(k, 32);
    AndHighLow(v, 32, k);
  }

  /** Clearing the host bits a second time changes nothing. */
  lemma ClearTwice(v: nat, p: nat)
    requires p <= 32
    ensures ClearHostBits(ClearHostBits(v, p), p) == ClearHostBits(v, p)
  {
    var d := Pow2(32 - p);
    var m := ClearHostBits(v, p);
    HostBitsMod(v, p);
    HostBitsMod(m, p);
    RoundedDown(v, d);
    assert m % d == 0;
  }

  /** The cleared host bits are the remainder modulo 2^(32-p). */
  lemma HostBitsMod(v: nat, p: nat)
    requires p <= 32
    ensures ClearHostBits(v, p) == v - v % Pow2(32 - p)
  {
    LowBitsMod(v, 32 - p);
  }

  /** `v` with its low `32 - p` bits cleared, as arithmetic. */
  function ClearHostBits(v: nat, p: nat): (m: nat)
    requires p <= 32
    ensures m <= v
  {
    v - LowBits(v, 32 - p)
  }

  lemma RoundedDown(v: nat, d: nat)
    requires d > 0
    ensures v % d <= v && (v - v % d) % d == 0
  {
    var q := v / d;
    assert v == d * q + v % d;
    DivModUnique(v - v % d, d, q, 0);
  }

  // ---------------------------------------------------------------------
  // clean_ip

  /**
   * The segments kept by the generator
   * `str(int(octet)) for octet in segs if octet.isdigit()`, as numbers.
   */
  function KeptValues(segs: seq<string>): seq<nat> {
    if segs == [] then []
    else
      (if IsDigitString(segs[0]) then [DigitsValue(segs[0])] else [])
      + KeptValues(segs[1..])
  }

  /** `int(octet)` raises on none of the digit segments. */
  predicate Convertible(segs: seq<string>) {
    forall i :: 0 <= i < |segs| && IsDigitString(segs[i]) ==> IntConverts(segs[i])
  }

  /**
   * The branch of `clean_ip` for a token without '/'; the `ValueError` of
   * an overlong digit segment is caught like the parser's.
   */
  function CleanHost(t: string): Option<string> {
    var segs := Split(t, '.');
    if !Convertible(segs) then None
    else
      var rewritten := Join(Decimals(KeptValues(segs)), '.');
      match ParseIPv4(rewritten)
      case Some(v) => Some(FormatIPv4(v))
      case None => None
  }

  /** `str(ipaddress.ip_network(t, strict=False))`, for IPv4 prefix notation. */
  function CleanNetwork(t: string): Option<string> {
    var parts := Split(t, '/');
    if |parts| != 2 then None
    else
      match (ParseIPv4(parts[0]), ParsePrefix(parts[1]))
      case (Some(v), Some(p)) =>
        Some(FormatNetwork(BitAnd(v, Netmask(p)), p))
      case _ => None
  }

  /** `str(IPv4Network)`: the network address, '/', the prefix length. */
  function FormatNetwork(v: nat, p: nat): string
    requires v < Limit
  {
    FormatIPv4(v) + "/" + NatToString(p)
  }

  /** `clean_ip(t)`: `None` for a rejected token. */
  function Clean(t: string): Option<string> {
    if '/' in t then CleanNetwork(t) else CleanHost(t)
  }

  // ---------------------------------------------------------------------
  // Properties of the parsers and formatter

  /** Digits and dots only. */
  predicate DottedDigits(s: string) {
    forall i :: 0 <= i < |s| ==> IsDigit(s[i]) || s[i] == '.'
  }

  /** A character that may appear in what `clean_ip` returns. */
  predicate SafeChar(c: char) {
    IsDigit(c) || c == '.' || c == '/'
  }

  lemma {:induction false} JoinOfDigits(parts: seq<string>)
    requires forall i :: 0 <= i < |parts| ==> AllDigits(parts[i])
    ensures DottedDigits(Join(parts, '.'))
    decreases |parts|
  {
    if |parts| > 1 {
      JoinOfDigits(parts[1..]);
      var j := Join(parts, '.');
      var tail := Join(parts[1..], '.');
      assert j == parts[0] + ['.'] + tail;
      forall i | 0 <= i < |j| ensures IsDigit(j[i]) || j[i] == '.' {
        if i < |parts[0]| {
          assert j[i] == parts[0][i];
        } else if i > |parts[0]| {
          assert j[i] == tail[i - |parts[0]| - 1];
        }
      }
    }
  }

  /** Numerals contain no dot, so a dot-join of them can be split back. */
  lemma DecimalsHaveNoDots(os: seq<nat>)
    ensures forall i :: 0 <= i < |os| ==> '.' !in Decimals(os)[i]
    ensures forall i :: 0 <= i < |os| ==> '/' !in Decimals(os)[i]
  {
    forall i | 0 <= i < |os|
      ensures '.' !in Decimals(os)[i] && '/' !in Decimals(os)[i]
    {
      var d := NatToString(os[i]);
      assert forall k :: 0 <= k < |d| ==> IsDigit(d[k]);
    }
  }

  /** A formatted address is a non-empty string of digits and dots. */
  lemma FormatIPv4Chars(v: nat)
    requires v < Limit
    ensures FormatIPv4(v) != [] && DottedDigits(FormatIPv4(v)) && '/' !in FormatIPv4(v)
  {
    var parts := Decimals(ToBytes(v, 4));
    JoinOfDigits(parts);
    assert Join(parts, '.') == parts[0] + ['.'] + Join(parts[1..], '.');
    assert parts[0] != [];
  }

  /** `_parse_octet(str(n))` succeeds exactly when n is an octet value. */
  lemma OctetOfString(n: nat)
    ensures ParseOctet(NatToString(n)) == if n < 256 then Some(n) else None
  {
    var s := NatToString(n);
    ValueOfString(n);
    if n < 256 {
      ShortNumeral(n);
      if s[0] == '0' {
        assert s == "0";
      }
    }
  }

  lemma {:induction false} ParseDecimals(os: seq<nat>)
    ensures ParseOctets(Decimals(os)) == if AreOctets(os) then Some(os) else None
    decreases |os|
  {
    if os != [] {
      var ds := Decimals(os);
      assert ds[0] == NatToString(os[0]);
      assert ds[1..] == Decimals(os[1..]);
      OctetOfString(os[0]);
      ParseDecimals(os[1..]);
      assert os == [os[0]] + os[1..];
      assert AreOctets(os) <==> os[0] < 256 && AreOctets(os[1..]);
    }
  }

  lemma {:induction false} KeptOfDecimals(os: seq<nat>)
    ensures KeptValues(Decimals(os)) == os
    decreases |os|
  {
    if os != [] {
      var ds := Decimals(os);
      assert ds[1..] == Decimals(os[1..]);
      ValueOfString(os[0]);
      KeptOfDecimals(os[1..]);
      assert os == [os[0]] + os[1..];
    }
  }

  /** When every segment is a digit string, all of them are kept, in order. */
  lemma {:induction false} KeptOfDigits(segs: seq<string>, os: seq<nat>)
    requires |segs| == |os|
    requires forall i :: 0 <= i < |segs| ==> IsDigitString(segs[i]) && DigitsValue(segs[i]) == os[i]
    ensures KeptValues(segs) == os
    decreases |segs|
  {
    if segs != [] {
      var rest, vals := segs[1..], os[1..];
      assert forall i :: 0 <= i < |rest| ==> rest[i] == segs[i + 1] && vals[i] == os[i + 1];
      KeptOfDigits(rest, vals);
      assert os == [os[0]] + vals;
    }
  }

  /** Round trip: the strict parser reads back every formatted address. */
  lemma ParseFormatted(v: nat)
    requires v < Limit
    ensures ParseIPv4(FormatIPv4(v)) == Some(v)
  {
    var os := ToBytes(v, 4);
    var parts := Decimals(os);
    DecimalsHaveNoDots(os);
    SplitJoin(parts, '.');
    FormatIPv4Chars(v);
    ParseDecimals(os);
    Pow256Of4();
    FromToBytes(v, 4);
  }

  /** The strict parser accepts only the formatted spelling of a value. */
  lemma FormattedParse(s: string)
    requires ParseIPv4(s).Some?
    ensures FormatIPv4(ParseIPv4(s).value) == s
  {
    var parts := Split(s, '.');
    var os := ParseOctets(parts).value;
    ToFromBytes(os);
    JoinSplit(s, '.');
  }

  // ---------------------------------------------------------------------
  // Properties of clean_ip

  /**
   * Without '/': the digit segments are kept (empty and non-numeric ones
   * dropped, leading zeros stripped) and the token is accepted exactly when
   * `int` converts every one of them, four remain and each is at most 255;
   * the result is those four joined by dots.
   */
  lemma CleanHostSpec(t: string)
    requires '/' !in t
    ensures var segs := Split(t, '.'); var ks := KeptValues(segs);
      Clean(t) ==
        if Convertible(segs) && |ks| == 4 && AreOctets(ks) then Some(Join(Decimals(ks), '.')) else None
  {
    var ks := KeptValues(Split(t, '.'));
    if Convertible(Split(t, '.')) && |ks| == 4 && AreOctets(ks) {
      CleanHostAccepted(t);
    } else {
      CleanHostRejected(t);
    }
  }

  /** Four kept octets are rewritten into the canonical dotted quad. */
  lemma CleanHostAccepted(t: string)
    requires '/' !in t && Convertible(Split(t, '.'))
    requires var ks := KeptValues(Split(t, '.')); |ks| == 4 && AreOctets(ks)
    ensures Clean(t) == Some(Join(Decimals(KeptValues(Split(t, '.'))), '.'))
  {
    var ks := KeptValues(Split(t, '.'));
    var parts := Decimals(ks);
    DecimalsHaveNoDots(ks);
    SplitJoin(parts, '.');
    ParseDecimals(ks);
    ToFromBytes(ks);
    Pow256Of4();
    var r := Join(parts, '.');
    assert r != [] by {
      assert r == parts[0] + ['.'] + Join(parts[1..], '.');
    }
    assert ParseIPv4(r) == Some(FromBytes(ks));
    assert FormatIPv4(FromBytes(ks)) == r;
    assert Clean(t) == CleanHost(t);
  }

  /**
   * An overlong digit segment, any other number of kept segments, or one
   * above 255, is rejected.
   */
  lemma CleanHostRejected(t: string)
    requires '/' !in t
    requires var ks := KeptValues(Split(t, '.')); !(Convertible(Split(t, '.')) && |ks| == 4 && AreOctets(ks))
    ensures Clean(t) == None
  {
    var ks := KeptValues(Split(t, '.'));
    if Convertible(Split(t, '.')) && ks != [] {
      DecimalsHaveNoDots(ks);
      SplitJoin(Decimals(ks), '.');
      if |ks| == 4 {
        ParseDecimals(ks);
      }
    }
  }

  /**
   * With '/': the token is accepted exactly when it is one dotted-quad
   * address and one prefix length 0..32 around a single '/'; the result is
   * the address with its 32 - p host bits cleared, then the prefix.
   */
  lemma CleanNetworkSpec(t: string)
    requires '/' in t
    ensures var parts := Split(t, '/');
      Clean(t) ==
        if |parts| == 2 && ParseIPv4(parts[0]).Some? && ParsePrefix(parts[1]).Some? then
          var v, p := ParseIPv4(parts[0]).value, ParsePrefix(parts[1]).value;
          Some(FormatNetwork(ClearHostBits(v, p), p))
        else None
  {
    var parts := Split(t, '/');
    assert Clean(t) == CleanNetwork(t);
    if |parts| == 2 && ParseIPv4(parts[0]).Some? && ParsePrefix(parts[1]).Some? {
      var v, p := ParseIPv4(parts[0]).value, ParsePrefix(parts[1]).value;
      MaskClearsHostBits(v, p);
    }
  }

  /** Every dotted-quad spelling of an address is accepted as it is. */
  lemma HostRoundTrip(v: nat)
    requires v < Limit
    ensures Clean(FormatIPv4(v)) == Some(FormatIPv4(v))
  {
    var s := FormatIPv4(v);
    var os := ToBytes(v, 4);
    FormatIPv4Chars(v);
    DecimalsHaveNoDots(os);
    SplitJoin(Decimals(os), '.');
    KeptOfDecimals(os);
    DecimalsConvertible(os);
    CleanHostSpec(s);
  }

  /** The numerals of octets are at most three digits long, so `int` converts them. */
  lemma DecimalsConvertible(os: seq<nat>)
    requires AreOctets(os)
    ensures Convertible(Decimals(os))
  {
    forall i | 0 <= i < |os| ensures IntConverts(Decimals(os)[i]) {
      ShortNumeral(os[i]);
    }
  }

  /**
   * Every prefix-notation spelling of a network is accepted; the prefix is
   * kept and the host bits are cleared whether or not they were zero.
   */
  lemma NetworkRoundTrip(v: nat, p: nat)
    requires v < Limit && p <= 32
    ensures Clean(FormatNetwork(v, p)) == Some(FormatNetwork(ClearHostBits(v, p), p))
  {
    var a, b := FormatIPv4(v), NatToString(p);
    var t := FormatNetwork(v, p);
    assert t == a + "/" + b;
    FormatIPv4Chars(v);
    assert '/' !in b by {
      assert forall k :: 0 <= k < |b| ==> IsDigit(b[k]);
    }
    assert Join([a, b], '/') == t;
    SplitJoin([a, b], '/');
    assert t[|a|] == '/';
    ParseFormatted(v);
    ValueOfString(p);
    ShortNumeral(p);
    CleanNetworkSpec(t);
  }

  /** `clean_ip` is idempotent: what it returns it accepts unchanged. */
  lemma CleanIdempotent(t: string)
    requires Clean(t).Some?
    ensures Clean(Clean(t).value) == Clean(t)
  {
    if '/' in t {
      CleanNetworkSpec(t);
      var parts := Split(t, '/');
      var v, p := ParseIPv4(parts[0]).value, ParsePrefix(parts[1]).value;
      var m := ClearHostBits(v, p);
      MaskClearsHostBits(v, p);
      NetworkRoundTrip(m, p);
    } else {
      CleanHostSpec(t);
      var ks := KeptValues(Split(t, '.'));
      ToFromBytes(ks);
      Pow256Of4();
      HostRoundTrip(FromBytes(ks));
    }
  }

  /**
   * What `clean_ip` returns is made of digits, '.' and '/' only, so the
   * shell commands built from it receive no other characters.
   */
  lemma CleanOutputSafe(t: string)
    requires Clean(t).Some?
    ensures forall i :: 0 <= i < |Clean(t).value| ==> SafeChar(Clean(t).value[i])
  {
    if '/' in t {
      CleanNetworkSpec(t);
      var parts := Split(t, '/');
      var v, p := ParseIPv4(parts[0]).value, ParsePrefix(parts[1]).value;
      NetworkChars(ClearHostBits(v, p), p);
    } else {
      CleanHostSpec(t);
      var ks := KeptValues(Split(t, '.'));
      ToFromBytes(ks);
      Pow256Of4();
      FormatIPv4Chars(FromBytes(ks));
    }
  }

  /** A network's spelling is digits, '.' and one '/'. */
  lemma NetworkChars(m: nat, p: nat)
    requires m < Limit
    ensures forall i :: 0 <= i < |FormatNetwork(m, p)| ==> SafeChar(FormatNetwork(m, p)[i])
  {
    var c := FormatNetwork(m, p);
    var a, b := FormatIPv4(m), NatToString(p);
    FormatIPv4Chars(m);
    assert c == a + "/" + b;
    forall i | 0 <= i < |c| ensures SafeChar(c[i]) {
      if i < |a| {
        assert c[i] == a[i];
      } else if i > |a| {
        assert c[i] == b[i - |a| - 1];
      }
    }
  }

  /** The four numerals of `os`, each preceded by `pads[i]` zeros. */
  function Padded(os: seq<nat>, pads: seq<nat>): (ss: seq<string>)
    requires |pads| == |os|
    ensures |ss| == |os|
  {
    seq(|os|, i requires 0 <= i < |os| => Zeros(pads[i]) + NatToString(os[i]))
  }

  /**
   * A dotted quad whose octets carry leading zeros is accepted as the
   * address without them ("192.168.001.010" becomes "192.168.1.10") as long
   * as `int` converts every padded octet, and rejected otherwise.
   */
  lemma LeadingZerosStripped(os: seq<nat>, pads: seq<nat>)
    requires |os| == 4 && |pads| == 4 && AreOctets(os)
    ensures Clean(Join(Padded(os, pads), '.')) ==
      if forall i :: 0 <= i < 4 ==> pads[i] + |NatToString(os[i])| <= MaxStrDigits
      then Some(Join(Decimals(os), '.'))
      else None
  {
    var segs := Padded(os, pads);
    forall i | 0 <= i < 4
      ensures IsDigitString(segs[i]) && DigitsValue(segs[i]) == os[i] && '.' !in segs[i]
      ensures |segs[i]| == pads[i] + |NatToString(os[i])|
    {
      LeadingZerosIgnored(pads[i], NatToString(os[i]));
      ValueOfString(os[i]);
    }
    SplitJoin(segs, '.');
    var t := Join(segs, '.');
    assert '/' !in t by {
      JoinOfDigits(segs);
    }
    KeptOfDigits(segs, os);
    CleanHostSpec(t);
  }

  /**
   * A prefix length padded with `k` leading zeros is read as itself while
   * `int` converts the padded numeral, and rejected beyond that.
   */
  lemma PaddedPrefix(k: nat, p: nat)
    requires p <= 32
    ensures ParsePrefix(Zeros(k) + NatToString(p)) ==
      if k + |NatToString(p)| <= MaxStrDigits then Some(p) else None
  {
    LeadingZerosIgnored(k, NatToString(p));
    ValueOfString(p);
  }
}
