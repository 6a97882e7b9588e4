/** The Internet checksum of bootp/udp.c, after section 3.1 of RFC 791 and RFC 1071. */
module Checksum {
  const MASK: nat := 0xFFFF

  type Byte = x: nat | x < 256

  predicate Words(ws: seq<nat>) {
    forall i :: 0 <= i < |ws| ==> ws[i] <= MASK
  }

  function Total(ws: seq<nat>): nat {
    if ws == [] then 0 else ws[0] + Total(ws[1..])
  }

  /** The ones' complement sum of 16-bit words with a given total: the total modulo 65535, where
      only nothing but zeros gives zero. */
  function OnesSum(total: nat): (s: nat)
    ensures s <= MASK && (total - s) % MASK == 0 && (s == 0 <==> total == 0)
  {
    if total == 0 then 0 else (total - 1) % MASK + 1
  }

  /** The sum is determined by what it is congruent to and by whether it is zero. */
  lemma OnesSumUnique(total: nat, s: nat)
    requires s <= MASK && (total - s) % MASK == 0 && (s == 0 <==> total == 0)
    ensures s == OnesSum(total)
  {
    if total > 0 {
      var k := (total - s) / MASK;
      assert total == MASK * k + s;
      if s < MASK { assert total - 1 == MASK * k + (s - 1); } else { assert total - 1 == MASK * k + (MASK - 1); }
    }
  }

  /** The checksum of a list of words. */
  function Check(ws: seq<nat>): nat {
    MASK - OnesSum(Total(ws))
  }

  function Word(lower: nat, upper: nat): nat {
    lower + 256 * upper
  }

  /** The 16-bit words in a buffer, on a little-endian machine; an odd byte at the end is no word. */
  function WordsOf(b: seq<Byte>): (ws: seq<nat>)
    ensures Words(ws) && |ws| == |b| / 2
    ensures forall i :: 0 <= i < |b| / 2 ==> ws[i] % 256 == b[2 * i] && ws[i] / 256 == b[2 * i + 1]
  {
    seq(|b| / 2, i requires 0 <= i < |b| / 2 => Word(b[2 * i], b[2 * i + 1]))
  }

  /** Adds a word and takes 65535 off an overflow. */
  function AddWord(sum: nat, word: nat): nat {
    if sum + word > MASK then sum + word - MASK else sum + word
  }

  /** The running sum over the first i words. */
  function Running(ws: seq<nat>, i: nat): nat
    requires i <= |ws|
  {
    if i == 0 then 0 else AddWord(Running(ws, i - 1), ws[i - 1])
  }

  lemma AddWordIs(total: nat, sum: nat, word: nat)
    requires word <= MASK && sum == OnesSum(total)
    ensures AddWord(sum, word) == OnesSum(total + word)
  {
    OnesSumUnique(total + word, AddWord(sum, word));
  }

  /** The running sum is the ones' complement sum. */
  lemma {:induction false} RunningIs(ws: seq<nat>, i: nat)
    requires Words(ws) && i <= |ws|
    ensures Running(ws, i) == OnesSum(Total(ws[..i]))
  {
    if i > 0 {
      RunningIs(ws, i - 1);
      AddWordIs(Total(ws[..i - 1]), Running(ws, i - 1), ws[i - 1]);
      assert ws[..i] == ws[..i - 1] + [ws[i - 1]];
      TotalConcat(ws[..i - 1], [ws[i - 1]]);
    }
  }

  /** bootp_ipchksum. */
  method IpChecksum(b: seq<Byte>) returns (r: nat)
    ensures r == Check(WordsOf(b)) <= MASK
  {
    ghost var ws := WordsOf(b);
    var sum, i := 0, 0;
    while i < |b| / 2
      invariant i <= |ws| && sum == Running(ws, i)
    {
      sum := sum + Word(b[2 * i], b[2 * i + 1]);
      if sum > MASK {
        sum := sum - MASK;
      }
      i := i + 1;
    }
    RunningIs(ws, i);
    assert ws[..i] == ws;
    r := MASK - sum;
  }

  lemma {:induction false} TotalUpdate(ws: seq<nat>, k: nat, x: nat)
    requires k < |ws|
    ensures Total(ws[k := x]) + ws[k] == Total(ws) + x
  {
    if k == 0 {
      assert ws[0 := x][1..] == ws[1..];
    } else {
      assert ws[k := x][1..] == ws[1..][k - 1 := x];
      TotalUpdate(ws[1..], k - 1, x);
    }
  }

  lemma OnesSumFull(t: nat)
    ensures OnesSum(t) == MASK <==> t > 0 && t % MASK == 0
  {
    var k := t / MASK;
    assert t == MASK * k + t % MASK;
    if t > 0 && t % MASK == 0 {
      assert t - MASK == MASK * (k - 1);
      OnesSumUnique(t, MASK);
    }
  }

  /** A receiver's check passes exactly when the words are not all zero and add up to a multiple
      of 65535. */
  lemma CheckPassesIff(ws: seq<nat>)
    ensures Check(ws) == 0 <==> Total(ws) > 0 && Total(ws) % MASK == 0
  {
    OnesSumFull(Total(ws));
  }

  /** A header passes the check once its checksum is stored where a zero was. */
  lemma StoredChecksumPasses(ws: seq<nat>, k: nat)
    requires k < |ws| && ws[k] == 0
    ensures Check(ws[k := Check(ws)]) == 0
  {
    TotalUpdate(ws, k, Check(ws));
    CheckPassesIff(ws[k := Check(ws)]);
  }

  lemma {:induction false} TotalConcat(a: seq<nat>, b: seq<nat>)
    ensures Total(a + b) == Total(a) + Total(b)
  {
    if a == [] {
      assert a + b == b;
    } else {
      assert (a + b)[1..] == a[1..] + b;
      TotalConcat(a[1..], b);
    }
  }

  /** The order of the words does not matter. */
  lemma {:induction false} OrderIndependent(a: seq<nat>, b: seq<nat>)
    requires multiset(a) == multiset(b)
    ensures Total(a) == Total(b) && Check(a) == Check(b)
    decreases |a|
  {
    if a == [] {
      assert |multiset(a)| == |a| && |multiset(b)| == |b|;
    } else {
      var k := PlaceOf(a, b);
      assert b == b[..k] + [a[0]] + b[k + 1..];
      assert a == [a[0]] + a[1..];
      assert multiset(b[..k] + b[k + 1..]) == multiset(b) - multiset{a[0]};
      OrderIndependent(a[1..], b[..k] + b[k + 1..]);
      TotalConcat(b[..k] + [a[0]], b[k + 1..]);
      TotalConcat(b[..k], [a[0]]);
      TotalConcat(b[..k], b[k + 1..]);
    }
  }

  lemma PlaceOf(a: seq<nat>, b: seq<nat>) returns (k: nat)
    requires a != [] && multiset(a) == multiset(b)
    ensures k < |b| && b[k] == a[0]
  {
    assert a[0] in multiset(a);
    assert a[0] in b;
    k :| k < |b| && b[k] == a[0];
  }

  /** The two bytes of a word exchanged. */
  function Swap(w: nat): (r: nat)
    requires w <= MASK
    ensures r <= MASK && (r == 0 <==> w == 0)
  {
    256 * (w % 256) + w / 256
  }

  function SwapAll(ws: seq<nat>): (r: seq<nat>)
    requires Words(ws)
    ensures |r| == |ws| && Words(r)
  {
    seq(|ws|, i requires 0 <= i < |ws| => Swap(ws[i]))
  }

  lemma {:induction false} TotalSwapped(ws: seq<nat>)
    requires Words(ws)
    ensures (Total(SwapAll(ws)) - 256 * Total(ws)) % MASK == 0
    ensures Total(SwapAll(ws)) == 0 <==> Total(ws) == 0
  {
    if ws != [] {
      assert SwapAll(ws)[1..] == SwapAll(ws[1..]);
      TotalSwapped(ws[1..]);
      SwapIsTimes256(ws[0]);
      AddMultiples(Swap(ws[0]) - 256 * ws[0], Total(SwapAll(ws[1..])) - 256 * Total(ws[1..]));
    }
  }

  lemma AddMultiples(x: int, y: int)
    requires x % MASK == 0 && y % MASK == 0
    ensures (x + y) % MASK == 0
  {
  }

  lemma SwapIsTimes256(w: nat)
    requires w <= MASK
    ensures (Swap(w) - 256 * w) % MASK == 0
  {
    assert Swap(w) - 256 * w == -(MASK * (w / 256));
  }

  /** The checksum of words with their bytes exchanged is the checksum with its bytes exchanged, so
      that it is right in either byte order. */
  lemma ByteOrderIndependent(ws: seq<nat>)
    requires Words(ws)
    ensures Check(SwapAll(ws)) == Swap(Check(ws))
  {
    var t, u := Total(ws), Total(SwapAll(ws));
    var s := OnesSum(t);
    TotalSwapped(ws);
    SwapIsTimes256(s);
    Congruent(u, t, s, Swap(s));
    OnesSumUnique(u, Swap(s));
    SwapComplement(s);
  }

  lemma Congruent(u: nat, t: nat, s: nat, r: nat)
    requires (u - 256 * t) % MASK == 0 && (t - s) % MASK == 0 && (r - 256 * s) % MASK == 0
    ensures (u - r) % MASK == 0
  {
    var a, b, c := (u - 256 * t) / MASK, (t - s) / MASK, (r - 256 * s) / MASK;
    assert u - r == MASK * (a + 256 * b - c);
  }

  lemma SwapComplement(s: nat)
    requires s <= MASK
    ensures Swap(MASK - s) == MASK - Swap(s)
  {
    var hi, lo := s / 256, s % 256;
    assert MASK - s == 256 * (255 - hi) + (255 - lo);
  }

  /** The upper and the lower byte of a number taken modulo 65536, as htons stores them. */
  function Upper(x: int): Byte {
    x % 0x1_0000 / 256
  }

  function Lower(x: int): Byte {
    x % 256
  }

  /** A field of two bytes in network order. */
  function Field(b: seq<Byte>, at: nat): nat
    requires at + 1 < |b|
  {
    var high: nat := b[at];
    256 * high + b[at + 1]
  }

  /** What htons stores reads back as the number modulo 65536. */
  lemma StoredField(b: seq<Byte>, at: nat, x: int)
    requires at + 1 < |b| && b[at] == Upper(x) && b[at + 1] == Lower(x)
    ensures Field(b, at) == x % 0x1_0000
  {
    assert x % 256 == x % 0x1_0000 % 256;
  }

  /** The fields of an IP header without options, section 3.1 of RFC 791, as the driver fills them. */
  ghost predicate IpFields(b: seq<Byte>, srcip: seq<Byte>, len: int)
    requires |b| >= 20 && |srcip| == 4
  {
    && b[0] == 0x45 && b[1] == 0 && Field(b, 2) == len % 0x1_0000 && Field(b, 4) == Field(b, 6) == 0
    && b[8] == 60 && b[9] == 17 && b[12..16] == srcip && b[16..20] == [255, 255, 255, 255]
  }

  /** The fields of the UDP header behind it. */
  ghost predicate UdpFields(b: seq<Byte>, srcsock: int, destsock: int, len: int)
    requires |b| >= 28
  {
    && Field(b, 20) == srcsock % 0x1_0000 && Field(b, 22) == destsock % 0x1_0000
    && Field(b, 24) == len % 0x1_0000 && Field(b, 26) == 0
  }

  lemma HeaderFields(b: seq<Byte>, srcip: seq<Byte>, len: int)
    requires |b| >= 20 && |srcip| == 4
    requires b[..10] == Header(len, srcip)[..10] && b[12..20] == Header(len, srcip)[12..]
    ensures IpFields(b, srcip, len)
  {
    var h := Header(len, srcip);
    forall i | 0 <= i < 10 ensures b[i] == h[i] { assert b[..10][i] == h[..10][i]; }
    forall i | 12 <= i < 20 ensures b[i] == h[i] { assert b[12..20][i - 12] == h[12..][i - 12]; }
    StoredField(b, 2, len);
    assert b[12..16] == srcip;
    assert b[16..20] == [255, 255, 255, 255];
  }

  lemma UdpHeaderFields(b: seq<Byte>, srcsock: int, destsock: int, len: int)
    requires |b| >= 28 && b[20..28] == UdpHeader(srcsock, destsock, len)
    ensures UdpFields(b, srcsock, destsock, len)
  {
    var h := UdpHeader(srcsock, destsock, len);
    forall i | 20 <= i < 28 ensures b[i] == h[i - 20] { assert b[20..28][i - 20] == h[i - 20]; }
    StoredField(b, 20, srcsock);
    StoredField(b, 22, destsock);
    StoredField(b, 24, len);
  }

  /** What the driver asks of a received header. */
  predicate Accepted(b: seq<Byte>)
    requires |b| == 20
  {
    b[0] == 0x45 && Check(WordsOf(b)) == 0 && b[9] == 17
  }

  /** The header that bootp_udp_broadcast writes, before the checksum. */
  function Header(len: int, srcip: seq<Byte>): (b: seq<Byte>)
    requires |srcip| == 4
    ensures |b| == 20
  {
    [0x45, 0, Upper(len), Lower(len), 0, 0, 0, 0, 60, 17, 0, 0] + srcip + [255, 255, 255, 255]
  }

  /** The UDP header it writes, without a checksum. */
  function UdpHeader(srcsock: int, destsock: int, len: int): seq<Byte> {
    [Upper(srcsock), Lower(srcsock), Upper(destsock), Lower(destsock), Upper(len), Lower(len), 0, 0]
  }

  /** The buffer with its k-th word set. */
  function StoreWord(b: seq<Byte>, k: nat, w: nat): (r: seq<Byte>)
    requires 2 * k + 1 < |b| && w <= MASK
    ensures |r| == |b|
  {
    b[..2 * k] + [Lower(w), Upper(w)] + b[2 * k + 2..]
  }

  lemma WordsStored(b: seq<Byte>, k: nat, w: nat)
    requires 2 * k + 1 < |b| && w <= MASK
    ensures WordsOf(StoreWord(b, k, w)) == WordsOf(b)[k := w]
  {
  }

  /** A filled header is accepted by the driver. */
  lemma HeaderAccepted(b: seq<Byte>)
    requires |b| == 20 && b[0] == 0x45 && b[9] == 17 && b[10] == b[11] == 0
    ensures Accepted(StoreWord(b, 5, Check(WordsOf(b))))
  {
    var c := Check(WordsOf(b));
    WordsStored(b, 5, c);
    assert WordsOf(b)[5] == Word(b[10], b[11]);
    StoredChecksumPasses(WordsOf(b), 5);
  }

  /** bootp_udp_broadcast up to the transmission: the header is written in front of the buffer and
      passes the driver's check; what follows the two headers is left alone. */
  method FillHeaders(buf: array<Byte>, srcip: seq<Byte>, srcsock: int, destsock: int, len: int)
    requires buf.Length >= 28 && |srcip| == 4
    modifies buf
    ensures Accepted(buf[..20])
    ensures IpFields(buf[..], srcip, len) && UdpFields(buf[..], srcsock, destsock, len - 20)
    ensures buf[28..] == old(buf[28..])
  {
    WriteAt(buf, 0, Header(len, srcip));
    ghost var b := buf[..20];
    var c := IpChecksum(buf[..20]);
    HeaderAccepted(b);
    buf[10], buf[11] := Lower(c), Upper(c);
    assert buf[..20] == StoreWord(b, 5, c);
    WriteAt(buf, 20, UdpHeader(srcsock, destsock, len - 20));
    FieldsOf(buf[..], b, c, srcip, srcsock, destsock, len);
  }

  lemma FieldsOf(whole: seq<Byte>, b: seq<Byte>, c: nat, srcip: seq<Byte>, srcsock: int, destsock: int, len: int)
    requires |whole| >= 28 && |srcip| == 4 && c <= MASK && b == Header(len, srcip)
    requires whole[..20] == StoreWord(b, 5, c) && whole[20..28] == UdpHeader(srcsock, destsock, len - 20)
    ensures IpFields(whole, srcip, len) && UdpFields(whole, srcsock, destsock, len - 20)
  {
    assert whole[..10] == whole[..20][..10] == b[..10];
    assert whole[12..20] == whole[..20][12..] == b[12..];
    HeaderFields(whole, srcip, len);
    UdpHeaderFields(whole, srcsock, destsock, len - 20);
  }

  method WriteAt(buf: array<Byte>, at: nat, bytes: seq<Byte>)
    requires at + |bytes| <= buf.Length
    modifies buf
    ensures buf[at..at + |bytes|] == bytes
    ensures buf[..at] == old(buf[..at]) && buf[at + |bytes|..] == old(buf[at + |bytes|..])
  {
    for i := 0 to |bytes|
      invariant buf[at..at + i] == bytes[..i]
      invariant buf[..at] == old(buf[..at]) && buf[at + |bytes|..] == old(buf[at + |bytes|..])
    {
      buf[at + i] := bytes[i];
      assert buf[at..at + i + 1] == buf[at..at + i] + [bytes[i]];
    }
    assert bytes[..|bytes|] == bytes;
  }
}
