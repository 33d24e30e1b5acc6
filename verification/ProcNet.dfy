/** /proc/net tables as read by src/connections.rs. One character of text stands for one byte. */
module ProcNet {
  import opened Text

  // ---- addresses ----

  /** Octets in network order. */
  datatype Ip = V4(a: nat, b: nat, c: nat, d: nat) | V6(bytes: seq<nat>)

  /** Slicing past the end of the text panics; every other malformed address is rejected. */
  datatype Parsed = Address(ip: Ip, port: nat) | Rejected | Panicked

  /** Ipv4Addr::from(n.to_be()) on a little-endian host. */
  function V4Of(n: nat): Ip {
    V4(n % 256, n / 256 % 256, n / 65536 % 256, n / 16777216 % 256)
  }

  /** The first k two-digit pairs of the text, unreadable ones dropped. */
  function BytePairs(s: string, k: nat): seq<nat>
    requires 2 * k <= |s|
  {
    if k == 0 then []
    else
      var byte := ParseUnsigned(s[2 * (k - 1)..2 * k], 16, U8);
      BytePairs(s, k - 1) + (if byte.Some? then [byte.value] else [])
  }

  function ParseAddress(addr: string, isIpv6: bool): Parsed {
    var parts := Split(addr, ':');
    if |parts| != 2 then Rejected
    else
      var port := ParseUnsigned(parts[1], 16, U16);
      if port.None? then Rejected
      else if isIpv6 then
        if |parts[0]| < 32 then Panicked
        else
          var bytes := BytePairs(parts[0], 16);
          if |bytes| != 16 then Rejected else Address(V6(bytes), port.value)
      else
        var word := ParseUnsigned(parts[0], 16, U32);
        if word.None? then Rejected else Address(V4Of(word.value), port.value)
  }

  // ---- what the kernel prints ----

  predicate AreBytes(s: seq<nat>) {
    forall i :: 0 <= i < |s| ==> s[i] < 256
  }

  /** Four address bytes read as one word by a little-endian host. */
  function Word(b: seq<nat>): nat
    requires |b| == 4
  {
    b[0] + 256 * b[1] + 65536 * b[2] + 16777216 * b[3]
  }

  function WordText(b: seq<nat>): (r: string)
    requires |b| == 4
    ensures |r| == 8
  {
    Hex(Word(b), 8)
  }

  function KernelV4(b: seq<nat>, port: nat): string
    requires |b| == 4
  {
    WordText(b) + [':'] + Hex(port, 4)
  }

  function KernelWords(b: seq<nat>): (r: string)
    requires |b| == 16
    ensures |r| == 32
  {
    WordText(b[0..4]) + WordText(b[4..8]) + WordText(b[8..12]) + WordText(b[12..16])
  }

  function KernelV6(b: seq<nat>, port: nat): string
    requires |b| == 16
  {
    KernelWords(b) + [':'] + Hex(port, 4)
  }

  lemma Powers()
    ensures Pow16(2) == 256 && Pow16(4) == 65536 && Pow16(8) == 4294967296
  {
    assert Pow16(3) == 4096 && Pow16(5) == 1048576 && Pow16(6) == 16777216 && Pow16(7) == 268435456;
  }

  predicate IsHexText(s: string) {
    AllDigits(s, 16)
  }

  lemma HexTextIsClean(s: string)
    requires IsHexText(s)
    ensures ':' !in s && '+' !in s && NoSpace(s)
  {
    forall i | 0 <= i < |s|
      ensures s[i] != ':' && s[i] != '+' && !IsSpace(s[i])
    {
      assert 0 <= DigitValue(s[i]);
    }
  }

  /** The two fields of an address text reach the number parsers unchanged. */
  lemma AddressSplits(left: string, port: nat)
    requires IsHexText(left) && port < 65536
    ensures Split(left + [':'] + Hex(port, 4), ':') == [left, Hex(port, 4)]
    ensures ParseUnsigned(Hex(port, 4), 16, U16) == Some(port)
  {
    Powers();
    HexRoundTrip(port, 4, U16);
    HexReads(port, 4);
    HexTextIsClean(left);
    HexTextIsClean(Hex(port, 4));
    hide Hex;
    SplitFirst(left, ':', Hex(port, 4));
    SplitWhole(Hex(port, 4), ':');
  }

  lemma WordBytes(b: seq<nat>)
    requires |b| == 4 && AreBytes(b)
    ensures Word(b) < 4294967296 && V4Of(Word(b)) == V4(b[0], b[1], b[2], b[3])
  {
    assert b[0] < 256 && b[1] < 256 && b[2] < 256 && b[3] < 256;
    var n := Word(b);
    SecondOctet(n, b[0], b[1], b[2] + 256 * b[3]);
    UpperOctets(n, b[0] + 256 * b[1], b[2], b[3]);
  }

  lemma SecondOctet(n: nat, lo: nat, octet: nat, hi: nat)
    requires lo < 256 && octet < 256 && n == lo + 256 * (octet + 256 * hi)
    ensures n % 256 == lo && n / 256 % 256 == octet
  {
    assert n / 256 == octet + 256 * hi;
  }

  lemma UpperOctets(n: nat, lo: nat, third: nat, fourth: nat)
    requires lo < 65536 && third < 256 && fourth < 256 && n == lo + 65536 * (third + 256 * fourth)
    ensures n / 65536 % 256 == third && n / 16777216 % 256 == fourth
  {
    assert n / 65536 == third + 256 * fourth;
    assert n == (lo + 65536 * third) + 16777216 * fourth;
    assert n / 16777216 == fourth;
  }

  /** Every IPv4 address and port the kernel prints is decoded to itself. */
  lemma V4RoundTrip(b: seq<nat>, port: nat)
    requires |b| == 4 && AreBytes(b) && port < 65536
    ensures ParseAddress(KernelV4(b, port), false) == Address(V4(b[0], b[1], b[2], b[3]), port)
  {
    Powers();
    WordBytes(b);
    HexReads(Word(b), 8);
    HexRoundTrip(Word(b), 8, U32);
    AddressSplits(WordText(b), port);
    hide Hex, V4Of, Word;
  }

  // ---- IPv6 ----

  /** The 16 byte values of 32 hex digits, in the order they are written. */
  function TextBytes(s: string): (r: seq<nat>)
    requires |s| >= 32 && IsHexText(s)
    ensures |r| == 16 && forall k :: 0 <= k < 16 ==> r[k] == 16 * DigitValue(s[2 * k]) + DigitValue(s[2 * k + 1])
  {
    seq(16, k requires 0 <= k < 16 => 16 * DigitValue(s[2 * k]) + DigitValue(s[2 * k + 1]))
  }

  lemma PairReads(s: string)
    requires |s| == 2 && IsHexText(s)
    ensures ParseUnsigned(s, 16, U8) == Some(16 * DigitValue(s[0]) + DigitValue(s[1]))
  {
    HexTextIsClean(s);
    assert s[0] in s;
    assert s[..1] == [s[0]] && s[..1][..0] == "";
    assert Number(s[..1], 16) == DigitValue(s[0]);
  }

  lemma HexPart(s: string, lo: nat, hi: nat)
    requires IsHexText(s) && lo <= hi <= |s|
    ensures IsHexText(s[lo..hi])
  {
  }

  lemma HexConcat(a: string, b: string)
    requires IsHexText(a) && IsHexText(b)
    ensures IsHexText(a + b)
  {
  }

  lemma PairAt(s: string, k: nat)
    requires |s| >= 32 && IsHexText(s) && k < 16
    ensures ParseUnsigned(s[2 * k..2 * k + 2], 16, U8) == Some(TextBytes(s)[k])
  {
    HexPart(s, 2 * k, 2 * k + 2);
    hide DigitValue, ParseUnsigned, IsHexText;
    var pair := s[2 * k..2 * k + 2];
    assert pair[0] == s[2 * k] && pair[1] == s[2 * k + 1];
    PairReads(pair);
  }

  lemma {:induction false} PairsRead(s: string, k: nat)
    requires |s| >= 32 && IsHexText(s) && k <= 16
    ensures BytePairs(s, k) == TextBytes(s)[..k]
  {
    hide ParseUnsigned, TextBytes, IsHexText;
    if k == 0 {
    } else {
      PairsRead(s, k - 1);
      PairAt(s, k - 1);
      assert 2 * (k - 1) + 2 == 2 * k;
      assert TextBytes(s)[..k] == TextBytes(s)[..k - 1] + [TextBytes(s)[k - 1]];
    }
  }

  /** The IPv6 branch returns the byte pairs in text order, for every text of at least 32 hex digits. */
  lemma V6IsTextOrder(s: string, port: nat)
    requires |s| >= 32 && IsHexText(s) && port < 65536
    ensures ParseAddress(s + [':'] + Hex(port, 4), true) == Address(V6(TextBytes(s)), port)
  {
    AddressSplits(s, port);
    PairsRead(s, 16);
    assert TextBytes(s)[..16] == TextBytes(s);
    hide Hex, BytePairs, TextBytes;
  }

  /** Bytes reversed inside each group of four. */
  function WordSwapped(b: seq<nat>): (r: seq<nat>)
    requires |b| == 16
    ensures |r| == 16 && forall k :: 0 <= k < 16 ==> r[k] == b[k - k % 4 + (3 - k % 4)]
  {
    seq(16, k requires 0 <= k < 16 => b[k - k % 4 + (3 - k % 4)])
  }

  lemma {:induction false} HexAppend(q: nat, b: nat, w: nat)
    requires b < 256
    ensures Hex(256 * q + b, w + 2) == Hex(q, w) + Hex(b, 2)
  {
    var n := 256 * q + b;
    assert n / 16 == 16 * q + b / 16 && n % 16 == b % 16;
    assert (n / 16) / 16 == q && (n / 16) % 16 == b / 16;
    assert Hex(n, w + 2) == Hex(n / 16, w + 1) + [HexDigit(n % 16)];
    assert Hex(n / 16, w + 1) == Hex(q, w) + [HexDigit(b / 16)];
    assert Hex(b, 2) == [HexDigit(b / 16), HexDigit(b % 16)] by {
      assert b / 16 < 16 && (b / 16) % 16 == b / 16;
      assert Hex(b / 16, 1) == Hex(b / 16 / 16, 0) + [HexDigit(b / 16 % 16)];
    }
  }

  /** A word prints its bytes most significant first, which is the last address byte first. */
  lemma WordPrintsReversed(b: seq<nat>)
    requires |b| == 4 && AreBytes(b)
    ensures WordText(b) == Hex(b[3], 2) + Hex(b[2], 2) + Hex(b[1], 2) + Hex(b[0], 2)
  {
    hide Hex;
    assert b[0] < 256 && b[1] < 256 && b[2] < 256 && b[3] < 256;
    var q2 := 256 * b[3] + b[2];
    var q1 := 256 * q2 + b[1];
    assert Word(b) == 256 * q1 + b[0];
    HexAppend(q1, b[0], 6);
    HexAppend(q2, b[1], 4);
    HexAppend(b[3], b[2], 2);
  }

  lemma HexPair(b: nat)
    requires b < 256
    ensures IsHexText(Hex(b, 2)) && 16 * DigitValue(Hex(b, 2)[0]) + DigitValue(Hex(b, 2)[1]) == b
  {
    Powers();
    HexReads(b, 2);
    PairReads(Hex(b, 2));
    HexRoundTrip(b, 2, U8);
  }

  /** Value of the pair of digits at position k. */
  function PairValue(s: string, k: nat): int
    requires 2 * k + 1 < |s|
  {
    16 * DigitValue(s[2 * k]) + DigitValue(s[2 * k + 1])
  }

  lemma PairOfConcat(a: string, b: string, k: nat)
    requires |a| % 2 == 0 && 2 * k + 1 < |a + b|
    ensures PairValue(a + b, k) == if 2 * k < |a| then PairValue(a, k) else PairValue(b, k - |a| / 2)
  {
    hide DigitValue;
    if 2 * k >= |a| {
      assert 2 * (k - |a| / 2) == 2 * k - |a|;
    }
  }

  lemma WordIsHex(b: seq<nat>)
    requires |b| == 4 && AreBytes(b)
    ensures IsHexText(WordText(b))
    ensures PairValue(WordText(b), 0) == b[3] && PairValue(WordText(b), 1) == b[2]
    ensures PairValue(WordText(b), 2) == b[1] && PairValue(WordText(b), 3) == b[0]
  {
    WordPrintsReversed(b);
    var p, q, r, t := Hex(b[3], 2), Hex(b[2], 2), Hex(b[1], 2), Hex(b[0], 2);
    HexPair(b[0]);
    HexPair(b[1]);
    HexPair(b[2]);
    HexPair(b[3]);
    HexConcat(p, q);
    HexConcat(p + q, r);
    HexConcat(p + q + r, t);
    assert PairValue(p, 0) == b[3] && PairValue(q, 0) == b[2] && PairValue(r, 0) == b[1] && PairValue(t, 0) == b[0];
    hide Hex, WordText, PairValue, IsHexText;
    FourPairs(p, q, r, t);
  }

  lemma FourPairs(p: string, q: string, r: string, t: string)
    requires |p| == |q| == |r| == |t| == 2
    ensures var s := p + q + r + t;
      PairValue(s, 0) == PairValue(p, 0) && PairValue(s, 1) == PairValue(q, 0)
      && PairValue(s, 2) == PairValue(r, 0) && PairValue(s, 3) == PairValue(t, 0)
  {
    hide DigitValue;
  }

  lemma SwappedAt(b: seq<nat>, w: nat, j: nat)
    requires |b| == 16 && w < 4 && j < 4
    ensures WordSwapped(b)[4 * w + j] == b[4 * w + 3 - j]
  {
    assert (4 * w + j) % 4 == j;
  }

  lemma WordOf(b: seq<nat>, w: nat)
    requires |b| == 16 && AreBytes(b) && w < 4
    ensures var t := WordText(b[4 * w..4 * w + 4]);
      IsHexText(t) && forall j :: 0 <= j < 4 ==> PairValue(t, j) == WordSwapped(b)[4 * w + j]
  {
    var part := b[4 * w..4 * w + 4];
    WordIsHex(part);
    var t, s := WordText(part), WordSwapped(b);
    hide WordText, PairValue, IsHexText, WordSwapped, AreBytes;
    forall j | 0 <= j < 4
      ensures PairValue(t, j) == s[4 * w + j]
    {
      SwappedAt(b, w, j);
      assert part[3 - j] == b[4 * w + 3 - j];
    }
  }

  lemma KernelWordsAreHex(b: seq<nat>)
    requires |b| == 16 && AreBytes(b)
    ensures IsHexText(KernelWords(b)) && TextBytes(KernelWords(b)) == WordSwapped(b)
  {
    hide WordText, PairValue, IsHexText, AreBytes, TextBytes, WordSwapped;
    var p, q, r, t := WordText(b[0..4]), WordText(b[4..8]), WordText(b[8..12]), WordText(b[12..16]);
    WordOf(b, 0);
    WordOf(b, 1);
    WordOf(b, 2);
    WordOf(b, 3);
    HexConcat(p, q);
    HexConcat(p + q, r);
    HexConcat(p + q + r, t);
    var s := KernelWords(b);
    assert s == p + q + r + t;
    forall k | 0 <= k < 16
      ensures PairValue(s, k) == WordSwapped(b)[k]
    {
      PairOfFour(p, q, r, t, k);
    }
    SameBytes(s, WordSwapped(b));
  }

  lemma SameBytes(s: string, b: seq<nat>)
    requires |s| == 32 && IsHexText(s) && |b| == 16
    requires forall k :: 0 <= k < 16 ==> PairValue(s, k) == b[k]
    ensures TextBytes(s) == b
  {
    hide DigitValue;
    forall k | 0 <= k < 16
      ensures TextBytes(s)[k] == b[k]
    {
      assert PairValue(s, k) == b[k];
    }
  }

  lemma PairOfFour(p: string, q: string, r: string, t: string, k: nat)
    requires |p| == |q| == |r| == |t| == 8 && k < 16
    ensures PairValue(p + q + r + t, k)
            == if k < 4 then PairValue(p, k) else if k < 8 then PairValue(q, k - 4)
               else if k < 12 then PairValue(r, k - 8) else PairValue(t, k - 12)
  {
    hide PairValue;
    PairOfConcat(p + q + r, t, k);
    if k < 12 {
      PairOfConcat(p + q, r, k);
    }
    if k < 8 {
      PairOfConcat(p, q, k);
    }
  }

  /** Reading back what the kernel prints for an IPv6 address swaps the bytes of each 32-bit word. */
  lemma V6SwapsWords(b: seq<nat>, port: nat)
    requires |b| == 16 && AreBytes(b) && port < 65536
    ensures ParseAddress(KernelV6(b, port), true) == Address(V6(WordSwapped(b)), port)
  {
    KernelWordsAreHex(b);
    hide WordSwapped, KernelWords, ParseAddress;
    V6IsTextOrder(KernelWords(b), port);
  }

  /** Every 32-bit word reads the same backwards. */
  predicate WordsArePalindromes(b: seq<nat>)
    requires |b| == 16
  {
    forall w :: 0 <= w < 4 ==> b[4 * w] == b[4 * w + 3] && b[4 * w + 1] == b[4 * w + 2]
  }

  lemma SwapFixes(b: seq<nat>)
    requires |b| == 16
    ensures WordSwapped(b) == b <==> WordsArePalindromes(b)
  {
    var s := WordSwapped(b);
    forall w | 0 <= w < 4
      ensures s[4 * w] == b[4 * w + 3] && s[4 * w + 1] == b[4 * w + 2]
      ensures s[4 * w + 2] == b[4 * w + 1] && s[4 * w + 3] == b[4 * w]
    {
      SwappedAt(b, w, 0);
      SwappedAt(b, w, 1);
      SwappedAt(b, w, 2);
      SwappedAt(b, w, 3);
    }
    hide WordSwapped;
    if WordsArePalindromes(b) {
      forall k | 0 <= k < 16
        ensures s[k] == b[k]
      {
        var w := k / 4;
        assert k == 4 * w || k == 4 * w + 1 || k == 4 * w + 2 || k == 4 * w + 3;
        assert b[4 * w] == b[4 * w + 3] && b[4 * w + 1] == b[4 * w + 2];
      }
    }
  }

  /** So the decoded IPv6 address is the right one exactly when every word reads the same backwards. */
  lemma V6RoundTripIff(b: seq<nat>, port: nat)
    requires |b| == 16 && AreBytes(b) && port < 65536
    ensures ParseAddress(KernelV6(b, port), true) == Address(V6(b), port) <==> WordsArePalindromes(b)
  {
    V6SwapsWords(b, port);
    SwapFixes(b);
    hide KernelV6, ParseAddress, WordSwapped, WordsArePalindromes;
  }

  /** The loopback address ::1 is decoded as another address. */
  lemma LoopbackIsMisread(port: nat)
    requires port < 65536
    ensures var one := seq(15, _ => 0) + [1];
      ParseAddress(KernelV6(one, port), true) != Address(V6(one), port)
  {
    var one := seq(15, _ => 0) + [1];
    V6RoundTripIff(one, port);
    assert one[4 * 3] != one[4 * 3 + 3];
  }

  /** Exactly the short IPv6 fields with a good port panic. */
  lemma PanicIff(addr: string, isIpv6: bool)
    ensures ParseAddress(addr, isIpv6).Panicked? <==>
      var parts := Split(addr, ':');
      isIpv6 && |parts| == 2 && ParseUnsigned(parts[1], 16, U16).Some? && |parts[0]| < 32
  {
  }

  // ---- which texts are addresses ----

  /** A hexadecimal number below the limit, with a plus sign or without. */
  predicate IsHexNumber(s: string, limit: nat) {
    var digits := if s != "" && s[0] == '+' then s[1..] else s;
    IsDigits(digits, 16) && Number(digits, 16) < limit
  }

  lemma HexNumberIff(s: string, limit: nat)
    ensures ParseUnsigned(s, 16, limit).Some? <==> IsHexNumber(s, limit)
  {
  }

  function Pair(s: string, k: nat): string
    requires 2 * k + 2 <= |s|
  {
    s[2 * k..2 * k + 2]
  }

  /** The parts of an address text. */
  predicate IsAddressOf(addr: string, left: string, right: string, isIpv6: bool) {
    && addr == left + [':'] + right && ':' !in left && ':' !in right
    && IsHexNumber(right, 0x1_0000)
    && if isIpv6 then |left| >= 32 && forall k :: 0 <= k < 16 ==> IsHexNumber(Pair(left, k), 0x100)
       else IsHexNumber(left, 0x1_0000_0000)
  }

  lemma {:induction false} SplitNeverHolds(s: string, c: char)
    ensures forall p :: p in Split(s, c) ==> c !in p
  {
    if s == "" {
    } else {
      SplitNeverHolds(s[1..], c);
      assert Split(s[1..], c)[0] in Split(s[1..], c);
    }
  }

  lemma {:induction false} SplitJoins(s: string, c: char)
    ensures Join(Split(s, c), [c]) == s
  {
    if s == "" {
    } else {
      SplitJoins(s[1..], c);
      var rest := Split(s[1..], c);
      if s[0] == c {
        assert ([""] + rest)[1..] == rest;
        assert s == "" + [c] + s[1..];
      } else {
        assert ([[s[0]] + rest[0]] + rest[1..])[1..] == rest[1..];
        assert s == [s[0]] + s[1..];
        if |rest| > 1 {
          assert [s[0]] + (rest[0] + [c] + Join(rest[1..], [c])) == [s[0]] + rest[0] + [c] + Join(rest[1..], [c]);
        }
      }
    }
  }

  lemma TwoParts(addr: string)
    requires |Split(addr, ':')| == 2
    ensures var parts := Split(addr, ':');
      addr == parts[0] + [':'] + parts[1] && ':' !in parts[0] && ':' !in parts[1]
  {
    SplitNeverHolds(addr, ':');
    SplitJoins(addr, ':');
    var parts := Split(addr, ':');
    hide Split;
    assert parts[0] in parts && parts[1] in parts;
    assert parts[1..] == [parts[1]];
  }

  lemma PartsAre(left: string, right: string)
    requires ':' !in left && ':' !in right
    ensures Split(left + [':'] + right, ':') == [left, right]
  {
    SplitFirst(left, ':', right);
    SplitWhole(right, ':');
    hide Split;
  }

  lemma LastPair(s: string, k: nat)
    requires 0 < k && 2 * k <= |s|
    ensures |BytePairs(s, k)| == |BytePairs(s, k - 1)| + if IsHexNumber(Pair(s, k - 1), U8) then 1 else 0
  {
    HexNumberIff(Pair(s, k - 1), U8);
    assert s[2 * (k - 1)..2 * k] == Pair(s, k - 1);
    hide ParseUnsigned, IsHexNumber, Pair;
  }

  predicate AllPairs(s: string, k: nat)
    requires 2 * k <= |s|
  {
    forall j :: 0 <= j < k ==> IsHexNumber(Pair(s, j), U8)
  }

  lemma AllButLast(s: string, k: nat)
    requires 0 < k && 2 * k <= |s|
    ensures AllPairs(s, k) <==> AllPairs(s, k - 1) && IsHexNumber(Pair(s, k - 1), U8)
  {
    hide IsHexNumber, Pair;
  }

  lemma NoPairs(s: string)
    ensures |BytePairs(s, 0)| == 0 && AllPairs(s, 0)
  {
  }

  lemma {:induction false} PairsComplete(s: string, k: nat)
    requires 2 * k <= |s|
    ensures |BytePairs(s, k)| <= k && (|BytePairs(s, k)| == k <==> AllPairs(s, k))
  {
    hide *;
    if k == 0 {
      NoPairs(s);
    } else {
      PairsComplete(s, k - 1);
      LastPair(s, k);
      AllButLast(s, k);
    }
  }

  ghost predicate IsAddressText(addr: string, isIpv6: bool) {
    exists left, right :: IsAddressOf(addr, left, right, isIpv6)
  }

  /**
   * Exactly these texts are addresses: two parts around one colon, the right one a 16-bit port, the left one a 32-bit
   * number for IPv4 and, for IPv6, at least 32 characters of which the first 16 pairs are bytes.
   */
  lemma AddressIff(addr: string, isIpv6: bool)
    ensures ParseAddress(addr, isIpv6).Address? <==> IsAddressText(addr, isIpv6)
  {
    hide IsAddressOf, ParseAddress;
    if left, right :| IsAddressOf(addr, left, right, isIpv6) {
      NoColons(addr, left, right, isIpv6);
      PartsAre(left, right);
      PartsAccepted(addr, left, right, isIpv6);
    }
    if ParseAddress(addr, isIpv6).Address? {
      var parts := Split(addr, ':');
      OnlyTwoParts(addr, isIpv6);
      TwoParts(addr);
      PartsAccepted(addr, parts[0], parts[1], isIpv6);
    }
  }

  lemma NoColons(addr: string, left: string, right: string, isIpv6: bool)
    requires IsAddressOf(addr, left, right, isIpv6)
    ensures addr == left + [':'] + right && ':' !in left && ':' !in right
  {
  }

  lemma OnlyTwoParts(addr: string, isIpv6: bool)
    requires ParseAddress(addr, isIpv6).Address?
    ensures |Split(addr, ':')| == 2
  {
  }

  lemma PartsAccepted(addr: string, left: string, right: string, isIpv6: bool)
    requires Split(addr, ':') == [left, right] && ':' !in left && ':' !in right && addr == left + [':'] + right
    ensures ParseAddress(addr, isIpv6).Address? <==> IsAddressOf(addr, left, right, isIpv6)
  {
    HexNumberIff(right, U16);
    HexNumberIff(left, U32);
    if |left| >= 32 {
      PairsComplete(left, 16);
    }
    hide Split, ParseUnsigned, IsHexNumber, V4Of, BytePairs;
  }

  /** An IPv4 address is the little-endian word of its number, however many digits it has. */
  lemma V4Reads(left: string, right: string, b: seq<nat>, port: nat)
    requires |b| == 4 && AreBytes(b) && ':' !in left && ':' !in right
    requires ParseUnsigned(left, 16, 0x1_0000_0000) == Some(Word(b)) && ParseUnsigned(right, 16, 0x1_0000) == Some(port)
    ensures ParseAddress(left + [':'] + right, false) == Address(V4(b[0], b[1], b[2], b[3]), port)
  {
    PartsAre(left, right);
    WordBytes(b);
    hide Split, ParseUnsigned, V4Of, Word;
  }
}
