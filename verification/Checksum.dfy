/** The Internet checksum of ping/in_cksum.c, against the definition in RFC 1071. */
module Checksum {
  import opened Bytes

  /** How the host lays out a 16-bit word in memory. */
  datatype Endian = Little | Big

  const UINT32: nat := 0x1_0000_0000

  /** What a uint32_t keeps of a number. */
  function Wrap32(n: nat): nat {
    n % 0x1_0000_0000
  }

  /** Largest buffer, in bytes, whose word sum always fits the 32-bit accumulator: 65537 words. */
  const SAFELEN: nat := 131074

  type Word = w: int | 0 <= w < 0x1_0000

  function HostWord(e: Endian, first: Byte, second: Byte): Word {
    if e.Little? then first + 0x100 * second else 0x100 * first + second
  }

  function FirstByte(e: Endian, w: Word): Byte {
    if e.Little? then w % 0x100 else w / 0x100
  }

  function SecondByte(e: Endian, w: Word): Byte {
    if e.Little? then w / 0x100 else w % 0x100
  }

  function Swap(w: Word): Word {
    0x100 * (w % 0x100) + w / 0x100
  }

  /** The 16-bit words of a byte string; an odd trailing byte is padded with a zero byte. */
  function Words(e: Endian, s: seq<Byte>): seq<Word> {
    if |s| == 0 then []
    else if |s| == 1 then [HostWord(e, s[0], 0)]
    else [HostWord(e, s[0], s[1])] + Words(e, s[2..])
  }

  function Sum(ws: seq<Word>): nat {
    if ws == [] then 0 else ws[0] + Sum(ws[1..])
  }

  function WordSum(e: Endian, s: seq<Byte>): nat {
    Sum(Words(e, s))
  }

  /** The residue modulo 65535 that keeps zero for zero only. */
  function Residue(n: nat): Word {
    if n == 0 then 0 else 1 + (n - 1) % 0xffff
  }

  /** RFC 1071, section 1: one's-complement addition, the carry added back in. */
  function OnesAdd(a: Word, b: Word): Word {
    if a + b > 0xffff then a + b - 0xffff else a + b
  }

  function OnesSum(ws: seq<Word>): Word {
    if ws == [] then 0 else OnesAdd(ws[0], OnesSum(ws[1..]))
  }

  /** The Internet checksum as the standard defines it. */
  function OnesChecksum(e: Endian, s: seq<Byte>): Word {
    0xffff - OnesSum(Words(e, s))
  }

  /** The value that the 32-bit code computes: the same residue, but of the wrapped sum. */
  function Cksum(e: Endian, s: seq<Byte>): Word {
    0xffff - Residue(Wrap32(WordSum(e, s)))
  }

  // ---------------------------------------------------------------- the code

  /** in_cksum up to line 24: `off` is where `addr` points and `w` how far behind it the code's pointer
      is; `sum` is a uint32_t. */
  method Accumulate(e: Endian, buf: array<Byte>, off: nat, len: int) returns (sum: nat)
    requires off <= buf.Length && off + len <= buf.Length
    ensures sum == Wrap32(WordSum(e, buf[off..off + if len < 0 then 0 else len]))
  {
    ghost var s := buf[off..off + if len < 0 then 0 else len];
    ghost var exact: nat := 0;   // the sum without wrap-around
    StartSum(e, s);
    var nleft, w := len, 0;
    sum := 0;
    while nleft > 1
      invariant 0 <= w <= |s| && nleft == len - w
      invariant Summed(e, s, w, exact, sum)
    {
      exact := NextWord(e, s, w, exact, sum);
      sum := Wrap32(sum + HostWord(e, buf[off + w], buf[off + w + 1]));
      w := w + 2;
      nleft := nleft - 2;
    }
    LastWord(e, s, w, exact, sum);
    if nleft == 1 {
      var answer := HostWord(e, buf[off + w], 0);
      sum := Wrap32(sum + answer);
    }
  }

  /** The first `at` bytes are summed: exactly in `exact`, modulo 2^32 in `sum`. */
  ghost predicate Summed(e: Endian, s: seq<Byte>, at: nat, exact: nat, sum: nat)
    requires at <= |s|
  {
    exact + WordSum(e, s[at..]) == WordSum(e, s) && sum == Wrap32(exact)
  }

  lemma StartSum(e: Endian, s: seq<Byte>)
    ensures Summed(e, s, 0, 0, 0)
  {
    assert s[0..] == s;
  }

  lemma NextWord(e: Endian, s: seq<Byte>, at: nat, exact: nat, sum: nat) returns (more: nat)
    requires at + 2 <= |s| && Summed(e, s, at, exact, sum)
    ensures Summed(e, s, at + 2, more, Wrap32(sum + HostWord(e, s[at], s[at + 1])))
  {
    more := exact + HostWord(e, s[at], s[at + 1]);
    WrapAdd(exact, HostWord(e, s[at], s[at + 1]));
    assert s[at..][2..] == s[at + 2..];
  }

  lemma LastWord(e: Endian, s: seq<Byte>, at: nat, exact: nat, sum: nat)
    requires |s| - 1 <= at <= |s| && Summed(e, s, at, exact, sum)
    ensures at == |s| ==> sum == Wrap32(WordSum(e, s))
    ensures at < |s| ==> Wrap32(sum + HostWord(e, s[at], 0)) == Wrap32(WordSum(e, s))
  {
    if at < |s| {
      OneByteSum(e, s[at..]);
      WrapAdd(exact, HostWord(e, s[at], 0));
    } else {
      assert s[at..] == [];
    }
  }

  lemma WrapAdd(exact: nat, w: Word)
    ensures Wrap32(Wrap32(exact) + w) == Wrap32(exact + w)
  {
  }

  /** in_cksum: the sum is folded twice, and the complement cut to the uint16_t `answer`. */
  method InCksum(e: Endian, buf: array<Byte>, off: nat, len: int) returns (answer: Word)
    requires off <= buf.Length && off + len <= buf.Length
    ensures answer == Cksum(e, buf[off..off + if len < 0 then 0 else len])
  {
    var sum := Accumulate(e, buf, off, len);
    TwoFolds(sum);
    sum := sum / 0x1_0000 + sum % 0x1_0000;
    sum := sum + sum / 0x1_0000;
    answer := 0xffff - sum % 0x1_0000;
  }

  lemma OneByteSum(e: Endian, s: seq<Byte>)
    requires |s| == 1
    ensures WordSum(e, s) == HostWord(e, s[0], 0)
  {
    var ws := Words(e, s);
    assert ws == [HostWord(e, s[0], 0)] && ws[1..] == [];
    assert Sum(ws) == ws[0] + Sum(ws[1..]);
  }

  /** Two folds of any 32-bit sum, the second cut to 16 bits, give the residue. */
  lemma TwoFolds(sum: nat)
    requires sum < UINT32
    ensures var once := sum / 0x1_0000 + sum % 0x1_0000;
            (once + once / 0x1_0000) % 0x1_0000 == Residue(sum)
  {
    var hi, lo := sum / 0x1_0000, sum % 0x1_0000;
    var once := hi + lo;
    assert sum == once + 0xffff * hi;
    if sum > 0 {
      ModShift(once - 1, hi);
    }
  }

  /** The second fold is not idle: one fold is right only for sums whose halves add up without carry. */
  lemma OneFoldRightIffNoCarry(sum: nat)
    requires sum < UINT32
    ensures var once := sum / 0x1_0000 + sum % 0x1_0000;
            once % 0x1_0000 == Residue(sum) <==> once < 0x1_0000
  {
    TwoFolds(sum);
  }

  lemma {:induction false} ModShift(a: int, k: nat)
    ensures (a + 0xffff * k) % 0xffff == a % 0xffff
  {
    if k == 0 {
    } else {
      ModShift(a, k - 1);
      assert a + 0xffff * k == (a + 0xffff * (k - 1)) + 0xffff;
    }
  }

  /** Numbers that differ by a multiple of 65535 and agree on being zero have one residue. */
  lemma SameResidue(m: nat, n: nat, k: int)
    requires m == n + 0xffff * k && (m == 0 <==> n == 0)
    ensures Residue(m) == Residue(n)
  {
    if m > 0 {
      if k >= 0 {
        ModShift(n - 1, k);
      } else {
        ModShift(m - 1, -k);
      }
    }
  }

  // ------------------------------------- the code against the standard

  /** Folding carries at the end, as the code does, gives RFC 1071's one's-complement sum. */
  lemma {:induction false} ResidueIsOnesSum(ws: seq<Word>)
    ensures Residue(Sum(ws)) == OnesSum(ws)
  {
    if ws == [] {
    } else {
      ResidueIsOnesSum(ws[1..]);
      var a, n := ws[0], Sum(ws[1..]);
      if n > 0 {
        var q := (n - 1) / 0xffff;
        assert a + n == (a + Residue(n)) + 0xffff * q;
        SameResidue(a + n, a + Residue(n), q);
      }
    }
  }

  lemma {:induction false} SumBound(e: Endian, s: seq<Byte>)
    ensures 2 * WordSum(e, s) <= 0xffff * (|s| + 1)
    ensures |s| % 2 == 0 ==> 2 * WordSum(e, s) <= 0xffff * |s|
  {
    if |s| == 1 {
      OneByteSum(e, s);
    } else if |s| > 1 {
      SumBound(e, s[2..]);
    }
  }

  lemma NoWrap(e: Endian, s: seq<Byte>)
    requires |s| <= SAFELEN
    ensures WordSum(e, s) < UINT32 && Cksum(e, s) == 0xffff - Residue(WordSum(e, s))
  {
    SumBound(e, s);
    assert 2 * WordSum(e, s) <= 0xffff * SAFELEN;
  }

  /** On every buffer that cannot wrap the accumulator the code computes the RFC checksum. */
  lemma CksumIsOnesChecksum(e: Endian, s: seq<Byte>)
    requires |s| <= SAFELEN
    ensures Cksum(e, s) == OnesChecksum(e, s)
  {
    NoWrap(e, s);
    ResidueIsOnesSum(Words(e, s));
  }

  /** `len` is a C int: up to its range, the result is right exactly when the sum did not wrap. */
  lemma CksumRightIffNoWrap(e: Endian, s: seq<Byte>)
    requires |s| < 0x8000_0000
    ensures Cksum(e, s) == OnesChecksum(e, s) <==> WordSum(e, s) < UINT32
  {
    SumBound(e, s);
    ResidueIsOnesSum(Words(e, s));
    var n := WordSum(e, s);
    var k, r := n / 0x1_0000_0000, Wrap32(n);
    if k > 0 {
      // 2^32 is one more than a multiple of 65535, so each wrap loses one unit
      assert n == (r + k) + 0xffff * (0x1_0001 * k);
      SameResidue(n, r + k, 0x1_0001 * k);
      ResidueMoves(r, k);
    }
  }

  lemma ResidueMoves(r: nat, k: nat)
    requires 0 < k < 0xffff
    ensures Residue(r) != Residue(r + k)
  {
    if r == 0 {
      return;
    }
    var q, m := (r - 1) / 0xffff, (r - 1) % 0xffff;
    if m + k < 0xffff {
      ModShift(m + k, q);
    } else {
      ModShift(m + k - 0xffff, q + 1);
    }
  }

  /** The bound is the largest: at every greater length some buffer gets a wrong checksum. */
  lemma SafeLengthIsLargest(e: Endian, len: nat)
    requires SAFELEN < len < 0x8000_0000
    ensures exists s: seq<Byte> :: |s| == len && Cksum(e, s) != OnesChecksum(e, s)
  {
    var s: seq<Byte> := seq(len, _ => 0xff);
    OnesSumOfAllOnes(e, s);
    CksumRightIffNoWrap(e, s);
  }

  lemma {:induction false} OnesSumOfAllOnes(e: Endian, s: seq<Byte>)
    requires forall i :: 0 <= i < |s| ==> s[i] == 0xff
    ensures WordSum(e, s) >= 0xffff * (|s| / 2) + if |s| % 2 == 1 then 0xff else 0
  {
    if |s| == 1 {
      OneByteSum(e, s);
    } else if |s| > 1 {
      OnesSumOfAllOnes(e, s[2..]);
    }
  }

  // ------------------------- byte-order and order independence (RFC 1071, section 2)

  /** The two byte orders sum to numbers related by a factor 256 modulo 65535. */
  lemma {:induction false} SwappedSums(s: seq<Byte>) returns (k: nat)
    ensures 0x100 * WordSum(Big, s) == WordSum(Little, s) + 0xffff * k
    ensures WordSum(Big, s) == 0 <==> WordSum(Little, s) == 0
  {
    if |s| == 0 {
      k := 0;
    } else if |s| == 1 {
      OneByteSum(Big, s);
      OneByteSum(Little, s);
      k := s[0];
    } else {
      k := SwappedSums(s[2..]);
      k := k + s[0];
    }
  }

  lemma SwapIsResidue(n: nat)
    ensures Residue(0x100 * n) == Swap(Residue(n))
  {
    if n > 0 {
      var r, q := Residue(n), (n - 1) / 0xffff;
      assert 0x100 * n == Swap(r) + 0xffff * (r / 0x100 + 0x100 * q);
      SameResidue(0x100 * n, Swap(r), r / 0x100 + 0x100 * q);
    }
  }

  /** Computed in the other byte order, the checksum is the byte swap, odd trailing byte included: always
      that of the standard, and that of the code up to the length at which it cannot wrap. */
  lemma ByteOrderIndependent(s: seq<Byte>)
    ensures OnesChecksum(Little, s) == Swap(OnesChecksum(Big, s))
    ensures |s| <= SAFELEN ==> Cksum(Little, s) == Swap(Cksum(Big, s))
  {
    if |s| <= SAFELEN {
      CksumIsOnesChecksum(Little, s);
      CksumIsOnesChecksum(Big, s);
    }
    var k := SwappedSums(s);
    ResidueIsOnesSum(Words(Little, s));
    ResidueIsOnesSum(Words(Big, s));
    SameResidue(0x100 * WordSum(Big, s), WordSum(Little, s), k);
    SwapIsResidue(WordSum(Big, s));
    SwapComplement(OnesSum(Words(Big, s)));
  }

  /** How often the accumulator wraps, and what is left in it. */
  function Wraps(e: Endian, s: seq<Byte>): nat {
    WordSum(e, s) / UINT32
  }

  function Left(e: Endian, s: seq<Byte>): nat {
    Wrap32(WordSum(e, s))
  }

  lemma ResiduesAgreeIff(m: nat, n: nat)
    ensures Residue(m) == Residue(n) <==> (m - n) % 0xffff == 0 && (m == 0 <==> n == 0)
  {
    if (m - n) % 0xffff == 0 && (m == 0 <==> n == 0) {
      SameResidue(m, n, (m - n) / 0xffff);
    }
  }

  /** At any length the code's results in the two byte orders are swaps of each other exactly when the
      numbers of wraps are (modulo 65535), and the accumulator is left at 0 in both orders or in neither. */
  lemma CodeByteOrderIff(s: seq<Byte>)
    ensures Cksum(Little, s) == Swap(Cksum(Big, s))
            <==> ((Wraps(Little, s) - 0x100 * Wraps(Big, s)) % 0xffff == 0
                  && (Left(Little, s) == 0 <==> Left(Big, s) == 0))
  {
    var k := SwappedSums(s);
    var little: int, big: int := Left(Little, s), Left(Big, s);
    var moved: int := 0x100 * Wraps(Big, s) - Wraps(Little, s);
    SwapIsResidue(big);
    SwapComplement(Residue(big));
    ResiduesAgreeIff(little, 0x100 * big);
    assert WordSum(Little, s) == UINT32 * Wraps(Little, s) + little && WordSum(Big, s) == UINT32 * Wraps(Big, s) + big;
    assert little - 0x100 * big == moved + 0xffff * (0x1_0001 * moved - k);
    ShiftMod(moved, 0x1_0001 * moved - k);
    NegatedMod(moved);
  }

  lemma ShiftMod(a: int, k: int)
    ensures (a + 0xffff * k) % 0xffff == a % 0xffff
  {
    if k >= 0 {
      ModShift(a, k);
    } else {
      ModShift(a + 0xffff * k, -k);
    }
  }

  lemma NegatedMod(a: int)
    ensures a % 0xffff == 0 <==> -a % 0xffff == 0
  {
  }

  lemma SwapComplement(w: Word)
    ensures Swap(0xffff - w) == 0xffff - Swap(w)
  {
    var hi, lo := w / 0x100, w % 0x100;
    assert 0xffff - w == 0x100 * (0xff - hi) + (0xff - lo);
  }

  /** The order of the words does not matter, whatever the length: not even the wrap depends on it. */
  lemma OrderIndependent(e: Endian, s: seq<Byte>, t: seq<Byte>)
    requires multiset(Words(e, s)) == multiset(Words(e, t))
    ensures Cksum(e, s) == Cksum(e, t) && OnesChecksum(e, s) == OnesChecksum(e, t)
  {
    PermutedSum(Words(e, s), Words(e, t));
    ResidueIsOnesSum(Words(e, s));
    ResidueIsOnesSum(Words(e, t));
  }

  lemma {:induction false} PermutedSum(ws: seq<Word>, vs: seq<Word>)
    requires multiset(ws) == multiset(vs)
    ensures Sum(ws) == Sum(vs)
  {
    assert |ws| == |multiset(ws)| == |multiset(vs)| == |vs|;
    if ws == [] {
    } else {
      var i := Position(vs, ws[0]);
      MultisetWithout(ws, 0);
      MultisetWithout(vs, i);
      SumWithout(ws, 0);
      SumWithout(vs, i);
      PermutedSum(ws[..0] + ws[1..], vs[..i] + vs[i + 1..]);
    }
  }

  lemma Position(ws: seq<Word>, w: Word) returns (i: nat)
    requires w in multiset(ws)
    ensures i < |ws| && ws[i] == w
  {
    i :| 0 <= i < |ws| && ws[i] == w;
  }

  lemma MultisetWithout(ws: seq<Word>, i: nat)
    requires i < |ws|
    ensures multiset(ws[..i] + ws[i + 1..]) == multiset(ws) - multiset{ws[i]}
  {
    assert ws == ws[..i] + [ws[i]] + ws[i + 1..];
  }

  lemma SumWithout(ws: seq<Word>, i: nat)
    requires i < |ws|
    ensures Sum(ws) == ws[i] + Sum(ws[..i] + ws[i + 1..])
  {
    SumConcat(ws[..i], ws[i + 1..]);
    SumConcat(ws[..i], ws[i..]);
    assert ws == ws[..i] + ws[i..] && ws[i..][1..] == ws[i + 1..];
  }

  lemma {:induction false} SumConcat(ws: seq<Word>, vs: seq<Word>)
    ensures Sum(ws + vs) == Sum(ws) + Sum(vs)
  {
    if ws == [] {
      assert ws + vs == vs;
    } else {
      SumConcat(ws[1..], vs);
      assert (ws + vs)[1..] == ws[1..] + vs;
    }
  }

  lemma {:induction false} WordSumConcat(e: Endian, s: seq<Byte>, t: seq<Byte>)
    requires |s| % 2 == 0
    ensures WordSum(e, s + t) == WordSum(e, s) + WordSum(e, t)
  {
    if |s| == 0 {
      assert s + t == t;
    } else {
      WordSumConcat(e, s[2..], t);
      assert (s + t)[2..] == s[2..] + t;
    }
  }

  // -------------------------------------------------- storing a checksum in place

  /** A 16-bit store at an offset, in the host's byte order. */
  function StoreWord(e: Endian, s: seq<Byte>, at: nat, w: Word): seq<Byte>
    requires at + 2 <= |s|
  {
    s[at := FirstByte(e, w)][at + 1 := SecondByte(e, w)]
  }

  lemma StoredWordSum(e: Endian, s: seq<Byte>, at: nat, w: Word)
    requires at % 2 == 0 && at + 2 <= |s| && s[at] == 0 && s[at + 1] == 0
    ensures WordSum(e, StoreWord(e, s, at, w)) == WordSum(e, s) + w
  {
    var t := StoreWord(e, s, at, w);
    assert s == s[..at] + s[at..] && t == s[..at] + t[at..];
    WordSumConcat(e, s[..at], s[at..]);
    WordSumConcat(e, s[..at], t[at..]);
    assert t[at..][2..] == s[at..][2..];
  }

  /** One word replaced: the sum changes by the difference. */
  lemma {:induction false} ReplacedWordSum(e: Endian, s: seq<Byte>, at: nat, a: Byte, b: Byte)
    requires at % 2 == 0 && at + 2 <= |s|
    ensures WordSum(e, s[at := a][at + 1 := b]) + HostWord(e, s[at], s[at + 1]) == WordSum(e, s) + HostWord(e, a, b)
  {
    var t := s[at := a][at + 1 := b];
    if at == 0 {
      assert t[2..] == s[2..];
    } else {
      assert t[2..] == s[2..][at - 2 := a][at - 1 := b];
      ReplacedWordSum(e, s[2..], at - 2, a, b);
    }
  }

  lemma NotAllZero(e: Endian, s: seq<Byte>)
    requires s != [] && s[0] != 0
    ensures WordSum(e, s) > 0
  {
  }

  /** Replacing a word leaves the one's-complement sum as it is only by the same word or the other zero. */
  lemma ReplacedWordIff(e: Endian, s: seq<Byte>, at: nat, a: Byte, b: Byte)
    requires at % 2 == 0 && at + 2 <= |s| && s[0] != 0 && s[at := a][at + 1 := b][0] != 0
    ensures var t, w, w' := s[at := a][at + 1 := b], HostWord(e, s[at], s[at + 1]), HostWord(e, a, b);
            OnesSum(Words(e, t)) == OnesSum(Words(e, s))
            <==> w == w' || (w == 0 && w' == 0xffff) || (w == 0xffff && w' == 0)
  {
    var t := s[at := a][at + 1 := b];
    ReplacedWordSum(e, s, at, a, b);
    NotAllZero(e, s);
    NotAllZero(e, t);
    ResidueIsOnesSum(Words(e, s));
    ResidueIsOnesSum(Words(e, t));
    ResidueOfReplaced(WordSum(e, t), WordSum(e, s), HostWord(e, s[at], s[at + 1]), HostWord(e, a, b));
  }

  lemma ResidueOfReplaced(m: nat, n: nat, w: Word, w': Word)
    requires m + w == n + w' && m > 0 && n > 0
    ensures Residue(m) == Residue(n) <==> w == w' || (w == 0 && w' == 0xffff) || (w == 0xffff && w' == 0)
  {
    ResiduesAgreeIff(m, n);
  }

  lemma ChecksumCompletesSum(n: nat, w: Word)
    requires w == 0xffff - Residue(n) || (w == 0xffff == Residue(n))
    ensures Residue(n + w) == 0xffff
  {
    var q := if n == 0 then 0 else (n - 1) / 0xffff;
    if w == 0xffff == Residue(n) {
      SameResidue(n + w, 0xffff, q + 1);
    } else {
      SameResidue(n + w, 0xffff, q);
    }
  }

  /** A checksum stored over a zero field makes the whole sum to zero, on a receiver of either byte order. */
  lemma StoredChecksumVerifies(e: Endian, s: seq<Byte>, at: nat, w: Word, receiver: Endian)
    requires at % 2 == 0 && at + 2 <= |s| <= SAFELEN && s[at] == 0 && s[at + 1] == 0
    requires w == Cksum(e, s) || (Cksum(e, s) == 0 && w == 0xffff)
    ensures Cksum(receiver, StoreWord(e, s, at, w)) == 0
  {
    var t := StoreWord(e, s, at, w);
    StoredWordSum(e, s, at, w);
    NoWrap(e, s);
    NoWrap(e, t);
    ChecksumCompletesSum(WordSum(e, s), w);
    VerifiesOnEitherOrder(e, t, receiver);
  }

  lemma VerifiesOnEitherOrder(e: Endian, s: seq<Byte>, receiver: Endian)
    requires |s| <= SAFELEN
    ensures Cksum(e, s) == 0 <==> Cksum(receiver, s) == 0
  {
    CksumIsOnesChecksum(e, s);
    CksumIsOnesChecksum(receiver, s);
    ByteOrderIndependent(s);
  }
}
