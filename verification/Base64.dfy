/** The base64 codec of src/b64.c and the block loops around it in src/print.c, on 8-bit bytes. */
module Base64 {

  /** The encoding table `cb64`: A-Z, a-z, 0-9, '+' and '/'. */
  function Symbol(v: bv8): (c: bv8)
    requires v < 64
  {
    if v < 26 then v + 65 else if v < 52 then v + 71 else if v < 62 then v - 4 else if v == 62 then 43 else 47
  }

  const PAD: bv8 := 61
  const OUTSIDE: bv8 := 36

  /** The decoding table `cd64` for the characters 43 to 122: the index of a symbol plus 62, and '$'
      (OUTSIDE) for a character that is no symbol. */
  function Entry(c: bv8): bv8 {
    if c == 43 then 124
    else if c == 47 then 125
    else if 48 <= c <= 57 then c + 66
    else if 65 <= c <= 90 then c - 3
    else if 97 <= c <= 122 then c - 9
    else OUTSIDE
  }

  lemma EntryOfSymbol(v: bv8)
    requires v < 64
    ensures 43 <= Symbol(v) <= 122 && Entry(Symbol(v)) != OUTSIDE && Entry(Symbol(v)) - 62 == v
  {
  }

  /** The alphabet in order: A to Z (65 to 90), a to z (97 to 122), 0 to 9 (48 to 57), + (43) and / (47). */
  lemma Alphabet()
    ensures Symbol(0) == 65 && Symbol(1) == 66 && Symbol(2) == 67 && Symbol(3) == 68
    ensures Symbol(4) == 69 && Symbol(5) == 70 && Symbol(6) == 71 && Symbol(7) == 72
    ensures Symbol(8) == 73 && Symbol(9) == 74 && Symbol(10) == 75 && Symbol(11) == 76
    ensures Symbol(12) == 77 && Symbol(13) == 78 && Symbol(14) == 79 && Symbol(15) == 80
    ensures Symbol(16) == 81 && Symbol(17) == 82 && Symbol(18) == 83 && Symbol(19) == 84
    ensures Symbol(20) == 85 && Symbol(21) == 86 && Symbol(22) == 87 && Symbol(23) == 88
    ensures Symbol(24) == 89 && Symbol(25) == 90 && Symbol(26) == 97 && Symbol(27) == 98
    ensures Symbol(28) == 99 && Symbol(29) == 100 && Symbol(30) == 101 && Symbol(31) == 102
    ensures Symbol(32) == 103 && Symbol(33) == 104 && Symbol(34) == 105 && Symbol(35) == 106
    ensures Symbol(36) == 107 && Symbol(37) == 108 && Symbol(38) == 109 && Symbol(39) == 110
    ensures Symbol(40) == 111 && Symbol(41) == 112 && Symbol(42) == 113 && Symbol(43) == 114
    ensures Symbol(44) == 115 && Symbol(45) == 116 && Symbol(46) == 117 && Symbol(47) == 118
    ensures Symbol(48) == 119 && Symbol(49) == 120 && Symbol(50) == 121 && Symbol(51) == 122
    ensures Symbol(52) == 48 && Symbol(53) == 49 && Symbol(54) == 50 && Symbol(55) == 51
    ensures Symbol(56) == 52 && Symbol(57) == 53 && Symbol(58) == 54 && Symbol(59) == 55
    ensures Symbol(60) == 56 && Symbol(61) == 57 && Symbol(62) == 43 && Symbol(63) == 47
  {
  }

  /** The four 6-bit groups of three bytes. */
  function Group0(b0: bv8): (v: bv8)
    ensures v < 64
  {
    b0 >> 2
  }

  function Group1(b0: bv8, b1: bv8): (v: bv8)
    ensures v < 64
  {
    ((b0 & 0x03) << 4) | ((b1 & 0xf0) >> 4)
  }

  function Group2(b1: bv8, b2: bv8): (v: bv8)
    ensures v < 64
  {
    ((b1 & 0x0f) << 2) | ((b2 & 0xc0) >> 6)
  }

  function Group3(b2: bv8): (v: bv8)
    ensures v < 64
  {
    b2 & 0x3f
  }

  /** The four characters that `base64_encodeblock` makes of three bytes, of which `len` belong to
      the data. */
  function EncodeBlock(b0: bv8, b1: bv8, b2: bv8, len: nat): (s: seq<bv8>)
    ensures |s| == 4
  {
    [Symbol(Group0(b0)),
     Symbol(Group1(b0, b1)),
     if len > 1 then Symbol(Group2(b1, b2)) else PAD,
     if len > 2 then Symbol(Group3(b2)) else PAD]
  }

  /** A group as the block number makes it: the 6 bits of a 24-bit number from bit k on. */
  function SixBits(n: bv32, k: nat): (v: bv8)
    requires k <= 24
    ensures v < 64
  {
    ((n >> k) & 0x3f) as bv8
  }

  /** The characters of a block are the digits in base 64 of the 24-bit number that its bytes are, the highest one
      first; '=' (61) stands for the digits of which no bit belongs to the data. */
  lemma EncodedBlockIs(b0: bv8, b1: bv8, b2: bv8, len: nat)
    ensures var n, s := ((b0 as bv32) << 16) | ((b1 as bv32) << 8) | (b2 as bv32), EncodeBlock(b0, b1, b2, len);
            && s[0] == Symbol(SixBits(n, 18)) && s[1] == Symbol(SixBits(n, 12))
            && s[2] == (if len > 1 then Symbol(SixBits(n, 6)) else 61)
            && s[3] == (if len > 2 then Symbol(SixBits(n, 0)) else 61)
  {
    GroupsAreDigits(b0, b1, b2);
  }

  lemma GroupsAreDigits(b0: bv8, b1: bv8, b2: bv8)
    ensures var n := ((b0 as bv32) << 16) | ((b1 as bv32) << 8) | (b2 as bv32);
            && Group0(b0) == SixBits(n, 18) && Group1(b0, b1) == SixBits(n, 12)
            && Group2(b1, b2) == SixBits(n, 6) && Group3(b2) == SixBits(n, 0)
  {
  }

  /** How far `base64_decodeblock` gets with a block: stopped by a character out of range (-1), or by
      the first character that is no symbol, or not at all (4). */
  function Stop(s: seq<bv8>, i: nat): int
    requires |s| == 4 && i <= 4
    decreases 4 - i
  {
    if i == 4 then 4
    else if s[i] < 43 || s[i] > 122 then -1
    else if Entry(s[i]) == OUTSIDE then i
    else Stop(s, i + 1)
  }

  /** The result of `base64_decodeblock` as an unsigned char: the number of bytes, where stopping at
      the very first character yields 255. */
  function BlockLength(stop: int): int
    requires 0 <= stop <= 4
  {
    if stop == 4 then 3 else (stop - 1) % 256
  }

  /** The value of a symbol. */
  function Value(c: bv8): bv8 {
    Entry(c) - 62
  }

  /** The three bytes that four 6-bit groups make up. */
  function Byte0(v0: bv8, v1: bv8): bv8 {
    (v0 << 2) | (v1 >> 4)
  }

  function Byte1(v1: bv8, v2: bv8): bv8 {
    (v1 << 4) | (v2 >> 2)
  }

  function Byte2(v2: bv8, v3: bv8): bv8 {
    ((v2 << 6) & 0xc0) | v3
  }

  datatype Decoded = Data(bytes: seq<bv8>) | Malformed

  /** The bytes of one block that count. */
  function DecodedBlock(s: seq<bv8>): Decoded
    requires |s| == 4
  {
    var stop := Stop(s, 0);
    if stop == 4 then
      Data([Byte0(Value(s[0]), Value(s[1])), Byte1(Value(s[1]), Value(s[2])), Byte2(Value(s[2]), Value(s[3]))])
    else if stop == 3 then Data([Byte0(Value(s[0]), Value(s[1])), Byte1(Value(s[1]), Value(s[2]))])
    else if stop == 2 then Data([Byte0(Value(s[0]), Value(s[1]))])
    else if stop == 1 then Data([])
    else Malformed
  }

  /** The loop of `base64_decodeblock`, which fills the array v: how far it gets, and the values of the symbols
      up to there. */
  method FillGroups(s: seq<bv8>, stale: seq<bv8>) returns (stop: int, v: array<bv8>)
    requires |s| == 4 && |stale| == 4
    ensures fresh(v) && v.Length == 4 && stop == Stop(s, 0) <= 4
    ensures forall k :: 0 <= k < stop ==> v[k] == Value(s[k])
  {
    v := new bv8[4](i requires 0 <= i < 4 => stale[i]);
    var i := 0;
    while i < 4
      invariant 0 <= i <= 4 && Stop(s, 0) == Stop(s, i)
      invariant forall k :: 0 <= k < i ==> v[k] == Value(s[k])
    {
      if s[i] < 43 || s[i] > 122 {
        return -1, v;
      }
      v[i] := Entry(s[i]);
      if v[i] != OUTSIDE {
        v[i] := v[i] - 62;
      } else {
        break;
      }
      i := i + 1;
    }
    stop := i;
  }

  /** Only the bytes that count are made of values of symbols. */
  lemma CountedBytes(s: seq<bv8>, v: seq<bv8>, out: seq<bv8>)
    requires |s| == 4 && |v| == 4 && 0 <= Stop(s, 0) <= 4
    requires forall k :: 0 <= k < Stop(s, 0) ==> v[k] == Value(s[k])
    requires out == [Byte0(v[0], v[1]), Byte1(v[1], v[2]), Byte2(v[2], v[3])]
    ensures var d, len := DecodedBlock(s), BlockLength(Stop(s, 0));
            (d.Data? <==> 0 <= len <= 3) && (d.Data? ==> d.bytes == out[..len])
  {
    var d, stop := DecodedBlock(s), Stop(s, 0);
    if stop == 4 {
      assert d.bytes == out && out[..3] == out;
    } else if stop == 3 {
      assert d.bytes == [out[0], out[1]];
    } else if stop == 2 {
      assert d.bytes == [out[0]];
    }
  }

  /** `base64_decodeblock`.  `stale` stands for what the array v holds before it is filled; only the
      first `len` output bytes are independent of it. */
  method DecodeBlock(s: seq<bv8>, stale: seq<bv8>) returns (len: int, out: seq<bv8>)
    requires |s| == 4 && |stale| == 4
    ensures |out| == 3
    ensures len == if Stop(s, 0) < 0 then -1 else BlockLength(Stop(s, 0))
    ensures DecodedBlock(s).Data? <==> 0 <= len <= 3
    ensures DecodedBlock(s).Data? ==> DecodedBlock(s).bytes == out[..len]
  {
    len := 3;
    var stop, v := FillGroups(s, stale);
    if stop < 0 {
      return -1, [0, 0, 0];
    }
    if stop < 4 {
      len := (stop - 1) % 256;
    }
    out := [Byte0(v[0], v[1]), Byte1(v[1], v[2]), Byte2(v[2], v[3])];
    CountedBytes(s, v[..], out);
  }

  predicate IsSymbol(c: bv8) {
    43 <= c <= 122 && Entry(c) != OUTSIDE
  }

  /** The symbols are the letters, the digits, '+' and '/'. */
  lemma SymbolsExactly(c: bv8)
    ensures IsSymbol(c) <==> 65 <= c <= 90 || 97 <= c <= 122 || 48 <= c <= 57 || c == 43 || c == 47
  {
  }

  /** Where decoding a block stops: behind leading symbols, at a character that is none, or at one outside the table
      ('+' to 'z'), which makes the block an error. */
  lemma StopExactly(s: seq<bv8>, n: nat)
    requires |s| == 4 && n <= 4 && forall k :: 0 <= k < n ==> IsSymbol(s[k])
    requires n < 4 ==> !IsSymbol(s[n])
    ensures Stop(s, 0) == if n < 4 && !(43 <= s[n] <= 122) then -1 else n
    ensures DecodedBlock(s).Data? <==> n > 0 && (n < 4 ==> 43 <= s[n] <= 122)
    ensures DecodedBlock(s).Data? ==> |DecodedBlock(s).bytes| == if n == 4 then 3 else n - 1
  {
    StopAfter(s, 0, n);
  }

  lemma {:induction false} StopAfter(s: seq<bv8>, i: nat, n: nat)
    requires |s| == 4 && i <= n <= 4 && forall k :: i <= k < n ==> IsSymbol(s[k])
    requires n < 4 ==> !IsSymbol(s[n])
    ensures Stop(s, i) == if n < 4 && !(43 <= s[n] <= 122) then -1 else n
    decreases n - i
  {
    if i < n {
      StopAfter(s, i + 1, n);
    }
  }

  lemma SymbolRoundTrip(v: bv8)
    requires v < 64
    ensures IsSymbol(Symbol(v)) && Value(Symbol(v)) == v
  {
    EntryOfSymbol(v);
  }

  lemma StopAtPad(s: seq<bv8>, n: nat)
    requires |s| == 4 && n <= 4
    requires forall i :: 0 <= i < n ==> IsSymbol(s[i])
    requires n < 4 ==> s[n] == PAD
    ensures Stop(s, 0) == n
  {
    StopFrom(s, 0, n);
  }

  lemma {:induction false} StopFrom(s: seq<bv8>, i: nat, n: nat)
    requires |s| == 4 && i <= n <= 4
    requires forall k :: i <= k < n ==> IsSymbol(s[k])
    requires n < 4 ==> s[n] == PAD
    ensures Stop(s, i) == n
    decreases n - i
  {
    if i < n {
      StopFrom(s, i + 1, n);
    }
  }

  lemma GroupsFitTogether(b0: bv8, b1: bv8, b2: bv8)
    ensures Byte0(Group0(b0), Group1(b0, b1)) == b0
    ensures Byte1(Group1(b0, b1), Group2(b1, b2)) == b1
    ensures Byte2(Group2(b1, b2), Group3(b2)) == b2
  {
  }

  /** A block decodes to the data bytes it was made of, whatever the other bytes were. */
  lemma BlockRoundTrip(b0: bv8, b1: bv8, b2: bv8, len: nat)
    requires len >= 1
    ensures DecodedBlock(EncodeBlock(b0, b1, b2, len)) ==
            Data(if len == 1 then [b0] else if len == 2 then [b0, b1] else [b0, b1, b2])
  {
    SymbolRoundTrip(Group0(b0));
    SymbolRoundTrip(Group1(b0, b1));
    SymbolRoundTrip(Group2(b1, b2));
    SymbolRoundTrip(Group3(b2));
    GroupsFitTogether(b0, b1, b2);
    StopAtPad(EncodeBlock(b0, b1, b2, len), if len == 1 then 2 else if len == 2 then 3 else 4);
  }

  // ----- whole buffers

  /** The encoding of the first n bytes of a buffer, block by block.  The last block also looks at up to
      two bytes behind the data. */
  function EncodeAll(buf: seq<bv8>, n: nat): (s: seq<bv8>)
    requires n + 2 <= |buf|
    ensures |s| == 4 * ((n + 2) / 3)
  {
    if n == 0 then []
    else if n <= 3 then EncodeBlock(buf[0], buf[1], buf[2], n)
    else EncodeBlock(buf[0], buf[1], buf[2], n) + EncodeAll(buf[3..], n - 3)
  }

  /** Decoding block by block. */
  function DecodeAll(s: seq<bv8>): Decoded
    requires |s| % 4 == 0
  {
    if s == [] then Data([])
    else
      var rest := DecodeAll(s[4..]);
      var first := DecodedBlock(s[..4]);
      if first.Data? && rest.Data? then Data(first.bytes + rest.bytes) else Malformed
  }

  /** Decoding the encoding of any data yields the same bytes and the same length, whatever the buffer
      holds behind the data. */
  lemma {:induction false} RoundTrip(buf: seq<bv8>, n: nat)
    requires n + 2 <= |buf|
    ensures DecodeAll(EncodeAll(buf, n)) == Data(buf[..n])
  {
    var s := EncodeAll(buf, n);
    if n == 0 {
    } else {
      BlockRoundTrip(buf[0], buf[1], buf[2], n);
      if n <= 3 {
        assert s[..4] == s && s[4..] == [];
      } else {
        RoundTrip(buf[3..], n - 3);
        assert s[..4] == EncodeBlock(buf[0], buf[1], buf[2], n);
        assert s[4..] == EncodeAll(buf[3..], n - 3);
        assert buf[..n] == [buf[0], buf[1], buf[2]] + buf[3..][..n - 3];
      }
    }
  }

  /** The bits behind the data that get into the last block. */
  predicate ZeroBehind(buf: seq<bv8>, n: nat)
    requires n + 2 <= |buf|
  {
    (n % 3 == 1 ==> buf[n] & 0xf0 == 0) && (n % 3 == 2 ==> buf[n] & 0xc0 == 0)
  }

  /** The data with zero bytes behind. */
  function ZeroPadded(buf: seq<bv8>, n: nat): (z: seq<bv8>)
    requires n <= |buf|
    ensures |z| == n + 2
    ensures forall k :: 0 <= k < n + 2 ==> z[k] == if k < n then buf[k] else 0
  {
    buf[..n] + [0, 0]
  }

  lemma ZeroPaddedTail(buf: seq<bv8>, n: nat)
    requires 3 <= n <= |buf|
    ensures ZeroPadded(buf, n)[3..] == ZeroPadded(buf[3..], n - 3)
  {
  }

  /** A block in front with nothing but data makes no difference. */
  lemma CanonicalStep(buf: seq<bv8>, n: nat)
    requires n + 2 <= |buf| && n > 3
    ensures EncodeAll(buf, n) == EncodeAll(ZeroPadded(buf, n), n)
       <==> EncodeAll(buf[3..], n - 3) == EncodeAll(ZeroPadded(buf[3..], n - 3), n - 3)
  {
    ZeroPaddedTail(buf, n);
    SamePrefix(EncodeBlock(buf[0], buf[1], buf[2], n),
               EncodeAll(buf[3..], n - 3), EncodeAll(ZeroPadded(buf[3..], n - 3), n - 3));
  }

  lemma CanonicalShort(buf: seq<bv8>, n: nat)
    requires n + 2 <= |buf| && n < 3
    ensures EncodeAll(buf, n) == EncodeAll(ZeroPadded(buf, n), n) <==> ZeroBehind(buf, n)
  {
    if n > 0 {
      CanonicalBlock(buf[0], buf[1], buf[2], n);
    }
  }

  /** The output is the encoding of RFC 4648, section 4, in which the unused bits of the last symbol
      are zero, if and only if the bits behind the data are zero. */
  lemma {:induction false} CanonicalExactly(buf: seq<bv8>, n: nat)
    requires n + 2 <= |buf|
    ensures EncodeAll(buf, n) == EncodeAll(ZeroPadded(buf, n), n) <==> ZeroBehind(buf, n)
  {
    if n < 3 {
      CanonicalShort(buf, n);
    } else if n > 3 {
      CanonicalExactly(buf[3..], n - 3);
      CanonicalStep(buf, n);
    }
  }

  /** A byte behind the data gets into the text. */
  lemma LooksBehind()
    ensures EncodeAll([0, 0xf0, 0], 1) != EncodeAll([0, 0, 0], 1)
  {
    assert Group1(0, 0xf0) == 15 && Group1(0, 0) == 0;
    assert EncodeAll([0, 0xf0, 0], 1)[1] == Symbol(15) && EncodeAll([0, 0, 0], 1)[1] == Symbol(0);
  }

  lemma SamePrefix<X>(a: seq<X>, s: seq<X>, t: seq<X>)
    ensures a + s == a + t <==> s == t
  {
    assert (a + s)[|a|..] == s && (a + t)[|a|..] == t;
  }

  lemma CanonicalBlock(b0: bv8, b1: bv8, b2: bv8, len: nat)
    requires 1 <= len <= 2
    ensures len == 1 ==> (EncodeBlock(b0, b1, b2, 1) == EncodeBlock(b0, 0, 0, 1) <==> b1 & 0xf0 == 0)
    ensures len == 2 ==> (EncodeBlock(b0, b1, b2, 2) == EncodeBlock(b0, b1, 0, 2) <==> b2 & 0xc0 == 0)
  {
    SymbolRoundTrip(Group1(b0, b1));
    SymbolRoundTrip(Group1(b0, 0));
    SymbolRoundTrip(Group2(b1, b2));
    SymbolRoundTrip(Group2(b1, 0));
    UnusedBits(b0, b1);
    UnusedBits'(b1, b2);
    if len == 1 {
      var s, t := EncodeBlock(b0, b1, b2, 1), EncodeBlock(b0, 0, 0, 1);
      assert s[1] == t[1] <==> Group1(b0, b1) == Group1(b0, 0);
    } else {
      var s, t := EncodeBlock(b0, b1, b2, 2), EncodeBlock(b0, b1, 0, 2);
      assert s[2] == t[2] <==> Group2(b1, b2) == Group2(b1, 0);
    }
  }

  lemma UnusedBits(b0: bv8, b1: bv8)
    ensures Group1(b0, b1) == Group1(b0, 0) <==> b1 & 0xf0 == 0
  {
  }

  lemma UnusedBits'(b1: bv8, b2: bv8)
    ensures Group2(b1, b2) == Group2(b1, 0) <==> b2 & 0xc0 == 0
  {
  }

  /** `print_data` allocates 2 * n bytes for its output.  They hold the text of n bytes unless n is 1, and a NUL
      behind it unless n is 0, 1, 2 or 4; they hold the bytes of n characters, and a NUL, from n == 2 on. */
  lemma OutputRoom(n: nat)
    ensures 4 * ((n + 2) / 3) <= 2 * n <==> n != 1
    ensures 4 * ((n + 2) / 3) < 2 * n <==> n != 0 && n != 1 && n != 2 && n != 4
    ensures 3 * ((n + 3) / 4) < 2 * n <==> n >= 2
  {
  }

  /** What is still to be encoded from position i on. */
  function EncodeRest(buf: seq<bv8>, n: nat, i: nat): seq<bv8>
    requires n + 2 <= |buf| && i <= n + 2
  {
    if i >= n then [] else EncodeAll(buf[i..], n - i)
  }

  lemma EncodeRestStep(buf: seq<bv8>, n: nat, i: nat)
    requires n + 2 <= |buf| && i < n
    ensures EncodeRest(buf, n, i) == EncodeBlock(buf[i], buf[i + 1], buf[i + 2], n - i) + EncodeRest(buf, n, i + 3)
  {
    assert buf[i..][3..] == buf[i + 3..];
  }

  /** One more block is the next part of the encoding. */
  lemma EncodeNext(written: seq<bv8>, buf: seq<bv8>, n: nat, i: nat, block: seq<bv8>)
    requires n + 2 <= |buf| && i < n && block == EncodeBlock(buf[i], buf[i + 1], buf[i + 2], n - i)
    requires written + EncodeRest(buf, n, i) == EncodeAll(buf, n)
    ensures written + block + EncodeRest(buf, n, i + 3) == EncodeAll(buf, n) && |written| + 4 <= |EncodeAll(buf, n)|
  {
    EncodeRestStep(buf, n, i);
    assert written + block + EncodeRest(buf, n, i + 3) == written + (block + EncodeRest(buf, n, i + 3));
  }

  method WriteBlock(out: array<bv8>, o: nat, block: seq<bv8>)
    requires |block| == 4 && o + 4 <= out.Length
    modifies out
    ensures out[..o + 4] == old(out[..o]) + block
    ensures forall k :: o + 4 <= k < out.Length ==> out[k] == old(out[k])
  {
    out[o], out[o + 1], out[o + 2], out[o + 3] := block[0], block[1], block[2], block[3];
  }

  /** The FMT_EBASE64 loop of `print_data`. */
  method EncodeBuffer(buf: array<bv8>, len: nat, out: array<bv8>) returns (size: nat)
    requires len + 2 <= buf.Length && 4 * ((len + 2) / 3) <= out.Length && buf != out
    modifies out
    ensures size <= out.Length && out[..size] == EncodeAll(buf[..], len)
    ensures forall k :: size <= k < out.Length ==> out[k] == old(out[k])
  {
    var i, o := 0, 0;
    ghost var data := buf[..];
    assert data[0..] == data && out[..0] == [];
    while i < len
      invariant i <= len + 2 && buf[..] == data
      invariant o <= out.Length && out[..o] + EncodeRest(data, len, i) == EncodeAll(data, len)
      invariant forall k :: o <= k < out.Length ==> out[k] == old(out[k])
    {
      var block := EncodeBlock(buf[i], buf[i + 1], buf[i + 2], len - i);
      EncodeNext(out[..o], data, len, i, block);
      WriteBlock(out, o, block);
      i, o := i + 3, o + 4;
    }
    assert out[..o] + [] == out[..o];
    size := o;
  }

  method WriteBytes(out: array<bv8>, o: nat, bytes: seq<bv8>)
    requires |bytes| == 3 && o + 3 <= out.Length
    modifies out
    ensures out[..o + 3] == old(out[..o]) + bytes
  {
    out[o], out[o + 1], out[o + 2] := bytes[0], bytes[1], bytes[2];
  }

  /** As far as both go, the two sequences are the same. */
  predicate Agree(a: seq<bv8>, b: seq<bv8>) {
    forall k :: 0 <= k < |a| && k < |b| ==> a[k] == b[k]
  }

  /** The text from position i on is the encoding of the data from position o on. */
  ghost predicate InStep(s: seq<bv8>, i: nat, written: seq<bv8>, data: seq<bv8>, n: nat)
    requires n + 2 <= |data| && i <= |s|
  {
    |written| <= n + 2 && s[i..] == EncodeRest(data, n, |written|) && Agree(written, data[..n])
  }

  lemma AgreeWhole(a: seq<bv8>, b: seq<bv8>)
    requires Agree(a, b) && |b| <= |a|
    ensures a[..|b|] == b
  {
  }

  lemma AgreeAppend(written: seq<bv8>, bytes: seq<bv8>, data: seq<bv8>)
    requires Agree(written, data) && |written| <= |data| && Agree(bytes, data[|written|..])
    ensures Agree(written + bytes, data)
  {
    forall k | 0 <= k < |written + bytes| && k < |data|
      ensures (written + bytes)[k] == data[k]
    {
      if k >= |written| {
        assert data[|written|..][k - |written|] == data[k];
      }
    }
  }

  lemma {:induction false} NextBlock(s: seq<bv8>, i: nat, data: seq<bv8>, n: nat, o: nat)
    requires n + 2 <= |data| && i + 4 <= |s| && o <= n + 2 && s[i..] == EncodeRest(data, n, o)
    ensures o < n && s[i..i + 4] == EncodeBlock(data[o], data[o + 1], data[o + 2], n - o)
    ensures s[i + 4..] == EncodeRest(data, n, o + 3)
  {
    EncodeRestStep(data, n, o);
    var first, rest := EncodeBlock(data[o], data[o + 1], data[o + 2], n - o), EncodeRest(data, n, o + 3);
    assert s[i..][..4] == first && s[i..][4..] == rest;
    assert s[i..i + 4] == s[i..][..4] && s[i + 4..] == s[i..][4..];
  }

  /** What a block holds of the data that are left. */
  function UpToThree(left: seq<bv8>): seq<bv8> {
    if |left| <= 3 then left else left[..3]
  }

  lemma BlockOfData(data: seq<bv8>, n: nat, o: nat)
    requires n + 2 <= |data| && o < n
    ensures DecodedBlock(EncodeBlock(data[o], data[o + 1], data[o + 2], n - o)) == Data(UpToThree(data[..n][o..]))
  {
    BlockRoundTrip(data[o], data[o + 1], data[o + 2], n - o);
    var left := data[..n][o..];
    assert |left| == n - o && forall k :: 0 <= k < |left| ==> left[k] == data[..n][o + k] == data[o + k];
    if n - o == 1 {
      assert left == [data[o]];
    } else if n - o == 2 {
      assert left[1] == data[o + 1];
      assert left == [data[o], data[o + 1]];
    } else {
      assert UpToThree(left) == [data[o], data[o + 1], data[o + 2]];
    }
  }

  lemma {:induction false} StepOn(s: seq<bv8>, i: nat, written: seq<bv8>, data: seq<bv8>, n: nat, bytes: seq<bv8>)
    requires n + 2 <= |data| && i + 4 <= |s| && InStep(s, i, written, data, n)
    requires DecodedBlock(s[i..i + 4]).Data? ==> DecodedBlock(s[i..i + 4]).bytes <= bytes
    requires |bytes| == 3
    ensures DecodedBlock(s[i..i + 4]).Data? && InStep(s, i + 4, written + bytes, data, n)
  {
    var o, left := |written|, data[..n][|written|..];
    NextBlock(s, i, data, n, o);
    BlockOfData(data, n, o);
    var good := UpToThree(left);
    assert good <= bytes;
    assert Agree(bytes, left) by {
      assert forall k :: 0 <= k < |good| ==> bytes[k] == good[k] == left[k];
    }
    AgreeAppend(written, bytes, data[..n]);
  }

  /** Decoding a whole text block by block, keeping of each block as many bytes as it reports. */
  method DecodeText(s: seq<bv8>, stale: seq<bv8>) returns (r: Decoded)
    requires |s| % 4 == 0 && |stale| == 4
    ensures r == DecodeAll(s)
  {
    var data := [];
    var i := 0;
    assert s[0..] == s;
    while i < |s|
      invariant i % 4 == 0 && i <= |s|
      invariant DecodeAll(s) == Joined(data, DecodeAll(s[i..]))
    {
      var len, out := DecodeBlock(s[i..i + 4], stale);
      DecodeNext(s, i, data);
      if len < 0 || len > 3 {
        return Malformed;
      }
      data := data + out[..len];
      i := i + 4;
    }
    r := Data(data);
    assert DecodeAll(s[i..]) == Data([]) && data + [] == data;
  }

  lemma JoinedTwice(a: seq<bv8>, b: seq<bv8>, rest: Decoded)
    ensures Joined(a, Joined(b, rest)) == Joined(a + b, rest)
  {
    if rest.Data? {
      assert a + (b + rest.bytes) == a + b + rest.bytes;
    }
  }

  /** The first block of what is left, and the rest. */
  lemma DecodeAllStep(s: seq<bv8>, first: seq<bv8>, rest: seq<bv8>)
    requires |s| % 4 == 0 && |first| == 4 && s == first + rest
    ensures DecodeAll(s)
         == if DecodedBlock(first).Data? then Joined(DecodedBlock(first).bytes, DecodeAll(rest)) else Malformed
  {
    assert s[..4] == first && s[4..] == rest;
  }

  /** One more block is the next part of the data. */
  lemma DecodeNext(s: seq<bv8>, i: nat, data: seq<bv8>)
    requires |s| % 4 == 0 && i % 4 == 0 && i + 4 <= |s|
    ensures var first, whole := DecodedBlock(s[i..i + 4]), Joined(data, DecodeAll(s[i..]));
            whole == if first.Data? then Joined(data + first.bytes, DecodeAll(s[i + 4..])) else Malformed
  {
    var first, rest := s[i..i + 4], s[i + 4..];
    assert s[i..] == first + rest;
    DecodeAllStep(s[i..], first, rest);
    if DecodedBlock(first).Data? {
      JoinedTwice(data, DecodedBlock(first).bytes, DecodeAll(rest));
    }
  }

  function Joined(data: seq<bv8>, rest: Decoded): Decoded {
    if rest.Data? then Data(data + rest.bytes) else Malformed
  }

  /** The FMT_BASE64 loop of `print_data`: every block writes three bytes, whatever length it reports,
      and a character out of range ends the loop.  For the encoding of n bytes the first n bytes
      of the output are those bytes. */
  method DecodeBuffer(s: seq<bv8>, out: array<bv8>, stale: seq<bv8>, ghost data: seq<bv8>, ghost n: nat)
    requires |s| % 4 == 0 && |stale| == 4 && 3 * (|s| / 4) <= out.Length && n + 2 <= |data|
    modifies out
    ensures s == EncodeAll(data, n) ==> n <= out.Length && out[..n] == data[..n]
  {
    var i, o := 0, 0;
    assert data[0..] == data && s[0..] == s;
    ghost var encoded, k := s == EncodeAll(data, n), 0;
    while i < |s|
      invariant i == 4 * k && o == 3 * k && i <= |s|
      invariant encoded ==> InStep(s, i, out[..o], data, n)
    {
      var len, bytes := DecodeBlock(s[i..i + 4], stale);
      if encoded {
        StepOn(s, i, out[..o], data, n, bytes);
      }
      if len < 0 {
        break;
      }
      WriteBytes(out, o, bytes);
      i, o, k := i + 4, o + 3, k + 1;
    }
    if encoded {
      AgreeWhole(out[..o], data[..n]);
      assert out[..n] == out[..o][..n];
    }
  }
}
