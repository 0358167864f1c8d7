/** The packing of 7-bit characters into octets of src/print.c (3GPP TS 23.038, section 6.1.2.1.1). */
module Gsm7 {
  import opened Bits
  import opened Collections
  import opened Machine

  // ----- what the octets are

  /** `ch1`: what is left of the character c above its low bits, and above that the low bits of the next
      character, in one byte. */
  function Octet(c: Byte, next: Byte, shift: nat): (b: Byte)
    requires shift < 7
  {
    OctetIsSum(c % 128, next % 128, shift);
    Or(Shr(c % 128, shift), Shl(next % 128, 7 - shift) % 256)
  }

  /** The byte keeps the low bits of what is shifted to the left; the bits above them are the rest. */
  lemma ShiftLeft(v: nat, shift: nat)
    requires shift < 7
    ensures Shl(v, 7 - shift) % 256 == Shl(Low(v, shift + 1), 7 - shift) < 256
    ensures Shl(v, 7 - shift) / 256 == Shr(v, shift + 1)
  {
    var low, high := Low(v, shift + 1), Shr(v, shift + 1);
    LowAndHigh(v, shift + 1);
    ShlSum(low, high, shift + 1, 7 - shift);
    LowBound(v, shift + 1);
    ShlBound(low, 7 - shift, shift + 1);
    SevenBits(high);
    assert Shl(v, 7 - shift) == Shl(low, 7 - shift) + 256 * high;
  }

  lemma OctetIsSum(m: nat, n: nat, shift: nat)
    requires m < 128 && n < 128 && shift < 7
    ensures Or(Shr(m, shift), Shl(n, 7 - shift) % 256) == Shr(m, shift) + Shl(n, 7 - shift) % 256 < 256
  {
    SevenBits(0);
    ShrBound(m, shift, 7);
    ShiftLeft(n, shift);
    OrIsSum(Shr(m, shift), Low(n, shift + 1), 7 - shift);
    LowBound(n, shift + 1);
    ShlBelow(Low(n, shift + 1), 7 - shift, shift + 1);
  }

  lemma {:induction false} ShlBelow(a: nat, n: nat, k: nat)
    requires a < Pow2(k)
    ensures Shl(a, n) + Pow2(n) <= Pow2(n + k)
  {
    if n > 0 {
      ShlBelow(a, n - 1, k);
    }
  }

  /** The octets for the text s, of whose first character `shift` bits are written already. */
  function Pack(s: seq<Byte>, shift: nat): (bs: seq<Byte>)
    requires shift < 7
    ensures |bs| == if s == [] then 0 else (7 * |s| - shift + 7) / 8
  {
    if s == [] then []
    else
      [Octet(s[0], if |s| > 1 then s[1] else 0, shift)] +
      (if shift < 6 then Pack(s[1..], shift + 1) else if |s| > 1 then Pack(s[2..], 0) else [])
  }

  /** The number whose digits in base 128 are the characters, the first one lowest. */
  function Septets(s: seq<Byte>): nat {
    if s == [] then 0 else s[0] % 128 + 128 * Septets(s[1..])
  }

  /** The number whose digits in base 256 are the octets, the first one lowest. */
  function Octets(bs: seq<Byte>): nat {
    if bs == [] then 0 else bs[0] + 256 * Octets(bs[1..])
  }

  /** The character after the first one, and the number that the text behind both stands for. */
  ghost function Second(s: seq<Byte>): Byte {
    if |s| > 1 then s[1] else 0
  }

  ghost function Behind(s: seq<Byte>): nat {
    if |s| > 1 then Septets(s[2..]) else 0
  }

  lemma SeptetsTail(s: seq<Byte>)
    requires s != []
    ensures Septets(s[1..]) == Second(s) % 128 + 128 * Behind(s)
  {
    assert |s| > 1 ==> s[1..][1..] == s[2..];
  }

  lemma OctetsCons(b: Byte, rest: seq<Byte>)
    ensures Octets([b] + rest) == b + 256 * Octets(rest)
  {
    assert ([b] + rest)[1..] == rest;
  }

  /** Packing keeps the number. */
  lemma {:induction false} PackKeepsValue(s: seq<Byte>, shift: nat)
    requires shift < 7
    ensures Octets(Pack(s, shift)) == Shr(Septets(s), shift)
    decreases |s|
  {
    if s == [] {
      ShrZero(shift);
    } else {
      var rest := if shift < 6 then Pack(s[1..], shift + 1) else if |s| > 1 then Pack(s[2..], 0) else [];
      assert Octets(rest) == if shift < 6 then Shr(Septets(s[1..]), shift + 1) else Behind(s) by {
        if shift < 6 {
          PackKeepsValue(s[1..], shift + 1);
        } else if |s| > 1 {
          PackKeepsValue(s[2..], 0);
        }
      }
      OctetsCons(Octet(s[0], Second(s), shift), rest);
      SeptetsTail(s);
      ShiftedValue(s[0], Second(s), Behind(s), shift);
    }
  }

  lemma {:induction false} ShrZero(k: nat)
    ensures Shr(0, k) == 0
  {
    if k > 0 {
      ShrZero(k - 1);
    }
  }

  /** Of the text behind a character, its octet holds only bits of the next character. */
  lemma NextBits(n: nat, w: nat, shift: nat)
    requires shift < 7
    ensures Shl(n + Shl(w, 7), 7 - shift) % 256 == Shl(n, 7 - shift) % 256
  {
    ShiftLeft(n + Shl(w, 7), shift);
    ShiftLeft(n, shift);
    LowSum(n, w, 7, shift + 1);
  }

  lemma ShiftedValue(c: Byte, next: Byte, w: nat, shift: nat)
    requires shift < 7
    ensures var v := next % 128 + 128 * w;
            && Shr(c % 128 + 128 * v, shift) == Octet(c, next, shift) + 256 * Shr(v, shift + 1)
            && Shr(v, 7) == w
  {
    var m, n := c % 128, next % 128;
    var v := n + Shl(w, 7);
    assert v == n + 128 * w && Shl(v, 7) == 128 * v by {
      SevenBits(v);
      SevenBits(w);
    }
    ShrSum(m, v, 7, shift);
    var l := Shl(v, 7 - shift);
    assert l / 256 == Shr(v, shift + 1) && l % 256 == Shl(n, 7 - shift) % 256 by {
      ShiftLeft(v, shift);
      NextBits(n, w, shift);
    }
    OctetIsSum(m, n, shift);
    assert Shr(v, 7) == w by {
      SevenBits(0);
      ShrSum(n, w, 7, 7);
      ShrBound(n, 7, 7);
    }
  }

  /** For whole texts: the numbers agree, in as many octets as 7 bits a character need. */
  lemma {:induction false} PackedValue(s: seq<Byte>)
    ensures Octets(Pack(s, 0)) == Septets(s) && |Pack(s, 0)| == (7 * |s| + 7) / 8
  {
    PackKeepsValue(s, 0);
  }

  // ----- reading back

  /** The n lowest digits of a number in base 128. */
  function Digits(v: nat, n: nat): (s: seq<Byte>)
    ensures |s| == n
  {
    if n == 0 then [] else [v % 128] + Digits(v / 128, n - 1)
  }

  /** Reading the octets as one number and cutting it into septets gives the text back. */
  lemma {:induction false} PackReadsBack(s: seq<Byte>)
    requires forall k :: 0 <= k < |s| ==> s[k] < 128
    ensures Digits(Octets(Pack(s, 0)), |s|) == s
  {
    PackedValue(s);
    SeptetsReadBack(s);
  }

  lemma {:induction false} SeptetsReadBack(s: seq<Byte>)
    requires forall k :: 0 <= k < |s| ==> s[k] < 128
    ensures Digits(Septets(s), |s|) == s
  {
    if s != [] {
      SeptetsReadBack(s[1..]);
    }
  }

  lemma {:induction false} OctetsDiffer(a: seq<Byte>, b: seq<Byte>)
    requires |a| == |b| && Octets(a) == Octets(b)
    ensures a == b
  {
    if a != [] {
      assert a[0] == Octets(a) % 256 && b[0] == Octets(b) % 256;
      OctetsDiffer(a[1..], b[1..]);
      assert a == [a[0]] + a[1..] && b == [b[0]] + b[1..];
    }
  }

  /** Exactly when two texts are packed alike. */
  lemma {:induction false} PackAlike(s: seq<Byte>, t: seq<Byte>)
    ensures Pack(s, 0) == Pack(t, 0) <==> (7 * |s| + 7) / 8 == (7 * |t| + 7) / 8 && Septets(s) == Septets(t)
  {
    PackedValue(s);
    PackedValue(t);
    if |Pack(s, 0)| == |Pack(t, 0)| && Septets(s) == Septets(t) {
      OctetsDiffer(Pack(s, 0), Pack(t, 0));
    }
  }

  lemma {:induction false} SeptetsDiffer(s: seq<Byte>, t: seq<Byte>)
    requires forall k :: 0 <= k < |s| ==> 1 <= s[k] < 128
    requires forall k :: 0 <= k < |t| ==> 1 <= t[k] < 128
    requires Septets(s) == Septets(t)
    ensures s == t
    decreases |s|
  {
    if s != [] && t != [] {
      var x, y := Septets(s[1..]), Septets(t[1..]);
      assert s[0] + 128 * x == t[0] + 128 * y;
      assert s[0] == t[0] && x == y;
      SeptetsDiffer(s[1..], t[1..]);
      assert s == [s[0]] + s[1..] && t == [t[0]] + t[1..];
    }
  }

  // ----- the text that is written

  /** A digit as `%x` prints it. */
  function HexChar(d: int): (c: Byte)
    requires 0 <= d < 16
    ensures c != 0
  {
    if d < 10 then 48 + d else 87 + d
  }

  function HexText(bs: seq<Byte>): (t: seq<Byte>)
    ensures |t| == 2 * |bs|
    ensures forall k :: 0 <= k < |t| ==> t[k] != 0
  {
    if bs == [] then []
    else HexText(bs[..|bs| - 1]) + [HexChar(bs[|bs| - 1] / 16), HexChar(bs[|bs| - 1] % 16)]
  }

  /** The value of a hexadecimal digit, '0' to '9' or 'a' to 'f'. */
  function HexValue(c: Byte): (d: int)
    ensures 0 <= d < 16
  {
    if 48 <= c <= 57 then c - 48 else if 97 <= c <= 102 then c - 97 + 10 else 0
  }

  /** A text read as pairs of hexadecimal digits, the high digit first. */
  function ReadHex(t: seq<Byte>): (bs: seq<Byte>)
    ensures |bs| == |t| / 2
  {
    seq<Byte>(|t| / 2, k requires 0 <= k < |t| / 2 => 16 * HexValue(t[2 * k]) + HexValue(t[2 * k + 1]))
  }

  /** Every octet is written as its two digits, each of them '0' to '9' or 'a' to 'f'. */
  lemma {:induction false} HexTextAt(bs: seq<Byte>, k: nat)
    requires k < |bs|
    ensures var t := HexText(bs);
            && 16 * HexValue(t[2 * k]) + HexValue(t[2 * k + 1]) == bs[k]
            && forall i :: 2 * k <= i <= 2 * k + 1 ==> 48 <= t[i] <= 57 || 97 <= t[i] <= 102
  {
    if k < |bs| - 1 {
      HexTextAt(bs[..|bs| - 1], k);
    }
  }

  lemma {:induction false} ReadHexText(bs: seq<Byte>)
    ensures ReadHex(HexText(bs)) == bs
  {
    forall k | 0 <= k < |bs|
      ensures ReadHex(HexText(bs))[k] == bs[k]
    {
      HexTextAt(bs, k);
    }
  }

  /** The digits that are written, read as octets and cut into septets, give the text back. */
  lemma {:induction false} WrittenReadsBack(s: seq<Byte>)
    requires forall k :: 0 <= k < |s| ==> s[k] < 128
    ensures Digits(Octets(ReadHex(HexText(Pack(s, 0)))), |s|) == s
  {
    ReadHexText(Pack(s, 0));
    PackReadsBack(s);
  }

  /** Different texts of the characters 1 to 127, of whatever lengths, are written differently. */
  lemma {:induction false} PackingInjective(s: seq<Byte>, t: seq<Byte>)
    requires forall k :: 0 <= k < |s| ==> 1 <= s[k] < 128
    requires forall k :: 0 <= k < |t| ==> 1 <= t[k] < 128
    ensures HexText(Pack(s, 0)) == HexText(Pack(t, 0)) <==> s == t
  {
    if HexText(Pack(s, 0)) == HexText(Pack(t, 0)) {
      ReadHexText(Pack(s, 0));
      ReadHexText(Pack(t, 0));
      PackAlike(s, t);
      SeptetsDiffer(s, t);
    }
  }

  // ----- packing_7bit_character

  function StrLen(s: seq<Byte>): (n: nat)
    requires 0 in s
    ensures n < |s| && s[n] == 0 && forall k :: 0 <= k < n ==> s[k] != 0
  {
    if s[0] == 0 then 0 else 1 + StrLen(s[1..])
  }

  lemma StrLenIs(s: seq<Byte>, n: nat)
    requires n < |s| && s[n] == 0 && forall k :: 0 <= k < n ==> s[k] != 0
    ensures StrLen(s) == n
  {
  }

  /** Write the two digits of an octet over the end of the text in dest. */
  method Emit(dest: array<Byte>, b: Byte, ghost done: seq<Byte>)
    requires 2 * |done| + 2 < dest.Length
    requires dest[..2 * |done|] == HexText(done) && dest[2 * |done|] == 0
    modifies dest
    ensures dest[..2 * |done| + 2] == HexText(done + [b]) && dest[2 * |done| + 2] == 0
  {
    assert dest[..][2 * |done|] == 0 && forall k :: 0 <= k < 2 * |done| ==> dest[..][k] == HexText(done)[k];
    StrLenIs(dest[..], 2 * |done|);
    var j := StrLen(dest[..]);
    dest[j] := HexChar(b / 16);
    j := j + 1;
    dest[j] := HexChar(b % 16);
    j := j + 1;
    dest[j] := 0;
    assert (done + [b])[..|done|] == done;
    assert dest[..2 * |done| + 2] == HexText(done) + [HexChar(b / 16), HexChar(b % 16)];
  }

  /** What is to be written from position i on; nothing from the end on. */
  ghost function Rest(s: seq<Byte>, i: nat, shift: nat): seq<Byte>
    requires shift < 7
  {
    if i < |s| then Pack(s[i..], shift) else []
  }

  lemma RestStep(s: seq<Byte>, i: nat, shift: nat)
    requires i < |s| && shift < 7
    ensures Rest(s, i, shift)
         == [Octet(s[i], if i + 1 < |s| then s[i + 1] else 0, shift)]
          + if shift < 6 then Rest(s, i + 1, shift + 1) else Rest(s, i + 2, 0)
  {
    var t := s[i..];
    if |t| > 1 {
      assert t[1..] == s[i + 1..] && t[2..] == s[i + 2..];
    } else {
      assert t[1..] == [];
    }
  }

  /** One more octet is the next part of the output. */
  lemma NextOctet(s: seq<Byte>, i: nat, shift: nat, done: seq<Byte>, b: Byte)
    requires i < |s| && shift < 7 && b == Octet(s[i], if i + 1 < |s| then s[i + 1] else 0, shift)
    ensures done + [b] + (if shift < 6 then Rest(s, i + 1, shift + 1) else Rest(s, i + 2, 0))
         == done + Rest(s, i, shift)
  {
    RestStep(s, i, shift);
    MoveOver(done, b, if shift < 6 then Rest(s, i + 1, shift + 1) else Rest(s, i + 2, 0));
  }

  /** The octet of this round. */
  method NextByte(src: array<Byte>, i: nat, shift: nat, ghost text: seq<Byte>, ghost done: seq<Byte>)
    returns (ch1: Byte)
    requires |text| < src.Length && src[..|text|] == text && src[|text|] == 0
    requires i < |text| && shift < 7
    ensures done + [ch1] + (if shift < 6 then Rest(text, i + 1, shift + 1) else Rest(text, i + 2, 0))
         == done + Rest(text, i, shift)
  {
    assert src[i] == text[i] && src[i + 1] == if i + 1 < |text| then text[i + 1] else 0;
    ch1 := Octet(src[i], src[i + 1], shift);
    NextOctet(text, i, shift, done, ch1);
  }

  /** One round of the loop on the text in src, of which `done` has been written. */
  method PackOne(src: array<Byte>, dest: array<Byte>, i0: nat, shift0: nat,
                 ghost text: seq<Byte>, ghost done: seq<Byte>)
    returns (i: nat, shift: nat, ghost now: seq<Byte>)
    requires src != dest && |text| < src.Length && src[..|text|] == text && src[|text|] == 0
    requires i0 < |text| && shift0 < 7
    requires 2 * |done| + 2 < dest.Length
    requires dest[..2 * |done|] == HexText(done) && dest[2 * |done|] == 0
    modifies dest
    ensures i0 < i && shift < 7 && now + Rest(text, i, shift) == done + Rest(text, i0, shift0)
    ensures |now| == |done| + 1 && dest[..2 * |now|] == HexText(now) && dest[2 * |now|] == 0
  {
    i, shift := i0, shift0;
    var ch1 := NextByte(src, i, shift, text, done);
    Emit(dest, ch1, done);
    now := done + [ch1];
    shift := shift + 1;
    if shift == 7 {
      shift := 0;
      i := i + 1;
    }
    i := i + 1;
  }

  /** `packing_7bit_character` on the text before the first NUL in src: dest holds the digits of its
      octets and a NUL. */
  method Packing(src: array<Byte>, dest: array<Byte>)
    requires src != dest && 0 in src[..]
    requires 2 * |Pack(src[..StrLen(src[..])], 0)| < dest.Length
    modifies dest
    ensures var bs := Pack(src[..StrLen(src[..])], 0);
            dest[..2 * |bs|] == HexText(bs) && dest[2 * |bs|] == 0
    ensures var text := src[..StrLen(src[..])];
            (forall k :: 0 <= k < |text| ==> text[k] < 128) ==>
              Digits(Octets(ReadHex(dest[..2 * |Pack(text, 0)|])), |text|) == text
  {
    ghost var text := src[..StrLen(src[..])];
    ghost var all, done: seq<Byte> := Pack(text, 0), [];
    assert text[0..] == text;
    var i, shift := 0, 0;
    dest[0] := 0;
    while i < StrLen(src[..])
      invariant src[..] == old(src[..])
      invariant shift < 7 && done + Rest(text, i, shift) == all
      invariant 2 * |done| < dest.Length && dest[..2 * |done|] == HexText(done) && dest[2 * |done|] == 0
      decreases |text| - i
    {
      RestStep(text, i, shift);
      i, shift, done := PackOne(src, dest, i, shift, text, done);
    }
    assert done == all;
    if forall k :: 0 <= k < |text| ==> text[k] < 128 {
      WrittenReadsBack(text);
    }
  }
}
