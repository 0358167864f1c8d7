/** The hex-pair parser of src/utils.c, and the printing in src/undo.c that it reads back. */
module HexPairs {

  /** `:`, newline, tab, carriage return and blank are ignored anywhere. */
  predicate Ignored(c: bv8) {
    c == 58 || c == 10 || c == 9 || c == 13 || c == 32
  }

  predicate IsHex(c: bv8) {
    48 <= c <= 57 || 65 <= c <= 70 || 97 <= c <= 102
  }

  function Digit(c: bv8): (d: bv8)
    requires IsHex(c)
    ensures d < 16
  {
    if c <= 57 then c - 48 else if c <= 70 then c - 55 else c - 87
  }

  /** `hex2int`: the new value, and whether the character was no digit. */
  function Hex2Int(val: bv8, c: bv8): (bv8, bool) {
    if 48 <= c && c <= 57 then (val * 16 + (c - 48), false)
    else if c >= 65 && c <= 70 then (val * 16 + (c - 65 + 10), false)
    else if c >= 97 && c <= 102 then (val * 16 + (c - 97 + 10), false)
    else (val, true)
  }

  // ----- what a text means

  /** The text without ignored characters. */
  function Strip(t: seq<bv8>): (s: seq<bv8>)
    ensures |s| <= |t|
  {
    if t == [] then [] else
      var init, c := Strip(t[..|t| - 1]), t[|t| - 1];
      if Ignored(c) then init else init + [c]
  }

  lemma StripSnoc(t: seq<bv8>, p: nat)
    requires p < |t|
    ensures Strip(t[..p + 1]) == if Ignored(t[p]) then Strip(t[..p]) else Strip(t[..p]) + [t[p]]
  {
    assert t[..p + 1][..p] == t[..p];
  }

  lemma PrefixTransitive(a: seq<bv8>, b: seq<bv8>, c: seq<bv8>)
    requires a <= b && b <= c
    ensures a <= c
  {
  }

  lemma {:induction false} StripPrefix(t: seq<bv8>, p: nat)
    requires p <= |t|
    ensures Strip(t[..p]) <= Strip(t)
    decreases |t| - p
  {
    if p < |t| {
      var s, next := Strip(t[..p]), Strip(t[..p + 1]);
      assert s <= next by {
        StripSnoc(t, p);
      }
      StripPrefix(t, p + 1);
      PrefixTransitive(s, next, Strip(t));
    } else {
      assert t[..p] == t;
    }
  }

  predicate AllHex(s: seq<bv8>) {
    s == [] || (IsHex(s[|s| - 1]) && AllHex(s[..|s| - 1]))
  }

  lemma {:induction false} AllHexAt(s: seq<bv8>)
    ensures AllHex(s) <==> forall k :: 0 <= k < |s| ==> IsHex(s[k])
  {
    if s != [] {
      var init := s[..|s| - 1];
      AllHexAt(init);
      assert forall k :: 0 <= k < |init| ==> init[k] == s[k];
    }
  }

  lemma AllHexSnoc(s: seq<bv8>, c: bv8)
    ensures AllHex(s + [c]) <==> AllHex(s) && IsHex(c)
  {
    assert (s + [c])[..|s|] == s;
  }

  function PairByte(hi: bv8, lo: bv8): bv8
    requires IsHex(hi) && IsHex(lo)
  {
    (Digit(hi) << 4) | Digit(lo)
  }

  lemma {:induction false} AllHexInit(s: seq<bv8>, k: nat)
    requires AllHex(s) && k <= |s|
    ensures AllHex(s[..k])
    decreases |s|
  {
    if k < |s| {
      assert s[..|s| - 1][..k] == s[..k];
      AllHexInit(s[..|s| - 1], k);
    } else {
      assert s[..k] == s;
    }
  }

  function EvenPairs(s: seq<bv8>): (bs: seq<bv8>)
    requires AllHex(s) && |s| % 2 == 0
    ensures |bs| == |s| / 2
  {
    if s == [] then []
    else
      AllHexAt(s);
      AllHexInit(s, |s| - 2);
      EvenPairs(s[..|s| - 2]) + [PairByte(s[|s| - 2], s[|s| - 1])]
  }

  /** The bytes that pairs of digits stand for; an odd digit at the end is dropped. */
  function Pairs(s: seq<bv8>): (bs: seq<bv8>)
    requires AllHex(s)
    ensures |bs| == |s| / 2
  {
    if |s| % 2 == 0 then EvenPairs(s)
    else
      AllHexInit(s, |s| - 1);
      EvenPairs(s[..|s| - 1])
  }

  /** Nowhere does a "0x" start a number. */
  ghost predicate NoPrefix(t: seq<bv8>) {
    forall k :: 1 <= k < |t| && t[k] == 120 ==> t[k - 1] != 48
  }

  // ----- hexstr2binstr

  /** The parser after the digits q: the bytes w have been written, and of the digits behind them,
      j in number, the value is c. */
  ghost predicate Reading(q: seq<bv8>, w: seq<bv8>, j: nat, c: bv8) {
    && AllHex(q) && j <= 2 && |q| == 2 * |w| + j
    && (if j == 2 then Pairs(q) == w + [c] else Pairs(q) == w)
    && (if j == 0 then c == 0 else if j == 1 then c == FirstValue(q) else true)
  }

  /** The value of a lone digit at the end. */
  ghost function FirstValue(q: seq<bv8>): bv8
    requires AllHex(q) && q != []
  {
    Digit(q[|q| - 1]) << 4
  }

  lemma ReadDigit(q: seq<bv8>, w: seq<bv8>, j: nat, c: bv8, ch: bv8)
    requires Reading(q, w, j, c) && j < 2 && IsHex(ch)
    ensures !Hex2Int(c, ch).1
    ensures var c1 := Hex2Int(c, ch).0 | c;
            Reading(q + [ch], w, j + 1, if j == 0 then c1 << 4 else c1)
  {
    AllHexSnoc(q, ch);
    var next := q + [ch];
    if j == 0 {
      FirstDigit(ch);
      assert next[..|next| - 1] == q;
    } else {
      var last := q[|q| - 1];
      SecondDigit(Digit(last), ch);
      assert next[..|next| - 2] == q[..|q| - 1];
    }
  }

  lemma FirstDigit(ch: bv8)
    requires IsHex(ch)
    ensures (Hex2Int(0, ch).0 | 0) << 4 == Digit(ch) << 4
  {
  }

  lemma SecondDigit(hi: bv8, ch: bv8)
    requires IsHex(ch) && hi < 16
    ensures Hex2Int(hi << 4, ch).0 | (hi << 4) == (hi << 4) | Digit(ch)
  {
  }

  /** A character that is neither ignored nor a digit spoils the text. */
  lemma BadCharacter(t: seq<bv8>, p: nat)
    requires p < |t| && !Ignored(t[p]) && !IsHex(t[p])
    ensures !AllHex(Strip(t))
  {
    StripSnoc(t, p);
    StripPrefix(t, p + 1);
    assert Strip(t[..p + 1])[|Strip(t[..p])|] == t[p];
    AllHexAt(Strip(t));
  }

  /** What is still to be read of the text t in `inp` is intact from position p on. */
  ghost predicate Intact(inp: array<bv8>, t: seq<bv8>, p: nat)
    reads inp
  {
    |t| < inp.Length && inp[|t|] == 0 && forall k :: p <= k < |t| ==> inp[k] == t[k]
  }

  /** Write a finished byte behind those written before; in place, that is in front of what is still
      to be read. */
  method Flush(inp: array<bv8>, out: array<bv8>, len0: nat, c0: bv8, j0: nat,
               ghost t: seq<bv8>, ghost p: nat, ghost q: seq<bv8>)
    returns (len: nat, c: bv8, j: nat)
    requires len0 <= out.Length && Intact(inp, t, p) && |q| <= p <= |t| && |q| <= 2 * out.Length + 1
    requires Reading(q, out[..len0], j0, c0)
    modifies out
    ensures len <= out.Length && Reading(q, out[..len], j, c) && j < 2
    ensures Intact(inp, t, p)
  {
    len, c, j := len0, c0, j0;
    if j == 2 {
      ghost var w := out[..len];
      out[len] := c;
      len := len + 1;
      assert out[..len] == w + [c];
      c, j := 0, 0;
    }
  }

  /** Take the character at position p into the pending value, unless it is no digit. */
  method Accept(c0: bv8, j0: nat, inp: array<bv8>, p: nat, ghost t: seq<bv8>, ghost q: seq<bv8>, ghost w: seq<bv8>)
    returns (c: bv8, j: nat, bad: bool)
    requires Reading(q, w, j0, c0) && j0 < 2
    requires p < |t| && Intact(inp, t, p) && NoPrefix(t)
    ensures bad <==> !IsHex(inp[p])
    ensures !bad ==> Reading(q + [inp[p]], w, j, c)
  {
    c, j := c0, j0;
    var ch := inp[p];
    assert ch == t[p] && (p + 1 < |t| ==> inp[p + 1] == t[p + 1]);
    assert p + 1 < |t| && t[p + 1] == 120 ==> t[p] != 48;
    if ch == 48 && inp[p + 1] == 120 {
      // a number in "0x" notation
      assert false;
    }
    var d := c;
    var (val, no) := Hex2Int(c, ch);
    bad := no;
    if !bad {
      ReadDigit(q, w, j, c, ch);
      c := val | d;
      if j == 0 {
        c := c << 4;
      }
      j := j + 1;
    }
  }

  /** How the digits read grow at position p. */
  lemma Progress(t: seq<bv8>, p: nat)
    requires p <= |t|
    ensures |Strip(t[..p])| <= p && |Strip(t[..p])| <= |Strip(t)|
    ensures p < |t| ==> Strip(t[..p + 1]) == if Ignored(t[p]) then Strip(t[..p]) else Strip(t[..p]) + [t[p]]
  {
    StripPrefix(t, p);
    if p < |t| {
      StripSnoc(t, p);
    }
  }

  /** One character that is not ignored: it may end the text or spoil it. */
  method Take(inp: array<bv8>, out: array<bv8>, len0: nat, c0: bv8, j0: nat, p: nat,
              ghost t: seq<bv8>, ghost q: seq<bv8>)
    returns (len: nat, c: bv8, j: nat, end: bool, bad: bool)
    requires p <= |t| && Intact(inp, t, p) && NoPrefix(t) && !Ignored(inp[p])
    requires forall k :: 0 <= k < |t| ==> t[k] != 0
    requires len0 <= out.Length && |q| <= p && |q| <= 2 * out.Length + 1 && Reading(q, out[..len0], j0, c0)
    modifies out
    ensures Intact(inp, t, p)
    ensures end <==> p == |t|
    ensures bad <==> p < |t| && !IsHex(t[p])
    ensures !bad ==> len <= out.Length && Reading(if end then q else q + [t[p]], out[..len], j, c)
    ensures end ==> j < 2
  {
    len, c, j := Flush(inp, out, len0, c0, j0, t, p, q);
    end, bad := inp[p] == 0, false;
    if !end {
      c, j, bad := Accept(c, j, inp, p, t, q, out[..len]);
    }
  }

  /** The parser in front of position p. */
  ghost predicate ReadTo(t: seq<bv8>, p: nat, w: seq<bv8>, j: nat, c: bv8) {
    p <= |t| && Reading(Strip(t[..p]), w, j, c)
  }

  lemma ReadNothing(t: seq<bv8>, w: seq<bv8>)
    requires w == []
    ensures ReadTo(t, 0, w, 0, 0)
  {
  }

  lemma ReadAll(t: seq<bv8>, w: seq<bv8>, j: nat, c: bv8)
    requires ReadTo(t, |t|, w, j, c) && j < 2
    ensures AllHex(Strip(t)) && Pairs(Strip(t)) == w
  {
    assert t[..|t|] == t;
  }

  /** One round of the loop. */
  method Round(inp: array<bv8>, out: array<bv8>, len0: nat, c0: bv8, j0: nat, p: nat, ghost t: seq<bv8>)
    returns (len: nat, c: bv8, j: nat, end: bool, bad: bool)
    requires p <= |t| && Intact(inp, t, p) && NoPrefix(t) && |Strip(t)| <= 2 * out.Length + 1
    requires forall k :: 0 <= k < |t| ==> t[k] != 0
    requires len0 <= out.Length && ReadTo(t, p, out[..len0], j0, c0)
    modifies out
    ensures Intact(inp, t, p)
    ensures bad ==> !end && !AllHex(Strip(t))
    ensures end ==> AllHex(Strip(t)) && len <= out.Length && out[..len] == Pairs(Strip(t))
    ensures !end && !bad ==> p < |t| && len <= out.Length && ReadTo(t, p + 1, out[..len], j, c)
  {
    Progress(t, p);
    if Ignored(inp[p]) {
      return len0, c0, j0, false, false;
    }
    len, c, j, end, bad := Take(inp, out, len0, c0, j0, p, t, Strip(t[..p]));
    if bad {
      BadCharacter(t, p);
    } else if end {
      ReadAll(t, out[..len], j, c);
    }
  }

  /** `hexstr2binstr` on the text of n characters in `inp`, for texts without "0x".  The output array may
      be the input array.  All digits: their pairs; any other character: 0. */
  method HexStr2BinStr(inp: array<bv8>, out: array<bv8>, ghost n: nat) returns (len: nat)
    requires n < inp.Length && inp[n] == 0 && forall k :: 0 <= k < n ==> inp[k] != 0
    requires NoPrefix(inp[..n]) && |Strip(inp[..n])| <= 2 * out.Length + 1
    modifies out
    ensures if AllHex(Strip(old(inp[..n])))
            then len <= out.Length && out[..len] == Pairs(Strip(old(inp[..n])))
            else len == 0
  {
    ghost var t := inp[..n];
    var c: bv8 := 0;
    var j, p := 0, 0;
    len := 0;
    ReadNothing(t, out[..len]);
    while true
      invariant p <= n == |t| && Intact(inp, t, p)
      invariant len <= out.Length && ReadTo(t, p, out[..len], j, c)
      decreases n - p
    {
      var end, bad;
      len, c, j, end, bad := Round(inp, out, len, c, j, p, t);
      if end {
        break;
      }
      if bad {
        return 0;
      }
      p := p + 1;
    }
  }

  // ----- printing

  /** A hexadecimal digit as `%x` prints it. */
  function DigitChar(d: bv8): (c: bv8)
    requires d < 16
    ensures IsHex(c) && Digit(c) == d && !Ignored(c)
  {
    if d < 10 then d + 48 else d + 87
  }

  /** The digits of a byte as `%02x` prints them. */
  function ByteDigits(b: bv8): (s: seq<bv8>)
    ensures |s| == 2
  {
    [DigitChar(b >> 4), DigitChar(b & 0x0f)]
  }

  function Digits(bs: seq<bv8>): (s: seq<bv8>)
    ensures |s| == 2 * |bs|
  {
    if bs == [] then [] else Digits(bs[..|bs| - 1]) + ByteDigits(bs[|bs| - 1])
  }

  /** The bytes as `undo_write_list` prints them: every pair of digits with a blank behind it. */
  function Printed(bs: seq<bv8>): seq<bv8> {
    if bs == [] then [] else Printed(bs[..|bs| - 1]) + ByteDigits(bs[|bs| - 1]) + [32]
  }

  lemma {:induction false} StripAppend(t: seq<bv8>, u: seq<bv8>)
    ensures Strip(t + u) == Strip(t) + Strip(u)
    decreases |u|
  {
    if u == [] {
      assert t + u == t;
    } else {
      var init := u[..|u| - 1];
      assert (t + u)[..|t + u| - 1] == t + init;
      StripAppend(t, init);
    }
  }

  lemma StripDigits(b: bv8)
    ensures Strip(ByteDigits(b) + [32]) == ByteDigits(b)
  {
    var s := ByteDigits(b);
    assert (s + [32])[..2] == s && s[..1] == [s[0]] && [s[0]][..0] == [];
    assert Strip([s[0]]) == [s[0]];
    assert Strip(s) == [s[0]] + [s[1]];
  }

  lemma {:induction false} StripPrinted(bs: seq<bv8>)
    ensures Strip(Printed(bs)) == Digits(bs)
  {
    if bs != [] {
      var init, b := bs[..|bs| - 1], bs[|bs| - 1];
      StripPrinted(init);
      StripAppend(Printed(init), ByteDigits(b) + [32]);
      StripDigits(b);
      assert Printed(bs) == Printed(init) + (ByteDigits(b) + [32]);
    }
  }

  /** The digits of a byte stand for the byte. */
  lemma ByteRoundTrip(b: bv8) returns (hi: bv8, lo: bv8)
    ensures IsHex(hi) && IsHex(lo) && ByteDigits(b) == [hi, lo] && PairByte(hi, lo) == b
  {
    hi, lo := DigitChar(b >> 4), DigitChar(b & 0x0f);
    var h, l := b >> 4, b & 0x0f;
    assert (h << 4) | l == b;
  }

  lemma AllHexTwo(d: seq<bv8>, hi: bv8, lo: bv8)
    requires AllHex(d) && IsHex(hi) && IsHex(lo)
    ensures AllHex(d + [hi, lo])
  {
    AllHexSnoc(d, hi);
    AllHexSnoc(d + [hi], lo);
    assert d + [hi, lo] == d + [hi] + [lo];
  }

  lemma EvenPairsStep(s: seq<bv8>, d: seq<bv8>, hi: bv8, lo: bv8)
    requires AllHex(s) && AllHex(d) && |d| % 2 == 0 && IsHex(hi) && IsHex(lo) && s == d + [hi, lo]
    ensures EvenPairs(s) == EvenPairs(d) + [PairByte(hi, lo)]
  {
    assert s[..|s| - 2] == d && s[|s| - 2] == hi && s[|s| - 1] == lo;
  }

  /** Two more digits are one more byte. */
  lemma PairsAppend(d: seq<bv8>, hi: bv8, lo: bv8, bs: seq<bv8>, b: bv8)
    requires AllHex(d) && |d| % 2 == 0 && IsHex(hi) && IsHex(lo)
    requires Pairs(d) == bs && PairByte(hi, lo) == b
    ensures AllHex(d + [hi, lo]) && Pairs(d + [hi, lo]) == bs + [b]
  {
    AllHexTwo(d, hi, lo);
    EvenPairsStep(d + [hi, lo], d, hi, lo);
  }

  lemma DigitsStep(bs: seq<bv8>, b: bv8)
    requires AllHex(Digits(bs)) && Pairs(Digits(bs)) == bs
    ensures AllHex(Digits(bs) + ByteDigits(b)) && Pairs(Digits(bs) + ByteDigits(b)) == bs + [b]
  {
    var hi, lo := ByteRoundTrip(b);
    PairsAppend(Digits(bs), hi, lo, bs, b);
  }

  lemma {:induction false} DigitsRoundTrip(bs: seq<bv8>)
    ensures AllHex(Digits(bs)) && Pairs(Digits(bs)) == bs
  {
    if bs != [] {
      var init, b := bs[..|bs| - 1], bs[|bs| - 1];
      DigitsRoundTrip(init);
      DigitsStep(init, b);
      assert bs == init + [b];
    }
  }

  lemma {:induction false} StripIn(t: seq<bv8>, c: bv8)
    requires c in t && !Ignored(c)
    ensures c in Strip(t)
  {
    if t[|t| - 1] != c {
      StripIn(t[..|t| - 1], c);
    }
  }

  /** Every text whose characters, apart from the ignored ones, are the digits of the bytes is read back
      as those bytes, wherever the ignored characters stand; it contains no "0x", so that
      HexStr2BinStr applies. */
  lemma ReadsBack(bs: seq<bv8>, t: seq<bv8>)
    requires Strip(t) == Digits(bs)
    ensures NoPrefix(t) && AllHex(Strip(t)) && Pairs(Strip(t)) == bs
  {
    DigitsRoundTrip(bs);
    NoDigitX(t);
  }

  /** Digits may be in either case. */
  function Lower(c: bv8): bv8 {
    if 65 <= c <= 70 then c + 32 else c
  }

  ghost predicate SameButCase(s: seq<bv8>, t: seq<bv8>) {
    |s| == |t| &&
    (s == [] || (Lower(s[|s| - 1]) == Lower(t[|t| - 1]) && SameButCase(s[..|s| - 1], t[..|t| - 1])))
  }

  lemma LowerDigit(c: bv8, d: bv8)
    requires Lower(c) == Lower(d)
    ensures IsHex(c) == IsHex(d) && (IsHex(c) ==> Digit(c) == Digit(d))
  {
  }

  lemma {:induction false} CaseOfHex(s: seq<bv8>, t: seq<bv8>)
    requires SameButCase(s, t)
    ensures AllHex(s) == AllHex(t)
  {
    if s != [] {
      var n := |s| - 1;
      LowerDigit(s[n], t[n]);
      CaseOfHex(s[..n], t[..n]);
    }
  }

  lemma PairOfCase(h: bv8, l: bv8, hi: bv8, lo: bv8)
    requires Lower(h) == Lower(hi) && Lower(l) == Lower(lo) && IsHex(h) && IsHex(l) && IsHex(hi) && IsHex(lo)
    ensures PairByte(h, l) == PairByte(hi, lo)
  {
    LowerDigit(h, hi);
    LowerDigit(l, lo);
  }

  /** The last two characters, in either case. */
  lemma LastTwo(s: seq<bv8>, t: seq<bv8>)
    requires SameButCase(s, t) && |s| >= 2
    ensures var n := |s| - 2;
            SameButCase(s[..n], t[..n]) && Lower(s[n]) == Lower(t[n]) && Lower(s[n + 1]) == Lower(t[n + 1])
  {
    var n := |s| - 2;
    assert s[..n + 1][..n] == s[..n] && t[..n + 1][..n] == t[..n];
    assert s[..n + 1][n] == s[n] && t[..n + 1][n] == t[n];
  }

  lemma LastPair(s: seq<bv8>)
    requires AllHex(s) && |s| % 2 == 0 && s != []
    ensures var n := |s| - 2;
            AllHex(s[..n]) && IsHex(s[n]) && IsHex(s[n + 1])
            && EvenPairs(s) == EvenPairs(s[..n]) + [PairByte(s[n], s[n + 1])]
  {
    var n := |s| - 2;
    AllHexInit(s, n + 1);
    assert s[..n + 1][..n] == s[..n] && s[..n + 1][n] == s[n];
  }

  lemma {:induction false} CaseOfPairs(s: seq<bv8>, t: seq<bv8>)
    requires SameButCase(s, t) && AllHex(t) && AllHex(s) && |s| % 2 == 0
    ensures EvenPairs(s) == EvenPairs(t)
    decreases |s|
  {
    if s != [] {
      var n := |s| - 2;
      LastPair(s);
      LastPair(t);
      LastTwo(s, t);
      CaseOfPairs(s[..n], t[..n]);
      PairOfCase(s[n], s[n + 1], t[n], t[n + 1]);
    }
  }

  lemma PairsOfOdd(s: seq<bv8>, d: seq<bv8>)
    requires AllHex(s) && AllHex(d) && |d| % 2 == 0 && |s| == |d| + 1 && s[..|d|] == d
    ensures Pairs(s) == Pairs(d)
  {
  }

  lemma CaseOfOddPairs(s: seq<bv8>, t: seq<bv8>)
    requires SameButCase(s, t) && AllHex(s) && AllHex(t) && |s| % 2 == 1
    ensures Pairs(s) == Pairs(t)
  {
    var n := |s| - 1;
    AllHexInit(s, n);
    AllHexInit(t, n);
    CaseOfPairs(s[..n], t[..n]);
    PairsOfOdd(s, s[..n]);
    PairsOfOdd(t, t[..n]);
  }

  lemma CaseOfAllPairs(s: seq<bv8>, t: seq<bv8>)
    requires SameButCase(s, t) && AllHex(t)
    ensures AllHex(s) && Pairs(s) == Pairs(t)
  {
    CaseOfHex(s, t);
    if |s| % 2 == 0 {
      CaseOfPairs(s, t);
    } else {
      CaseOfOddPairs(s, t);
    }
  }

  /** A single digit behind the pairs is dropped. */
  lemma OddDigitDropped(d: seq<bv8>, c: bv8)
    requires AllHex(d) && |d| % 2 == 0 && IsHex(c)
    ensures AllHex(d + [c]) && Pairs(d + [c]) == Pairs(d)
  {
    AllHexSnoc(d, c);
    PairsOfOdd(d + [c], d);
  }

  /** A text of the digits of some bytes, in either case, reads back as these bytes, also with a single digit
      behind them. */
  lemma ReadsBackAnyCase(bs: seq<bv8>, t: seq<bv8>, odd: seq<bv8>)
    requires odd == [] || (|odd| == 1 && IsHex(odd[0]))
    requires SameButCase(Strip(t), Digits(bs) + odd)
    ensures NoPrefix(t) && AllHex(Strip(t)) && Pairs(Strip(t)) == bs
  {
    DigitsRoundTrip(bs);
    if odd == [] {
      assert Digits(bs) + odd == Digits(bs);
    } else {
      assert odd == [odd[0]];
      OddDigitDropped(Digits(bs), odd[0]);
    }
    CaseOfAllPairs(Strip(t), Digits(bs) + odd);
    NoDigitX(t);
  }

  /** An x is no digit, so there is no "0x" among digits. */
  lemma NoDigitX(t: seq<bv8>)
    requires AllHex(Strip(t))
    ensures NoPrefix(t)
  {
    AllHexAt(Strip(t));
    forall k | 1 <= k < |t|
      ensures t[k] != 120
    {
      if t[k] == 120 {
        StripIn(t, 120);
      }
    }
  }

  /** The digits are 0 to 9 (48 to 57) and a to f (97 to 102) when they are printed, and mean 0 to 15 in
      either case when they are read. */
  lemma DigitTable()
    ensures DigitChar(0) == 48 && DigitChar(1) == 49 && DigitChar(2) == 50 && DigitChar(3) == 51
    ensures DigitChar(4) == 52 && DigitChar(5) == 53 && DigitChar(6) == 54 && DigitChar(7) == 55
    ensures DigitChar(8) == 56 && DigitChar(9) == 57 && DigitChar(10) == 97 && DigitChar(11) == 98
    ensures DigitChar(12) == 99 && DigitChar(13) == 100 && DigitChar(14) == 101 && DigitChar(15) == 102
    ensures Digit(65) == 10 && Digit(66) == 11 && Digit(67) == 12
    ensures Digit(68) == 13 && Digit(69) == 14 && Digit(70) == 15
  {
  }

  /** In particular the bytes that the undo log prints. */
  lemma PrintedReadsBack(bs: seq<bv8>)
    ensures var t := Printed(bs); NoPrefix(t) && AllHex(Strip(t)) && Pairs(Strip(t)) == bs
  {
    StripPrinted(bs);
    ReadsBack(bs, Printed(bs));
  }
}
