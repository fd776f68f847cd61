/** Identifiers on the lookup ring (peer.py): node and file ids are SHA-1
    digests written as 40 lowercase hex digits, read as numbers modulo
    2^160. This module holds the clockwise distance between two ids and the
    addition of an offset to an id. */
module RingIds {
  import opened Outcomes
  import opened Strings

  /** 2^160, the number of points on the ring. */
  const IdSpace: nat := 0x1_0000_0000_0000_0000_0000_0000_0000_0000_0000_0000

  function Pow16(k: nat): (p: nat)
    ensures p >= 1
  {
    if k == 0 then 1 else 16 * Pow16(k - 1)
  }

  lemma IdSpaceIsPow16()
    ensures Pow16(40) == IdSpace
  {
    assert Pow16(10) == 0x100_0000_0000;
    assert Pow16(20) == Pow16(10) * Pow16(10) by { Pow16Add(10, 10); }
    assert Pow16(40) == Pow16(20) * Pow16(20) by { Pow16Add(20, 20); }
  }

  lemma {:induction false} Pow16Add(i: nat, j: nat)
    ensures Pow16(i + j) == Pow16(i) * Pow16(j)
  {
    if j > 0 {
      Pow16Add(i, j - 1);
      assert Pow16(i + j) == 16 * Pow16(i + j - 1);
    }
  }

  // ---------------------------------------------------------------------------
  // Hex digits

  predicate IsHexDigit(c: char) {
    '0' <= c <= '9' || 'a' <= c <= 'f' || 'A' <= c <= 'F'
  }

  predicate IsLowerHexDigit(c: char) {
    '0' <= c <= '9' || 'a' <= c <= 'f'
  }

  predicate AllHex(s: string) {
    forall i :: 0 <= i < |s| ==> IsHexDigit(s[i])
  }

  predicate AllLowerHex(s: string) {
    forall i :: 0 <= i < |s| ==> IsLowerHexDigit(s[i])
  }

  function HexDigitValue(c: char): (d: nat)
    requires IsHexDigit(c)
    ensures d < 16
  {
    if '0' <= c <= '9' then c as int - '0' as int
    else if 'a' <= c <= 'f' then c as int - 'a' as int + 10
    else c as int - 'A' as int + 10
  }

  /** The digit '%x' writes for d. */
  function LowerHexDigit(d: nat): (c: char)
    requires d < 16
    ensures IsLowerHexDigit(c) && IsHexDigit(c) && HexDigitValue(c) == d
  {
    if d < 10 then (('0' as int) + d) as char else (('a' as int) + d - 10) as char
  }

  /** The value of a string of hex digits, most significant first. */
  function HexValue(s: string): nat
    requires AllHex(s)
  {
    if s == [] then 0 else HexValue(s[..|s| - 1]) * 16 + HexDigitValue(s[|s| - 1])
  }

  lemma {:induction false} HexValueBound(s: string)
    requires AllHex(s)
    ensures HexValue(s) < Pow16(|s|)
  {
    if s != [] {
      HexValueBound(s[..|s| - 1]);
    }
  }

  /** Leading zeros do not change the value. */
  lemma {:induction false} HexValueZeros(m: nat, h: string)
    requires AllHex(h)
    ensures AllHex(Zeros(m) + h) && HexValue(Zeros(m) + h) == HexValue(h)
    decreases |h|
  {
    var z := Zeros(m);
    if h == [] {
      assert z + h == z;
      ZerosValue(m);
    } else {
      var p := h[..|h| - 1];
      HexValueZeros(m, p);
      assert (z + h)[..|z + h| - 1] == z + p;
      assert (z + h)[|z + h| - 1] == h[|h| - 1];
    }
  }

  function Zeros(m: nat): (z: string)
    ensures |z| == m && AllLowerHex(z) && AllHex(z)
  {
    if m == 0 then [] else Zeros(m - 1) + ['0']
  }

  lemma {:induction false} ZerosValue(m: nat)
    ensures HexValue(Zeros(m)) == 0
  {
    if m > 0 {
      ZerosValue(m - 1);
      assert Zeros(m)[..m - 1] == Zeros(m - 1);
    }
  }

  /** Two lowercase hex strings of one length with one value are equal. */
  lemma {:induction false} HexValueInjective(s: string, t: string)
    requires AllLowerHex(s) && AllLowerHex(t) && |s| == |t|
    requires HexValue(s) == HexValue(t)
    ensures s == t
  {
    if s != [] {
      var n := |s| - 1;
      var cs, ct := s[n], t[n];
      assert HexValue(s) % 16 == HexDigitValue(cs) && HexValue(s) / 16 == HexValue(s[..n]) by {
        DivMod16(HexValue(s[..n]), HexDigitValue(cs));
      }
      assert HexValue(t) % 16 == HexDigitValue(ct) && HexValue(t) / 16 == HexValue(t[..n]) by {
        DivMod16(HexValue(t[..n]), HexDigitValue(ct));
      }
      HexValueInjective(s[..n], t[..n]);
      LowerDigitInjective(cs, ct);
      assert s == s[..n] + [cs] && t == t[..n] + [ct];
    }
  }

  lemma DivMod16(q: nat, r: nat)
    requires r < 16
    ensures (q * 16 + r) % 16 == r && (q * 16 + r) / 16 == q
  {
  }

  lemma LowerDigitInjective(c: char, d: char)
    requires IsLowerHexDigit(c) && IsLowerHexDigit(d) && HexDigitValue(c) == HexDigitValue(d)
    ensures c == d
  {
  }

  /** '%x' % v: the shortest lowercase hex numeral. */
  function LowerHex(v: nat): (s: string)
    ensures |s| >= 1 && AllLowerHex(s) && AllHex(s)
  {
    if v < 16 then [LowerHexDigit(v)] else LowerHex(v / 16) + [LowerHexDigit(v % 16)]
  }

  lemma {:induction false} LowerHexValue(v: nat)
    ensures HexValue(LowerHex(v)) == v
  {
    if v >= 16 {
      LowerHexValue(v / 16);
      var s := LowerHex(v);
      assert s[..|s| - 1] == LowerHex(v / 16);
    }
  }

  /** A value below 16^k needs at most k digits, one at or above it more. */
  lemma {:induction false} LowerHexLength(v: nat, k: nat)
    requires k >= 1
    ensures |LowerHex(v)| <= k <==> v < Pow16(k)
  {
    if v >= 16 && k > 1 {
      LowerHexLength(v / 16, k - 1);
    } else if v >= 16 {
      assert |LowerHex(v)| >= 2;
    }
  }

  /** '%040x' % v: lowercase hex, padded with zeros to at least 40 digits. */
  function Format040x(v: nat): (s: string)
    ensures AllLowerHex(s) && AllHex(s) && |s| >= 40
  {
    var h := LowerHex(v);
    if |h| >= 40 then h else Zeros(40 - |h|) + h
  }

  /** The numeral '%040x' writes has the value it was given. */
  lemma Format040xValue(v: nat)
    ensures HexValue(Format040x(v)) == v
  {
    LowerHexValue(v);
    var h := LowerHex(v);
    if |h| < 40 {
      HexValueZeros(40 - |h|, h);
    }
  }

  /** It is exactly 40 digits long when v is a point of the ring. */
  lemma Format040xLength(v: nat)
    ensures |Format040x(v)| == 40 <==> v < IdSpace
  {
    LowerHexLength(v, 40);
    IdSpaceIsPow16();
  }

  // ---------------------------------------------------------------------------
  // Digests

  /** hexdigest() of SHA-1: forty lowercase hex digits. */
  predicate IsDigest(s: string) {
    |s| == 40 && AllLowerHex(s)
  }

  type Digest = s: string | IsDigest(s)
    witness "0000000000000000000000000000000000000000"

  /** Every point of the ring is written as one digest, and read back. */
  lemma DigestOfValue(v: nat)
    requires v < IdSpace
    ensures IsDigest(Format040x(v)) && HexValue(Format040x(v)) == v
  {
    Format040xLength(v);
    Format040xValue(v);
  }

  /** A digest names a point of the ring, and different digests name
      different points. */
  lemma DigestValue(a: Digest, b: Digest)
    ensures HexValue(a) < IdSpace
    ensures HexValue(a) == HexValue(b) <==> a == b
  {
    HexValueBound(a);
    IdSpaceIsPow16();
    if HexValue(a) == HexValue(b) {
      HexValueInjective(a, b);
    }
  }

  // ---------------------------------------------------------------------------
  // long(s, 16)

  /** Python 2's long(s, 16): whitespace around, an optional sign followed
      by more whitespace, an optional 0x prefix, then hex digits; None stands
      for the ValueError. */
  function ParseHex(s: string): Option<int> {
    var t := TrimRight(TrimLeft(s));
    if t == [] then None
    else if t[0] == '-' then Negated(HexDigits(TrimLeft(t[1..])))
    else if t[0] == '+' then HexDigits(TrimLeft(t[1..]))
    else HexDigits(t)
  }

  /** The value after a minus sign: a failed parse stays failed. */
  function Negated(h: Option<int>): (r: Option<int>)
    ensures r.Some? <==> h.Some?
    ensures r.Some? ==> r.value == -h.value
  {
    if h.Some? then Some(-h.value) else None
  }

  /** The unsigned part of long(s, 16): an optional 0x prefix, then at least
      one hex digit. */
  function HexDigits(u: string): Option<int> {
    var w := if |u| >= 2 && u[0] == '0' && (u[1] == 'x' || u[1] == 'X') then u[2..] else u;
    if w != [] && AllHex(w) then Some(HexValue(w) as int) else None
  }

  /** Plain hex digits carry no prefix and read as their value. */
  lemma HexDigitsPlain(d: string)
    requires d != [] && AllHex(d)
    ensures HexDigits(d) == Some(HexValue(d) as int)
  {
    assert !(|d| >= 2 && d[0] == '0' && (d[1] == 'x' || d[1] == 'X')) by {
      if |d| >= 2 { assert IsHexDigit(d[1]); }
    }
  }

  /** A plain string of hex digits reads as its value. */
  lemma ParseHexDigits(s: string)
    requires s != [] && AllHex(s)
    ensures ParseHex(s) == Some(HexValue(s) as int)
  {
    assert IsHexDigit(s[0]) && IsHexDigit(s[|s| - 1]);
    TrimLeftNoSpace(s);
    TrimRightNoSpace(s);
    HexDigitsPlain(s);
  }

  /** long(s, 16) skips whitespace between the sign and the digits
      (long('-\tff', 16) is -255): a minus, whitespace and a hex numeral d,
      with or without its 0x prefix, parse as minus the value of d. */
  lemma ParseHexSpaceAfterMinus(w: string, d: string)
    requires forall i :: 0 <= i < |w| ==> IsSpace(w[i])
    requires HexDigits(d).Some?
    ensures ParseHex("-" + w + d) == Negated(HexDigits(d))
  {
    HexDigitsEnds(d);
    HexSignedSpaces('-', w, d);
  }

  /** The same after a plus sign: long('+ ff', 16) is 255. */
  lemma ParseHexSpaceAfterPlus(w: string, d: string)
    requires forall i :: 0 <= i < |w| ==> IsSpace(w[i])
    requires HexDigits(d).Some?
    ensures ParseHex("+" + w + d) == HexDigits(d)
  {
    HexDigitsEnds(d);
    HexSignedSpaces('+', w, d);
  }

  /** A sign, whitespace, then text d with non-space ends: the whitespace
      is skipped and d is read as the unsigned part. */
  lemma HexSignedSpaces(c: char, w: string, d: string)
    requires c == '-' || c == '+'
    requires forall i :: 0 <= i < |w| ==> IsSpace(w[i])
    requires d != [] && !IsSpace(d[0]) && !IsSpace(d[|d| - 1])
    ensures ParseHex([c] + w + d) == if c == '-' then Negated(HexDigits(d)) else HexDigits(d)
  {
    var s := [c] + w + d;
    assert TrimRight(TrimLeft(s)) == s by {
      EndsUntrimmed(c, w, d);
    }
    assert TrimLeft(s[1..]) == d by {
      assert s[1..] == w + d;
      TrimLeftSpaces(w, d);
    }
    assert s[0] == c;
  }

  /** A hex numeral starts and ends with a non-space. */
  lemma HexDigitsEnds(d: string)
    requires HexDigits(d).Some?
    ensures d != [] && !IsSpace(d[0]) && !IsSpace(d[|d| - 1])
  {
    var u := if |d| >= 2 && d[0] == '0' && (d[1] == 'x' || d[1] == 'X') then d[2..] else d;
    assert u != [] && AllHex(u);
    assert IsHexDigit(u[|u| - 1]) && u[|u| - 1] == d[|d| - 1];
    assert d[0] == '0' || IsHexDigit(d[0]) by {
      if u == d {
        assert IsHexDigit(u[0]);
      }
    }
  }

  /** Text that starts with a sign and ends in a non-space is left alone by
      the outer strip. */
  lemma EndsUntrimmed(c: char, w: string, d: string)
    requires c == '-' || c == '+'
    requires d != [] && !IsSpace(d[|d| - 1])
    ensures TrimRight(TrimLeft([c] + w + d)) == [c] + w + d
  {
    var s := [c] + w + d;
    assert s[|s| - 1] == d[|d| - 1];
    TrimLeftNoSpace(s);
    TrimRightNoSpace(s);
  }

  // ---------------------------------------------------------------------------
  // id_distance and add_to_id

  /** id_distance(id1, id2): 2^160 for equal strings, otherwise the distance
      from id1 clockwise to id2, as long as both parse. */
  function IdDistance(id1: string, id2: string): (r: Result<int>)
    ensures r.Err? <==> id1 != id2 && (ParseHex(id1).None? || ParseHex(id2).None?)
    ensures r.Err? ==> r.fault == ValueError
  {
    if id1 == id2 then Ok(IdSpace) else Clockwise(ParseHex(id1), ParseHex(id2))
  }

  /** The clockwise distance between two parsed ids that differ as strings. */
  function Clockwise(p1: Option<int>, p2: Option<int>): (r: Result<int>)
    ensures r.Err? <==> p1.None? || p2.None?
    ensures r.Err? ==> r.fault == ValueError
  {
    if p1.None? || p2.None? then Err(ValueError)
    else if p1.value > p2.value then Ok(IdSpace + p2.value - p1.value)
    else Ok(p2.value - p1.value)
  }

  /** Between two digests the distance is defined, lies in 1..2^160, is
      2^160 only for the id itself, and walking it clockwise from a arrives
      at b, passing the zero point at most once. */
  function DigestDistance(a: Digest, b: Digest): (d: int)
    ensures 1 <= d <= IdSpace
    ensures d == IdSpace <==> a == b
    ensures HexValue(a) + d == HexValue(b) || HexValue(a) + d == HexValue(b) + IdSpace
  {
    DigestValue(a, b);
    DigestValue(b, a);
    RingStep(a == b, HexValue(a), HexValue(b));
    Gap(a == b, HexValue(a), HexValue(b))
  }

  /** DigestDistance is what id_distance returns for two digests. */
  lemma DigestDistanceAgrees(a: Digest, b: Digest)
    ensures IdDistance(a, b) == Ok(DigestDistance(a, b))
  {
    DistanceOfValues(a, b);
  }

  /** The clockwise step between two points of the ring. */
  lemma RingStep(same: bool, x: int, y: int)
    requires 0 <= x < IdSpace && 0 <= y < IdSpace && (same <==> x == y)
    ensures 1 <= Gap(same, x, y) <= IdSpace
    ensures Gap(same, x, y) == IdSpace <==> same
    ensures x + Gap(same, x, y) == y || x + Gap(same, x, y) == y + IdSpace
  {
  }

  /** The clockwise step from x to y on the ring, or a whole turn when the
      two ids are the same string. */
  function Gap(same: bool, x: int, y: int): int {
    if same then IdSpace else if x > y then IdSpace + y - x else y - x
  }

  /** id_distance of two digests, in terms of the points they name. */
  lemma DistanceOfValues(a: Digest, b: Digest)
    ensures IdDistance(a, b) == Ok(Gap(a == b, HexValue(a), HexValue(b)))
  {
    ParseHexDigits(a);
    ParseHexDigits(b);
    DistanceOfParsed(a, b, HexValue(a), HexValue(b));
  }

  lemma DistanceOfParsed(a: string, b: string, x: int, y: int)
    requires ParseHex(a) == Some(x) && ParseHex(b) == Some(y)
    ensures IdDistance(a, b) == Ok(Gap(a == b, x, y))
  {
    if a != b {
      assert IdDistance(a, b) == Clockwise(ParseHex(a), ParseHex(b));
      ClockwiseValues(ParseHex(a), ParseHex(b), x, y);
    }
  }

  lemma ClockwiseValues(p: Option<int>, q: Option<int>, x: int, y: int)
    requires p == Some(x) && q == Some(y)
    ensures Clockwise(p, q) == Ok(if x > y then IdSpace + y - x else y - x)
  {
  }

  lemma ModShift(v: int, n: int)
    requires 0 <= v < n
    ensures (n + v) % n == v && v % n == v
  {
    assert n + v == n * 1 + v;
  }

  /** Going from a to b and on from b to a is once round the ring. */
  lemma DistanceRoundTrip(a: Digest, b: Digest)
    requires a != b
    ensures DigestDistance(a, b) + DigestDistance(b, a) == IdSpace
  {
    DigestValue(a, b);
    DigestValue(b, a);
  }

  lemma DistanceToSelf(a: string)
    ensures IdDistance(a, a) == Ok(IdSpace)
  {
  }

  /** x lies strictly inside the clockwise arc from va to vb; when va == vb
      the arc is the whole ring but va. */
  predicate InArc(va: int, vx: int, vb: int) {
    if va < vb then va < vx < vb
    else if va > vb then vx > va || vx < vb
    else vx != va
  }

  /** Being nearer to a than b is, going clockwise, is being inside the open
      arc from a to b. */
  lemma DistanceOrder(a: Digest, x: Digest, b: Digest)
    ensures DigestDistance(a, x) < DigestDistance(a, b) <==> InArc(HexValue(a), HexValue(x), HexValue(b))
  {
    DistanceOfValues(a, x);
    DistanceOfValues(a, b);
    DigestValue(a, x);
    DigestValue(a, b);
    DigestValue(x, a);
    DigestValue(b, a);
  }

  /** Being nearer to b than a is, going clockwise towards b, is being
      inside the open arc from a to b. */
  lemma DistanceOrderTo(a: Digest, x: Digest, b: Digest)
    ensures DigestDistance(x, b) < DigestDistance(a, b) <==> InArc(HexValue(a), HexValue(x), HexValue(b))
  {
    DistanceOfValues(x, b);
    DistanceOfValues(a, b);
    DigestValue(x, b);
    DigestValue(a, b);
    DigestValue(b, x);
    DigestValue(b, a);
    DigestValue(a, x);
  }

  /** add_to_id(id, n) as written: the masked sum is computed and then
      ignored, so the unreduced sum is formatted. */
  function AddToIdAsWritten(id: Digest, n: nat): string {
    Format040x(HexValue(id) + n)
  }

  /** add_to_id with the mask applied, as the masked sum evidently intends. */
  function AddToId(id: Digest, n: nat): (r: Digest)
    ensures HexValue(r) == (HexValue(id) + n) % IdSpace
  {
    DigestOfValue((HexValue(id) + n) % IdSpace);
    Format040x((HexValue(id) + n) % IdSpace)
  }

  /** Without wrap-around the two agree. */
  lemma AddToIdAgrees(id: Digest, n: nat)
    requires HexValue(id) + n < IdSpace
    ensures AddToIdAsWritten(id, n) == AddToId(id, n)
  {
    ModShift(HexValue(id) + n, IdSpace);
  }

  /** The corrected addition moves exactly n steps clockwise. */
  lemma AddToIdDistance(id: Digest, n: nat)
    requires 1 <= n < IdSpace
    ensures DigestDistance(id, AddToId(id, n)) == n
  {
    var r := AddToId(id, n);
    var v, w := HexValue(id), HexValue(r);
    DigestValue(id, r);
    DistanceOfValues(id, r);
    if v + n < IdSpace {
      ModShift(v + n, IdSpace);
      assert w == v + n;
      assert Gap(id == r, v, w) == n;
    } else {
      ModShift(v + n - IdSpace, IdSpace);
      assert w == v + n - IdSpace;
      assert Gap(id == r, v, w) == n;
    }
  }

  /** Whenever the sum passes the top of the ring, add_to_id as written
      formats a number of 41 digits, which is no digest. */
  lemma AddToIdWraps(id: Digest, n: nat)
    requires HexValue(id) + n >= IdSpace
    ensures !IsDigest(AddToIdAsWritten(id, n))
  {
    Format040xLength(HexValue(id) + n);
  }

  /** One step past the top of the ring, add_to_id as written gives the
      41-digit text of 2^160 instead of the zero id; yet every digest's
      id_distance to it is its distance to the zero id, so a lookup for it
      is routed exactly as one for the intended key. */
  lemma AddToIdTopRoutesLikeZero(a: Digest, top: Digest)
    requires HexValue(top) == IdSpace - 1
    ensures AddToIdAsWritten(top, 1) != AddToId(top, 1)
    ensures IdDistance(a, AddToIdAsWritten(top, 1)) == Ok(DigestDistance(a, AddToId(top, 1)))
  {
    var w := AddToIdAsWritten(top, 1);
    var z := AddToId(top, 1);
    assert HexValue(w) == IdSpace by { Format040xValue(IdSpace); }
    AddToIdWraps(top, 1);
    ParseHexDigits(w);
    assert HexValue(z) == 0 by { ModShift(0, IdSpace); }
    DigestValue(a, z);
    DistanceOfValues(a, z);
    ParseHexDigits(a);
    DistanceOfParsed(a, w, HexValue(a), IdSpace);
  }

  /** With wrap-around the written sum is a 41-digit string, not a digest,
      and an id's distance to it leaves the range 1..2^160: from the zero id
      to add_to_id(ffff...f, 2) it is 2^160 + 1. The corrected addition gives
      distance 1. (Both ids exist: see DigestOfValue.) */
  lemma AddToIdOverflow(top: Digest, zero: Digest)
    requires HexValue(top) == IdSpace - 1 && HexValue(zero) == 0
    ensures !IsDigest(AddToIdAsWritten(top, 2))
    ensures IdDistance(zero, AddToIdAsWritten(top, 2)) == Ok(IdSpace + 1)
    ensures IdDistance(zero, AddToId(top, 2)) == Ok(1)
  {
    var v := HexValue(top) + 2;
    var w := AddToIdAsWritten(top, 2);
    assert HexValue(w) == v by { Format040xValue(v); }
    assert |w| != 40 by { Format040xLength(v); }
    ParseHexDigits(w);
    ParseHexDigits(zero);
    DistanceOfParsed(zero, w, 0, v);
    var c := AddToId(top, 2);
    assert HexValue(c) == 1 by { ModShift(1, IdSpace); }
    DigestValue(zero, c);
    DistanceOfValues(zero, c);
  }
}
