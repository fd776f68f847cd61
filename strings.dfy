/** The text primitives the three programs lean on: Java's String.split("\\s+"),
    Python's str.split(sep) and sep.join(list), decimal formatting ('%d',
    String.valueOf), Java's Integer.parseInt and Python 2's int(str). */
module Strings {
  import opened Outcomes

  /** The characters of the regex class \s in Java and of str.strip() in
      Python 2: space, tab, newline, vertical tab, form feed, carriage return. */
  predicate IsSpace(c: char) {
    c == ' ' || '\t' <= c <= '\r'
  }

  predicate NoSpace(s: string) {
    forall i :: 0 <= i < |s| ==> !IsSpace(s[i])
  }

  // ---------------------------------------------------------------------------
  // Python: s.split(sep) with an explicit one-character separator, and sep.join(ts)

  /** Python's s.split(sep): cut at every occurrence of sep, keeping empty pieces. */
  function SplitOn(s: string, sep: char): (r: seq<string>)
    ensures |r| >= 1
    ensures forall i :: 0 <= i < |r| ==> sep !in r[i]
  {
    if s == [] then [[]]
    else
      var rest := SplitOn(s[1..], sep);
      if s[0] == sep then [[]] + rest else [[s[0]] + rest[0]] + rest[1..]
  }

  /** Python's sep.join(ts) (also the shape of Java's "VERB %s" formatting). */
  function Join(ts: seq<string>, sep: char): string {
    if |ts| == 0 then []
    else if |ts| == 1 then ts[0]
    else ts[0] + [sep] + Join(ts[1..], sep)
  }

  /** Joining the pieces of a split gives back the original text. */
  lemma {:induction false} JoinSplitOn(s: string, sep: char)
    ensures Join(SplitOn(s, sep), sep) == s
  {
    if s != [] {
      var rest := SplitOn(s[1..], sep);
      JoinSplitOn(s[1..], sep);
      var r := SplitOn(s, sep);
      if s[0] == sep {
        assert r == [[]] + rest;
        assert r[1..] == rest;
        assert s == [sep] + s[1..];
      } else {
        assert r == [[s[0]] + rest[0]] + rest[1..];
        if |rest| == 1 {
          assert s == [s[0]] + s[1..];
        } else {
          assert r[1..] == rest[1..];
          assert Join(rest, sep) == rest[0] + [sep] + Join(rest[1..], sep);
          assert s == [s[0]] + s[1..];
        }
      }
    }
  }

  lemma {:induction false} SplitOnPrefix(a: string, s: string, sep: char)
    requires sep !in a
    ensures SplitOn(a + s, sep) == [a + SplitOn(s, sep)[0]] + SplitOn(s, sep)[1..]
  {
    if a == [] {
      var x := SplitOn(s, sep);
      assert a + s == s;
      assert a + x[0] == x[0];
      assert x == [x[0]] + x[1..];
    } else {
      SplitOnPrefix(a[1..], s, sep);
      var x := SplitOn(s, sep);
      var rest := SplitOn(a[1..] + s, sep);
      assert (a + s)[1..] == a[1..] + s;
      assert (a + s)[0] == a[0] && a[0] != sep;
      assert rest == [a[1..] + x[0]] + x[1..];
      assert rest[0] == a[1..] + x[0] && rest[1..] == x[1..];
      assert SplitOn(a + s, sep) == [[a[0]] + rest[0]] + rest[1..];
      assert [a[0]] + (a[1..] + x[0]) == a + x[0];
    }
  }

  /** Splitting a join of separator-free pieces gives back the pieces. */
  lemma {:induction false} SplitOnJoin(ts: seq<string>, sep: char)
    requires |ts| >= 1
    requires forall i :: 0 <= i < |ts| ==> sep !in ts[i]
    ensures SplitOn(Join(ts, sep), sep) == ts
  {
    if |ts| == 1 {
      SplitOnPrefix(ts[0], [], sep);
      assert ts[0] + [] == ts[0];
      assert ts == [ts[0]];
    } else {
      var j := Join(ts[1..], sep);
      SplitOnJoin(ts[1..], sep);
      assert Join(ts, sep) == ts[0] + ([sep] + j);
      SplitOnPrefix(ts[0], [sep] + j, sep);
      assert ([sep] + j)[1..] == j;
      var y := SplitOn([sep] + j, sep);
      assert y == [[]] + ts[1..];
      assert y[0] == [] && y[1..] == ts[1..];
      assert ts[0] + y[0] == ts[0];
      assert ts == [ts[0]] + ts[1..];
    }
  }

  /** Joining words that avoid a character gives text that avoids it, when
      the separator is another character; the first word leads. */
  lemma JoinNoChar(ws: seq<string>, sep: char, c: char)
    requires sep != c && |ws| >= 1
    requires forall i :: 0 <= i < |ws| ==> c !in ws[i]
    ensures c !in Join(ws, sep)
    ensures |Join(ws, sep)| >= |ws[0]|
  {
    if |ws| > 1 {
      JoinNoChar(ws[1..], sep, c);
    }
  }

  // ---------------------------------------------------------------------------
  // Java: line.split("\\s+")

  /** The pieces between maximal runs of whitespace, keeping the empty first
      piece of a line that starts with whitespace and the empty last piece of
      a line that ends with it. */
  function RawSplit(s: string): (r: seq<string>)
    ensures |r| >= 1
  {
    if s == [] then [[]]
    else
      var rest := RawSplit(s[1..]);
      if !IsSpace(s[0]) then [[s[0]] + rest[0]] + rest[1..]
      else if |s| > 1 && IsSpace(s[1]) then rest   // the run of whitespace goes on
      else [[]] + rest
  }

  /** The pieces hold no whitespace, and only the first and the last can be
      empty; the first is empty exactly when the text starts with whitespace. */
  lemma {:induction false} RawSplitPieces(s: string)
    ensures var r := RawSplit(s);
            (forall i :: 0 <= i < |r| ==> NoSpace(r[i]))
            && (forall i :: 0 < i < |r| - 1 ==> r[i] != [])
            && (s != [] ==> (r[0] == [] <==> IsSpace(s[0])))
  {
    if s != [] {
      RawSplitPieces(s[1..]);
      var rest := RawSplit(s[1..]);
      var r := RawSplit(s);
      if !IsSpace(s[0]) {
        assert r == [[s[0]] + rest[0]] + rest[1..];
        forall i | 0 <= i < |r|
          ensures NoSpace(r[i])
        {
          if i == 0 {
            assert forall k :: 0 < k < |r[0]| ==> r[0][k] == rest[0][k - 1];
          } else {
            assert r[i] == rest[i];
          }
        }
        forall i | 0 < i < |r| - 1
          ensures r[i] != []
        {
          assert r[i] == rest[i];
        }
      } else if |s| > 1 && IsSpace(s[1]) {
        assert r == rest;
        assert s[1..][0] == s[1];
      } else {
        assert r == [[]] + rest;
        forall i | 0 <= i < |r|
          ensures NoSpace(r[i])
        {
          if i > 0 { assert r[i] == rest[i - 1]; }
        }
        forall i | 0 < i < |r| - 1
          ensures r[i] != []
        {
          assert r[i] == rest[i - 1];
          if i == 1 {
            assert s[1..] != [] && !IsSpace(s[1..][0]);
          }
        }
      }
    }
  }

  /** Drops the empty pieces at the end, as split with limit 0 does. */
  function DropTrailingEmpty(ts: seq<string>): (r: seq<string>)
    ensures |r| <= |ts| && r == ts[..|r|]
    ensures |r| > 0 ==> r[|r| - 1] != []
    ensures forall i :: |r| <= i < |ts| ==> ts[i] == []
  {
    if |ts| > 0 && ts[|ts| - 1] == [] then DropTrailingEmpty(ts[..|ts| - 1]) else ts
  }

  /** Java's s.split("\\s+"): a text without any separator comes back whole
      (so "" gives [""]); otherwise the pieces, with trailing empty ones removed. */
  function JavaSplit(s: string): (r: seq<string>)
    ensures forall i :: 0 <= i < |r| ==> NoSpace(r[i])
    ensures forall i :: 0 < i < |r| ==> r[i] != []
  {
    if s == [] then [[]]
    else
      RawSplitPieces(s);
      var r := DropTrailingEmpty(RawSplit(s));
      assert forall i :: 0 <= i < |r| ==> r[i] == RawSplit(s)[i];
      r
  }

  lemma {:induction false} RawSplitPrefix(a: string, s: string)
    requires NoSpace(a)
    ensures RawSplit(a + s) == [a + RawSplit(s)[0]] + RawSplit(s)[1..]
  {
    if a == [] {
      var x := RawSplit(s);
      assert a + s == s;
      assert a + x[0] == x[0];
      assert x == [x[0]] + x[1..];
    } else {
      RawSplitPrefix(a[1..], s);
      var x := RawSplit(s);
      var rest := RawSplit(a[1..] + s);
      assert (a + s)[1..] == a[1..] + s;
      assert (a + s)[0] == a[0] && !IsSpace(a[0]);
      assert rest == [a[1..] + x[0]] + x[1..];
      assert rest[0] == a[1..] + x[0] && rest[1..] == x[1..];
      assert RawSplit(a + s) == [[a[0]] + rest[0]] + rest[1..];
      assert [a[0]] + (a[1..] + x[0]) == a + x[0];
    }
  }

  lemma {:induction false} JoinStartsWith(ts: seq<string>, sep: char)
    requires |ts| >= 1 && ts[0] != []
    ensures Join(ts, sep) != [] && Join(ts, sep)[0] == ts[0][0]
  {
  }

  /** Splitting a space-separated line of non-empty, whitespace-free tokens
      gives back exactly those tokens. */
  lemma {:induction false} JavaSplitJoin(ts: seq<string>)
    requires |ts| >= 1
    requires forall i :: 0 <= i < |ts| ==> ts[i] != [] && NoSpace(ts[i])
    ensures JavaSplit(Join(ts, ' ')) == ts
  {
    RawSplitJoin(ts);
    JoinStartsWith(ts, ' ');
  }

  lemma {:induction false} RawSplitJoin(ts: seq<string>)
    requires |ts| >= 1
    requires forall i :: 0 <= i < |ts| ==> ts[i] != [] && NoSpace(ts[i])
    ensures RawSplit(Join(ts, ' ')) == ts
  {
    if |ts| == 1 {
      RawSplitPrefix(ts[0], []);
      assert ts[0] + [] == ts[0];
      assert ts == [ts[0]];
    } else {
      var j := Join(ts[1..], ' ');
      RawSplitJoin(ts[1..]);
      JoinStartsWith(ts[1..], ' ');
      assert Join(ts, ' ') == ts[0] + ([' '] + j);
      RawSplitPrefix(ts[0], [' '] + j);
      assert ([' '] + j)[1..] == j;
      var y := RawSplit([' '] + j);
      assert y == [[]] + ts[1..];
      assert y[0] == [] && y[1..] == ts[1..];
      assert ts[0] + y[0] == ts[0];
      assert ts == [ts[0]] + ts[1..];
    }
  }

  // ---------------------------------------------------------------------------
  // Decimal numbers

  predicate IsDigit(c: char) {
    '0' <= c <= '9'
  }

  predicate AllDigits(s: string) {
    forall i :: 0 <= i < |s| ==> IsDigit(s[i])
  }

  function DigitChar(d: nat): (c: char)
    requires d < 10
    ensures IsDigit(c)
  {
    (('0' as int) + d) as char
  }

  function DigitValue(c: char): (d: nat)
    requires IsDigit(c)
    ensures d < 10
  {
    c as int - '0' as int
  }

  /** '%d' % n and String.valueOf(n) for a natural number. */
  function NatToDecimal(n: nat): (s: string)
    ensures |s| >= 1 && AllDigits(s)
  {
    if n < 10 then [DigitChar(n)] else NatToDecimal(n / 10) + [DigitChar(n % 10)]
  }

  /** The value of a string of decimal digits, most significant first. */
  function DecimalValue(s: string): nat
    requires AllDigits(s)
  {
    if s == [] then 0 else DecimalValue(s[..|s| - 1]) * 10 + DigitValue(s[|s| - 1])
  }

  lemma {:induction false} DecimalRoundTrip(n: nat)
    ensures DecimalValue(NatToDecimal(n)) == n
  {
    if n >= 10 {
      DecimalRoundTrip(n / 10);
      var s := NatToDecimal(n);
      assert s[..|s| - 1] == NatToDecimal(n / 10);
    }
  }

  /** Different numbers are written differently. */
  lemma NatToDecimalInjective(m: nat, n: nat)
    ensures NatToDecimal(m) == NatToDecimal(n) ==> m == n
  {
    DecimalRoundTrip(m);
    DecimalRoundTrip(n);
  }

  /** '%d' % i for any integer. */
  function IntToDecimal(i: int): (s: string)
    ensures |s| >= 1 && !IsSpace(s[0]) && !IsSpace(s[|s| - 1])
  {
    if i < 0 then "-" + NatToDecimal(-i) else NatToDecimal(i)
  }

  /** An optional sign followed by at least one decimal digit. */
  function ParseSigned(s: string): (r: Option<int>)
    ensures r.Some? ==> |s| >= 1
  {
    if |s| > 0 && (s[0] == '-' || s[0] == '+') then
      if |s| > 1 && AllDigits(s[1..]) then
        var v: int := if s[0] == '-' then -(DecimalValue(s[1..]) as int) else DecimalValue(s[1..]);
        Some(v)
      else None
    else if |s| > 0 && AllDigits(s) then Some(DecimalValue(s))
    else None
  }

  lemma ParseSignedDecimal(i: int)
    ensures ParseSigned(IntToDecimal(i)) == Some(i)
  {
    if i < 0 {
      DecimalRoundTrip(-i);
      ParseNegative(NatToDecimal(-i));
    } else {
      DecimalRoundTrip(i);
      ParseUnsigned(NatToDecimal(i));
    }
  }

  lemma ParseNegative(d: string)
    requires |d| >= 1 && AllDigits(d)
    ensures ParseSigned("-" + d) == Some(-(DecimalValue(d) as int))
  {
    assert ("-" + d)[1..] == d;
  }

  lemma ParseUnsigned(d: string)
    requires |d| >= 1 && AllDigits(d)
    ensures ParseSigned(d) == Some(DecimalValue(d) as int)
  {
    assert IsDigit(d[0]);
  }

  const MinInt32: int := -0x8000_0000
  const MaxInt32: int := 0x7FFF_FFFF

  /** Java's Integer.parseInt(s) with ASCII digits: None stands for the
      NumberFormatException it throws on a malformed or out-of-range number. */
  function JavaParseInt(s: string): (r: Option<int>)
    ensures r.Some? ==> MinInt32 <= r.value <= MaxInt32
    ensures r.Some? <==> ParseSigned(s).Some? && MinInt32 <= ParseSigned(s).value <= MaxInt32
  {
    match ParseSigned(s)
    case Some(v) => if MinInt32 <= v <= MaxInt32 then Some(v) else None
    case None => None
  }

  /** Every 32-bit integer survives being written out and parsed back. */
  lemma JavaParseIntDecimal(i: int)
    requires MinInt32 <= i <= MaxInt32
    ensures JavaParseInt(IntToDecimal(i)) == Some(i)
  {
    ParseSignedDecimal(i);
  }

  function TrimLeft(s: string): (r: string)
    ensures |r| <= |s| && r == s[|s| - |r|..]
    ensures r != [] ==> !IsSpace(r[0])
  {
    if s != [] && IsSpace(s[0]) then TrimLeft(s[1..]) else s
  }

  function TrimRight(s: string): (r: string)
    ensures |r| <= |s| && r == s[..|r|]
    ensures r != [] ==> !IsSpace(r[|r| - 1])
  {
    if s != [] && IsSpace(s[|s| - 1]) then TrimRight(s[..|s| - 1]) else s
  }

  /** Python 2's int(s) on a string: surrounding whitespace is ignored, then
      an optional sign, more whitespace, and decimal digits; None stands for
      the ValueError. */
  function PythonInt(s: string): Option<int> {
    var t := TrimRight(TrimLeft(s));
    if |t| > 0 && (t[0] == '-' || t[0] == '+') then ParseSigned([t[0]] + TrimLeft(t[1..]))
    else ParseSigned(t)
  }

  /** Python reads back every integer that '%d' wrote. */
  lemma PythonIntDecimal(i: int)
    ensures PythonInt(IntToDecimal(i)) == Some(i)
  {
    var s := IntToDecimal(i);
    assert TrimRight(TrimLeft(s)) == s;
    if i < 0 {
      assert s[1..] == NatToDecimal(-i);
      assert TrimLeft(s[1..]) == s[1..];
      assert [s[0]] + s[1..] == s;
    }
    ParseSignedDecimal(i);
  }

  /** Whitespace in front of a string that does not start with whitespace
      is all TrimLeft removes. */
  lemma {:induction false} TrimLeftSpaces(w: string, d: string)
    requires forall i :: 0 <= i < |w| ==> IsSpace(w[i])
    requires d == [] || !IsSpace(d[0])
    ensures TrimLeft(w + d) == d
  {
    if w != [] {
      assert (w + d)[1..] == w[1..] + d;
      TrimLeftSpaces(w[1..], d);
    }
  }

  /** int() also skips whitespace between the sign and the digits:
      int('-\t80') is -80. */
  lemma PythonIntSpaceAfterSign(w: string, d: string)
    requires forall i :: 0 <= i < |w| ==> IsSpace(w[i])
    requires |d| >= 1 && AllDigits(d)
    ensures PythonInt("-" + w + d) == Some(-(DecimalValue(d) as int))
    ensures PythonInt("+" + w + d) == Some(DecimalValue(d) as int)
  {
    SignedSpaces('-', w, d);
    SignedSpaces('+', w, d);
    ParseNegative(d);
    assert ("+" + d)[1..] == d;
  }

  /** A sign, whitespace and digits are read as the sign and the digits. */
  lemma SignedSpaces(c: char, w: string, d: string)
    requires c == '-' || c == '+'
    requires forall i :: 0 <= i < |w| ==> IsSpace(w[i])
    requires |d| >= 1 && AllDigits(d)
    ensures PythonInt([c] + w + d) == ParseSigned([c] + d)
  {
    var s := [c] + w + d;
    assert !IsSpace(d[0]) && !IsSpace(d[|d| - 1]) by { assert IsDigit(d[0]) && IsDigit(d[|d| - 1]); }
    assert TrimRight(TrimLeft(s)) == s by {
      assert s[|s| - 1] == d[|d| - 1];
      TrimLeftNoSpace(s);
      TrimRightNoSpace(s);
    }
    assert TrimLeft(s[1..]) == d by {
      assert s[1..] == w + d;
      TrimLeftSpaces(w, d);
    }
    assert s[0] == c;
  }

  lemma TrimLeftNoSpace(s: string)
    requires s == [] || !IsSpace(s[0])
    ensures TrimLeft(s) == s
  {
  }

  lemma TrimRightNoSpace(s: string)
    requires s == [] || !IsSpace(s[|s| - 1])
    ensures TrimRight(s) == s
  {
  }

}
