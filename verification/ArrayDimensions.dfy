/** The ArrayDimensions attribute: decimal numbers with commas in between. */
module ArrayDimensions {
  import opened CStrings

  const UINT32 := 0x1_0000_0000
  const INT_MAX := 0x7FFF_FFFF

  /** The place of the next comma from `from` on, or the length of the text. */
  function NextComma(s: string, from: nat): (r: nat)
    requires from <= |s|
    ensures from <= r <= |s| && (r < |s| ==> s[r] == ',')
    ensures forall i :: from <= i < r ==> s[i] != ','
    decreases |s| - from
  {
    if from == |s| || s[from] == ',' then from else NextComma(s, from + 1)
  }

  /** The number up to the next comma, as an unsigned 32 bit value. */
  function Number(s: string, from: nat): nat
    requires from <= |s|
  {
    Atoi(s[from..NextComma(s, from)]) % UINT32
  }

  /** The numbers between the commas, from `from` on. */
  function Dimensions(s: string, from: nat): (r: seq<nat>)
    requires from <= |s|
    decreases |s| - from, 1
  {
    [Number(s, from)] + Later(s, NextComma(s, from))
  }

  /** The numbers behind a comma. */
  function Later(s: string, comma: nat): (r: seq<nat>)
    requires comma <= |s|
    decreases |s| - comma, 0
  {
    if comma == |s| then [] else Dimensions(s, comma + 1)
  }

  // ----- reading a number stops at a comma

  lemma {:induction false} DigitsStop(s: string, rest: string, value: nat)
    requires rest == "" || !IsDigit(rest[0])
    ensures Digits(s + rest, value) == Digits(s, value)
    decreases |s|
  {
    if s == "" {
      assert s + rest == rest;
    } else if IsDigit(s[0]) {
      assert (s + rest)[1..] == s[1..] + rest;
      DigitsStop(s[1..], rest, value * 10 + (s[0] - '0') as nat);
    }
  }

  lemma {:induction false} AtoiStops(s: string, rest: string)
    requires rest == "" || rest[0] == ','
    ensures Atoi(s + rest) == Atoi(s)
    decreases |s|
  {
    if s == "" {
      assert s + rest == rest;
      if rest != "" {
        assert Digits(rest, 0) == 0;
      }
    } else {
      assert (s + rest)[1..] == s[1..] + rest;
      if IsSpace(s[0]) {
        AtoiStops(s[1..], rest);
      } else {
        DigitsStop(s[1..], rest, 0);
        DigitsStop(s, rest, 0);
      }
    }
  }

  /** That a number is read from the rest of the text and not from its piece alone makes no
      difference. */
  lemma {:induction false} PieceIsRead(s: string, from: nat)
    requires from <= |s|
    ensures Atoi(s[from..]) % UINT32 == Number(s, from)
  {
    var comma := NextComma(s, from);
    assert s[from..] == s[from..comma] + s[comma..];
    AtoiStops(s[from..comma], s[comma..]);
  }

  method GetArrayDimensions(s: string) returns (dims: seq<nat>)
    ensures dims == if s == "" then [] else Dimensions(s, 0)
  {
    if |s| == 0 {
      return [];
    }
    PieceIsRead(s, 0);
    assert s[0..] == s;
    dims := [Atoi(s) % UINT32];
    var comma := NextComma(s, 0);
    while comma < |s|
      invariant 0 <= comma <= |s|
      invariant Dimensions(s, 0) == dims + Later(s, comma)
      decreases |s| - comma
    {
      PieceIsRead(s, comma + 1);
      assert dims + Later(s, comma) == dims + [Number(s, comma + 1)] + Later(s, NextComma(s, comma + 1));
      dims := dims + [Atoi(s[comma + 1..]) % UINT32];
      comma := NextComma(s, comma + 1);
    }
  }

  // ----- writing and reading back

  function Digit(d: nat): (c: char)
    requires d < 10
    ensures IsDigit(c) && (c - '0') as nat == d
  {
    '0' + d as char
  }

  function Decimal(n: nat): (r: string)
    ensures r != "" && forall c :: c in r ==> IsDigit(c)
  {
    if n < 10 then [Digit(n)] else Decimal(n / 10) + [Digit(n % 10)]
  }

  /** The decimal numbers with commas in between. */
  function Written(dims: seq<nat>): string {
    if dims == [] then ""
    else if |dims| == 1 then Decimal(dims[0])
    else Decimal(dims[0]) + "," + Written(dims[1..])
  }

  lemma {:induction false} DigitsAppend(s: string, d: char, value: nat)
    requires (forall c :: c in s ==> IsDigit(c)) && IsDigit(d)
    ensures Digits(s + [d], value) == Digits(s, value) * 10 + (d - '0') as nat
    decreases |s|
  {
    if s == "" {
      assert s + [d] == [d];
      assert [d][1..] == "";
    } else {
      assert s[0] in s && (s + [d])[1..] == s[1..] + [d];
      DigitsAppend(s[1..], d, value * 10 + (s[0] - '0') as nat);
    }
  }

  lemma {:induction false} DecimalReadsBack(n: nat)
    ensures Atoi(Decimal(n)) == n
  {
    DecimalDigits(n);
    var s := Decimal(n);
    assert s[0] in s;
  }

  lemma {:induction false} DecimalDigits(n: nat)
    ensures Digits(Decimal(n), 0) == n
  {
    if n < 10 {
      assert [Digit(n)][1..] == "";
    } else {
      DecimalDigits(n / 10);
      DigitsAppend(Decimal(n / 10), Digit(n % 10), 0);
    }
  }

  lemma {:induction false} NoCommaInside(s: string, t: string, from: nat)
    requires from <= |s| && (forall c :: c in s ==> c != ',') && (t == "" || t[0] == ',')
    ensures NextComma(s + t, from) == |s|
    decreases |s| - from
  {
    if from < |s| {
      assert (s + t)[from] == s[from] && s[from] in s;
      NoCommaInside(s, t, from + 1);
    }
  }

  lemma {:induction false} DimensionsShift(p: string, s: string, from: nat)
    requires from <= |s|
    ensures Dimensions(p + s, |p| + from) == Dimensions(s, from)
    decreases |s| - from
  {
    NextShift(p, s, from);
    var comma := NextComma(s, from);
    assert (p + s)[|p| + from..|p| + comma] == s[from..comma];
    assert Number(p + s, |p| + from) == Number(s, from);
    if comma < |s| {
      DimensionsShift(p, s, comma + 1);
    }
    assert Later(p + s, |p| + comma) == Later(s, comma);
  }

  lemma {:induction false} NextShift(p: string, s: string, from: nat)
    requires from <= |s|
    ensures NextComma(p + s, |p| + from) == |p| + NextComma(s, from)
    decreases |s| - from
  {
    if from < |s| && s[from] != ',' {
      NextShift(p, s, from + 1);
    }
  }

  lemma {:induction false} FirstDimension(first: string, rest: string)
    requires forall c :: c in first ==> c != ','
    ensures Dimensions(first, 0) == [Atoi(first) % UINT32]
    ensures Dimensions(first + "," + rest, 0) == [Atoi(first) % UINT32] + Dimensions(rest, 0)
  {
    NoCommaInside(first, "", 0);
    assert first + "" == first && first[0..|first|] == first;
    var s := first + "," + rest;
    NoCommaInside(first, "," + rest, 0);
    assert first + ("," + rest) == s && s[0..|first|] == first;
    assert Dimensions(s, 0) == [Number(s, 0)] + Later(s, |first|);
    DimensionsShift(first + ",", rest, 0);
  }

  lemma {:induction false} DecimalIsClean(n: nat)
    ensures forall c :: c in Decimal(n) ==> c != ','
  {
  }

  lemma {:induction false} FirstWritten(d: nat, rest: string)
    requires d <= INT_MAX
    ensures Dimensions(Decimal(d), 0) == [d]
    ensures Dimensions(Decimal(d) + "," + rest, 0) == [d] + Dimensions(rest, 0)
  {
    DecimalIsClean(d);
    DecimalReadsBack(d);
    FirstDimension(Decimal(d), rest);
  }

  /** What is written is read back, as far as the numbers fit the integers of the C library. */
  lemma {:induction false} RoundTrip(dims: seq<nat>)
    requires forall d :: d in dims ==> d <= INT_MAX
    ensures (if Written(dims) == "" then [] else Dimensions(Written(dims), 0)) == dims
    decreases |dims|
  {
    if dims != [] {
      assert dims[0] in dims;
      FirstWritten(dims[0], Written(dims[1..]));
      WrittenNotEmpty(dims);
      if |dims| > 1 {
        assert forall d :: d in dims[1..] ==> d in dims;
        RoundTrip(dims[1..]);
        WrittenNotEmpty(dims[1..]);
        assert dims == [dims[0]] + dims[1..];
      } else {
        assert dims == [dims[0]] && Written(dims) == Decimal(dims[0]);
      }
    }
  }

  lemma {:induction false} WrittenNotEmpty(dims: seq<nat>)
    requires dims != []
    ensures Written(dims) != ""
  {
  }

  // ----- signs and blanks

  /** A sign before the digits counts, leading blanks do not, and what is no digit ends the number. */
  lemma {:induction false} SignedReadsBack(n: nat, rest: string)
    requires rest == "" || !('0' <= rest[0] <= '9')
    ensures Atoi(Decimal(n) + rest) == n
    ensures Atoi("-" + Decimal(n) + rest) == 0 - n
    ensures Atoi("+" + Decimal(n) + rest) == n
  {
    var s := Decimal(n);
    DecimalDigits(n);
    DigitsStop(s, rest, 0);
    assert (s + rest)[0] == s[0] && s[0] in s;
    assert ("-" + s + rest)[1..] == s + rest && ("+" + s + rest)[1..] == s + rest;
  }

  lemma {:induction false} BlanksDoNotCount(blank: char, s: string)
    requires blank as int == 32 || 9 <= blank as int <= 13
    ensures Atoi([blank] + s) == Atoi(s)
  {
    assert ([blank] + s)[1..] == s;
  }

  /** A negative number comes out as its two's complement in 32 bits. */
  lemma {:induction false} NegativeDimension(n: nat)
    requires 0 < n <= 0x7FFF_FFFF
    ensures Dimensions("-" + Decimal(n), 0) == [0x1_0000_0000 - n]
  {
    var s := "-" + Decimal(n);
    DecimalIsClean(n);
    assert forall c :: c in s ==> c != ',';
    FirstDimension(s, "");
    assert "-" + Decimal(n) + "" == s;
    SignedReadsBack(n, "");
  }
}
