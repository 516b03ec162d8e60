/**
  The two Python built-ins the frame decoder leans on, over byte strings:
  `bytes.split(sep)` with a one-byte separator, and `int(codecs.decode(token))`
  restricted to ASCII input. `Join` and `ShowInt` are their inverses and exist
  so that the decoder's properties can be stated as round trips.
 */
module PyBytes {

  newtype byte = x: int | 0 <= x < 256

  datatype Option<T> = None | Some(value: T)

  const Minus: byte := 0x2D       // '-'
  const Plus: byte := 0x2B        // '+'
  const Underscore: byte := 0x5F  // '_'
  const Zero: byte := 0x30        // '0'

  // ---------------------------------------------------------------------------
  // bytes.split(sep)
  // ---------------------------------------------------------------------------

  /** The pieces of `s` between occurrences of `sep`, as `s.split(sep)` returns
      them: never empty, and an empty piece wherever two separators touch or a
      separator starts or ends `s`. */
  function Split(s: seq<byte>, sep: byte): (parts: seq<seq<byte>>)
    ensures |parts| >= 1
    ensures forall k :: 0 <= k < |parts| ==> sep !in parts[k]
    decreases |s|
  {
    if s == [] then [[]]
    else
      var rest := Split(s[1..], sep);
      if s[0] == sep then [[]] + rest
      else [[s[0]] + rest[0]] + rest[1..]
  }

  /** `sep.join(parts)`. */
  function Join(parts: seq<seq<byte>>, sep: byte): seq<byte>
    requires |parts| >= 1
    decreases |parts|
  {
    if |parts| == 1 then parts[0] else parts[0] + [sep] + Join(parts[1..], sep)
  }

  /** Joining the pieces back gives the original bytes. */
  lemma {:induction false} JoinSplit(s: seq<byte>, sep: byte)
    ensures Join(Split(s, sep), sep) == s
    decreases |s|
  {
    if s != [] {
      JoinSplit(s[1..], sep);
      var rest := Split(s[1..], sep);
      if s[0] == sep {
        assert Split(s, sep)[1..] == rest;
      } else {
        var parts := Split(s, sep);
        if |rest| == 1 {
          assert parts == [[s[0]] + rest[0]];
        } else {
          assert parts[1..] == rest[1..];
          assert Join(rest, sep) == rest[0] + [sep] + Join(rest[1..], sep);
        }
      }
    }
  }

  /** A piece without the separator, then the separator: split peels it off. */
  lemma {:induction false} SplitPrefix(p: seq<byte>, rest: seq<byte>, sep: byte)
    requires sep !in p
    ensures Split(p + [sep] + rest, sep) == [p] + Split(rest, sep)
    decreases |p|
  {
    var s := p + [sep] + rest;
    if p == [] {
      assert s[1..] == rest;
    } else {
      assert s[1..] == p[1..] + [sep] + rest;
      SplitPrefix(p[1..], rest, sep);
      assert [s[0]] + p[1..] == p;
    }
  }

  /** Bytes without the separator split into themselves. */
  lemma {:induction false} SplitWithoutSeparator(p: seq<byte>, sep: byte)
    requires sep !in p
    ensures Split(p, sep) == [p]
    decreases |p|
  {
    if p != [] {
      SplitWithoutSeparator(p[1..], sep);
      assert [p[0]] + p[1..] == p;
    }
  }

  /** Splitting a join of separator-free pieces gives the pieces back. */
  lemma {:induction false} SplitJoin(parts: seq<seq<byte>>, sep: byte)
    requires |parts| >= 1
    requires forall k :: 0 <= k < |parts| ==> sep !in parts[k]
    ensures Split(Join(parts, sep), sep) == parts
    decreases |parts|
  {
    if |parts| == 1 {
      SplitWithoutSeparator(parts[0], sep);
    } else {
      SplitJoin(parts[1..], sep);
      SplitPrefix(parts[0], Join(parts[1..], sep), sep);
      assert [parts[0]] + parts[1..] == parts;
    }
  }

  /** Bytes that end with the separator leave an empty last piece. */
  lemma {:induction false} SplitTrailingSeparator(s: seq<byte>, sep: byte)
    requires |s| > 0 && s[|s| - 1] == sep
    ensures |Split(s, sep)| >= 2
    ensures Split(s, sep)[|Split(s, sep)| - 1] == []
    decreases |s|
  {
    if |s| > 1 {
      SplitTrailingSeparator(s[1..], sep);
    }
  }

  // ---------------------------------------------------------------------------
  // int(token) on ASCII bytes
  // ---------------------------------------------------------------------------

  /** The whitespace `int()` strips around an ASCII literal: space, \t \n \v \f \r. */
  predicate IsSpace(b: byte) {
    b == 0x20 || 0x09 <= b <= 0x0D
  }

  predicate IsDigit(b: byte) {
    0x30 <= b <= 0x39
  }

  function TrimStart(s: seq<byte>): (t: seq<byte>)
    ensures |t| > 0 ==> !IsSpace(t[0])
    decreases |s|
  {
    if |s| > 0 && IsSpace(s[0]) then TrimStart(s[1..]) else s
  }

  function TrimEnd(s: seq<byte>): (t: seq<byte>)
    ensures |t| > 0 ==> !IsSpace(t[|t| - 1])
    decreases |s|
  {
    if |s| > 0 && IsSpace(s[|s| - 1]) then TrimEnd(s[..|s| - 1]) else s
  }

  function Strip(s: seq<byte>): seq<byte> {
    TrimEnd(TrimStart(s))
  }

  /** Decimal digits, where single underscores may separate two digits:
      digit ('_'? digit)*. */
  predicate IsDigitGroups(s: seq<byte>) {
    && |s| > 0
    && IsDigit(s[0])
    && IsDigit(s[|s| - 1])
    && (forall k :: 0 <= k < |s| ==> IsDigit(s[k]) || s[k] == Underscore)
    && (forall k :: 0 < k < |s| && s[k] == Underscore ==> IsDigit(s[k - 1]))
  }

  /** The value of a run of digits, underscores ignored. */
  function DigitsValue(s: seq<byte>): (n: nat)
    decreases |s|
  {
    if s == [] then 0
    else if s[|s| - 1] == Underscore then DigitsValue(s[..|s| - 1])
    else DigitsValue(s[..|s| - 1]) * 10 + (s[|s| - 1] as int - 0x30) % 10
  }

  /** `int(token)` for base 10: `None` where Python raises `ValueError`. */
  function ParseInt(token: seq<byte>): (r: Option<int>)
    ensures r.Some? ==> |Strip(token)| > 0
  {
    var t := Strip(token);
    if |t| > 0 && t[0] == Minus && IsDigitGroups(t[1..]) then Some(-(DigitsValue(t[1..]) as int))
    else if |t| > 0 && t[0] == Plus && IsDigitGroups(t[1..]) then Some(DigitsValue(t[1..]))
    else if IsDigitGroups(t) then Some(DigitsValue(t))
    else None
  }

  // ---------------------------------------------------------------------------
  // str(n).encode(): the inverse of ParseInt
  // ---------------------------------------------------------------------------

  function ShowNat(n: nat): (s: seq<byte>)
    decreases n
  {
    if n < 10 then [(0x30 + n) as byte] else ShowNat(n / 10) + [(0x30 + n % 10) as byte]
  }

  function ShowInt(n: int): seq<byte> {
    if n < 0 then [Minus] + ShowNat(-n) else ShowNat(n)
  }

  lemma {:induction false} ShowNatDigits(n: nat)
    ensures IsDigitGroups(ShowNat(n))
    ensures forall k :: 0 <= k < |ShowNat(n)| ==> IsDigit(ShowNat(n)[k])
    ensures DigitsValue(ShowNat(n)) == n
    decreases n
  {
    if n >= 10 {
      ShowNatDigits(n / 10);
      var a := ShowNat(n / 10);
      var s := ShowNat(n);
      assert s[..|s| - 1] == a;
    }
  }

  /** Reading back the decimal text of any integer gives the integer. */
  lemma ParseShowInt(n: int)
    ensures ParseInt(ShowInt(n)) == Some(n)
  {
    var s := ShowInt(n);
    if n < 0 {
      ShowNatDigits(-n);
      assert s[1..] == ShowNat(-n);
    } else {
      ShowNatDigits(n);
    }
    assert TrimStart(s) == s;
    assert TrimEnd(s) == s;
  }

  /** Whitespace before and after a literal does not change what int() reads. */
  lemma {:induction false} TrimStartSpaces(pad: seq<byte>, t: seq<byte>)
    requires forall k :: 0 <= k < |pad| ==> IsSpace(pad[k])
    requires |t| > 0 && !IsSpace(t[0])
    ensures TrimStart(pad + t) == t
    decreases |pad|
  {
    if pad != [] {
      assert (pad + t)[1..] == pad[1..] + t;
      TrimStartSpaces(pad[1..], t);
    } else {
      assert pad + t == t;
    }
  }

  lemma {:induction false} TrimEndSpaces(t: seq<byte>, pad: seq<byte>)
    requires forall k :: 0 <= k < |pad| ==> IsSpace(pad[k])
    requires |t| > 0 && !IsSpace(t[|t| - 1])
    ensures TrimEnd(t + pad) == t
    decreases |pad|
  {
    if pad != [] {
      assert (t + pad)[..|t + pad| - 1] == t + pad[..|pad| - 1];
      TrimEndSpaces(t, pad[..|pad| - 1]);
    } else {
      assert t + pad == t;
    }
  }

  lemma ParsePaddedInt(pre: seq<byte>, n: int, post: seq<byte>)
    requires forall k :: 0 <= k < |pre| ==> IsSpace(pre[k])
    requires forall k :: 0 <= k < |post| ==> IsSpace(post[k])
    ensures ParseInt(pre + ShowInt(n) + post) == Some(n)
  {
    var s := ShowInt(n);
    if n < 0 { ShowNatDigits(-n); } else { ShowNatDigits(n); }
    assert pre + s + post == pre + (s + post);
    TrimStartSpaces(pre, s + post);
    TrimEndSpaces(s, post);
    ParseShowInt(n);
  }

  /** Leading zeros add nothing to the value of a run of digits. */
  lemma {:induction false} DigitsValueLeadingZeros(zeros: seq<byte>, s: seq<byte>)
    requires forall k :: 0 <= k < |zeros| ==> zeros[k] == Zero
    ensures DigitsValue(zeros + s) == DigitsValue(s)
    decreases |s|
  {
    if s == [] {
      assert zeros + s == zeros;
      AllZerosValue(zeros);
    } else {
      assert (zeros + s)[..|zeros + s| - 1] == zeros + s[..|s| - 1];
      DigitsValueLeadingZeros(zeros, s[..|s| - 1]);
    }
  }

  lemma {:induction false} AllZerosValue(zeros: seq<byte>)
    requires forall k :: 0 <= k < |zeros| ==> zeros[k] == Zero
    ensures DigitsValue(zeros) == 0
    decreases |zeros|
  {
    if zeros != [] {
      AllZerosValue(zeros[..|zeros| - 1]);
    }
  }

  /** Zeros before the decimal text of n: still a run of digits, still worth n. */
  lemma PaddedDigits(zeros: seq<byte>, n: nat)
    requires forall k :: 0 <= k < |zeros| ==> zeros[k] == Zero
    ensures IsDigitGroups(zeros + ShowNat(n))
    ensures DigitsValue(zeros + ShowNat(n)) == n
  {
    var digits := zeros + ShowNat(n);
    ShowNatDigits(n);
    DigitsValueLeadingZeros(zeros, ShowNat(n));
    forall k | 0 <= k < |digits| ensures IsDigit(digits[k]) {
      if k >= |zeros| {
        assert digits[k] == ShowNat(n)[k - |zeros|];
      }
    }
  }

  /** Stripping whitespace off both ends of a padded literal leaves the literal. */
  lemma StripPadded(pre: seq<byte>, t: seq<byte>, post: seq<byte>)
    requires forall k :: 0 <= k < |pre| ==> IsSpace(pre[k])
    requires forall k :: 0 <= k < |post| ==> IsSpace(post[k])
    requires |t| > 0 && !IsSpace(t[0]) && !IsSpace(t[|t| - 1])
    ensures Strip(pre + t + post) == t
  {
    assert pre + t + post == pre + (t + post);
    TrimStartSpaces(pre, t + post);
    TrimEndSpaces(t, post);
  }

  /** `int()` looks only at what is left after stripping the whitespace. */
  lemma ParseIgnoresPadding(pre: seq<byte>, t: seq<byte>, post: seq<byte>)
    requires forall k :: 0 <= k < |pre| ==> IsSpace(pre[k])
    requires forall k :: 0 <= k < |post| ==> IsSpace(post[k])
    requires |t| > 0 && !IsSpace(t[0]) && !IsSpace(t[|t| - 1])
    ensures ParseInt(pre + t + post) == ParseInt(t)
  {
    StripPadded(pre, t, post);
    StripPadded([], t, []);
    assert [] + t + [] == t;
  }

  /** A sign, then a run of digits, with nothing around it. */
  lemma ParseSignedDigits(sign: seq<byte>, digits: seq<byte>)
    requires sign == [] || sign == [Minus] || sign == [Plus]
    requires IsDigitGroups(digits)
    ensures ParseInt(sign + digits) == Some(if sign == [Minus] then -(DigitsValue(digits) as int) else DigitsValue(digits))
  {
    if sign == [] {
      assert sign + digits == digits;
      ParseDigits(digits);
    } else {
      ParseSignThenDigits(sign[0], digits);
    }
  }

  lemma ParseDigits(digits: seq<byte>)
    requires IsDigitGroups(digits)
    ensures ParseInt(digits) == Some(DigitsValue(digits))
  {
    assert TrimStart(digits) == digits;
    assert TrimEnd(digits) == digits;
  }

  lemma ParseSignThenDigits(sign: byte, digits: seq<byte>)
    requires sign == Minus || sign == Plus
    requires IsDigitGroups(digits)
    ensures ParseInt([sign] + digits) == Some(if sign == Minus then -(DigitsValue(digits) as int) else DigitsValue(digits))
  {
    var t := [sign] + digits;
    assert t[0] == sign && t[1..] == digits;
    assert TrimStart(t) == t;
    assert t[|t| - 1] == digits[|digits| - 1];
    assert TrimEnd(t) == t;
  }

  /** The literals a device writes: optional whitespace, an optional sign, any
      number of leading zeros, the digits, optional whitespace. `int()` reads
      them as the signed value of the digits. */
  lemma ParseZeroPaddedInt(pre: seq<byte>, sign: seq<byte>, zeros: seq<byte>, n: nat, post: seq<byte>)
    requires forall k :: 0 <= k < |pre| ==> IsSpace(pre[k])
    requires sign == [] || sign == [Minus] || sign == [Plus]
    requires forall k :: 0 <= k < |zeros| ==> zeros[k] == Zero
    requires forall k :: 0 <= k < |post| ==> IsSpace(post[k])
    ensures ParseInt(pre + sign + zeros + ShowNat(n) + post) == Some(if sign == [Minus] then -(n as int) else n)
  {
    var digits := zeros + ShowNat(n);
    var t := sign + digits;
    Regroup(pre, sign, zeros, ShowNat(n), post);
    PaddedDigits(zeros, n);
    assert t[|t| - 1] == digits[|digits| - 1];
    ParseIgnoresPadding(pre, t, post);
    ParseSignedDigits(sign, digits);
  }

  lemma Regroup(a: seq<byte>, b: seq<byte>, c: seq<byte>, d: seq<byte>, e: seq<byte>)
    ensures a + b + c + d + e == a + (b + (c + d)) + e
  {
  }
}
