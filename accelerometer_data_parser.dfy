/**
  `AccelerometerDataParser.parse_data`: one serial line of the form
  `accel;I0;F0;I1;F1;...;I5;F5;\r\n` becomes an `AccelerometerData` whose six
  values are `Ik + Fk * 10^-6`. A line whose first `;`-separated token is not
  `accel` gives Python's `None`; a bad integer token raises `ValueError`; fewer
  than twelve integers raise `IndexError`.
 */
module Parser {
  import opened PyBytes
  import Samples

  const Semicolon: byte := 0x3B
  /** b'accel' */
  const Accel: seq<byte> := [0x61, 0x63, 0x63, 0x65, 0x6C]
  /** b'\r\n' */
  const CrLf: seq<byte> := [0x0D, 0x0A]

  /** The two exceptions `parse_data` can raise. */
  datatype ParseError = ValueError | IndexError

  /** What `parse_data` does with one line, as a value. */
  datatype Decoded = NoFrame | Sample(values: seq<real>) | Raises(error: ParseError)

  /** The list `data_int`, or the `ValueError` that stopped building it. */
  datatype Ints = Ints(values: seq<int>) | BadToken

  // ---------------------------------------------------------------------------
  // Fixed-point reconstruction
  // ---------------------------------------------------------------------------

  /** One axis value: the integer part plus the fractional token scaled by 10^-6.
      The fractional token keeps its own sign and its size is not limited. */
  function Fixed(intPart: int, fracPart: int): (v: real)
    ensures v * 1000000.0 == (intPart * 1000000 + fracPart) as real
  {
    intPart as real + fracPart as real * 0.000001
  }

  /** The six axis values from the first twelve integers, paired in order. */
  function Reconstruct(ints: seq<int>): (values: seq<real>)
    requires |ints| >= 12
    ensures |values| == 6
    ensures forall k :: 0 <= k < 6 ==> values[k] == Fixed(ints[2 * k], ints[2 * k + 1])
  {
    [Fixed(ints[0], ints[1]), Fixed(ints[2], ints[3]), Fixed(ints[4], ints[5]),
     Fixed(ints[6], ints[7]), Fixed(ints[8], ints[9]), Fixed(ints[10], ints[11])]
  }

  /** The worked examples of the class comment, and a fraction above 10^6. */
  lemma FixedExamples()
    ensures Fixed(0, 250000) == 0.25
    ensures Fixed(0, -250000) == -0.25
    ensures Fixed(-1, 0) == -1.0
    ensures Fixed(-1, -250000) == -1.25
    ensures Fixed(0, 1500000) == 1.5
    ensures Fixed(-1, 250000) == -0.75
  {
  }

  // ---------------------------------------------------------------------------
  // The tokens after the marker
  // ---------------------------------------------------------------------------

  /** `data_int` as the loop over the tokens builds it: `\r\n` tokens skipped,
      every other token through `int()`, the first failure ending the loop. */
  function IntTokens(tokens: seq<seq<byte>>): (r: Ints)
    ensures r.Ints? ==> |r.values| <= |tokens|
    decreases |tokens|
  {
    if tokens == [] then Ints([])
    else
      match IntTokens(tokens[..|tokens| - 1])
      case BadToken => BadToken
      case Ints(xs) =>
        var t := tokens[|tokens| - 1];
        if t == CrLf then Ints(xs)
        else
          match ParseInt(t)
          case None => BadToken
          case Some(v) => Ints(xs + [v])
  }

  /** The tokens the loop converts: all but the `\r\n` ones, in order. */
  function Kept(tokens: seq<seq<byte>>): (kept: seq<seq<byte>>)
    ensures |kept| <= |tokens|
    ensures forall k :: 0 <= k < |kept| ==> kept[k] != CrLf
    decreases |tokens|
  {
    if tokens == [] then []
    else if tokens[0] == CrLf then Kept(tokens[1..])
    else [tokens[0]] + Kept(tokens[1..])
  }

  function Last<T>(s: seq<T>): T
    requires |s| > 0
  {
    s[|s| - 1]
  }

  lemma {:induction false} KeptSnoc(tokens: seq<seq<byte>>, t: seq<byte>)
    ensures Kept(tokens + [t]) == Kept(tokens) + (if t == CrLf then [] else [t])
    decreases |tokens|
  {
    if tokens == [] {
      assert [t][1..] == [];
    } else {
      assert (tokens + [t])[1..] == tokens[1..] + [t];
      KeptSnoc(tokens[1..], t);
    }
  }

  /** Every token the loop converts is a valid integer literal. */
  ghost predicate AllParse(tokens: seq<seq<byte>>) {
    forall k :: 0 <= k < |tokens| ==> tokens[k] == CrLf || ParseInt(tokens[k]).Some?
  }

  /** The loop succeeds exactly when every non-`\r\n` token is an integer, and
      then `data_int` holds their values in token order. */
  lemma {:induction false} IntTokensMeaning(tokens: seq<seq<byte>>)
    ensures IntTokens(tokens).Ints? <==> AllParse(tokens)
    ensures IntTokens(tokens).Ints? ==>
      && |IntTokens(tokens).values| == |Kept(tokens)|
      && forall k :: 0 <= k < |Kept(tokens)| ==> ParseInt(Kept(tokens)[k]) == Some(IntTokens(tokens).values[k])
    decreases |tokens|
  {
    if tokens != [] {
      var init, t := tokens[..|tokens| - 1], tokens[|tokens| - 1];
      assert tokens == init + [t];
      IntTokensMeaning(init);
      KeptSnoc(init, t);
      if AllParse(tokens) {
        assert AllParse(init) by {
          forall k | 0 <= k < |init| ensures init[k] == CrLf || ParseInt(init[k]).Some? {
            assert init[k] == tokens[k];
          }
        }
      }
    }
  }

  // ---------------------------------------------------------------------------
  // The decoder as a function
  // ---------------------------------------------------------------------------

  /** `parse_data(frame)`, with `None` as `NoFrame` and the exceptions as `Raises`. */
  function Decode(frame: seq<byte>): (r: Decoded)
    ensures r.NoFrame? <==> Split(frame, Semicolon)[0] != Accel
    ensures r.Sample? ==> |r.values| == 6
  {
    var parts := Split(frame, Semicolon);
    if parts[0] != Accel then NoFrame
    else
      match IntTokens(parts[1..])
      case BadToken => Raises(ValueError)
      case Ints(xs) => if |xs| < 12 then Raises(IndexError) else Sample(Reconstruct(xs))
  }

  /** The four outcomes of a line, each stated from its tokens: the marker
      decides `None`; a token that is neither `\r\n` nor an integer gives
      `ValueError`; fewer than twelve integers give `IndexError`; otherwise axis
      k is built from the 2k-th and (2k+1)-th integer and any further integers
      are ignored. */
  lemma DecodeMeaning(frame: seq<byte>)
    ensures var parts := Split(frame, Semicolon);
      var ts := parts[1..];
      && (Decode(frame) == Raises(ValueError) <==> parts[0] == Accel && !AllParse(ts))
      && (Decode(frame) == Raises(IndexError) <==> parts[0] == Accel && AllParse(ts) && |Kept(ts)| < 12)
      && (Decode(frame).Sample? <==> parts[0] == Accel && AllParse(ts) && |Kept(ts)| >= 12)
      && (Decode(frame).Sample? ==>
            forall k :: 0 <= k < 6 ==>
              exists i, f ::
                && ParseInt(Kept(ts)[2 * k]) == Some(i)
                && ParseInt(Kept(ts)[2 * k + 1]) == Some(f)
                && Decode(frame).values[k] == Fixed(i, f))
  {
    var parts := Split(frame, Semicolon);
    var ts := parts[1..];
    IntTokensMeaning(ts);
    if Decode(frame).Sample? {
      var xs := IntTokens(ts).values;
      forall k | 0 <= k < 6
        ensures exists i, f ::
          && ParseInt(Kept(ts)[2 * k]) == Some(i)
          && ParseInt(Kept(ts)[2 * k + 1]) == Some(f)
          && Decode(frame).values[k] == Fixed(i, f)
      {
        assert ParseInt(Kept(ts)[2 * k]) == Some(xs[2 * k]);
        assert ParseInt(Kept(ts)[2 * k + 1]) == Some(xs[2 * k + 1]);
      }
    }
  }

  /** The axes come out in the order of the constants of `AccelerometerData`,
      acc x, y, z then gyr x, y, z, following the order of the token pairs. */
  lemma AxisOrder(ints: seq<int>)
    requires |ints| >= 12
    ensures Reconstruct(ints)[Samples.AccelerometerData.AccXIdx] == Fixed(ints[0], ints[1])
    ensures Reconstruct(ints)[Samples.AccelerometerData.AccYIdx] == Fixed(ints[2], ints[3])
    ensures Reconstruct(ints)[Samples.AccelerometerData.AccZIdx] == Fixed(ints[4], ints[5])
    ensures Reconstruct(ints)[Samples.AccelerometerData.GyrXIdx] == Fixed(ints[6], ints[7])
    ensures Reconstruct(ints)[Samples.AccelerometerData.GyrYIdx] == Fixed(ints[8], ints[9])
    ensures Reconstruct(ints)[Samples.AccelerometerData.GyrZIdx] == Fixed(ints[10], ints[11])
    ensures Reconstruct(ints) == Reconstruct(ints[..12])
  {
  }

  // ---------------------------------------------------------------------------
  // The wire format, as the board writes it
  // ---------------------------------------------------------------------------

  function ShowAll(ints: seq<int>): (tokens: seq<seq<byte>>)
    ensures |tokens| == |ints|
  {
    seq(|ints|, k requires 0 <= k < |ints| => ShowInt(ints[k]))
  }

  /** `accel;` then each integer followed by `;`, then `\r\n`. */
  function Frame(ints: seq<int>): seq<byte> {
    Join([Accel] + ShowAll(ints) + [CrLf], Semicolon)
  }

  /** The same line with the final `\r\n` missing, so it ends in `;`. */
  function FrameWithoutCrLf(ints: seq<int>): seq<byte> {
    Join([Accel] + ShowAll(ints) + [[]], Semicolon)
  }

  lemma ShowIntHasNoSemicolon(n: int)
    ensures Semicolon !in ShowInt(n)
    ensures ShowInt(n) != CrLf
  {
    if n < 0 { ShowNatDigits(-n); } else { ShowNatDigits(n); }
  }

  /** Tokens that are all integer literals read as their values, in order. */
  lemma {:induction false} IntTokensOfLiterals(tokens: seq<seq<byte>>, ints: seq<int>)
    requires |tokens| == |ints|
    requires forall k :: 0 <= k < |tokens| ==> tokens[k] != CrLf && ParseInt(tokens[k]) == Some(ints[k])
    ensures IntTokens(tokens) == Ints(ints)
    decreases |tokens|
  {
    if tokens != [] {
      var n := |tokens|;
      IntTokensOfLiterals(tokens[..n - 1], ints[..n - 1]);
      IntTokensSnoc(tokens[..n - 1], ints[..n - 1], tokens[n - 1], ints[n - 1]);
      assert tokens[..n - 1] + [tokens[n - 1]] == tokens;
      assert ints[..n - 1] + [ints[n - 1]] == ints;
    }
  }

  /** One more integer token after well-formed ones adds its value at the end. */
  lemma IntTokensSnoc(tokens: seq<seq<byte>>, xs: seq<int>, t: seq<byte>, x: int)
    requires IntTokens(tokens) == Ints(xs)
    requires t != CrLf && ParseInt(t) == Some(x)
    ensures IntTokens(tokens + [t]) == Ints(xs + [x])
  {
    assert (tokens + [t])[..|tokens|] == tokens;
  }

  /** The tokens of a board line split back out unchanged. */
  lemma SplitLine(tokens: seq<seq<byte>>, last: seq<byte>)
    requires last == CrLf || last == []
    requires forall k :: 0 <= k < |tokens| ==> Semicolon !in tokens[k]
    ensures Split(Join([Accel] + tokens + [last], Semicolon), Semicolon) == [Accel] + tokens + [last]
  {
    MarkersHaveNoSemicolon();
    var head := [Accel] + tokens;
    var parts := head + [last];
    forall k | 0 <= k < |parts| ensures Semicolon !in parts[k] {
      if k == |head| {
        assert parts[k] == last;
      } else {
        assert parts[k] == head[k];
        if k > 0 {
          assert head[k] == tokens[k - 1];
        }
      }
    }
    SplitJoin(parts, Semicolon);
  }

  lemma MarkersHaveNoSemicolon()
    ensures Semicolon !in Accel && Semicolon !in CrLf && Semicolon !in []
  {
  }

  lemma SplitBoardLine(ints: seq<int>, last: seq<byte>)
    requires last == CrLf || last == []
    ensures Split(Join([Accel] + ShowAll(ints) + [last], Semicolon), Semicolon)
            == [Accel] + ShowAll(ints) + [last]
  {
    forall k | 0 <= k < |ints| ensures Semicolon !in ShowAll(ints)[k] {
      ShowIntHasNoSemicolon(ints[k]);
    }
    SplitLine(ShowAll(ints), last);
  }

  /** A marked line of integer literals, however each is written (padded with
      whitespace, signed, with leading zeros), followed by `\r\n`, decodes to
      the values of its first twelve integers, or raises `IndexError` when it
      carries fewer. */
  lemma DecodeLine(tokens: seq<seq<byte>>, ints: seq<int>)
    requires |tokens| == |ints|
    requires forall k :: 0 <= k < |tokens| ==>
      Semicolon !in tokens[k] && tokens[k] != CrLf && ParseInt(tokens[k]) == Some(ints[k])
    ensures Decode(Join([Accel] + tokens + [CrLf], Semicolon)) ==
      if |ints| < 12 then Raises(IndexError) else Sample(Reconstruct(ints))
  {
    var parts := [Accel] + tokens + [CrLf];
    SplitLine(tokens, CrLf);
    assert parts[1..] == tokens + [CrLf];
    assert (tokens + [CrLf])[..|tokens|] == tokens;
    IntTokensOfLiterals(tokens, ints);
  }

  /** Round trip: a line the board writes with every integer in plain decimal
      decodes to the six fixed-point values of its first twelve integers, or
      raises `IndexError` when it has fewer. */
  lemma DecodeFrame(ints: seq<int>)
    ensures Decode(Frame(ints)) ==
      if |ints| < 12 then Raises(IndexError) else Sample(Reconstruct(ints))
  {
    var tokens := ShowAll(ints);
    forall k | 0 <= k < |tokens|
      ensures Semicolon !in tokens[k] && tokens[k] != CrLf && ParseInt(tokens[k]) == Some(ints[k])
    {
      ShowIntHasNoSemicolon(ints[k]);
      ParseShowInt(ints[k]);
    }
    DecodeLine(tokens, ints);
  }

  /** An integer as a device may spell it: optional leading whitespace, an
      optional sign, leading zeros, then the decimal digits of its magnitude. */
  function Literal(pre: seq<byte>, sign: seq<byte>, zeros: nat, n: nat): seq<byte> {
    pre + sign + seq(zeros, _ => Zero) + ShowNat(n)
  }

  /** Such a spelling is a valid token: no `;`, not `\r\n`, and it reads as
      the signed magnitude. */
  lemma LiteralToken(pre: seq<byte>, sign: seq<byte>, zeros: nat, n: nat)
    requires forall k :: 0 <= k < |pre| ==> IsSpace(pre[k])
    requires sign == [] || sign == [Minus] || sign == [Plus]
    ensures Semicolon !in Literal(pre, sign, zeros, n)
    ensures Literal(pre, sign, zeros, n) != CrLf
    ensures ParseInt(Literal(pre, sign, zeros, n)) == Some(if sign == [Minus] then -(n as int) else n)
  {
    LiteralBytes(pre, sign, zeros, n);
    var t := Literal(pre, sign, zeros, n);
    ParseZeroPaddedInt(pre, sign, seq(zeros, _ => Zero), n, []);
    assert t + [] == t;
  }

  /** A spelling holds only whitespace, a sign and digits, and ends in a digit. */
  lemma LiteralBytes(pre: seq<byte>, sign: seq<byte>, zeros: nat, n: nat)
    requires forall k :: 0 <= k < |pre| ==> IsSpace(pre[k])
    requires sign == [] || sign == [Minus] || sign == [Plus]
    ensures Semicolon !in Literal(pre, sign, zeros, n)
    ensures Literal(pre, sign, zeros, n) != CrLf
  {
    var t := Literal(pre, sign, zeros, n);
    var digits := seq(zeros, _ => Zero) + ShowNat(n);
    ShowNatDigits(n);
    assert t == pre + sign + digits;
    forall k | 0 <= k < |t| ensures t[k] != Semicolon {
      if k < |pre| {
        assert t[k] == pre[k];
      } else if k < |pre| + |sign| {
        assert t[k] == sign[k - |pre|];
      } else if k < |pre| + |sign| + zeros {
        assert t[k] == digits[k - |pre| - |sign|] == Zero;
      } else {
        assert t[k] == ShowNat(n)[k - |pre| - |sign| - zeros];
      }
    }
    assert IsDigit(t[|t| - 1]) by {
      assert t[|t| - 1] == ShowNat(n)[|ShowNat(n)| - 1];
    }
  }

  /** The twelve tokens of the example line in the class comment. */
  const DocumentedTokens: seq<seq<byte>> := [
    Literal([0x20], [], 0, 0),         // " 0"
    Literal([], [], 1, 81405),         // "081405"
    Literal([], [], 0, 0),             // "0"
    Literal([], [Minus], 0, 260377),   // "-260377"
    Literal([], [Minus], 0, 9),        // "-9"
    Literal([], [Minus], 0, 903318),   // "-903318"
    Literal([], [], 0, 0),             // "0"
    Literal([], [], 2, 1331),          // "001331"
    Literal([], [], 0, 0),             // "0"
    Literal([], [Minus], 1, 2130),     // "-02130"
    Literal([], [], 0, 0),             // "0"
    Literal([], [], 5, 0)              // "000000"
  ]

  const DocumentedInts: seq<int> := [0, 81405, 0, -260377, -9, -903318, 0, 1331, 0, -2130, 0, 0]

  /** Each documented token reads as its integer, leading zeros, sign and the
      leading space included. */
  lemma DocumentedTokenValue(k: nat)
    requires k < 12
    ensures Semicolon !in DocumentedTokens[k] && DocumentedTokens[k] != CrLf
    ensures ParseInt(DocumentedTokens[k]) == Some(DocumentedInts[k])
  {
    if k == 0 {
      LiteralToken([0x20], [], 0, 0);
    } else if k == 1 {
      LiteralToken([], [], 1, 81405);
    } else if k == 3 {
      LiteralToken([], [Minus], 0, 260377);
    } else if k == 4 {
      LiteralToken([], [Minus], 0, 9);
    } else if k == 5 {
      LiteralToken([], [Minus], 0, 903318);
    } else if k == 7 {
      LiteralToken([], [], 2, 1331);
    } else if k == 9 {
      LiteralToken([], [Minus], 1, 2130);
    } else if k == 11 {
      LiteralToken([], [], 5, 0);
    } else {
      LiteralToken([], [], 0, 0);
    }
  }

  lemma DocumentedTokensValid()
    ensures forall k :: 0 <= k < |DocumentedTokens| ==>
      Semicolon !in DocumentedTokens[k] && DocumentedTokens[k] != CrLf && ParseInt(DocumentedTokens[k]) == Some(DocumentedInts[k])
  {
    forall k | 0 <= k < |DocumentedTokens|
      ensures Semicolon !in DocumentedTokens[k] && DocumentedTokens[k] != CrLf
      ensures ParseInt(DocumentedTokens[k]) == Some(DocumentedInts[k])
    {
      DocumentedTokenValue(k);
    }
  }

  /** The six values the documented integers stand for. */
  lemma DocumentedValues()
    ensures Reconstruct(DocumentedInts) == [0.081405, -0.260377, -9.903318, 0.001331, -0.00213, 0.0]
  {
  }

  /** The example line of the class comment, with the `\r\n` that ends every
      line the board sends, decodes to the six values it documents. */
  lemma DocumentedLineDecodes()
    ensures Decode(Join([Accel] + DocumentedTokens + [CrLf], Semicolon))
            == Sample([0.081405, -0.260377, -9.903318, 0.001331, -0.00213, 0.0])
  {
    DocumentedTokensValid();
    DecodeLine(DocumentedTokens, DocumentedInts);
    DocumentedValues();
  }

  /** Printed as in the comment, ending in `;` with no `\r\n`, the same line
      raises `ValueError`. */
  lemma DocumentedLineAsPrintedRaises()
    ensures Decode(Join([Accel] + DocumentedTokens + [[]], Semicolon)) == Raises(ValueError)
  {
    DocumentedTokensValid();
    var printed := Join([Accel] + DocumentedTokens + [[]], Semicolon);
    SplitLine(DocumentedTokens, []);
    assert Strip([]) == [];
    BadLastTokenRaises(printed);
  }

  /** A line whose last token is neither `\r\n` nor an integer literal raises
      `ValueError`, whatever came before it. */
  lemma BadLastTokenRaises(frame: seq<byte>)
    requires Split(frame, Semicolon)[0] == Accel
    requires |Split(frame, Semicolon)| >= 2
    requires Last(Split(frame, Semicolon)) != CrLf
    requires ParseInt(Last(Split(frame, Semicolon))).None?
    ensures Decode(frame) == Raises(ValueError)
  {
    var ts := Split(frame, Semicolon)[1..];
    assert Last(ts) == Last(Split(frame, Semicolon));
  }

  /** The empty token after a final `;` is not an integer: a marked line that
      ends in `;` with no `\r\n` after it raises `ValueError`. */
  lemma TrailingSeparatorRaises(frame: seq<byte>)
    requires Split(frame, Semicolon)[0] == Accel
    requires |frame| > 0 && frame[|frame| - 1] == Semicolon
    ensures Decode(frame) == Raises(ValueError)
  {
    EmptyLastToken(frame);
    BadLastTokenRaises(frame);
  }

  /** The last token of bytes ending in `;` is empty, hence no integer. */
  lemma EmptyLastToken(frame: seq<byte>)
    requires |frame| > 0 && frame[|frame| - 1] == Semicolon
    ensures |Split(frame, Semicolon)| >= 2
    ensures Last(Split(frame, Semicolon)) == []
    ensures ParseInt(Last(Split(frame, Semicolon))).None?
  {
    SplitTrailingSeparator(frame, Semicolon);
    assert Strip([]) == [];
  }

  /** So does every board line with its `\r\n` cut off, however many integers it carries. */
  lemma FrameWithoutCrLfRaises(ints: seq<int>)
    ensures Decode(FrameWithoutCrLf(ints)) == Raises(ValueError)
  {
    SplitBoardLine(ints, []);
    assert Strip([]) == [];
    BadLastTokenRaises(FrameWithoutCrLf(ints));
  }

  // ---------------------------------------------------------------------------
  // The board's encoding of one value
  // ---------------------------------------------------------------------------

  /** How the examples of the class comment encode a value of `micro` millionths:
      the integer part truncated toward zero, the rest, with the same sign, as
      the fractional token. */
  function EncodeMicro(micro: int): (pair: (int, int))
    ensures pair.0 * 1000000 + pair.1 == micro
    ensures -1000000 < pair.1 < 1000000
    ensures pair.1 != 0 ==> (pair.1 < 0 <==> micro < 0)
  {
    if micro >= 0 then (micro / 1000000, micro % 1000000)
    else (-((-micro) / 1000000), -((-micro) % 1000000))
  }

  /** Decoding an encoded value gives it back exactly. */
  lemma FixedEncodeMicro(micro: int)
    ensures Fixed(EncodeMicro(micro).0, EncodeMicro(micro).1) == micro as real / 1000000.0
    ensures EncodeMicro(-1250000) == (-1, -250000)
    ensures EncodeMicro(-250000) == (0, -250000)
  {
  }

  // ---------------------------------------------------------------------------
  // parse_data as the source runs it
  // ---------------------------------------------------------------------------

  /** The loop that fills `data_int`. */
  method ParseIntegers(tokens: seq<seq<byte>>) returns (r: Ints)
    ensures r == IntTokens(tokens)
  {
    var dataInt: seq<int> := [];
    var i := 0;
    while i < |tokens|
      invariant 0 <= i <= |tokens|
      invariant IntTokens(tokens[..i]) == Ints(dataInt)
    {
      var x := tokens[i];
      assert tokens[..i + 1][..i] == tokens[..i];
      if x != CrLf {
        var v := ParseInt(x);
        if v.None? {
          BadTokenSticks(tokens, i + 1);
          return BadToken;
        }
        dataInt := dataInt + [v.value];
      }
      i := i + 1;
    }
    assert tokens[..i] == tokens;
    r := Ints(dataInt);
  }

  /** Once a token fails, the whole loop fails. */
  lemma {:induction false} BadTokenSticks(tokens: seq<seq<byte>>, n: nat)
    requires n <= |tokens|
    requires IntTokens(tokens[..n]) == BadToken
    ensures IntTokens(tokens) == BadToken
    decreases |tokens| - n
  {
    if n < |tokens| {
      assert tokens[..n + 1][..n] == tokens[..n];
      BadTokenSticks(tokens, n + 1);
    } else {
      assert tokens[..n] == tokens;
    }
  }

  /** The result of one `parse_data` call: `None`, a new `AccelerometerData`,
      or the exception it raised. */
  datatype Parsed = NoneValue | Data(sample: Samples.AccelerometerData) | Raised(error: ParseError)

  /** `parse_data(data, log)`. `logged` is the vector the debug message shows:
      present exactly when `log` is set and a sample was produced. The result
      itself does not depend on `log`. */
  method ParseData(data: seq<byte>, log: bool) returns (r: Parsed, logged: Option<seq<real>>)
    ensures Decode(data) == NoFrame ==> r == NoneValue
    ensures Decode(data).Raises? ==> r == Raised(Decode(data).error)
    ensures Decode(data).Sample? ==>
      && r.Data? && fresh(r.sample) && r.sample.Valid()
      && r.sample.data == Decode(data).values
      && r.sample.iterIdx == Samples.Unset
    ensures logged == if log && r.Data? then Some(r.sample.data) else None
  {
    logged := None;
    var splitData := Split(data, Semicolon);
    if splitData[0] != Accel {
      return NoneValue, None;
    }
    var dataInt := ParseIntegers(splitData[1..]);
    if dataInt.BadToken? {
      return Raised(ValueError), None;
    }
    if |dataInt.values| < 12 {
      return Raised(IndexError), None;
    }
    var dataOut := Reconstruct(dataInt.values);
    if log {
      logged := Some(dataOut);
    }
    var sample := new Samples.AccelerometerData(dataOut);
    r := Data(sample);
  }
}
